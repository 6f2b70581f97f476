/** An instruction of a Kanata trace: the stages it went through in each
    lane (segment), the instructions it depends on (producers), those that
    depend on it (consumers), and its fetch and retire cycles.

    The state of an instruction is the value InsnState; each operation of
    Insn is a function on that value (the trace loader and the view apply
    those functions to the instructions they hold), and the class Insn
    carries the same operations as methods that update its fields. */
module KanataInsn {
  import opened Wrappers

  // ---------------------------------------------------------------------
  // Fixed-width integers of the C# source
  // ---------------------------------------------------------------------

  predicate IsInt32(x: int) { -0x8000_0000 <= x < 0x8000_0000 }
  predicate IsInt64(x: int) { -0x8000_0000_0000_0000 <= x < 0x8000_0000_0000_0000 }

  /** The two's complement reading of the low 32 bits of x: an (Int32) cast,
      and the wrap-around of C# int arithmetic. */
  function ToInt32(x: int): (r: int)
    ensures IsInt32(r)
  {
    (x + 0x8000_0000) % 0x1_0000_0000 - 0x8000_0000
  }

  /** The same for 64 bits: C# long arithmetic wraps around. */
  function ToInt64(x: int): (r: int)
    ensures IsInt64(r)
  {
    (x + 0x8000_0000_0000_0000) % 0x1_0000_0000_0000_0000 - 0x8000_0000_0000_0000
  }

  lemma ToInt32Exact(x: int)
    requires IsInt32(x)
    ensures ToInt32(x) == x
  {
  }

  /** Wrapping an inner sum first does not change the wrapped result. */
  lemma ToInt32AddInner(a: int, b: int)
    ensures ToInt32(a + ToInt32(b)) == ToInt32(a + b)
  {
    var q := (b + 0x8000_0000) / 0x1_0000_0000;
    assert a + ToInt32(b) + 0x8000_0000 == (a + b + 0x8000_0000) - 0x1_0000_0000 * q;
    ModShift(a + b + 0x8000_0000, q);
  }

  lemma ModShift(v: int, q: int)
    ensures (v - 0x1_0000_0000 * q) % 0x1_0000_0000 == v % 0x1_0000_0000
  {
    var r := v % 0x1_0000_0000;
    assert v - 0x1_0000_0000 * q == 0x1_0000_0000 * (v / 0x1_0000_0000 - q) + r;
  }

  // ---------------------------------------------------------------------
  // Stages and relations
  // ---------------------------------------------------------------------

  /** A stage an instruction stayed in, relative to its fetch cycle; the
      comment is the text labelled onto the stage (a null comment reads as ""). */
  datatype Stage = Stage(id: int, beginRelCycle: int, length: int, comment: string)

  /** The cycle the stage ends in: BeginRelCycle + Length in 32-bit arithmetic. */
  function EndRelCycle(s: Stage): int
  {
    ToInt32(s.beginRelCycle + s.length)
  }

  /** Assigning EndRelCycle sets the length to value - BeginRelCycle. */
  function WithEndRelCycle(s: Stage, value: int): (r: Stage)
    ensures r.id == s.id && r.beginRelCycle == s.beginRelCycle && r.comment == s.comment
    ensures IsInt32(r.length)
  {
    s.(length := ToInt32(value - s.beginRelCycle))
  }

  /** Reading EndRelCycle back gives the 32-bit value assigned to it,
      whatever the stage's begin cycle. */
  lemma EndRelCycleRoundTrip(s: Stage, value: int)
    requires IsInt32(value)
    ensures EndRelCycle(WithEndRelCycle(s, value)) == value
  {
    ToInt32AddInner(s.beginRelCycle, value - s.beginRelCycle);
    ToInt32Exact(value);
  }

  /** A dependency: the id of the other instruction and the kind of the edge
      (0 is a wakeup). */
  datatype Relation = Relation(id: nat, kind: int)

  // ---------------------------------------------------------------------
  // The instruction as a value
  // ---------------------------------------------------------------------

  datatype InsnState = InsnState(
    stageSegments: seq<seq<Stage>>,
    producers: seq<Relation>,
    name: string,
    detail: string,
    id: nat,
    startCycle: int,
    length: nat,
    rid: nat,
    tid: nat,
    gsid: nat,
    flushed: bool,
    consumers: seq<Relation>)

  /** Init: empty name, detail and producers, zero ids and start cycle, not
      flushed; the stage lists, the consumers and the length are kept. */
  function InitStep(d: InsnState): InsnState
  {
    d.(name := "", detail := "", id := 0, startCycle := 0, producers := [],
       rid := 0, tid := 0, gsid := 0, flushed := false)
  }

  /** A new, initialised instruction (the loader's `new Insn()` then `Init()`). */
  function NewInsn(): InsnState
  {
    InitStep(InsnState([], [], "", "", 0, 0, 0, 0, 0, 0, false, []))
  }

  lemma InitClears(d: InsnState)
    ensures var r := InitStep(d);
      r.producers == [] && r.name == "" && r.detail == ""
      && r.id == 0 && r.rid == 0 && r.tid == 0 && r.gsid == 0 && r.startCycle == 0 && !r.flushed
      && r.stageSegments == d.stageSegments && r.consumers == d.consumers && r.length == d.length
  {
  }

  /** EndCycle: StartCycle + Length in 64-bit arithmetic. */
  function EndCycleOf(d: InsnState): int
  {
    ToInt64(d.startCycle + d.length)
  }

  const U32: nat := 0x1_0000_0000

  /** Assigning EndCycle: an error (ArgumentOutOfRangeException) before the
      start cycle, otherwise the length becomes the difference truncated to
      32 bits (the (uint) cast). */
  function SetEndCycleStep(d: InsnState, value: int): Result<InsnState>
  {
    if value < d.startCycle then Fail("EndCycle must not precede the start cycle")
    else Ok(d.(length := (value - d.startCycle) % U32))
  }

  /** Assigning EndCycle fails exactly before the start cycle, changes only
      the length, and reads back as the value assigned whenever the
      instruction lived fewer than 2^32 cycles; a longer life is truncated. */
  lemma SetEndCycleReadsBack(d: InsnState, value: int)
    requires IsInt64(value) && IsInt64(d.startCycle)
    ensures SetEndCycleStep(d, value).Fail? <==> value < d.startCycle
    ensures SetEndCycleStep(d, value).Ok? ==>
      SetEndCycleStep(d, value).value == d.(length := SetEndCycleStep(d, value).value.length)
    ensures SetEndCycleStep(d, value).Ok? && value - d.startCycle < U32 ==>
      EndCycleOf(SetEndCycleStep(d, value).value) == value
    ensures SetEndCycleStep(d, value).Ok? && value - d.startCycle >= U32 ==>
      EndCycleOf(SetEndCycleStep(d, value).value) < value
  {
    if value >= d.startCycle {
      var r := SetEndCycleStep(d, value).value;
      if value - d.startCycle < U32 {
        assert r.length == value - d.startCycle;
        assert d.startCycle + r.length == value;
      } else {
        assert r.length < U32;
        assert d.startCycle + r.length < value;
        assert IsInt64(d.startCycle + r.length);
      }
    }
  }

  /** The stage list of segment k, empty when the instruction has none yet. */
  function SegmentOf(segs: seq<seq<Stage>>, k: nat): seq<Stage>
  {
    if k < |segs| then segs[k] else []
  }

  /** The stage lists extended with empty ones so that index k exists. */
  function GrowTo(segs: seq<seq<Stage>>, k: nat): (r: seq<seq<Stage>>)
    ensures |r| == if k < |segs| then |segs| else k + 1
    ensures forall j :: 0 <= j < |r| ==> r[j] == SegmentOf(segs, j)
    decreases k + 1 - |segs|
  {
    if k < |segs| then segs else GrowTo(segs + [[]], k)
  }

  /** AddStage: the stage is appended to the list of its segment. */
  function AddStageStep(d: InsnState, segmentId: nat, s: Stage): InsnState
  {
    var grown := GrowTo(d.stageSegments, segmentId);
    d.(stageSegments := grown[segmentId := grown[segmentId] + [s]])
  }

  /** AddStage creates empty lists up to the segment, appends the stage to
      that segment's list, and leaves every other list and field as it was. */
  lemma AddStageAppends(d: InsnState, segmentId: nat, s: Stage)
    ensures var r := AddStageStep(d, segmentId, s);
      |r.stageSegments| == (if segmentId < |d.stageSegments| then |d.stageSegments| else segmentId + 1)
      && r.stageSegments[segmentId] == SegmentOf(d.stageSegments, segmentId) + [s]
      && (forall j :: 0 <= j < |r.stageSegments| && j != segmentId ==>
            r.stageSegments[j] == SegmentOf(d.stageSegments, j))
      && r.(stageSegments := d.stageSegments) == d
  {
  }

  /** The ids of a relation list. */
  function Ids(rs: seq<Relation>): set<nat>
  {
    set i | 0 <= i < |rs| :: rs[i].id
  }

  /** No two relations share an id. */
  predicate DistinctIds(rs: seq<Relation>)
  {
    forall i, j :: 0 <= i < j < |rs| ==> rs[i].id != rs[j].id
  }

  /** AddProducer: a relation whose id is already among the producers is
      ignored; otherwise it is appended. */
  function AddProducerStep(d: InsnState, rel: Relation): InsnState
  {
    if rel.id in Ids(d.producers) then d else d.(producers := d.producers + [rel])
  }

  /** After AddProducer the producer ids are the old ids plus the new one,
      the old producers come first, at most one relation was added, and
      producer ids stay pairwise distinct. */
  lemma AddProducerDedups(d: InsnState, rel: Relation)
    ensures var r := AddProducerStep(d, rel);
      Ids(r.producers) == Ids(d.producers) + {rel.id}
      && d.producers <= r.producers && |r.producers| <= |d.producers| + 1
      && (DistinctIds(d.producers) ==> DistinctIds(r.producers))
      && r.(producers := d.producers) == d
  {
    var r := AddProducerStep(d, rel);
    if rel.id !in Ids(d.producers) {
      assert r.producers[|d.producers|] == rel;
      forall x | x in Ids(d.producers) + {rel.id}
        ensures x in Ids(r.producers)
      {
        if x == rel.id {
          assert r.producers[|d.producers|].id == x;
        } else {
          var i :| 0 <= i < |d.producers| && d.producers[i].id == x;
          assert r.producers[i].id == x;
        }
      }
    }
  }

  /** AddConsumer: the relation is appended, duplicates included. */
  function AddConsumerStep(d: InsnState, rel: Relation): InsnState
  {
    d.(consumers := d.consumers + [rel])
  }

  /** AddConsumer adds exactly one occurrence of the relation, even when an
      equal one is already there. */
  lemma AddConsumerCounts(d: InsnState, rel: Relation)
    ensures var r := AddConsumerStep(d, rel);
      multiset(r.consumers) == multiset(d.consumers) + multiset{rel}
      && multiset(r.consumers)[rel] == multiset(d.consumers)[rel] + 1
      && r.(consumers := d.consumers) == d
  {
  }

  // ---------------------------------------------------------------------
  // The instruction object
  // ---------------------------------------------------------------------

  class Insn {
    var stageSegments: seq<seq<Stage>>
    var producers: seq<Relation>
    var name: string
    var detail: string
    var id: nat
    var startCycle: int
    var length: nat
    var rid: nat
    var tid: nat
    var gsid: nat
    var flushed: bool
    var consumers: seq<Relation>

    function Snapshot(): InsnState
      reads this
    {
      InsnState(stageSegments, producers, name, detail, id, startCycle, length,
                rid, tid, gsid, flushed, consumers)
    }

    /** `new Insn()` followed by Init(). */
    constructor ()
      ensures Snapshot() == NewInsn()
    {
      stageSegments := [];
      producers := [];
      name := "";
      detail := "";
      id := 0;
      startCycle := 0;
      length := 0;
      rid := 0;
      tid := 0;
      gsid := 0;
      flushed := false;
      consumers := [];
    }

    method Init()
      modifies this
      ensures Snapshot() == InitStep(old(Snapshot()))
    {
      ghost var before := Snapshot();
      name := "";
      detail := "";
      id := 0;
      startCycle := 0;
      producers := [];
      rid := 0;
      tid := 0;
      gsid := 0;
      flushed := false;
      assert Snapshot() == InitStep(before);
    }

    function EndCycle(): int
      reads this
    {
      EndCycleOf(Snapshot())
    }

    /** The EndCycle setter; Fail is the exception it throws. */
    method SetEndCycle(value: int) returns (r: Result<()>)
      modifies this
      ensures r.Fail? <==> SetEndCycleStep(old(Snapshot()), value).Fail?
      ensures r.Ok? ==> Snapshot() == SetEndCycleStep(old(Snapshot()), value).value
      ensures r.Fail? ==> Snapshot() == old(Snapshot())
    {
      if value < startCycle {
        return Fail("EndCycle must not precede the start cycle");
      }
      length := (value - startCycle) % U32;
      return Ok(());
    }

    method AddStage(segmentId: nat, s: Stage)
      modifies this
      ensures Snapshot() == AddStageStep(old(Snapshot()), segmentId, s)
    {
      if segmentId >= |stageSegments| {
        var i := |stageSegments|;
        while i <= segmentId
          invariant |stageSegments| == i <= segmentId + 1
          invariant GrowTo(stageSegments, segmentId) == GrowTo(old(stageSegments), segmentId)
          invariant Snapshot().(stageSegments := old(stageSegments)) == old(Snapshot())
          decreases segmentId + 1 - i
        {
          stageSegments := stageSegments + [[]];
          i := i + 1;
        }
      }
      stageSegments := stageSegments[segmentId := stageSegments[segmentId] + [s]];
    }

    method AddProducer(producer: Relation)
      modifies this
      ensures Snapshot() == AddProducerStep(old(Snapshot()), producer)
    {
      var i := 0;
      while i < |producers|
        invariant 0 <= i <= |producers|
        invariant producer.id !in Ids(producers[..i])
        invariant Snapshot() == old(Snapshot())
      {
        if producers[i].id == producer.id {
          assert producer.id in Ids(producers);
          return;
        }
        assert producers[..i + 1] == producers[..i] + [producers[i]];
        i := i + 1;
      }
      assert producers[..i] == producers;
      producers := producers + [producer];
    }

    method AddConsumer(consumer: Relation)
      modifies this
      ensures Snapshot() == AddConsumerStep(old(Snapshot()), consumer)
    {
      consumers := consumers + [consumer];
    }
  }
}
