/** The part of the Kanata viewer that turns the loaded trace into what the
    view draws: the array of instructions of the id window, the consumer
    links that LoadInsns adds to producers inside the window, and for every
    id the span of ids the dependency arrows crossing it reach. Instructions
    are held by value; the span objects are DependencyRange objects that
    the view updates in place. */
module KanataView {
  import opened Wrappers
  import opened KanataInsn
  import opened KanataLoader

  const I64Max: int := 0x7FFF_FFFF_FFFF_FFFF
  const I64Min: int := -0x8000_0000_0000_0000

  /** A range of instruction ids [front, back]. */
  datatype IdSpan = IdSpan(front: nat, back: nat)

  /** SetRange on a span: the front moves down to f and the back up to b
      when they lie outside; the span never shrinks. */
  function Widen(s: IdSpan, f: nat, b: nat): (r: IdSpan)
    ensures r.front <= s.front && r.front <= f && (r.front == s.front || r.front == f)
    ensures s.back <= r.back && b <= r.back && (r.back == s.back || r.back == b)
  {
    IdSpan(if s.front > f then f else s.front, if s.back < b then b else s.back)
  }

  /** Widening is idempotent, and the order of two widenings does not
      matter: the spans do not depend on the order the edges are met. */
  lemma WidenOrderFree(s: IdSpan, f1: nat, b1: nat, f2: nat, b2: nat)
    ensures Widen(Widen(s, f1, b1), f1, b1) == Widen(s, f1, b1)
    ensures Widen(Widen(s, f1, b1), f2, b2) == Widen(Widen(s, f2, b2), f1, b1)
  {
  }

  /** MainForm.DependencyRange: the span of ids the dependency arrows that
      cross one instruction reach. */
  class DependencyRange {
    var front: nat
    var back: nat

    function AsSpan(): IdSpan
      reads this
    {
      IdSpan(front, back)
    }

    constructor (front: nat, back: nat)
      ensures AsSpan() == IdSpan(front, back)
    {
      this.front := front;
      this.back := back;
    }

    /** SetRange only widens: the front never increases, the back never
        decreases, and afterwards the span covers [f, b]. */
    method SetRange(f: nat, b: nat)
      modifies this
      ensures AsSpan() == Widen(old(AsSpan()), f, b)
    {
      if front > f {
        front := f;
      }
      if back < b {
        back := b;
      }
    }
  }

  // ---------------------------------------------------------------------
  // What LoadInsns computes
  // ---------------------------------------------------------------------

  /** The window as LoadInsns reads it from the archive: for each id from
      `from` on, the archived instruction or nothing (GetInsnFromDB
      returns null for an id it does not hold). */
  function Window(db: map<nat, InsnState>, from: nat, n: nat): (cs: seq<Option<InsnState>>)
    ensures |cs| == n
  {
    seq(n, j requires 0 <= j < n => if from + j in db then Some(db[from + j]) else None)
  }

  /** The number of ids the loop `for (id = lo; id <= hi; id++)` visits:
      none when lo > hi, as for a trace without instructions (whose
      summary has min 2^64-1 and max 0). */
  function WindowSize(lo: nat, hi: nat): nat
  {
    if lo <= hi then hi - lo + 1 else 0
  }

  /** The id is inside the window and an instruction is loaded for it. */
  predicate Loaded(cs: seq<Option<InsnState>>, from: nat, id: nat)
  {
    from <= id < from + |cs| && cs[id - from].Some?
  }

  /** A dependency arrow: the consumer relation added to a producer. */
  datatype Link = Link(producer: nat, rel: Relation)

  /** The ids an arrow crosses. */
  function Crossed(l: Link): IdSpan
  {
    IdSpan(Min(l.producer, l.rel.id), Max(l.producer, l.rel.id))
  }

  /** The arrows the producer list of consumer cid yields, in list order:
      a producer outside the window or not loaded yields none. */
  function LinksOf(cid: nat, ps: seq<Relation>, cs: seq<Option<InsnState>>, from: nat): (ls: seq<Link>)
    ensures forall i :: 0 <= i < |ls| ==> Loaded(cs, from, ls[i].producer) && ls[i].rel.id == cid
    decreases |ps|
  {
    if |ps| == 0 then []
    else
      var r := ps[|ps| - 1];
      LinksOf(cid, ps[..|ps| - 1], cs, from) + (if Loaded(cs, from, r.id) then [Link(r.id, Relation(cid, r.kind))] else [])
  }

  /** The arrows of the first n loaded instructions, consumer by consumer. */
  function AllLinks(cs: seq<Option<InsnState>>, n: nat, from: nat): (ls: seq<Link>)
    requires n <= |cs|
    ensures forall i :: 0 <= i < |ls| ==> Loaded(cs, from, ls[i].producer)
    decreases n
  {
    if n == 0 then []
    else
      AllLinks(cs, n - 1, from)
      + (if cs[n - 1].Some? then LinksOf(cs[n - 1].value.id, cs[n - 1].value.producers, cs, from) else [])
  }

  /** The consumer relations the arrows add to the producer id, in order. */
  function Added(links: seq<Link>, id: nat): (rs: seq<Relation>)
    ensures |rs| <= |links|
    decreases |links|
  {
    if |links| == 0 then []
    else
      var l := links[|links| - 1];
      Added(links[..|links| - 1], id) + (if l.producer == id then [l.rel] else [])
  }

  /** The span of an id after the arrows: [id, id] widened by every arrow
      that crosses the id. */
  function SpanAfter(id: nat, links: seq<Link>): IdSpan
    decreases |links|
  {
    if |links| == 0 then IdSpan(id, id)
    else
      var l := links[|links| - 1];
      var s := SpanAfter(id, links[..|links| - 1]);
      if Crossed(l).front <= id <= Crossed(l).back then Widen(s, Crossed(l).front, Crossed(l).back) else s
  }

  /** A loaded instruction with the arrows' consumer relations appended. */
  function Linked(c: Option<InsnState>, links: seq<Link>, id: nat): Option<InsnState>
  {
    if c.None? then None else Some(c.value.(consumers := c.value.consumers + Added(links, id)))
  }

  /** The earliest start cycle of the loaded instructions, long.MaxValue
      when none is loaded. */
  function CycleFrom(cs: seq<Option<InsnState>>): int
    decreases |cs|
  {
    if |cs| == 0 then I64Max
    else
      var c := CycleFrom(cs[..|cs| - 1]);
      var last := cs[|cs| - 1];
      if last.Some? && c > last.value.startCycle then last.value.startCycle else c
  }

  /** The latest end cycle of the loaded instructions, long.MinValue when
      none is loaded. */
  function CycleTo(cs: seq<Option<InsnState>>): int
    decreases |cs|
  {
    if |cs| == 0 then I64Min
    else
      var c := CycleTo(cs[..|cs| - 1]);
      var last := cs[|cs| - 1];
      if last.Some? && c < EndCycleOf(last.value) then EndCycleOf(last.value) else c
  }

  // ---------------------------------------------------------------------
  // What the arrows and the cycle range satisfy
  // ---------------------------------------------------------------------

  /** Every id's span contains the id, covers every arrow crossing the id,
      and reaches no further: each end is the id itself or an end of an
      arrow crossing the id. */
  lemma {:induction false} SpanAfterHull(id: nat, links: seq<Link>)
    ensures var s := SpanAfter(id, links);
      s.front <= id <= s.back
      && (forall i :: 0 <= i < |links| && Crossed(links[i]).front <= id <= Crossed(links[i]).back ==>
            s.front <= Crossed(links[i]).front && Crossed(links[i]).back <= s.back)
      && (s.front == id || exists i :: 0 <= i < |links| && Crossed(links[i]).front <= id <= Crossed(links[i]).back
                                                      && s.front == Crossed(links[i]).front)
      && (s.back == id || exists i :: 0 <= i < |links| && Crossed(links[i]).front <= id <= Crossed(links[i]).back
                                                     && s.back == Crossed(links[i]).back)
    decreases |links|
  {
    if |links| > 0 {
      var init := links[..|links| - 1];
      SpanAfterHull(id, init);
      assert forall i :: 0 <= i < |init| ==> init[i] == links[i];
    }
  }

  /** An id no arrow crosses keeps the span [id, id]. */
  lemma {:induction false} SpanAfterUncrossed(id: nat, links: seq<Link>)
    requires forall i :: 0 <= i < |links| ==> !(Crossed(links[i]).front <= id <= Crossed(links[i]).back)
    ensures SpanAfter(id, links) == IdSpan(id, id)
    decreases |links|
  {
    if |links| > 0 {
      var init := links[..|links| - 1];
      assert forall i :: 0 <= i < |init| ==> init[i] == links[i];
      SpanAfterUncrossed(id, init);
    }
  }

  /** The relations added to a producer are those of the arrows that end
      at it, and no others. */
  lemma {:induction false} AddedExactly(links: seq<Link>, id: nat)
    ensures forall r :: r in Added(links, id) <==> exists i :: 0 <= i < |links| && links[i] == Link(id, r)
    decreases |links|
  {
    var n := |links|;
    if n > 0 {
      var init := links[..n - 1];
      AddedExactly(init, id);
      assert forall i :: 0 <= i < n - 1 ==> init[i] == links[i];
      forall r | r in Added(links, id)
        ensures exists i :: 0 <= i < n && links[i] == Link(id, r)
      {
        if r !in Added(init, id) {
          assert links[n - 1] == Link(id, r);
        }
      }
      forall r, i | 0 <= i < n && links[i] == Link(id, r)
        ensures r in Added(links, id)
      {
        if i < n - 1 {
          assert init[i] == Link(id, r);
        }
      }
    }
  }

  /** Every arrow starts at a loaded producer inside the window and ends at
      a loaded consumer: a producer outside the window, or not loaded, gets
      no consumer relation. */
  lemma {:induction false} AllLinksLoaded(cs: seq<Option<InsnState>>, n: nat, from: nat)
    requires n <= |cs|
    requires forall j :: 0 <= j < |cs| && cs[j].Some? ==> cs[j].value.id == from + j
    ensures forall i :: 0 <= i < |AllLinks(cs, n, from)| ==>
      Loaded(cs, from, AllLinks(cs, n, from)[i].producer) && Loaded(cs, from, AllLinks(cs, n, from)[i].rel.id)
    decreases n
  {
    if n > 0 {
      AllLinksLoaded(cs, n - 1, from);
      var ls := AllLinks(cs, n, from);
      forall i | 0 <= i < |ls|
        ensures Loaded(cs, from, ls[i].rel.id)
      {
        if i >= |AllLinks(cs, n - 1, from)| {
          assert ls[i].rel.id == cs[n - 1].value.id == from + (n - 1);
        }
      }
    }
  }

  /** An id with no producer relation pointing at it gets no consumer. */
  lemma {:induction false} AddedNone(cs: seq<Option<InsnState>>, n: nat, from: nat, id: nat)
    requires n <= |cs| && !Loaded(cs, from, id)
    ensures Added(AllLinks(cs, n, from), id) == []
  {
    var ls := AllLinks(cs, n, from);
    AddedOnlyProducers(ls, id);
  }

  lemma {:induction false} AddedOnlyProducers(links: seq<Link>, id: nat)
    requires forall i :: 0 <= i < |links| ==> links[i].producer != id
    ensures Added(links, id) == []
    decreases |links|
  {
    if |links| > 0 {
      var init := links[..|links| - 1];
      assert forall i :: 0 <= i < |init| ==> init[i] == links[i];
      AddedOnlyProducers(init, id);
    }
  }

  /** The cycle range: no loaded instruction starts before CycleFrom or ends
      after CycleTo, and each bound is met by one, unless none is loaded. */
  lemma {:induction false} CycleRange(cs: seq<Option<InsnState>>)
    ensures forall j :: 0 <= j < |cs| && cs[j].Some? ==>
      CycleFrom(cs) <= cs[j].value.startCycle && EndCycleOf(cs[j].value) <= CycleTo(cs)
    ensures CycleFrom(cs) == I64Max || exists j :: 0 <= j < |cs| && cs[j].Some? && CycleFrom(cs) == cs[j].value.startCycle
    ensures CycleTo(cs) == I64Min || exists j :: 0 <= j < |cs| && cs[j].Some? && CycleTo(cs) == EndCycleOf(cs[j].value)
    decreases |cs|
  {
    if |cs| > 0 {
      var init := cs[..|cs| - 1];
      CycleRange(init);
      assert forall j :: 0 <= j < |init| ==> init[j] == cs[j];
    }
  }

  /** One more arrow adds its relation to its producer only. */
  lemma AddedSnoc(links: seq<Link>, l: Link, id: nat)
    ensures Added(links + [l], id) == Added(links, id) + (if l.producer == id then [l.rel] else [])
  {
    assert (links + [l])[..|links|] == links;
  }

  /** One more arrow widens the spans of the ids it crosses only. */
  lemma SpanSnoc(links: seq<Link>, l: Link, id: nat)
    ensures SpanAfter(id, links + [l])
      == if Crossed(l).front <= id <= Crossed(l).back then Widen(SpanAfter(id, links), Crossed(l).front, Crossed(l).back)
         else SpanAfter(id, links)
  {
    assert (links + [l])[..|links|] == links;
  }

  /** The window's instructions after the given arrows. */
  function LinkedAll(cs: seq<Option<InsnState>>, links: seq<Link>, from: nat): (r: seq<Option<InsnState>>)
    ensures |r| == |cs|
  {
    seq(|cs|, j requires 0 <= j < |cs| => Linked(cs[j], links, from + j))
  }

  /** The window's spans after the given arrows. */
  function SpansAll(n: nat, links: seq<Link>, from: nat): (r: seq<IdSpan>)
    ensures |r| == n
  {
    seq(n, j requires 0 <= j < n => SpanAfter(from + j, links))
  }

  /** The spans after widening every id of [front, back] to that range. */
  function WidenedAll(ss: seq<IdSpan>, from: nat, front: nat, back: nat): (r: seq<IdSpan>)
    ensures |r| == |ss|
  {
    seq(|ss|, j requires 0 <= j < |ss| => if front <= from + j <= back then Widen(ss[j], front, back) else ss[j])
  }

  /** Before any arrow the window shows the archived instructions as they
      are, each with the span [id, id]. */
  lemma LinkedAllNone(cs: seq<Option<InsnState>>, from: nat)
    ensures LinkedAll(cs, [], from) == cs
    ensures SpansAll(|cs|, [], from) == seq(|cs|, j requires 0 <= j < |cs| => IdSpan(from + j, from + j))
  {
    forall j | 0 <= j < |cs|
      ensures LinkedAll(cs, [], from)[j] == cs[j]
      ensures SpansAll(|cs|, [], from)[j] == IdSpan(from + j, from + j)
    {
      var none: seq<Link> := [];
      assert SpanAfter(from + j, none) == IdSpan(from + j, from + j);
      if cs[j].Some? {
        assert cs[j].value.consumers + [] == cs[j].value.consumers;
      }
    }
  }

  /** The arrows of one more instruction of the window, after those of the
      instructions before it. */
  lemma AllLinksStep(cs: seq<Option<InsnState>>, k: nat, from: nat)
    requires k < |cs| && (cs[k].Some? ==> cs[k].value.id == from + k)
    ensures AllLinks(cs, k + 1, from)
      == AllLinks(cs, k, from) + (if cs[k].Some? then LinksOf(from + k, cs[k].value.producers, cs, from) else [])
  {
  }

  /** The window shows an instruction exactly where one is loaded. */
  lemma LinkedAllLoaded(cs: seq<Option<InsnState>>, links: seq<Link>, from: nat, id: nat)
    ensures from <= id < from + |cs| ==> (LinkedAll(cs, links, from)[id - from].Some? <==> Loaded(cs, from, id))
    ensures !(from <= id < from + |cs|) ==> !Loaded(cs, from, id)
  {
  }

  /** One more arrow appends its relation to the consumers of its producer
      and changes no other instruction. */
  lemma {:induction false} LinkedAllSnoc(cs: seq<Option<InsnState>>, links: seq<Link>, l: Link, from: nat)
    requires Loaded(cs, from, l.producer)
    ensures var was := LinkedAll(cs, links, from);
      LinkedAll(cs, links + [l], from)
        == was[l.producer - from := Some(AddConsumerStep(was[l.producer - from].value, l.rel))]
  {
    var before := LinkedAll(cs, links, from);
    var after := LinkedAll(cs, links + [l], from);
    forall j | 0 <= j < |cs|
      ensures after[j] == if j == l.producer - from then Some(AddConsumerStep(before[j].value, l.rel)) else before[j]
    {
      AddedSnoc(links, l, from + j);
      if cs[j].Some? {
        var d := cs[j].value;
        var a := Added(links, from + j);
        if j == l.producer - from {
          assert d.consumers + (a + [l.rel]) == (d.consumers + a) + [l.rel];
        } else {
          assert a + [] == a;
        }
      }
    }
  }

  /** One more arrow widens exactly the spans of the ids it crosses. */
  lemma {:induction false} SpansAllSnoc(n: nat, links: seq<Link>, l: Link, from: nat)
    ensures SpansAll(n, links + [l], from) == WidenedAll(SpansAll(n, links, from), from, Crossed(l).front, Crossed(l).back)
  {
    forall j | 0 <= j < n
      ensures SpansAll(n, links + [l], from)[j] == WidenedAll(SpansAll(n, links, from), from, Crossed(l).front, Crossed(l).back)[j]
    {
      SpanSnoc(links, l, from + j);
    }
  }

  /** One more producer of the list: an arrow when it is loaded. */
  lemma LinksOfSnoc(cid: nat, ps: seq<Relation>, m: nat, cs: seq<Option<InsnState>>, from: nat)
    requires m < |ps|
    ensures LinksOf(cid, ps[..m + 1], cs, from)
      == LinksOf(cid, ps[..m], cs, from)
         + (if Loaded(cs, from, ps[m].id) then [Link(ps[m].id, Relation(cid, ps[m].kind))] else [])
  {
    assert ps[..m + 1][..m] == ps[..m];
  }

  /** The arrows of one more producer, after those already drawn. */
  lemma LinksOfStep(links: seq<Link>, cid: nat, ps: seq<Relation>, m: nat, cs: seq<Option<InsnState>>, from: nat)
    requires m < |ps|
    ensures links + LinksOf(cid, ps[..m + 1], cs, from)
      == (links + LinksOf(cid, ps[..m], cs, from))
         + (if Loaded(cs, from, ps[m].id) then [Link(ps[m].id, Relation(cid, ps[m].kind))] else [])
  {
    LinksOfSnoc(cid, ps, m, cs, from);
  }

  /** The cycle range of one more instruction of the window. */
  lemma CycleSnoc(cs: seq<Option<InsnState>>, i: nat)
    requires i < |cs|
    ensures CycleFrom(cs[..i + 1])
      == if cs[i].Some? && CycleFrom(cs[..i]) > cs[i].value.startCycle then cs[i].value.startCycle else CycleFrom(cs[..i])
    ensures CycleTo(cs[..i + 1])
      == if cs[i].Some? && CycleTo(cs[..i]) < EndCycleOf(cs[i].value) then EndCycleOf(cs[i].value) else CycleTo(cs[..i])
  {
    assert cs[..i + 1][..i] == cs[..i];
  }

  /** The archived instructions are filed under their own ids, so the
      window holds every instruction at its id's slot. */
  lemma WindowIds(db: map<nat, InsnState>, from: nat, n: nat)
    requires forall id :: id in db ==> db[id].id == id
    ensures forall j :: 0 <= j < n && Window(db, from, n)[j].Some? ==> Window(db, from, n)[j].value.id == from + j
  {
  }

  /** The spans the given objects hold. */
  ghost function SpansOf(rs: seq<DependencyRange>): (r: seq<IdSpan>)
    reads rs
    ensures |r| == |rs|
  {
    seq(|rs|, j requires 0 <= j < |rs| reads rs => rs[j].AsSpan())
  }

  /** The first loop of LoadInsns: every id of [lo, hi] gets its archived
      instruction, or nothing, and a span [id, id] of its own, while the
      cycle range is folded over the loaded instructions. */
  method FillWindow(db: map<nat, InsnState>, lo: nat, hi: nat)
    returns (loaded: array<Option<InsnState>>, spans: seq<DependencyRange>, cFrom: int, cTo: int)
    ensures fresh(loaded) && loaded[..] == Window(db, lo, WindowSize(lo, hi))
    ensures |spans| == WindowSize(lo, hi) && forall j :: 0 <= j < |spans| ==> fresh(spans[j])
    ensures SpansOf(spans) == SpansAll(WindowSize(lo, hi), [], lo)
    ensures forall i, j :: 0 <= i < j < |spans| ==> spans[i] != spans[j]
    ensures cFrom == CycleFrom(Window(db, lo, WindowSize(lo, hi))) && cTo == CycleTo(Window(db, lo, WindowSize(lo, hi)))
    ensures loaded[..] == LinkedAll(Window(db, lo, WindowSize(lo, hi)), [], lo)
  {
    var n := WindowSize(lo, hi);
    ghost var cs := Window(db, lo, n);
    loaded := new Option<InsnState>[n](_ => None);
    spans := [];
    cFrom, cTo := I64Max, I64Min;
    var i := 0;
    while i < n
      invariant i <= n && |spans| == i
      invariant loaded[..i] == cs[..i]
      invariant forall j :: 0 <= j < i ==> fresh(spans[j]) && spans[j].AsSpan() == IdSpan(lo + j, lo + j)
      invariant forall j, k :: 0 <= j < k < i ==> spans[j] != spans[k]
      invariant cFrom == CycleFrom(cs[..i]) && cTo == CycleTo(cs[..i])
    {
      var insn := if lo + i in db then Some(db[lo + i]) else None;
      assert insn == cs[i];
      loaded[i] := insn;
      assert loaded[..i + 1] == cs[..i + 1] by {
        assert loaded[..i + 1] == loaded[..i] + [insn];
        assert cs[..i + 1] == cs[..i] + [insn];
      }
      var range := new DependencyRange(lo + i, lo + i);
      spans := spans + [range];
      CycleSnoc(cs, i);
      if insn.Some? && cFrom > insn.value.startCycle {
        cFrom := insn.value.startCycle;
      }
      if insn.Some? && cTo < EndCycleOf(insn.value) {
        cTo := EndCycleOf(insn.value);
      }
      i := i + 1;
    }
    assert cs[..n] == cs;
    LinkedAllNone(cs, lo);
  }

  /** The id clamped into [from, to], as GetDependencyRange does. */
  function Clamp(id: nat, from: nat, to: nat): (r: nat)
    requires from <= to
    ensures from <= r <= to
    ensures from <= id <= to ==> r == id
    ensures id < from ==> r == from
    ensures to < id ==> r == to
  {
    if id < from then from else if id > to then to else id
  }

  /** The state of MainForm that LoadInsns fills: the id window (the
      coordinate system's IdFrom and IdTo), the summary's id range, the
      instructions of the window and their dependency spans, and the cycle
      range handed to the coordinate system. */
  class InsnView {
    var idFrom: nat
    var idTo: nat
    var minInsnId: nat
    var maxInsnId: nat
    var insns: array<Option<InsnState>>
    var dependencyRanges: seq<DependencyRange>
    var cycleFrom: int
    var cycleTo: int

    /** The window is [minInsnId, maxInsnId]; both arrays have one entry per
        id of the window; every id has its own span object. */
    predicate Valid()
      reads this
    {
      idFrom == minInsnId && maxInsnId == idTo
      && insns.Length == |dependencyRanges| == WindowSize(idFrom, idTo)
      && forall i, j :: 0 <= i < j < |dependencyRanges| ==> dependencyRanges[i] != dependencyRanges[j]
    }

    /** The instructions and spans of the window contents cs after the
        given arrows. */
    ghost predicate Shows(cs: seq<Option<InsnState>>, links: seq<Link>)
      reads this, insns, dependencyRanges
    {
      insns[..] == LinkedAll(cs, links, idFrom) && SpansOf(dependencyRanges) == SpansAll(|cs|, links, idFrom)
    }

    constructor ()
      ensures Valid() && insns[..] == [None]
    {
      idFrom, idTo, minInsnId, maxInsnId := 0, 0, 0, 0;
      insns := new Option<InsnState>[1](_ => None);
      var r := new DependencyRange(0, 0);
      dependencyRanges := [r];
      cycleFrom, cycleTo := 0, 0;
    }

    /** GetInsn: the loaded instruction with the id, nothing outside the
        window. */
    function GetInsn(id: nat): (r: Option<InsnState>)
      requires Valid()
      reads this, insns
      ensures r.Some? ==> idFrom <= id <= idTo
      ensures idFrom <= id <= idTo ==> r == insns[id - idFrom]
    {
      if id < idFrom || idTo < id then None else insns[id - idFrom]
    }

    /** GetDependencyRange: the span object of the id clamped into the
        loaded id range. The window of a trace without instructions is
        empty, and the slot the clamp picks is then outside it. */
    method GetDependencyRange(id: nat) returns (r: Result<DependencyRange>)
      requires Valid()
      ensures r.Ok? <==> idFrom <= idTo
      ensures r.Ok? ==> r.value == dependencyRanges[Clamp(id, Max(minInsnId, idFrom), Min(maxInsnId, idTo)) - idFrom]
    {
      var from := Max(minInsnId, idFrom);
      var to := Min(maxInsnId, idTo);
      var c := id;
      if c < from {
        c := from;
      }
      if c > to {
        c := to;
      }
      if c < idFrom || c - idFrom >= |dependencyRanges| {
        return Fail("index out of range");
      }
      r := Ok(dependencyRanges[c - idFrom]);
    }

    /** The inner loop of LoadInsns: every id of [front, back] gets its
        span widened to [front, back]; no other span changes. */
    method WidenRanges(front: nat, back: nat)
      requires Valid() && idFrom <= front <= back <= idTo
      modifies dependencyRanges
      ensures SpansOf(dependencyRanges) == WidenedAll(old(SpansOf(dependencyRanges)), idFrom, front, back)
    {
      var i := front;
      while i <= back
        invariant front <= i <= back + 1
        invariant forall j :: 0 <= j < |dependencyRanges| ==>
          dependencyRanges[j].AsSpan()
            == if front <= idFrom + j < i then Widen(old(dependencyRanges[j].AsSpan()), front, back)
               else old(dependencyRanges[j].AsSpan())
        decreases back + 1 - i
      {
        dependencyRanges[i - idFrom].SetRange(front, back);
        i := i + 1;
      }
    }

    /** One arrow: the consumer relation is appended to the producer, then
        every id between the two gets its span widened. */
    method AddLink(l: Link, ghost cs: seq<Option<InsnState>>, ghost links: seq<Link>)
      requires Valid() && Shows(cs, links)
      requires Loaded(cs, idFrom, l.producer) && Loaded(cs, idFrom, l.rel.id)
      modifies insns, dependencyRanges
      ensures Shows(cs, links + [l])
    {
      var slot := l.producer - idFrom;
      insns[slot] := Some(AddConsumerStep(insns[slot].value, l.rel));
      LinkedAllSnoc(cs, links, l, idFrom);
      WidenRanges(Min(l.producer, l.rel.id), Max(l.producer, l.rel.id));
      SpansAllSnoc(|cs|, links, l, idFrom);
    }

    /** The middle loop of LoadInsns: the producers of the instruction in
        slot k, in list order; a producer GetInsn does not find is skipped. */
    method LinkConsumer(k: nat, ghost cs: seq<Option<InsnState>>, ghost links: seq<Link>)
      requires Valid() && Shows(cs, links) && k < |cs| && cs[k].Some?
      modifies insns, dependencyRanges
      ensures Shows(cs, links + LinksOf(idFrom + k, cs[k].value.producers, cs, idFrom))
    {
      var ps := insns[k].value.producers;
      assert ps == cs[k].value.producers by {
        assert insns[k] == LinkedAll(cs, links, idFrom)[k];
      }
      var cid := idFrom + k;
      var m := 0;
      ghost var shown := links;
      assert links + LinksOf(cid, ps[..0], cs, idFrom) == links;
      while m < |ps|
        invariant m <= |ps| && Valid()
        invariant shown == links + LinksOf(cid, ps[..m], cs, idFrom) && Shows(cs, shown)
      {
        var r := ps[m];
        LinksOfStep(links, cid, ps, m, cs, idFrom);
        LinkedAllLoaded(cs, shown, idFrom, r.id);
        var p := GetInsn(r.id);
        if p.Some? {
          AddLink(Link(r.id, Relation(cid, r.kind)), cs, shown);
          shown := shown + [Link(r.id, Relation(cid, r.kind))];
        }
        m := m + 1;
      }
      assert ps[..m] == ps;
    }

    /** LoadInsns: the window becomes the summary's id range; each id's
        archived instruction, or nothing, is loaded with the span [id, id];
        the cycle range covers the loaded instructions (0 to 0 when none
        is); then every producer relation whose producer is loaded adds a
        consumer relation to it and widens the spans of the ids between. */
    method LoadInsns(loader: Option<map<nat, InsnState>>, info: LogInfo)
      requires loader.Some? ==> forall id :: id in loader.value ==> loader.value[id].id == id
      modifies this
      ensures loader.None? ==> unchanged(this)
      ensures loader.Some? ==> Valid() && idFrom == info.minInsnId && idTo == info.maxInsnId
      ensures loader.Some? ==>
        var cs := Window(loader.value, info.minInsnId, WindowSize(info.minInsnId, info.maxInsnId));
        Shows(cs, AllLinks(cs, |cs|, idFrom))
      ensures loader.Some? ==>
        var cs := Window(loader.value, info.minInsnId, WindowSize(info.minInsnId, info.maxInsnId));
        if CycleFrom(cs) == I64Max then cycleFrom == 0 && cycleTo == 0
        else cycleFrom == CycleFrom(cs) && cycleTo == CycleTo(cs)
    {
      if loader.None? {
        return;
      }
      var db := loader.value;
      ghost var cs := Window(db, info.minInsnId, WindowSize(info.minInsnId, info.maxInsnId));
      Fill(db, info.minInsnId, info.maxInsnId);
      WindowIds(db, info.minInsnId, |cs|);
      LinkAll(cs);
    }

    /** The window and its fill loop: the fields take the window, its
        instructions as archived, the spans [id, id] and the cycle range. */
    method Fill(db: map<nat, InsnState>, lo: nat, hi: nat)
      modifies this
      ensures Valid() && idFrom == lo && idTo == hi
      ensures fresh(insns) && forall j :: 0 <= j < |dependencyRanges| ==> fresh(dependencyRanges[j])
      ensures Shows(Window(db, lo, WindowSize(lo, hi)), [])
      ensures var cs := Window(db, lo, WindowSize(lo, hi));
        if CycleFrom(cs) == I64Max then cycleFrom == 0 && cycleTo == 0
        else cycleFrom == CycleFrom(cs) && cycleTo == CycleTo(cs)
    {
      var loaded, spans, cFrom, cTo := FillWindow(db, lo, hi);
      if cFrom == I64Max {
        cFrom, cTo := 0, 0;
      }
      idFrom, idTo := lo, hi;
      minInsnId, maxInsnId := lo, hi;
      insns := loaded;
      dependencyRanges := spans;
      cycleFrom, cycleTo := cFrom, cTo;
    }

    /** The outer loop of LoadInsns: the producers of every loaded
        instruction of the window, in id order. */
    method LinkAll(ghost cs: seq<Option<InsnState>>)
      requires Valid() && Shows(cs, []) && |cs| == WindowSize(idFrom, idTo)
      requires forall j :: 0 <= j < |cs| && cs[j].Some? ==> cs[j].value.id == idFrom + j
      modifies insns, dependencyRanges
      ensures Shows(cs, AllLinks(cs, |cs|, idFrom))
    {
      var n := insns.Length;
      var k := 0;
      ghost var shown: seq<Link> := [];
      while k < n
        invariant k <= n && shown == AllLinks(cs, k, idFrom) && Shows(cs, shown)
      {
        assert insns[k] == LinkedAll(cs, shown, idFrom)[k];
        AllLinksStep(cs, k, idFrom);
        if insns[k].Some? {
          LinkConsumer(k, cs, shown);
          shown := shown + LinksOf(idFrom + k, cs[k].value.producers, cs, idFrom);
        } else {
          assert shown + [] == shown;
        }
        k := k + 1;
      }
    }
  }
}
