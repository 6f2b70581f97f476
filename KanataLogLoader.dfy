/** The trace loader as an object. Its dictionaries and lists are fields
    that the handlers update line by line, as LogLoader does; each method
    is proved to perform its step function of KanataLoader, and the lemmas
    there say what those steps do. The live instructions, the archive and
    the open stages are held by value. */
module KanataLogLoader {
  import opened Wrappers
  import opened KanataInsn
  import opened KanataLoader

  /** (a mod 2^64) * 10 + d and a * 10 + d agree modulo 2^64: the ulong
      accumulator of ParseUInt64 may wrap at every step. */
  lemma MulAddMod(a: int, d: int)
    ensures ((a % U64) * 10 + d) % U64 == (a * 10 + d) % U64
  {
    var q := a / U64;
    assert a * 10 + d == ((a % U64) * 10 + d) + U64 * (10 * q);
  }

  /** The live instructions with their open stages in lanes below k
      closed. */
  ghost function ClosedTo(st: LoaderState, k: nat): map<nat, InsnState>
    requires k <= |st.segments|
  {
    map id | id in st.insnMap :: CloseLanes(st, st.insnMap[id], k)
  }

  /** The ids of a set, each once, in some order. */
  ghost function ListOf(s: set<nat>): (r: seq<nat>)
    ensures IsOrder(r, s)
    decreases s
  {
    if s == {} then []
    else
      var x :| x in s;
      [x] + ListOf(s - {x})
  }

  class LogLoader {
    var insnMap: map<nat, InsnState>
    var insnDB: map<nat, InsnState>
    var retired: set<nat>
    var segments: seq<Segment>
    var errors: seq<LoadError>
    var currentLine: nat
    var currentCycle: int
    var maxInsnId: nat
    var minInsnId: nat
    var logInfo: LogInfo
    var successfullyLoaded: bool

    function Snapshot(): LoaderState
      reads this
    {
      LoaderState(insnMap, insnDB, retired, segments, errors, currentLine, currentCycle, maxInsnId, minInsnId)
    }

    /** The bookkeeping the handlers keep consistent. */
    predicate Valid()
      reads this
    {
      Consistent(Snapshot())
    }

    /** The summary and the success flag, which only Load sets. */
    twostate predicate SummaryKept()
      reads this
    {
      logInfo == old(logInfo) && successfullyLoaded == old(successfullyLoaded)
    }

    constructor ()
      ensures Snapshot() == Initial() && Valid()
      ensures logInfo == LogInfo(0, 0, []) && !successfullyLoaded
    {
      insnMap := map[];
      insnDB := map[];
      retired := {};
      segments := [];
      errors := [];
      currentLine := 1;
      currentCycle := 0;
      maxInsnId := 0;
      minInsnId := U64 - 1;
      logInfo := LogInfo(0, 0, []);
      successfullyLoaded := false;
      InitialConsistent();
    }

    /** The fast decimal reader: its value wraps around in 64 bits, and the
        field being too long or not a number is logged. */
    method ParseUInt64(str: string) returns (v: nat)
      modifies this
      ensures v == FastValue(str)
      ensures Snapshot() == old(Snapshot()).(errors := old(errors) + NumberErrors(str, currentLine))
      ensures SummaryKept()
    {
      if |str| > 8 {
        errors := errors + [TooLarge(str, currentLine)];
      }
      ghost var logged := errors;
      v := 0;
      var i := 0;
      while i < |str|
        invariant 0 <= i <= |str|
        invariant AllDigits(str[..i]) && v == Decimal(str[..i]) % U64
        invariant Snapshot() == old(Snapshot()).(errors := logged) && SummaryKept()
      {
        var c := str[i];
        if '0' <= c <= '9' {
          assert str[..i + 1][..i] == str[..i];
          MulAddMod(Decimal(str[..i]), (c as int) - ('0' as int));
          v := (v * 10 + ((c as int) - ('0' as int))) % U64;
        } else {
          errors := errors + [NotANumber(str, currentLine)];
          return 0;
        }
        i := i + 1;
      }
      assert str[..i] == str;
    }

    method ProcessAbsCycle(cols: seq<string>) returns (thrown: bool)
      requires |cols| >= 2
      modifies this
      ensures Outcome(Snapshot(), thrown) == AbsCycleStep(old(Snapshot()), cols) && SummaryKept()
    {
      var v := ParseLong(cols[1]);
      if v.None? {
        return true;
      }
      currentCycle := v.value;
      return false;
    }

    method ProcessRelCycle(cols: seq<string>) returns (thrown: bool)
      requires |cols| >= 2
      modifies this
      ensures Outcome(Snapshot(), thrown) == RelCycleStep(old(Snapshot()), cols) && SummaryKept()
    {
      var v := ParseLong(cols[1]);
      if v.None? {
        return true;
      }
      currentCycle := ToInt64(currentCycle + v.value);
      return false;
    }

    /** A new live instruction with an empty slot in every lane. */
    method NewInsnAtProcess(id: nat) returns (thrown: bool)
      requires Valid()
      modifies this
      ensures Outcome(Snapshot(), thrown) == NewInsnStep(old(Snapshot()), id) && SummaryKept()
    {
      if id in insnMap {
        return true;
      }
      var n := new Insn();
      n.Init();
      n.id := id;
      n.startCycle := currentCycle;
      insnMap := insnMap[id := n.Snapshot()];
      var segs := segments;
      var k := 0;
      while k < |segs|
        invariant 0 <= k <= |segs| == |segments|
        invariant forall j :: 0 <= j < k ==> segs[j] == segments[j].(stageMap := segments[j].stageMap[id := None])
        invariant forall j :: k <= j < |segs| ==> segs[j] == segments[j]
      {
        segs := segs[k := segs[k].(stageMap := segs[k].stageMap[id := None])];
        k := k + 1;
      }
      assert segs == AddLive(segments, id);
      segments := segs;
      return false;
    }

    method ProcessInsnInit(cols: seq<string>) returns (thrown: bool)
      requires |cols| >= 2 && Valid()
      modifies this
      ensures Outcome(Snapshot(), thrown) == InsnInitStep(old(Snapshot()), cols) && SummaryKept()
    {
      var p := ParseULong(cols[1]);
      if p.None? {
        return true;
      }
      var id := p.value;
      thrown := NewInsnAtProcess(id);
      if thrown {
        return;
      }
      var insn := insnMap[id];
      if |cols| < 3 || ParseULong(cols[2]).None? {
        return true;
      }
      insn := insn.(gsid := ParseULong(cols[2]).value);
      insnMap := insnMap[id := insn];
      if |cols| < 4 || ParseULong(cols[3]).None? {
        return true;
      }
      insn := insn.(tid := ParseULong(cols[3]).value);
      insnMap := insnMap[id := insn];
      return false;
    }

    method ProcessInsnLabel(cols: seq<string>) returns (thrown: bool)
      requires |cols| >= 2
      modifies this
      ensures Outcome(Snapshot(), thrown) == InsnLabelStep(old(Snapshot()), cols) && SummaryKept()
    {
      var p := ParseULong(cols[1]);
      if p.None? || |cols| < 3 || ParseULong(cols[2]).None? {
        return true;
      }
      var id := p.value;
      var kind := ParseULong(cols[2]).value;
      if id !in insnMap {
        errors := errors + [UnknownLabeled(id, currentLine)];
        return false;
      }
      if |cols| < 4 {
        return true;
      }
      var text := LabelText(cols[3]);
      var insn := insnMap[id];
      if kind == 0 {
        insnMap := insnMap[id := insn.(name := insn.name + text)];
      } else if kind == 1 {
        insnMap := insnMap[id := insn.(detail := insn.detail + text)];
      } else if kind == 2 {
        if |segments| == 0 || id !in segments[0].stageMap {
          return true;
        }
        var seg := segments[0];
        var open := seg.stageMap[id];
        if open.Some? {
          var s := open.value;
          segments := segments[0 := seg.(stageMap := seg.stageMap[id := Some(s.(comment := s.comment + text))])];
        }
      } else {
        errors := errors + [UnknownLabelType(kind, currentLine)];
      }
      return false;
    }

    /** A new lane with an empty slot for every live instruction. */
    method EmptyLane(k: nat) returns (lane: Segment)
      ensures lane == NewSegment(k, insnMap.Keys)
    {
      var slots: map<nat, Option<Stage>> := map[];
      var todo := insnMap.Keys;
      while todo != {}
        invariant todo <= insnMap.Keys
        invariant slots == map id | id in insnMap.Keys - todo :: None
        decreases todo
      {
        var id :| id in todo;
        slots := slots[id := None];
        todo := todo - {id};
      }
      lane := Segment(k, slots, map[]);
    }

    /** NewStage: the lanes grow to reach the lane named, an open stage in
        the slot is reported as an overlap, and the slot gets a new stage. */
    method NewStage(id: nat, segmentId: nat, name: string) returns (thrown: bool)
      requires id in insnMap
      modifies this
      ensures var segs := GrowSegments(old(segments), segmentId, old(insnMap).Keys);
        var seg := segs[segmentId];
        if id !in seg.stageMap then thrown && Snapshot() == old(Snapshot()).(segments := segs)
        else
          !thrown
          && Snapshot() == old(Snapshot()).(
               segments := segs[segmentId := seg.(stageMap := seg.stageMap[id := Some(Stage(0, 0, 0, ""))])],
               errors := old(errors) + (if seg.stageMap[id].Some?
                                       then [StagesOverlap(seg.stageMap[id].value.id, name, id, currentLine)]
                                       else []))
      ensures SummaryKept()
    {
      if segmentId >= |segments| {
        var segs := segments;
        var i := |segments|;
        while i <= segmentId
          invariant |segs| == i <= segmentId + 1
          invariant forall j :: 0 <= j < i ==>
            segs[j] == if j < |segments| then segments[j] else NewSegment(j, insnMap.Keys)
          invariant Snapshot() == old(Snapshot()) && SummaryKept()
          decreases segmentId + 1 - i
        {
          var lane := EmptyLane(i);
          segs := segs + [lane];
          i := i + 1;
        }
        segments := segs;
      }
      assert segments == GrowSegments(old(segments), segmentId, insnMap.Keys);
      var stageMap := segments[segmentId].stageMap;
      if id !in stageMap {
        return true;
      }
      var oldStage := stageMap[id];
      if oldStage.Some? {
        errors := errors + [StagesOverlap(oldStage.value.id, name, id, currentLine)];
      }
      segments := segments[segmentId := segments[segmentId].(stageMap := stageMap[id := Some(Stage(0, 0, 0, ""))])];
      return false;
    }

    /** GetStageId: the id of a stage name in a lane, a new name getting the
        next id. */
    method GetStageId(segmentId: nat, name: string) returns (stageId: int)
      requires segmentId < |segments|
      modifies this
      ensures |segments| == |old(segments)|
      ensures (segments[segmentId], stageId) == StageIdOf(old(segments)[segmentId], name)
      ensures Snapshot() == old(Snapshot()).(segments := old(segments)[segmentId := segments[segmentId]])
      ensures SummaryKept()
    {
      var nameIds := segments[segmentId].nameIds;
      if name in nameIds {
        return nameIds[name];
      }
      stageId := |nameIds|;
      segments := segments[segmentId := segments[segmentId].(nameIds := nameIds[name := stageId])];
    }

    method ProcessInsnBeginStage(cols: seq<string>) returns (thrown: bool)
      requires |cols| >= 2
      modifies this
      ensures Outcome(Snapshot(), thrown) == BeginStageStep(old(Snapshot()), cols) && SummaryKept()
    {
      var id := ParseUInt64(cols[1]);
      if id !in insnMap {
        errors := errors + [UnknownBegins(id, currentLine)];
        return false;
      }
      if |cols| < 3 {
        return true;
      }
      var segmentNumber := ParseUInt64(cols[2]);
      var segmentId := ToInt32(segmentNumber);
      if |cols| < 4 || segmentId < 0 {
        return true;
      }
      thrown := OpenStageAt(id, segmentId, cols[3]);
    }

    /** NewStage, GetStageId and the begin cycle: the stage named opens for
        a live instruction. */
    method OpenStageAt(id: nat, segmentId: nat, name: string) returns (thrown: bool)
      requires id in insnMap
      modifies this
      ensures Outcome(Snapshot(), thrown) == OpenStage(old(Snapshot()), id, segmentId, name) && SummaryKept()
    {
      ghost var st0 := Snapshot();
      ghost var seg0 := GrowSegments(st0.segments, segmentId, st0.insnMap.Keys)[segmentId];
      thrown := NewStage(id, segmentId, name);
      if thrown {
        return;
      }
      ghost var named := StageIdOf(seg0, name);
      var stageId := GetStageId(segmentId, name);
      assert stageId == named.1;
      var insn := insnMap[id];
      var stage := Stage(stageId, ToInt32(ToInt64(currentCycle - insn.startCycle)), 0, "");
      assert stage == Stage(named.1, RelCycle(st0, st0.insnMap[id]), 0, "");
      var seg := segments[segmentId];
      assert seg.(stageMap := seg.stageMap[id := Some(stage)])
          == named.0.(stageMap := named.0.stageMap[id := Some(stage)]);
      segments := segments[segmentId := seg.(stageMap := seg.stageMap[id := Some(stage)])];
    }

    method ProcessInsnEndStage(cols: seq<string>) returns (thrown: bool)
      requires |cols| >= 2
      modifies this
      ensures Outcome(Snapshot(), thrown) == EndStageStep(old(Snapshot()), cols) && SummaryKept()
    {
      var id := ParseUInt64(cols[1]);
      if id !in insnMap {
        errors := errors + [UnknownEnds(id, currentLine)];
        return false;
      }
      if |cols| < 3 {
        return true;
      }
      var segmentNumber := ParseUInt64(cols[2]);
      var segmentId := ToInt32(segmentNumber);
      if |cols| < 4 || segmentId < 0 || segmentId >= |segments| || id !in segments[segmentId].stageMap {
        return true;
      }
      var name := cols[3];
      var open := segments[segmentId].stageMap[id];
      if open.None? {
        errors := errors + [UnknownStageFinished(name, currentLine)];
        return false;
      }
      var insn := insnMap[id];
      var closed := WithEndRelCycle(open.value, ToInt32(ToInt64(currentCycle - insn.startCycle)));
      insnMap := insnMap[id := AddStageStep(insn, segmentId, closed)];
      var seg := segments[segmentId];
      segments := segments[segmentId := seg.(stageMap := seg.stageMap[id := None])];
      return false;
    }

    /** WriteInsnToDB: the id range widens to the instruction, which is
        added to the archive; an id already archived throws. */
    method WriteInsnToDB(insn: InsnState) returns (thrown: bool)
      modifies this
      ensures Outcome(Snapshot(), thrown) == WriteToDB(old(Snapshot()), insn) && SummaryKept()
    {
      maxInsnId := Max(insn.id, maxInsnId);
      minInsnId := Min(insn.id, minInsnId);
      if insn.id in insnDB {
        return true;
      }
      insnDB := insnDB[insn.id := insn];
      return false;
    }

    /** RemoveInsn: the instruction leaves the live map and every lane. */
    method RemoveInsn(id: nat)
      modifies this
      ensures Snapshot() == RemoveInsnStep(old(Snapshot()), id) && SummaryKept()
    {
      insnMap := insnMap - {id};
      var segs := segments;
      var k := 0;
      while k < |segs|
        invariant 0 <= k <= |segs| == |segments|
        invariant forall j :: 0 <= j < k ==> segs[j] == segments[j].(stageMap := segments[j].stageMap - {id})
        invariant forall j :: k <= j < |segs| ==> segs[j] == segments[j]
      {
        segs := segs[k := segs[k].(stageMap := segs[k].stageMap - {id})];
        k := k + 1;
      }
      assert segs == RemoveLive(segments, id);
      segments := segs;
    }

    method ProcessInsnRetire(cols: seq<string>) returns (thrown: bool)
      requires |cols| >= 2
      modifies this
      ensures Outcome(Snapshot(), thrown) == RetireStep(old(Snapshot()), cols) && SummaryKept()
    {
      var p := ParseULong(cols[1]);
      if p.None? {
        return true;
      }
      var id := p.value;
      if id in retired {
        errors := errors + [SameRetirement(id, currentLine)];
        return false;
      }
      if id !in insnMap {
        errors := errors + [UnknownRetired(id, currentLine)];
        return false;
      }
      thrown := RetireLiveInsn(id, cols);
    }

    method RetireLiveInsn(id: nat, cols: seq<string>) returns (thrown: bool)
      requires id in insnMap
      modifies this
      ensures Outcome(Snapshot(), thrown) == RetireLive(old(Snapshot()), id, cols) && SummaryKept()
    {
      var e := SetEndCycleStep(insnMap[id], currentCycle);
      if e.Fail? {
        return true;
      }
      var insn := e.value;
      if |cols| < 3 || ParseULong(cols[2]).None? {
        insnMap := insnMap[id := insn];
        return true;
      }
      insn := insn.(rid := ParseULong(cols[2]).value);
      if |cols| < 4 || ParseULong(cols[3]).None? {
        insnMap := insnMap[id := insn];
        return true;
      }
      insn := insn.(flushed := ParseULong(cols[3]).value != 0);
      insnMap := insnMap[id := insn];
      thrown := ArchiveInsn(insn);
    }

    /** The tail of a retirement: WriteInsnToDB, the retired mark (adding
        an id twice throws) and RemoveInsn. */
    method ArchiveInsn(insn: InsnState) returns (thrown: bool)
      modifies this
      ensures Outcome(Snapshot(), thrown) == Archive(old(Snapshot()), insn) && SummaryKept()
    {
      thrown := WriteInsnToDB(insn);
      if thrown || insn.id in retired {
        return true;
      }
      retired := retired + {insn.id};
      RemoveInsn(insn.id);
    }

    method ProcessInsnDependency(cols: seq<string>) returns (thrown: bool)
      requires |cols| >= 2
      modifies this
      ensures Outcome(Snapshot(), thrown) == DependencyStep(old(Snapshot()), cols) && SummaryKept()
    {
      var p := ParseULong(cols[1]);
      if p.None? {
        return true;
      }
      var id := p.value;
      if id !in insnMap {
        errors := errors + [UnknownDependency(id, currentLine)];
        return false;
      }
      if |cols| < 3 || ParseULong(cols[2]).None? {
        return true;
      }
      var kind: int;
      if |cols| > 3 {
        var k := ParseInt(cols[3]);
        if k.None? {
          return true;
        }
        kind := k.value;
      } else {
        kind := 0;
      }
      insnMap := insnMap[id := AddProducerStep(insnMap[id], Relation(ParseULong(cols[2]).value, kind))];
      return false;
    }

    /** ProcessLine: the line counter advances, the line is split at tabs
        and the handler its first field names runs; a line of fewer than
        two fields is skipped and an unknown command is logged. */
    method ProcessLine(line: string) returns (thrown: bool)
      requires Valid()
      modifies this
      ensures Outcome(Snapshot(), thrown) == ProcessLineStep(old(Snapshot()), line) && SummaryKept()
      ensures Valid()
    {
      ghost var st0 := Snapshot();
      BumpConsistent(st0);
      currentLine := currentLine + 1;
      var cols := Fields(line);
      thrown := RunCommand(CommandOf(cols), cols, line);
      assert Outcome(Snapshot(), thrown) == ProcessLineStep(st0, line) by { ProcessLineUnfold(st0, line); }
      assert Valid() by { ProcessLineConsistent(st0, line); }
    }

    /** The switch of ProcessLine on the first field. */
    method RunCommand(cmd: Command, cols: seq<string>, line: string) returns (thrown: bool)
      requires Valid() && (cmd.CmdSkip? <==> |cols| < 2)
      modifies this
      ensures Outcome(Snapshot(), thrown) == Dispatch(old(Snapshot()), cmd, cols, line) && SummaryKept()
    {
      match cmd {
        case CmdSkip =>
          thrown := false;
        case CmdAbsCycle =>
          thrown := ProcessAbsCycle(cols);
        case CmdRelCycle =>
          thrown := ProcessRelCycle(cols);
        case CmdInsnInit =>
          thrown := ProcessInsnInit(cols);
        case CmdLabel =>
          thrown := ProcessInsnLabel(cols);
        case CmdBeginStage =>
          thrown := ProcessInsnBeginStage(cols);
        case CmdEndStage =>
          thrown := ProcessInsnEndStage(cols);
        case CmdRetire =>
          thrown := ProcessInsnRetire(cols);
        case CmdDependency =>
          thrown := ProcessInsnDependency(cols);
        case CmdUnknown =>
          errors := errors + [UnrecognizedLine(currentLine, line)];
          thrown := false;
      }
    }

    /** CloseStages for the live instructions: each is written to the
        database in the order the live map yields them; one already there
        throws. */
    method ArchiveLive() returns (thrown: bool, ghost order: seq<nat>)
      modifies this
      ensures IsOrder(order, old(insnMap).Keys)
      ensures Outcome(Snapshot(), thrown) == ArchiveAll(old(Snapshot()), order) && SummaryKept()
    {
      ghost var st0 := Snapshot();
      var todo := insnMap.Keys;
      order := [];
      thrown := false;
      while todo != {}
        invariant insnMap == st0.insnMap && Visiting(order, todo, insnMap.Keys)
        invariant Done(Snapshot()) == ArchiveAll(st0, order) && SummaryKept()
        decreases todo
      {
        var id :| id in todo;
        ghost var done := order;
        ghost var rest := ListOf(todo - {id});
        VisitingNext(done, todo, insnMap.Keys, id);
        VisitingRest(done, todo, insnMap.Keys, id, rest);
        todo := todo - {id};
        ghost var before := Snapshot();
        thrown := WriteInsnToDB(insnMap[id]);
        ArchiveAllNext(st0, done, id, rest, before, Outcome(Snapshot(), thrown));
        if thrown {
          order := done + [id] + rest;
          return;
        }
        order := done + [id];
      }
      VisitingDone(order, insnMap.Keys);
    }

    /** CloseStages: every stage still open is closed at the final cycle,
        then every live instruction is archived. */
    method CloseStages() returns (thrown: bool, ghost order: seq<nat>)
      requires Valid()
      modifies this
      ensures IsOrder(order, old(insnMap).Keys)
      ensures Outcome(Snapshot(), thrown) == CloseStagesStep(old(Snapshot()), order) && SummaryKept()
    {
      ghost var st0 := Snapshot();
      assert Lanes(st0) by { assert Consistent(st0); }
      var m := insnMap;
      var k := 0;
      while k < |segments|
        invariant Snapshot() == st0 && SummaryKept()
        invariant k <= |segments| && m == ClosedTo(st0, k)
      {
        m := CloseLane(m, segments[k].stageMap, k, currentCycle, st0);
        k := k + 1;
      }
      insnMap := m;
      assert insnMap == ClosedAll(st0);
      thrown, order := ArchiveLive();
    }

    /** UpdateLogInfo: the summary takes the id range and, lane by lane,
        the stage names listed by stage id. */
    method UpdateLogInfo()
      requires forall k :: 0 <= k < |segments| ==> DenseIds(segments[k].nameIds)
      modifies this
      ensures InfoOf(logInfo, Snapshot()) && Snapshot() == old(Snapshot())
      ensures successfullyLoaded == old(successfullyLoaded)
    {
      var segs := segments;
      var stageNames: seq<seq<Option<string>>> := [];
      while |stageNames| < |segs|
        invariant Snapshot() == old(Snapshot()) && SummaryKept() && segs == segments
        invariant |stageNames| <= |segs|
        invariant forall j :: 0 <= j < |stageNames| ==> NamesListed(stageNames[j], segs[j].nameIds)
      {
        var names := ListNames(segs[|stageNames|].nameIds);
        stageNames := stageNames + [names];
      }
      logInfo := LogInfo(minInsnId, maxInsnId, stageNames);
    }

    /** The command-line loop of Load: the lines in order, stopping at an
        exception unless it comes from the last line. */
    method ProcessCommandLines(lines: seq<string>) returns (thrown: bool)
      requires Valid() && !successfullyLoaded
      modifies this
      ensures Valid() && !successfullyLoaded
      ensures Outcome(Snapshot(), thrown) == ProcessLines(old(Snapshot()), lines)
    {
      ghost var p := ProcessLines(Snapshot(), lines);
      var i := 0;
      while i < |lines|
        invariant 0 <= i <= |lines| && Valid() && !successfullyLoaded
        invariant ProcessLines(Snapshot(), lines[i..]) == p
      {
        ghost var before := Snapshot();
        var t := ProcessLine(lines[i]);
        assert p == if t then Outcome(Snapshot(), i + 1 < |lines|) else ProcessLines(Snapshot(), lines[i + 1..]) by {
          assert lines[i..] == [lines[i]] + lines[i + 1..];
          ProcessLinesCons(before, lines[i], lines[i + 1..]);
        }
        if t && i + 1 < |lines| {
          return true;
        }
        i := i + 1;
      }
      return false;
    }

    /** Load: a fresh loader reads the header line, processes the command
        lines in order (an exception escapes unless it comes from the last
        line), closes the open stages, archives the live instructions and
        builds the summary. A missing or malformed header throws. */
    method Load(file: seq<string>) returns (thrown: bool, ghost order: seq<nat>)
      requires Snapshot() == Initial() && !successfullyLoaded
      modifies this
      ensures |file| == 0 || HeaderVersion(file[0]).Fail? ==>
        thrown && Snapshot() == Initial() && !successfullyLoaded
      ensures |file| > 0 && HeaderVersion(file[0]).Ok? && ProcessLines(Initial(), file[1..]).thrown ==>
        thrown && Snapshot() == ProcessLines(Initial(), file[1..]).st && !successfullyLoaded
      ensures |file| > 0 && HeaderVersion(file[0]).Ok? && !ProcessLines(Initial(), file[1..]).thrown ==>
        IsOrder(order, ProcessLines(Initial(), file[1..]).st.insnMap.Keys)
        && Outcome(Snapshot(), thrown) == CloseStagesStep(ProcessLines(Initial(), file[1..]).st, order)
        && successfullyLoaded == !thrown
        && (!thrown ==> InfoOf(logInfo, Snapshot()))
    {
      order := [];
      errors := [];
      if |file| == 0 || HeaderVersion(file[0]).Fail? {
        return true, [];
      }
      InitialConsistent();
      var t := ProcessCommandLines(file[1..]);
      if t {
        return true, [];
      }
      ghost var processed := Snapshot();
      thrown, order := CloseStages();
      if thrown {
        return;
      }
      assert Snapshot().segments == processed.segments by {
        ArchiveAllFrame(processed.(insnMap := ClosedAll(processed)), order);
      }
      UpdateLogInfo();
      successfullyLoaded := true;
    }
  }

  /** CloseStages for lane k: the stage still open in each slot of the
      lane ends at the current cycle and is appended to its instruction. */
  method CloseLane(m: map<nat, InsnState>, stageMap: map<nat, Option<Stage>>, k: nat, cycle: int, ghost st0: LoaderState)
    returns (r: map<nat, InsnState>)
    requires k < |st0.segments| && stageMap == st0.segments[k].stageMap && cycle == st0.currentCycle
    requires Lanes(st0)
    requires m == ClosedTo(st0, k)
    ensures r == ClosedTo(st0, k + 1)
  {
    r := m;
    var todo := stageMap.Keys;
    assert r == ClosedPart(st0, k, todo) by { ClosedPartEnds(st0, k); }
    while todo != {}
      invariant todo <= stageMap.Keys && r == ClosedPart(st0, k, todo)
      decreases todo
    {
      var id :| id in todo;
      var stage := stageMap[id];
      ghost var next := CloseLanes(st0, st0.insnMap[id], k + 1);
      ClosedPartStep(st0, k, todo, id);
      var insn := r[id];
      if stage.Some? {
        var closed := AddStageStep(insn, k, WithEndRelCycle(stage.value, ToInt32(ToInt64(cycle - insn.startCycle))));
        assert closed == next by { CloseLanesNext(st0, st0.insnMap[id], k, cycle, stage, insn, next); }
        r := r[id := closed];
      } else {
        assert insn == next by { CloseLanesNext(st0, st0.insnMap[id], k, cycle, stage, insn, next); }
      }
      todo := todo - {id};
    }
    assert r == ClosedTo(st0, k + 1) by { ClosedPartEnds(st0, k); }
  }

  /** Every lane has a slot for exactly the live instructions, each filed
      under its own id: the part of Consistent that closing lanes needs. */
  ghost predicate Lanes(st: LoaderState)
  {
    (forall k :: 0 <= k < |st.segments| ==> st.segments[k].stageMap.Keys == st.insnMap.Keys)
    && forall id :: id in st.insnMap ==> st.insnMap[id].id == id
  }

  /** The live instructions with lane k closed for the ids outside todo. */
  ghost function ClosedPart(st: LoaderState, k: nat, todo: set<nat>): map<nat, InsnState>
    requires k < |st.segments|
  {
    map id | id in st.insnMap ::
      if id in todo then CloseLanes(st, st.insnMap[id], k) else CloseLanes(st, st.insnMap[id], k + 1)
  }

  lemma ClosedPartEnds(st: LoaderState, k: nat)
    requires k < |st.segments|
    ensures ClosedPart(st, k, st.insnMap.Keys) == ClosedTo(st, k)
    ensures ClosedPart(st, k, {}) == ClosedTo(st, k + 1)
  {
  }

  lemma ClosedPartStep(st: LoaderState, k: nat, todo: set<nat>, id: nat)
    requires k < |st.segments| && id in todo && id in st.insnMap
    ensures ClosedPart(st, k, todo)[id] == CloseLanes(st, st.insnMap[id], k)
    ensures ClosedPart(st, k, todo - {id}) == ClosedPart(st, k, todo)[id := CloseLanes(st, st.insnMap[id], k + 1)]
  {
  }

  /** One more WriteInsnToDB of a walk over the live instructions: if it
      throws, the walk ends there whatever ids follow. */
  lemma ArchiveAllNext(st: LoaderState, done: seq<nat>, id: nat, rest: seq<nat>, before: LoaderState, o: Outcome)
    requires forall i :: 0 <= i < |done| ==> done[i] in st.insnMap
    requires id in st.insnMap && forall i :: 0 <= i < |rest| ==> rest[i] in st.insnMap
    requires Done(before) == ArchiveAll(st, done) && o == WriteToDB(before, st.insnMap[id])
    ensures o.thrown ==> o == ArchiveAll(st, done + [id] + rest)
    ensures !o.thrown ==> Done(o.st) == ArchiveAll(st, done + [id])
  {
    if o.thrown {
      ArchiveAllSnoc(st, done, id, rest);
    } else {
      ArchiveAllSnoc(st, done, id, []);
      assert done + [id] + [] == done + [id];
    }
  }

  /** A walk over a dictionary's keys: the keys visited so far, each once,
      and the keys still to visit. */
  ghost predicate Visiting(order: seq<nat>, todo: set<nat>, keys: set<nat>)
  {
    todo <= keys
    && (forall i, j :: 0 <= i < j < |order| ==> order[i] != order[j])
    && (forall i :: 0 <= i < |order| ==> order[i] in keys && order[i] !in todo)
    && (forall id :: id in keys ==> id in todo || id in order)
  }

  lemma VisitingNext(order: seq<nat>, todo: set<nat>, keys: set<nat>, id: nat)
    requires Visiting(order, todo, keys) && id in todo
    ensures Visiting(order + [id], todo - {id}, keys)
    ensures forall i :: 0 <= i < |order + [id]| ==> (order + [id])[i] in keys
  {
  }

  lemma VisitingDone(order: seq<nat>, keys: set<nat>)
    requires Visiting(order, {}, keys)
    ensures IsOrder(order, keys)
  {
  }

  lemma VisitingRest(order: seq<nat>, todo: set<nat>, keys: set<nat>, id: nat, rest: seq<nat>)
    requires Visiting(order, todo, keys) && id in todo && IsOrder(rest, todo - {id})
    ensures IsOrder(order + [id] + rest, keys)
    ensures forall i :: 0 <= i < |rest| ==> rest[i] in keys
  {
    var all := order + [id] + rest;
    forall i, j | 0 <= i < j < |all|
      ensures all[i] != all[j]
    {
      if j > |order| && i <= |order| {
        assert all[j] == rest[j - |order| - 1];
      }
    }
    forall x | x in keys
      ensures x in all
    {
      if x !in order && x != id {
        assert x in todo - {id};
        var i :| 0 <= i < |rest| && rest[i] == x;
        assert all[|order| + 1 + i] == x;
      }
    }
  }

  /** UpdateLogInfo for one lane: the names listed by stage id. */
  method ListNames(ids: map<string, int>) returns (names: seq<Option<string>>)
    requires DenseIds(ids)
    ensures NamesListed(names, ids)
  {
    names := [];
    while |names| < |ids|
      invariant |names| <= |ids|
      invariant forall j :: 0 <= j < |names| ==> names[j] == None
    {
      names := names + [None];
    }
    var todo := ids.Keys;
    while todo != {}
      invariant todo <= ids.Keys && |names| == |ids|
      invariant forall n :: n in ids && n !in todo ==> names[ids[n]] == Some(n)
      invariant forall j :: 0 <= j < |names| && names[j].Some? ==>
        names[j].value in ids && names[j].value !in todo && ids[names[j].value] == j
      decreases todo
    {
      var n :| n in todo;
      names := names[ids[n] := Some(n)];
      todo := todo - {n};
    }
  }
}
