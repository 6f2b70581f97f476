/** The base of every clocked resource: each cycle runs the phases Begin,
    Evaluate, Transition, TriggerUpdate and End in that order; a stall
    requested in the cycle, or left over from a stall period, skips the
    Update and Tick hooks, and the BeginStall/EndStall hooks mark the
    changes of the stall state. */
module ClockedResource {
  import opened Wrappers

  datatype Phase = PHASE_BEGIN | PHASE_EVALUATE | PHASE_TRANSITION | PHASE_UPDATE | PHASE_END

  /** The virtual hooks a resource overrides, in the order they are called. */
  datatype Hook = Update | Tick | BeginStall | EndStall

  /** The resource's state; hooks is the sequence of hook calls so far. */
  datatype Clock = Clock(reqStallThisCycle: bool, stallPeriod: int, thisCycleStalled: bool,
                         lastCycleStalled: bool, cycles: int, stalledCycles: int,
                         phase: Phase, hooks: seq<Hook>)

  /** The state the constructor sets up. */
  function Initial(): Clock
  {
    Clock(false, 0, false, false, 0, 0, PHASE_BEGIN, [])
  }

  /** The calls that drive a resource. */
  datatype Call = CallBegin | CallEvaluate | CallTransition | CallTriggerUpdate | CallEnd
                | CallStallThisCycle | CallStallNextCycle(cycles: int) | CallCancelStallPeriod

  const PhaseError := "called in the wrong phase"

  function BeginStep(s: Clock): Result<Clock>
  {
    if s.phase != PHASE_BEGIN then Fail(PhaseError)
    else
      var stall := s.stallPeriod > 0;
      Ok(s.(lastCycleStalled := s.thisCycleStalled, thisCycleStalled := false,
            reqStallThisCycle := stall,
            stallPeriod := if stall then s.stallPeriod - 1 else s.stallPeriod,
            phase := PHASE_EVALUATE, cycles := s.cycles + 1))
  }

  function EvaluateStep(s: Clock): Result<Clock>
  {
    if s.phase != PHASE_EVALUATE then Fail(PhaseError) else Ok(s.(phase := PHASE_TRANSITION))
  }

  /** The hook Transition calls when the stall state changes. */
  function StallChange(last: bool, now: bool): seq<Hook>
  {
    if !last && now then [BeginStall] else if last && !now then [EndStall] else []
  }

  function TransitionStep(s: Clock): Result<Clock>
  {
    if s.phase != PHASE_TRANSITION then Fail(PhaseError)
    else
      var stalled := s.reqStallThisCycle;
      Ok(s.(thisCycleStalled := stalled, phase := PHASE_UPDATE,
            stalledCycles := if stalled then s.stalledCycles + 1 else s.stalledCycles,
            hooks := s.hooks + StallChange(s.lastCycleStalled, stalled)))
  }

  function TriggerUpdateStep(s: Clock): Result<Clock>
  {
    if s.phase != PHASE_UPDATE then Fail(PhaseError)
    else Ok(s.(phase := PHASE_END, hooks := if s.thisCycleStalled then s.hooks else s.hooks + [Update]))
  }

  function EndStep(s: Clock): Result<Clock>
  {
    if s.phase != PHASE_END then Fail(PhaseError)
    else Ok(s.(phase := PHASE_BEGIN, hooks := if s.thisCycleStalled then s.hooks else s.hooks + [Tick]))
  }

  function StallThisCycleStep(s: Clock): Result<Clock>
  {
    if s.phase != PHASE_EVALUATE && s.phase != PHASE_TRANSITION then Fail(PhaseError)
    else Ok(s.(reqStallThisCycle := true))
  }

  function StallNextCycleStep(s: Clock, cycles: int): Clock
  {
    s.(stallPeriod := if cycles > s.stallPeriod then cycles else s.stallPeriod)
  }

  function Apply(s: Clock, call: Call): Result<Clock>
  {
    match call
    case CallBegin => BeginStep(s)
    case CallEvaluate => EvaluateStep(s)
    case CallTransition => TransitionStep(s)
    case CallTriggerUpdate => TriggerUpdateStep(s)
    case CallEnd => EndStep(s)
    case CallStallThisCycle => StallThisCycleStep(s)
    case CallStallNextCycle(n) => Ok(StallNextCycleStep(s, n))
    case CallCancelStallPeriod => Ok(s.(stallPeriod := 0))
  }

  /** The calls in order; the first failing call ends the run. */
  function Run(s: Clock, calls: seq<Call>): Result<Clock>
    decreases |calls|
  {
    if |calls| == 0 then Ok(s)
    else match Apply(s, calls[0])
      case Fail(e) => Fail(e)
      case Ok(s') => Run(s', calls[1..])
  }

  /** One cycle, with or without a stall requested during Evaluate. */
  function Cycle(stall: bool): seq<Call>
  {
    if stall then [CallBegin, CallEvaluate, CallStallThisCycle, CallTransition, CallTriggerUpdate, CallEnd]
    else [CallBegin, CallEvaluate, CallTransition, CallTriggerUpdate, CallEnd]
  }

  /** k cycles with no stall requested. */
  function Cycles(k: nat): seq<Call>
  {
    if k == 0 then [] else Cycle(false) + Cycles(k - 1)
  }

  // ---------------------------------------------------------------------
  // The resource object
  // ---------------------------------------------------------------------

  class ClockedResourceBase {
    var reqStallThisCycle: bool
    var stallPeriod: int
    var thisCycleStalled: bool
    var lastCycleStalled: bool
    var cycles: int
    var stalledCycles: int
    var phase: Phase
    var hooks: seq<Hook>

    function Snapshot(): Clock
      reads this
    {
      Clock(reqStallThisCycle, stallPeriod, thisCycleStalled, lastCycleStalled,
            cycles, stalledCycles, phase, hooks)
    }

    constructor ()
      ensures Snapshot() == Initial()
    {
      reqStallThisCycle := false;
      stallPeriod := 0;
      thisCycleStalled := false;
      lastCycleStalled := false;
      cycles := 0;
      stalledCycles := 0;
      phase := PHASE_BEGIN;
      hooks := [];
    }

    /** Begin: the stall state moves to last cycle; a positive stall period
        requests a stall and is used up by one; the cycle is counted. */
    method Begin() returns (r: Result<()>)
      modifies this
      ensures r.Ok? <==> old(phase) == PHASE_BEGIN
      ensures r.Ok? ==> Ok(Snapshot()) == BeginStep(old(Snapshot()))
      ensures r.Fail? ==> Snapshot() == old(Snapshot())
    {
      if phase != PHASE_BEGIN {
        return Fail(PhaseError);
      }
      lastCycleStalled := thisCycleStalled;
      thisCycleStalled := false;
      reqStallThisCycle := false;
      if stallPeriod > 0 {
        reqStallThisCycle := true;
        stallPeriod := stallPeriod - 1;
      }
      phase := PHASE_EVALUATE;
      cycles := cycles + 1;
      return Ok(());
    }

    method Evaluate() returns (r: Result<()>)
      modifies this
      ensures r.Ok? <==> old(phase) == PHASE_EVALUATE
      ensures r.Ok? ==> Ok(Snapshot()) == EvaluateStep(old(Snapshot()))
      ensures r.Fail? ==> Snapshot() == old(Snapshot())
    {
      if phase != PHASE_EVALUATE {
        return Fail(PhaseError);
      }
      phase := PHASE_TRANSITION;
      return Ok(());
    }

    /** Transition: the stall of this cycle is fixed and counted, and a
        change of the stall state calls BeginStall or EndStall. */
    method Transition() returns (r: Result<()>)
      modifies this
      ensures r.Ok? <==> old(phase) == PHASE_TRANSITION
      ensures r.Ok? ==> Ok(Snapshot()) == TransitionStep(old(Snapshot()))
      ensures r.Fail? ==> Snapshot() == old(Snapshot())
    {
      if phase != PHASE_TRANSITION {
        return Fail(PhaseError);
      }
      thisCycleStalled := reqStallThisCycle;
      phase := PHASE_UPDATE;
      if thisCycleStalled {
        stalledCycles := stalledCycles + 1;
      }
      if !lastCycleStalled && thisCycleStalled {
        hooks := hooks + [BeginStall];
      } else if lastCycleStalled && !thisCycleStalled {
        hooks := hooks + [EndStall];
      } else {
        assert hooks == hooks + [];
      }
      return Ok(());
    }

    /** TriggerUpdate: Update runs unless this cycle is stalled. */
    method TriggerUpdate() returns (r: Result<()>)
      modifies this
      ensures r.Ok? <==> old(phase) == PHASE_UPDATE
      ensures r.Ok? ==> Ok(Snapshot()) == TriggerUpdateStep(old(Snapshot()))
      ensures r.Fail? ==> Snapshot() == old(Snapshot())
    {
      if phase != PHASE_UPDATE {
        return Fail(PhaseError);
      }
      if !thisCycleStalled {
        hooks := hooks + [Update];
      }
      phase := PHASE_END;
      return Ok(());
    }

    /** End: Tick runs unless this cycle is stalled. */
    method End() returns (r: Result<()>)
      modifies this
      ensures r.Ok? <==> old(phase) == PHASE_END
      ensures r.Ok? ==> Ok(Snapshot()) == EndStep(old(Snapshot()))
      ensures r.Fail? ==> Snapshot() == old(Snapshot())
    {
      if phase != PHASE_END {
        return Fail(PhaseError);
      }
      phase := PHASE_BEGIN;
      if !thisCycleStalled {
        hooks := hooks + [Tick];
      }
      return Ok(());
    }

    /** StallThisCycle: request a stall, in Evaluate or Transition only. */
    method StallThisCycle() returns (r: Result<()>)
      modifies this
      ensures r.Ok? <==> old(phase) == PHASE_EVALUATE || old(phase) == PHASE_TRANSITION
      ensures r.Ok? ==> Ok(Snapshot()) == StallThisCycleStep(old(Snapshot()))
      ensures r.Fail? ==> Snapshot() == old(Snapshot())
    {
      if phase != PHASE_EVALUATE && phase != PHASE_TRANSITION {
        return Fail(PhaseError);
      }
      reqStallThisCycle := true;
      return Ok(());
    }

    /** StallNextCycle: the stall period becomes the larger of the current
        one and the requested one, in any phase. */
    method StallNextCycle(n: int)
      modifies this
      ensures Snapshot() == StallNextCycleStep(old(Snapshot()), n)
    {
      if n > stallPeriod {
        stallPeriod := n;
      }
    }

    method CancelStallPeriod()
      modifies this
      ensures Snapshot() == old(Snapshot()).(stallPeriod := 0)
    {
      stallPeriod := 0;
    }

    /** IsStalledThisCycle: only in Update or End. */
    function IsStalledThisCycle(): (r: Result<bool>)
      reads this
      ensures r.Ok? <==> phase == PHASE_UPDATE || phase == PHASE_END
      ensures r.Ok? ==> r.value == thisCycleStalled
    {
      if phase != PHASE_UPDATE && phase != PHASE_END then Fail(PhaseError) else Ok(thisCycleStalled)
    }

    /** IsStalledLastCycle: in any phase but Begin. */
    function IsStalledLastCycle(): (r: Result<bool>)
      reads this
      ensures r.Ok? <==> phase != PHASE_BEGIN
      ensures r.Ok? ==> r.value == lastCycleStalled
    {
      if phase == PHASE_BEGIN then Fail(PhaseError) else Ok(lastCycleStalled)
    }
  }

  // ---------------------------------------------------------------------
  // Properties
  // ---------------------------------------------------------------------

  function NextPhase(p: Phase): Phase
  {
    match p
    case PHASE_BEGIN => PHASE_EVALUATE
    case PHASE_EVALUATE => PHASE_TRANSITION
    case PHASE_TRANSITION => PHASE_UPDATE
    case PHASE_UPDATE => PHASE_END
    case PHASE_END => PHASE_BEGIN
  }

  /** The phase a phase call must find. */
  function Expected(call: Call): Option<Phase>
  {
    match call
    case CallBegin => Some(PHASE_BEGIN)
    case CallEvaluate => Some(PHASE_EVALUATE)
    case CallTransition => Some(PHASE_TRANSITION)
    case CallTriggerUpdate => Some(PHASE_UPDATE)
    case CallEnd => Some(PHASE_END)
    case _ => None
  }

  /** The phases must run Begin, Evaluate, Transition, TriggerUpdate, End:
      a phase call succeeds exactly in its own phase and moves to the next
      one; a failing call changes nothing. */
  lemma PhaseOrder(s: Clock, call: Call)
    requires Expected(call).Some?
    ensures Apply(s, call).Ok? <==> s.phase == Expected(call).value
    ensures Apply(s, call).Ok? ==> Apply(s, call).value.phase == NextPhase(s.phase)
  {
  }

  /** One cycle from Begin: the cycle is counted; it is stalled iff a stall
      was requested or the stall period was positive, and then it is
      counted as stalled and skips Update and Tick; the stall period
      drops by one when positive; BeginStall or EndStall marks a change of
      the stall state. */
  lemma {:induction false} OneCycle(s: Clock, stall: bool)
    requires s.phase == PHASE_BEGIN
    ensures Run(s, Cycle(stall)).Ok?
    ensures var t := Run(s, Cycle(stall)).value;
      var stalled := stall || s.stallPeriod > 0;
      t.phase == PHASE_BEGIN &&
      t.cycles == s.cycles + 1 &&
      t.thisCycleStalled == stalled &&
      t.lastCycleStalled == s.thisCycleStalled &&
      t.stalledCycles == (if stalled then s.stalledCycles + 1 else s.stalledCycles) &&
      t.stallPeriod == (if s.stallPeriod > 0 then s.stallPeriod - 1 else s.stallPeriod) &&
      t.hooks == s.hooks + StallChange(s.thisCycleStalled, stalled) + (if stalled then [] else [Update, Tick])
  {
    var stalled := stall || s.stallPeriod > 0;
    var b := BeginStep(s).value;
    var e := EvaluateStep(b).value;
    var e' := if stall then StallThisCycleStep(e).value else e;
    var t := TransitionStep(e').value;
    var u := TriggerUpdateStep(t).value;
    var f := EndStep(u).value;
    var calls := Cycle(stall);
    if stall {
      assert Run(s, calls) == Run(b, calls[1..]);
      assert Run(b, calls[1..]) == Run(e, calls[2..]);
      assert Run(e, calls[2..]) == Run(e', calls[3..]);
      assert Run(e', calls[3..]) == Run(t, calls[4..]);
      assert Run(t, calls[4..]) == Run(u, calls[5..]);
      assert Run(u, calls[5..]) == Run(f, calls[6..]);
      assert calls[6..] == [];
    } else {
      assert Run(s, calls) == Run(b, calls[1..]);
      assert Run(b, calls[1..]) == Run(e, calls[2..]);
      assert Run(e, calls[2..]) == Run(t, calls[3..]);
      assert Run(t, calls[3..]) == Run(u, calls[4..]);
      assert Run(u, calls[4..]) == Run(f, calls[5..]);
      assert calls[5..] == [];
    }
    if stalled {
      assert f.hooks == s.hooks + StallChange(s.thisCycleStalled, stalled);
    } else {
      assert f.hooks == s.hooks + StallChange(s.thisCycleStalled, stalled) + [Update] + [Tick];
    }
  }

  /** Running two call lists is running their concatenation. */
  lemma {:induction false} RunAppend(s: Clock, a: seq<Call>, b: seq<Call>)
    requires Run(s, a).Ok?
    ensures Run(s, a + b) == Run(Run(s, a).value, b)
    decreases |a|
  {
    if |a| > 0 {
      assert Apply(s, a[0]).Ok?;
      assert (a + b)[0] == a[0];
      assert (a + b)[1..] == a[1..] + b;
      RunAppend(Apply(s, a[0]).value, a[1..], b);
    } else {
      assert a + b == b;
    }
  }

  /** StallNextCycle(n) stalls exactly the next n cycles: from Begin with
      stall period n and no other request, n cycles all stall, call
      neither Update nor Tick, and use the period up. */
  lemma {:induction false} StallPeriodCycles(s: Clock, n: nat)
    decreases n
    requires s.phase == PHASE_BEGIN && s.stallPeriod == n
    ensures Run(s, Cycles(n)).Ok?
    ensures s.hooks <= Run(s, Cycles(n)).value.hooks
    ensures var t := Run(s, Cycles(n)).value;
      t.phase == PHASE_BEGIN && t.stallPeriod == 0 &&
      t.cycles == s.cycles + n && t.stalledCycles == s.stalledCycles + n &&
      (n > 0 ==> t.thisCycleStalled) &&
      Update !in t.hooks[|s.hooks|..] && Tick !in t.hooks[|s.hooks|..]
  {
    if n > 0 {
      OneCycle(s, false);
      var m := Run(s, Cycle(false)).value;
      RunAppend(s, Cycle(false), Cycles(n - 1));
      StallPeriodCycles(m, n - 1);
      var t := Run(m, Cycles(n - 1)).value;
      assert m.hooks == s.hooks + StallChange(s.thisCycleStalled, true);
      assert t.hooks == m.hooks + t.hooks[|m.hooks|..];
      assert t.hooks[|s.hooks|..] == StallChange(s.thisCycleStalled, true) + t.hooks[|m.hooks|..];
    } else {
      assert s.hooks[|s.hooks|..] == [];
    }
  }

  /** The cycle after a used-up stall period and with no request runs
      unstalled: EndStall, Update and Tick. */
  lemma StallPeriodEnds(s: Clock)
    requires s.phase == PHASE_BEGIN && s.stallPeriod == 0 && s.thisCycleStalled
    ensures Run(s, Cycle(false)).Ok?
    ensures Run(s, Cycle(false)).value.hooks == s.hooks + [EndStall, Update, Tick]
    ensures !Run(s, Cycle(false)).value.thisCycleStalled
  {
    OneCycle(s, false);
  }

  /** BeginStall calls minus EndStall calls. */
  function OpenStalls(h: seq<Hook>): int
  {
    if |h| == 0 then 0
    else OpenStalls(h[..|h| - 1]) + (if h[|h| - 1] == BeginStall then 1 else if h[|h| - 1] == EndStall then -1 else 0)
  }

  lemma {:induction false} OpenStallsAppend(h: seq<Hook>, g: seq<Hook>)
    ensures OpenStalls(h + g) == OpenStalls(h) + OpenStalls(g)
    decreases |g|
  {
    if |g| > 0 {
      assert (h + g)[..|h + g| - 1] == h + g[..|g| - 1];
      OpenStallsAppend(h, g[..|g| - 1]);
    } else {
      assert h + g == h;
    }
  }

  /** The stall hooks track the stall state: one stall is open exactly
      while the resource is stalled (the last cycle's state until
      Transition fixes this cycle's). */
  predicate Balanced(s: Clock)
  {
    var stalled := if s.phase == PHASE_EVALUATE || s.phase == PHASE_TRANSITION
                   then s.lastCycleStalled else s.thisCycleStalled;
    OpenStalls(s.hooks) == if stalled then 1 else 0
  }

  /** Every call keeps the stall hooks balanced, and a new resource starts
      balanced: BeginStall and EndStall alternate, starting with
      BeginStall. */
  lemma BalancedPreserved(s: Clock, call: Call)
    requires Balanced(s) && Apply(s, call).Ok?
    ensures Balanced(Apply(s, call).value)
    ensures Balanced(Initial())
  {
    var t := Apply(s, call).value;
    OpenStallsAppend(s.hooks, t.hooks[|s.hooks|..]);
    match call
    case CallTransition =>
      assert t.hooks == s.hooks + StallChange(s.lastCycleStalled, s.reqStallThisCycle);
    case CallTriggerUpdate =>
      assert t.hooks == s.hooks + (if s.thisCycleStalled then [] else [Update]);
      assert OpenStalls([Update]) == 0;
    case CallEnd =>
      assert t.hooks == s.hooks + (if s.thisCycleStalled then [] else [Tick]);
      assert OpenStalls([Tick]) == 0;
    case _ =>
      assert t.hooks == s.hooks + [];
  }
}
