/** The stream prefetcher: a table of streams that are allocated on cache
    misses, trained on misses that fall in a window around their first
    address, and, once trained, monitored so that a miss inside a stream's
    prefetch window issues `degree` prefetches ahead of it. */
module StreamPrefetcher {
  import opened Arith
  import opened Wrappers
  import Words

  const U64Limit: nat := 0x1_0000_0000_0000_0000

  /** An unsigned 64-bit value. */
  type U64 = x: int | 0 <= x < 0x1_0000_0000_0000_0000

  /** Conversion to u64: wrap modulo 2^64. */
  function Wrap(x: int): U64
  {
    x % U64Limit
  }

  /** Wrapping once in the middle of a sum changes nothing. */
  lemma WrapAdd(x: int, y: int)
    ensures Wrap(Wrap(x) + y) == Wrap(x + y)
  {
    assert Wrap(x) + y == (x + y) - U64Limit * (x / U64Limit);
    ModSubMultiple(x + y, U64Limit, x / U64Limit);
  }

  datatype StreamStatus = SS_INVALID | SS_TRAINING | SS_MONITOR

  /** An address in the address space of process pid. */
  datatype Addr = Addr(pid: int, address: U64)

  /** A table entry: its status, the first address of the stream, the
      current start of its prefetch window, the access count and the
      direction. */
  datatype Stream = Stream(status: StreamStatus, orig: Addr, addr: Addr, count: int, ascending: bool)

  /** A default-constructed entry: invalid, ascending, count 0. */
  function ResetStream(): Stream
  {
    Stream(SS_INVALID, Addr(0, 0), Addr(0, 0), 0, true)
  }

  /** The loaded parameters; the line size is 2^lineBitSize. */
  datatype Config = Config(lineBitSize: nat, degree: int, distance: int,
                           trainingWindowSize: int, trainingThreshold: int)

  /** The line size is computed by a shift of an int, so the line holds
      fewer than 2^31 bytes. */
  predicate ValidConfig(c: Config)
  {
    c.lineBitSize < 31
  }

  function LineSize(c: Config): nat
  {
    Pow2(c.lineBitSize)
  }

  /** The prefetch distance in bytes. */
  function EffectiveDistance(c: Config): U64
  {
    Wrap(c.distance * LineSize(c))
  }

  /** The training window in bytes. */
  function EffectiveTrainingWindow(c: Config): U64
  {
    Wrap(LineSize(c) * c.trainingWindowSize)
  }

  /** The number of iterations of the prefetch loop. */
  function Degree(c: Config): nat
  {
    if c.degree > 0 then c.degree else 0
  }

  function Sign(ascending: bool): int
  {
    if ascending then 1 else -1
  }

  // ---------------------------------------------------------------------
  // Windows and lines
  // ---------------------------------------------------------------------

  /** IsInWindow on raw addresses, in u64 arithmetic: an ascending window
      is [start, start + size) and a descending one [start - size, start);
      a window whose bound wraps past 0 or 2^64 holds no address. */
  function InRawWindow(addr: U64, start: U64, windowSize: U64, ascending: bool): (r: bool)
    ensures ascending ==> (r <==> start + windowSize < U64Limit && start <= addr < start + windowSize)
    ensures !ascending ==> (r <==> windowSize <= start && start - windowSize <= addr < start)
  {
    Words.ModOnce(start + windowSize, U64Limit);
    Words.ModOnceNeg(start - windowSize, U64Limit);
    if ascending then start <= addr && addr < Wrap(start + windowSize)
    else Wrap(start - windowSize) <= addr && addr < start
  }

  /** MaskLineOffset: clear the offset bits of the line, giving the start
      of the line that holds the address. */
  function MaskLineOffset(address: U64, c: Config): (r: U64)
    requires ValidConfig(c)
    ensures r <= address < r + LineSize(c)
    ensures r % LineSize(c) == 0
  {
    RoundDown(address, LineSize(c))
  }

  /** a rounded down to a multiple of l. */
  function RoundDown(a: nat, l: nat): (r: nat)
    requires l >= 1
    ensures r <= a < r + l
    ensures r % l == 0
  {
    var q := a / l;
    assert a == l * q + a % l;
    assert q * l == l * q;
    DivModUnique(q * l, l, q, 0);
    q * l
  }

  /** The line-masked address, in the same process. */
  function LineOf(a: Addr, c: Config): Addr
    requires ValidConfig(c)
  {
    Addr(a.pid, MaskLineOffset(a.address, c))
  }

  /** IsInWindow on addresses: the same process, and the line of addr in
      the window starting at the line of start. */
  function InWindow(addr: Addr, start: Addr, windowSize: U64, ascending: bool, c: Config): (r: bool)
    requires ValidConfig(c)
    ensures addr.pid != start.pid ==> !r
  {
    addr.pid == start.pid &&
    InRawWindow(MaskLineOffset(addr.address, c), MaskLineOffset(start.address, c), windowSize, ascending)
  }

  // ---------------------------------------------------------------------
  // The prefetcher's state as a value
  // ---------------------------------------------------------------------

  datatype Stats = Stats(numPrefetch: int, numAllocatedStream: int, numMonitoredStream: int,
                         numAscendingMonitoredStream: int, numDescendingMonitoredStream: int,
                         numTrainingAccess: int, numAllocatingAccess: int)

  /** The stream table, the table's touches in order (what its
      replacement policy sees), the prefetch accesses issued, in order,
      and the statistics. */
  datatype State = State(streams: seq<Stream>, touches: seq<nat>, issued: seq<Addr>, stats: Stats)

  /** The stream's start address after k steps of one line each. */
  function StepAddress(s: Stream, k: nat, c: Config): U64
  {
    Wrap(s.addr.address + Sign(s.ascending) * (k * LineSize(c)))
  }

  /** The addresses Prefetch issues for s: the k-th is the end of the
      window, the effective distance ahead, of the stream's k-th start. */
  function PrefetchTargets(s: Stream, c: Config): (r: seq<Addr>)
    ensures |r| == Degree(c)
  {
    seq(Degree(c), k requires 0 <= k < Degree(c) =>
      s.addr.(address := Wrap(s.addr.address + Sign(s.ascending) * (k * LineSize(c) + EffectiveDistance(c)))))
  }

  /** The stream after Prefetch: its start moved `degree` lines on. */
  function Advanced(s: Stream, c: Config): Stream
  {
    s.(addr := s.addr.(address := StepAddress(s, Degree(c), c)))
  }

  /** Prefetch on entry i: issue its targets, advance it, count one
      prefetch. */
  function PrefetchStep(st: State, i: nat, c: Config): State
    requires i < |st.streams|
  {
    st.(streams := st.streams[i := Advanced(st.streams[i], c)],
        issued := st.issued + PrefetchTargets(st.streams[i], c),
        stats := st.stats.(numPrefetch := st.stats.numPrefetch + 1))
  }

  /** A monitored stream whose prefetch window holds the miss. */
  predicate MonitorHit(s: Stream, miss: Addr, c: Config)
    requires ValidConfig(c)
  {
    s.status == SS_MONITOR && InWindow(miss, s.addr, EffectiveDistance(c), s.ascending, c)
  }

  /** The first entry at or after `from` that MonitorHit selects. */
  function FirstMonitor(streams: seq<Stream>, miss: Addr, c: Config, from: nat): (r: Option<nat>)
    requires ValidConfig(c)
    ensures r.Some? ==> from <= r.value < |streams| && MonitorHit(streams[r.value], miss, c)
    ensures r.Some? ==> forall j :: from <= j < r.value ==> !MonitorHit(streams[j], miss, c)
    ensures r.None? ==> forall j :: from <= j < |streams| ==> !MonitorHit(streams[j], miss, c)
    decreases |streams| - from
  {
    if from >= |streams| then None
    else if MonitorHit(streams[from], miss, c) then Some(from)
    else FirstMonitor(streams, miss, c, from + 1)
  }

  /** UpdateMonitorStream: the first monitored stream whose window holds
      the miss line prefetches, is touched and counts the access. */
  function MonitorStep(st: State, access: Addr, c: Config): (State, bool)
    requires ValidConfig(c)
  {
    match FirstMonitor(st.streams, LineOf(access, c), c, 0)
    case None => (st, false)
    case Some(i) =>
      var p := PrefetchStep(st, i, c);
      (p.(streams := p.streams[i := p.streams[i].(count := p.streams[i].count + 1)],
          touches := p.touches + [i]), true)
  }

  /** The direction of a training stream's window that holds the miss:
      ascending is tried first. */
  function TrainDirection(s: Stream, miss: Addr, c: Config): Option<bool>
    requires ValidConfig(c)
  {
    if s.status != SS_TRAINING then None
    else if InWindow(miss, s.orig, EffectiveTrainingWindow(c), true, c) then Some(true)
    else if InWindow(miss, s.orig, EffectiveTrainingWindow(c), false, c) then Some(false)
    else None
  }

  /** A stream takes a miss in direction d: its first access, or one in
      the direction it already has. */
  predicate Accepts(s: Stream, d: bool)
  {
    s.count == 0 || s.ascending == d
  }

  predicate TrainHit(s: Stream, miss: Addr, c: Config)
    requires ValidConfig(c)
  {
    TrainDirection(s, miss, c).Some? && Accepts(s, TrainDirection(s, miss, c).value)
  }

  /** The first entry at or after `from` that TrainHit selects. */
  function FirstTrain(streams: seq<Stream>, miss: Addr, c: Config, from: nat): (r: Option<nat>)
    requires ValidConfig(c)
    ensures r.Some? ==> from <= r.value < |streams| && TrainHit(streams[r.value], miss, c)
    ensures r.Some? ==> forall j :: from <= j < r.value ==> !TrainHit(streams[j], miss, c)
    ensures r.None? ==> forall j :: from <= j < |streams| ==> !TrainHit(streams[j], miss, c)
    decreases |streams| - from
  {
    if from >= |streams| then None
    else if TrainHit(streams[from], miss, c) then Some(from)
    else FirstTrain(streams, miss, c, from + 1)
  }

  /** A stream the training scan passes over: one whose window holds the
      miss in the other direction is turned round with its count reset;
      any other is left as it is. */
  function Passed(s: Stream, miss: Addr, c: Config): Stream
    requires ValidConfig(c)
  {
    match TrainDirection(s, miss, c)
    case Some(d) => s.(ascending := d, count := 0)
    case None => s
  }

  /** The stream that takes the miss in direction d: one more access, and
      monitored once the count reaches the threshold. */
  function Trained(s: Stream, d: bool, c: Config): Stream
  {
    var n := s.count + 1;
    s.(ascending := d, count := n, status := if n >= c.trainingThreshold then SS_MONITOR else s.status)
  }

  /** The streams after the training scan: those before `stop` passed
      over, the rest as they were. */
  function PassedUpTo(streams: seq<Stream>, miss: Addr, c: Config, stop: nat): (r: seq<Stream>)
    requires ValidConfig(c)
    ensures |r| == |streams|
  {
    seq(|streams|, k requires 0 <= k < |streams| => if k < stop then Passed(streams[k], miss, c) else streams[k])
  }

  /** UpdateTrainingStream: the first training stream that accepts the
      miss line is trained and touched; the streams scanned before it are
      passed over. */
  function TrainingStep(st: State, access: Addr, c: Config): (State, bool)
    requires ValidConfig(c)
  {
    var miss := LineOf(access, c);
    match FirstTrain(st.streams, miss, c, 0)
    case None => (st.(streams := PassedUpTo(st.streams, miss, c, |st.streams|)), false)
    case Some(i) =>
      var d := TrainDirection(st.streams[i], miss, c).value;
      var s := Trained(st.streams[i], d, c);
      var promoted := s.count >= c.trainingThreshold;
      var stats := st.stats.(numTrainingAccess := st.stats.numTrainingAccess + 1);
      var stats' :=
        if !promoted then stats
        else if d then stats.(numMonitoredStream := stats.numMonitoredStream + 1,
                              numAscendingMonitoredStream := stats.numAscendingMonitoredStream + 1)
        else stats.(numMonitoredStream := stats.numMonitoredStream + 1,
                    numDescendingMonitoredStream := stats.numDescendingMonitoredStream + 1);
      (st.(streams := PassedUpTo(st.streams, miss, c, i)[i := s],
           touches := st.touches + [i], stats := stats'), true)
  }

  /** The entry AllocateStream writes: training, count 0, ascending, with
      both addresses at the miss line. */
  function NewStream(access: Addr, c: Config): Stream
    requires ValidConfig(c)
  {
    var miss := LineOf(access, c);
    Stream(SS_TRAINING, miss, miss, 0, true)
  }

  /** AllocateStream into the entry the replacement policy names. */
  function AllocateStep(st: State, access: Addr, victim: nat, c: Config): State
    requires ValidConfig(c) && victim < |st.streams|
  {
    st.(streams := st.streams[victim := NewStream(access, c)],
        touches := st.touches + [victim],
        stats := st.stats.(numAllocatingAccess := st.stats.numAllocatingAccess + 1,
                           numAllocatedStream := st.stats.numAllocatedStream + 1))
  }

  /** OnCacheAccess: monitor on every access; train and, when no stream
      took the access, allocate on a miss only. */
  function OnAccess(st: State, access: Addr, hit: bool, victim: nat, enabled: bool, c: Config): State
    requires ValidConfig(c) && victim < |st.streams|
  {
    if !enabled then st
    else
      var (m, monitored) := MonitorStep(st, access, c);
      if hit then m
      else
        var (t, trained) := TrainingStep(m, access, c);
        if monitored || trained then t else AllocateStep(t, access, victim, c)
  }

  // ---------------------------------------------------------------------
  // The prefetcher object
  // ---------------------------------------------------------------------

  class Prefetcher {
    const c: Config
    const enabled: bool
    const table: array<Stream>
    var touches: seq<nat>
    var issued: seq<Addr>
    var stats: Stats

    predicate Valid()
      reads this
    {
      ValidConfig(c) && table.Length > 0
    }

    function Snapshot(): State
      reads this, table
    {
      State(table[..], touches, issued, stats)
    }

    /** The constructor and Initialize: a table of reset entries and zero
        statistics. */
    constructor (config: Config, isEnabled: bool, streamTableSize: nat)
      requires ValidConfig(config) && streamTableSize > 0
      ensures Valid() && c == config && enabled == isEnabled
      ensures table.Length == streamTableSize && fresh(table)
      ensures forall k :: 0 <= k < table.Length ==> table[k] == ResetStream()
      ensures touches == [] && issued == [] && stats == Stats(0, 0, 0, 0, 0, 0, 0)
    {
      c := config;
      enabled := isEnabled;
      table := new Stream[streamTableSize](_ => ResetStream());
      touches := [];
      issued := [];
      stats := Stats(0, 0, 0, 0, 0, 0, 0);
    }

    /** Prefetch: `degree` times, issue the window end of the stream and
        move the stream one line on in its direction; then count one
        prefetch. */
    method Prefetch(i: nat)
      requires Valid() && i < table.Length
      modifies this, table
      ensures Snapshot() == PrefetchStep(old(Snapshot()), i, c)
    {
      ghost var s0 := table[i];
      ghost var targets := PrefetchTargets(s0, c);
      var k := 0;
      while k < c.degree
        invariant 0 <= k <= Degree(c)
        invariant table[..] == old(table[..])[i := s0.(addr := s0.addr.(address := StepAddress(s0, k, c)))]
        invariant issued == old(issued) + targets[..k]
        invariant touches == old(touches) && stats == old(stats)
      {
        var s := table[i];
        var target := if s.ascending then Wrap(s.addr.address + EffectiveDistance(c))
                      else Wrap(s.addr.address - EffectiveDistance(c));
        TargetAfterSteps(s0, k, c);
        assert targets[..k + 1] == targets[..k] + [s.addr.(address := target)];
        issued := issued + [s.addr.(address := target)];
        StepOnce(s0, k, c);
        table[i] := s.(addr := s.addr.(address := Wrap(s.addr.address + (if s.ascending then LineSize(c) as int else -(LineSize(c) as int)))));
        k := k + 1;
      }
      assert targets[..k] == targets;
      stats := stats.(numPrefetch := stats.numPrefetch + 1);
    }

    /** UpdateMonitorStream: scan for the first monitored stream whose
        window holds the miss line; prefetch on it, touch it and count the
        access. */
    method UpdateMonitorStream(access: Addr) returns (updated: bool)
      requires Valid()
      modifies this, table
      ensures (Snapshot(), updated) == MonitorStep(old(Snapshot()), access, c)
    {
      var miss := LineOf(access, c);
      ghost var st0 := Snapshot();
      var i := 0;
      while i < table.Length
        invariant 0 <= i <= table.Length
        invariant Snapshot() == st0
        invariant FirstMonitor(st0.streams, miss, c, 0) == FirstMonitor(st0.streams, miss, c, i)
      {
        var stream := table[i];
        if stream.status == SS_MONITOR && InWindow(miss, stream.addr, EffectiveDistance(c), stream.ascending, c) {
          Prefetch(i);
          touches := touches + [i];
          table[i] := table[i].(count := table[i].count + 1);
          return true;
        }
        i := i + 1;
      }
      return false;
    }

    /** UpdateTrainingStream: scan the training streams; the first whose
        window holds the miss line and that accepts its direction is
        trained, possibly promoted to monitoring, and touched; a stream
        seeing the other direction is turned round with its count reset. */
    method UpdateTrainingStream(access: Addr) returns (updated: bool)
      requires Valid()
      modifies this, table
      ensures (Snapshot(), updated) == TrainingStep(old(Snapshot()), access, c)
    {
      var miss := LineOf(access, c);
      ghost var st0 := Snapshot();
      var i := 0;
      while i < table.Length
        invariant 0 <= i <= table.Length
        invariant FirstTrain(st0.streams, miss, c, 0) == FirstTrain(st0.streams, miss, c, i)
        invariant table[..] == PassedUpTo(st0.streams, miss, c, i)
        invariant touches == st0.touches && issued == st0.issued && stats == st0.stats
      {
        var stream := table[i];
        var decision := TrainOne(stream, miss, c);
        if decision.Some? {
          var (s, promoted) := decision.value;
          if promoted {
            stats := stats.(numMonitoredStream := stats.numMonitoredStream + 1);
            if s.ascending {
              stats := stats.(numAscendingMonitoredStream := stats.numAscendingMonitoredStream + 1);
            } else {
              stats := stats.(numDescendingMonitoredStream := stats.numDescendingMonitoredStream + 1);
            }
          }
          stats := stats.(numTrainingAccess := stats.numTrainingAccess + 1);
          table[i] := s;
          touches := touches + [i];
          assert PassedUpTo(st0.streams, miss, c, i)[i] == st0.streams[i];
          return true;
        }
        PassOne(st0.streams, miss, c, i);
        table[i] := Passed(stream, miss, c);
        i := i + 1;
      }
      return false;
    }

    /** AllocateStream: write a fresh training stream at the miss line into
        the entry the replacement policy names, and touch it. */
    method AllocateStream(access: Addr, victim: nat)
      requires Valid() && victim < table.Length
      modifies this, table
      ensures Snapshot() == AllocateStep(old(Snapshot()), access, victim, c)
    {
      var miss := LineOf(access, c);
      var stream := Stream(SS_TRAINING, miss, miss, 0, true);
      table[victim] := stream;
      touches := touches + [victim];
      stats := stats.(numAllocatingAccess := stats.numAllocatingAccess + 1,
                      numAllocatedStream := stats.numAllocatedStream + 1);
    }

    /** OnCacheAccess: nothing when disabled; monitor; on a miss, train and
        allocate when no stream took the access. */
    method OnCacheAccess(access: Addr, hit: bool, victim: nat)
      requires Valid() && victim < table.Length
      modifies this, table
      ensures Snapshot() == OnAccess(old(Snapshot()), access, hit, victim, enabled, c)
    {
      if !enabled {
        return;
      }
      var streamTableHit := false;
      var monitored := UpdateMonitorStream(access);
      if monitored {
        streamTableHit := true;
      }
      if hit {
        return;
      }
      var trained := UpdateTrainingStream(access);
      if trained {
        streamTableHit := true;
      }
      if !streamTableHit {
        AllocateStream(access, victim);
      }
    }
  }

  /** One training stream meeting the miss, as the loop body decides it:
      None when the scan goes on, otherwise the trained stream and whether
      it was promoted to monitoring. */
  function TrainOne(s: Stream, miss: Addr, c: Config): (r: Option<(Stream, bool)>)
    requires ValidConfig(c)
    ensures r.Some? <==> TrainHit(s, miss, c)
    ensures r.Some? ==> r.value.0 == Trained(s, TrainDirection(s, miss, c).value, c)
    ensures r.Some? ==> (r.value.1 <==> r.value.0.count >= c.trainingThreshold)
  {
    if s.status != SS_TRAINING then None
    else
      var window := EffectiveTrainingWindow(c);
      var inAscending := InWindow(miss, s.orig, window, true, c);
      if !inAscending && !InWindow(miss, s.orig, window, false, c) then None
      else
        var ascending := inAscending;
        var s1 := if s.count == 0 then s.(ascending := ascending) else s;
        if s1.ascending == ascending then
          var s2 := s1.(count := s1.count + 1);
          if s2.count >= c.trainingThreshold then Some((s2.(status := SS_MONITOR), true))
          else Some((s2, false))
        else None
  }

  /** The training scan's invariant one entry on. */
  lemma PassOne(streams: seq<Stream>, miss: Addr, c: Config, i: nat)
    requires ValidConfig(c) && i < |streams|
    ensures PassedUpTo(streams, miss, c, i)[i := Passed(streams[i], miss, c)] == PassedUpTo(streams, miss, c, i + 1)
  {
  }

  /** The k-th prefetch target is the window end of the stream's start
      after k steps. */
  lemma TargetAfterSteps(s: Stream, k: nat, c: Config)
    requires k < Degree(c)
    ensures PrefetchTargets(s, c)[k].address ==
      Wrap(StepAddress(s, k, c) + Sign(s.ascending) * EffectiveDistance(c))
  {
    var l := LineSize(c);
    WrapAdd(s.addr.address + Sign(s.ascending) * (k * l), Sign(s.ascending) * EffectiveDistance(c));
    Distrib(Sign(s.ascending), k * l, EffectiveDistance(c));
  }

  /** One more step of one line. */
  lemma StepOnce(s: Stream, k: nat, c: Config)
    ensures Wrap(StepAddress(s, k, c) + Sign(s.ascending) * LineSize(c)) == StepAddress(s, k + 1, c)
  {
    var l := LineSize(c);
    var kl := k * l;
    var x := s.addr.address + Sign(s.ascending) * kl;
    WrapAdd(x, Sign(s.ascending) * l);
    assert (k + 1) * l == kl + l;
    if s.ascending {
      assert x + l == s.addr.address + (kl + l);
    } else {
      assert x - l == s.addr.address - (kl + l);
    }
  }

  // ---------------------------------------------------------------------
  // Properties
  // ---------------------------------------------------------------------

  /** The ascending and descending windows of a start never share an
      address. */
  lemma WindowsDisjoint(addr: U64, start: U64, windowSize: U64)
    ensures !(InRawWindow(addr, start, windowSize, true) && InRawWindow(addr, start, windowSize, false))
  {
  }

  /** One training stream meeting a miss in direction d: the first access
      sets the direction, an access in the same direction counts one
      more, one in the other direction turns the stream round with its
      count reset and lets the scan go on; reaching the threshold moves it
      to monitoring. */
  lemma TrainingTransitions(s: Stream, miss: Addr, c: Config, d: bool)
    requires ValidConfig(c) && TrainDirection(s, miss, c) == Some(d)
    ensures s.count == 0 ==> TrainHit(s, miss, c) && Trained(s, d, c).ascending == d && Trained(s, d, c).count == 1
    ensures s.count != 0 && s.ascending == d ==>
      TrainHit(s, miss, c) && Trained(s, d, c).ascending == d && Trained(s, d, c).count == s.count + 1
    ensures s.count != 0 && s.ascending != d ==>
      !TrainHit(s, miss, c) && Passed(s, miss, c) == s.(ascending := d, count := 0)
    ensures Trained(s, d, c).status == if s.count + 1 >= c.trainingThreshold then SS_MONITOR else SS_TRAINING
  {
  }

  /** The training scan: it takes the access iff some training stream
      accepts it; it never changes a stream that is not training or whose
      windows miss the line; it issues nothing; and only a taken access
      touches the table or counts. */
  lemma TrainingStepEffect(st: State, access: Addr, c: Config)
    requires ValidConfig(c)
    ensures var (t, hit) := TrainingStep(st, access, c);
      var miss := LineOf(access, c);
      |t.streams| == |st.streams| &&
      (hit <==> exists k :: 0 <= k < |st.streams| && TrainHit(st.streams[k], miss, c)) &&
      (forall k :: 0 <= k < |st.streams| && TrainDirection(st.streams[k], miss, c).None? ==>
         t.streams[k] == st.streams[k]) &&
      t.issued == st.issued &&
      t.stats.numPrefetch == st.stats.numPrefetch &&
      t.stats.numAllocatingAccess == st.stats.numAllocatingAccess &&
      t.stats.numAllocatedStream == st.stats.numAllocatedStream &&
      (hit ==> t.stats.numTrainingAccess == st.stats.numTrainingAccess + 1 && |t.touches| == |st.touches| + 1) &&
      (!hit ==> t.touches == st.touches && t.stats == st.stats)
  {
    var miss := LineOf(access, c);
    var first := FirstTrain(st.streams, miss, c, 0);
    if first.Some? {
      var i := first.value;
      var (t, hit) := TrainingStep(st, access, c);
      forall k | 0 <= k < |st.streams| && TrainDirection(st.streams[k], miss, c).None?
        ensures t.streams[k] == st.streams[k]
      {
        assert k != i;
      }
    }
  }

  /** The monitor scan: it takes the access iff some monitored stream's
      window holds the line; it keeps every stream's status and leaves
      every stream that is not monitored as it is; a taken access issues
      `degree` prefetches and counts one prefetch, a missed one changes
      nothing. */
  lemma MonitorStepEffect(st: State, access: Addr, c: Config)
    requires ValidConfig(c)
    ensures var (m, hit) := MonitorStep(st, access, c);
      var miss := LineOf(access, c);
      |m.streams| == |st.streams| &&
      (hit <==> exists k :: 0 <= k < |st.streams| && MonitorHit(st.streams[k], miss, c)) &&
      (forall k :: 0 <= k < |st.streams| ==> m.streams[k].status == st.streams[k].status) &&
      (forall k :: 0 <= k < |st.streams| && st.streams[k].status != SS_MONITOR ==> m.streams[k] == st.streams[k]) &&
      m.stats.numTrainingAccess == st.stats.numTrainingAccess &&
      m.stats.numAllocatingAccess == st.stats.numAllocatingAccess &&
      m.stats.numAllocatedStream == st.stats.numAllocatedStream &&
      (hit ==> |m.issued| == |st.issued| + Degree(c) && m.stats.numPrefetch == st.stats.numPrefetch + 1) &&
      (!hit ==> m == st)
  {
  }

  /** A stream the monitor scan may change is not training, so the
      training scan sees the same candidates before and after it. */
  lemma TrainHitAfterMonitor(st: State, access: Addr, c: Config)
    requires ValidConfig(c)
    ensures var m := MonitorStep(st, access, c).0;
      var miss := LineOf(access, c);
      (exists k :: 0 <= k < |m.streams| && TrainHit(m.streams[k], miss, c)) <==>
      (exists k :: 0 <= k < |st.streams| && TrainHit(st.streams[k], miss, c))
  {
    MonitorStepEffect(st, access, c);
    var m := MonitorStep(st, access, c).0;
    var miss := LineOf(access, c);
    forall k | 0 <= k < |st.streams|
      ensures TrainHit(m.streams[k], miss, c) <==> TrainHit(st.streams[k], miss, c)
    {
      if st.streams[k].status != SS_MONITOR {
        assert m.streams[k] == st.streams[k];
      }
    }
  }

  /** A cache hit only monitors: no training stream or invalid entry
      changes, and nothing is trained or allocated. */
  lemma HitOnlyMonitors(st: State, access: Addr, victim: nat, c: Config)
    requires ValidConfig(c) && victim < |st.streams|
    ensures var r := OnAccess(st, access, true, victim, true, c);
      |r.streams| == |st.streams| &&
      (forall k :: 0 <= k < |st.streams| && st.streams[k].status != SS_MONITOR ==> r.streams[k] == st.streams[k]) &&
      r.stats.numTrainingAccess == st.stats.numTrainingAccess &&
      r.stats.numAllocatingAccess == st.stats.numAllocatingAccess
  {
    MonitorStepEffect(st, access, c);
  }

  /** On a miss, a stream is allocated iff no monitored stream's window
      and no training stream took the access; the new entry is written at
      the victim. */
  lemma MissAllocatesIffUnmatched(st: State, access: Addr, victim: nat, c: Config)
    requires ValidConfig(c) && victim < |st.streams|
    ensures var r := OnAccess(st, access, false, victim, true, c);
      var miss := LineOf(access, c);
      var unmatched := (forall k :: 0 <= k < |st.streams| ==> !MonitorHit(st.streams[k], miss, c)) &&
                       (forall k :: 0 <= k < |st.streams| ==> !TrainHit(st.streams[k], miss, c));
      (r.stats.numAllocatingAccess == st.stats.numAllocatingAccess + 1 <==> unmatched) &&
      (r.stats.numAllocatingAccess == st.stats.numAllocatingAccess <==> !unmatched) &&
      (unmatched ==> r.streams[victim] == NewStream(access, c))
  {
    MonitorStepEffect(st, access, c);
    var m := MonitorStep(st, access, c).0;
    TrainHitAfterMonitor(st, access, c);
    TrainingStepEffect(m, access, c);
  }

  /** A disabled prefetcher changes nothing. */
  lemma DisabledIgnores(st: State, access: Addr, hit: bool, victim: nat, c: Config)
    requires ValidConfig(c) && victim < |st.streams|
    ensures OnAccess(st, access, hit, victim, false, c) == st
  {
  }

  /** A new stream is training with count 0, and its first and current
      addresses are both the start of the line the miss fell in. */
  lemma NewStreamShape(access: Addr, c: Config)
    requires ValidConfig(c)
    ensures var s := NewStream(access, c);
      s.status == SS_TRAINING && s.count == 0 && s.orig == s.addr &&
      s.addr.pid == access.pid &&
      s.addr.address <= access.address < s.addr.address + LineSize(c) &&
      s.addr.address % LineSize(c) == 0
  {
  }
}
