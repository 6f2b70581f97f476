/** The three LRU replacers of shttl: lru_time (time stamps), lru_order
    (an explicit order vector) and lru_list (a doubly linked list in an
    array). Each keeps, per set, the recency order of its ways; all three
    are proved against one abstract order, least recently used first. */
module Lru {

  /** The ways 0..n-1, each exactly once. */
  ghost predicate IsPerm(o: seq<nat>, n: nat)
  {
    |o| == n && (forall k :: 0 <= k < n ==> o[k] < n) &&
    (forall k, m :: 0 <= k < m < n ==> o[k] != o[m]) &&
    (forall x :: 0 <= x < n ==> x in o)
  }

  /** The elements of o that are not in a, in order. */
  function Keep(o: seq<nat>, a: seq<nat>): (r: seq<nat>)
    ensures |r| <= |o|
    ensures forall x :: x in r <==> x in o && x !in a
  {
    if o == [] then [] else (if o[0] in a then [] else [o[0]]) + Keep(o[1..], a)
  }

  /** The abstract effect of touching way w: it becomes most recently used. */
  function Touched(o: seq<nat>, w: nat): (r: seq<nat>)
    ensures |r| >= 1 && r[|r| - 1] == w && w in r
  {
    Keep(o, [w]) + [w]
  }

  /** Touching the ways of a, in order. */
  function TouchAll(o: seq<nat>, a: seq<nat>): seq<nat>
  {
    if a == [] then o else Touched(TouchAll(o, a[..|a| - 1]), a[|a| - 1])
  }

  lemma {:induction false} KeepAppend(o1: seq<nat>, o2: seq<nat>, a: seq<nat>)
    ensures Keep(o1 + o2, a) == Keep(o1, a) + Keep(o2, a)
  {
    if o1 == [] {
      assert o1 + o2 == o2;
    } else {
      assert (o1 + o2)[0] == o1[0];
      assert (o1 + o2)[1..] == o1[1..] + o2;
      KeepAppend(o1[1..], o2, a);
    }
  }

  lemma {:induction false} KeepNothing(o: seq<nat>, a: seq<nat>)
    requires forall x :: x in o ==> x !in a
    ensures Keep(o, a) == o
  {
    if o != [] {
      KeepNothing(o[1..], a);
    }
  }

  lemma {:induction false} KeepKeep(o: seq<nat>, a: seq<nat>, x: nat)
    ensures Keep(Keep(o, a), [x]) == Keep(o, a + [x])
  {
    if o != [] {
      KeepKeep(o[1..], a, x);
      var h := if o[0] in a then [] else [o[0]];
      var t := Keep(o[1..], a);
      assert Keep(o, a) == h + t;
      KeepAppend(h, t, [x]);
    }
  }

  lemma {:induction false} KeepEverything(o: seq<nat>, a: seq<nat>)
    requires forall x :: x in o ==> x in a
    ensures Keep(o, a) == []
  {
    if o != [] {
      KeepEverything(o[1..], a);
    }
  }

  /** Touching distinct ways a, in order, leaves the untouched ways first
      (in their old order) and then a. */
  lemma {:induction false} TouchAllShape(o: seq<nat>, a: seq<nat>)
    requires forall k, m :: 0 <= k < m < |a| ==> a[k] != a[m]
    ensures TouchAll(o, a) == Keep(o, a) + a
  {
    if a == [] {
      KeepNothing(o, a);
    } else {
      var a0, x := a[..|a| - 1], a[|a| - 1];
      LastSplit(a, a0);
      TouchAllShape(o, a0);
      TouchOneMore(o, a0, x);
    }
  }

  /** A distinct sequence is its distinct front and a last element not in it. */
  lemma LastSplit(a: seq<nat>, a0: seq<nat>)
    requires |a| > 0 && a0 == a[..|a| - 1] && forall k, m :: 0 <= k < m < |a| ==> a[k] != a[m]
    ensures a == a0 + [a[|a| - 1]] && a[|a| - 1] !in a0
    ensures forall k, m :: 0 <= k < m < |a0| ==> a0[k] != a0[m]
  {
  }

  /** Touching x after the distinct ways a0 (x not among them). */
  lemma TouchOneMore(o: seq<nat>, a0: seq<nat>, x: nat)
    requires x !in a0
    ensures Touched(Keep(o, a0) + a0, x) == Keep(o, a0 + [x]) + a0 + [x]
  {
    KeepAppend(Keep(o, a0), a0, [x]);
    KeepNothing(a0, [x]);
    KeepKeep(o, a0, x);
  }

  /** After every way has been touched once, in any order, the replacement
      target (the head of the order) is the first way touched. */
  lemma TouchEveryWay(o: seq<nat>, a: seq<nat>, n: nat)
    requires IsPerm(o, n) && IsPerm(a, n) && n > 0
    ensures TouchAll(o, a) == a
    ensures TouchAll(o, a)[0] == a[0]
  {
    TouchAllShape(o, a);
    KeepEverything(o, a);
  }

  ghost predicate Distinct(o: seq<nat>)
  {
    forall k, m :: 0 <= k < m < |o| ==> o[k] != o[m]
  }

  /** Removing a way that occurs once cuts it out of its position. */
  lemma {:induction false} RemoveAt(o: seq<nat>, p: nat)
    requires Distinct(o) && p < |o|
    ensures Keep(o, [o[p]]) == o[..p] + o[p + 1..]
  {
    if p == 0 {
      KeepNothing(o[1..], [o[0]]);
    } else {
      RemoveAt(o[1..], p - 1);
      TailSlices(o, p);
    }
  }

  lemma TailSlices(o: seq<nat>, p: nat)
    requires 0 < p < |o|
    ensures o[1..][p - 1] == o[p]
    ensures o[..p] == [o[0]] + o[1..][..p - 1]
    ensures o[p + 1..] == o[1..][p..]
  {
  }

  /** Position in o of the way found at position k of o cut at p and
      closed with o[p]. */
  function Src(k: nat, p: nat, n: nat): nat
  {
    if k < p then k else if k < n - 1 then k + 1 else p
  }

  lemma MoveToEndAt(o: seq<nat>, p: nat)
    requires p < |o|
    ensures |o[..p] + o[p + 1..] + [o[p]]| == |o|
    ensures forall k :: 0 <= k < |o| ==> (o[..p] + o[p + 1..] + [o[p]])[k] == o[Src(k, p, |o|)]
  {
  }

  /** Moving one way to the end keeps a permutation. */
  lemma MovePerm(o: seq<nat>, n: nat, p: nat)
    requires IsPerm(o, n) && p < n
    ensures IsPerm(o[..p] + o[p + 1..] + [o[p]], n)
  {
    var r := o[..p] + o[p + 1..] + [o[p]];
    MoveToEndAt(o, p);
    forall k, m | 0 <= k < m < n ensures r[k] != r[m] {
      assert Src(k, p, n) != Src(m, p, n);
    }
    forall x | 0 <= x < n ensures x in r {
      assert x in o;
      var j :| 0 <= j < n && o[j] == x;
      var k := if j < p then j else if j == p then n - 1 else j - 1;
      assert r[k] == x;
    }
  }

  /** Touching keeps the order a permutation of the ways. */
  lemma TouchedPerm(o: seq<nat>, n: nat, w: nat)
    requires IsPerm(o, n) && w < n
    ensures IsPerm(Touched(o, w), n)
  {
    assert w in o;
    var p :| 0 <= p < n && o[p] == w;
    RemoveAt(o, p);
    MovePerm(o, n, p);
  }

  /** The ways 0..n-1 in order: a freshly reset set. */
  function Iota(n: nat): (r: seq<nat>)
    ensures |r| == n && forall k :: 0 <= k < n ==> r[k] == k
  {
    if n == 0 then [] else Iota(n - 1) + [n - 1]
  }

  lemma IotaPerm(n: nat)
    ensures IsPerm(Iota(n), n)
  {
    forall x | 0 <= x < n ensures x in Iota(n) {
      assert Iota(n)[x] == x;
    }
  }

  /** lru_order: per set, the order vector from LRU to MRU. The source's
      flat vector, cut into sets of way_num entries, is held as one
      sequence per set. */
  class LruOrder {
    var wayNum: nat
    var setNum: nat
    var order: seq<seq<nat>>

    ghost predicate Valid()
      reads this
    {
      |order| == setNum && forall i :: 0 <= i < setNum ==> IsPerm(order[i], wayNum)
    }

    constructor ()
      ensures wayNum == 0 && setNum == 0 && order == [] && Valid()
    {
      wayNum, setNum, order := 0, 0, [];
    }

    /** construct: way_num must be below the order type's maximum (255);
        the sizes are recorded before that check. Every set starts in way
        order 0..way_num-1, way 0 least recently used. */
    method Construct(sets: nat, ways: nat) returns (ok: bool)
      modifies this
      ensures ok <==> ways < 255
      ensures setNum == sets && wayNum == ways
      ensures !ok ==> order == old(order)
      ensures ok ==> Valid() && forall i :: 0 <= i < sets ==> order[i] == Iota(ways)
    {
      wayNum, setNum := ways, sets;
      if 255 <= ways {
        return false;
      }
      var i := 0;
      var sets0: seq<seq<nat>> := [];
      while i < sets
        invariant 0 <= i <= sets && |sets0| == i
        invariant setNum == sets && wayNum == ways
        invariant forall j :: 0 <= j < i ==> sets0[j] == Iota(ways)
      {
        var s := ResetSet(ways);
        sets0 := sets0 + [s];
        i := i + 1;
      }
      order := sets0;
      IotaPerm(ways);
      return true;
    }

    /** reset_set: entry i of the set holds way i. */
    static method ResetSet(ways: nat) returns (s: seq<nat>)
      ensures s == Iota(ways)
    {
      s := [];
      var i := 0;
      while i < ways
        invariant 0 <= i <= ways && s == Iota(i)
      {
        s := s + [i];
        i := i + 1;
      }
    }

    /** target: the head of the set's order, its least recently used way. */
    function Target(index: nat): (w: nat)
      reads this
      requires Valid() && index < setNum && wayNum > 0
      ensures w < wayNum && w == order[index][0]
    {
      order[index][0]
    }

    /** touch: slides the ways after `way` one place towards the head and
        puts `way` at the MRU end. */
    method Touch(index: nat, way: nat)
      requires Valid() && index < setNum && way < wayNum
      modifies this
      ensures Valid() && setNum == old(setNum) && wayNum == old(wayNum)
      ensures order == old(order)[index := Touched(old(order[index]), way)]
    {
      var cur := MoveToBack(order[index], wayNum, way);
      order := order[index := cur];
    }
  }

  /** lru_order::touch's loop: slides the entries after way down by one
      and puts way last. */
  method MoveToBack(o: seq<nat>, n: nat, way: nat) returns (cur: seq<nat>)
    requires IsPerm(o, n) && way < n
    ensures cur == Touched(o, way) && IsPerm(cur, n)
  {
    cur := o;
    var slide := false;
    var w := 0;
    ghost var k := 0;
    while w < n
      invariant 0 <= w <= n && |cur| == n
      invariant !slide ==> cur == o && forall j :: 0 <= j < w ==> o[j] != way
      invariant slide ==> 0 <= k < w && o[k] == way && forall j :: 0 <= j < n ==> cur[j] == o[SlideSrc(j, k, w)]
    {
      if slide {
        var next := cur[w - 1 := cur[w]];
        SlideStep(o, cur, next, k, w);
        cur := next;
      } else if cur[w] == way {
        slide := true;
        k := w;
      }
      w := w + 1;
    }
    assert way in o;
    assert slide;
    var last := cur[n - 1 := way];
    SlideEnd(o, cur, last, k);
    cur := last;
    RemoveAt(o, k);
    TouchedPerm(o, n, way);
  }

  /** Where the entry at j comes from once the ways before w have been
      slid down over position k. */
  function SlideSrc(j: nat, k: nat, w: nat): nat
  {
    if j < k then j else if j + 1 < w then j + 1 else j
  }

  lemma SlideStep(o: seq<nat>, cur: seq<nat>, next: seq<nat>, k: nat, w: nat)
    requires k < w < |o| == |cur| && next == cur[w - 1 := cur[w]]
    requires forall j :: 0 <= j < |o| ==> cur[j] == o[SlideSrc(j, k, w)]
    ensures forall j :: 0 <= j < |o| ==> next[j] == o[SlideSrc(j, k, w + 1)]
  {
  }

  lemma SlideEnd(o: seq<nat>, cur: seq<nat>, last: seq<nat>, k: nat)
    requires k < |o| == |cur| && last == cur[|o| - 1 := o[k]]
    requires forall j :: 0 <= j < |o| ==> cur[j] == o[SlideSrc(j, k, |o|)]
    ensures last == o[..k] + o[k + 1..] + [o[k]]
  {
    MoveToEndAt(o, k);
    var r := o[..k] + o[k + 1..] + [o[k]];
    forall j | 0 <= j < |o| ensures last[j] == r[j] {
      assert r[j] == o[Src(j, k, |o|)];
    }
  }

  /** Touching the most recently used way leaves the order as it is. */
  lemma TouchLast(o: seq<nat>, n: nat)
    requires IsPerm(o, n) && n > 0
    ensures Touched(o, o[n - 1]) == o
  {
    RemoveAt(o, n - 1);
    assert o[..n - 1] + o[n..] + [o[n - 1]] == o;
  }

  /** Number of stamps in st below x. */
  function CountLess(st: seq<nat>, x: nat): (c: nat)
    ensures c <= |st|
  {
    if st == [] then 0 else (if st[0] < x then 1 else 0) + CountLess(st[1..], x)
  }

  lemma {:induction false} CountLessMono(st: seq<nat>, x: nat, y: nat)
    requires x <= y
    ensures CountLess(st, x) <= CountLess(st, y)
  {
    if st != [] {
      CountLessMono(st[1..], x, y);
    }
  }

  /** A stamp is counted below every larger stamp but not below itself. */
  lemma {:induction false} CountLessStrict(st: seq<nat>, a: nat, y: nat)
    requires a < |st| && st[a] < y
    ensures CountLess(st, st[a]) < CountLess(st, y)
  {
    if a == 0 {
      CountLessMono(st[1..], st[0], y);
    } else {
      CountLessStrict(st[1..], a - 1, y);
    }
  }

  /** A stamp has fewer than |st| stamps below it. */
  lemma {:induction false} CountLessBelowSize(st: seq<nat>, a: nat)
    requires a < |st|
    ensures CountLess(st, st[a]) < |st|
  {
    if a > 0 {
      CountLessBelowSize(st[1..], a - 1);
    }
  }

  /** The largest of distinct stamps has all the others below it. */
  lemma {:induction false} CountLessOfMax(st: seq<nat>, a: nat)
    requires a < |st| && forall j :: 0 <= j < |st| && j != a ==> st[j] < st[a]
    ensures CountLess(st, st[a]) == |st| - 1
  {
    if a == 0 {
      CountLessAll(st[1..], st[0]);
    } else {
      CountLessOfMax(st[1..], a - 1);
    }
  }

  lemma {:induction false} CountLessAll(st: seq<nat>, x: nat)
    requires forall j :: 0 <= j < |st| ==> st[j] < x
    ensures CountLess(st, x) == |st|
  {
    if st != [] {
      CountLessAll(st[1..], x);
    }
  }

  /** The largest value of the u8 time stamp counter. */
  const CounterMax := 255

  /** size_t's largest value, which m_way_num - 1 gives for an empty set. */
  const SizeMax := 0xFFFF_FFFF_FFFF_FFFF

  /** One set of lru_time: stamps strictly increase along the recency order,
      every stamp is below the tick, and the MRU way ends the order. */
  ghost predicate TimeSetValid(st: seq<nat>, tick: nat, mru: nat, o: seq<nat>, n: nat)
  {
    IsPerm(o, n) && |st| == n && 0 < n < CounterMax && tick <= CounterMax &&
    (forall k, m :: 0 <= k < m < n ==> st[o[k]] < st[o[m]]) &&
    (forall w :: 0 <= w < n ==> st[w] < tick) &&
    mru == o[n - 1]
  }

  /** Every set of lru_time is valid. */
  ghost predicate TimeSetsValid(stamps: seq<seq<nat>>, ticks: seq<nat>, mrus: seq<nat>, orders: seq<seq<nat>>, n: nat)
  {
    |ticks| == |stamps| && |mrus| == |stamps| && |orders| == |stamps| &&
    forall i :: 0 <= i < |stamps| ==> TimeSetValid(stamps[i], ticks[i], mrus[i], orders[i], n)
  }

  /** Replacing one set by a valid one keeps every set valid. */
  lemma TimeSetsUpdate(stamps: seq<seq<nat>>, ticks: seq<nat>, mrus: seq<nat>, orders: seq<seq<nat>>, n: nat,
                       index: nat, st: seq<nat>, tick: nat, mru: nat, o: seq<nat>)
    requires TimeSetsValid(stamps, ticks, mrus, orders, n) && index < |stamps|
    requires TimeSetValid(st, tick, mru, o, n)
    ensures TimeSetsValid(stamps[index := st], ticks[index := tick], mrus[index := mru], orders[index := o], n)
  {
  }

  /** A freshly reset set (way w stamped w, the tick at the way count, the
      last way most recently used) is valid below 255 ways. */
  lemma ResetSetValid(st: seq<nat>, ways: nat)
    requires 0 < ways < CounterMax && |st| == ways
    requires forall w :: 0 <= w < ways ==> st[w] == w % (CounterMax + 1)
    ensures TimeSetValid(st, ways, ways - 1, Iota(ways), ways)
  {
    IotaPerm(ways);
  }

  /** Two ways with equal stamps are the same way. */
  lemma StampsDistinct(st: seq<nat>, tick: nat, mru: nat, o: seq<nat>, n: nat, a: nat, b: nat)
    requires TimeSetValid(st, tick, mru, o, n) && a < n && b < n && a != b
    ensures st[a] != st[b]
  {
    assert a in o && b in o;
    var pa :| 0 <= pa < n && o[pa] == a;
    var pb :| 0 <= pb < n && o[pb] == b;
    if pa < pb { } else { assert pb < pa; }
  }

  /** lru_time: per set, a u8 time stamp for each way, the tick and the MRU
      way. The recency order is ghost; the stamps realise it. */
  class LruTime {
    var wayNum: nat
    var stamps: seq<seq<nat>>
    var ticks: seq<nat>
    var mrus: seq<nat>
    ghost var orders: seq<seq<nat>>

    ghost predicate Valid()
      reads this
    {
      TimeSetsValid(stamps, ticks, mrus, orders, wayNum)
    }

    /** construct: every set reset, way w stamped w, the tick at way_num
        and the last way most recently used; stamps and tick are u8, so they
        wrap from 256 ways on, and the MRU index of an empty set is size_t's
        -1. Below 255 ways (and above 0) the sets are valid. */
    constructor (sets: nat, ways: nat)
      ensures wayNum == ways && |stamps| == sets && |ticks| == sets && |mrus| == sets
      ensures forall i :: 0 <= i < sets ==>
        |stamps[i]| == ways && (forall w :: 0 <= w < ways ==> stamps[i][w] == w % (CounterMax + 1)) &&
        ticks[i] == ways % (CounterMax + 1) && mrus[i] == (if ways == 0 then SizeMax else ways - 1)
      ensures 0 < ways < CounterMax ==> Valid() && forall i :: 0 <= i < sets ==> orders[i] == Iota(ways)
    {
      wayNum := ways;
      var st := ResetStamps(ways);
      stamps := seq(sets, _ => st);
      ticks := seq(sets, _ => ways % (CounterMax + 1));
      mrus := seq(sets, _ => if ways == 0 then SizeMax else ways - 1);
      orders := seq(sets, _ => Iota(ways));
      new;
      if 0 < ways < CounterMax {
        ResetSetValid(st, ways);
        assert forall i :: 0 <= i < sets ==>
          stamps[i] == st && ticks[i] == ways && mrus[i] == ways - 1 && orders[i] == Iota(ways);
      }
    }

    /** reset: stamp w for way w, as a u8. */
    static method ResetStamps(ways: nat) returns (st: seq<nat>)
      ensures |st| == ways && forall w :: 0 <= w < ways ==> st[w] == w % (CounterMax + 1)
    {
      st := [];
      var w := 0;
      while w < ways
        invariant 0 <= w <= ways && |st| == w
        invariant forall j :: 0 <= j < w ==> st[j] == j % (CounterMax + 1)
      {
        st := st + [w % (CounterMax + 1)];
        w := w + 1;
      }
    }

    /** target: the way with the smallest stamp, the earliest on ties; it is
        the least recently used way. */
    method Target(index: nat) returns (t: nat)
      requires Valid() && index < |stamps|
      ensures t < wayNum && t == orders[index][0]
      ensures forall j :: 0 <= j < wayNum ==> stamps[index][t] <= stamps[index][j]
    {
      var st := stamps[index];
      ghost var o := orders[index];
      t := 0;
      var min := st[0];
      var j := 1;
      while j < wayNum
        invariant 1 <= j <= wayNum && t < j && min == st[t]
        invariant forall m :: 0 <= m < j ==> min <= st[m]
      {
        if st[j] < min {
          t := j;
          min := st[j];
        }
        j := j + 1;
      }
      assert t in o;
      ghost var p :| 0 <= p < wayNum && o[p] == t;
      assert st[t] <= st[o[0]];
      assert p == 0;
    }

    /** rewind: stamps replaced by their ranks 0..way_num-1, keeping their
        order; the tick restarts at way_num. */
    static method Rewind(st: seq<nat>, ghost tick: nat, ghost mru: nat, ghost o: seq<nat>, n: nat)
      returns (st2: seq<nat>)
      requires TimeSetValid(st, tick, mru, o, n)
      ensures TimeSetValid(st2, n, mru, o, n)
      ensures st2[mru] == n - 1
    {
      st2 := [];
      var i := 0;
      while i < n
        invariant 0 <= i <= n && |st2| == i
        invariant forall j :: 0 <= j < i ==> st2[j] == CountLess(st, st[j])
      {
        var c := 0;
        var j := 0;
        while j < n
          invariant 0 <= j <= n && c == CountLess(st[..j], st[i])
        {
          assert st[..j + 1] == st[..j] + [st[j]];
          CountLessSnoc(st[..j], st[j], st[i]);
          if st[j] < st[i] {
            c := c + 1;
          }
          j := j + 1;
        }
        assert st[..n] == st;
        st2 := st2 + [c];
        i := i + 1;
      }
      forall k, m | 0 <= k < m < n ensures st2[o[k]] < st2[o[m]] {
        CountLessStrict(st, o[k], st[o[m]]);
      }
      forall w | 0 <= w < n ensures st2[w] < n {
        CountLessBelowSize(st, w);
      }
      forall j | 0 <= j < n && j != mru ensures st[j] < st[mru] {
        assert j in o;
        var p :| 0 <= p < n && o[p] == j;
      }
      CountLessOfMax(st, mru);
    }

    /** set::touch on one set: touching the MRU way does nothing; otherwise,
        after a rewind when the tick is at its maximum, the way takes the tick
        as its stamp and becomes MRU. */
    static method TouchSet(st: seq<nat>, tick: nat, mru: nat, ghost o: seq<nat>, n: nat, way: nat)
      returns (st2: seq<nat>, tick2: nat, mru2: nat)
      requires TimeSetValid(st, tick, mru, o, n) && way < n
      ensures TimeSetValid(st2, tick2, mru2, Touched(o, way), n)
      ensures way == mru ==> st2 == st && tick2 == tick && mru2 == mru
    {
      if way == mru {
        TouchLast(o, n);
        return st, tick, mru;
      }
      st2, tick2 := st, tick;
      if tick2 == CounterMax {
        st2 := Rewind(st2, tick2, mru, o, n);
        tick2 := n;
      }
      TouchedStamps(st2, tick2, mru, o, n, way);
      st2 := st2[way := tick2];
      tick2 := tick2 + 1;
      mru2 := way;
    }

    /** touch(index, way): out_of_range for a way past the set, otherwise
        set::touch on set `index`. */
    method Touch(index: nat, way: nat) returns (ok: bool)
      requires Valid() && index < |stamps|
      modifies this
      ensures Valid() && wayNum == old(wayNum) && |stamps| == old(|stamps|)
      ensures ok <==> way < wayNum
      ensures ok ==> orders == old(orders)[index := Touched(old(orders[index]), way)]
      ensures !ok ==> orders == old(orders) && stamps == old(stamps)
      ensures forall i :: 0 <= i < |stamps| && i != index ==> stamps[i] == old(stamps[i])
    {
      if wayNum <= way {
        return false;
      }
      var st, tick, mru := TouchSet(stamps[index], ticks[index], mrus[index], orders[index], wayNum, way);
      ghost var o := Touched(orders[index], way);
      TimeSetsUpdate(stamps, ticks, mrus, orders, wayNum, index, st, tick, mru, o);
      stamps, ticks, mrus := stamps[index := st], ticks[index := tick], mrus[index := mru];
      orders := orders[index := o];
      return true;
    }
  }

  lemma {:induction false} CountLessSnoc(st: seq<nat>, y: nat, x: nat)
    ensures CountLess(st + [y], x) == CountLess(st, x) + if y < x then 1 else 0
  {
    if st != [] {
      assert (st + [y])[1..] == st[1..] + [y];
      CountLessSnoc(st[1..], y, x);
    }
  }

  /** Moving o[p] to the end and stamping it above every other stamp keeps
      the stamps increasing along the order. */
  lemma MovedIncreasing(st: seq<nat>, o: seq<nat>, n: nat, p: nat, tick: nat)
    requires IsPerm(o, n) && p < n && |st| == n
    requires forall k, m :: 0 <= k < m < n ==> st[o[k]] < st[o[m]]
    requires forall w :: 0 <= w < n ==> st[w] < tick
    ensures var r, st2 := o[..p] + o[p + 1..] + [o[p]], st[o[p] := tick];
      forall k, m :: 0 <= k < m < n ==> st2[r[k]] < st2[r[m]]
  {
    var r, st2 := o[..p] + o[p + 1..] + [o[p]], st[o[p] := tick];
    MoveToEndAt(o, p);
    forall k, m | 0 <= k < m < n ensures st2[r[k]] < st2[r[m]] {
      var sk, sm := Src(k, p, n), Src(m, p, n);
      assert r[k] == o[sk] && r[m] == o[sm];
      assert sk != p ==> o[sk] != o[p];
      if m < n - 1 {
        assert sk < sm && sm != p;
      }
    }
  }

  /** Stamping the touched way with the tick keeps the stamps increasing
      along the touched order. */
  lemma TouchedStamps(st: seq<nat>, tick: nat, mru: nat, o: seq<nat>, n: nat, w: nat)
    requires TimeSetValid(st, tick, mru, o, n) && w < n && w != mru && tick < CounterMax
    ensures TimeSetValid(st[w := tick], tick + 1, w, Touched(o, w), n)
  {
    assert w in o;
    var p :| 0 <= p < n && o[p] == w;
    var r, st2 := o[..p] + o[p + 1..] + [o[p]], st[w := tick];
    RemoveAt(o, p);
    assert Touched(o, w) == r;
    TouchedPerm(o, n, w);
    MovedIncreasing(st, o, n, p, tick);
    BelowTickStep(st, tick, w, st2);
    TimeSetIntro(st2, tick + 1, w, r, n);
  }

  /** Stamping one way with the tick keeps every stamp below the next tick. */
  lemma BelowTickStep(st: seq<nat>, tick: nat, w: nat, st2: seq<nat>)
    requires w < |st| && st2 == st[w := tick] && forall v :: 0 <= v < |st| ==> st[v] < tick
    ensures forall v :: 0 <= v < |st2| ==> st2[v] < tick + 1
  {
  }

  lemma TimeSetIntro(st: seq<nat>, tick: nat, mru: nat, o: seq<nat>, n: nat)
    requires IsPerm(o, n) && |st| == n && 0 < n < CounterMax && tick <= CounterMax
    requires forall k, m :: 0 <= k < m < n ==> st[o[k]] < st[o[m]]
    requires forall w :: 0 <= w < n ==> st[w] < tick
    requires mru == o[n - 1]
    ensures TimeSetValid(st, tick, mru, o, n)
  {
  }

  /** The entries of l, in order, form a cycle through next and prev. */
  ghost predicate Linked(nx: seq<nat>, pv: seq<nat>, l: seq<nat>)
  {
    |l| > 0 && (forall k :: 0 <= k < |l| ==> l[k] < |nx| && l[k] < |pv|) &&
    (forall k :: 0 <= k < |l| - 1 ==> nx[l[k]] == l[k + 1] && pv[l[k + 1]] == l[k]) &&
    nx[l[|l| - 1]] == l[0] && pv[l[0]] == l[|l| - 1]
  }

  /** One set of lru_list: the ways in recency order followed by the footer
      (entry n) form a cycle; next and prev follow it in both directions. */
  ghost predicate ListSetValid(nx: seq<nat>, pv: seq<nat>, o: seq<nat>, n: nat)
  {
    IsPerm(o, n) && |nx| == n + 1 && |pv| == n + 1 && Linked(nx, pv, o + [n])
  }

  /** The entry at position k of a cycle after moving position p just before
      the last position. */
  lemma MovedAt(l: seq<nat>, p: nat, k: nat)
    requires p + 2 < |l| && k < |l|
    ensures var l2 := l[..p] + l[p + 1..|l| - 1] + [l[p], l[|l| - 1]];
      |l2| == |l| &&
      l2[k] == (if k < p then l[k] else if k < |l| - 2 then l[k + 1] else if k == |l| - 2 then l[p] else l[k])
  {
  }

  /** One link of the moved cycle. */
  lemma MoveInnerStep(nx: seq<nat>, pv: seq<nat>, l: seq<nat>, p: nat, a: nat, b: nat, t: nat, k: nat)
    requires Linked(nx, pv, l) && Distinct(l) && p + 2 < |l| && k < |l| - 1
    requires a == l[if p == 0 then |l| - 1 else p - 1] && b == l[p + 1] && t == l[|l| - 2]
    ensures var w, f := l[p], l[|l| - 1];
      var l2 := l[..p] + l[p + 1..|l| - 1] + [w, f];
      nx[a := b][w := f][t := w][l2[k]] == l2[k + 1] &&
      pv[b := a][w := t][f := w][l2[k + 1]] == l2[k]
  {
    var m := |l| - 1;
    MovedAt(l, p, k);
    MovedAt(l, p, k + 1);
    if k < p - 1 {
      assert l[k] != l[p - 1] && l[k] != l[p] && l[k] != l[m - 1];
      assert l[k + 1] != l[p + 1] && l[k + 1] != l[p] && l[k + 1] != l[m];
    } else if k == p - 1 {
      assert l[k] != l[p] && l[k] != l[m - 1];
      assert l[p + 1] != l[p] && l[p + 1] != l[m];
    } else if k < m - 2 {
      assert l[k + 1] != l[m] && l[k + 1] != l[p] && l[k + 1] != l[m - 1];
      assert l[k + 1] != a;
      assert l[k + 2] != l[p + 1] && l[k + 2] != l[p] && l[k + 2] != l[m];
    } else if k == m - 2 {
      assert l[p] != l[m];
    } else {
      assert l[p] != l[m - 1];
    }
  }

  /** The link from the last entry back to the first in the moved cycle. */
  lemma MoveInnerWrap(nx: seq<nat>, pv: seq<nat>, l: seq<nat>, p: nat, a: nat, b: nat, t: nat)
    requires Linked(nx, pv, l) && Distinct(l) && p + 2 < |l|
    requires a == l[if p == 0 then |l| - 1 else p - 1] && b == l[p + 1] && t == l[|l| - 2]
    ensures var w, f := l[p], l[|l| - 1];
      var l2 := l[..p] + l[p + 1..|l| - 1] + [w, f];
      nx[a := b][w := f][t := w][f] == l2[0] && pv[b := a][w := t][f := w][l2[0]] == f
  {
    var m := |l| - 1;
    var w, f := l[p], l[m];
    MovedAt(l, p, 0);
    if p == 0 {
      assert f != w && f != t && b != w && b != f;
    } else {
      assert l[0] != w && l[0] != b && l[0] != f;
      assert f != a && f != w && f != t;
    }
  }

  /** Unlinking the entry w at position p of a cycle (between a and b) and
      relinking it between t and the last entry f, where p is not next to f,
      gives the cycle with w moved just before f. */
  lemma LinkedMoveInner(nx: seq<nat>, pv: seq<nat>, l: seq<nat>, p: nat, a: nat, b: nat, t: nat)
    requires Linked(nx, pv, l) && Distinct(l) && p + 2 < |l|
    requires a == l[if p == 0 then |l| - 1 else p - 1] && b == l[p + 1] && t == l[|l| - 2]
    ensures var w, f := l[p], l[|l| - 1];
      Linked(nx[a := b][w := f][t := w], pv[b := a][w := t][f := w],
             l[..p] + l[p + 1..|l| - 1] + [w, f])
  {
    var w, f := l[p], l[|l| - 1];
    MoveInnerLinks(nx, pv, l, p, a, b, t);
    MoveInnerBounds(nx[a := b][w := f][t := w], pv[b := a][w := t][f := w], l, p);
    MoveInnerWrap(nx, pv, l, p, a, b, t);
    LinkedIntro(nx[a := b][w := f][t := w], pv[b := a][w := t][f := w], l[..p] + l[p + 1..|l| - 1] + [w, f]);
  }

  lemma MoveInnerLinks(nx: seq<nat>, pv: seq<nat>, l: seq<nat>, p: nat, a: nat, b: nat, t: nat)
    requires Linked(nx, pv, l) && Distinct(l) && p + 2 < |l|
    requires a == l[if p == 0 then |l| - 1 else p - 1] && b == l[p + 1] && t == l[|l| - 2]
    ensures var w, f := l[p], l[|l| - 1];
      var l2 := l[..p] + l[p + 1..|l| - 1] + [w, f];
      forall k :: 0 <= k < |l2| - 1 ==>
        nx[a := b][w := f][t := w][l2[k]] == l2[k + 1] && pv[b := a][w := t][f := w][l2[k + 1]] == l2[k]
  {
    var l2 := l[..p] + l[p + 1..|l| - 1] + [l[p], l[|l| - 1]];
    forall k | 0 <= k < |l2| - 1
      ensures nx[a := b][l[p] := l[|l| - 1]][t := l[p]][l2[k]] == l2[k + 1] &&
        pv[b := a][l[p] := t][l[|l| - 1] := l[p]][l2[k + 1]] == l2[k]
    {
      MoveInnerStep(nx, pv, l, p, a, b, t, k);
    }
  }

  lemma MoveInnerBounds(nx: seq<nat>, pv: seq<nat>, l: seq<nat>, p: nat)
    requires p + 2 < |l| && forall k :: 0 <= k < |l| ==> l[k] < |nx| && l[k] < |pv|
    ensures var l2 := l[..p] + l[p + 1..|l| - 1] + [l[p], l[|l| - 1]];
      forall k :: 0 <= k < |l2| ==> l2[k] < |nx| && l2[k] < |pv|
  {
    var l2 := l[..p] + l[p + 1..|l| - 1] + [l[p], l[|l| - 1]];
    forall k | 0 <= k < |l2| ensures l2[k] < |nx| && l2[k] < |pv| {
      MovedAt(l, p, k);
    }
  }

  lemma LinkedIntro(nx: seq<nat>, pv: seq<nat>, l: seq<nat>)
    requires |l| > 0 && forall k :: 0 <= k < |l| ==> l[k] < |nx| && l[k] < |pv|
    requires forall k :: 0 <= k < |l| - 1 ==> nx[l[k]] == l[k + 1] && pv[l[k + 1]] == l[k]
    requires nx[l[|l| - 1]] == l[0] && pv[l[0]] == l[|l| - 1]
    ensures Linked(nx, pv, l)
  {
  }

  /** Unlinking the entry just before the last one f (between a and f) and
      relinking it between a and f leaves the pointers as they were. */
  lemma LinkedMoveLast(nx: seq<nat>, pv: seq<nat>, l: seq<nat>, a: nat)
    requires Linked(nx, pv, l) && Distinct(l) && 2 <= |l|
    requires a == l[if |l| == 2 then 1 else |l| - 3]
    ensures var w, f := l[|l| - 2], l[|l| - 1];
      nx[a := f][w := f][a := w] == nx && pv[f := a][w := a][f := w] == pv
  {
    var w, f := l[|l| - 2], l[|l| - 1];
    assert nx[w] == f && nx[a] == w && pv[f] == w && pv[w] == a;
  }

  /** The pointers are in range for unlinking w and relinking it before f. */
  predicate CanRelink(nx: seq<nat>, pv: seq<nat>, w: nat, f: nat)
  {
    |nx| == |pv| && w < |nx| && f < |nx| && pv[w] < |nx| && nx[w] < |nx| &&
    pv[nx[w] := pv[w]][f] < |nx|
  }

  /** lru_list's erase of w followed by its insert of w before f, on one
      set's next and prev pointers. */
  function Relink(nx: seq<nat>, pv: seq<nat>, w: nat, f: nat): (r: (seq<nat>, seq<nat>))
    requires CanRelink(nx, pv, w, f)
    ensures |r.0| == |nx| && |r.1| == |pv|
  {
    var a, b := pv[w], nx[w];
    var nx1, pv1 := nx[a := b], pv[b := a];
    var t := pv1[f];
    (nx1[w := f][t := w], pv1[w := t][f := w])
  }

  /** erase of the entry at position p followed by insert before the last
      entry moves it just before that entry. */
  lemma LinkedMove(nx: seq<nat>, pv: seq<nat>, l: seq<nat>, p: nat)
    requires Linked(nx, pv, l) && Distinct(l) && p + 1 < |l| && |nx| == |pv|
    ensures var w, f := l[p], l[|l| - 1];
      CanRelink(nx, pv, w, f) &&
      Linked(Relink(nx, pv, w, f).0, Relink(nx, pv, w, f).1, l[..p] + l[p + 1..|l| - 1] + [w, f])
  {
    var m := |l| - 1;
    var w, f := l[p], l[m];
    var a, b := pv[w], nx[w];
    if p == 0 {
      assert a == l[m];
    } else {
      assert pv[l[p]] == l[p - 1];
    }
    assert b == l[p + 1];
    var t := pv[b := a][f];
    if p == m - 1 {
      assert b == f && t == a;
      LinkedMoveLast(nx, pv, l, a);
      assert l[..p] + l[p + 1..|l| - 1] + [w, f] == l;
    } else {
      assert b != f;
      assert pv[l[m]] == l[m - 1];
      LinkedMoveInner(nx, pv, l, p, a, b, t);
    }
  }

  /** erase followed by insert before the footer moves the way to the MRU
      end of the cycle. */
  lemma ListTouchValid(nx: seq<nat>, pv: seq<nat>, o: seq<nat>, n: nat, w: nat)
    requires ListSetValid(nx, pv, o, n) && w < n
    ensures CanRelink(nx, pv, w, n)
    ensures ListSetValid(Relink(nx, pv, w, n).0, Relink(nx, pv, w, n).1, Touched(o, w), n)
  {
    var l := o + [n];
    assert w in o;
    var p :| 0 <= p < n && o[p] == w;
    FooterDistinct(o, n);
    TouchedFooter(o, n, p);
    assert l[p] == w && l[|l| - 1] == n;
    LinkedMove(nx, pv, l, p);
    TouchedPerm(o, n, w);
  }

  lemma ListSetIntro(nx: seq<nat>, pv: seq<nat>, o: seq<nat>, n: nat)
    requires IsPerm(o, n) && |nx| == n + 1 && |pv| == n + 1 && Linked(nx, pv, o + [n])
    ensures ListSetValid(nx, pv, o, n)
  {
  }

  lemma FooterDistinct(o: seq<nat>, n: nat)
    requires IsPerm(o, n)
    ensures Distinct(o + [n])
  {
  }

  lemma TouchedFooter(o: seq<nat>, n: nat, p: nat)
    requires IsPerm(o, n) && p < n
    ensures var l := o + [n];
      l[p] == o[p] && l[n] == n && Touched(o, o[p]) + [n] == l[..p] + l[p + 1..n] + [l[p], l[n]]
  {
    var l := o + [n];
    RemoveAt(o, p);
    assert l[..p] == o[..p] && l[p + 1..n] == o[p + 1..];
  }

  /** The pointers reset_set leaves form the cycle 0, 1, ..., n - 1, footer. */
  lemma ResetShape(nx: seq<nat>, pv: seq<nat>, n: nat)
    requires |nx| == n + 1 && |pv| == n + 1
    requires forall j :: 0 <= j < n ==> nx[j] == j + 1
    requires forall j :: 0 < j <= n ==> pv[j] == j - 1
    requires nx[n] == 0 && pv[0] == n
    ensures ListSetValid(nx, pv, Iota(n), n)
  {
    IotaPerm(n);
    var l := Iota(n) + [n];
    assert forall k :: 0 <= k <= n ==> l[k] == k;
  }

  /** The largest value of the u8 list pointer. */
  const PointerMax := 255

  /** lru_list: per set, way_num + 1 entries (the ways and a footer) whose
      prev/next pointers link the ways from LRU to MRU in a cycle through the
      footer. The source's flat array, cut at the pitch way_num + 1, is held
      as one sequence of each pointer per set. */
  class LruList {
    var wayNum: nat
    var setNum: nat
    var pitch: nat
    var next: seq<seq<nat>>
    var prev: seq<seq<nat>>
    ghost var orders: seq<seq<nat>>

    ghost predicate Valid()
      reads this
    {
      |next| == setNum && |prev| == setNum && |orders| == setNum && pitch == wayNum + 1 &&
      forall i :: 0 <= i < setNum ==> ListSetValid(next[i], prev[i], orders[i], wayNum)
    }

    constructor ()
      ensures Valid() && wayNum == 0 && setNum == 0
    {
      wayNum, setNum, pitch := 0, 0, 1;
      next, prev, orders := [], [], [];
    }

    /** reset_set: entry i points back to i - 1 and on to i + 1 (as u8),
        then the first entry's prev and the footer's next close the cycle. */
    static method ResetSet(ways: nat) returns (nx: seq<nat>, pv: seq<nat>)
      requires ways + 1 < PointerMax
      ensures ListSetValid(nx, pv, Iota(ways), ways)
    {
      nx, pv := [], [];
      var i := 0;
      while i < ways + 1
        invariant 0 <= i <= ways + 1 && |nx| == i && |pv| == i
        invariant forall j :: 0 <= j < i ==> nx[j] == j + 1 && pv[j] == (j + 255) % 256
      {
        pv := pv + [(i + 255) % 256];
        nx := nx + [(i + 1) % 256];
        i := i + 1;
      }
      pv := pv[0 := ways];
      nx := nx[ways := 0];
      ResetShape(nx, pv, ways);
    }

    /** construct: the pitch way_num + 1 must be below the link type's
        maximum (255); the sizes are recorded before that check. */
    method Construct(sets: nat, ways: nat) returns (ok: bool)
      modifies this
      ensures ok <==> ways + 1 < PointerMax
      ensures setNum == sets && wayNum == ways && pitch == ways + 1
      ensures !ok ==> next == old(next) && prev == old(prev)
      ensures ok ==> Valid() && forall i :: 0 <= i < sets ==> orders[i] == Iota(ways)
    {
      wayNum, setNum, pitch := ways, sets, ways + 1;
      if PointerMax <= pitch {
        return false;
      }
      var nx, pv := ResetSet(ways);
      next, prev := seq(sets, _ => nx), seq(sets, _ => pv);
      orders := seq(sets, _ => Iota(ways));
      return true;
    }

    /** target: the footer's next, the least recently used way. */
    function Target(index: nat): (w: nat)
      reads this
      requires Valid() && index < setNum
      ensures wayNum > 0 ==> w < wayNum && w == orders[index][0]
      ensures wayNum == 0 ==> w == wayNum
    {
      next[index][wayNum]
    }

    /** touch: erase the way from the list, then insert it before the footer. */
    method Touch(index: nat, way: nat)
      requires Valid() && index < setNum && way < wayNum
      modifies this
      ensures Valid() && setNum == old(setNum) && wayNum == old(wayNum)
      ensures orders == old(orders)[index := Touched(old(orders[index]), way)]
    {
      var nx, pv := next[index], prev[index];
      var footer := wayNum;
      ListTouchValid(nx, pv, orders[index], wayNum, way);
      ghost var relinked := Relink(nx, pv, way, footer);
      // erase
      var a, b := pv[way], nx[way];
      nx := nx[a := b];
      pv := pv[b := a];
      // insert before the footer
      var t := pv[footer];
      pv := pv[way := t];
      nx := nx[way := footer];
      nx := nx[t := way];
      pv := pv[footer := way];
      assert (nx, pv) == relinked;
      next, prev := next[index := nx], prev[index := pv];
      orders := orders[index := Touched(orders[index], way)];
    }
  }
}
