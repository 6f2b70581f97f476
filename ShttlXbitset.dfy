/** xbitset<N>: shttl_bitset<N> extended with searches, whole-value
    tests and counter operations. The bits are held least significant first,
    as in ShttlBitset. */
module ShttlXbitset {
  import opened Arith
  import opened ShttlBitset

  /** size_type(-1): no position found. */
  const Npos := -1

  /** The first position p >= s whose bit equals x, or Npos. */
  function FirstFrom(b: seq<bool>, x: bool, s: nat): (r: int)
    decreases |b| - s
    ensures r == Npos || s <= r < |b|
    ensures r != Npos ==> b[r] == x && forall j :: s <= j < r ==> b[j] != x
    ensures r == Npos ==> forall j :: s <= j < |b| ==> b[j] != x
  {
    if s >= |b| then Npos
    else if b[s] == x then s
    else FirstFrom(b, x, s + 1)
  }

  /** The precomputed find(0) answers for N <= 4, indexed by the value; the
      entry for N = 0 is the generic table's first entry. */
  const Find0Map1: seq<int> := [0, -1]
  const Find0Map2: seq<int> := [0, 1, 0, -1]
  const Find0Map3: seq<int> := [0, 1, 0, 2, 0, 1, 0, -1]
  const Find0Map4: seq<int> := [0, 1, 0, 2, 0, 1, 0, 3, 0, 1, 0, 2, 0, 1, 0, -1]

  function Find0Map(n: nat, v: nat): int
    requires n <= 4 && v < Pow2(n)
  {
    if n == 0 then -1
    else if n == 1 then Find0Map1[v]
    else if n == 2 then Find0Map2[v]
    else if n == 3 then Find0Map3[v]
    else Find0Map4[v]
  }

  /** Each table entry is the lowest clear bit of its index, or Npos when
      every bit is set. */
  lemma Find0MapCorrect(n: nat, v: nat)
    requires n <= 4 && v < Pow2(n)
    ensures Find0Map(n, v) == FirstFrom(ToBits(v, n), false, 0)
  {
    if n == 0 {
    } else if n == 1 {
      if v == 0 { } else { }
    } else if n == 2 {
      if v == 0 { } else if v == 1 { } else if v == 2 { } else { }
    } else if n == 3 {
      Find0MapRow3(v);
    } else {
      Find0MapRow4(v);
    }
  }

  lemma Find0MapRow3(v: nat)
    requires v < 8
    ensures Find0Map3[v] == FirstFrom(ToBits(v, 3), false, 0)
  {
    if v == 0 {
      assert ToBits(0, 3) == [false, false, false];
      assert FirstFrom([false, false, false], false, 0) == 0;
    } else if v == 1 {
      assert ToBits(1, 3) == [true, false, false];
      assert FirstFrom([true, false, false], false, 1) == 1;
      assert FirstFrom([true, false, false], false, 0) == 1;
    } else if v == 2 {
      assert ToBits(2, 3) == [false, true, false];
      assert FirstFrom([false, true, false], false, 0) == 0;
    } else if v == 3 {
      assert ToBits(3, 3) == [true, true, false];
      assert FirstFrom([true, true, false], false, 2) == 2;
      assert FirstFrom([true, true, false], false, 1) == 2;
      assert FirstFrom([true, true, false], false, 0) == 2;
    } else if v == 4 {
      assert ToBits(4, 3) == [false, false, true];
      assert FirstFrom([false, false, true], false, 0) == 0;
    } else if v == 5 {
      assert ToBits(5, 3) == [true, false, true];
      assert FirstFrom([true, false, true], false, 1) == 1;
      assert FirstFrom([true, false, true], false, 0) == 1;
    } else if v == 6 {
      assert ToBits(6, 3) == [false, true, true];
      assert FirstFrom([false, true, true], false, 0) == 0;
    } else {
      assert ToBits(7, 3) == [true, true, true];
      assert FirstFrom([true, true, true], false, 3) == -1;
      assert FirstFrom([true, true, true], false, 2) == -1;
      assert FirstFrom([true, true, true], false, 1) == -1;
      assert FirstFrom([true, true, true], false, 0) == -1;
    }
  }

  lemma Find0MapRow4(v: nat)
    requires v < 16
    ensures Find0Map4[v] == FirstFrom(ToBits(v, 4), false, 0)
  {
    if v < 4 {
      Find0MapRow4From0(v);
    } else if v < 8 {
      Find0MapRow4From4(v);
    } else if v < 12 {
      Find0MapRow4From8(v);
    } else {
      Find0MapRow4From12(v);
    }
  }

  lemma Find0MapRow4From0(v: nat)
    requires 0 <= v < 4
    ensures Find0Map4[v] == FirstFrom(ToBits(v, 4), false, 0)
  {
    if v == 0 {
      assert ToBits(0, 4) == [false, false, false, false];
      assert FirstFrom([false, false, false, false], false, 0) == 0;
    } else if v == 1 {
      assert ToBits(1, 4) == [true, false, false, false];
      assert FirstFrom([true, false, false, false], false, 1) == 1;
      assert FirstFrom([true, false, false, false], false, 0) == 1;
    } else if v == 2 {
      assert ToBits(2, 4) == [false, true, false, false];
      assert FirstFrom([false, true, false, false], false, 0) == 0;
    } else {
      assert ToBits(3, 4) == [true, true, false, false];
      assert FirstFrom([true, true, false, false], false, 2) == 2;
      assert FirstFrom([true, true, false, false], false, 1) == 2;
      assert FirstFrom([true, true, false, false], false, 0) == 2;
    }
  }

  lemma Find0MapRow4From4(v: nat)
    requires 4 <= v < 8
    ensures Find0Map4[v] == FirstFrom(ToBits(v, 4), false, 0)
  {
    if v == 4 {
      assert ToBits(4, 4) == [false, false, true, false];
      assert FirstFrom([false, false, true, false], false, 0) == 0;
    } else if v == 5 {
      assert ToBits(5, 4) == [true, false, true, false];
      assert FirstFrom([true, false, true, false], false, 1) == 1;
      assert FirstFrom([true, false, true, false], false, 0) == 1;
    } else if v == 6 {
      assert ToBits(6, 4) == [false, true, true, false];
      assert FirstFrom([false, true, true, false], false, 0) == 0;
    } else {
      assert ToBits(7, 4) == [true, true, true, false];
      assert FirstFrom([true, true, true, false], false, 3) == 3;
      assert FirstFrom([true, true, true, false], false, 2) == 3;
      assert FirstFrom([true, true, true, false], false, 1) == 3;
      assert FirstFrom([true, true, true, false], false, 0) == 3;
    }
  }

  lemma Find0MapRow4From8(v: nat)
    requires 8 <= v < 12
    ensures Find0Map4[v] == FirstFrom(ToBits(v, 4), false, 0)
  {
    if v == 8 {
      assert ToBits(8, 4) == [false, false, false, true];
      assert FirstFrom([false, false, false, true], false, 0) == 0;
    } else if v == 9 {
      assert ToBits(9, 4) == [true, false, false, true];
      assert FirstFrom([true, false, false, true], false, 1) == 1;
      assert FirstFrom([true, false, false, true], false, 0) == 1;
    } else if v == 10 {
      assert ToBits(10, 4) == [false, true, false, true];
      assert FirstFrom([false, true, false, true], false, 0) == 0;
    } else {
      assert ToBits(11, 4) == [true, true, false, true];
      assert FirstFrom([true, true, false, true], false, 2) == 2;
      assert FirstFrom([true, true, false, true], false, 1) == 2;
      assert FirstFrom([true, true, false, true], false, 0) == 2;
    }
  }

  lemma Find0MapRow4From12(v: nat)
    requires 12 <= v < 16
    ensures Find0Map4[v] == FirstFrom(ToBits(v, 4), false, 0)
  {
    if v == 12 {
      assert ToBits(12, 4) == [false, false, true, true];
      assert FirstFrom([false, false, true, true], false, 0) == 0;
    } else if v == 13 {
      assert ToBits(13, 4) == [true, false, true, true];
      assert FirstFrom([true, false, true, true], false, 1) == 1;
      assert FirstFrom([true, false, true, true], false, 0) == 1;
    } else if v == 14 {
      assert ToBits(14, 4) == [false, true, true, true];
      assert FirstFrom([false, true, true, true], false, 0) == 0;
    } else {
      assert ToBits(15, 4) == [true, true, true, true];
      assert FirstFrom([true, true, true, true], false, 4) == -1;
      assert FirstFrom([true, true, true, true], false, 3) == -1;
      assert FirstFrom([true, true, true, true], false, 2) == -1;
      assert FirstFrom([true, true, true, true], false, 1) == -1;
      assert FirstFrom([true, true, true, true], false, 0) == -1;
    }
  }

  class Xbitset {
    const n: nat
    var bits: seq<bool>

    ghost predicate Valid()
      reads this
    {
      |bits| == n && n <= 64
    }

    function ToUlong(): (r: nat)
      reads this
      requires Valid()
      ensures r < Pow2(n)
    {
      Value(bits)
    }

    /** xbitset(u64 v): v masked to N bits. */
    constructor (n: nat, v: nat)
      requires n <= 64
      ensures Valid() && this.n == n && ToUlong() == v % Pow2(n)
    {
      this.n := n;
      bits := ToBits(v, n);
      new;
      ValueOfToBits(v, n);
    }

    /** all(): every bit is set. */
    method All() returns (r: bool)
      requires Valid()
      ensures r <==> forall i :: 0 <= i < n ==> bits[i]
      ensures r <==> ToUlong() == Pow2(n) - 1
    {
      ComplementValue(bits);
      ValueZero(Complemented(bits));
      var p := 0;
      while p < n
        invariant 0 <= p <= n
        invariant forall i :: 0 <= i < p ==> bits[i]
      {
        if !bits[p] {
          return false;
        }
        p := p + 1;
      }
      return true;
    }

    /** none(): no bit is set, i.e. the value is 0. */
    method NoneSet() returns (r: bool)
      requires Valid()
      ensures r <==> forall i :: 0 <= i < n ==> !bits[i]
      ensures r <==> ToUlong() == 0
    {
      ValueZero(bits);
      var p := 0;
      while p < n
        invariant 0 <= p <= n
        invariant forall i :: 0 <= i < p ==> !bits[i]
      {
        if bits[p] {
          return false;
        }
        p := p + 1;
      }
      return true;
    }

    /** any(): some bit is set. */
    method AnySet() returns (r: bool)
      requires Valid()
      ensures r <==> exists i :: 0 <= i < n && bits[i]
      ensures r <==> ToUlong() != 0
    {
      ValueZero(bits);
      var p := 0;
      while p < n
        invariant 0 <= p <= n
        invariant forall i :: 0 <= i < p ==> !bits[i]
      {
        if bits[p] {
          return true;
        }
        p := p + 1;
      }
      return false;
    }

    /** any(v): some bit equals v. */
    method AnyOf(v: bool) returns (r: bool)
      requires Valid()
      ensures r <==> exists i :: 0 <= i < n && bits[i] == v
    {
      if v {
        r := AnySet();
      } else {
        var a := All();
        r := !a;
      }
    }

    /** none(v): no bit equals v. */
    method NoneOf(v: bool) returns (r: bool)
      requires Valid()
      ensures r <==> forall i :: 0 <= i < n ==> bits[i] != v
    {
      if v {
        r := NoneSet();
      } else {
        r := All();
      }
    }

    /** all(v): every bit equals v. */
    method AllOf(v: bool) returns (r: bool)
      requires Valid()
      ensures r <==> forall i :: 0 <= i < n ==> bits[i] == v
    {
      if v {
        r := All();
      } else {
        r := NoneSet();
      }
    }

    /** find(v, s): the first position p >= s whose bit equals v != 0, or
        Npos; find(0, 0) on at most four bits reads the precomputed table. */
    method Find(v: int, s: nat) returns (r: int)
      requires Valid()
      ensures r == FirstFrom(bits, v != 0, s)
    {
      if v == 0 && s == 0 && n <= 4 {
        r := Find0Map(n, ToUlong());
        Find0MapCorrect(n, ToUlong());
        ToBitsOfValue(bits);
      } else {
        var b := v != 0;
        var p := s;
        while p < n
          invariant s <= p
          invariant FirstFrom(bits, b, s) == FirstFrom(bits, b, p)
        {
          if bits[p] == b {
            return p;
          }
          p := p + 1;
        }
        r := Npos;
      }
    }

    /** find_and_flip: flips exactly the bit find(v, s) returns, if any. */
    method FindAndFlip(v: int, s: nat) returns (r: int)
      requires Valid()
      modifies this
      ensures Valid()
      ensures r == FirstFrom(old(bits), v != 0, s)
      ensures r == Npos ==> bits == old(bits)
      ensures r != Npos ==> bits == old(bits)[r := !old(bits)[r]]
    {
      r := Find(v, s);
      if r != Npos {
        bits := bits[r := !bits[r]];
      }
    }

    /** reset(): the value 0. */
    method Reset()
      requires Valid()
      modifies this
      ensures Valid() && ToUlong() == 0
    {
      bits := Filled(n, false);
      ValueZero(bits);
    }

    /** Stores a value known to fit in N bits. */
    method Store(v: nat)
      requires Valid() && v < Pow2(n)
      modifies this
      ensures Valid() && ToUlong() == v
    {
      bits := ToBits(v, n);
      ValueOfToBits(v, n);
      DivModUnique(v, Pow2(n), 0, v);
    }

    /** Prefix ++: adds one unless the value is already umax(N). */
    method Increment()
      requires Valid()
      modifies this
      ensures Valid()
      ensures ToUlong() == if old(ToUlong()) < Pow2(n) - 1 then old(ToUlong()) + 1 else old(ToUlong())
    {
      var v := ToUlong();
      if v < Pow2(n) - 1 {
        Store(v + 1);
      }
    }

    /** Prefix --: subtracts one unless the value is already umin(N) = 0. */
    method Decrement()
      requires Valid()
      modifies this
      ensures Valid()
      ensures ToUlong() == if old(ToUlong()) > 0 then old(ToUlong()) - 1 else 0
    {
      var v := ToUlong();
      if v > 0 {
        Store(v - 1);
      }
    }

    /** Postfix ++: as prefix ++, returning the value before. */
    method PostIncrement() returns (before: nat)
      requires Valid()
      modifies this
      ensures Valid() && before == old(ToUlong())
      ensures ToUlong() == if before < Pow2(n) - 1 then before + 1 else before
    {
      before := ToUlong();
      Increment();
    }

    /** Postfix --: as prefix --, returning the value before. */
    method PostDecrement() returns (before: nat)
      requires Valid()
      modifies this
      ensures Valid() && before == old(ToUlong())
      ensures ToUlong() == if before > 0 then before - 1 else 0
    {
      before := ToUlong();
      Decrement();
    }

    /** inc(): adds one, or raises overflow_error at umax(N) and keeps the value. */
    method Inc() returns (ok: bool)
      requires Valid()
      modifies this
      ensures Valid()
      ensures ok <==> old(ToUlong()) < Pow2(n) - 1
      ensures ToUlong() == if ok then old(ToUlong()) + 1 else old(ToUlong())
    {
      var v := ToUlong();
      ok := v < Pow2(n) - 1;
      if ok {
        Store(v + 1);
      }
    }

    /** dec(): subtracts one, or raises underflow_error at 0 and keeps the value. */
    method Dec() returns (ok: bool)
      requires Valid()
      modifies this
      ensures Valid()
      ensures ok <==> old(ToUlong()) > 0
      ensures ToUlong() == if ok then old(ToUlong()) - 1 else old(ToUlong())
    {
      var v := ToUlong();
      ok := v > 0;
      if ok {
        Store(v - 1);
      }
    }
  }

  /** Saturation: from any value, umax(N) increments reach umax(N) and stay. */
  lemma {:induction false} IncrementSaturates(v: nat, n: nat, k: nat)
    requires v < Pow2(n)
    ensures SatAdd(v, n, k) == if v + k < Pow2(n) - 1 then v + k else Pow2(n) - 1
  {
    if k > 0 {
      IncrementSaturates(v, n, k - 1);
    }
  }

  /** The value after k saturating increments from v. */
  function SatAdd(v: nat, n: nat, k: nat): (r: nat)
    requires v < Pow2(n)
    ensures r < Pow2(n)
  {
    if k == 0 then v
    else
      var w := SatAdd(v, n, k - 1);
      if w < Pow2(n) - 1 then w + 1 else w
  }
}
