/** shttl_bitset<N>: an N-bit value with bit-level access.
    The value is held as its N bits, least significant first; the
    integer the source stores (`to_ulong`) is their binary value. */
module ShttlBitset {
  import opened Wrappers
  import opened Arith

  /** Binary value of a bit sequence, least significant bit first. */
  function Value(b: seq<bool>): (r: nat)
    ensures r < Pow2(|b|)
  {
    if b == [] then 0 else (if b[0] then 1 else 0) + 2 * Value(b[1..])
  }

  /** The low k bits of v, least significant first (v & umax(k)). */
  function ToBits(v: nat, k: nat): (b: seq<bool>)
    ensures |b| == k
  {
    if k == 0 then [] else [v % 2 == 1] + ToBits(v / 2, k - 1)
  }

  /** Reading back the bits of v gives v modulo 2^k: the constructor's
      `v & umax(N)`. */
  lemma {:induction false} ValueOfToBits(v: nat, k: nat)
    ensures Value(ToBits(v, k)) == v % Pow2(k)
  {
    if k > 0 {
      ValueOfToBits(v / 2, k - 1);
      ModHalf(v, Pow2(k - 1));
    }
  }

  /** Bits and value determine each other. */
  lemma {:induction false} ToBitsOfValue(b: seq<bool>)
    ensures ToBits(Value(b), |b|) == b
  {
    if b != [] {
      ToBitsOfValue(b[1..]);
      assert Value(b) / 2 == Value(b[1..]);
    }
  }

  /** Bit i of v is the i-th binary digit of v. */
  lemma {:induction false} ToBitsAt(v: nat, k: nat, i: nat)
    requires i < k
    ensures ToBits(v, k)[i] == ((v / Pow2(i)) % 2 == 1)
  {
    if i > 0 {
      ToBitsAt(v / 2, k - 1, i - 1);
      ModHalf(v, Pow2(i - 1));
    }
  }

  /** The value is zero exactly when no bit is set. */
  lemma {:induction false} ValueZero(b: seq<bool>)
    ensures Value(b) == 0 <==> forall i :: 0 <= i < |b| ==> !b[i]
  {
    if b != [] {
      ValueZero(b[1..]);
      assert forall i :: 1 <= i < |b| ==> b[i] == b[1..][i - 1];
    }
  }

  /** All bits set is the largest N-bit value, umax(N). */
  lemma {:induction false} ValueAllOnes(b: seq<bool>)
    requires forall i :: 0 <= i < |b| ==> b[i]
    ensures Value(b) == Pow2(|b|) - 1
  {
    if b != [] {
      ValueAllOnes(b[1..]);
    }
  }

  /** Number of set bits. */
  function CountTrue(b: seq<bool>): (c: nat)
    ensures c <= |b|
    ensures c == 0 <==> Value(b) == 0
  {
    ValueZero(b);
    if b == [] then 0
    else
      ValueZero(b[1..]);
      assert forall i :: 1 <= i < |b| ==> b[i] == b[1..][i - 1];
      (if b[0] then 1 else 0) + CountTrue(b[1..])
  }

  function Filled(k: nat, x: bool): (b: seq<bool>)
    ensures |b| == k && forall i :: 0 <= i < k ==> b[i] == x
  {
    if k == 0 then [] else [x] + Filled(k - 1, x)
  }

  /** `v << w` truncated to N bits: bit i comes from bit i - w. */
  function ShiftedLeft(b: seq<bool>, w: nat): (r: seq<bool>)
    ensures |r| == |b|
    ensures forall i :: 0 <= i < |r| ==> r[i] == (i >= w && b[i - w])
  {
    if w >= |b| then Filled(|b|, false) else Filled(w, false) + b[..|b| - w]
  }

  /** `v >> w`: bit i comes from bit i + w, zeros enter at the top. */
  function ShiftedRight(b: seq<bool>, w: nat): (r: seq<bool>)
    ensures |r| == |b|
    ensures forall i :: 0 <= i < |r| ==> r[i] == (i + w < |b| && b[i + w])
  {
    if w >= |b| then Filled(|b|, false) else b[w..] + Filled(w, false)
  }

  /** Shifting right by one halves the value. */
  lemma {:induction false} ShiftRightOneValue(b: seq<bool>)
    ensures Value(ShiftedRight(b, 1)) == Value(b) / 2
  {
    if b != [] {
      var r := ShiftedRight(b, 1);
      assert r == b[1..] + [false];
      AppendFalse(b[1..]);
    }
  }

  /** A zero bit on top does not change the value. */
  lemma {:induction false} AppendFalse(b: seq<bool>)
    ensures Value(b + [false]) == Value(b)
  {
    if b != [] {
      assert (b + [false])[1..] == b[1..] + [false];
      AppendFalse(b[1..]);
    }
  }

  function Complemented(b: seq<bool>): (r: seq<bool>)
    ensures |r| == |b| && forall i :: 0 <= i < |b| ==> r[i] == !b[i]
  {
    if b == [] then [] else [!b[0]] + Complemented(b[1..])
  }

  /** `~v & umax(N)` is umax(N) - v. */
  lemma {:induction false} ComplementValue(b: seq<bool>)
    ensures Value(Complemented(b)) == Pow2(|b|) - 1 - Value(b)
  {
    if b != [] {
      ComplementValue(b[1..]);
      assert Complemented(b)[1..] == Complemented(b[1..]);
    }
  }

  /** Bitwise combination of two equally long values. */
  function Zip(a: seq<bool>, b: seq<bool>, f: (bool, bool) -> bool): (r: seq<bool>)
    requires |a| == |b|
    ensures |r| == |a| && forall i :: 0 <= i < |a| ==> r[i] == f(a[i], b[i])
  {
    if a == [] then [] else [f(a[0], b[0])] + Zip(a[1..], b[1..], f)
  }

  function BitChar(x: bool): char { if x then '1' else '0' }

  class Bitset {
    const n: nat
    var bits: seq<bool>

    ghost predicate Valid()
      reads this
    {
      |bits| == n
    }

    /** to_ulong: the stored N-bit value. */
    function ToUlong(): (r: nat)
      reads this
      requires Valid()
      ensures r < Pow2(n)
    {
      Value(bits)
    }

    /** shttl_bitset(u64 v): the value is v masked to N bits. */
    constructor (n: nat, v: nat)
      ensures Valid() && this.n == n
      ensures ToUlong() == v % Pow2(n)
    {
      this.n := n;
      bits := ToBits(v, n);
      new;
      ValueOfToBits(v, n);
    }

    method AndAssign(other: Bitset)
      requires Valid() && other.Valid() && other.n == n
      modifies this
      ensures Valid()
      ensures forall i :: 0 <= i < n ==> bits[i] == (old(bits[i]) && old(other.bits[i]))
    {
      bits := Zip(bits, other.bits, (x, y) => x && y);
    }

    method OrAssign(other: Bitset)
      requires Valid() && other.Valid() && other.n == n
      modifies this
      ensures Valid()
      ensures forall i :: 0 <= i < n ==> bits[i] == (old(bits[i]) || old(other.bits[i]))
    {
      bits := Zip(bits, other.bits, (x, y) => x || y);
    }

    method XorAssign(other: Bitset)
      requires Valid() && other.Valid() && other.n == n
      modifies this
      ensures Valid()
      ensures forall i :: 0 <= i < n ==> bits[i] == (old(bits[i]) != old(other.bits[i]))
    {
      bits := Zip(bits, other.bits, (x, y) => x != y);
    }

    /** operator<<=: shift towards the top, dropping bits past N. */
    method ShiftLeftAssign(w: nat)
      requires Valid()
      modifies this
      ensures Valid()
      ensures bits == ShiftedLeft(old(bits), w)
    {
      bits := ShiftedLeft(bits, w);
    }

    /** operator>>=. */
    method ShiftRightAssign(w: nat)
      requires Valid()
      modifies this
      ensures Valid()
      ensures bits == ShiftedRight(old(bits), w)
      ensures w == 1 ==> ToUlong() == old(ToUlong()) / 2
    {
      if w == 1 {
        ShiftRightOneValue(bits);
      }
      bits := ShiftedRight(bits, w);
    }

    /** set(): every bit, the value umax(N). */
    method SetAll()
      requires Valid()
      modifies this
      ensures Valid() && ToUlong() == Pow2(n) - 1
    {
      bits := Filled(n, true);
      ValueAllOnes(bits);
    }

    /** set(p, v): out_of_range when p >= N, else bit p becomes v != 0. */
    method Set(p: nat, v: int) returns (ok: bool)
      requires Valid()
      modifies this
      ensures Valid()
      ensures ok <==> p < n
      ensures ok ==> bits == old(bits)[p := v != 0]
      ensures !ok ==> bits == old(bits)
    {
      ok := p < n;
      if ok {
        bits := bits[p := v != 0];
      }
    }

    /** reset(): the value 0. */
    method ResetAll()
      requires Valid()
      modifies this
      ensures Valid() && ToUlong() == 0
    {
      bits := Filled(n, false);
      ValueZero(bits);
    }

    method Reset(p: nat) returns (ok: bool)
      requires Valid()
      modifies this
      ensures Valid()
      ensures ok <==> p < n
      ensures ok ==> bits == old(bits)[p := false]
      ensures !ok ==> bits == old(bits)
    {
      ok := p < n;
      if ok {
        bits := bits[p := false];
      }
    }

    /** flip(): every bit inverted, i.e. umax(N) - v. */
    method FlipAll()
      requires Valid()
      modifies this
      ensures Valid()
      ensures bits == Complemented(old(bits))
      ensures ToUlong() == Pow2(n) - 1 - old(ToUlong())
    {
      ComplementValue(bits);
      bits := Complemented(bits);
    }

    method Flip(p: nat) returns (ok: bool)
      requires Valid()
      modifies this
      ensures Valid()
      ensures ok <==> p < n
      ensures ok ==> bits == old(bits)[p := !old(bits[p])]
      ensures !ok ==> bits == old(bits)
    {
      ok := p < n;
      if ok {
        bits := bits[p := !bits[p]];
      }
    }

    /** test(p): out_of_range when p >= N. */
    function Test(p: nat): (r: Option<bool>)
      reads this
      requires Valid()
      ensures r.Some? <==> p < n
      ensures r.Some? ==> r.value == ((ToUlong() / Pow2(p)) % 2 == 1)
    {
      if p < n then
        ToBitsOfValue(bits);
        ToBitsAt(Value(bits), n, p);
        Some(bits[p])
      else None
    }

    /** any(): the value is non-zero; none() is its negation. */
    function IsAny(): (r: bool)
      reads this
      requires Valid()
      ensures r <==> exists i :: 0 <= i < n && bits[i]
    {
      ValueZero(bits);
      ToUlong() != 0
    }

    function IsNone(): (r: bool)
      reads this
      requires Valid()
      ensures r <==> forall i :: 0 <= i < n ==> !bits[i]
    {
      ValueZero(bits);
      ToUlong() == 0
    }

    /** to_string: N characters, most significant bit first. */
    method ToString() returns (s: string)
      requires Valid()
      ensures |s| == n
      ensures forall i :: 0 <= i < n ==> s[i] == BitChar(bits[n - 1 - i])
    {
      s := "";
      var p := n;
      while p > 0
        invariant 0 <= p <= n
        invariant |s| == n - p
        invariant forall i :: 0 <= i < n - p ==> s[i] == BitChar(bits[n - 1 - i])
      {
        p := p - 1;
        s := s + [BitChar(bits[p])];
      }
    }

    /** count: the number of set bits. */
    method Count() returns (c: nat)
      requires Valid()
      ensures c == CountTrue(bits)
      ensures c <= n && (c == 0 <==> ToUlong() == 0)
    {
      c := 0;
      var p := 0;
      while p < n
        invariant 0 <= p <= n
        invariant c == CountTrue(bits[..p])
      {
        CountTrueSnoc(bits[..p], bits[p]);
        assert bits[..p + 1] == bits[..p] + [bits[p]];
        c := c + if bits[p] then 1 else 0;
        p := p + 1;
      }
      assert bits[..n] == bits;
    }
  }

  lemma {:induction false} CountTrueSnoc(b: seq<bool>, x: bool)
    ensures CountTrue(b + [x]) == CountTrue(b) + if x then 1 else 0
  {
    if b != [] {
      assert (b + [x])[1..] == b[1..] + [x];
      CountTrueSnoc(b[1..], x);
    }
  }
}
