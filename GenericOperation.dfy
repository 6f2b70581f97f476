/** The architecture-independent integer operation functors every emulator
    front end instantiates: wrap-around arithmetic, carry and borrow flags,
    division that returns 0 on a zero divisor, masked shifts, rotates, the
    bit-field copies behind the floating-point sign operations, and the
    branch helpers that write the taken flag and target into the emulation
    state.

    A w-bit register value is a natural below 2^w (Words.IsWord); the
    width w is a parameter, so one definition covers the u32 and u64
    instantiations. */
module GenericOp {
  import opened Arith
  import opened Words

  // ---------------------------------------------------------------------
  // Wrap-around arithmetic
  // ---------------------------------------------------------------------

  /** Addition in Type: the sum, less 2^w when it does not fit. */
  function IntAdd(w: nat, l: nat, r: nat): (x: nat)
    requires IsWord(w, l) && IsWord(w, r)
    ensures IsWord(w, x)
    ensures l + r < Pow2(w) ==> x == l + r
    ensures l + r >= Pow2(w) ==> x == l + r - Pow2(w)
  {
    ModOnce(l + r, Pow2(w));
    (l + r) % Pow2(w)
  }

  /** Subtraction in Type: the difference, plus 2^w when it is negative. */
  function IntSub(w: nat, l: nat, r: nat): (x: nat)
    requires IsWord(w, l) && IsWord(w, r)
    ensures IsWord(w, x)
    ensures l >= r ==> x == l - r
    ensures l < r ==> x == l - r + Pow2(w)
  {
    ModOnceNeg(l - r, Pow2(w));
    (l - r) % Pow2(w)
  }

  /** Multiplication in Type keeps the low w bits of the product: the
      result differs from the product by a multiple of 2^w, and is the
      product itself when that fits. */
  function IntMul(w: nat, l: nat, r: nat): (x: nat)
    requires IsWord(w, l) && IsWord(w, r)
    ensures IsWord(w, x)
    ensures x == (l * r) % Pow2(w)
    ensures l * r < Pow2(w) ==> x == l * r
  {
    if l * r < Pow2(w) then
      DivModUnique(l * r, Pow2(w), 0, l * r);
      l * r
    else
      (l * r) % Pow2(w)
  }

  /** Negation: the two's-complement negative, which added back gives 0. */
  function IntNeg(w: nat, v: nat): (x: nat)
    requires w >= 1 && IsWord(w, v)
    ensures IsWord(w, x)
    ensures IntAdd(w, v, x) == 0
  {
    var s := Signed(w, v);
    if v == 0 then
      DivModUnique(0, Pow2(w), 0, 0);
      Unsigned(w, -s)
    else
      ModOnceNeg(-s, Pow2(w));
      Unsigned(w, -s)
  }

  /** Unsigned division; a zero divisor gives 0 instead of trapping. */
  function IntDiv(w: nat, l: nat, r: nat): (q: nat)
    requires IsWord(w, l) && IsWord(w, r)
    ensures IsWord(w, q)
    ensures r == 0 ==> q == 0
    ensures r != 0 ==> q * r <= l < q * r + r
  {
    if r == 0 then 0 else
      DivBounds(l, r);
      l / r
  }

  function Abs(a: int): nat
  {
    if a < 0 then -a else a
  }

  /** Integer division of C++: the quotient is truncated toward zero. */
  function TruncDiv(a: int, b: int): (q: int)
    requires b != 0
    ensures Abs(q) * Abs(b) <= Abs(a) < Abs(q) * Abs(b) + Abs(b)
    ensures q != 0 ==> (q < 0 <==> (a < 0) != (b < 0))
  {
    var x, y := Abs(a), Abs(b);
    DivBounds(x, y);
    var m := x / y;
    assert Abs(-m) == m;
    if (a < 0) == (b < 0) then m else -m
  }

  /** Signed division (the s32/s64 instantiations): operands and result are
      read and written as two's complement; a zero divisor gives 0. */
  function IntDivSigned(w: nat, l: nat, r: nat): (q: nat)
    requires w >= 1 && IsWord(w, l) && IsWord(w, r)
    ensures IsWord(w, q)
    ensures r == 0 ==> q == 0
  {
    if r == 0 then 0 else Unsigned(w, TruncDiv(Signed(w, l), Signed(w, r)))
  }

  /** Away from the one overflowing case, signed division reads back as
      the truncated quotient of the signed operands. */
  lemma IntDivSignedExact(w: nat, l: nat, r: nat)
    requires w >= 1 && IsWord(w, l) && IsWord(w, r) && r != 0
    requires !(Signed(w, l) + Pow2(w - 1) == 0 && Signed(w, r) == -1)
    ensures Signed(w, IntDivSigned(w, l, r)) == TruncDiv(Signed(w, l), Signed(w, r))
  {
    var a, b := Signed(w, l), Signed(w, r);
    var q := TruncDiv(a, b);
    DivBounds(Abs(a), Abs(b));
    if Abs(q) == Pow2(w - 1) {
      DivSelf(Abs(a), Abs(b));
    }
    SignedOfUnsigned(w, q);
  }

  // ---------------------------------------------------------------------
  // Carry and borrow
  // ---------------------------------------------------------------------

  /** The carry out of lhs + rhs: the wrapped sum is below rhs. */
  function CarryOfAdd(w: nat, l: nat, r: nat): (c: nat)
    requires IsWord(w, l) && IsWord(w, r)
    ensures c <= 1
    ensures c == 1 <==> l + r >= Pow2(w)
  {
    if IntAdd(w, l, r) < r then 1 else 0
  }

  /** The wrapped sum and the carry together make the exact sum. */
  lemma AddWithCarryOutExact(w: nat, l: nat, r: nat)
    requires IsWord(w, l) && IsWord(w, r)
    ensures IntAdd(w, l, r) + Pow2(w) * CarryOfAdd(w, l, r) == l + r
  {
  }

  /** The carry out of lhs + rhs + carry as the source computes it: the
      second test compares against rhs instead of against carry. */
  function CarryOfAddWithCarryAsWritten(w: nat, l: nat, r: nat, carry: nat): (c: nat)
    requires IsWord(w, l) && IsWord(w, r) && carry <= 1 && w >= 1
    ensures c <= 1
    ensures c == 1 ==> l + r + carry >= Pow2(w)
  {
    var s := IntAdd(w, l, r);
    if s < r || IntAdd(w, s, carry) < r then 1 else 0
  }

  /** The as-written carry is wrong on exactly one input: all ones plus
      zero plus an incoming carry, whose sum is exactly 2^w. */
  lemma CarryOfAddWithCarryMissed(w: nat, l: nat, r: nat, carry: nat)
    requires IsWord(w, l) && IsWord(w, r) && carry <= 1 && w >= 1
    ensures (CarryOfAddWithCarryAsWritten(w, l, r, carry) == 1) != (l + r + carry >= Pow2(w))
        <==> l == Pow2(w) - 1 && r == 0 && carry == 1
  {
  }

  /** The carry out of lhs + rhs + carry, testing each partial sum against
      the addend that was just added. */
  function CarryOfAddWithCarry(w: nat, l: nat, r: nat, carry: nat): (c: nat)
    requires IsWord(w, l) && IsWord(w, r) && carry <= 1 && w >= 1
    ensures c <= 1
    ensures c == 1 <==> l + r + carry >= Pow2(w)
  {
    var s := IntAdd(w, l, r);
    if s < r || IntAdd(w, s, carry) < carry then 1 else 0
  }

  /** The borrow out of lhs - rhs. */
  function BorrowOfSub(w: nat, l: nat, r: nat): (b: nat)
    requires IsWord(w, l) && IsWord(w, r)
    ensures b <= 1
  {
    if l < r then 1 else 0
  }

  /** The wrapped difference and the borrow together make the exact
      difference. */
  lemma SubWithBorrowOutExact(w: nat, l: nat, r: nat)
    requires IsWord(w, l) && IsWord(w, r)
    ensures IntSub(w, l, r) == l - r + Pow2(w) * BorrowOfSub(w, l, r)
  {
  }

  /** The borrow out of lhs - rhs - borrow as the source computes it: an
      all-ones rhs always borrows, even when no borrow comes in. */
  function BorrowOfSubWithBorrowAsWritten(w: nat, l: nat, r: nat, borrow: nat): (b: nat)
    requires IsWord(w, l) && IsWord(w, r) && borrow <= 1 && w >= 1
    ensures b <= 1
    ensures l < r + borrow ==> b == 1
  {
    if r == Pow2(w) - 1 || l < IntAdd(w, r, borrow) then 1 else 0
  }

  /** The as-written borrow is wrong on exactly one input: all ones minus
      all ones with no incoming borrow, whose difference is 0. */
  lemma BorrowOfSubWithBorrowSpurious(w: nat, l: nat, r: nat, borrow: nat)
    requires IsWord(w, l) && IsWord(w, r) && borrow <= 1 && w >= 1
    ensures (BorrowOfSubWithBorrowAsWritten(w, l, r, borrow) == 1) != (l < r + borrow)
        <==> l == Pow2(w) - 1 && r == Pow2(w) - 1 && borrow == 0
  {
  }

  /** The borrow out of lhs - rhs - borrow: rhs + borrow wraps only when
      rhs is all ones and a borrow comes in, and then it always borrows. */
  function BorrowOfSubWithBorrow(w: nat, l: nat, r: nat, borrow: nat): (b: nat)
    requires IsWord(w, l) && IsWord(w, r) && borrow <= 1 && w >= 1
    ensures b <= 1
    ensures b == 1 <==> l < r + borrow
  {
    if (r == Pow2(w) - 1 && borrow == 1) || l < IntAdd(w, r, borrow) then 1 else 0
  }

  // ---------------------------------------------------------------------
  // Shifts and rotates
  // ---------------------------------------------------------------------

  /** The shift count: the source ANDs it with count_mask, and every mask
      the front ends pass (0x1f, 0x3f, 0x7f, 63) is 2^k - 1. */
  function ShiftCount(k: nat, c: nat): (n: nat)
    ensures n < Pow2(k)
  {
    c % Pow2(k)
  }

  /** Logical left shift; a masked count of at least w gives 0. */
  function LShiftL(w: nat, k: nat, v: nat, c: nat): (x: nat)
    requires IsWord(w, v)
    ensures IsWord(w, x)
    ensures ShiftCount(k, c) >= w ==> x == 0
    ensures ShiftCount(k, c) < w ==> x == (v * Pow2(ShiftCount(k, c))) % Pow2(w)
  {
    var n := ShiftCount(k, c);
    if n >= w then 0 else (v * Pow2(n)) % Pow2(w)
  }

  /** Logical right shift; a masked count of at least w gives 0. The
      result never has any of its top n bits set. */
  function LShiftR(w: nat, k: nat, v: nat, c: nat): (x: nat)
    requires IsWord(w, v)
    ensures ShiftCount(k, c) >= w ==> x == 0
    ensures ShiftCount(k, c) < w ==> x == v / Pow2(ShiftCount(k, c))
    ensures ShiftCount(k, c) < w ==> IsWord(w - ShiftCount(k, c), x)
  {
    var n := ShiftCount(k, c);
    if n >= w then 0 else
      ShiftedBelow(v, w - n, n);
      v / Pow2(n)
  }

  /** A word below 2^(m + n) divided by 2^n is below 2^m. */
  lemma ShiftedBelow(v: nat, m: nat, n: nat)
    requires v < Pow2(m + n)
    ensures v / Pow2(n) < Pow2(m)
  {
    Pow2Add(m, n);
    DivBelow(v, Pow2(n), Pow2(m));
  }

  /** Multiplying by 2^n and keeping m + n bits keeps the low m bits of v,
      moved up by n. */
  lemma ShiftLeftMod(v: nat, m: nat, n: nat)
    ensures (v * Pow2(n)) % Pow2(m + n) == (v % Pow2(m)) * Pow2(n)
  {
    Pow2Add(m, n);
    MulMod(v, Pow2(m), Pow2(n));
  }

  /** (lo * 2^n + hi) / 2^n is lo when hi is below 2^n. */
  lemma DivShifted(lo: nat, hi: nat, n: nat)
    requires hi < Pow2(n)
    ensures (lo * Pow2(n) + hi) / Pow2(n) == lo
    ensures (lo * Pow2(n) + hi) % Pow2(n) == hi
  {
    DivModUnique(lo * Pow2(n) + hi, Pow2(n), lo, hi);
  }

  /** Shifting left and then right by the same count clears the bits the
      left shift pushed out of the word. */
  lemma ShiftLeftThenRight(w: nat, k: nat, v: nat, c: nat)
    requires IsWord(w, v) && ShiftCount(k, c) < w
    ensures LShiftR(w, k, LShiftL(w, k, v, c), c) == v % Pow2(w - ShiftCount(k, c))
  {
    var n := ShiftCount(k, c);
    ShiftLeftMod(v, w - n, n);
    DivShifted(v % Pow2(w - n), 0, n);
  }

  /** Arithmetic right shift as the source computes it: a masked count of
      at least w gives 0 whatever the sign; otherwise the signed value is
      divided by 2^n rounding toward minus infinity. */
  function AShiftR(w: nat, k: nat, v: nat, c: nat): (x: nat)
    requires w >= 1 && IsWord(w, v)
    ensures IsWord(w, x)
    ensures ShiftCount(k, c) >= w ==> x == 0
  {
    var n := ShiftCount(k, c);
    if n >= w then 0 else Unsigned(w, Signed(w, v) / Pow2(n))
  }

  /** A signed value divided by a power of two stays in the signed range
      and keeps its sign. */
  lemma SignedShiftRange(w: nat, s: int, n: nat)
    requires w >= 1 && 0 <= s + Pow2(w - 1) && s < Pow2(w - 1)
    ensures 0 <= s / Pow2(n) + Pow2(w - 1) && s / Pow2(n) < Pow2(w - 1)
    ensures s / Pow2(n) < 0 <==> s < 0
  {
    FloorDivRange(s, Pow2(n), Pow2(w - 1));
  }

  /** Below the width, the arithmetic shift reads back as the floor
      quotient of the signed value, and the result keeps the sign bit. */
  lemma AShiftRSigned(w: nat, k: nat, v: nat, c: nat)
    requires w >= 1 && IsWord(w, v) && ShiftCount(k, c) < w
    ensures Signed(w, AShiftR(w, k, v, c)) == Signed(w, v) / Pow2(ShiftCount(k, c))
    ensures Negative(w, AShiftR(w, k, v, c)) <==> Negative(w, v)
  {
    var n := ShiftCount(k, c);
    SignedShiftRange(w, Signed(w, v), n);
    SignedOfUnsigned(w, Signed(w, v) / Pow2(n));
  }

  /** On a word whose sign bit is clear, the arithmetic and the logical
      right shift agree. */
  lemma AShiftRNonNegative(w: nat, k: nat, v: nat, c: nat)
    requires w >= 1 && IsWord(w, v) && !Negative(w, v)
    ensures AShiftR(w, k, v, c) == LShiftR(w, k, v, c)
  {
    var n := ShiftCount(k, c);
    if n < w {
      var q := v / Pow2(n);
      DivBounds(v, Pow2(n));
      assert Signed(w, v) == v;
      DivModUnique(q, Pow2(w), 0, q);
    }
  }

  /** A negative word shifted by a masked count of at least the width
      gives 0 as written, where shifting in copies of the sign bit gives
      all ones (-1). */
  lemma AShiftRWideNegative(w: nat, k: nat, v: nat, c: nat)
    requires w >= 1 && IsWord(w, v) && Negative(w, v) && ShiftCount(k, c) >= w
    ensures AShiftR(w, k, v, c) == 0
    ensures Signed(w, v) / Pow2(ShiftCount(k, c)) == -1
  {
    var n := ShiftCount(k, c);
    Pow2Mono(w - 1, n);
    DivModUnique(Signed(w, v), Pow2(n), -1, Signed(w, v) + Pow2(n));
  }

  /** The case that reaches it: a 32-bit arithmetic shift with a 6-bit
      count mask (the Power sraw instruction) of 0x8000_0000 by 32. */
  lemma AShiftRSrawExample()
    ensures Pow2(31) == 0x8000_0000 && Pow2(32) == 0x1_0000_0000
    ensures AShiftR(32, 6, 0x8000_0000, 32) == 0
    ensures Signed(32, 0x8000_0000) / Pow2(32) == -1
  {
    Pow2Of32And64();
    assert Pow2(6) == 64;
    DivModUnique(32, 64, 0, 32);
    AShiftRWideNegative(32, 6, 0x8000_0000, 32);
  }

  /** Arithmetic right shift that fills with the sign bit for every count,
      including counts of at least the width. */
  function AShiftRSignFill(w: nat, k: nat, v: nat, c: nat): (x: nat)
    requires w >= 1 && IsWord(w, v)
    ensures IsWord(w, x)
    ensures Signed(w, x) == Signed(w, v) / Pow2(ShiftCount(k, c))
  {
    var n := ShiftCount(k, c);
    if n < w then
      AShiftRSigned(w, k, v, c);
      AShiftR(w, k, v, c)
    else if Negative(w, v) then
      AShiftRWideNegative(w, k, v, c);
      UnsignedOfSigned(w, Pow2(w) - 1);
      Pow2(w) - 1
    else
      Pow2Mono(w - 1, n);
      DivModUnique(v, Pow2(n), 0, v);
      0
  }

  /** The rotate count: the source ANDs it with width - 1, which for the
      u32 and u64 instantiations (w = 2^lw) is the count modulo w. */
  function RotateCount(lw: nat, c: nat): (n: nat)
    ensures n < Pow2(lw)
  {
    c % Pow2(lw)
  }

  /** The part of v below m moved up by the factor p, with the part of v
      above m brought round to the bottom. With m and p powers of two the
      two parts occupy disjoint bits, so the source's OR of them is their
      sum. */
  function Swapped(v: nat, m: nat, p: nat): (x: nat)
    requires m >= 1 && p >= 1 && v < m * p
    ensures x < m * p
  {
    SwapFits(v, m, p);
    (v % m) * p + v / m
  }

  /** Rotation of a w-bit word left by n < w: the low w - n bits move up
      and the high n bits come round to the bottom. */
  function RotL(w: nat, v: nat, n: nat): (x: nat)
    requires IsWord(w, v) && n < w
    ensures IsWord(w, x)
    ensures n == 0 ==> x == v
    ensures n > 0 ==> x == (v * Pow2(n)) % Pow2(w) + v / Pow2(w - n)
  {
    if n == 0 then v else
      Pow2Add(w - n, n);
      ShiftLeftMod(v, w - n, n);
      Swapped(v, Pow2(w - n), Pow2(n))
  }

  /** Rotation right by n < w: the same split taken at n. */
  function RotR(w: nat, v: nat, n: nat): (x: nat)
    requires IsWord(w, v) && n < w
    ensures IsWord(w, x)
    ensures n == 0 ==> x == v
    ensures n > 0 ==> x == v / Pow2(n) + (v * Pow2(w - n)) % Pow2(w)
  {
    if n == 0 then v else
      Pow2Add(n, w - n);
      ShiftLeftMod(v, n, w - n);
      Swapped(v, Pow2(n), Pow2(w - n))
  }

  /** Rotating right undoes rotating left by the same amount. */
  lemma RotLRInverse(w: nat, v: nat, n: nat)
    requires IsWord(w, v) && n < w
    ensures RotR(w, RotL(w, v, n), n) == v
  {
    if n != 0 {
      Pow2Add(w - n, n);
      SwapInverse(v, Pow2(w - n), Pow2(n));
    }
  }

  /** The RotateL functor: a count of 0 returns the value. */
  function RotateL(lw: nat, v: nat, c: nat): (x: nat)
    requires IsWord(Pow2(lw), v)
    ensures IsWord(Pow2(lw), x)
    ensures RotateCount(lw, c) == 0 ==> x == v
    ensures RotateCount(lw, c) != 0 ==>
      x == (v * Pow2(RotateCount(lw, c))) % Pow2(Pow2(lw)) + v / Pow2(Pow2(lw) - RotateCount(lw, c))
  {
    RotL(Pow2(lw), v, RotateCount(lw, c))
  }

  /** The RotateR functor. */
  function RotateR(lw: nat, v: nat, c: nat): (x: nat)
    requires IsWord(Pow2(lw), v)
    ensures IsWord(Pow2(lw), x)
    ensures RotateCount(lw, c) == 0 ==> x == v
    ensures RotateCount(lw, c) != 0 ==>
      x == v / Pow2(RotateCount(lw, c)) + (v * Pow2(Pow2(lw) - RotateCount(lw, c))) % Pow2(Pow2(lw))
  {
    RotR(Pow2(lw), v, RotateCount(lw, c))
  }

  /** A rotate by a non-zero count is the two logical shifts the source
      ORs together, whose bits do not overlap: RotateL is the left shift by
      the count plus the right shift by the width less the count, RotateR
      the mirror image. */
  lemma RotateFromShifts(lw: nat, v: nat, c: nat)
    requires IsWord(Pow2(lw), v) && RotateCount(lw, c) != 0
    ensures RotateL(lw, v, c) ==
      LShiftL(Pow2(lw), lw, v, c) + LShiftR(Pow2(lw), lw, v, Pow2(lw) - RotateCount(lw, c))
    ensures RotateR(lw, v, c) ==
      LShiftR(Pow2(lw), lw, v, c) + LShiftL(Pow2(lw), lw, v, Pow2(lw) - RotateCount(lw, c))
  {
    var w, n := Pow2(lw), RotateCount(lw, c);
    DivModUnique(w - n, w, 0, w - n);
    assert ShiftCount(lw, w - n) == w - n;
  }

  /** Rotating right undoes rotating left by the same count. */
  lemma RotateRoundTrip(lw: nat, v: nat, c: nat)
    requires IsWord(Pow2(lw), v)
    ensures RotateR(lw, RotateL(lw, v, c), c) == v
  {
    RotLRInverse(Pow2(lw), v, RotateCount(lw, c));
  }

  // ---------------------------------------------------------------------
  // Bit-field copies of the floating-point sign operations
  // ---------------------------------------------------------------------

  const SignBit: bv64 := 0x8000_0000_0000_0000
  const SignExpBits: bv64 := 0xfff0_0000_0000_0000

  /** The sign bit from lhs and the other 63 bits from rhs. */
  function FPDoubleCopySign(l: bv64, r: bv64): (x: bv64)
    ensures x & SignBit == l & SignBit
    ensures x & !SignBit == r & !SignBit
  {
    (l & SignBit) | (r & !SignBit)
  }

  /** The inverted sign bit of lhs and the other 63 bits from rhs. */
  function FPDoubleCopySignNeg(l: bv64, r: bv64): (x: bv64)
    ensures x & SignBit == (l & SignBit) ^ SignBit
    ensures x & !SignBit == r & !SignBit
  {
    (!l & SignBit) | (r & !SignBit)
  }

  /** The sign and the 11 exponent bits from lhs and the 52 fraction bits
      from rhs. */
  function FPDoubleCopySignExp(l: bv64, r: bv64): (x: bv64)
    ensures x & SignExpBits == l & SignExpBits
    ensures x & !SignExpBits == r & !SignExpBits
  {
    (l & SignExpBits) | (r & !SignExpBits)
  }

  /** Copying the sign of a value onto itself changes nothing, and copying
      the inverted sign twice changes nothing either. */
  lemma CopySignIdentities(l: bv64, r: bv64)
    ensures FPDoubleCopySign(r, r) == r
    ensures FPDoubleCopySignNeg(FPDoubleCopySignNeg(l, r), FPDoubleCopySignNeg(l, r)) == FPDoubleCopySign(l, r)
  {
  }

  // ---------------------------------------------------------------------
  // Branch helpers
  // ---------------------------------------------------------------------

  /** The address of the next sequential instruction, in 64 bits. */
  function NextPC(pc: nat): (n: nat)
    requires IsWord(64, pc)
    ensures IsWord(64, n)
    ensures n % 4 == pc % 4
  {
    AddFours(pc, 1);
    WrapKeepsAlignment(64, pc + 4);
    Unsigned(64, pc + 4)
  }

  /** Wrapping into w >= 2 bits keeps the value modulo 4. */
  lemma WrapKeepsAlignment(w: nat, x: int)
    requires w >= 2
    ensures Unsigned(w, x) % 4 == x % 4
  {
    var p := Pow2(w - 2);
    Pow2Add(2, w - 2);
    assert Pow2(2) == 4;
    var q := x / Pow2(w);
    assert x == Pow2(w) * q + Unsigned(w, x);
    Assoc(4, p, q);
    AddFours(Unsigned(w, x), p * q);
  }

  /** Adding a multiple of 4 keeps the value modulo 4. */
  lemma AddFours(n: int, s: int)
    ensures (n + 4 * s) % 4 == n % 4
  {
    DivModUnique(n + 4 * s, 4, n / 4 + s, n % 4);
  }

  /** The relative branch target: the next pc plus four times the signed
      displacement, in 64 bits. */
  function RelTarget(pc: nat, disp: nat): (t: nat)
    requires IsWord(64, pc) && IsWord(64, disp)
    ensures IsWord(64, t)
    ensures t % 4 == pc % 4
  {
    var n, s := NextPC(pc), Signed(64, disp);
    WrapKeepsAlignment(64, n + 4 * s);
    AddFours(n, s);
    AddFours(pc, 1);
    Unsigned(64, n + 4 * s)
  }

  /** The absolute branch target: the address with its low two bits
      cleared. */
  function AbsTarget(a: nat): (t: nat)
    requires IsWord(64, a)
    ensures IsWord(64, t)
    ensures t % 4 == 0 && t <= a < t + 4
  {
    a - a % 4
  }

  /** The part of the emulation state the branch helpers write. */
  class BranchState {
    var pc: nat
    var taken: bool
    var takenPC: nat
    /** The destination operand a call writes its return address to. */
    var dest: nat

    predicate Valid()
      reads this
    {
      IsWord(64, pc) && IsWord(64, takenPC) && IsWord(64, dest)
    }

    constructor (pc0: nat)
      requires IsWord(64, pc0)
      ensures Valid() && pc == pc0 && !taken && takenPC == 0 && dest == 0
    {
      pc, taken, takenPC, dest := pc0, false, 0, 0;
    }

    /** Taken, to the relative target. */
    method BranchRelUncond(disp: nat)
      requires Valid() && IsWord(64, disp)
      modifies this
      ensures Valid() && taken && takenPC == RelTarget(pc, disp)
      ensures pc == old(pc) && dest == old(dest)
    {
      taken := true;
      takenPC := RelTarget(pc, disp);
    }

    /** Taken, to the absolute target. */
    method BranchAbsUncond(target: nat)
      requires Valid() && IsWord(64, target)
      modifies this
      ensures Valid() && taken && takenPC == AbsTarget(target)
      ensures pc == old(pc) && dest == old(dest)
    {
      taken := true;
      takenPC := AbsTarget(target);
    }

    /** The target is recorded whether or not the branch is taken; only a
        true condition sets the taken flag. */
    method BranchRelCond(disp: nat, cond: bool)
      requires Valid() && IsWord(64, disp)
      modifies this
      ensures Valid() && takenPC == RelTarget(pc, disp)
      ensures taken == (cond || old(taken))
      ensures pc == old(pc) && dest == old(dest)
    {
      if cond {
        BranchRelUncond(disp);
      } else {
        takenPC := RelTarget(pc, disp);
      }
    }

    method BranchAbsCond(target: nat, cond: bool)
      requires Valid() && IsWord(64, target)
      modifies this
      ensures Valid() && takenPC == AbsTarget(target)
      ensures taken == (cond || old(taken))
      ensures pc == old(pc) && dest == old(dest)
    {
      if cond {
        BranchAbsUncond(target);
      } else {
        takenPC := AbsTarget(target);
      }
    }

    /** A call saves the next pc in the destination and branches. */
    method CallRelUncond(disp: nat)
      requires Valid() && IsWord(64, disp)
      modifies this
      ensures Valid() && taken && takenPC == RelTarget(pc, disp)
      ensures dest == NextPC(pc) && pc == old(pc)
    {
      var ret := NextPC(pc);
      BranchRelUncond(disp);
      dest := ret;
    }

    method CallAbsUncond(target: nat)
      requires Valid() && IsWord(64, target)
      modifies this
      ensures Valid() && taken && takenPC == AbsTarget(target)
      ensures dest == NextPC(pc) && pc == old(pc)
    {
      var ret := NextPC(pc);
      BranchAbsUncond(target);
      dest := ret;
    }
  }
}
