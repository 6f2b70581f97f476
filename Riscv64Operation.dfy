/** The RISC-V integer operation functors: division and remainder with the
    edge cases of section 7.2 of the RISC-V Unprivileged ISA (20191213),
    their unsigned and 32-bit ("W") forms, set-less-than, and the branch
    helpers that write the emulation state.

    Division is stated for any width w, so the RV32 forms (the same code
    at 32 bits) use it as well. */
module Riscv64Ops {
  import opened Arith
  import opened Words
  import opened GenericOp

  // ---------------------------------------------------------------------
  // Division and remainder
  // ---------------------------------------------------------------------

  /** The one quotient that does not fit: the most negative value divided
      by -1 (the source tests `src1 < -0x7fff...ff && src2 == -1`). */
  predicate Overflows(w: nat, l: nat, r: nat)
    requires w >= 1 && IsWord(w, l) && IsWord(w, r)
  {
    Signed(w, l) + Pow2(w - 1) == 0 && Signed(w, r) == -1
  }

  /** C++ `%` on signed operands: the remainder of the truncated quotient. */
  function TruncRem(a: int, b: int): (m: int)
    requires b != 0
    ensures Abs(m) < Abs(b)
    ensures m != 0 ==> (m < 0 <==> a < 0)
  {
    var q := TruncDiv(a, b);
    ProductOfSigns(b, q);
    a - b * q
  }

  /** The sign of a product. */
  lemma ProductOfSigns(b: int, q: int)
    ensures b * q == if (b < 0) == (q < 0) then Abs(q) * Abs(b) else -(Abs(q) * Abs(b))
  {
    if b < 0 && q < 0 {
      assert b * q == (-q) * (-b);
    } else if b < 0 {
      assert b * q == -(q * (-b));
    } else if q < 0 {
      assert b * q == -((-q) * b);
    }
  }

  /** RISCV64IntDiv / RISCV32IntDiv: a zero divisor gives all ones (-1),
      the overflowing case gives the dividend, otherwise the truncated
      quotient. */
  function Div(w: nat, l: nat, r: nat): (q: nat)
    requires w >= 1 && IsWord(w, l) && IsWord(w, r)
    ensures IsWord(w, q)
  {
    if r == 0 then Pow2(w) - 1
    else if Overflows(w, l, r) then l
    else Unsigned(w, TruncDiv(Signed(w, l), Signed(w, r)))
  }

  /** RISCV64IntRem / RISCV32IntRem: a zero divisor gives the dividend,
      the overflowing case gives 0, otherwise the truncated remainder. */
  function Rem(w: nat, l: nat, r: nat): (m: nat)
    requires w >= 1 && IsWord(w, l) && IsWord(w, r)
    ensures IsWord(w, m)
  {
    if r == 0 then l
    else if Overflows(w, l, r) then 0
    else Unsigned(w, TruncRem(Signed(w, l), Signed(w, r)))
  }

  /** The table of section 7.2: division by zero and the signed overflow. */
  lemma DivisionEdgeCases(w: nat, l: nat)
    requires w >= 1 && IsWord(w, l)
    ensures Signed(w, Div(w, l, 0)) == -1 && Rem(w, l, 0) == l
    ensures Divu(w, l, 0) == Pow2(w) - 1 && Remu(w, l, 0) == l
    ensures l == Pow2(w - 1) ==> Div(w, l, Pow2(w) - 1) == l && Rem(w, l, Pow2(w) - 1) == 0
  {
    assert Pow2(w) == 2 * Pow2(w - 1);
  }

  /** Away from a zero divisor and the overflow, the quotient and remainder
      read back as the truncated quotient and remainder. */
  lemma DivRemExact(w: nat, l: nat, r: nat)
    requires w >= 1 && IsWord(w, l) && IsWord(w, r) && r != 0 && !Overflows(w, l, r)
    ensures Signed(w, Div(w, l, r)) == TruncDiv(Signed(w, l), Signed(w, r))
    ensures Signed(w, Rem(w, l, r)) == TruncRem(Signed(w, l), Signed(w, r))
  {
    IntDivSignedExact(w, l, r);
    var b := Signed(w, r);
    assert Abs(b) <= Pow2(w - 1);
    SignedOfUnsigned(w, TruncRem(Signed(w, l), b));
  }

  /** dividend = divisor * quotient + remainder holds in w bits for every
      input, including a zero divisor and the overflow. */
  lemma DivRemIdentity(w: nat, l: nat, r: nat)
    requires w >= 1 && IsWord(w, l) && IsWord(w, r)
    ensures Unsigned(w, Signed(w, r) * Signed(w, Div(w, l, r)) + Signed(w, Rem(w, l, r))) == l
  {
    var a, b := Signed(w, l), Signed(w, r);
    assert Pow2(w) == 2 * Pow2(w - 1);
    if r == 0 {
      UnsignedOfSigned(w, l);
    } else if Overflows(w, l, r) {
      assert Signed(w, Rem(w, l, r)) == 0;
      assert b * a == Pow2(w - 1);
      DivModUnique(Pow2(w - 1), Pow2(w), 0, Pow2(w - 1));
    } else {
      DivRemExact(w, l, r);
      UnsignedOfSigned(w, l);
    }
  }

  /** The remainder takes the sign of the dividend and is smaller than the
      divisor in magnitude (section 7.2). */
  lemma RemSign(w: nat, l: nat, r: nat)
    requires w >= 1 && IsWord(w, l) && IsWord(w, r) && r != 0
    ensures Abs(Signed(w, Rem(w, l, r))) < Abs(Signed(w, r))
    ensures Signed(w, Rem(w, l, r)) != 0 ==> (Signed(w, Rem(w, l, r)) < 0 <==> Signed(w, l) < 0)
  {
    if !Overflows(w, l, r) {
      DivRemExact(w, l, r);
    }
  }

  /** RISCV64IntDivu / RISCV32IntDivu: all ones for a zero divisor. */
  function Divu(w: nat, l: nat, r: nat): (q: nat)
    requires IsWord(w, l) && IsWord(w, r)
    ensures IsWord(w, q)
  {
    if r == 0 then Pow2(w) - 1 else DivBounds(l, r); l / r
  }

  /** RISCV64IntRemu / RISCV32IntRemu: the dividend for a zero divisor. */
  function Remu(w: nat, l: nat, r: nat): (m: nat)
    requires IsWord(w, l) && IsWord(w, r)
    ensures IsWord(w, m)
  {
    if r == 0 then l else l % r
  }

  /** dividend = divisor * quotient + remainder for the unsigned forms, in
      w bits, for every input. */
  lemma DivuRemuIdentity(w: nat, l: nat, r: nat)
    requires IsWord(w, l) && IsWord(w, r)
    ensures Unsigned(w, r * Divu(w, l, r) + Remu(w, l, r)) == l
    ensures r != 0 ==> r * Divu(w, l, r) + Remu(w, l, r) == l && Remu(w, l, r) < r
  {
    if r == 0 {
      DivModUnique(l, Pow2(w), 0, l);
    } else {
      assert l == r * (l / r) + l % r;
      DivModUnique(l, Pow2(w), 0, l);
    }
  }

  /** The low word of a register (static_cast to u32 or s32). */
  function LowWord(x: nat): (y: nat)
    ensures IsWord(32, y)
  {
    x % Pow2(32)
  }

  /** SetSext: a 32-bit result sign-extended into the 64-bit register. */
  function SextWord(x: nat): (y: nat)
    requires IsWord(32, x)
    ensures IsWord(64, y)
    ensures y % Pow2(32) == x
  {
    Pow2Add(32, 32);
    Pow2Mono(31, 63);
    SignedOfUnsigned(64, Signed(32, x));
    ModMod(Signed(32, x), Pow2(32), Pow2(32));
    UnsignedOfSigned(32, x);
    Unsigned(64, Signed(32, x))
  }

  /** divw, remw, divuw, remuw: the 32-bit operation on the low words, its
      result sign-extended. */
  function DivW(l: nat, r: nat): (x: nat)
    ensures IsWord(64, x)
  {
    SextWord(Div(32, LowWord(l), LowWord(r)))
  }

  function RemW(l: nat, r: nat): (x: nat)
    ensures IsWord(64, x)
  {
    SextWord(Rem(32, LowWord(l), LowWord(r)))
  }

  function DivuW(l: nat, r: nat): (x: nat)
    ensures IsWord(64, x)
    ensures LowWord(r) != 0 ==> x % Pow2(32) == LowWord(l) / LowWord(r)
  {
    SextWord(Divu(32, LowWord(l), LowWord(r)))
  }

  function RemuW(l: nat, r: nat): (x: nat)
    ensures IsWord(64, x)
    ensures LowWord(r) != 0 ==> x % Pow2(32) == LowWord(l) % LowWord(r)
  {
    SextWord(Remu(32, LowWord(l), LowWord(r)))
  }

  /** For a non-zero low divisor word, the low words of DIVUW and REMUW are
      the unsigned quotient and remainder of the low dividend word. */
  lemma WUnsignedDivision(l: nat, r: nat)
    requires LowWord(r) != 0
    ensures var q, m := DivuW(l, r) % Pow2(32), RemuW(l, r) % Pow2(32);
      LowWord(l) == LowWord(r) * q + m && m < LowWord(r)
  {
    QuotientRemainder(LowWord(l), LowWord(r), DivuW(l, r) % Pow2(32), RemuW(l, r) % Pow2(32));
  }

  lemma QuotientRemainder(a: nat, b: nat, q: nat, m: nat)
    requires b != 0 && q == a / b && m == a % b
    ensures a == b * q + m && m < b
  {
  }

  /** Each of DIVUW and REMUW is its 32-bit result sign-extended: read
      signed, the register equals its low word read signed. */
  lemma WUnsignedSextend(l: nat, r: nat)
    ensures Signed(64, DivuW(l, r)) == Signed(32, DivuW(l, r) % Pow2(32))
    ensures Signed(64, RemuW(l, r)) == Signed(32, RemuW(l, r) % Pow2(32))
  {
    SextSigned(Divu(32, LowWord(l), LowWord(r)));
    SextSigned(Remu(32, LowWord(l), LowWord(r)));
  }

  /** The 64-bit register reads, as a signed value, as the signed 32-bit
      result. */
  lemma WSigned(l: nat, r: nat)
    ensures Signed(64, DivW(l, r)) == Signed(32, Div(32, LowWord(l), LowWord(r)))
    ensures Signed(64, RemW(l, r)) == Signed(32, Rem(32, LowWord(l), LowWord(r)))
  {
    SextSigned(Div(32, LowWord(l), LowWord(r)));
    SextSigned(Rem(32, LowWord(l), LowWord(r)));
  }

  /** A zero low divisor word gives all ones for both quotients and the
      sign-extended low dividend word for both remainders. */
  lemma WZeroDivisor(l: nat, r: nat)
    requires LowWord(r) == 0
    ensures DivW(l, r) == Pow2(64) - 1 && DivuW(l, r) == Pow2(64) - 1
    ensures RemW(l, r) == SextWord(LowWord(l)) && RemuW(l, r) == SextWord(LowWord(l))
  {
    Pow2Mono(31, 63);
    SignedAllOnes(32);
    Pow2Add(32, 32);
    ModOnceNeg(-1, Pow2(64));
  }

  /** The all-ones word is -1. */
  lemma SignedAllOnes(w: nat)
    requires w >= 1
    ensures Signed(w, Pow2(w) - 1) == -1
  {
    assert Pow2(w) == 2 * Pow2(w - 1);
  }

  /** The upper 32 bits of the operands are ignored. */
  lemma WLowWordsOnly(l: nat, r: nat)
    ensures DivW(l, r) == DivW(LowWord(l), LowWord(r))
    ensures RemW(l, r) == RemW(LowWord(l), LowWord(r))
    ensures DivuW(l, r) == DivuW(LowWord(l), LowWord(r))
    ensures RemuW(l, r) == RemuW(LowWord(l), LowWord(r))
  {
    ModMod(l, Pow2(32), 1);
    ModMod(r, Pow2(32), 1);
  }

  /** Sign extension keeps the signed value. */
  lemma SextSigned(x: nat)
    requires IsWord(32, x)
    ensures Signed(64, SextWord(x)) == Signed(32, x)
  {
    Pow2Add(32, 32);
    Pow2Mono(31, 63);
    SignedOfUnsigned(64, Signed(32, x));
  }

  // ---------------------------------------------------------------------
  // Set less than
  // ---------------------------------------------------------------------

  /** RISCV64Compare and RISCV32Compare with IntCondLessSigned or
      IntCondLessUnsigned (slt, slti, sltu, sltiu) on w-bit registers: 1
      when lhs < rhs, read signed or unsigned, else 0. */
  function SetLessThan(w: nat, signed: bool, l: nat, r: nat): (x: nat)
    requires w >= 1 && IsWord(w, l) && IsWord(w, r)
    ensures x == 0 || x == 1
  {
    var less := if signed then Signed(w, l) < Signed(w, r) else l < r;
    if less then 1 else 0
  }

  /** Less-than is irreflexive and asymmetric, exactly one of two distinct
      operands is less than the other, and the signed and unsigned forms
      agree when both operands have the same sign. */
  lemma SetLessThanOrder(w: nat, signed: bool, l: nat, r: nat)
    requires w >= 1 && IsWord(w, l) && IsWord(w, r)
    ensures SetLessThan(w, signed, l, l) == 0
    ensures SetLessThan(w, signed, l, r) == 1 ==> SetLessThan(w, signed, r, l) == 0
    ensures l != r ==> SetLessThan(w, signed, l, r) + SetLessThan(w, signed, r, l) == 1
    ensures Negative(w, l) == Negative(w, r) ==> SetLessThan(w, true, l, r) == SetLessThan(w, false, l, r)
  {
    if l != r && signed {
      assert Signed(w, l) != Signed(w, r);
    }
  }

  // ---------------------------------------------------------------------
  // Branches
  // ---------------------------------------------------------------------

  /** A base plus a signed displacement, wrapped to w bits: the relative
      branch target (base = pc) and the address RISCV64Addr computes. */
  function AddDisp(w: nat, base: nat, disp: nat): (t: nat)
    requires w >= 1 && IsWord(w, base) && IsWord(w, disp)
    ensures IsWord(w, t)
  {
    Unsigned(w, base + Signed(w, disp))
  }

  /** Adding a displacement and then its negation returns to the base. */
  lemma AddDispInverse(w: nat, base: nat, disp: nat)
    requires w >= 1 && IsWord(w, base) && IsWord(w, disp)
    ensures AddDisp(w, AddDisp(w, base, disp), Unsigned(w, -Signed(w, disp))) == base
  {
    var s := Signed(w, disp);
    var k := NegWrap(w, s);
    var t, d2 := AddDisp(w, base, disp), Unsigned(w, -s);
    assert t == (base + s) % Pow2(w);
    assert AddDisp(w, t, d2) == (t + Signed(w, d2)) % Pow2(w);
    WrapCancel(base, s, Signed(w, d2), Pow2(w), k);
  }

  /** The negation of a signed value, wrapped and read back signed, is the
      negation up to a multiple of the modulus. */
  lemma NegWrap(w: nat, s: int) returns (k: int)
    requires w >= 1 && 0 <= s + Pow2(w - 1) && s < Pow2(w - 1)
    ensures Signed(w, Unsigned(w, -s)) == -s - Pow2(w) * k
  {
    var m := Pow2(w);
    var d2 := Unsigned(w, -s);
    var q := (-s) / m;
    var c := if d2 < Pow2(w - 1) then 0 else 1;
    assert Signed(w, d2) == d2 - m * c;
    assert d2 == -s - m * q;
    Distrib(m, q, c);
    k := q + c;
  }

  /** Adding s and then its negation (up to a multiple of m) returns to
      the base, modulo m. */
  lemma WrapCancel(base: nat, s: int, s2: int, m: nat, k: int)
    requires m >= 1 && base < m && s2 == -s - m * k
    ensures ((base + s) % m + s2) % m == base
  {
    WrapThenAdd(base + s, s2, m);
    assert base + s + s2 == base - m * k;
    ModSubMultiple(base, m, k);
    DivModUnique(base, m, 0, base);
  }

  /** Wrapping a summand first does not change the wrapped sum. */
  lemma WrapThenAdd(a: int, b: int, m: nat)
    requires m >= 1
    ensures (a % m + b) % m == (a + b) % m
  {
    assert a % m + b == (a + b) - m * (a / m);
    ModSubMultiple(a + b, m, a / m);
  }

  /** The jalr target of section 2.5 of the ISA: base plus displacement
      with the least significant bit cleared. RISCV32BranchAbsUncond
      computes it; RISCV64BranchAbsUncond omits the clearing (see
      JalrTargetAsWritten). */
  function JalrTarget(w: nat, base: nat, disp: nat): (t: nat)
    requires w >= 1 && IsWord(w, base) && IsWord(w, disp)
    ensures IsWord(w, t)
    ensures t % 2 == 0 && t <= AddDisp(w, base, disp) <= t + 1
  {
    var e := AddDisp(w, base, disp);
    DivModUnique(e - e % 2, 2, e / 2, 0);
    e - e % 2
  }

  /** The jalr target as RISCV64BranchAbsUncond computes it: base plus
      displacement, with bit 0 left as it is. */
  function JalrTargetAsWritten(base: nat, disp: nat): (t: nat)
    requires IsWord(64, base) && IsWord(64, disp)
    ensures IsWord(64, t)
  {
    AddDisp(64, base, disp)
  }

  /** An odd base register gives an odd target: jalr from 0x1001 with a
      zero offset jumps to 0x1001, where the ISA (and the RV32 helper)
      clears bit 0 and jumps to 0x1000. */
  lemma JalrOddTarget()
    ensures Pow2(64) > 0x1001
    ensures JalrTargetAsWritten(0x1001, 0) == 0x1001
    ensures JalrTarget(64, 0x1001, 0) == 0x1000
  {
    Pow2Of32And64();
    DivModUnique(0x1001, Pow2(64), 0, 0x1001);
  }

  /** The two targets differ exactly when the sum is odd. */
  lemma JalrTargetsAgree(base: nat, disp: nat)
    requires IsWord(64, base) && IsWord(64, disp)
    ensures JalrTarget(64, base, disp) == JalrTargetAsWritten(base, disp)
        <==> JalrTargetAsWritten(base, disp) % 2 == 0
  {
  }

  /** RISCV64BranchRelUncond: taken, to pc + disp. */
  method BranchRelUncond(s: BranchState, disp: nat)
    requires s.Valid() && IsWord(64, disp)
    modifies s
    ensures s.Valid() && s.taken && s.takenPC == AddDisp(64, s.pc, disp)
    ensures s.pc == old(s.pc) && s.dest == old(s.dest)
  {
    s.taken := true;
    s.takenPC := AddDisp(64, s.pc, disp);
  }

  /** RISCV64BranchRelCond: taken to pc + disp when the condition holds;
      otherwise only the taken pc is set, to pc + 4. */
  method BranchRelCond(s: BranchState, disp: nat, cond: bool)
    requires s.Valid() && IsWord(64, disp)
    modifies s
    ensures s.Valid() && s.takenPC == (if cond then AddDisp(64, s.pc, disp) else NextPC(s.pc))
    ensures s.taken == (cond || old(s.taken))
    ensures s.pc == old(s.pc) && s.dest == old(s.dest)
  {
    if cond {
      BranchRelUncond(s, disp);
    } else {
      s.takenPC := NextPC(s.pc);
    }
  }

  /** RISCV64CallRelUncond (jal): the return address pc + 4 goes to the
      destination, then the relative branch. */
  method CallRelUncond(s: BranchState, disp: nat)
    requires s.Valid() && IsWord(64, disp)
    modifies s
    ensures s.Valid() && s.taken && s.takenPC == AddDisp(64, s.pc, disp)
    ensures s.dest == NextPC(s.pc) && s.pc == old(s.pc)
  {
    var ret := NextPC(s.pc);
    BranchRelUncond(s, disp);
    s.dest := ret;
  }

  /** RISCV64BranchAbsUncond with the corrected target. */
  method BranchAbsUncond(s: BranchState, base: nat, disp: nat)
    requires s.Valid() && IsWord(64, base) && IsWord(64, disp)
    modifies s
    ensures s.Valid() && s.taken && s.takenPC == JalrTarget(64, base, disp)
    ensures s.pc == old(s.pc) && s.dest == old(s.dest)
  {
    s.taken := true;
    s.takenPC := JalrTarget(64, base, disp);
  }

  /** RISCV64CallAbsUncond (jalr): the return address pc + 4 goes to the
      destination, then the absolute branch. */
  method CallAbsUncond(s: BranchState, base: nat, disp: nat)
    requires s.Valid() && IsWord(64, base) && IsWord(64, disp)
    modifies s
    ensures s.Valid() && s.taken && s.takenPC == JalrTarget(64, base, disp)
    ensures s.dest == NextPC(s.pc) && s.pc == old(s.pc)
  {
    var ret := NextPC(s.pc);
    BranchAbsUncond(s, base, disp);
    s.dest := ret;
  }
}
