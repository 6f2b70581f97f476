/** The Power-specific operation functors: condition-register flags, the
    rotate-and-mask masks, count leading zeros, the CR bit operations, the
    carry of an algebraic right shift, and the FPSCR updates (MTFSFI,
    MTFSF and the FEX/VX summary bits).

    Bit-level operations see a register as its bits, least significant
    first, so Power's MSB-0 bit k of an n-bit value is index n - 1 - k. */
module Ppc64Ops {
  import opened Arith
  import opened Words
  import opened ShttlBitset

  // ---------------------------------------------------------------------
  // Condition flags
  // ---------------------------------------------------------------------

  /** PPC64CalcFlag: the CR field for a comparison, 0x2 for equal, 0x4 for
      greater and 0x8 for less (the SO bit is left clear). */
  function CalcFlag(l: int, r: int): (f: nat)
    ensures f == 2 || f == 4 || f == 8
    ensures f == 2 <==> l == r
    ensures f == 4 <==> l > r
    ensures f == 8 <==> l < r
  {
    if l == r then 0x2
    else if l > r then 0x4
    else 0x8
  }

  /** Swapping the operands swaps "greater" and "less". */
  lemma CalcFlagSwap(l: int, r: int)
    ensures CalcFlag(r, l) == (if CalcFlag(l, r) == 4 then 8 else if CalcFlag(l, r) == 8 then 4 else 2)
  {
  }

  /** PPC64Compare: the operands are read as the Type the instruction
      names, two's complement for cmp/cmpi and unsigned for cmpl/cmpli. */
  function Compare(w: nat, signed: bool, l: nat, r: nat): (f: nat)
    requires w >= 1 && IsWord(w, l) && IsWord(w, r)
    ensures f == 2 || f == 4 || f == 8
    ensures f == 2 <==> l == r
    ensures f == 4 <==> (if signed then Signed(w, l) > Signed(w, r) else l > r)
    ensures f == 8 <==> (if signed then Signed(w, l) < Signed(w, r) else l < r)
  {
    if signed then CalcFlag(Signed(w, l), Signed(w, r)) else CalcFlag(l, r)
  }

  /** Signed and unsigned comparisons agree when the signs agree, and
      disagree on "greater"/"less" when exactly one operand is negative. */
  lemma CompareSignedUnsigned(w: nat, l: nat, r: nat)
    requires w >= 1 && IsWord(w, l) && IsWord(w, r)
    ensures Negative(w, l) == Negative(w, r) ==> Compare(w, true, l, r) == Compare(w, false, l, r)
    ensures Negative(w, l) && !Negative(w, r) ==>
      Compare(w, true, l, r) == 8 && Compare(w, false, l, r) == 4
  {
  }

  // ---------------------------------------------------------------------
  // Masks
  // ---------------------------------------------------------------------

  /** shttl::mask(p, w) seen in an n-bit register: bits p .. p + w - 1. */
  function FieldMask(n: nat, p: nat, w: nat): (m: seq<bool>)
    ensures |m| == n && forall i :: 0 <= i < n ==> m[i] == (p <= i < p + w)
  {
    seq(n, i requires 0 <= i < n => p <= i < p + w)
  }

  /** The mask is umax(w) << p as a number. */
  lemma {:induction false} FieldMaskValue(n: nat, p: nat, w: nat)
    requires p + w <= n
    ensures Value(FieldMask(n, p, w)) == (Pow2(w) - 1) * Pow2(p)
  {
    var m := FieldMask(n, p, w);
    if n == 0 {
      assert Pow2(w) - 1 == 0;
    } else if p > 0 {
      assert m[1..] == FieldMask(n - 1, p - 1, w);
      FieldMaskValue(n - 1, p - 1, w);
      var a, q := Pow2(w) - 1, Pow2(p - 1);
      assert Value(m) == 2 * (a * q);
      MulTwo(a, q);
      assert Pow2(p) == 2 * q;
    } else if w > 0 {
      assert m[1..] == FieldMask(n - 1, 0, w - 1);
      FieldMaskValue(n - 1, 0, w - 1);
      assert Value(m[1..]) == Pow2(w - 1) - 1;
      assert Value(m) == Pow2(w) - 1;
      assert Pow2(p) == 1;
    } else {
      ValueZero(m);
      assert Pow2(w) - 1 == 0;
    }
  }

  lemma MulTwo(a: int, q: int)
    ensures 2 * (a * q) == a * (2 * q)
  {
  }

  function And(a: seq<bool>, b: seq<bool>): (r: seq<bool>)
    requires |a| == |b|
    ensures |r| == |a| && forall i :: 0 <= i < |a| ==> r[i] == (a[i] && b[i])
  {
    seq(|a|, i requires 0 <= i < |a| => a[i] && b[i])
  }

  function Or(a: seq<bool>, b: seq<bool>): (r: seq<bool>)
    requires |a| == |b|
    ensures |r| == |a| && forall i :: 0 <= i < |a| ==> r[i] == (a[i] || b[i])
  {
    seq(|a|, i requires 0 <= i < |a| => a[i] || b[i])
  }

  /** Whether MSB-0 bit k lies in the rotate mask MB..ME: the bits from mb
      through me, wrapping around past the last bit when mb > me. */
  predicate InMaskRange(mb: nat, me: nat, k: nat)
  {
    if mb <= me then mb <= k <= me else k >= mb || k <= me
  }

  /** PPC64GenMask: for mb <= me, a run of me - mb + 1 ones shifted up to
      end at MSB-0 bit me; for mb > me, the complement of the run of
      mb - me - 1 ones that sits strictly between me and mb. */
  function GenMask(n: nat, mb: nat, me: nat): (m: seq<bool>)
    requires mb < n && me < n
    ensures |m| == n
  {
    if mb > me then Complemented(ShiftedLeft(FieldMask(n, 0, mb - me - 1), n - mb))
    else ShiftedLeft(FieldMask(n, 0, me - mb + 1), n - me - 1)
  }

  /** MSB-0 bit k of the mask is set exactly when k is in MB..ME, wrapping
      when mb > me. */
  lemma GenMaskBits(n: nat, mb: nat, me: nat, k: nat)
    requires mb < n && me < n && k < n
    ensures GenMask(n, mb, me)[n - 1 - k] == InMaskRange(mb, me, k)
  {
  }

  /** With mb == me + 1 the wrapped mask has every bit set. */
  lemma GenMaskFull(n: nat, me: nat)
    requires me + 1 < n
    ensures GenMask(n, me + 1, me) == Filled(n, true)
  {
    var g := GenMask(n, me + 1, me);
    forall i | 0 <= i < n
      ensures g[i]
    {
      GenMaskBits(n, me + 1, me, n - 1 - i);
    }
  }

  predicate TypeBits(n: nat)
  {
    n == 32 || n == 64
  }

  /** PPC64Mask (rlwinm, rldicl, rldicr): the source cast to Type, ANDed
      with the mask; mb and me are first masked to typeBits - 1. */
  function Mask(n: nat, src: seq<bool>, mb: nat, me: nat): (x: seq<bool>)
    requires TypeBits(n) && |src| >= n
    ensures |x| == n
  {
    And(src[..n], GenMask(n, mb % n, me % n))
  }

  /** The masked result keeps MSB-0 bit k of the source exactly when k is
      in the mask range, and clears every other bit. */
  lemma MaskBits(n: nat, src: seq<bool>, mb: nat, me: nat, k: nat)
    requires TypeBits(n) && |src| >= n && k < n
    ensures Mask(n, src, mb, me)[n - 1 - k] == (InMaskRange(mb % n, me % n, k) && src[n - 1 - k])
  {
    GenMaskBits(n, mb % n, me % n, k);
  }

  /** PPC64MaskInsert (rlwimi, rldimi): bits under the mask from src2, the
      others from src1. */
  function MaskInsert(n: nat, src1: seq<bool>, src2: seq<bool>, mb: nat, me: nat): (x: seq<bool>)
    requires TypeBits(n) && |src1| >= n && |src2| >= n
    ensures |x| == n
  {
    var m := GenMask(n, mb % n, me % n);
    Or(And(src2[..n], m), And(src1[..n], Complemented(m)))
  }

  /** Each bit of the insert comes from src2 inside the mask range and from
      src1 outside it. */
  lemma MaskInsertBits(n: nat, src1: seq<bool>, src2: seq<bool>, mb: nat, me: nat, k: nat)
    requires TypeBits(n) && |src1| >= n && |src2| >= n && k < n
    ensures MaskInsert(n, src1, src2, mb, me)[n - 1 - k]
      == if InMaskRange(mb % n, me % n, k) then src2[n - 1 - k] else src1[n - 1 - k]
  {
    GenMaskBits(n, mb % n, me % n, k);
  }

  /** Inserting under a mask and masking agree on the bits in the range;
      outside it the insert keeps src1 where the mask clears. */
  lemma MaskInsertAgreesWithMask(n: nat, src1: seq<bool>, src2: seq<bool>, mb: nat, me: nat)
    requires TypeBits(n) && |src1| >= n && |src2| >= n
    ensures Or(Mask(n, src2, mb, me), And(src1[..n], Complemented(GenMask(n, mb % n, me % n))))
      == MaskInsert(n, src1, src2, mb, me)
  {
  }

  // ---------------------------------------------------------------------
  // Count leading zeros
  // ---------------------------------------------------------------------

  /** The number of binary digits of v, 0 for 0. */
  function SignificantBits(v: nat): nat
  {
    if v == 0 then 0 else 1 + SignificantBits(v / 2)
  }

  /** v has SignificantBits(v) digits: it lies in [2^(s-1), 2^s). */
  lemma {:induction false} SignificantBitsBounds(v: nat)
    ensures v < Pow2(SignificantBits(v))
    ensures v > 0 ==> Pow2(SignificantBits(v) - 1) <= v
  {
    if v > 0 {
      SignificantBitsBounds(v / 2);
    }
  }

  /** A w-bit word has at most w digits. */
  lemma {:induction false} SignificantBitsAtMost(v: nat, w: nat)
    requires v < Pow2(w)
    ensures SignificantBits(v) <= w
  {
    if v > 0 {
      SignificantBitsAtMost(v / 2, w - 1);
    }
  }

  /** PPC64Cntlz (cntlzw, cntlzd): start from the width and count down
      once per right shift until the value is zero. */
  method Cntlz(w: nat, src: nat) returns (lz: nat)
    ensures lz + SignificantBits(src % Pow2(w)) == w
  {
    var value: nat := src % Pow2(w);
    SignificantBitsAtMost(value, w);
    ghost var v := value;
    lz := w;
    while value != 0
      invariant lz + SignificantBits(v) == w + SignificantBits(value)
      invariant SignificantBits(v) <= w
      decreases value
    {
      assert SignificantBits(value) >= 1;
      lz := lz - 1;
      value := value / 2;
    }
  }

  /** The count is the width exactly for zero, and otherwise the top set
      bit of the word is MSB-0 bit lz. */
  lemma CntlzMeaning(w: nat, v: nat, lz: nat)
    requires IsWord(w, v) && lz + SignificantBits(v) == w
    ensures lz == w <==> v == 0
    ensures v > 0 ==> lz < w && Pow2(w - 1 - lz) <= v < Pow2(w - lz)
  {
    SignificantBitsBounds(v);
    if v > 0 {
      assert SignificantBits(v) >= 1;
    }
  }

  // ---------------------------------------------------------------------
  // Condition-register bits
  // ---------------------------------------------------------------------

  /** PPC64CRBit: MSB-0 bit `bit` of a four-bit CR field, as 0 or 1. */
  function CRBit(cr: seq<bool>, bit: nat): (b: nat)
    requires bit < 4 && |cr| >= 4
    ensures b <= 1
  {
    if cr[3 - bit] then 1 else 0
  }

  /** The CR field of a comparison reads LT, GT, EQ, SO in MSB-0 bits
      0..3. */
  lemma CalcFlagCRBits(l: int, r: int)
    ensures CRBit(ToBits(CalcFlag(l, r), 64), 0) == 1 <==> l < r
    ensures CRBit(ToBits(CalcFlag(l, r), 64), 1) == 1 <==> l > r
    ensures CRBit(ToBits(CalcFlag(l, r), 64), 2) == 1 <==> l == r
    ensures CRBit(ToBits(CalcFlag(l, r), 64), 3) == 0
  {
    var f := CalcFlag(l, r);
    ToBitsAt(f, 64, 0);
    ToBitsAt(f, 64, 1);
    ToBitsAt(f, 64, 2);
    ToBitsAt(f, 64, 3);
    assert Pow2(1) == 2 && Pow2(2) == 4 && Pow2(3) == 8;
  }

  /** PPC64SetCRBit: set or reset MSB-0 bit i of the field, keep the rest. */
  function SetCRBit(cr: seq<bool>, i: nat, x: bool): (r: seq<bool>)
    requires i < 4 && |cr| >= 4
    ensures |r| == |cr|
  {
    cr[3 - i := x]
  }

  /** Reading back a set bit gives the value written; other bits keep
      theirs. */
  lemma SetCRBitThenRead(cr: seq<bool>, i: nat, x: bool, j: nat)
    requires i < 4 && j < 4 && |cr| >= 4
    ensures CRBit(SetCRBit(cr, i, x), j) == if i == j then (if x then 1 else 0) else CRBit(cr, j)
    ensures forall k :: 4 <= k < |cr| ==> SetCRBit(cr, i, x)[k] == cr[k]
  {
  }

  /** The eight CR logical operations. */
  datatype CROp = CRAnd | CRNand | CROr | CRNor | CRXor | CREqv | CRAndC | CROrC

  /** PPC64CRAnd .. PPC64CROrC as written: crandc computes the same
      expression as crorc, a | !b. */
  function CRLogicAsWritten(op: CROp, a: bool, b: bool): (x: bool)
  {
    match op
    case CRAnd => a && b
    case CRNand => !(a && b)
    case CROr => a || b
    case CRNor => !(a || b)
    case CRXor => a != b
    case CREqv => a == b
    case CRAndC => a || !b
    case CROrC => a || !b
  }

  /** As written, crandc and crorc are the same operation; with both CR
      bits clear, crandc yields 1 where a & !b is 0. */
  lemma CRAndCAsWrittenIsOrC(a: bool, b: bool)
    ensures CRLogicAsWritten(CRAndC, a, b) == CRLogicAsWritten(CROrC, a, b)
    ensures CRLogicAsWritten(CRAndC, false, false) && !(false && !false)
  {
  }

  /** The CR logical operations with crandc as a & !b. */
  function CRLogic(op: CROp, a: bool, b: bool): (x: bool)
    ensures op != CRAndC ==> x == CRLogicAsWritten(op, a, b)
  {
    match op
    case CRAnd => a && b
    case CRNand => !(a && b)
    case CROr => a || b
    case CRNor => !(a || b)
    case CRXor => a != b
    case CREqv => a == b
    case CRAndC => a && !b
    case CROrC => a || !b
  }

  /** The negated forms are the complements of the plain ones, the "C"
      forms complement the second operand, and crandc is the De Morgan
      dual of crorc. The as-written crandc breaks the last identity. */
  lemma CRLogicDuals(a: bool, b: bool)
    ensures CRLogic(CRNand, a, b) == !CRLogic(CRAnd, a, b)
    ensures CRLogic(CRNor, a, b) == !CRLogic(CROr, a, b)
    ensures CRLogic(CREqv, a, b) == !CRLogic(CRXor, a, b)
    ensures CRLogic(CRAndC, a, b) == CRLogic(CRAnd, a, !b)
    ensures CRLogic(CROrC, a, b) == CRLogic(CROr, a, !b)
    ensures CRLogic(CRAndC, a, b) == !CRLogic(CROrC, !a, !b)
    ensures CRLogicAsWritten(CRAndC, false, false) != !CRLogicAsWritten(CROrC, true, true)
  {
  }

  /** The whole CR logical instruction: combine two CR bits and write the
      result into bit i of the destination field. */
  function CRLogicalOp(op: CROp, org: seq<bool>, i: nat, cr1: seq<bool>, i1: nat, cr2: seq<bool>, i2: nat): (r: seq<bool>)
    requires i < 4 && i1 < 4 && i2 < 4 && |org| >= 4 && |cr1| >= 4 && |cr2| >= 4
    ensures |r| == |org|
    ensures CRBit(r, i) == 1 <==> CRLogic(op, CRBit(cr1, i1) == 1, CRBit(cr2, i2) == 1)
    ensures forall j :: 0 <= j < |org| && j != 3 - i ==> r[j] == org[j]
  {
    SetCRBit(org, i, CRLogic(op, CRBit(cr1, i1) == 1, CRBit(cr2, i2) == 1))
  }

  // ---------------------------------------------------------------------
  // Carry of an algebraic right shift
  // ---------------------------------------------------------------------

  /** PPC64CarryOfAShiftR (sraw, srawi, srad, sradi): 1 when the value is
      negative and a 1 is shifted out; the count is masked with
      count_mask = 2^k - 1 and clamped to the width. */
  function CarryOfAShiftR(w: nat, k: nat, v: nat, c: nat): (x: nat)
    requires w >= 1 && IsWord(w, v)
    ensures x <= 1
  {
    var n := c % Pow2(k);
    var n' := if n < w then n else w;
    if Negative(w, v) && v % Pow2(n') != 0 then 1 else 0
  }

  /** The carry is set exactly when the signed value is negative and not a
      multiple of 2^n, that is when the floor division by 2^n that the
      shift performs is inexact. */
  lemma CarryOfAShiftRMeaning(w: nat, k: nat, v: nat, c: nat)
    requires w >= 1 && IsWord(w, v)
    ensures var n := c % Pow2(k);
      var d := Pow2(if n < w then n else w);
      CarryOfAShiftR(w, k, v, c) == 1 <==>
        Signed(w, v) < 0 && (Signed(w, v) / d) * d != Signed(w, v)
  {
    var n := c % Pow2(k);
    var n' := if n < w then n else w;
    var d := Pow2(n');
    var s := Signed(w, v);
    Pow2Add(n', w - n');
    if Negative(w, v) {
      ModSubMultiple(v, d, Pow2(w - n'));
    }
    ExactDiv(s, d);
  }

  // ---------------------------------------------------------------------
  // FPSCR
  // ---------------------------------------------------------------------

  /** PPC64AdjustFPSCR: clear FEX and VX (the AND with 0x9fffffff also
      clears bits 32..63), then set FEX (bit 30) when any enabled-exception
      bit 7..11 (0xf80) is set and VX (bit 29) when any invalid-operation
      bit 12..14, 23 or 24 (0x01807000) is set. */
  function AdjustFPSCR(fpscr: seq<bool>): (r: seq<bool>)
    requires |fpscr| == 64
    ensures |r| == 64
  {
    var f := And(fpscr, AdjustKeep());
    var f1 := if AnySet(And(f, FieldMask(64, 7, 5))) then Or(f, FieldMask(64, 30, 1)) else f;
    if AnySet(And(f, VxSources())) then Or(f1, FieldMask(64, 29, 1)) else f1
  }

  /** 0x9fffffff: bits 0..28 and 31. */
  function AdjustKeep(): (m: seq<bool>)
    ensures |m| == 64 && forall i :: 0 <= i < 64 ==> m[i] == (i < 29 || i == 31)
  {
    Or(FieldMask(64, 0, 29), FieldMask(64, 31, 1))
  }

  /** 0x01807000: bits 12..14, 23 and 24. */
  function VxSources(): (m: seq<bool>)
    ensures |m| == 64 && forall i :: 0 <= i < 64 ==> m[i] == (12 <= i < 15 || 23 <= i < 25)
  {
    Or(FieldMask(64, 12, 3), FieldMask(64, 23, 2))
  }

  /** `x != 0` for a register value. */
  predicate AnySet(b: seq<bool>)
  {
    exists i :: 0 <= i < |b| && b[i]
  }

  /** `(b & m) != 0` holds when some bit is set in both. */
  lemma AnySetOfAnd(b: seq<bool>, m: seq<bool>)
    requires |b| == |m|
    ensures AnySet(And(b, m)) <==> exists i :: 0 <= i < |b| && b[i] && m[i]
  {
    if exists i :: 0 <= i < |b| && b[i] && m[i] {
      var i :| 0 <= i < |b| && b[i] && m[i];
      assert And(b, m)[i];
    }
  }

  /** An enabled exception is summarised: one of bits 7..11 is set. */
  predicate FexSources(fpscr: seq<bool>)
  {
    exists i :: 7 <= i < 12 && i < |fpscr| && fpscr[i]
  }

  /** An invalid-operation exception is summarised: one of bits 12..14, 23
      or 24 is set. */
  predicate VxSourcesSet(fpscr: seq<bool>)
  {
    exists i :: 12 <= i < 25 && (i < 15 || 23 <= i) && i < |fpscr| && fpscr[i]
  }

  /** FEX and VX are recomputed from the sticky bits. */
  lemma AdjustFPSCRSummary(fpscr: seq<bool>)
    requires |fpscr| == 64
    ensures AdjustFPSCR(fpscr)[30] <==> FexSources(fpscr)
    ensures AdjustFPSCR(fpscr)[29] <==> VxSourcesSet(fpscr)
  {
    var f := And(fpscr, AdjustKeep());
    AnySetOfAnd(f, FieldMask(64, 7, 5));
    AnySetOfAnd(f, VxSources());
    if FexSources(fpscr) {
      var i :| 7 <= i < 12 && i < |fpscr| && fpscr[i];
      assert f[i] && FieldMask(64, 7, 5)[i];
    }
    if VxSourcesSet(fpscr) {
      var i :| 12 <= i < 25 && (i < 15 || 23 <= i) && i < |fpscr| && fpscr[i];
      assert f[i] && VxSources()[i];
    }
  }

  /** The upper word is cleared and the other bits of the low word are
      kept. */
  lemma AdjustFPSCRKeeps(fpscr: seq<bool>)
    requires |fpscr| == 64
    ensures forall i :: 32 <= i < 64 ==> !AdjustFPSCR(fpscr)[i]
    ensures forall i :: 0 <= i < 29 || i == 31 ==> AdjustFPSCR(fpscr)[i] == fpscr[i]
  {
  }

  /** Adjusting twice is adjusting once. */
  lemma AdjustFPSCRIdempotent(fpscr: seq<bool>)
    requires |fpscr| == 64
    ensures AdjustFPSCR(AdjustFPSCR(fpscr)) == AdjustFPSCR(fpscr)
  {
    var r := AdjustFPSCR(fpscr);
    AdjustFPSCRSummary(fpscr);
    AdjustFPSCRSummary(r);
    AdjustFPSCRKeeps(fpscr);
    AdjustFPSCRKeeps(r);
    assert FexSources(r) == FexSources(fpscr) by {
      if FexSources(fpscr) {
        var i :| 7 <= i < 12 && i < |fpscr| && fpscr[i];
        assert r[i];
      }
      if FexSources(r) {
        var i :| 7 <= i < 12 && i < |r| && r[i];
        assert fpscr[i];
      }
    }
    assert VxSourcesSet(r) == VxSourcesSet(fpscr) by {
      if VxSourcesSet(fpscr) {
        var i :| 12 <= i < 25 && (i < 15 || 23 <= i) && i < |fpscr| && fpscr[i];
        assert r[i];
      }
      if VxSourcesSet(r) {
        var i :| 12 <= i < 25 && (i < 15 || 23 <= i) && i < |r| && r[i];
        assert fpscr[i];
      }
    }
    var r2 := AdjustFPSCR(r);
    forall i | 0 <= i < 64
      ensures r2[i] == r[i]
    {
      if i == 29 || i == 30 {
      } else if i < 32 {
      } else {
      }
    }
  }

  /** PPC64MTFSFI: replace the four bits of field `field` (MSB-0 numbering
      of the 32-bit FPSCR, so bit position 4 * (7 - field)) with the low
      four bits of the immediate. */
  function MTFSFI(fpscr: seq<bool>, field: nat, imm: nat): (r: seq<bool>)
    requires |fpscr| == 64 && field < 8
    ensures |r| == 64
  {
    var pos := 4 * (7 - field);
    var value := And(ToBits(imm, 64), FieldMask(64, 0, 4));
    Or(And(fpscr, Complemented(FieldMask(64, pos, 4))), ShiftedLeft(value, pos))
  }

  /** Only the selected nibble changes, and it becomes the immediate. */
  lemma MTFSFINibble(fpscr: seq<bool>, field: nat, imm: nat, i: nat)
    requires |fpscr| == 64 && field < 8 && i < 64
    ensures var pos := 4 * (7 - field);
      MTFSFI(fpscr, field, imm)[i]
        == if pos <= i < pos + 4 then ToBits(imm, 64)[i - pos] else fpscr[i]
  {
  }

  /** The bits covered by the FPSCR fields the 8-bit field mask selects:
      field mask bit j selects bits 4j .. 4j + 3. */
  function SelectedFields(fm: nat): (m: seq<bool>)
    ensures |m| == 64
  {
    seq(64, i requires 0 <= i < 64 => i < 32 && ToBits(fm, 8)[i / 4])
  }

  /** The loop of PPC64MTFSF that builds the field mask, before it is
      complemented. */
  method MTFSFMask(fm: nat) returns (mask: seq<bool>)
    ensures mask == SelectedFields(fm)
  {
    mask := Filled(64, false);
    var i := 0;
    while i < 8
      invariant 0 <= i <= 8 && |mask| == 64
      invariant forall j :: 0 <= j < 64 ==> mask[j] == (j < 4 * i && ToBits(fm, 8)[j / 4])
    {
      if ToBits(fm, 8)[i] {
        mask := Or(mask, FieldMask(64, 4 * i, 4));
      }
      i := i + 1;
    }
  }

  /** PPC64MTFSF as written: the unselected fields are cleared from the
      old FPSCR, but all 32 low bits of the source are ORed in, so bits of
      unselected fields can be set too. */
  function MTFSFAsWritten(fpscr: seq<bool>, fm: nat, src: seq<bool>): (r: seq<bool>)
    requires |fpscr| == 64 && |src| == 64
    ensures |r| == 64
  {
    Or(And(fpscr, Complemented(SelectedFields(fm))), And(src, FieldMask(64, 0, 32)))
  }

  /** With no field selected and source bit 0 set, the as-written result
      sets bit 0 of a clear FPSCR, which mtfsf must leave unchanged. */
  lemma MTFSFAsWrittenLeaks()
    ensures MTFSFAsWritten(Filled(64, false), 0, [true] + Filled(63, false))[0]
    ensures MTFSF(Filled(64, false), 0, [true] + Filled(63, false)) == Filled(64, false)
  {
    assert ToBits(0, 8)[0] == false;
  }

  /** MTFSF: the selected fields from the source, the rest from the old
      FPSCR. */
  function MTFSF(fpscr: seq<bool>, fm: nat, src: seq<bool>): (r: seq<bool>)
    requires |fpscr| == 64 && |src| == 64
    ensures |r| == 64
  {
    var m := SelectedFields(fm);
    Or(And(fpscr, Complemented(m)), And(src, m))
  }

  /** Each bit of the result comes from the source exactly when its field
      is selected; with all eight fields selected the low word is the
      source's and the as-written form agrees. */
  lemma MTFSFFields(fpscr: seq<bool>, fm: nat, src: seq<bool>)
    requires |fpscr| == 64 && |src| == 64
    ensures forall i :: 0 <= i < 64 ==>
      MTFSF(fpscr, fm, src)[i] == if i < 32 && ToBits(fm, 8)[i / 4] then src[i] else fpscr[i]
    ensures fm % 256 == 255 ==> MTFSFAsWritten(fpscr, fm, src) == MTFSF(fpscr, fm, src)
  {
    if fm % 256 == 255 {
      ValueOfToBits(fm, 8);
      assert Pow2(8) == 256 by {
        assert Pow2(4) == 16;
        Pow2Add(4, 4);
      }
      ValueAllOnesBack(ToBits(fm, 8));
    }
  }

  /** A bit sequence whose value is all ones has every bit set. */
  lemma {:induction false} ValueAllOnesBack(b: seq<bool>)
    requires Value(b) == Pow2(|b|) - 1
    ensures forall i :: 0 <= i < |b| ==> b[i]
  {
    if b != [] {
      assert Value(b[1..]) < Pow2(|b| - 1);
      ValueAllOnesBack(b[1..]);
      assert forall i :: 1 <= i < |b| ==> b[i] == b[1..][i - 1];
    }
  }
}
