/** The Alpha-specific operation functors: unaligned address computation,
    sign extension of bytes and words, and the byte-manipulation group
    (ZAP/ZAPNOT, CMPBGE, EXTxL/EXTxH, INSxL/INSxH, MSKxL/MSKxH, the MVI
    pack/unpack, lane-wise minimum/maximum and pixel error).

    The byte-manipulation operations see a 64-bit register as its eight
    bytes, least significant first (a Quad); the byte offset they take
    from rhs is rhs & 7, and Type is 1, 2, 4 or 8 bytes wide. */
module AlphaOps {
  import opened Arith
  import opened Words
  import opened ShttlBitset

  type Byte = b: nat | b < 256

  type Quad = q: seq<Byte> | |q| == 8 witness [0, 0, 0, 0, 0, 0, 0, 0]

  const ZeroQuad: Quad := [0, 0, 0, 0, 0, 0, 0, 0]

  /** The byte offset the Ext/Ins/Msk operations take from rhs. */
  function ByteOffset(rhs: nat): (k: nat)
    ensures k < 8
  {
    rhs % 8
  }

  predicate TypeBytes(s: nat)
  {
    s == 1 || s == 2 || s == 4 || s == 8
  }

  // ---------------------------------------------------------------------
  // Addresses and sign extension
  // ---------------------------------------------------------------------

  /** Base plus signed displacement, in 64 bits: the same word as the
      plain unsigned sum wrapped, and the base itself when the displacement
      is zero. */
  function AlphaAddr(base: nat, disp: nat): (a: nat)
    requires IsWord(64, base) && IsWord(64, disp)
    ensures IsWord(64, a)
    ensures a == (base + disp) % Pow2(64)
    ensures disp == 0 ==> a == base
  {
    SignedDisplacementWraps(base, disp);
    Unsigned(64, base + Signed(64, disp))
  }

  lemma SignedDisplacementWraps(base: nat, disp: nat)
    requires IsWord(64, base) && IsWord(64, disp)
    ensures (base + Signed(64, disp)) % Pow2(64) == (base + disp) % Pow2(64)
    ensures disp == 0 ==> base % Pow2(64) == base
  {
    if disp >= Pow2(63) {
      ModSubMultiple(base + disp, Pow2(64), 1);
    }
    DivModUnique(base, Pow2(64), 0, base);
  }

  /** The LDQ_U/STQ_U address: the effective address with its low three
      bits cleared, the quadword that holds it. */
  function AlphaAddrUnaligned(base: nat, disp: nat): (a: nat)
    requires IsWord(64, base) && IsWord(64, disp)
    ensures IsWord(64, a)
    ensures a % 8 == 0 && a <= AlphaAddr(base, disp) < a + 8
  {
    var e := AlphaAddr(base, disp);
    DivModUnique(e - e % 8, 8, e / 8, 0);
    e - e % 8
  }

  /** Sign extension of the low `bits` bits to 64 bits (SEXTB: 8, SEXTW: 16). */
  function Sext(bits: nat, v: nat): (x: nat)
    requires 1 <= bits <= 64 && IsWord(64, v)
    ensures IsWord(64, x)
    ensures x % Pow2(bits) == v % Pow2(bits)
    ensures Signed(64, x) == Signed(bits, v % Pow2(bits))
  {
    var s := Signed(bits, v % Pow2(bits));
    Pow2Mono(bits - 1, 63);
    SignedOfUnsigned(64, s);
    SextLowBits(bits, v % Pow2(bits));
    Unsigned(64, s)
  }

  /** Wrapping the signed reading of a field into 64 bits keeps the field. */
  lemma SextLowBits(bits: nat, u: nat)
    requires 1 <= bits <= 64 && u < Pow2(bits)
    ensures Unsigned(64, Signed(bits, u)) % Pow2(bits) == u
  {
    var p := Pow2(bits);
    var s := Signed(bits, u);
    Pow2Add(bits, 64 - bits);
    ModMod(s, p, Pow2(64 - bits));
    if s == u {
      DivModUnique(s, p, 0, u);
    } else {
      DivModUnique(s, p, -1, u);
    }
  }

  // ---------------------------------------------------------------------
  // ZAP and ZAPNOT
  // ---------------------------------------------------------------------

  /** The low eight bits of the byte mask. */
  function MaskBits(mask: nat): (b: seq<bool>)
    ensures |b| == 8
  {
    ToBits(mask, 8)
  }

  /** The byte mask AlphaZapNotBitMask builds: byte i is 0xFF when mask
      bit i is clear and 0x00 when it is set. */
  function KeepBytes(mask: nat): (q: Quad)
  {
    seq(8, i requires 0 <= i < 8 => if MaskBits(mask)[i] then 0 else 0xFF)
  }

  /** The loop of AlphaZapNotBitMask: eight times, shift the result up a
      byte and put in the byte for mask bit 7 of the shifted mask. */
  method ZapNotBitMask(mask: nat) returns (r: Quad)
    ensures r == KeepBytes(mask)
  {
    var full := KeepBytes(mask);
    var m := MaskBits(mask);
    r := ZeroQuad;
    var i := 0;
    while i < 8
      invariant 0 <= i <= 8
      invariant m == ShiftedLeft(MaskBits(mask), i)
      invariant r == full[8 - i..] + ZeroQuad[..8 - i]
    {
      var b: Byte := if m[7] then 0 else 0xFF;
      assert m[7] == MaskBits(mask)[7 - i];
      var r2 := [b] + r[..7];
      PrependByte(full, r, r2, i);
      r := r2;
      ShiftedLeftTwice(MaskBits(mask), i);
      m := ShiftedLeft(m, 1);
      i := i + 1;
    }
  }

  /** One step of the mask loop: the next byte of the full mask enters at
      the bottom and the rest move up. */
  lemma PrependByte(full: Quad, r: Quad, r2: seq<Byte>, i: nat)
    requires i < 8 && r == full[8 - i..] + ZeroQuad[..8 - i]
    requires r2 == [full[7 - i]] + r[..7]
    ensures r2 == full[7 - i..] + ZeroQuad[..7 - i]
  {
  }

  lemma ShiftedLeftTwice(b: seq<bool>, i: nat)
    ensures ShiftedLeft(ShiftedLeft(b, i), 1) == ShiftedLeft(b, i + 1)
  {
  }

  /** ZAP: lhs with the bytes whose mask bit is set cleared. */
  function Zap(l: Quad, mask: nat): (x: Quad)
  {
    seq(8, i requires 0 <= i < 8 => if KeepBytes(mask)[i] == 0xFF then l[i] else 0)
  }

  /** ZAPNOT: lhs with the bytes whose mask bit is clear cleared. */
  function ZapNot(l: Quad, mask: nat): (x: Quad)
  {
    seq(8, i requires 0 <= i < 8 => if KeepBytes(mask)[i] == 0xFF then 0 else l[i])
  }

  /** ZAP and ZAPNOT with the same mask split lhs between them: every byte
      is kept by exactly one, ZAPNOT by the set mask bits. */
  lemma ZapSplit(l: Quad, mask: nat, i: nat)
    requires i < 8
    ensures Zap(l, mask)[i] + ZapNot(l, mask)[i] == l[i]
    ensures Zap(l, mask)[i] == 0 || ZapNot(l, mask)[i] == 0
    ensures ZapNot(l, mask)[i] == (if (mask / Pow2(i)) % 2 == 1 then l[i] else 0)
  {
    ToBitsAt(mask, 8, i);
    assert MaskBits(mask)[i] == ((mask / Pow2(i)) % 2 == 1);
    assert KeepBytes(mask)[i] == if MaskBits(mask)[i] then 0 else 0xFF;
  }

  // ---------------------------------------------------------------------
  // CMPBGE
  // ---------------------------------------------------------------------

  /** Bit i says whether byte i of lhs is at least byte i of rhs, unsigned. */
  function GeBits(l: Quad, r: Quad): (b: seq<bool>)
    ensures |b| == 8
  {
    seq(8, i requires 0 <= i < 8 => l[i] >= r[i])
  }

  /** The loop of AlphaCmpBge: per byte, set bit 8 when the byte compares
      greater or equal, then shift the whole result right by one. The
      result's bits 0..8 are held as a bit sequence. */
  method CmpBge(l: Quad, r: Quad) returns (x: nat)
    ensures x == Value(GeBits(l, r))
    ensures x < 256
  {
    var ge := GeBits(l, r);
    var bits := Filled(9, false);
    var i := 0;
    while i < 8
      invariant 0 <= i <= 8
      invariant bits == Filled(8 - i, false) + ge[..i] + [false]
    {
      ghost var before := bits;
      if l[i] >= r[i] {
        bits := bits[8 := true];
      }
      CmpBgeStep(before, bits, ge, i);
      bits := ShiftedRight(bits, 1);
      i := i + 1;
    }
    assert bits == ge + [false];
    AppendFalse(ge);
    Pow2Of8And16();
    x := Value(bits);
  }

  /** One round of the CMPBGE loop: the comparison of byte i enters at bit
      8, and the shift moves it down next to the earlier ones. */
  lemma CmpBgeStep(before: seq<bool>, after: seq<bool>, ge: seq<bool>, i: nat)
    requires i < 8 && |ge| == 8
    requires before == Filled(8 - i, false) + ge[..i] + [false]
    requires after == if ge[i] then before[8 := true] else before
    ensures ShiftedRight(after, 1) == Filled(8 - (i + 1), false) + ge[..i + 1] + [false]
  {
    var want := Filled(8 - (i + 1), false) + ge[..i + 1] + [false];
    forall k | 0 <= k < 9
      ensures ShiftedRight(after, 1)[k] == want[k]
    {
      if k < 7 - i {
      } else if k < 8 {
        assert want[k] == ge[k - (7 - i)];
        assert after[k + 1] == ge[k - (7 - i)];
      }
    }
  }

  /** Bit i of the CMPBGE result is set exactly when byte i of lhs is at
      least byte i of rhs. */
  lemma CmpBgeBit(l: Quad, r: Quad, i: nat)
    requires i < 8
    ensures (Value(GeBits(l, r)) / Pow2(i)) % 2 == 1 <==> l[i] >= r[i]
  {
    ToBitsOfValue(GeBits(l, r));
    ToBitsAt(Value(GeBits(l, r)), 8, i);
  }

  // ---------------------------------------------------------------------
  // Extract, insert and mask
  // ---------------------------------------------------------------------

  /** EXTxL: lhs shifted down by k bytes, truncated to Type. */
  function Extxl(s: nat, l: Quad, rhs: nat): (x: Quad)
    requires TypeBytes(s)
  {
    var k := ByteOffset(rhs);
    seq(8, j requires 0 <= j < 8 => if j < s && j + k < 8 then l[j + k] else 0)
  }

  /** EXTxH: lhs shifted up by 8 - k bytes (by 0 when k is 0, since the
      shift count is taken modulo 64), truncated to Type. */
  function Extxh(s: nat, l: Quad, rhs: nat): (x: Quad)
    requires TypeBytes(s)
  {
    var k := ByteOffset(rhs);
    seq(8, j requires 0 <= j < 8 =>
      if j < s && k == 0 then l[j]
      else if j < s && j + k >= 8 then l[j + k - 8]
      else 0)
  }

  /** INSxL: lhs truncated to Type and shifted up by k bytes. */
  function Insxl(s: nat, l: Quad, rhs: nat): (x: Quad)
    requires TypeBytes(s)
  {
    var k := ByteOffset(rhs);
    seq(8, j requires 0 <= j < 8 => if k <= j < k + s then l[j - k] else 0)
  }

  /** INSxH: the bytes of a Type-sized field at offset k that spill past
      byte 7, moved down to the bottom. */
  function Insxh(s: nat, l: Quad, rhs: nat): (x: Quad)
    requires TypeBytes(s)
  {
    var k := ByteOffset(rhs);
    seq(8, j requires 0 <= j < 8 => if j + 8 < k + s then l[j + 8 - k] else 0)
  }

  /** MSKxL: lhs with the Type-sized field at byte offset k cleared. */
  function Mskxl(s: nat, l: Quad, rhs: nat): (x: Quad)
    requires TypeBytes(s)
  {
    var k := ByteOffset(rhs);
    seq(8, j requires 0 <= j < 8 => if k <= j < k + s then 0 else l[j])
  }

  /** MSKxH: lhs with the bytes cleared that a field at offset k spills
      past byte 7. */
  function Mskxh(s: nat, l: Quad, rhs: nat): (x: Quad)
    requires TypeBytes(s)
  {
    var k := ByteOffset(rhs);
    seq(8, j requires 0 <= j < 8 => if j + 8 < k + s then 0 else l[j])
  }

  /** The unaligned-store idiom, low quadword: MSKxL clears exactly the
      bytes INSxL fills, so OR-ing them puts the field into the quadword
      at offset k and keeps every other byte. */
  lemma StoreLowQuad(s: nat, x: Quad, v: Quad, rhs: nat, j: nat)
    requires TypeBytes(s) && j < 8
    ensures Mskxl(s, x, rhs)[j] == 0 || Insxl(s, v, rhs)[j] == 0
    ensures var k := ByteOffset(rhs);
      Mskxl(s, x, rhs)[j] + Insxl(s, v, rhs)[j] == if k <= j < k + s then v[j - k] else x[j]
  {
  }

  /** The unaligned-store idiom, high quadword: MSKxH clears exactly the
      bytes INSxH fills with the spilled part of the field. */
  lemma StoreHighQuad(s: nat, x: Quad, v: Quad, rhs: nat, j: nat)
    requires TypeBytes(s) && j < 8
    ensures Mskxh(s, x, rhs)[j] == 0 || Insxh(s, v, rhs)[j] == 0
    ensures var k := ByteOffset(rhs);
      Mskxh(s, x, rhs)[j] + Insxh(s, v, rhs)[j] == if j + 8 < k + s then v[j + 8 - k] else x[j]
  {
  }

  /** Extracting at offset k what was inserted at offset k gives back the
      field when it fits in the quadword. */
  lemma ExtractInserted(s: nat, v: Quad, rhs: nat)
    requires TypeBytes(s) && ByteOffset(rhs) + s <= 8
    ensures Extxl(s, Insxl(s, v, rhs), rhs) == seq(8, j requires 0 <= j < 8 => if j < s then v[j] else 0)
  {
  }

  /** The unaligned-load idiom: for a field at a non-zero offset k, the
      bytes EXTxL takes from the low quadword and EXTxH from the high one
      are disjoint and together are the field's bytes of lo ++ hi. */
  lemma LoadAcrossQuads(s: nat, lo: Quad, hi: Quad, rhs: nat, j: nat)
    requires TypeBytes(s) && ByteOffset(rhs) != 0 && j < s
    ensures Extxl(s, lo, rhs)[j] == 0 || Extxh(s, hi, rhs)[j] == 0
    ensures Extxl(s, lo, rhs)[j] + Extxh(s, hi, rhs)[j] == (lo + hi)[j + ByteOffset(rhs)]
  {
  }

  /** At offset 0 EXTxH shifts by nothing and returns the low Type bytes
      of its operand; the load idiom then reads the same quadword twice. */
  lemma ExtxhAligned(s: nat, hi: Quad, rhs: nat)
    requires TypeBytes(s) && ByteOffset(rhs) == 0
    ensures Extxh(s, hi, rhs) == Extxl(s, hi, rhs)
  {
  }

  // ---------------------------------------------------------------------
  // MVI pack and unpack
  // ---------------------------------------------------------------------

  /** PKLB: byte 0 of each longword, packed into bytes 0 and 1. */
  function PackLongWords(q: Quad): (x: Quad)
  {
    [q[0], q[4], 0, 0, 0, 0, 0, 0]
  }

  /** PKWB: byte 0 of each word, packed into bytes 0..3. */
  function PackWords(q: Quad): (x: Quad)
  {
    [q[0], q[2], q[4], q[6], 0, 0, 0, 0]
  }

  /** UNPKBL: bytes 0 and 1 spread to the bottom of each longword. */
  function UnpackLongWords(q: Quad): (x: Quad)
  {
    [q[0], 0, 0, 0, q[1], 0, 0, 0]
  }

  /** UNPKBW: bytes 0..3 spread to the bottom of each word. */
  function UnpackWords(q: Quad): (x: Quad)
  {
    [q[0], 0, q[1], 0, q[2], 0, q[3], 0]
  }

  /** Packing undoes unpacking on the bytes unpacking reads. */
  lemma PackUnpack(q: Quad)
    ensures PackLongWords(UnpackLongWords(q)) == [q[0], q[1], 0, 0, 0, 0, 0, 0]
    ensures PackWords(UnpackWords(q)) == [q[0], q[1], q[2], q[3], 0, 0, 0, 0]
  {
  }

  /** Unpacking undoes packing when every lane already fits in its low
      byte. */
  lemma UnpackPack(q: Quad)
    requires q[1] == q[3] == q[5] == q[7] == 0
    ensures UnpackWords(PackWords(q)) == q
  {
  }

  // ---------------------------------------------------------------------
  // MVI lane-wise minimum and maximum
  // ---------------------------------------------------------------------

  predicate LaneBytes(vs: nat)
  {
    vs == 1 || vs == 2
  }

  /** The raw bits of lane i (vs bytes wide, little-endian). */
  function LaneRaw(q: Quad, vs: nat, i: nat): (u: nat)
    requires LaneBytes(vs) && i < 8 / vs
    ensures IsWord(8 * vs, u)
  {
    Pow2Of8And16();
    if vs == 1 then q[i] else
      var lo: nat, hi: nat := q[2 * i], q[2 * i + 1];
      lo + 256 * hi
  }

  lemma Pow2Of8And16()
    ensures Pow2(8) == 256 && Pow2(16) == 65536
  {
    assert Pow2(4) == 16;
    Pow2Add(4, 4);
    Pow2Add(8, 8);
  }

  /** The value of lane i: unsigned, or two's complement for the signed
      instantiations. */
  function LaneValue(q: Quad, vs: nat, signed: bool, i: nat): int
    requires LaneBytes(vs) && i < 8 / vs
  {
    if signed then Signed(8 * vs, LaneRaw(q, vs, i)) else LaneRaw(q, vs, i)
  }

  /** The lane-wise minimum (take_min) or maximum: each lane of the result
      is the lane of lhs when std::min/std::max returns its first argument,
      otherwise the lane of rhs. */
  function LaneSelect(vs: nat, signed: bool, takeMin: bool, l: Quad, r: Quad): (x: Quad)
    requires LaneBytes(vs)
  {
    seq(8, j requires 0 <= j < 8 => if FromLhs(vs, signed, takeMin, l, r, j / vs) then l[j] else r[j])
  }

  /** Whether std::min (or std::max) returns its first argument for lane i. */
  predicate FromLhs(vs: nat, signed: bool, takeMin: bool, l: Quad, r: Quad, i: nat)
    requires LaneBytes(vs) && i < 8 / vs
  {
    var a, b := LaneValue(l, vs, signed, i), LaneValue(r, vs, signed, i);
    if takeMin then !(b < a) else !(a < b)
  }

  /** The bytes of lane i are j with j / vs == i. */
  lemma LaneOfByte(vs: nat, i: nat, j: nat)
    requires LaneBytes(vs) && i * vs <= j < (i + 1) * vs
    ensures j / vs == i
  {
    if vs == 2 {
      DivModUnique(j, 2, i, j - 2 * i);
    }
  }

  /** The loop of AlphaVectorMin/AlphaVectorMax: lane by lane, the chosen
      lane's bytes are OR-ed into a zero result. */
  method VectorMinMax(vs: nat, signed: bool, takeMin: bool, l: Quad, r: Quad) returns (x: Quad)
    requires LaneBytes(vs)
    ensures x == LaneSelect(vs, signed, takeMin, l, r)
  {
    ghost var want := LaneSelect(vs, signed, takeMin, l, r);
    x := ZeroQuad;
    var i := 0;
    ghost var lo := 0;
    while i < 8 / vs
      invariant 0 <= i <= 8 / vs && lo == i * vs && lo <= 8
      invariant x[..lo] == want[..lo]
      invariant forall j :: lo <= j < 8 ==> x[j] == 0
    {
      var src := if FromLhs(vs, signed, takeMin, l, r, i) then l else r;
      var x2 := x;
      if vs == 1 {
        x2 := x[i := src[i]];
      } else {
        x2 := x[2 * i := src[2 * i]][2 * i + 1 := src[2 * i + 1]];
      }
      LaneStep(vs, signed, takeMin, l, r, i, x, x2);
      x := x2;
      i := i + 1;
      lo := lo + vs;
    }
    assert x == x[..8] && want == want[..8];
  }

  /** One iteration of the lane loop: writing lane i of the chosen operand
      extends the finished prefix by a lane. */
  lemma LaneStep(vs: nat, signed: bool, takeMin: bool, l: Quad, r: Quad, i: nat, x: Quad, x2: Quad)
    requires LaneBytes(vs) && i < 8 / vs
    requires x[..i * vs] == LaneSelect(vs, signed, takeMin, l, r)[..i * vs]
    requires forall j :: i * vs <= j < 8 ==> x[j] == 0
    requires var src := if FromLhs(vs, signed, takeMin, l, r, i) then l else r;
      if vs == 1 then x2 == x[i := src[i]]
      else x2 == x[2 * i := src[2 * i]][2 * i + 1 := src[2 * i + 1]]
    ensures (i + 1) * vs <= 8
    ensures x2[..(i + 1) * vs] == LaneSelect(vs, signed, takeMin, l, r)[..(i + 1) * vs]
    ensures forall j :: (i + 1) * vs <= j < 8 ==> x2[j] == 0
  {
    var want := LaneSelect(vs, signed, takeMin, l, r);
    if vs == 1 {
      assert forall j :: 0 <= j < i ==> x[j] == want[j] by {
        forall j | 0 <= j < i ensures x[j] == want[j] {
          assert x[..i][j] == want[..i][j];
        }
      }
    } else {
      assert (2 * i) / 2 == i && (2 * i + 1) / 2 == i;
      assert forall j :: 0 <= j < 2 * i ==> x[j] == want[j] by {
        forall j | 0 <= j < 2 * i ensures x[j] == want[j] {
          assert x[..2 * i][j] == want[..2 * i][j];
        }
      }
    }
  }

  /** Each lane of the selection is the minimum (or maximum) of the two
      lanes, read the same way. */
  lemma LaneSelectValue(vs: nat, signed: bool, takeMin: bool, l: Quad, r: Quad, i: nat)
    requires LaneBytes(vs) && i < 8 / vs
    ensures var a, b := LaneValue(l, vs, signed, i), LaneValue(r, vs, signed, i);
      LaneValue(LaneSelect(vs, signed, takeMin, l, r), vs, signed, i)
        == if takeMin then (if b < a then b else a) else (if a < b then b else a)
  {
    var x := LaneSelect(vs, signed, takeMin, l, r);
    if vs == 2 {
      assert (2 * i) / 2 == i && (2 * i + 1) / 2 == i;
    }
  }

  /** As written, the minimum (or maximum) m of lane i, a Type value
      promoted to int, is shifted left by the lane's bit offset as an int
      and converted to u64 before it is OR-ed into the result. Shifting an
      int by 32 or more is undefined, so this is defined only for the lanes
      below bit 32; there the shifted int keeps 32 bits and the conversion
      sign-extends it to 64. */
  function LaneContributionAsWritten(vs: nat, m: int, i: nat): (x: nat)
    requires LaneBytes(vs) && 8 * i * vs < 32
    ensures IsWord(64, x)
  {
    Unsigned(64, Signed(32, Unsigned(32, m * Pow2(8 * i * vs))))
  }

  /** The spill: a negative signed lane value below bit 32 sets every bit
      above its own lane, so it overwrites all the lanes above it. */
  lemma LaneSpills(vs: nat, m: int, i: nat)
    requires LaneBytes(vs) && 8 * i * vs < 32
    requires m < 0 && 0 <= m + Pow2(8 * vs - 1)
    ensures LaneContributionAsWritten(vs, m, i) >= Pow2(8 * (i + 1) * vs)
  {
    var s, t := 8 * i * vs, 8 * (i + 1) * vs;
    var h := 8 * vs - 1;
    assert t == s + h + 1 && s + h + 1 <= 32 by {
      if vs == 1 { assert i <= 3; } else { assert i <= 1; }
    }
    SpillBound(m, h, s);
    Pow2Mono(t, 32);
  }

  /** -2^h <= m < 0 shifted by s, with h + s < 32, wraps into 32 bits and
      back unchanged and then lands at least 2^64 - 2^31 in 64 bits. */
  lemma SpillBound(m: int, h: nat, s: nat)
    requires m < 0 && 0 <= m + Pow2(h) && h + s < 32
    ensures Unsigned(64, Signed(32, Unsigned(32, m * Pow2(s)))) >= Pow2(64) - Pow2(31)
    ensures Pow2(64) - Pow2(31) >= Pow2(32)
  {
    ShiftedNegative(m, h, s);
    NegativeIntToU64(m * Pow2(s));
    Pow2Gaps();
  }

  /** -2^h <= m < 0 times 2^s stays within the negative ints. */
  lemma ShiftedNegative(m: int, h: nat, s: nat)
    requires m < 0 && 0 <= m + Pow2(h) && h + s < 32
    ensures 0 <= m * Pow2(s) + Pow2(31) && m * Pow2(s) < 0
  {
    Pow2Add(h, s);
    Pow2Mono(h + s, 31);
    NegativeProductBound(m, Pow2(s), Pow2(h), Pow2(31));
  }

  lemma NegativeProductBound(m: int, p: nat, q: nat, r: nat)
    requires m < 0 && -m <= q && p >= 1 && q * p <= r
    ensures 0 <= m * p + r && m * p < 0
  {
    var n: nat := -m;
    MulMono(p, n, q);
    MulMono(p, 1, n);
    assert m * p == -(p * n);
  }

  /** A negative int converted to u64 is sign-extended: 2^64 + x. */
  lemma NegativeIntToU64(x: int)
    requires 0 <= x + Pow2(31) && x < 0
    ensures Unsigned(64, Signed(32, Unsigned(32, x))) == x + Pow2(64)
  {
    SignedOfUnsigned(32, x);
    Pow2Mono(31, 64);
    ModOnceNeg(x, Pow2(64));
  }

  lemma Pow2Gaps()
    ensures Pow2(64) - Pow2(31) >= Pow2(32)
  {
    Pow2Of32And64();
  }

  /** The case MINSB8 reaches: lane 0 of lhs is 0xFF (-1), everything else
      0; the lane minimum -1 then fills all 64 bits instead of lane 0. */
  lemma Lane0SpillExample()
    ensures LaneContributionAsWritten(1, -1, 0) == Pow2(64) - 1
    ensures LaneSelect(1, true, true, [0xFF, 0, 0, 0, 0, 0, 0, 0], ZeroQuad)
      == [0xFF, 0, 0, 0, 0, 0, 0, 0]
  {
    Pow2Of32And64();
    ModOnceNeg(-1, Pow2(32));
    ModOnceNeg(-1, Pow2(64));
    MinSb8Lane0();
  }

  /** The unsigned forms overflow too: MINUB8 with byte 3 of both operands
      0x80 and every other byte 0 has lane 3 = 0x80, but 0x80 shifted by 24
      overflows the int into its sign bit and, sign-extended, sets bits 31
      to 63 instead of bit 31 alone. */
  lemma Lane3OverflowExample()
    ensures LaneContributionAsWritten(1, 0x80, 3) == 0xFFFF_FFFF_8000_0000
    ensures LaneSelect(1, false, true, [0, 0, 0, 0x80, 0, 0, 0, 0], [0, 0, 0, 0x80, 0, 0, 0, 0])
      == [0, 0, 0, 0x80, 0, 0, 0, 0]
  {
    Pow2Of32And64();
    Pow2Add(7, 24);
    assert Pow2(7) == 0x80;
    var x := 0x80 * Pow2(24);
    assert x == 0x8000_0000;
    DivModUnique(x, Pow2(32), 0, x);
    ModOnceNeg(-0x8000_0000, Pow2(64));
  }

  /** MINSB8 of the example operands: lane 0 is min(-1, 0) = -1 taken from
      lhs, every other lane is 0. */
  lemma MinSb8Lane0()
    ensures LaneSelect(1, true, true, [0xFF, 0, 0, 0, 0, 0, 0, 0], ZeroQuad)
      == [0xFF, 0, 0, 0, 0, 0, 0, 0]
  {
    Pow2Of8And16();
    var l: Quad := [0xFF, 0, 0, 0, 0, 0, 0, 0];
    assert LaneValue(l, 1, true, 0) == -1;
  }

  // ---------------------------------------------------------------------
  // PERR
  // ---------------------------------------------------------------------

  function AbsDiff(a: nat, b: nat): nat
  {
    if a > b then a - b else b - a
  }

  /** The sum of the absolute differences of the first n bytes. */
  function SumAbsDiff(l: Quad, r: Quad, n: nat): (d: nat)
    requires n <= 8
    ensures d <= 255 * n
  {
    if n == 0 then 0 else SumAbsDiff(l, r, n - 1) + AbsDiff(l[n - 1], r[n - 1])
  }

  /** The loop of AlphaPixelError. */
  method PixelError(l: Quad, r: Quad) returns (e: nat)
    ensures e == SumAbsDiff(l, r, 8)
  {
    e := 0;
    var i := 0;
    while i < 8
      invariant 0 <= i <= 8 && e == SumAbsDiff(l, r, i)
    {
      var a, b := l[i], r[i];
      e := e + (if a > b then a - b else b - a);
      i := i + 1;
    }
  }

  /** The pixel error is symmetric and is zero exactly for equal operands. */
  lemma {:induction false} SumAbsDiffProps(l: Quad, r: Quad, n: nat)
    requires n <= 8
    ensures SumAbsDiff(l, r, n) == SumAbsDiff(r, l, n)
    ensures SumAbsDiff(l, r, n) == 0 <==> l[..n] == r[..n]
  {
    if n > 0 {
      SumAbsDiffProps(l, r, n - 1);
      assert l[..n] == l[..n - 1] + [l[n - 1]];
      assert r[..n] == r[..n - 1] + [r[n - 1]];
    }
  }
}
