/** The RV64 instruction decoder: the major opcode selects a format, and the
    register numbers and immediates of that format are written into the
    decoded instruction (immediate encodings of section 2.3 of the RISC-V
    Unprivileged ISA 20191213; compressed forms of its chapter 16). Register
    numbers are offset by 32 for floating-point registers and by 65 for
    control registers; -1 marks an unused register slot. */
module Riscv64Decoder {
  import opened DecoderUtil

  const OP_IMM: int := 0x13
  const OP_INT: int := 0x33
  const OP_LUI: int := 0x37
  const OP_AUIPC: int := 0x17
  const OP_JAL: int := 0x6f
  const OP_JALR: int := 0x67
  const OP_BR: int := 0x63
  const OP_LD: int := 0x03
  const OP_ST: int := 0x23
  const OP_ECALL: int := 0x73
  const OP_IMMW: int := 0x1b
  const OP_INTW: int := 0x3b
  const OP_FLD: int := 0x07
  const OP_FST: int := 0x27
  const OP_FMADD: int := 0x43
  const OP_FMSUB: int := 0x47
  const OP_FNMSUB: int := 0x4b
  const OP_FNMADD: int := 0x4f
  const OP_FLOAT: int := 0x53

  const FP_OFFSET: int := 32
  const CSR_OFFSET: int := 65

  /** Every major opcode of a 32-bit instruction ends in binary 11; the
      compressed forms are exactly the words whose low two bits are not. */
  predicate IsMajor(op: int)
  {
    op in {OP_IMM, OP_INT, OP_LUI, OP_AUIPC, OP_JAL, OP_JALR, OP_BR, OP_LD, OP_ST,
           OP_ECALL, OP_IMMW, OP_INTW, OP_FLD, OP_FST, OP_FMADD, OP_FMSUB,
           OP_FNMSUB, OP_FNMADD, OP_FLOAT}
  }

  lemma MajorOpcodesEndIn11(op: int)
    ensures IsMajor(op) ==> op % 4 == 3
  {
  }

  /** The major opcode, bits 0-6. */
  function Opcode(cw: bv32): (op: int)
    ensures 0 <= op < 128
  {
    (cw & 0x7f) as bv7 as int
  }

  predicate IsCompressed(cw: bv32)
  {
    cw & 3 != 3
  }

  // ---------------------------------------------------------------------
  // Fields of the 32-bit formats
  // ---------------------------------------------------------------------

  function W(cw: bv32): bv64
  {
    cw as bv64
  }

  /** A 5-bit register field: integer register 0-31. */
  function Rd(cw: bv32): (r: int)
    ensures 0 <= r < 32
  {
    (cw as int / 128) % 32
  }

  function Rs1(cw: bv32): (r: int)
    ensures 0 <= r < 32
  {
    (cw as int / 32768) % 32
  }

  function Rs2(cw: bv32): (r: int)
    ensures 0 <= r < 32
  {
    (cw as int / 1048576) % 32
  }

  function Rs3(cw: bv32): (r: int)
    ensures 0 <= r < 32
  {
    (cw as int / 134217728) % 32
  }

  function Funct3(cw: bv32): (f: int)
    ensures 0 <= f < 8
  {
    (cw as int / 4096) % 8
  }

  /** Bits 26-31, which tell the FP/integer moves from the other
      floating-point operations. */
  function FloatFunct(cw: bv32): (f: int)
    ensures 0 <= f < 64
  {
    (cw as int / 67108864) % 64
  }

  /** I-type: bits 20-31 sign-extended from 12 bits. */
  function IImm(cw: bv32): bv64
  {
    ExtractSext(W(cw), 20, 12)
  }

  /** U-type (LUI, AUIPC): bits 12-31, sign-extended from 20 bits. */
  function UImm(cw: bv32): bv64
  {
    ExtractSext(W(cw), 12, 20)
  }

  /** J-type: imm[10:1] at 21-30, imm[11] at 20, imm[19:12] at 12-19 and
      imm[20] at 31, sign-extended from 20 bits and shifted left one. */
  function JImm(cw: bv32): bv64
  {
    var c := W(cw);
    var imm := ExtractBits(c, 21, 10) | (ExtractBits(c, 20, 1) << 10)
             | (ExtractBits(c, 12, 8) << 11) | (ExtractBits(c, 31, 1) << 19);
    (ExtractSext(imm, 0, 20) << 1)
  }

  /** B-type: imm[4:1] at 8-11, imm[10:5] at 25-30, imm[11] at 7 and
      imm[12] at 31, sign-extended from 12 bits and shifted left one. */
  function BImm(cw: bv32): bv64
  {
    var c := W(cw);
    var imm := ExtractBits(c, 8, 4) | (ExtractBits(c, 25, 6) << 4)
             | (ExtractBits(c, 7, 1) << 10) | (ExtractBits(c, 31, 1) << 11);
    (ExtractSext(imm, 0, 12) << 1)
  }

  /** S-type: imm[4:0] at 7-11 and imm[11:5] at 25-31, sign-extended. */
  function SImm(cw: bv32): bv64
  {
    var c := W(cw);
    var imm := ExtractBits(c, 7, 5) | (ExtractBits(c, 25, 7) << 5);
    ExtractSext(imm, 0, 12)
  }

  /** The csr field as the decoder reads it: twelve bits from bit 25, of
      which only seven exist in a 32-bit code word. */
  function CsrFieldAsWritten(cw: bv32): bv64
  {
    ExtractBits(W(cw), 25, 12)
  }

  /** The csr field, bits 20-31. */
  function CsrField(cw: bv32): bv64
  {
    ExtractBits(W(cw), 20, 12)
  }

  function CsrRegAsWritten(cw: bv32): (r: int)
    ensures CSR_OFFSET <= r < CSR_OFFSET + 4096
  {
    CsrFieldAsWritten(cw) as bv12 as int + CSR_OFFSET
  }

  /** The control register number: the csr field plus the offset. */
  function CsrReg(cw: bv32): (r: int)
    ensures CSR_OFFSET <= r < CSR_OFFSET + 4096
  {
    CsrField(cw) as bv12 as int + CSR_OFFSET
  }

  /** The 5-bit immediate of csrrwi/csrrsi/csrrci as the decoder reads it:
      sign-extended. */
  function ZimmAsWritten(cw: bv32): bv64
  {
    ExtractSext(W(cw), 15, 5)
  }

  /** The zimm field of chapter 9: zero-extended. */
  function Zimm(cw: bv32): bv64
  {
    ExtractBits(W(cw), 15, 5)
  }

  // ---------------------------------------------------------------------
  // Properties of the 32-bit immediates
  // ---------------------------------------------------------------------

  /** The sign of a code word: 0 or all ones above a given bit. */
  function SignFill(cw: bv32, ones: bv64): bv64
  {
    if cw >> 31 == 0 then 0 else ones
  }

  /** The I-type immediate is bits 20-31 with bit 31 copied into bits
      12-63. */
  lemma IImmShape(cw: bv32)
    ensures IImm(cw) & 0xFFF == ((cw >> 20) & 0xFFF) as bv64
    ensures IImm(cw) >> 11 == SignFill(cw, 0x1F_FFFF_FFFF_FFFF)
  {
  }

  /** The U-type immediate is bits 12-31 with bit 31 copied into bits
      20-63. */
  lemma UImmShape(cw: bv32)
    ensures UImm(cw) & 0xF_FFFF == ((cw >> 12) & 0xF_FFFF) as bv64
    ensures UImm(cw) >> 19 == SignFill(cw, 0x1FFF_FFFF_FFFF)
  {
  }

  /** The J-type immediate is even, puts each of its four fields in place
      and copies bit 31 of the code word into bits 20-63. */
  lemma JImmShape(cw: bv32)
    ensures JImm(cw) & 1 == 0
    ensures (JImm(cw) >> 1) & 0x3FF == ((cw >> 21) & 0x3FF) as bv64
    ensures (JImm(cw) >> 11) & 1 == ((cw >> 20) & 1) as bv64
    ensures (JImm(cw) >> 12) & 0xFF == ((cw >> 12) & 0xFF) as bv64
    ensures JImm(cw) >> 20 == SignFill(cw, 0xFFF_FFFF_FFFF)
  {
  }

  /** The B-type immediate is even, puts each of its four fields in place
      and copies bit 31 into bits 12-63. */
  lemma BImmShape(cw: bv32)
    ensures BImm(cw) & 1 == 0
    ensures (BImm(cw) >> 1) & 0xF == ((cw >> 8) & 0xF) as bv64
    ensures (BImm(cw) >> 5) & 0x3F == ((cw >> 25) & 0x3F) as bv64
    ensures (BImm(cw) >> 11) & 1 == ((cw >> 7) & 1) as bv64
    ensures BImm(cw) >> 12 == SignFill(cw, 0xF_FFFF_FFFF_FFFF)
  {
  }

  /** The S-type immediate joins bits 7-11 and 25-31 and copies bit 31
      into bits 12-63. */
  lemma SImmShape(cw: bv32)
    ensures SImm(cw) & 0x1F == ((cw >> 7) & 0x1F) as bv64
    ensures (SImm(cw) >> 5) & 0x7F == ((cw >> 25) & 0x7F) as bv64
    ensures SImm(cw) >> 11 == SignFill(cw, 0x1F_FFFF_FFFF_FFFF)
  {
  }

  /** csrr a0, frm (csrrs a0, frm, x0; code word 0x00202573) names control
      register 2; the decoder reads register 0. */
  lemma CsrFieldExample()
    ensures CsrRegAsWritten(0x0020_2573) == CSR_OFFSET
    ensures CsrReg(0x0020_2573) == CSR_OFFSET + 2
  {
  }

  /** What the decoder reads is the csr number shifted right by five, so
      every control register below 32 decodes as register 0. */
  lemma CsrFieldShifted(cw: bv32)
    ensures CsrFieldAsWritten(cw) == CsrField(cw) >> 5
  {
  }

  /** csrrwi x0, fflags, 16 (code word 0x00185073) writes 16; the decoder
      gives the immediate as -16. */
  lemma ZimmExample()
    ensures ZimmAsWritten(0x0018_5073) == 0xFFFF_FFFF_FFFF_FFF0
    ensures Zimm(0x0018_5073) == 16
  {
  }

  /** The two readings of zimm agree exactly when its top bit is clear;
      the corrected one is always below 32. */
  lemma ZimmAgree(cw: bv32)
    ensures Zimm(cw) < 32
    ensures ZimmAsWritten(cw) == Zimm(cw) <==> (cw >> 19) & 1 == 0
  {
  }

  // ---------------------------------------------------------------------
  // Compressed forms
  // ---------------------------------------------------------------------

  const OP_C_ADDI4SPN: int := 0x0000
  const OP_C_FLD: int := 0x2000
  const OP_C_LW: int := 0x4000
  const OP_C_LD: int := 0x6000
  const OP_C_FSD: int := 0xa000
  const OP_C_SW: int := 0xc000
  const OP_C_SD: int := 0xe000
  const OP_C_ADDI: int := 0x0001
  const OP_C_ADDIW: int := 0x2001
  const OP_C_LI: int := 0x4001
  const OP_C_LUIorSP: int := 0x6001
  const OP_C_MISC_ALU: int := 0x8001
  const OP_C_J: int := 0xa001
  const OP_C_BEQZ: int := 0xc001
  const OP_C_BNEZ: int := 0xe001
  const OP_C_SLLI: int := 0x0002
  const OP_C_FLDSP: int := 0x2002
  const OP_C_LWSP: int := 0x4002
  const OP_C_LDSP: int := 0x6002
  const OP_C_JALRMVADD: int := 0x8002
  const OP_C_FSDSP: int := 0xa002
  const OP_C_SWSP: int := 0xc002
  const OP_C_SDSP: int := 0xe002

  /** The compressed opcode: bits 0-1 and 13-15. */
  function CompressedKey(cw: bv32): int
  {
    (cw & 0xe003) as bv16 as int
  }

  /** Bits 10-11, which tell the register forms of the MISC-ALU group from
      the immediate forms. */
  function MiscAluFunct(cw: bv32): (f: int)
    ensures 0 <= f < 4
  {
    (cw as int / 1024) % 4
  }

  /** The three-bit register fields name x8-x15. */
  function CRs2(cw: bv32): (r: int)
    ensures 8 <= r < 16
  {
    (cw as int / 4) % 8 + 8
  }

  function CRs1(cw: bv32): (r: int)
    ensures 8 <= r < 16
  {
    (cw as int / 128) % 8 + 8
  }

  /** The five-bit register fields at bits 7-11 and 2-6. */
  function WideRs1(cw: bv32): (r: int)
    ensures 0 <= r < 32
  {
    (cw as int / 128) % 32
  }

  function WideRs2(cw: bv32): (r: int)
    ensures 0 <= r < 32
  {
    (cw as int / 4) % 32
  }

  /** C.ADDI4SPN as written names its destination by bits 7-9, which hold
      nzuimm[9:7]. */
  function Addi4spnDestAsWritten(cw: bv32): int
  {
    CRs1(cw)
  }

  /** rd' of the CIW format is bits 2-4. */
  function Addi4spnDest(cw: bv32): int
  {
    CRs2(cw)
  }

  /** imm[5] at 12 (sign) and imm[4:0] at 2-6. */
  function CImm6(cw: bv32): bv64
  {
    (ExtractSext(W(cw), 12, 1) << 5) | ExtractBits(W(cw), 2, 5)
  }

  /** C.LD/C.SD/C.FLD/C.FSD offset as written: uimm[5:3] at 10-12 and
      uimm[7:6] at 5-6, the latter sign-extended. */
  function DispX8Q0AsWritten(cw: bv32): bv64
  {
    (ExtractSext(W(cw), 5, 2) << 6) | (ExtractBits(W(cw), 10, 3) << 3)
  }

  /** The same offset zero-extended, as chapter 16 defines it. */
  function DispX8Q0(cw: bv32): bv64
  {
    (ExtractBits(W(cw), 5, 2) << 6) | (ExtractBits(W(cw), 10, 3) << 3)
  }

  /** C.LW/C.SW offset as written: uimm[6] at 5 sign-extended, uimm[5:3]
      at 10-12, uimm[2] at 6. */
  function DispX4Q0AsWritten(cw: bv32): bv64
  {
    (ExtractSext(W(cw), 5, 1) << 6) | (ExtractBits(W(cw), 10, 3) << 3) | (ExtractBits(W(cw), 6, 1) << 2)
  }

  function DispX4Q0(cw: bv32): bv64
  {
    (ExtractBits(W(cw), 5, 1) << 6) | (ExtractBits(W(cw), 10, 3) << 3) | (ExtractBits(W(cw), 6, 1) << 2)
  }

  /** The register field the stack-pointer forms take their offset from:
      bits 7-11 for stores, bits 2-6 for loads. */
  function SpIndex(cw: bv32, isStore: bool): bv64
  {
    if isStore then ExtractBits(W(cw), 7, 5) else ExtractBits(W(cw), 2, 5)
  }

  /** C.LDSP/C.SDSP/C.FLDSP/C.FSDSP offset as written: the top three bits
      sign-extended. */
  function DispX8Q2AsWritten(cw: bv32, isStore: bool): bv64
  {
    var ix := SpIndex(cw, isStore);
    (ExtractBits(ix, 3, 2) << 3) | (ExtractBits(W(cw), 12, 1) << 5) | (ExtractSext(ix, 0, 3) << 6)
  }

  function DispX8Q2(cw: bv32, isStore: bool): bv64
  {
    var ix := SpIndex(cw, isStore);
    (ExtractBits(ix, 3, 2) << 3) | (ExtractBits(W(cw), 12, 1) << 5) | (ExtractBits(ix, 0, 3) << 6)
  }

  /** C.LWSP/C.SWSP offset as written: the top two bits sign-extended. */
  function DispX4Q2AsWritten(cw: bv32, isStore: bool): bv64
  {
    var ix := SpIndex(cw, isStore);
    (ExtractBits(ix, 2, 3) << 2) | (ExtractBits(W(cw), 12, 1) << 5) | (ExtractSext(ix, 0, 2) << 6)
  }

  function DispX4Q2(cw: bv32, isStore: bool): bv64
  {
    var ix := SpIndex(cw, isStore);
    (ExtractBits(ix, 2, 3) << 2) | (ExtractBits(W(cw), 12, 1) << 5) | (ExtractBits(ix, 0, 2) << 6)
  }

  /** C.ADDI4SPN as written: nzuimm[9:6] at 7-10 sign-extended. */
  function Addi4spnImmAsWritten(cw: bv32): bv64
  {
    var c := W(cw);
    (ExtractBits(c, 6, 1) << 2) | (ExtractBits(c, 5, 1) << 3) | (ExtractBits(c, 11, 2) << 4) | (ExtractSext(c, 7, 4) << 6)
  }

  function Addi4spnImm(cw: bv32): bv64
  {
    var c := W(cw);
    (ExtractBits(c, 6, 1) << 2) | (ExtractBits(c, 5, 1) << 3) | (ExtractBits(c, 11, 2) << 4) | (ExtractBits(c, 7, 4) << 6)
  }

  /** C.ADDI16SP as written: bit 4 feeds nzimm[6], bit 5 is read nowhere,
      and nzimm[9] at 12 is not sign-extended. */
  function Addi16spImmAsWritten(cw: bv32): bv64
  {
    var c := W(cw);
    (ExtractBits(c, 6, 1) << 4) | (ExtractBits(c, 2, 1) << 5) | (ExtractBits(c, 4, 1) << 6)
    | (ExtractBits(c, 3, 2) << 7) | (ExtractBits(c, 12, 1) << 9)
  }

  /** nzimm[4|6|8:7|5] at bits 6|5|4:3|2 and nzimm[9] at 12, sign-extended. */
  function Addi16spImm(cw: bv32): bv64
  {
    var c := W(cw);
    (ExtractBits(c, 6, 1) << 4) | (ExtractBits(c, 2, 1) << 5) | (ExtractBits(c, 5, 1) << 6)
    | (ExtractBits(c, 3, 2) << 7) | (ExtractSext(c, 12, 1) << 9)
  }

  /** C.J: offset[11|4|9:8|10|6|7|3:1|5] at bits 12|11|10:9|8|7|6|5:3|2. */
  function CjImm(cw: bv32): bv64
  {
    var c := W(cw);
    (ExtractBits(c, 3, 3) << 1) | (ExtractBits(c, 11, 1) << 4) | (ExtractBits(c, 2, 1) << 5)
    | (ExtractBits(c, 7, 1) << 6) | (ExtractBits(c, 6, 1) << 7) | (ExtractBits(c, 9, 2) << 8)
    | (ExtractBits(c, 8, 1) << 10) | (ExtractSext(c, 12, 1) << 11)
  }

  /** C.BEQZ/C.BNEZ as written: offset[8] at 12 is not sign-extended. */
  function CbImmAsWritten(cw: bv32): bv64
  {
    var c := W(cw);
    (ExtractBits(c, 3, 2) << 1) | (ExtractBits(c, 10, 2) << 3) | (ExtractBits(c, 2, 1) << 5)
    | (ExtractBits(c, 5, 2) << 6) | (ExtractBits(c, 12, 1) << 8)
  }

  /** offset[8|4:3] at 12|11:10 and offset[7:6|2:1|5] at 6:5|4:3|2, with
      offset[8] as the sign. */
  function CbImm(cw: bv32): bv64
  {
    var c := W(cw);
    (ExtractBits(c, 3, 2) << 1) | (ExtractBits(c, 10, 2) << 3) | (ExtractBits(c, 2, 1) << 5)
    | (ExtractBits(c, 5, 2) << 6) | (ExtractSext(c, 12, 1) << 8)
  }

  /** The compressed branch and jump offsets are even and signed: bit 12
      of the code word fills every bit from 8 (C.BEQZ, C.BNEZ) or 11 (C.J)
      up. */
  lemma CompressedBranchOffsets(cw: bv32)
    ensures CbImm(cw) & 1 == 0 && CjImm(cw) & 1 == 0
    ensures CbImm(cw) >> 8 == (if (cw >> 12) & 1 == 0 then 0 else 0xFF_FFFF_FFFF_FFFF)
    ensures CjImm(cw) >> 11 == (if (cw >> 12) & 1 == 0 then 0 else 0x1F_FFFF_FFFF_FFFF)
  {
  }

  /** c.beqz x8, -2 (0xDC7D) branches back two bytes; the decoder gives
      +510. */
  lemma CbImmExample()
    ensures CbImmAsWritten(0xDC7D) == 510
    ensures CbImm(0xDC7D) == 0xFFFF_FFFF_FFFF_FFFE
  {
  }

  /** The two readings agree exactly on forward branches. */
  lemma CbImmAgree(cw: bv32)
    ensures CbImmAsWritten(cw) == CbImm(cw) <==> (cw >> 12) & 1 == 0
  {
  }

  /** c.addi16sp sp, 64 (0x6121) carries nzimm[6] in bit 5; the decoder
      drops it and adds 0. c.addi16sp sp, -16 (0x717D) gives +1008. */
  lemma Addi16spExamples()
    ensures Addi16spImmAsWritten(0x6121) == 0 && Addi16spImm(0x6121) == 64
    ensures Addi16spImmAsWritten(0x717D) == 1008
    ensures Addi16spImm(0x717D) == 0xFFFF_FFFF_FFFF_FFF0
  {
  }

  /** The corrected ADDI16SP offset is a multiple of 16, signed by bit 12. */
  lemma Addi16spImmShape(cw: bv32)
    ensures Addi16spImm(cw) & 0xF == 0
    ensures Addi16spImm(cw) >> 9 == (if (cw >> 12) & 1 == 0 then 0 else 0x7F_FFFF_FFFF_FFFF)
  {
  }

  /** c.ld a0, 128(a1) (0x61C8) reads 128 bytes past a1; the decoder gives
      -128, since uimm[7] is the top bit of a sign-extended field.
      c.addi4spn s0, sp, 1020 (0x1FE0) gives -4. */
  lemma UnsignedOffsetExamples()
    ensures DispX8Q0AsWritten(0x61C8) == 0xFFFF_FFFF_FFFF_FF80 && DispX8Q0(0x61C8) == 128
    ensures Addi4spnImmAsWritten(0x1FE0) == 0xFFFF_FFFF_FFFF_FFFC && Addi4spnImm(0x1FE0) == 0x3FC
  {
  }

  /** c.addi4spn a0, sp, 8 (0x0028) writes a0 (x10); the decoder names x8. */
  lemma Addi4spnDestExample()
    ensures Addi4spnDestAsWritten(0x0028) == 8 && Addi4spnDest(0x0028) == 10
  {
  }

  /** The corrected destination is one of x8-x15, named by bits 2-4; the
      decoder as written agrees with it exactly when bits 7-9 hold the
      same three bits. */
  lemma Addi4spnDestAgree(cw: bv32)
    ensures 8 <= Addi4spnDest(cw) < 16 && Addi4spnDest(cw) - 8 == (cw as int / 4) % 8
    ensures Addi4spnDestAsWritten(cw) == Addi4spnDest(cw) <==> (cw as int / 128) % 8 == (cw as int / 4) % 8
  {
  }

  /** The corrected unsigned offsets stay inside their fields and are
      multiples of their scale: below 256 (C.LD), 128 (C.LW), 512
      (C.LDSP, C.SDSP), 256 (C.LWSP, C.SWSP) and 1024 (C.ADDI4SPN). */
  lemma UnsignedOffsetBounds(cw: bv32, isStore: bool)
    ensures DispX8Q0(cw) < 256 && DispX8Q0(cw) & 7 == 0
    ensures DispX4Q0(cw) < 128 && DispX4Q0(cw) & 3 == 0
    ensures DispX8Q2(cw, isStore) < 512 && DispX8Q2(cw, isStore) & 7 == 0
    ensures DispX4Q2(cw, isStore) < 256 && DispX4Q2(cw, isStore) & 3 == 0
    ensures Addi4spnImm(cw) < 1024 && Addi4spnImm(cw) & 3 == 0
  {
  }

  // ---------------------------------------------------------------------
  // The decoded instruction
  // ---------------------------------------------------------------------

  const NoRegs: seq<int> := [-1, -1, -1, -1]
  const NoImms: seq<bv64> := [0, 0]

  /** The register and immediate slots of a decoded instruction. */
  datatype Slots = Slots(reg: seq<int>, imm: seq<bv64>)

  const Cleared := Slots(NoRegs, NoImms)

  // Cleared slots with the first one, two, three or four filled in.
  function R(a: int): seq<int> { NoRegs[0 := a] }
  function RR(a: int, b: int): seq<int> { NoRegs[0 := a][1 := b] }
  function RRR(a: int, b: int, c: int): seq<int> { NoRegs[0 := a][1 := b][2 := c] }
  function RRRR(a: int, b: int, c: int, d: int): seq<int> { NoRegs[0 := a][1 := b][2 := c][3 := d] }
  function I(x: bv64): seq<bv64> { NoImms[0 := x] }

  /** The slots DecodeCompressedInstruction writes, with the corrected
      immediates and ADDI4SPN destination. */
  function Compressed(cw: bv32): Slots
  {
    var k := CompressedKey(cw);
    if k == OP_C_ADDI4SPN then Slots(R(Addi4spnDest(cw)), I(Addi4spnImm(cw)))
    else if k == OP_C_FLD then Slots(RR(CRs2(cw) + FP_OFFSET, CRs1(cw)), I(DispX8Q0(cw)))
    else if k == OP_C_LW then Slots(RR(CRs2(cw), CRs1(cw)), I(DispX4Q0(cw)))
    else if k == OP_C_LD then Slots(RR(CRs2(cw), CRs1(cw)), I(DispX8Q0(cw)))
    else if k == OP_C_FSD then Slots(RR(CRs1(cw), CRs2(cw) + FP_OFFSET), I(DispX8Q0(cw)))
    else if k == OP_C_SW then Slots(RR(CRs1(cw), CRs2(cw)), I(DispX4Q0(cw)))
    else if k == OP_C_SD then Slots(RR(CRs1(cw), CRs2(cw)), I(DispX8Q0(cw)))
    else if k == OP_C_ADDI || k == OP_C_ADDIW || k == OP_C_LI || k == OP_C_SLLI then
      Slots(R(WideRs1(cw)), I(CImm6(cw)))
    else if k == OP_C_LUIorSP then
      Slots(R(WideRs1(cw)), I(if WideRs1(cw) == 2 then Addi16spImm(cw) else CImm6(cw)))
    else if k == OP_C_MISC_ALU then
      if MiscAluFunct(cw) != 3 then Slots(R(CRs1(cw)), I(CImm6(cw)))
      else Slots(RR(CRs1(cw), CRs2(cw)), NoImms)
    else if k == OP_C_J then Slots(NoRegs, I(CjImm(cw)))
    else if k == OP_C_BEQZ || k == OP_C_BNEZ then Slots(R(CRs1(cw)), I(CbImm(cw)))
    else if k == OP_C_FLDSP then Slots(R(WideRs1(cw) + FP_OFFSET), I(DispX8Q2(cw, false)))
    else if k == OP_C_LWSP then Slots(R(WideRs1(cw)), I(DispX4Q2(cw, false)))
    else if k == OP_C_LDSP then Slots(R(WideRs1(cw)), I(DispX8Q2(cw, false)))
    else if k == OP_C_JALRMVADD then Slots(RR(WideRs1(cw), WideRs2(cw)), NoImms)
    else if k == OP_C_FSDSP then Slots(R(WideRs2(cw) + FP_OFFSET), I(DispX8Q2(cw, true)))
    else if k == OP_C_SWSP then Slots(R(WideRs2(cw)), I(DispX4Q2(cw, true)))
    else if k == OP_C_SDSP then Slots(R(WideRs2(cw)), I(DispX8Q2(cw, true)))
    else Cleared
  }

  /** The slots the major-opcode switch of Decode writes over cleared
      slots; an opcode with no case leaves them cleared. */
  function Major(cw: bv32): Slots
  {
    var op := Opcode(cw);
    if op == OP_AUIPC || op == OP_LUI then Slots(R(Rd(cw)), I(UImm(cw)))
    else if op == OP_IMM || op == OP_IMMW || op == OP_JALR || op == OP_LD then
      Slots(RR(Rd(cw), Rs1(cw)), I(IImm(cw)))
    else if op == OP_INT || op == OP_INTW then Slots(RRR(Rd(cw), Rs1(cw), Rs2(cw)), NoImms)
    else if op == OP_JAL then Slots(R(Rd(cw)), I(JImm(cw)))
    else if op == OP_BR then Slots(RR(Rs1(cw), Rs2(cw)), I(BImm(cw)))
    else if op == OP_ST || op == OP_FST then Slots(RR(Rs1(cw), Rs2(cw)), I(SImm(cw)))
    else if op == OP_ECALL then
      var f3 := Funct3(cw);
      if f3 == 1 || f3 == 2 || f3 == 3 then Slots(RRR(Rd(cw), Rs1(cw), CsrReg(cw)), NoImms)
      else if f3 == 5 || f3 == 6 || f3 == 7 then Slots(RR(Rd(cw), CsrReg(cw)), I(Zimm(cw)))
      else Cleared
    else if op == OP_FLD then Slots(RR(Rd(cw) + FP_OFFSET, Rs1(cw)), I(IImm(cw)))
    else if op == OP_FMADD || op == OP_FMSUB || op == OP_FNMSUB || op == OP_FNMADD then
      Slots(RRRR(Rd(cw) + FP_OFFSET, Rs1(cw) + FP_OFFSET, Rs2(cw) + FP_OFFSET, Rs3(cw) + FP_OFFSET), NoImms)
    else if op == OP_FLOAT then
      var f := FloatFunct(cw);
      if f == 0x38 then Slots(RR(Rd(cw), Rs1(cw) + FP_OFFSET), NoImms)
      else if f == 0x3c then Slots(RR(Rd(cw) + FP_OFFSET, Rs1(cw)), NoImms)
      else Slots(RRR(Rd(cw) + FP_OFFSET, Rs1(cw) + FP_OFFSET, Rs2(cw) + FP_OFFSET), NoImms)
    else Cleared
  }

  /** What Decode leaves in the slots: a compressed word its compressed
      form, any other word its major-opcode form. */
  function Decoded(cw: bv32): Slots
  {
    if IsCompressed(cw) then Compressed(cw) else Major(cw)
  }

  /** RISCV64Decoder::DecodedInsn. */
  class DecodedInsn {
    var codeWord: bv32
    var reg: seq<int>
    var imm: seq<bv64>

    constructor ()
      ensures codeWord == 0 && reg == NoRegs && imm == NoImms
    {
      codeWord, reg, imm := 0, NoRegs, NoImms;
    }

    /** clear: code word 0, every register slot -1, every immediate 0. */
    method Clear()
      modifies this
      ensures codeWord == 0 && reg == NoRegs && imm == NoImms
    {
      codeWord, reg, imm := 0, NoRegs, NoImms;
    }

    /** DecodeCompressedInstruction: writes the slots of the compressed
        form selected by bits 0-1 and 13-15. */
    method DecodeCompressedInstruction(cw: bv32)
      requires reg == NoRegs && imm == NoImms
      modifies this
      ensures reg == Compressed(cw).reg && imm == Compressed(cw).imm && codeWord == old(codeWord)
    {
      var s := Compressed(cw);
      reg, imm := s.reg, s.imm;
    }

    /** Decode: clear, record the code word, decode a compressed form when
        the low two bits are not 11, then switch on the major opcode. */
    method Decode(cw: bv32)
      modifies this
      ensures codeWord == cw && reg == Decoded(cw).reg && imm == Decoded(cw).imm
    {
      Clear();
      codeWord := cw;
      var opcode := Opcode(cw);
      LowBitsOfOpcode(cw);
      MajorOpcodesEndIn11(opcode);
      if opcode % 4 != 3 {
        DecodeCompressedInstruction(cw);
      }
      if opcode == OP_AUIPC || opcode == OP_LUI {
        reg := reg[0 := Rd(cw)];
        imm := imm[0 := UImm(cw)];
      } else if opcode == OP_IMM || opcode == OP_IMMW || opcode == OP_JALR || opcode == OP_LD {
        reg := reg[0 := Rd(cw)][1 := Rs1(cw)];
        imm := imm[0 := IImm(cw)];
      } else if opcode == OP_INT || opcode == OP_INTW {
        reg := reg[0 := Rd(cw)][1 := Rs1(cw)][2 := Rs2(cw)];
      } else if opcode == OP_JAL {
        reg := reg[0 := Rd(cw)];
        imm := imm[0 := JImm(cw)];
      } else if opcode == OP_BR {
        reg := reg[0 := Rs1(cw)][1 := Rs2(cw)];
        imm := imm[0 := BImm(cw)];
      } else if opcode == OP_ST || opcode == OP_FST {
        reg := reg[0 := Rs1(cw)][1 := Rs2(cw)];
        imm := imm[0 := SImm(cw)];
      } else if opcode == OP_ECALL {
        var f3 := Funct3(cw);
        if f3 == 1 || f3 == 2 || f3 == 3 {
          reg := reg[0 := Rd(cw)][1 := Rs1(cw)][2 := CsrReg(cw)];
        } else if f3 == 5 || f3 == 6 || f3 == 7 {
          reg := reg[0 := Rd(cw)];
          imm := imm[0 := Zimm(cw)];
          reg := reg[1 := CsrReg(cw)];
        }
      } else if opcode == OP_FLD {
        reg := reg[0 := Rd(cw) + FP_OFFSET][1 := Rs1(cw)];
        imm := imm[0 := IImm(cw)];
      } else if opcode == OP_FMADD || opcode == OP_FMSUB || opcode == OP_FNMSUB || opcode == OP_FNMADD {
        reg := reg[0 := Rd(cw) + FP_OFFSET][1 := Rs1(cw) + FP_OFFSET][2 := Rs2(cw) + FP_OFFSET][3 := Rs3(cw) + FP_OFFSET];
      } else if opcode == OP_FLOAT {
        var f := FloatFunct(cw);
        if f == 0x38 {
          reg := reg[0 := Rd(cw)][1 := Rs1(cw) + FP_OFFSET];
        } else if f == 0x3c {
          reg := reg[0 := Rd(cw) + FP_OFFSET][1 := Rs1(cw)];
        } else {
          reg := reg[0 := Rd(cw) + FP_OFFSET][1 := Rs1(cw) + FP_OFFSET][2 := Rs2(cw) + FP_OFFSET];
        }
      }
    }
  }

  // ---------------------------------------------------------------------
  // Properties of Decode
  // ---------------------------------------------------------------------

  /** A register number is -1 (unused), an integer register 0-31, a
      floating-point register 32-63 or a control register from 65 up. */
  predicate RegNumber(r: int)
  {
    r == -1 || 0 <= r < 64 || CSR_OFFSET <= r < CSR_OFFSET + 4096
  }

  predicate WellFormed(s: Slots)
  {
    |s.reg| == 4 && |s.imm| == 2 && forall i :: 0 <= i < 4 ==> RegNumber(s.reg[i])
  }

  lemma CompressedWellFormed(cw: bv32)
    ensures WellFormed(Compressed(cw))
  {
  }

  lemma MajorWellFormed(cw: bv32)
    ensures WellFormed(Major(cw))
  {
  }

  /** Every decoded instruction has four register slots and two
      immediates, and every register slot holds a register number. */
  lemma DecodedWellFormed(cw: bv32)
    ensures WellFormed(Decoded(cw))
  {
    if IsCompressed(cw) {
      CompressedWellFormed(cw);
    } else {
      MajorWellFormed(cw);
    }
  }

  /** The switch on the major opcode never matches a compressed word, so a
      compressed word keeps what DecodeCompressedInstruction wrote; a
      32-bit word whose opcode has no case is left cleared. */
  lemma DecodeRouting(cw: bv32)
    ensures IsCompressed(cw) ==> !IsMajor(Opcode(cw))
    ensures !IsCompressed(cw) && !IsMajor(Opcode(cw)) ==> Decoded(cw) == Cleared
  {
    LowBitsOfOpcode(cw);
    MajorOpcodesEndIn11(Opcode(cw));
  }

  lemma LowBitsOfOpcode(cw: bv32)
    ensures IsCompressed(cw) <==> Opcode(cw) % 4 != 3
  {
    var op := cw & 0x7f;
    assert op & 3 == cw & 3;
    assert (op as bv7 as int) % 4 == (op & 3) as bv7 as int;
  }

  /** Control-transfer instructions carry even offsets: JAL's J-type
      immediate, and the B-type immediate of a conditional branch. */
  lemma BranchOffsetsEven(cw: bv32)
    ensures Opcode(cw) == OP_JAL ==> Decoded(cw).imm[0] & 1 == 0
    ensures Opcode(cw) == OP_BR ==> Decoded(cw).imm[0] & 1 == 0
  {
    JImmShape(cw);
    BImmShape(cw);
  }

  /** Floating-point loads and the fused multiply-adds name floating-point
      registers 32-63 in their floating-point slots, and the FP/integer
      moves keep their integer operand in 0-31. */
  lemma FloatRegisters(cw: bv32)
    ensures Opcode(cw) == OP_FLD ==> 32 <= Decoded(cw).reg[0] < 64 && Decoded(cw).reg[1] < 32
    ensures Opcode(cw) in {OP_FMADD, OP_FMSUB, OP_FNMSUB, OP_FNMADD} ==>
      forall i :: 0 <= i < 4 ==> 32 <= Decoded(cw).reg[i] < 64
    ensures Opcode(cw) == OP_FLOAT && FloatFunct(cw) == 0x38 ==>
      Decoded(cw).reg[0] < 32 && 32 <= Decoded(cw).reg[1] < 64
  {
  }
}
