/** The RV32 instruction decoder: the major opcode selects a format, and the
    register numbers and immediates of that format are written into the
    decoded instruction. Fields are read from the 32-bit code word and the
    immediates are 32-bit values; control-register numbers and the 5-bit
    zimm go into the immediate slots. -1 marks an unused register slot. */
module Riscv32Decoder {
  import opened DecoderUtil
  import Riscv64Decoder

  const OP_IMM: int := 0x13
  const OP_INT: int := 0x33
  const OP_LUI: int := 0x37
  const OP_AUIPC: int := 0x17
  const OP_JAL: int := 0x6f
  const OP_JALR: int := 0x67
  const OP_BR: int := 0x63
  const OP_LD: int := 0x03
  const OP_ST: int := 0x23
  const OP_ECALL: int := 0x73
  const OP_ATOMIC: int := 0x2f

  predicate IsMajor(op: int)
  {
    op in {OP_IMM, OP_INT, OP_LUI, OP_AUIPC, OP_JAL, OP_JALR, OP_BR, OP_LD, OP_ST,
           OP_ECALL, OP_ATOMIC}
  }

  /** The major opcode, bits 0-6. */
  function Opcode(cw: bv32): (op: int)
    ensures 0 <= op < 128
  {
    (cw & 0x7f) as bv7 as int
  }

  function Rd(cw: bv32): (r: int)
    ensures 0 <= r < 32
  {
    (cw as int / 128) % 32
  }

  function Rs1(cw: bv32): (r: int)
    ensures 0 <= r < 32
  {
    (cw as int / 32768) % 32
  }

  function Rs2(cw: bv32): (r: int)
    ensures 0 <= r < 32
  {
    (cw as int / 1048576) % 32
  }

  function Funct3(cw: bv32): (f: int)
    ensures 0 <= f < 8
  {
    ExtractBits32(cw, 12, 3) as bv3 as int
  }

  /** U-type (LUI, AUIPC): the raw 20-bit field, bits 12-31. */
  function UImm(cw: bv32): bv32
  {
    ExtractBits32(cw, 12, 20)
  }

  /** I-type: bits 20-31 sign-extended to 32 bits. */
  function IImm(cw: bv32): bv32
  {
    ExtractSext32(cw, 20, 12)
  }

  /** J-type: imm[10:1] at 21-30, imm[11] at 20, imm[19:12] at 12-19 and
      imm[20] at 31, sign-extended and shifted left one. */
  function JImm(cw: bv32): bv32
  {
    var imm := ExtractBits32(cw, 21, 10) | (ExtractBits32(cw, 20, 1) << 10)
             | (ExtractBits32(cw, 12, 8) << 11) | (ExtractBits32(cw, 31, 1) << 19);
    ExtractSext32(imm, 0, 20) << 1
  }

  /** B-type: imm[4:1] at 8-11, imm[10:5] at 25-30, imm[11] at 7 and
      imm[12] at 31, sign-extended and shifted left one. */
  function BImm(cw: bv32): bv32
  {
    var imm := ExtractBits32(cw, 8, 4) | (ExtractBits32(cw, 25, 6) << 4)
             | (ExtractBits32(cw, 7, 1) << 10) | (ExtractBits32(cw, 31, 1) << 11);
    ExtractSext32(imm, 0, 12) << 1
  }

  /** S-type: imm[4:0] at 7-11 and imm[11:5] at 25-31, sign-extended. */
  function SImm(cw: bv32): bv32
  {
    var imm := ExtractBits32(cw, 7, 5) | (ExtractBits32(cw, 25, 7) << 5);
    ExtractSext32(imm, 0, 12)
  }

  /** The csr field, bits 20-31, unsigned. */
  function Csr(cw: bv32): bv32
  {
    ExtractBits32(cw, 20, 12)
  }

  /** The zimm field, bits 15-19, unsigned. */
  function Zimm(cw: bv32): bv32
  {
    ExtractBits32(cw, 15, 5)
  }

  // ---------------------------------------------------------------------
  // Properties of the immediates
  // ---------------------------------------------------------------------

  /** The sign of a code word: 0 or all ones above a given bit. */
  function SignFill(cw: bv32, ones: bv32): bv32
  {
    if cw >> 31 == 0 then 0 else ones
  }

  /** The I-type immediate is bits 20-31 with bit 31 copied into 12-31. */
  lemma IImmShape(cw: bv32)
    ensures IImm(cw) & 0xFFF == (cw >> 20) & 0xFFF
    ensures IImm(cw) >> 11 == SignFill(cw, 0x1F_FFFF)
  {
  }

  /** The S-type immediate joins bits 7-11 and 25-31 and copies bit 31
      into bits 12-31. */
  lemma SImmShape(cw: bv32)
    ensures SImm(cw) & 0x1F == (cw >> 7) & 0x1F
    ensures (SImm(cw) >> 5) & 0x7F == (cw >> 25) & 0x7F
    ensures SImm(cw) >> 11 == SignFill(cw, 0x1F_FFFF)
  {
  }

  /** The J-type immediate is even, puts each field in place and copies
      bit 31 into bits 20-31. */
  lemma JImmShape(cw: bv32)
    ensures JImm(cw) & 1 == 0
    ensures (JImm(cw) >> 1) & 0x3FF == (cw >> 21) & 0x3FF
    ensures (JImm(cw) >> 11) & 1 == (cw >> 20) & 1
    ensures (JImm(cw) >> 12) & 0xFF == (cw >> 12) & 0xFF
    ensures JImm(cw) >> 20 == SignFill(cw, 0xFFF)
  {
  }

  /** The B-type immediate is even, puts each field in place and copies
      bit 31 into bits 12-31. */
  lemma BImmShape(cw: bv32)
    ensures BImm(cw) & 1 == 0
    ensures (BImm(cw) >> 1) & 0xF == (cw >> 8) & 0xF
    ensures (BImm(cw) >> 5) & 0x3F == (cw >> 25) & 0x3F
    ensures (BImm(cw) >> 11) & 1 == (cw >> 7) & 1
    ensures BImm(cw) >> 12 == SignFill(cw, 0xF_FFFF)
  {
  }

  /** The U-type field is the top twenty bits unchanged; the csr number
      and zimm are the unsigned fields. */
  lemma UnsignedFields(cw: bv32)
    ensures UImm(cw) == cw >> 12
    ensures Csr(cw) == cw >> 20
    ensures Zimm(cw) < 32 && Zimm(cw) == (cw >> 15) & 0x1F
  {
  }

  /** The register fields are those of the RV64 decoder, and the RV32
      csr number is the RV64 csr field of bits 20-31 (the field the RV64
      decoder reads only for csrrwi/csrrsi/csrrci). */
  lemma AgreesWithRv64(cw: bv32)
    ensures Rd(cw) == Riscv64Decoder.Rd(cw) && Rs1(cw) == Riscv64Decoder.Rs1(cw)
    ensures Rs2(cw) == Riscv64Decoder.Rs2(cw)
    ensures Csr(cw) as bv64 == Riscv64Decoder.CsrField(cw)
    ensures Csr(cw) as bv64 >> 5 == Riscv64Decoder.CsrFieldAsWritten(cw)
  {
    CsrAgrees(cw);
    Riscv64Decoder.CsrFieldShifted(cw);
  }

  lemma CsrAgrees(cw: bv32)
    ensures Csr(cw) as bv64 == Riscv64Decoder.CsrField(cw)
  {
  }

  // ---------------------------------------------------------------------
  // The decoded instruction
  // ---------------------------------------------------------------------

  const NoRegs: seq<int> := [-1, -1, -1, -1]
  const NoImms: seq<bv32> := [0, 0]

  /** The register and immediate slots of a decoded instruction. */
  datatype Slots = Slots(reg: seq<int>, imm: seq<bv32>)

  const Cleared := Slots(NoRegs, NoImms)

  // Cleared slots with the first one, two or three filled in.
  function R(a: int): seq<int> { NoRegs[0 := a] }
  function RR(a: int, b: int): seq<int> { NoRegs[0 := a][1 := b] }
  function RRR(a: int, b: int, c: int): seq<int> { NoRegs[0 := a][1 := b][2 := c] }
  function I(x: bv32): seq<bv32> { NoImms[0 := x] }
  function II(x: bv32, y: bv32): seq<bv32> { NoImms[0 := x][1 := y] }

  /** The slots the switch of Decode writes over cleared slots; an opcode
      with no case, and an ECALL form other than the six CSR forms, leaves
      them cleared. */
  function Decoded(cw: bv32): Slots
  {
    var op := Opcode(cw);
    if op == OP_AUIPC || op == OP_LUI then Slots(R(Rd(cw)), I(UImm(cw)))
    else if op == OP_IMM || op == OP_JALR || op == OP_LD then Slots(RR(Rd(cw), Rs1(cw)), I(IImm(cw)))
    else if op == OP_INT || op == OP_ATOMIC then Slots(RRR(Rd(cw), Rs1(cw), Rs2(cw)), NoImms)
    else if op == OP_JAL then Slots(R(Rd(cw)), I(JImm(cw)))
    else if op == OP_BR then Slots(RR(Rs1(cw), Rs2(cw)), I(BImm(cw)))
    else if op == OP_ST then Slots(RR(Rs1(cw), Rs2(cw)), I(SImm(cw)))
    else if op == OP_ECALL then
      var f3 := Funct3(cw);
      if f3 == 1 || f3 == 2 || f3 == 3 then Slots(RR(Rd(cw), Rs1(cw)), I(Csr(cw)))
      else if f3 == 5 || f3 == 6 || f3 == 7 then Slots(R(Rd(cw)), II(Zimm(cw), Csr(cw)))
      else Cleared
    else Cleared
  }

  /** RISCV32Decoder::DecodedInsn. */
  class DecodedInsn {
    var codeWord: bv32
    var reg: seq<int>
    var imm: seq<bv32>

    constructor ()
      ensures codeWord == 0 && reg == NoRegs && imm == NoImms
    {
      codeWord, reg, imm := 0, NoRegs, NoImms;
    }

    /** clear: code word 0, every register slot -1, every immediate 0. */
    method Clear()
      modifies this
      ensures codeWord == 0 && reg == NoRegs && imm == NoImms
    {
      codeWord, reg, imm := 0, NoRegs, NoImms;
    }

    /** Decode: clear, record the code word, then switch on the opcode. */
    method Decode(cw: bv32)
      modifies this
      ensures codeWord == cw && reg == Decoded(cw).reg && imm == Decoded(cw).imm
    {
      Clear();
      codeWord := cw;
      var opcode := Opcode(cw);
      if opcode == OP_AUIPC || opcode == OP_LUI {
        reg := reg[0 := Rd(cw)];
        imm := imm[0 := UImm(cw)];
      } else if opcode == OP_IMM || opcode == OP_JALR || opcode == OP_LD {
        reg := reg[0 := Rd(cw)][1 := Rs1(cw)];
        imm := imm[0 := IImm(cw)];
      } else if opcode == OP_INT || opcode == OP_ATOMIC {
        reg := reg[0 := Rd(cw)][1 := Rs1(cw)][2 := Rs2(cw)];
      } else if opcode == OP_JAL {
        reg := reg[0 := Rd(cw)];
        imm := imm[0 := JImm(cw)];
      } else if opcode == OP_BR {
        reg := reg[0 := Rs1(cw)][1 := Rs2(cw)];
        imm := imm[0 := BImm(cw)];
      } else if opcode == OP_ST {
        reg := reg[0 := Rs1(cw)][1 := Rs2(cw)];
        imm := imm[0 := SImm(cw)];
      } else if opcode == OP_ECALL {
        var f3 := Funct3(cw);
        if f3 == 1 || f3 == 2 || f3 == 3 {
          reg := reg[0 := Rd(cw)][1 := Rs1(cw)];
          imm := imm[0 := Csr(cw)];
        } else if f3 == 5 || f3 == 6 || f3 == 7 {
          reg := reg[0 := Rd(cw)];
          imm := imm[0 := Zimm(cw)][1 := Csr(cw)];
        }
      }
    }
  }

  // ---------------------------------------------------------------------
  // Properties of Decode
  // ---------------------------------------------------------------------

  /** Four register slots, each -1 or an integer register 0-31 (RV32 here
      has no floating-point registers), and two immediates. */
  predicate WellFormed(s: Slots)
  {
    |s.reg| == 4 && |s.imm| == 2 && forall i :: 0 <= i < 4 ==> -1 <= s.reg[i] < 32
  }

  lemma DecodedWellFormed(cw: bv32)
    ensures WellFormed(Decoded(cw))
  {
  }

  /** A word whose opcode has no case decodes to cleared slots, and every
      opcode with a case writes at least one slot. */
  lemma DecodeRouting(cw: bv32)
    ensures !IsMajor(Opcode(cw)) ==> Decoded(cw) == Cleared
    ensures IsMajor(Opcode(cw)) && Opcode(cw) != OP_ECALL ==> Decoded(cw).reg[0] != -1
  {
  }

  /** The CSR forms: the register forms put the csr number in the first
      immediate, the immediate forms put zimm first and the csr number
      second; both are below their field widths. */
  lemma CsrOperands(cw: bv32)
    requires Opcode(cw) == OP_ECALL
    ensures Funct3(cw) in {1, 2, 3} ==> Decoded(cw).imm[0] == Csr(cw) < 4096
    ensures Funct3(cw) in {5, 6, 7} ==>
      Decoded(cw).imm[0] == Zimm(cw) < 32 && Decoded(cw).imm[1] == Csr(cw) < 4096
  {
  }
}
