/** The Alpha instruction decoder. Bits 26-31 of the 32-bit code word index
    a 64-entry table of instruction formats, and the format says which
    fields become register numbers (floating-point registers are numbered
    from 32) and which become immediates. -1 marks an unused register slot. */
module Alpha64Decoder {
  import opened DecoderUtil

  const FP_OFFSET: int := 32

  /** The instruction formats (InsnType). */
  datatype InsnType =
    | Undef         // undefined or reserved
    | MemoryAddr    // memory format, address computation (LDA, LDAH)
    | MemoryLoad
    | MemoryStore
    | MemoryLoadFloat
    | MemoryStoreFloat
    | MemoryFunc    // memory format whose displacement is a function code (MB, ...)
    | MemoryJmp     // JMP, JSR, RET, JSR_COROUTINE
    | Branch
    | BranchFloat
    | BranchSave    // BR and BSR, which save the return address
    | OperationInt
    | OperationFloat
    | Pal

  /** OpCodeToInsnType: the format of each major opcode. The 64-entry
      table is read eight opcodes (one row) at a time. */
  function OpCodeToInsnType(op: int): InsnType
    requires 0 <= op < 64
  {
    if op < 0x08 then (if op == 0x00 then Pal else Undef)
    else if op < 0x10 then
      (if op < 0x0A then MemoryAddr else if op < 0x0D then MemoryLoad else MemoryStore)
    else if op < 0x18 then (if op < 0x14 then OperationInt else OperationFloat)
    else if op < 0x20 then
      (if op == 0x18 then MemoryFunc else if op == 0x1A then MemoryJmp
       else if op == 0x1C then OperationInt else Undef)
    else if op < 0x28 then (if op < 0x24 then MemoryLoadFloat else MemoryStoreFloat)
    else if op < 0x30 then (if op < 0x2C then MemoryLoad else MemoryStore)
    else if op < 0x38 then (if op == 0x30 || op == 0x34 then BranchSave else BranchFloat)
    else Branch
  }

  /** The major opcode, bits 26-31. */
  function Opcode(cw: bv32): (op: int)
    ensures 0 <= op < 64
  {
    cw as int / 0x400_0000
  }

  function TypeOf(cw: bv32): InsnType
  {
    OpCodeToInsnType(Opcode(cw))
  }

  /** Ra, bits 21-25. */
  function Ra(cw: bv32): (r: int)
    ensures 0 <= r < 32
  {
    cw as int / 0x20_0000 % 32
  }

  /** Rb, bits 16-20. */
  function Rb(cw: bv32): (r: int)
    ensures 0 <= r < 32
  {
    cw as int / 0x1_0000 % 32
  }

  /** Rc, bits 0-4. */
  function Rc(cw: bv32): (r: int)
    ensures 0 <= r < 32
  {
    cw as int % 32
  }

  /** The literal flag of the operate format, bit 12. */
  predicate IsLiteral(cw: bv32)
  {
    cw as int / 0x1000 % 2 == 1
  }

  /** FTOIS/FTOIT: bits 5-7 are 0 and bits 9-11 are 7; Ra is then a
      floating-point register. */
  predicate IsFtoi(cw: bv32)
  {
    cw as int / 32 % 8 == 0 && cw as int / 512 % 8 == 7
  }

  /** ITOFS/ITOFF/ITOFT: bits 5-8 are 4; Ra is then an integer register. */
  predicate IsItof(cw: bv32)
  {
    cw as int / 32 % 16 == 4
  }

  function W(cw: bv32): bv64 { cw as bv64 }

  /** The memory-format displacement, bits 0-15 sign-extended. */
  function Disp16(cw: bv32): bv64
  {
    ExtractSext(W(cw), 0, 16)
  }

  /** The branch-format displacement, bits 0-20 sign-extended. */
  function Disp21(cw: bv32): bv64
  {
    ExtractSext(W(cw), 0, 21)
  }

  /** The function code of the memory-function format, bits 0-15. */
  function MemFunc(cw: bv32): bv64
  {
    ExtractBits(W(cw), 0, 16)
  }

  /** The jump hint, bits 0-13. */
  function JumpHint(cw: bv32): bv64
  {
    ExtractBits(W(cw), 0, 14)
  }

  /** The PALcode function, bits 0-25. */
  function PalFunc(cw: bv32): bv64
  {
    ExtractBits(W(cw), 0, 26)
  }

  /** The 8-bit literal of the operate format, bits 13-20. */
  function Literal(cw: bv32): bv64
  {
    ExtractBits(W(cw), 13, 8)
  }

  /** The integer operate function, bits 5-11. */
  function IntFunc(cw: bv32): bv64
  {
    ExtractBits(W(cw), 5, 7)
  }

  /** The floating-point operate function, bits 5-15. */
  function FloatFunc(cw: bv32): bv64
  {
    ExtractBits(W(cw), 5, 11)
  }

  // ---------------------------------------------------------------------
  // The decoded instruction
  // ---------------------------------------------------------------------

  const NoRegs: seq<int> := [-1, -1, -1]
  const NoImms: seq<bv64> := [0, 0]

  /** The register and immediate slots of a decoded instruction. */
  datatype Slots = Slots(reg: seq<int>, imm: seq<bv64>)

  const Cleared := Slots(NoRegs, NoImms)

  /** The operate-format slots: Rc, then the function code, then the
      literal in the first immediate or Rb in the third register slot,
      then Ra (Fa for FTOI). */
  function IntOperate(cw: bv32): Slots
  {
    var reg := NoRegs[0 := Rc(cw)];
    var imm := NoImms[1 := IntFunc(cw)];
    var reg' := if IsLiteral(cw) then reg else reg[2 := Rb(cw)];
    var imm' := if IsLiteral(cw) then imm[0 := Literal(cw)] else imm;
    Slots(reg'[1 := if IsFtoi(cw) then Ra(cw) + FP_OFFSET else Ra(cw)], imm')
  }

  /** The floating-point operate slots: Fc, the function code, Fb, then Fa
      (Ra for ITOF). */
  function FloatOperate(cw: bv32): Slots
  {
    var reg := NoRegs[0 := Rc(cw) + FP_OFFSET][2 := Rb(cw) + FP_OFFSET];
    Slots(reg[1 := if IsItof(cw) then Ra(cw) else Ra(cw) + FP_OFFSET], NoImms[1 := FloatFunc(cw)])
  }

  /** The slots the switch of Decode writes over cleared slots. */
  function Decoded(cw: bv32): Slots
  {
    DecodedAs(TypeOf(cw), cw)
  }

  /** The slots a code word of format t fills. */
  function DecodedAs(t: InsnType, cw: bv32): Slots
  {
    match t
    case Pal => Slots(NoRegs, NoImms[1 := PalFunc(cw)])
    case Undef => Cleared
    case MemoryAddr => Slots(NoRegs[0 := Ra(cw)][1 := Rb(cw)], NoImms[0 := Disp16(cw)])
    case MemoryLoad => Slots(NoRegs[0 := Ra(cw)][1 := Rb(cw)], NoImms[0 := Disp16(cw)])
    case MemoryStore => Slots(NoRegs[2 := Ra(cw)][1 := Rb(cw)], NoImms[0 := Disp16(cw)])
    case MemoryLoadFloat =>
      Slots(NoRegs[0 := Ra(cw) + FP_OFFSET][1 := Rb(cw)], NoImms[0 := Disp16(cw)])
    case MemoryStoreFloat =>
      Slots(NoRegs[2 := Ra(cw) + FP_OFFSET][1 := Rb(cw)], NoImms[0 := Disp16(cw)])
    case MemoryFunc => Slots(NoRegs[0 := Ra(cw)][1 := Rb(cw)], NoImms[1 := MemFunc(cw)])
    case MemoryJmp => Slots(NoRegs[1 := Rb(cw)][0 := Ra(cw)], NoImms[0 := JumpHint(cw)])
    case Branch => Slots(NoRegs[1 := Ra(cw)], NoImms[0 := Disp21(cw)])
    case BranchFloat => Slots(NoRegs[1 := Ra(cw) + FP_OFFSET], NoImms[0 := Disp21(cw)])
    case BranchSave => Slots(NoRegs[0 := Ra(cw)], NoImms[0 := Disp21(cw)])
    case OperationInt => IntOperate(cw)
    case OperationFloat => FloatOperate(cw)
  }

  /** Alpha64Decoder::DecodedInsn. */
  class DecodedInsn {
    var codeWord: bv32
    var reg: seq<int>
    var imm: seq<bv64>

    constructor ()
      ensures codeWord == 0 && reg == NoRegs && imm == NoImms
    {
      codeWord, reg, imm := 0, NoRegs, NoImms;
    }

    /** clear: code word 0, every register slot -1, every immediate 0. */
    method Clear()
      modifies this
      ensures codeWord == 0 && reg == NoRegs && imm == NoImms
    {
      codeWord, reg, imm := 0, NoRegs, NoImms;
    }

    /** Decode: clear, record the code word, look the format up by opcode
        and write the fields of that format. */
    method Decode(cw: bv32)
      modifies this
      ensures codeWord == cw && reg == Decoded(cw).reg && imm == Decoded(cw).imm
    {
      Clear();
      var opcode := Opcode(cw);
      codeWord := cw;
      var insnType := OpCodeToInsnType(opcode);
      assert insnType == TypeOf(cw);
      match insnType {
        case Pal =>
          imm := imm[1 := PalFunc(cw)];
        case Undef =>
        case MemoryAddr =>
          imm := imm[0 := Disp16(cw)];
          reg := reg[0 := Ra(cw)][1 := Rb(cw)];
        case MemoryLoad =>
          imm := imm[0 := Disp16(cw)];
          reg := reg[0 := Ra(cw)][1 := Rb(cw)];
        case MemoryStore =>
          imm := imm[0 := Disp16(cw)];
          reg := reg[2 := Ra(cw)][1 := Rb(cw)];
        case MemoryLoadFloat =>
          imm := imm[0 := Disp16(cw)];
          reg := reg[0 := Ra(cw) + FP_OFFSET][1 := Rb(cw)];
        case MemoryStoreFloat =>
          imm := imm[0 := Disp16(cw)];
          reg := reg[2 := Ra(cw) + FP_OFFSET][1 := Rb(cw)];
        case MemoryFunc =>
          imm := imm[1 := MemFunc(cw)];
          reg := reg[0 := Ra(cw)][1 := Rb(cw)];
        case MemoryJmp =>
          imm := imm[0 := JumpHint(cw)];
          reg := reg[1 := Rb(cw)][0 := Ra(cw)];
        case Branch =>
          imm := imm[0 := Disp21(cw)];
          reg := reg[1 := Ra(cw)];
        case BranchFloat =>
          imm := imm[0 := Disp21(cw)];
          reg := reg[1 := Ra(cw) + FP_OFFSET];
        case BranchSave =>
          imm := imm[0 := Disp21(cw)];
          reg := reg[0 := Ra(cw)];
        case OperationInt =>
          reg := reg[0 := Rc(cw)];
          imm := imm[1 := IntFunc(cw)];
          if IsLiteral(cw) {
            imm := imm[0 := Literal(cw)];
          } else {
            reg := reg[2 := Rb(cw)];
          }
          if IsFtoi(cw) {
            reg := reg[1 := Ra(cw) + FP_OFFSET];
          } else {
            reg := reg[1 := Ra(cw)];
          }
        case OperationFloat =>
          imm := imm[1 := FloatFunc(cw)];
          reg := reg[0 := Rc(cw) + FP_OFFSET][2 := Rb(cw) + FP_OFFSET];
          if IsItof(cw) {
            reg := reg[1 := Ra(cw)];
          } else {
            reg := reg[1 := Ra(cw) + FP_OFFSET];
          }
      }
    }
  }

  // ---------------------------------------------------------------------
  // Properties of the table
  // ---------------------------------------------------------------------

  /** The table agrees with the opcode map of the Alpha architecture:
      CALL_PAL is 0x00; LDA/LDAH are 0x08-0x09; the integer operate groups
      are 0x10-0x13 and 0x1C, the floating-point ones 0x14-0x17; the
      floating-point loads and stores are 0x20-0x27; BR and BSR are 0x30
      and 0x34, the other 0x30-0x37 codes are floating-point branches and
      0x38-0x3F the integer branches. */
  lemma TableByOpcode(op: int)
    requires 0 <= op < 64
    ensures OpCodeToInsnType(op) == Pal <==> op == 0
    ensures OpCodeToInsnType(op) == MemoryAddr <==> op in {0x08, 0x09}
    ensures OpCodeToInsnType(op) == OperationInt <==> op in {0x10, 0x11, 0x12, 0x13, 0x1C}
    ensures OpCodeToInsnType(op) == OperationFloat <==> 0x14 <= op < 0x18
    ensures OpCodeToInsnType(op) == MemoryLoadFloat <==> 0x20 <= op < 0x24
    ensures OpCodeToInsnType(op) == MemoryStoreFloat <==> 0x24 <= op < 0x28
    ensures OpCodeToInsnType(op) == BranchSave <==> op in {0x30, 0x34}
    ensures OpCodeToInsnType(op) == BranchFloat <==> 0x30 < op < 0x38 && op != 0x34
    ensures OpCodeToInsnType(op) == Branch <==> 0x38 <= op
  {
  }

  /** Integer loads and stores: LDBU, LDQ_U, LDWU at 0x0A-0x0C and the
      longword/quadword forms at 0x28-0x2B; their stores three and four
      codes later. */
  lemma IntegerMemoryByOpcode(op: int)
    requires 0 <= op < 64
    ensures OpCodeToInsnType(op) == MemoryLoad <==> 0x0A <= op < 0x0D || 0x28 <= op < 0x2C
    ensures OpCodeToInsnType(op) == MemoryStore <==> 0x0D <= op < 0x10 || 0x2C <= op < 0x30
    ensures OpCodeToInsnType(op) == MemoryFunc <==> op == 0x18
    ensures OpCodeToInsnType(op) == MemoryJmp <==> op == 0x1A
  {
  }

  // ---------------------------------------------------------------------
  // Properties of the fields
  // ---------------------------------------------------------------------

  /** The sign of a code word's displacement: 0 or all ones above it. */
  function SignFill(negative: bool, ones: bv64): bv64
  {
    if negative then ones else 0
  }

  /** The displacements keep their field and copy its top bit into every
      higher bit. */
  lemma DisplacementShape(cw: bv32)
    ensures Disp16(cw) & 0xFFFF == (cw & 0xFFFF) as bv64
    ensures Disp16(cw) >> 15 == SignFill(cw & 0x8000 != 0, 0x1_FFFF_FFFF_FFFF)
    ensures Disp21(cw) & 0x1F_FFFF == (cw & 0x1F_FFFF) as bv64
    ensures Disp21(cw) >> 20 == SignFill(cw & 0x10_0000 != 0, 0xFFF_FFFF_FFFF)
  {
    Disp16Shape(cw);
    Disp21Shape(cw);
  }

  lemma Disp16Shape(cw: bv32)
    ensures Disp16(cw) & 0xFFFF == (cw & 0xFFFF) as bv64
    ensures Disp16(cw) >> 15 == SignFill(cw & 0x8000 != 0, 0x1_FFFF_FFFF_FFFF)
  {
  }

  lemma Disp21Shape(cw: bv32)
    ensures Disp21(cw) & 0x1F_FFFF == (cw & 0x1F_FFFF) as bv64
    ensures Disp21(cw) >> 20 == SignFill(cw & 0x10_0000 != 0, 0xFFF_FFFF_FFFF)
  {
  }

  /** The unsigned fields are the bits of the code word, shifted down. */
  lemma UnsignedFields(cw: bv32)
    ensures PalFunc(cw) == (cw & 0x3FF_FFFF) as bv64
    ensures MemFunc(cw) == (cw & 0xFFFF) as bv64
    ensures JumpHint(cw) == (cw & 0x3FFF) as bv64
    ensures Literal(cw) == ((cw >> 13) & 0xFF) as bv64 && Literal(cw) < 256
    ensures IntFunc(cw) == ((cw >> 5) & 0x7F) as bv64
    ensures FloatFunc(cw) == ((cw >> 5) & 0x7FF) as bv64
  {
    LowFields(cw);
    FunctionFields(cw);
  }

  lemma LowFields(cw: bv32)
    ensures PalFunc(cw) == (cw & 0x3FF_FFFF) as bv64
    ensures MemFunc(cw) == (cw & 0xFFFF) as bv64
    ensures JumpHint(cw) == (cw & 0x3FFF) as bv64
  {
    PalFuncField(cw);
    MemFuncField(cw);
    JumpHintField(cw);
  }

  lemma FunctionFields(cw: bv32)
    ensures Literal(cw) == ((cw >> 13) & 0xFF) as bv64 && Literal(cw) < 256
    ensures IntFunc(cw) == ((cw >> 5) & 0x7F) as bv64
    ensures FloatFunc(cw) == ((cw >> 5) & 0x7FF) as bv64
  {
    LiteralField(cw);
    IntFuncField(cw);
    FloatFuncField(cw);
  }

  lemma PalFuncField(cw: bv32) ensures PalFunc(cw) == (cw & 0x3FF_FFFF) as bv64 {}
  lemma MemFuncField(cw: bv32) ensures MemFunc(cw) == (cw & 0xFFFF) as bv64 {}
  lemma JumpHintField(cw: bv32) ensures JumpHint(cw) == (cw & 0x3FFF) as bv64 {}
  lemma LiteralField(cw: bv32) ensures Literal(cw) == ((cw >> 13) & 0xFF) as bv64 && Literal(cw) < 256 {}
  lemma IntFuncField(cw: bv32) ensures IntFunc(cw) == ((cw >> 5) & 0x7F) as bv64 {}
  lemma FloatFuncField(cw: bv32) ensures FloatFunc(cw) == ((cw >> 5) & 0x7FF) as bv64 {}

  // ---------------------------------------------------------------------
  // Properties of Decode
  // ---------------------------------------------------------------------

  /** Three register slots, each -1, an integer register 0-31 or a
      floating-point register 32-63, and two immediates. */
  predicate WellFormed(s: Slots)
  {
    |s.reg| == 3 && |s.imm| == 2 && forall i :: 0 <= i < 3 ==> -1 <= s.reg[i] < 64
  }

  lemma DecodedWellFormed(cw: bv32)
    ensures WellFormed(Decoded(cw))
  {
    FormatsWellFormed(TypeOf(cw), cw);
  }

  lemma FormatsWellFormed(t: InsnType, cw: bv32)
    ensures WellFormed(DecodedAs(t, cw))
  {
  }

  /** The undefined opcodes leave every slot cleared; CALL_PAL writes only
      its function code, and every other format names a register. */
  lemma Routing(cw: bv32)
    ensures TypeOf(cw) == Undef ==> Decoded(cw) == Cleared
    ensures TypeOf(cw) == Pal ==>
      Decoded(cw).reg == NoRegs && Decoded(cw).imm[0] == 0 && Decoded(cw).imm[1] == PalFunc(cw)
    ensures TypeOf(cw) !in {Undef, Pal} ==> Decoded(cw).reg[0] >= 0 || Decoded(cw).reg[1] >= 0
  {
    FormatsNameRegister(TypeOf(cw), cw);
  }

  lemma FormatsNameRegister(t: InsnType, cw: bv32)
    ensures t !in {Undef, Pal} ==> DecodedAs(t, cw).reg[0] >= 0 || DecodedAs(t, cw).reg[1] >= 0
  {
  }

  /** The operate format: bit 12 selects between the literal, which goes
      into the first immediate, and Rb, which goes into the third register
      slot; the other one stays cleared. */
  lemma OperateSecondOperand(cw: bv32)
    requires TypeOf(cw) == OperationInt
    ensures IsLiteral(cw) ==> Decoded(cw).imm[0] == Literal(cw) && Decoded(cw).reg[2] == -1
    ensures !IsLiteral(cw) ==> Decoded(cw).imm[0] == 0 && Decoded(cw).reg[2] == Rb(cw)
    ensures Decoded(cw).imm[1] == IntFunc(cw)
  {
  }

  /** Register files: floating-point loads, stores and branches name a
      floating-point data register; integer operates use integer
      registers except for the FTOI source, floating-point operates use
      floating-point registers except for the ITOF source. */
  lemma RegisterFiles(t: InsnType, cw: bv32)
    ensures t == MemoryLoadFloat ==> DecodedAs(t, cw).reg[0] >= FP_OFFSET
    ensures t == MemoryStoreFloat ==> DecodedAs(t, cw).reg[2] >= FP_OFFSET
    ensures t == BranchFloat ==> DecodedAs(t, cw).reg[1] >= FP_OFFSET
    ensures t == OperationInt ==>
      DecodedAs(t, cw).reg[0] < FP_OFFSET && DecodedAs(t, cw).reg[2] < FP_OFFSET
      && (DecodedAs(t, cw).reg[1] >= FP_OFFSET <==> IsFtoi(cw))
    ensures t == OperationFloat ==>
      DecodedAs(t, cw).reg[0] >= FP_OFFSET && DecodedAs(t, cw).reg[2] >= FP_OFFSET
      && (DecodedAs(t, cw).reg[1] < FP_OFFSET <==> IsItof(cw))
  {
  }

  /** ITOFT r1, f2 (opcode 0x14, function 0x024, Rb unused as 31) reads
      the integer register 1 and writes the floating-point register 2;
      FTOIT f1, r2 (opcode 0x1C, function 0x70) reads the floating-point
      register 1 and writes the integer register 2. */
  lemma ItofExample()
    ensures Decoded(0x503F_0482).reg == [2 + FP_OFFSET, 1, 31 + FP_OFFSET]
  {
  }

  lemma FtoiExample()
    ensures Decoded(0x703F_0E02).reg == [2, 1 + FP_OFFSET, 31]
  {
  }
}
