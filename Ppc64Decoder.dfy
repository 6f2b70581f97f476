/** The POWER (64-bit PowerPC) instruction decoder. Each primary opcode,
    and for seven primary opcodes an extended opcode, selects an operand
    list (DecodeInfo); Decode walks that list, extracts each operand from
    the code word and writes it into a register or an immediate slot of the
    decoded instruction. Bit positions count from the least significant bit
    (bit 0), not in the MSB-first numbering of the Power ISA documents. */
module Ppc64Decoder {
  import opened Arith
  import opened Words

  // Where an operand goes in the decoded instruction; NONE ends the list.
  const NONE: int := 0
  const D_R0: int := 8
  const D_R1: int := 9
  const D_R2: int := 10
  const D_R3: int := 11
  const D_I0: int := 16
  const D_I1: int := 17
  const D_I2: int := 18
  const D_I3: int := 19

  const MaxOperands: int := 6

  /** The kind of an operand: a register number of one of three files, a
      CR bit index, an unsigned or signed immediate, or one of the two
      split 6-bit fields of the MD/XS and MDS forms. */
  datatype OperandType = GPR | FPR | CRN | CRI | UIM | SIM | SH6 | MB5

  /** An operand: its kind and its field (least significant bit, width). */
  datatype OperandFormat = OperandFormat(kind: OperandType, bitIndex: nat, bitCount: nat)

  /** DecodeInfoElem: where an operand goes and what it is. */
  datatype Elem = Elem(place: int, operand: OperandFormat)

  // The common operands.
  const GR0 := OperandFormat(GPR, 21, 5)
  const GR1 := OperandFormat(GPR, 16, 5)
  const GR2 := OperandFormat(GPR, 11, 5)
  const FR0 := OperandFormat(FPR, 21, 5)
  const FR1 := OperandFormat(FPR, 16, 5)
  const FR2 := OperandFormat(FPR, 11, 5)
  const FR3 := OperandFormat(FPR, 6, 5)
  const IX0 := OperandFormat(UIM, 21, 5)
  const IX1 := OperandFormat(UIM, 16, 5)
  const IX2 := OperandFormat(UIM, 11, 5)
  const IX3 := OperandFormat(UIM, 6, 5)
  const IX4 := OperandFormat(UIM, 1, 5)
  const UI16 := OperandFormat(UIM, 0, 16)
  const SI16 := OperandFormat(SIM, 0, 16)
  const IDS := OperandFormat(SIM, 2, 14)     // DS-form displacement
  const IMB5 := OperandFormat(MB5, 0, 0)
  const ISH6 := OperandFormat(SH6, 0, 0)
  const IFLM := OperandFormat(UIM, 17, 8)
  const CR0 := OperandFormat(CRN, 23, 3)
  const CR1 := OperandFormat(CRN, 18, 3)
  const CR2 := OperandFormat(CRN, 13, 3)
  const CR3 := OperandFormat(CRN, 8, 3)
  const CI0 := OperandFormat(UIM, 21, 2)
  const CI1 := OperandFormat(UIM, 16, 2)
  const CI2 := OperandFormat(UIM, 11, 2)
  const CI3 := OperandFormat(UIM, 6, 2)

  /** The operand lists (DecodeInfo) by form. An underscore of the
      original names (an unused operand position) is written x here;
      IDRD, IDCD and FDRD are the same lists as IDRS, IDCS and FDRS. */
  datatype Form =
    | UND
    | IFRM | BFRM
    | AGGGC | AFFFF | AFFFx | AFFxF | AFxFx
    | SCFRM
    | IDRU | IDRS | IDCU | IDCS | IDXS | FDRS | DSFRM
    | XLBR | XLCRB | XLCR | XLxx
    | XGxx | XGFXM | XGGx | XGGG | XGGI | XGGS | XCMP | XIGG | XxGG | Xxxx | XNxx
    | XFGG | XFFF | XFxF | XFxx | XFCMP | XIxx
    | MREG | MIMM | MDFRM | MDSFRM
    | MCRFS | MTFSFI | MTFSF   // the three lists written inline in the opcode-63 table

  /** An entry of the primary table: an operand list, or EXT for the
      opcodes whose operands depend on an extended opcode. */
  datatype Entry = Extended | Direct(form: Form)

  /** The operands of each form, in list order. */
  function Operands(f: Form): (es: seq<Elem>)
    ensures |es| <= MaxOperands
    ensures forall i :: 0 <= i < |es| ==> es[i].place != NONE
  {
    match f
    case UND => []
    case IFRM => [Elem(D_I0, OperandFormat(SIM, 2, 24))]
    case BFRM => [Elem(D_R0, CR1), Elem(D_I0, CI1), Elem(D_I1, OperandFormat(SIM, 2, 14))]
    case AGGGC => [Elem(D_R0, GR0), Elem(D_R1, GR1), Elem(D_R2, GR2), Elem(D_R3, CR3), Elem(D_I0, CI3)]
    case AFFFF => [Elem(D_R0, FR0), Elem(D_R1, FR1), Elem(D_R2, FR2), Elem(D_R3, FR3)]
    case AFFFx => [Elem(D_R0, FR0), Elem(D_R1, FR1), Elem(D_R2, FR2)]
    case AFFxF => [Elem(D_R0, FR0), Elem(D_R1, FR1), Elem(D_R2, FR3)]
    case AFxFx => [Elem(D_R0, FR0), Elem(D_R1, FR2)]
    case SCFRM => []
    case IDRU => [Elem(D_R0, GR0), Elem(D_R1, GR1), Elem(D_I0, UI16)]
    case IDRS => [Elem(D_R0, GR0), Elem(D_R1, GR1), Elem(D_I0, SI16)]
    case IDCU => [Elem(D_R0, CR0), Elem(D_R1, GR1), Elem(D_I0, UI16)]
    case IDCS => [Elem(D_R0, CR0), Elem(D_R1, GR1), Elem(D_I0, SI16)]
    case IDXS => [Elem(D_R1, GR1), Elem(D_I0, IX0), Elem(D_I1, SI16)]
    case FDRS => [Elem(D_R0, FR0), Elem(D_R1, GR1), Elem(D_I0, SI16)]
    case DSFRM => [Elem(D_R0, GR0), Elem(D_R1, GR1), Elem(D_I0, IDS)]
    case XLBR => [Elem(D_R0, CR1), Elem(D_I0, CI1)]
    case XLCRB =>
      [Elem(D_R0, CR0), Elem(D_I0, CI0), Elem(D_R1, CR1), Elem(D_I1, CI1), Elem(D_R2, CR2), Elem(D_I2, CI2)]
    case XLCR => [Elem(D_R0, CR0), Elem(D_R1, CR1)]
    case XLxx => []
    case XGxx => [Elem(D_R0, GR0)]
    case XGFXM => [Elem(D_R0, GR0), Elem(D_I1, OperandFormat(UIM, 12, 8))]
    case XGGx => [Elem(D_R0, GR0), Elem(D_R1, GR1)]
    case XGGG => [Elem(D_R0, GR0), Elem(D_R1, GR1), Elem(D_R2, GR2)]
    case XGGI => [Elem(D_R0, GR0), Elem(D_R1, GR1), Elem(D_I0, IX2)]
    case XGGS => [Elem(D_R0, GR0), Elem(D_R1, GR1), Elem(D_I0, ISH6)]
    case XCMP => [Elem(D_R0, CR0), Elem(D_R1, GR1), Elem(D_R2, GR2)]
    case XIGG => [Elem(D_I0, IX0), Elem(D_R0, GR1), Elem(D_R1, GR2)]
    case XxGG => [Elem(D_R0, GR1), Elem(D_R1, GR2)]
    case Xxxx => []
    case XNxx => [Elem(D_R0, CR0)]
    case XFGG => [Elem(D_R0, FR0), Elem(D_R1, GR1), Elem(D_R2, GR2)]
    case XFFF => [Elem(D_R0, FR0), Elem(D_R1, FR1), Elem(D_R2, FR2)]
    case XFxF => [Elem(D_R0, FR0), Elem(D_R1, FR2)]
    case XFxx => [Elem(D_R0, FR0)]
    case XFCMP => [Elem(D_R0, CR0), Elem(D_R1, FR1), Elem(D_R2, FR2)]
    case XIxx => [Elem(D_I0, IX0)]
    case MREG => [Elem(D_R0, GR0), Elem(D_R1, GR1), Elem(D_R2, GR2), Elem(D_I0, IX3), Elem(D_I1, IX4)]
    case MIMM => [Elem(D_R0, GR0), Elem(D_R1, GR1), Elem(D_I0, IX2), Elem(D_I1, IX3), Elem(D_I2, IX4)]
    case MDFRM => [Elem(D_R0, GR0), Elem(D_R1, GR1), Elem(D_I0, ISH6), Elem(D_I1, IMB5)]
    case MDSFRM => [Elem(D_R0, GR0), Elem(D_R1, GR1), Elem(D_R2, GR2), Elem(D_I0, IMB5)]
    case MCRFS => [Elem(D_R0, CR0), Elem(D_I0, OperandFormat(UIM, 18, 3))]
    case MTFSFI => [Elem(D_I0, OperandFormat(UIM, 23, 3)), Elem(D_I1, OperandFormat(UIM, 12, 4))]
    case MTFSF => [Elem(D_I0, IFLM), Elem(D_R0, FR2)]
  }

  /** The element a zero-initialised array slot holds: place NONE. */
  const EndOfList := Elem(NONE, OperandFormat(GPR, 0, 0))

  /** A list padded with ends to MaxOperands elements, as the fixed-size
      array of the source holds it. */
  function Pad(es: seq<Elem>): (info: seq<Elem>)
    requires |es| <= MaxOperands
    ensures |info| == MaxOperands && info[..|es|] == es
    ensures forall i :: |es| <= i < MaxOperands ==> info[i] == EndOfList
    decreases MaxOperands - |es|
  {
    if |es| == MaxOperands then es else
      var info := Pad(es + [EndOfList]);
      assert info[..|es|] == (info[..|es| + 1])[..|es|];
      info
  }

  /** The DecodeInfo of a form. */
  function DecodeInfo(f: Form): (info: seq<Elem>)
    ensures |info| == MaxOperands
  {
    Pad(Operands(f))
  }

  /** OpCodeToDecodeInfo: the entry of each primary opcode; the seven
      opcodes with extended opcodes are marked as such. */
  function PrimaryEntry(op: int): Entry
    requires 0 <= op < 64
  {
    match op
    // 0x00
    case 0 => Direct(UND)
    case 1 => Direct(UND)
    case 2 => Direct(IDXS)
    case 3 => Direct(IDXS)
    case 4 => Direct(UND)
    case 5 => Direct(UND)
    case 6 => Direct(UND)
    case 7 => Direct(IDRS)
    // 0x08
    case 8 => Direct(IDRS)
    case 9 => Direct(UND)
    case 10 => Direct(IDCU)
    case 11 => Direct(IDCS)
    case 12 => Direct(IDRS)
    case 13 => Direct(IDRS)
    case 14 => Direct(IDRS)
    case 15 => Direct(IDRS)
    // 0x10
    case 16 => Direct(BFRM)
    case 17 => Direct(SCFRM)
    case 18 => Direct(IFRM)
    case 19 => Extended
    case 20 => Direct(MIMM)
    case 21 => Direct(MIMM)
    case 22 => Direct(UND)
    case 23 => Direct(MREG)
    // 0x18
    case 24 => Direct(IDRU)
    case 25 => Direct(IDRU)
    case 26 => Direct(IDRU)
    case 27 => Direct(IDRU)
    case 28 => Direct(IDRU)
    case 29 => Direct(IDRU)
    case 30 => Extended
    case 31 => Extended
    // 0x20
    case 32 => Direct(IDRS)
    case 33 => Direct(IDRS)
    case 34 => Direct(IDRS)
    case 35 => Direct(IDRS)
    case 36 => Direct(IDRS)
    case 37 => Direct(IDRS)
    case 38 => Direct(IDRS)
    case 39 => Direct(IDRS)
    // 0x28
    case 40 => Direct(IDRS)
    case 41 => Direct(IDRS)
    case 42 => Direct(IDRS)
    case 43 => Direct(IDRS)
    case 44 => Direct(IDRS)
    case 45 => Direct(IDRS)
    case 46 => Direct(IDRS)
    case 47 => Direct(IDRS)
    // 0x30
    case 48 => Direct(FDRS)
    case 49 => Direct(FDRS)
    case 50 => Direct(FDRS)
    case 51 => Direct(FDRS)
    case 52 => Direct(FDRS)
    case 53 => Direct(FDRS)
    case 54 => Direct(FDRS)
    case 55 => Direct(FDRS)
    // 0x38
    case 56 => Direct(UND)
    case 57 => Direct(UND)
    case 58 => Extended
    case 59 => Extended
    case 60 => Direct(UND)
    case 61 => Direct(UND)
    case 62 => Extended
    case 63 => Extended
  }

  /** Primary opcode 30 (MD- and MDS-form), by bits 1-4. */
  function Opcode30Table(): (t: seq<Form>)
    ensures |t| == 16
  {
    [MDFRM, MDFRM, MDFRM, MDFRM, MDFRM, MDFRM, MDFRM, MDFRM, MDSFRM, MDSFRM, UND, UND, UND, UND, UND, UND]
  }

  /** Primary opcode 58 (DS-form loads), by bits 0-1. */
  function Opcode58Table(): (t: seq<Form>)
    ensures |t| == 4
  {
    [DSFRM, DSFRM, DSFRM, UND]
  }

  /** Primary opcode 62 (DS-form stores), by bits 0-1. */
  function Opcode62Table(): (t: seq<Form>)
    ensures |t| == 4
  {
    [DSFRM, DSFRM, UND, UND]
  }

  /** Primary opcode 59, A-form (bit 5 of the code word set), by bits 1-4. */
  function Opcode59AForms(): (t: seq<Form>)
    ensures |t| == 16
  {
    [UND, UND, AFFFx, UND, AFFFx, AFFFx, AFxFx, UND, AFxFx, AFFxF, AFxFx, UND, AFFFF, AFFFF, AFFFF, AFFFF]
  }

  /** Primary opcode 63, A-form (bit 5 of the code word set), by bits 1-4. */
  function Opcode63AForms(): (t: seq<Form>)
    ensures |t| == 16
  {
    [UND, UND, AFFFx, UND, AFFFx, AFFFx, AFxFx, AFFFF, AFxFx, AFFxF, AFxFx, UND, AFFFF, AFFFF, AFFFF, AFFFF]
  }

  /** The extended opcodes of primary opcode 19 (XL-form), in increasing order. */
  function Opcode19Table(): seq<(int, Form)>
  {
    [
      (0, XLCR),
      (16, XLBR),
      (33, XLCRB),
      (129, XLCRB),
      (150, XLxx),
      (193, XLCRB),
      (225, XLCRB),
      (257, XLCRB),
      (289, XLCRB),
      (417, XLCRB),
      (449, XLCRB),
      (528, XLBR)
    ]
  }

  /** The extended opcodes of primary opcode 31 (X- and XO-form), in
      increasing order, written in five consecutive parts. */
  function Opcode31Table(): seq<(int, Form)>
  {
    Opcode31Part0() + Opcode31Part1() + Opcode31Part2() + Opcode31Part3() + Opcode31Part4()
  }

  function Opcode31Part0(): seq<(int, Form)>
  {
    [
      (0, XCMP),
      (4, XIGG),
      (8, XGGG),
      (9, XGGG),
      (10, XGGG),
      (11, XGGG),
      (19, XGFXM),
      (20, XGGG),
      (21, XGGG),
      (23, XGGG),
      (24, XGGG),
      (26, XGGx),
      (27, XGGG),
      (28, XGGG),
      (32, XCMP),
      (40, XGGG),
      (53, XGGG),
      (54, XxGG),
      (55, XGGG),
      (58, XGGx),
      (60, XGGG),
      (68, XIGG),
      (73, XGGG),
      (75, XGGG),
      (83, XGxx)
    ]
  }

  function Opcode31Part1(): seq<(int, Form)>
  {
    [
      (84, XGGG),
      (86, XxGG),
      (87, XGGG),
      (104, XGGx),
      (119, XGGG),
      (122, XGGx),
      (124, XGGG),
      (136, XGGG),
      (138, XGGG),
      (144, XGFXM),
      (149, XGGG),
      (150, XGGG),
      (151, XGGG),
      (181, XGGG),
      (183, XGGG),
      (200, XGGx),
      (202, XGGx),
      (214, XGGG),
      (215, XGGG),
      (232, XGGx),
      (233, XGGG),
      (234, XGGx),
      (235, XGGG),
      (246, XxGG),
      (247, XGGG)
    ]
  }

  function Opcode31Part2(): seq<(int, Form)>
  {
    [
      (266, XGGG),
      (278, XxGG),
      (279, XGGG),
      (284, XGGG),
      (311, XGGG),
      (316, XGGG),
      (339, XGxx),
      (341, XGGG),
      (343, XGGG),
      (371, XGxx),
      (373, XGGG),
      (375, XGGG),
      (407, XGGG),
      (412, XGGG),
      (439, XGGG),
      (444, XGGG),
      (457, XGGG),
      (459, XGGG),
      (467, XGxx),
      (476, XGGG),
      (489, XGGG),
      (491, XGGG),
      (512, XNxx),
      (520, XGGG),
      (521, XGGG)
    ]
  }

  function Opcode31Part3(): seq<(int, Form)>
  {
    [
      (522, XGGG),
      (523, XGGG),
      (533, XGGG),
      (534, XGGG),
      (535, XFGG),
      (536, XGGG),
      (539, XGGG),
      (552, XGGG),
      (567, XFGG),
      (585, XGGG),
      (587, XGGG),
      (597, XGGI),
      (598, Xxxx),
      (599, XFGG),
      (616, XGGx),
      (631, XFGG),
      (648, XGGG),
      (650, XGGG),
      (661, XGGG),
      (662, XGGG),
      (663, XFGG),
      (695, XFGG),
      (712, XGGx),
      (714, XGGx),
      (725, XGGI)
    ]
  }

  function Opcode31Part4(): seq<(int, Form)>
  {
    [
      (727, XFGG),
      (744, XGGx),
      (745, XGGG),
      (746, XGGx),
      (747, XGGG),
      (759, XFGG),
      (778, XGGG),
      (790, XGGG),
      (792, XGGG),
      (794, XGGG),
      (824, XGGI),
      (826, XGGS),
      (827, XGGS),
      (854, Xxxx),
      (918, XGGG),
      (922, XGGx),
      (954, XGGx),
      (969, XGGG),
      (971, XGGG),
      (982, XxGG),
      (983, XFGG),
      (986, XGGx),
      (1001, XGGG),
      (1003, XGGG),
      (1014, XxGG)
    ]
  }




  /** Primary opcode 59 has no extended opcode with bit 4 clear: one placeholder entry. */
  function Opcode59Table(): seq<(int, Form)>
  {
    [
      (0, UND)
    ]
  }

  /** The extended opcodes of primary opcode 63 with bit 4 clear, in increasing order. */
  function Opcode63Table(): seq<(int, Form)>
  {
    [
      (0, XFCMP),
      (12, XFxF),
      (14, XFxF),
      (15, XFxF),
      (32, XFCMP),
      (38, XIxx),
      (40, XFxF),
      (64, MCRFS),
      (70, XIxx),
      (72, XFxF),
      (134, MTFSFI),
      (136, XFxF),
      (264, XFxF),
      (392, XFxF),
      (424, XFxF),
      (456, XFxF),
      (488, XFxF),
      (583, XFxx),
      (711, MTFSF),
      (814, XFxF),
      (815, XFxF),
      (846, XFxF)
    ]
  }

  // ---------------------------------------------------------------------
  // Table lookup
  // ---------------------------------------------------------------------

  /** Strictly increasing keys: what std::lower_bound needs of a table. */
  predicate Sorted(t: seq<(int, Form)>)
  {
    forall i, j :: 0 <= i < j < |t| ==> t[i].0 < t[j].0
  }

  /** std::lower_bound: the position of the first entry whose key is not
      less than xo, or the end. */
  function LowerBound(t: seq<(int, Form)>, xo: int): (i: nat)
    ensures i <= |t|
    ensures forall j :: 0 <= j < i ==> t[j].0 < xo
    ensures i < |t| ==> t[i].0 >= xo
  {
    if |t| == 0 || t[0].0 >= xo then 0 else 1 + LowerBound(t[1..], xo)
  }

  /** FindDecodeInfo as written: UND only when lower_bound reaches the end,
      so an extended opcode missing from the table takes the operands of
      the next larger one. */
  function FindDecodeInfoAsWritten(t: seq<(int, Form)>, xo: int): (f: Form)
    ensures f == UND || exists i :: 0 <= i < |t| && t[i].0 >= xo && t[i].1 == f
    ensures (forall i :: 0 <= i < |t| ==> t[i].0 < xo) ==> f == UND
  {
    var e := LowerBound(t, xo);
    if e == |t| then UND else t[e].1
  }

  /** FindDecodeInfo: the operands of the entry whose key is xo, or UND. */
  function FindDecodeInfo(t: seq<(int, Form)>, xo: int): (f: Form)
    ensures f == UND || (xo, f) in t
    ensures (forall i :: 0 <= i < |t| ==> t[i].0 != xo) ==> f == UND
  {
    var e := LowerBound(t, xo);
    if e == |t| || t[e].0 != xo then UND else t[e].1
  }

  /** The major opcode, bits 26-31. */
  function Opcode(cw: bv32): (op: int)
    ensures 0 <= op < 64
  {
    cw as int / 0x400_0000
  }

  /** The 10-bit extended opcode, bits 1-10. */
  function Xo(cw: bv32): (xo: int)
    ensures 0 <= xo < 1024
  {
    cw as int / 2 % 1024
  }

  /** GetDecodeInfo: the operand list of a code word. */
  function GetDecodeInfo(cw: bv32): (f: Form)
    ensures PrimaryEntry(Opcode(cw)).Direct? ==> f == PrimaryEntry(Opcode(cw)).form
  {
    FormOf(Opcode(cw), Xo(cw), cw as int % 4)
  }

  /** The switch of GetDecodeInfo on the major opcode, given the extended
      opcode xo (its low four bits are the opcode-30 index) and the two low
      bits of the code word (the opcode-58 and 62 index). */
  function FormOf(opcode: int, xo: int, low: int): (f: Form)
    requires 0 <= opcode < 64 && 0 <= xo < 1024 && 0 <= low < 4
    ensures PrimaryEntry(opcode).Direct? ==> f == PrimaryEntry(opcode).form
  {
    ExtendedOpcodes(opcode);
    if opcode == 30 then Opcode30Table()[xo % 16]
    else if opcode == 58 then Opcode58Table()[low]
    else if opcode == 62 then Opcode62Table()[low]
    else if opcode == 19 then FindDecodeInfo(Opcode19Table(), xo)
    else if opcode == 31 then
      (if xo % 16 == 15 then AGGGC   // isel
       else FindDecodeInfo(Opcode31Table(), xo))
    else if opcode == 59 then
      (if xo / 16 % 2 == 1 then Opcode59AForms()[xo % 16]
       else FindDecodeInfo(Opcode59Table(), xo))
    else if opcode == 63 then
      (if xo / 16 % 2 == 1 then Opcode63AForms()[xo % 16]
       else FindDecodeInfo(Opcode63Table(), xo))
    else match PrimaryEntry(opcode)
      case Direct(f) => f
      case Extended => UND
  }

  // ---------------------------------------------------------------------
  // Operand values
  // ---------------------------------------------------------------------

  const U64: nat := 0x1_0000_0000_0000_0000

  /** The numbers of the first register of each file (GP_REG0, FP_REG0,
      COND_REG0). */
  datatype RegisterBases = RegisterBases(gpr: nat, fpr: nat, cr: nat)

  /** ExtractBits: bits index..index+count-1 of the code word, unsigned. */
  function Field(cw: bv32, index: nat, count: nat): nat
  {
    cw as int / Pow2(index) % Pow2(count)
  }

  lemma FieldBound(cw: bv32, index: nat, count: nat)
    ensures IsWord(count, Field(cw, index, count))
  {
  }

  /** ExtractBits with sign extension: the field as a two's-complement
      count-bit number, as a 64-bit unsigned value. */
  function SignedField(cw: bv32, index: nat, count: nat): nat
    requires 0 < count
  {
    FieldBound(cw, index, count);
    Unsigned(64, Signed(count, Field(cw, index, count)))
  }

  /** The 64-bit value of an operand. */
  function Value(op: OperandFormat, cw: bv32, bases: RegisterBases): nat
  {
    match op.kind
    case GPR => (Field(cw, op.bitIndex, op.bitCount) + bases.gpr) % U64
    case FPR => (Field(cw, op.bitIndex, op.bitCount) + bases.fpr) % U64
    case CRN => (Field(cw, op.bitIndex, op.bitCount) + bases.cr) % U64
    case CRI => Field(cw, op.bitIndex, op.bitCount)
    case UIM => Field(cw, op.bitIndex, op.bitCount)
    case SIM => if 0 < op.bitCount then SignedField(cw, op.bitIndex, op.bitCount) else 0
    case SH6 => Field(cw, 1, 1) * 32 + Field(cw, 11, 5)
    case MB5 => Field(cw, 5, 1) * 32 + Field(cw, 6, 5)
  }

  /** static_cast<int> of a 64-bit value: its low 32 bits as a signed number. */
  function ToInt(v: nat): (r: int)
    ensures -0x8000_0000 <= r < 0x8000_0000
    ensures v < 0x8000_0000 ==> r == v
  {
    var low := v % 0x1_0000_0000;
    if low < 0x8000_0000 then low else low - 0x1_0000_0000
  }

  // ---------------------------------------------------------------------
  // The decoded instruction
  // ---------------------------------------------------------------------

  const NoRegs: seq<int> := [-1, -1, -1, -1]
  const NoImms: seq<nat> := [0, 0, 0, 0]

  /** The register and immediate slots of a decoded instruction. */
  datatype Slots = Slots(reg: seq<int>, imm: seq<nat>)

  const Cleared := Slots(NoRegs, NoImms)

  predicate Sized(s: Slots)
  {
    |s.reg| == 4 && |s.imm| == 4
  }

  /** The slots after one operand is written. */
  function Write(s: Slots, e: Elem, cw: bv32, bases: RegisterBases): (s': Slots)
    requires Sized(s)
    ensures Sized(s')
  {
    var value := Value(e.operand, cw, bases);
    if D_R0 <= e.place <= D_R3 then s.(reg := s.reg[e.place - D_R0 := ToInt(value)])
    else if D_I0 <= e.place <= D_I3 then s.(imm := s.imm[e.place - D_I0 := value])
    else s
  }

  /** The slots after the operands from position i up to the first NONE
      are written, in order. */
  function ApplyFrom(info: seq<Elem>, i: nat, cw: bv32, bases: RegisterBases, s: Slots): (s': Slots)
    requires i <= |info| && Sized(s)
    ensures Sized(s')
    decreases |info| - i
  {
    if i == |info| || info[i].place == NONE then s
    else ApplyFrom(info, i + 1, cw, bases, Write(s, info[i], cw, bases))
  }

  /** The slots Decode leaves. */
  function Decoded(cw: bv32, bases: RegisterBases): (s: Slots)
    ensures Sized(s)
  {
    ApplyFrom(DecodeInfo(GetDecodeInfo(cw)), 0, cw, bases, Cleared)
  }

  /** PPC64Decoder::DecodedInsn. */
  class DecodedInsn {
    var codeWord: bv32
    var reg: seq<int>
    var imm: seq<nat>

    constructor ()
      ensures codeWord == 0 && reg == NoRegs && imm == NoImms
    {
      codeWord, reg, imm := 0, NoRegs, NoImms;
    }

    /** clear: code word 0, every register slot -1, every immediate 0. */
    method Clear()
      modifies this
      ensures codeWord == 0 && reg == NoRegs && imm == NoImms
    {
      codeWord, reg, imm := 0, NoRegs, NoImms;
    }

    /** Decode: clear, record the code word, then write the operands of the
        code word's list until the list ends or reaches NONE. */
    method Decode(cw: bv32, bases: RegisterBases)
      modifies this
      ensures codeWord == cw && Slots(reg, imm) == Decoded(cw, bases)
    {
      Clear();
      codeWord := cw;
      var decodeInfo := DecodeInfo(GetDecodeInfo(cw));
      WriteOperands(decodeInfo, cw, bases);
    }

    /** The operand loop of Decode over the list it looked up: each operand
        before the first NONE has its value taken from the code word and
        written to the register or immediate slot its place names. */
    method WriteOperands(decodeInfo: seq<Elem>, cw: bv32, bases: RegisterBases)
      requires |decodeInfo| == MaxOperands && Sized(Slots(reg, imm))
      modifies this
      ensures codeWord == old(codeWord)
      ensures Slots(reg, imm) == ApplyFrom(decodeInfo, 0, cw, bases, old(Slots(reg, imm)))
    {
      ghost var decoded := ApplyFrom(decodeInfo, 0, cw, bases, Slots(reg, imm));
      var i := 0;
      while i < MaxOperands
        invariant 0 <= i <= MaxOperands && codeWord == old(codeWord)
        invariant Sized(Slots(reg, imm))
        invariant ApplyFrom(decodeInfo, i, cw, bases, Slots(reg, imm)) == decoded
      {
        var operand := decodeInfo[i].operand;
        var decodedPlace := decodeInfo[i].place;
        if decodedPlace == NONE {
          break;
        }
        ghost var before := Slots(reg, imm);
        var value := Value(operand, cw, bases);
        if D_R0 <= decodedPlace <= D_R3 {
          reg := reg[decodedPlace - D_R0 := ToInt(value)];
        } else if D_I0 <= decodedPlace <= D_I3 {
          imm := imm[decodedPlace - D_I0 := value];
        }
        assert Slots(reg, imm) == Write(before, decodeInfo[i], cw, bases);
        i := i + 1;
      }
    }
  }

  // ---------------------------------------------------------------------
  // Properties of the lookup
  // ---------------------------------------------------------------------

  /** The primary table defers to an extended opcode exactly for the seven
      opcodes GetDecodeInfo switches on, so its default case never meets
      an EXT entry. */
  lemma ExtendedOpcodes(op: int)
    requires 0 <= op < 64
    ensures PrimaryEntry(op) == Extended <==> op in {19, 30, 31, 58, 59, 62, 63}
  {
  }

  /** In a sorted table the lookup finds the entry with key xo; with no such
      entry it gives UND. */
  lemma FindExact(t: seq<(int, Form)>, xo: int)
    ensures forall j :: 0 <= j < |t| && t[j].0 == xo && Sorted(t) ==> FindDecodeInfo(t, xo) == t[j].1
    ensures (forall j :: 0 <= j < |t| ==> t[j].0 != xo) ==> FindDecodeInfo(t, xo) == UND
  {
    var e := LowerBound(t, xo);
    forall j | 0 <= j < |t| && t[j].0 == xo && Sorted(t)
      ensures FindDecodeInfo(t, xo) == t[j].1
    {
      assert e <= j;
    }
  }

  /** For a key present in a sorted table the lookup as written agrees with
      the exact lookup: the two differ only on absent keys. */
  lemma AsWrittenAgreesWhenPresent(t: seq<(int, Form)>, xo: int, j: int)
    requires Sorted(t) && 0 <= j < |t| && t[j].0 == xo
    ensures FindDecodeInfoAsWritten(t, xo) == FindDecodeInfo(t, xo) == t[j].1
  {
    FindExact(t, xo);
  }

  /** Primary opcode 19 has no extended opcode 1 (code word 0x4C000002), yet
      the lookup as written returns the operands of bclr, the next entry;
      the exact lookup returns UND. */
  lemma AbsentExtendedOpcodeExample()
    ensures Xo(0x4C00_0002) == 1 && Opcode(0x4C00_0002) == 19
    ensures FindDecodeInfoAsWritten(Opcode19Table(), 1) == XLBR
    ensures FindDecodeInfo(Opcode19Table(), 1) == UND
  {
    var t := Opcode19Table();
    assert t[0].0 == 0 && t[1].0 == 16;
    assert LowerBound(t[1..], 1) == 0;
  }

  /** isel: a primary-31 code word whose extended opcode ends in 0b1111 gets
      the A-form list of three GPRs, a CR field and a CR bit. */
  lemma IselRoute(cw: bv32)
    requires Opcode(cw) == 31 && Xo(cw) % 16 == 15
    ensures GetDecodeInfo(cw) == AGGGC
  {
    var xo, low := Xo(cw), cw as int % 4;
    assert FormOf(31, xo, low) == AGGGC;
    assert GetDecodeInfo(cw) == FormOf(31, xo, low);
  }

  /** Sorted tables join into a sorted table when the first one's last key
      is below the second one's first key. */
  lemma SortedConcat(a: seq<(int, Form)>, b: seq<(int, Form)>)
    requires Sorted(a) && Sorted(b)
    requires 0 < |a| && 0 < |b| && a[|a| - 1].0 < b[0].0
    ensures Sorted(a + b)
  {
    var c := a + b;
    forall i, j | 0 <= i < j < |c| ensures c[i].0 < c[j].0 {
      if i < |a| <= j {
        assert c[i].0 <= a[|a| - 1].0;
        assert b[0].0 <= c[j].0;
      }
    }
  }

  /** The tables of opcodes 19, 59 and 63 have strictly increasing keys,
      as std::lower_bound requires. */
  lemma Opcode19Sorted()
    ensures Sorted(Opcode19Table())
  {
    AdjacentSorted(Opcode19Table());
  }

  lemma Opcode59Sorted()
    ensures Sorted(Opcode59Table())
  {
  }

  lemma Opcode63Sorted()
    ensures Sorted(Opcode63Table())
  {
    AdjacentSorted(Opcode63Table());
  }

  /** Each key is below the next one. */
  predicate Adjacent(t: seq<(int, Form)>)
  {
    forall i :: 0 <= i < |t| - 1 ==> t[i].0 < t[i + 1].0
  }

  /** Keys that increase step by step increase throughout. */
  lemma AdjacentSorted(t: seq<(int, Form)>)
    requires Adjacent(t)
    ensures Sorted(t)
  {
    forall i, j | 0 <= i < j < |t| ensures t[i].0 < t[j].0 {
      var k := i + 1;
      while k < j
        invariant i < k <= j && t[i].0 < t[k].0
      {
        k := k + 1;
      }
    }
  }

  lemma Opcode31Part0Sorted() ensures Sorted(Opcode31Part0()) { AdjacentSorted(Opcode31Part0()); }
  lemma Opcode31Part1Sorted() ensures Sorted(Opcode31Part1()) { AdjacentSorted(Opcode31Part1()); }
  lemma Opcode31Part2Sorted() ensures Sorted(Opcode31Part2()) { AdjacentSorted(Opcode31Part2()); }
  lemma Opcode31Part3Sorted() ensures Sorted(Opcode31Part3()) { AdjacentSorted(Opcode31Part3()); }
  lemma Opcode31Part4Sorted() ensures Sorted(Opcode31Part4()) { AdjacentSorted(Opcode31Part4()); }

  /** The table of opcode 31 has strictly increasing keys: each part has,
      and each part's keys lie above the previous part's. */
  lemma Opcode31Sorted()
    ensures Sorted(Opcode31Table())
  {
    var p0, p1, p2, p3, p4 := Opcode31Part0(), Opcode31Part1(), Opcode31Part2(), Opcode31Part3(), Opcode31Part4();
    Opcode31Part0Sorted();
    Opcode31Part1Sorted();
    Opcode31Part2Sorted();
    Opcode31Part3Sorted();
    Opcode31Part4Sorted();
    SortedConcat(p0, p1);
    SortedConcat(p0 + p1, p2);
    SortedConcat(p0 + p1 + p2, p3);
    SortedConcat(p0 + p1 + p2 + p3, p4);
  }

  /** f is what an exact search of t for key xo yields: the operands of the
      entry with that key, or UND when no entry has it. */
  predicate KeyedForm(t: seq<(int, Form)>, xo: int, f: Form)
  {
    (forall j :: 0 <= j < |t| && t[j].0 == xo ==> f == t[j].1)
    && ((forall j :: 0 <= j < |t| ==> t[j].0 != xo) ==> f == UND)
  }

  /** Opcode 30 indexes its table by bits 1-4 of the code word, the low
      four bits of the extended opcode. */
  lemma IndexRoute30(cw: bv32)
    requires Opcode(cw) == 30
    ensures GetDecodeInfo(cw) == Opcode30Table()[Xo(cw) % 16]
  {
    var xo, low := Xo(cw), cw as int % 4;
    assert FormOf(30, xo, low) == Opcode30Table()[xo % 16];
    assert GetDecodeInfo(cw) == FormOf(30, xo, low);
  }

  /** Opcode 58 indexes its table by bits 0-1 of the code word. */
  lemma IndexRoute58(cw: bv32)
    requires Opcode(cw) == 58
    ensures GetDecodeInfo(cw) == Opcode58Table()[cw as int % 4]
  {
    var xo, low := Xo(cw), cw as int % 4;
    assert FormOf(58, xo, low) == Opcode58Table()[low];
    assert GetDecodeInfo(cw) == FormOf(58, xo, low);
  }

  /** Opcode 62 indexes its table by bits 0-1 of the code word. */
  lemma IndexRoute62(cw: bv32)
    requires Opcode(cw) == 62
    ensures GetDecodeInfo(cw) == Opcode62Table()[cw as int % 4]
  {
    var xo, low := Xo(cw), cw as int % 4;
    assert FormOf(62, xo, low) == Opcode62Table()[low];
    assert GetDecodeInfo(cw) == FormOf(62, xo, low);
  }

  /** Opcode 59 with bit 4 of the extended opcode set takes the A-form entry
      at the extended opcode's low four bits. */
  lemma AFormRoute59(cw: bv32)
    requires Opcode(cw) == 59 && Xo(cw) / 16 % 2 == 1
    ensures GetDecodeInfo(cw) == Opcode59AForms()[Xo(cw) % 16]
  {
    var xo, low := Xo(cw), cw as int % 4;
    assert FormOf(59, xo, low) == Opcode59AForms()[xo % 16];
    assert GetDecodeInfo(cw) == FormOf(59, xo, low);
  }

  /** Opcode 63 with bit 4 of the extended opcode set takes the A-form entry
      at the extended opcode's low four bits. */
  lemma AFormRoute63(cw: bv32)
    requires Opcode(cw) == 63 && Xo(cw) / 16 % 2 == 1
    ensures GetDecodeInfo(cw) == Opcode63AForms()[Xo(cw) % 16]
  {
    var xo, low := Xo(cw), cw as int % 4;
    assert FormOf(63, xo, low) == Opcode63AForms()[xo % 16];
    assert GetDecodeInfo(cw) == FormOf(63, xo, low);
  }

  /** In a sorted table the exact lookup yields the keyed form. */
  lemma SearchIsKeyed(t: seq<(int, Form)>, xo: int)
    requires Sorted(t)
    ensures KeyedForm(t, xo, FindDecodeInfo(t, xo))
  {
    FindExact(t, xo);
  }

  /** Opcode 19: the form of the entry keyed by the extended opcode, or UND
      when the table has no such key. */
  lemma SearchRoute19(cw: bv32)
    requires Opcode(cw) == 19
    ensures KeyedForm(Opcode19Table(), Xo(cw), GetDecodeInfo(cw))
  {
    var xo, low := Xo(cw), cw as int % 4;
    assert FormOf(19, xo, low) == FindDecodeInfo(Opcode19Table(), xo);
    assert GetDecodeInfo(cw) == FormOf(19, xo, low);
    Opcode19Keyed(xo);
  }

  /** Opcode 31 outside isel (the low four extended-opcode bits not all
      set): the form of the entry keyed by the extended opcode, or UND. */
  lemma SearchRoute31(cw: bv32)
    requires Opcode(cw) == 31 && Xo(cw) % 16 != 15
    ensures KeyedForm(Opcode31Table(), Xo(cw), GetDecodeInfo(cw))
  {
    var xo, low := Xo(cw), cw as int % 4;
    assert FormOf(31, xo, low) == FindDecodeInfo(Opcode31Table(), xo);
    assert GetDecodeInfo(cw) == FormOf(31, xo, low);
    Opcode31Keyed(xo);
  }

  /** Opcode 59 with bit 4 of the extended opcode clear: the form of the
      entry keyed by the extended opcode, or UND. */
  lemma SearchRoute59(cw: bv32)
    requires Opcode(cw) == 59 && Xo(cw) / 16 % 2 == 0
    ensures KeyedForm(Opcode59Table(), Xo(cw), GetDecodeInfo(cw))
  {
    var xo, low := Xo(cw), cw as int % 4;
    assert FormOf(59, xo, low) == FindDecodeInfo(Opcode59Table(), xo);
    assert GetDecodeInfo(cw) == FormOf(59, xo, low);
    Opcode59Keyed(xo);
  }

  /** Opcode 63 with bit 4 of the extended opcode clear: the form of the
      entry keyed by the extended opcode, or UND. */
  lemma SearchRoute63(cw: bv32)
    requires Opcode(cw) == 63 && Xo(cw) / 16 % 2 == 0
    ensures KeyedForm(Opcode63Table(), Xo(cw), GetDecodeInfo(cw))
  {
    var xo, low := Xo(cw), cw as int % 4;
    assert FormOf(63, xo, low) == FindDecodeInfo(Opcode63Table(), xo);
    assert GetDecodeInfo(cw) == FormOf(63, xo, low);
    Opcode63Keyed(xo);
  }

  /** The searches of the extended tables find exactly the entries they
      hold. */
  lemma Opcode19Keyed(xo: int)
    ensures KeyedForm(Opcode19Table(), xo, FindDecodeInfo(Opcode19Table(), xo))
  {
    Opcode19Sorted();
    SearchIsKeyed(Opcode19Table(), xo);
  }

  lemma Opcode31Keyed(xo: int)
    ensures KeyedForm(Opcode31Table(), xo, FindDecodeInfo(Opcode31Table(), xo))
  {
    Opcode31Sorted();
    SearchIsKeyed(Opcode31Table(), xo);
  }

  lemma Opcode59Keyed(xo: int)
    ensures KeyedForm(Opcode59Table(), xo, FindDecodeInfo(Opcode59Table(), xo))
  {
    Opcode59Sorted();
    SearchIsKeyed(Opcode59Table(), xo);
  }

  lemma Opcode63Keyed(xo: int)
    ensures KeyedForm(Opcode63Table(), xo, FindDecodeInfo(Opcode63Table(), xo))
  {
    Opcode63Sorted();
    SearchIsKeyed(Opcode63Table(), xo);
  }

  // ---------------------------------------------------------------------
  // Properties of the operand values
  // ---------------------------------------------------------------------

  /** The sign-extended field is a 64-bit value, keeps the field in its low
      count bits, and has its top bit set exactly when the field's top bit
      is set (for fields of 2 to 64 bits). */
  lemma SignedFieldShape(cw: bv32, index: nat, count: nat)
    requires 0 < count <= 64
    ensures SignedField(cw, index, count) < U64
    ensures SignedField(cw, index, count) % Pow2(count) == Field(cw, index, count)
    ensures 1 < count ==>
      (Negative(count, Field(cw, index, count)) <==> Negative(64, SignedField(cw, index, count)))
  {
    Pow2Of32And64();
    SignedFieldLowBits(cw, index, count);
    if 1 < count {
      SignedFieldSign(cw, index, count);
    }
  }

  /** The low count bits of the sign-extended field are the field. */
  lemma SignedFieldLowBits(cw: bv32, index: nat, count: nat)
    requires 0 < count <= 64
    ensures SignedField(cw, index, count) % Pow2(count) == Field(cw, index, count)
  {
    var f := Field(cw, index, count);
    FieldBound(cw, index, count);
    var s := Signed(count, f);
    Pow2Add(count, 64 - count);
    ModMod(s, Pow2(count), Pow2(64 - count));
    UnsignedOfSigned(count, f);
  }

  /** The top bit of the sign-extended field is the field's top bit. */
  lemma SignedFieldSign(cw: bv32, index: nat, count: nat)
    requires 1 < count <= 64
    ensures Negative(count, Field(cw, index, count)) <==> Negative(64, SignedField(cw, index, count))
  {
    var f := Field(cw, index, count);
    FieldBound(cw, index, count);
    var s := Signed(count, f);
    Pow2Of32And64();
    Pow2Mono(count - 1, 63);
    ModOnceNeg(s, Pow2(64));
  }

  /** SH6 and MB5 are six-bit numbers whose top bit is the single split bit
      (bit 1, resp. bit 5) and whose low five bits are the 5-bit field
      (bits 11-15, resp. 6-10). */
  lemma SplitFields(cw: bv32, bases: RegisterBases)
    ensures Value(ISH6, cw, bases) < 64 && Value(ISH6, cw, bases) / 32 == Field(cw, 1, 1)
    ensures Value(ISH6, cw, bases) % 32 == Field(cw, 11, 5)
    ensures Value(IMB5, cw, bases) < 64 && Value(IMB5, cw, bases) / 32 == Field(cw, 5, 1)
    ensures Value(IMB5, cw, bases) % 32 == Field(cw, 6, 5)
  {
    FieldBound(cw, 1, 1);
    FieldBound(cw, 11, 5);
    FieldBound(cw, 5, 1);
    FieldBound(cw, 6, 5);
  }

  /** A register operand is its file's first register plus the 5-bit (or
      3-bit CR) field, while the register numbers stay below 2^31. */
  lemma RegisterNumbers(op: OperandFormat, cw: bv32, bases: RegisterBases)
    requires op.kind in {GPR, FPR, CRN} && op.bitCount <= 5
    requires bases.gpr < 0x7FFF_0000 && bases.fpr < 0x7FFF_0000 && bases.cr < 0x7FFF_0000
    ensures var base := match op.kind case GPR => bases.gpr case FPR => bases.fpr case _ => bases.cr;
      base <= ToInt(Value(op, cw, bases)) == base + Field(cw, op.bitIndex, op.bitCount) < base + 32
  {
    var f := Field(cw, op.bitIndex, op.bitCount);
    FieldBound(cw, op.bitIndex, op.bitCount);
    Pow2Mono(op.bitCount, 5);
    assert Pow2(5) == 32;
    var base := match op.kind case GPR => bases.gpr case FPR => bases.fpr case _ => bases.cr;
    assert Value(op, cw, bases) == (f + base) % U64;
    ModOnce(f + base, U64);
    assert Value(op, cw, bases) == f + base < 0x8000_0000;
  }

  // ---------------------------------------------------------------------
  // Properties of Decode
  // ---------------------------------------------------------------------

  /** The operand loop stops at the first NONE: what follows it in the list
      does not matter. */
  lemma {:induction false} StopsAtNone(info: seq<Elem>, rest: seq<Elem>, i: nat, cw: bv32,
                                       bases: RegisterBases, s: Slots)
    requires i <= |info| && Sized(s)
    requires exists k :: i <= k < |info| && info[k].place == NONE
    ensures ApplyFrom(info, i, cw, bases, s) == ApplyFrom(info + rest, i, cw, bases, s)
    decreases |info| - i
  {
    if info[i].place != NONE {
      var k :| i <= k < |info| && info[k].place == NONE;
      assert k != i;
      StopsAtNone(info, rest, i + 1, cw, bases, Write(s, info[i], cw, bases));
    }
  }

  /** Every list ends in NONE (or fills all six places), so Decode writes
      exactly the operands of the form. */
  lemma {:induction false} WritesOperands(es: seq<Elem>, i: nat, cw: bv32, bases: RegisterBases, s: Slots)
    requires |es| <= MaxOperands && i <= |es| && Sized(s)
    requires forall j :: 0 <= j < |es| ==> es[j].place != NONE
    ensures ApplyFrom(Pad(es), i, cw, bases, s) == ApplyFrom(es, i, cw, bases, s)
    decreases |es| - i
  {
    var info := Pad(es);
    if i == |es| {
      if i < MaxOperands {
        assert info[i] == EndOfList;
      }
    } else {
      assert info[i] == es[i] by { assert info[..|es|] == es; }
      WritesOperands(es, i + 1, cw, bases, Write(s, es[i], cw, bases));
    }
  }

  /** The isel operands: RT, RA, RB as general registers, the CR field of
      BC and the bit of BC within it. */
  lemma IselOperands(cw: bv32, bases: RegisterBases)
    requires Opcode(cw) == 31 && Xo(cw) % 16 == 15
    ensures Decoded(cw, bases).reg ==
      [ToInt(Value(GR0, cw, bases)), ToInt(Value(GR1, cw, bases)),
       ToInt(Value(GR2, cw, bases)), ToInt(Value(CR3, cw, bases))]
    ensures Decoded(cw, bases).imm == [Field(cw, 6, 2), 0, 0, 0]
  {
    IselRoute(cw);
    WritesOperands(Operands(AGGGC), 0, cw, bases, Cleared);
  }
}
