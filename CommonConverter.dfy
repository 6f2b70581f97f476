/** The ISA-independent part of the instruction converters: the table of
    operation definitions keyed by (mask, opcode), the lookup that picks the
    definition with the strictest matching mask, and the translation of one
    micro-op definition and a decoded instruction into the operand lists of
    an OpInfo. */
module CommonConverter {
  import opened Wrappers
  import OpClassCode

  /** A 32-bit code word, mask or opcode. */
  type Word32 = x: int | 0 <= x < 0x1_0000_0000

  /** The bitwise and of two 32-bit words. */
  function And32(a: Word32, b: Word32): Word32
  {
    ((a as bv32) & (b as bv32)) as int
  }

  /** Whether a source operand is a register or an immediate. */
  datatype OperandType = REG | IMM

  /** A micro-op definition: its class and its destination and source
      operand templates, each list ending at the first -1 or at its end. */
  datatype OpInfoDef = OpInfoDef(iclass: int, dstTemplate: seq<int>, srcTemplate: seq<int>)

  /** An operation definition: it matches a code word w when w & mask ==
      opcode, and it expands to the micro-ops infoDefs (nOpInfoDefs is their
      count). */
  datatype OpDef = OpDef(name: string, mask: Word32, opcode: Word32, infoDefs: seq<OpInfoDef>)

  /** The parts of a decoded instruction the converter reads. */
  datatype Decoded = Decoded(codeWord: Word32, imm: seq<int>)

  /** The ISA's customisation points: IsZeroReg, GetActualRegNumber and
      GetActualSrcOperand (which answers a register number or an index into
      the decoded immediates). */
  datatype Isa = Isa(isZeroReg: int -> bool,
                     actualReg: (int, Decoded) -> int,
                     actualSrc: (int, Decoded) -> (OperandType, int))

  /** Destination operands: how many templates were read, the non-zero
      registers and, for each, the template index it came from. */
  datatype DstPart = DstPart(opNum: nat, regs: seq<int>, opMap: seq<nat>)

  /** Source operands: how many templates were read, the register sources
      and the immediates, each with the template index it came from. */
  datatype SrcPart = SrcPart(opNum: nat, regs: seq<int>, regOpMap: seq<nat>,
                             imms: seq<int>, immOpMap: seq<nat>)

  datatype OpInfo = OpInfo(iclass: int, microOpNum: int, microOpIndex: int, mnemonic: string,
                           dst: DstPart, src: SrcPart)

  const NoDst := DstPart(0, [], [])
  const NoSrc := SrcPart(0, [], [], [], [])

  type OpMap = map<Word32, map<Word32, OpDef>>

  // ---------------------------------------------------------------------
  // The opcode map
  // ---------------------------------------------------------------------

  /** Every definition is filed under its own mask and opcode. */
  ghost predicate WellFiled(m: OpMap)
  {
    forall k, o :: k in m && o in m[k] ==> m[k][o].mask == k && m[k][o].opcode == o
  }

  predicate Registered(m: OpMap, def: OpDef)
  {
    def.mask in m && def.opcode in m[def.mask]
  }

  function Insert(m: OpMap, def: OpDef): OpMap
  {
    var inner: map<Word32, OpDef> := if def.mask in m then m[def.mask] else map[];
    m[def.mask := inner[def.opcode := def]]
  }

  /** AddToOpMap: insert the definitions in order; the first one whose
      (mask, opcode) is already present fails the assertion and stops the
      insertion. The map reached and whether every definition went in. */
  function AddAll(m: OpMap, defs: seq<OpDef>): (OpMap, bool)
    decreases |defs|
  {
    if |defs| == 0 then (m, true)
    else if Registered(m, defs[0]) then (m, false)
    else AddAll(Insert(m, defs[0]), defs[1..])
  }

  /** No definition collides with the map or with another definition. */
  ghost predicate NoConflict(m: OpMap, defs: seq<OpDef>)
  {
    (forall j :: 0 <= j < |defs| ==> !Registered(m, defs[j])) &&
    (forall j, j' :: 0 <= j < j' < |defs| ==>
       defs[j].mask != defs[j'].mask || defs[j].opcode != defs[j'].opcode)
  }

  /** The code word finds a definition under mask k. */
  predicate Matches(m: OpMap, cw: Word32, k: Word32)
  {
    k in m && And32(cw, k) in m[k]
  }

  /** The masks under which the code word finds a definition. */
  ghost function Matching(m: OpMap, cw: Word32): set<Word32>
  {
    set k | k in m.Keys && Matches(m, cw, k)
  }

  /** k is the largest element of s. */
  predicate IsMaxOf(s: set<Word32>, k: Word32)
  {
    k in s && forall x :: x in s ==> x <= k
  }

  lemma {:induction false} MaxExists(s: set<Word32>)
    requires s != {}
    ensures exists k :: IsMaxOf(s, k)
    decreases |s|
  {
    var y :| y in s;
    if s - {y} == {} {
      assert s == {y};
      assert IsMaxOf(s, y);
    } else {
      MaxExists(s - {y});
      var r :| IsMaxOf(s - {y}, r);
      if y < r {
        forall x | x in s ensures x <= r {
          if x != y { assert x in s - {y}; }
        }
        assert IsMaxOf(s, r);
      } else {
        forall x | x in s ensures x <= y {
          if x != y { assert x in s - {y}; }
        }
        assert IsMaxOf(s, y);
      }
    }
  }

  /** FindOpDef: the definition found under the largest matching mask, or
      the unknown definition when no mask matches. */
  ghost function Selected(m: OpMap, cw: Word32, unknown: OpDef): OpDef
  {
    var s := Matching(m, cw);
    if s == {} then unknown
    else
      MaxExists(s);
      var k :| IsMaxOf(s, k);
      m[k][And32(cw, k)]
  }

  // ---------------------------------------------------------------------
  // Operand translation
  // ---------------------------------------------------------------------

  /** The number of templates before the first -1. */
  function Leading(t: seq<int>): (n: nat)
    ensures n <= |t| && (forall j :: 0 <= j < n ==> t[j] != -1) && (n < |t| ==> t[n] == -1)
  {
    if |t| == 0 || t[0] == -1 then 0 else 1 + Leading(t[1..])
  }

  /** One iteration of the destination loop on register reg of template i. */
  function DstStep(acc: DstPart, i: nat, isa: Isa, reg: int): DstPart
  {
    if isa.isZeroReg(reg) then acc.(opNum := acc.opNum + 1)
    else DstPart(acc.opNum + 1, acc.regs + [reg], acc.opMap + [i])
  }

  /** The destination loop from template i on, with acc built so far. */
  function DstFrom(t: seq<int>, i: nat, isa: Isa, d: Decoded, acc: DstPart): Result<DstPart>
    requires i <= |t|
    decreases |t| - i
  {
    if i == |t| || t[i] == -1 then Ok(acc)
    else
      var reg := isa.actualReg(t[i], d);
      if reg == -1 then Fail("dstReg != -1")
      else DstFrom(t, i + 1, isa, d, DstStep(acc, i, isa, reg))
  }

  /** A source operand that stays a register: a register that is not the
      zero register. */
  predicate IsRegSource(isa: Isa, op: (OperandType, int))
  {
    op.0 == REG && !isa.isZeroReg(op.1)
  }

  /** The immediate a non-register source contributes: 0 for the zero
      register, the decoded immediate for an immediate source. */
  function ImmOf(op: (OperandType, int), d: Decoded): int
  {
    if op.0 == IMM && 0 <= op.1 < |d.imm| then d.imm[op.1] else 0
  }

  /** A source the source code cannot translate: register -1 (an assertion)
      or an immediate index outside the decoded immediates. */
  predicate SrcBad(op: (OperandType, int), d: Decoded)
  {
    (op.0 == REG && op.1 == -1) || (op.0 == IMM && !(0 <= op.1 < |d.imm|))
  }

  /** One iteration of the source loop on operand op of template i. */
  function SrcStep(acc: SrcPart, i: nat, isa: Isa, op: (OperandType, int), d: Decoded): SrcPart
  {
    if IsRegSource(isa, op)
    then acc.(opNum := acc.opNum + 1, regs := acc.regs + [op.1], regOpMap := acc.regOpMap + [i])
    else acc.(opNum := acc.opNum + 1, imms := acc.imms + [ImmOf(op, d)], immOpMap := acc.immOpMap + [i])
  }

  /** The source loop from template i on, with acc built so far. */
  function SrcFrom(t: seq<int>, i: nat, isa: Isa, d: Decoded, acc: SrcPart): Result<SrcPart>
    requires i <= |t|
    decreases |t| - i
  {
    if i == |t| || t[i] == -1 then Ok(acc)
    else
      var op := isa.actualSrc(t[i], d);
      if SrcBad(op, d) then Fail(if op.0 == REG then "srcReg != -1" else "immediate index out of range")
      else SrcFrom(t, i + 1, isa, d, SrcStep(acc, i, isa, op, d))
  }

  /** static_cast<s32> of the code word. */
  function CodeWordImm(cw: Word32): (v: int)
    ensures -0x8000_0000 <= v < 0x8000_0000
  {
    var w: int := cw;
    if w < 0x8000_0000 then w else w - 0x1_0000_0000
  }

  /** The immediate of an undefined op wraps back to the code word. */
  lemma CodeWordImmWraps(cw: Word32)
    ensures CodeWordImm(cw) % 0x1_0000_0000 == cw
  {
    var w: int := cw;
    assert 0 <= w < 0x1_0000_0000;
    if w < 0x8000_0000 {
      assert CodeWordImm(cw) == w;
    } else {
      assert CodeWordImm(cw) == w - 0x1_0000_0000;
      assert (w - 0x1_0000_0000) + 0x1_0000_0000 == w;
    }
  }

  /** ConvertOneOpInfo as a value: an undefined op carries the code word as
      its one immediate; any other op gets its destination and source
      operands from the templates. */
  function OneOpInfo(d: Decoded, def: OpInfoDef, microNum: int, microIndex: int,
                     mnemonic: string, isa: Isa): Result<OpInfo>
  {
    if def.iclass == OpClassCode.UNDEF then
      Ok(OpInfo(def.iclass, microNum, microIndex, mnemonic, NoDst,
                SrcPart(1, [], [], [CodeWordImm(d.codeWord)], [0])))
    else
      match DstFrom(def.dstTemplate, 0, isa, d, NoDst)
      case Fail(e) => Fail(e)
      case Ok(dst) =>
        match SrcFrom(def.srcTemplate, 0, isa, d, NoSrc)
        case Fail(e) => Fail(e)
        case Ok(src) => Ok(OpInfo(def.iclass, microNum, microIndex, mnemonic, dst, src))
  }

  /** Convert from micro-op i on, with the OpInfos produced so far. */
  function ConvertFrom(def: OpDef, i: nat, d: Decoded, isa: Isa, acc: seq<OpInfo>): Result<seq<OpInfo>>
    requires i <= |def.infoDefs|
    decreases |def.infoDefs| - i
  {
    if i == |def.infoDefs| then Ok(acc)
    else
      match OneOpInfo(d, def.infoDefs[i], |def.infoDefs|, i, def.name, isa)
      case Fail(e) => Fail(e)
      case Ok(op) => ConvertFrom(def, i + 1, d, isa, acc + [op])
  }

  // ---------------------------------------------------------------------
  // The converter
  // ---------------------------------------------------------------------

  class Converter {
    var opMap: OpMap
    /** GetOpDefUnknown */
    const unknown: OpDef
    const isa: Isa

    ghost predicate Valid()
      reads this
    {
      WellFiled(opMap)
    }

    constructor (isa: Isa, unknown: OpDef)
      ensures Valid() && opMap == map[] && this.isa == isa && this.unknown == unknown
    {
      this.isa := isa;
      this.unknown := unknown;
      opMap := map[];
    }

    /** AddToOpMap: file each definition under its mask and opcode; a
        (mask, opcode) already present fails the assertion. */
    method AddToOpMap(opDefs: seq<OpDef>) returns (r: Result<()>)
      requires Valid()
      modifies this
      ensures Valid()
      ensures (opMap, r.Ok?) == AddAll(old(opMap), opDefs)
    {
      var i := 0;
      while i < |opDefs|
        invariant 0 <= i <= |opDefs| && WellFiled(opMap)
        invariant AddAll(opMap, opDefs[i..]) == AddAll(old(opMap), opDefs)
      {
        var opdef := opDefs[i];
        assert opDefs[i..][0] == opdef && opDefs[i..][1..] == opDefs[i + 1..];
        if opdef.mask in opMap && opdef.opcode in opMap[opdef.mask] {
          return Fail("opcode conflict detected");
        }
        InsertKeepsFiled(opMap, opdef);
        opMap := Insert(opMap, opdef);
        i := i + 1;
      }
      assert opDefs[i..] == [];
      r := Ok(());
    }

    /** FindOpDef: try the masks from the largest down; the first one under
        which code word & mask is filed wins. */
    method FindOpDef(codeWord: Word32) returns (def: OpDef)
      requires Valid()
      ensures def == Selected(opMap, codeWord, unknown)
    {
      var remaining := opMap.Keys;
      while remaining != {}
        invariant remaining <= opMap.Keys
        invariant forall k :: k in opMap.Keys && k !in remaining ==> !Matches(opMap, codeWord, k)
        invariant forall k, k' :: k in remaining && k' in opMap.Keys && k' !in remaining ==> k < k'
        decreases remaining
      {
        MaxExists(remaining);
        var mask :| IsMaxOf(remaining, mask);
        if And32(codeWord, mask) in opMap[mask] {
          ghost var s := Matching(opMap, codeWord);
          assert IsMaxOf(s, mask) by {
            assert Matches(opMap, codeWord, mask);
            forall k | k in s ensures k <= mask {
              assert Matches(opMap, codeWord, k);
            }
          }
          return opMap[mask][And32(codeWord, mask)];
        }
        ghost var before := remaining;
        remaining := remaining - {mask};
        forall k, k' | k in remaining && k' in opMap.Keys && k' !in remaining
          ensures k < k'
        {
          if k' in before {
            assert k' == mask && k <= mask && k != mask;
          }
        }
      }
      assert forall k :: k in opMap.Keys ==> !Matches(opMap, codeWord, k);
      assert Matching(opMap, codeWord) == {};
      return unknown;
    }

    /** ConvertOneOpInfo: an undefined op gets the code word as its single
        immediate; otherwise the destination loop reads templates up to the
        first -1, dropping zero registers, and the source loop does the
        same, turning a zero-register source into the immediate 0. */
    method ConvertOneOpInfo(decoded: Decoded, opInfoDef: OpInfoDef, microNum: int,
                            microOpIndex: int, mnemonic: string) returns (r: Result<OpInfo>)
      ensures r == OneOpInfo(decoded, opInfoDef, microNum, microOpIndex, mnemonic, isa)
    {
      if opInfoDef.iclass == OpClassCode.UNDEF {
        return Ok(OpInfo(opInfoDef.iclass, microNum, microOpIndex, mnemonic, NoDst,
                         SrcPart(1, [], [], [CodeWordImm(decoded.codeWord)], [0])));
      }
      var dst := DstOperands(decoded, opInfoDef.dstTemplate);
      if dst.Fail? {
        return Fail(dst.error);
      }
      var src := SrcOperands(decoded, opInfoDef.srcTemplate);
      if src.Fail? {
        return Fail(src.error);
      }
      return Ok(OpInfo(opInfoDef.iclass, microNum, microOpIndex, mnemonic, dst.value, src.value));
    }

    /** The destination loop of ConvertOneOpInfo. */
    method DstOperands(decoded: Decoded, dstTemplate: seq<int>) returns (r: Result<DstPart>)
      ensures r == DstFrom(dstTemplate, 0, isa, decoded, NoDst)
    {
      var dstRegNum := 0;
      var dstOpNum := 0;
      var regs: seq<int> := [];
      var dstOpMap: seq<nat> := [];
      var i := 0;
      while i < |dstTemplate|
        invariant 0 <= i <= |dstTemplate| && dstRegNum == |regs|
        invariant DstFrom(dstTemplate, i, isa, decoded, DstPart(dstOpNum, regs, dstOpMap))
               == DstFrom(dstTemplate, 0, isa, decoded, NoDst)
      {
        var template := dstTemplate[i];
        if template == -1 {
          break;
        }
        var dstReg := isa.actualReg(template, decoded);
        if dstReg == -1 {
          return Fail("dstReg != -1");
        }
        if !isa.isZeroReg(dstReg) {
          dstOpMap := dstOpMap + [i];
          regs := regs + [dstReg];
          dstRegNum := dstRegNum + 1;
        }
        dstOpNum := dstOpNum + 1;
        i := i + 1;
      }
      return Ok(DstPart(dstOpNum, regs, dstOpMap));
    }

    /** The source loop of ConvertOneOpInfo. */
    method SrcOperands(decoded: Decoded, srcTemplate: seq<int>) returns (r: Result<SrcPart>)
      ensures r == SrcFrom(srcTemplate, 0, isa, decoded, NoSrc)
    {
      var acc := NoSrc;
      var i := 0;
      while i < |srcTemplate|
        invariant 0 <= i <= |srcTemplate|
        invariant SrcFrom(srcTemplate, i, isa, decoded, acc) == SrcFrom(srcTemplate, 0, isa, decoded, NoSrc)
      {
        var template := srcTemplate[i];
        if template == -1 {
          break;
        }
        var operand := isa.actualSrc(template, decoded);
        match operand.0 {
          case REG =>
            var srcReg := operand.1;
            if srcReg == -1 {
              return Fail("srcReg != -1");
            }
            if isa.isZeroReg(srcReg) {
              acc := acc.(imms := acc.imms + [0], immOpMap := acc.immOpMap + [i]);
            } else {
              acc := acc.(regs := acc.regs + [srcReg], regOpMap := acc.regOpMap + [i]);
            }
          case IMM =>
            var immIndex := operand.1;
            if !(0 <= immIndex < |decoded.imm|) {
              return Fail("immediate index out of range");
            }
            acc := acc.(imms := acc.imms + [decoded.imm[immIndex]], immOpMap := acc.immOpMap + [i]);
        }
        acc := acc.(opNum := acc.opNum + 1);
        i := i + 1;
      }
      return Ok(acc);
    }

    /** Convert: look up the definition of the decoded code word and
        translate each of its micro-ops, numbering them 0 .. n-1. */
    method Convert(decoded: Decoded) returns (r: Result<seq<OpInfo>>)
      requires Valid()
      ensures r == ConvertFrom(Selected(opMap, decoded.codeWord, unknown), 0, decoded, isa, [])
    {
      var opdef := FindOpDef(decoded.codeWord);
      var out: seq<OpInfo> := [];
      var i := 0;
      while i < |opdef.infoDefs|
        invariant 0 <= i <= |opdef.infoDefs|
        invariant ConvertFrom(opdef, i, decoded, isa, out) == ConvertFrom(opdef, 0, decoded, isa, [])
      {
        var op := ConvertOneOpInfo(decoded, opdef.infoDefs[i], |opdef.infoDefs|, i, opdef.name);
        if op.Fail? {
          return Fail(op.error);
        }
        out := out + [op.value];
        i := i + 1;
      }
      return Ok(out);
    }
  }

  // ---------------------------------------------------------------------
  // Properties of the opcode map
  // ---------------------------------------------------------------------

  lemma InsertKeepsFiled(m: OpMap, def: OpDef)
    requires WellFiled(m)
    ensures WellFiled(Insert(m, def))
  {
    var m': OpMap := Insert(m, def);
    forall k: Word32, o: Word32 | k in m' && o in m'[k]
      ensures m'[k][o].mask == k && m'[k][o].opcode == o
    {
      if k == def.mask && o == def.opcode {
        assert m'[k][o] == def;
      } else if k == def.mask {
        assert m'[k][o] == m[k][o];
      } else {
        assert m'[k] == m[k];
      }
    }
  }

  /** A definition is registered after an insertion exactly when it was
      before or it has the inserted (mask, opcode). */
  lemma RegisteredAfterInsert(m: OpMap, def: OpDef, e: OpDef)
    ensures Registered(Insert(m, def), e) <==>
      Registered(m, e) || (e.mask == def.mask && e.opcode == def.opcode)
  {
  }

  /** AddToOpMap succeeds exactly when no definition collides with the map
      or with another definition of the list. */
  lemma {:induction false} AddAllSucceedsIff(m: OpMap, defs: seq<OpDef>)
    ensures AddAll(m, defs).1 <==> NoConflict(m, defs)
    decreases |defs|
  {
    if |defs| > 0 {
      var m' := Insert(m, defs[0]);
      AddAllSucceedsIff(m', defs[1..]);
      forall e | true
        ensures Registered(m', e) <==> Registered(m, e) || (e.mask == defs[0].mask && e.opcode == defs[0].opcode)
      {
        RegisteredAfterInsert(m, defs[0], e);
      }
      if NoConflict(m, defs) {
        assert NoConflict(m', defs[1..]) by {
          forall j, j' | 0 <= j < j' < |defs[1..]|
            ensures defs[1..][j].mask != defs[1..][j'].mask || defs[1..][j].opcode != defs[1..][j'].opcode
          {
            assert defs[1..][j] == defs[j + 1] && defs[1..][j'] == defs[j' + 1];
          }
          forall j | 0 <= j < |defs[1..]|
            ensures !Registered(m', defs[1..][j])
          {
            assert defs[1..][j] == defs[j + 1];
            assert !Registered(m, defs[j + 1]);
          }
        }
      } else if !Registered(m, defs[0]) {
        if exists j :: 0 <= j < |defs| && Registered(m, defs[j]) {
          var j :| 0 <= j < |defs| && Registered(m, defs[j]);
          assert j > 0 && defs[1..][j - 1] == defs[j];
          assert Registered(m', defs[1..][j - 1]);
        } else {
          var j, j' :| 0 <= j < j' < |defs| && defs[j].mask == defs[j'].mask && defs[j].opcode == defs[j'].opcode;
          assert defs[1..][j' - 1] == defs[j'];
          if j == 0 {
            assert Registered(m', defs[1..][j' - 1]);
          } else {
            assert defs[1..][j - 1] == defs[j];
          }
        }
      }
    }
  }

  /** After a successful AddToOpMap every definition of the list is filed
      under its own mask and opcode, and what was filed before is kept. */
  lemma {:induction false} AddAllFiles(m: OpMap, defs: seq<OpDef>)
    requires AddAll(m, defs).1
    ensures forall j :: 0 <= j < |defs| ==>
      Registered(AddAll(m, defs).0, defs[j]) && AddAll(m, defs).0[defs[j].mask][defs[j].opcode] == defs[j]
    ensures forall k, o :: k in m && o in m[k] ==>
      (k in AddAll(m, defs).0 && o in AddAll(m, defs).0[k] && AddAll(m, defs).0[k][o] == m[k][o])
    decreases |defs|
  {
    if |defs| > 0 {
      var m' := Insert(m, defs[0]);
      AddAllFiles(m', defs[1..]);
      forall k, o | k in m && o in m[k]
        ensures k in m' && o in m'[k] && m'[k][o] == m[k][o]
      {
        assert k != defs[0].mask || o != defs[0].opcode;
      }
      assert defs[0].mask in m' && m'[defs[0].mask][defs[0].opcode] == defs[0];
      forall j | 0 <= j < |defs|
        ensures Registered(AddAll(m, defs).0, defs[j]) && AddAll(m, defs).0[defs[j].mask][defs[j].opcode] == defs[j]
      {
        if j > 0 {
          assert defs[1..][j - 1] == defs[j];
        }
      }
    }
  }

  /** The lookup picks a definition that matches the code word, filed under
      the largest mask that matches; the unknown definition only when no
      mask matches. */
  lemma SelectedIsStrictestMatch(m: OpMap, cw: Word32, unknown: OpDef)
    requires WellFiled(m)
    ensures Matching(m, cw) == {} ==> Selected(m, cw, unknown) == unknown
    ensures Matching(m, cw) != {} ==>
      var def := Selected(m, cw, unknown);
      def.mask in Matching(m, cw) && And32(cw, def.mask) == def.opcode &&
      (forall k :: k in Matching(m, cw) ==> k <= def.mask)
  {
    var s := Matching(m, cw);
    if s != {} {
      MaxExists(s);
      var k :| IsMaxOf(s, k);
      assert Matches(m, cw, k);
      var def := m[k][And32(cw, k)];
      assert def.mask == k && def.opcode == And32(cw, k);
      assert Selected(m, cw, unknown) == def;
    }
  }

  /** A definition filed after a successful AddToOpMap is found for every
      code word it matches, unless a definition under a larger mask also
      matches. */
  lemma FoundWhenStrictest(m: OpMap, cw: Word32, unknown: OpDef, def: OpDef)
    requires WellFiled(m) && Registered(m, def) && m[def.mask][def.opcode] == def
    requires And32(cw, def.mask) == def.opcode
    requires forall k :: k in m && k > def.mask ==> And32(cw, k) !in m[k]
    ensures Selected(m, cw, unknown) == def
  {
    var s := Matching(m, cw);
    assert IsMaxOf(s, def.mask) by {
      assert Matches(m, cw, def.mask);
      forall k | k in s ensures k <= def.mask {
        assert Matches(m, cw, k);
      }
    }
  }

  // ---------------------------------------------------------------------
  // Properties of operand translation
  // ---------------------------------------------------------------------

  /** The destination operands after the first i templates: opNum counts
      the templates read, and the registers are, in template order, exactly
      those that are not the zero register. */
  ghost predicate DstInv(t: seq<int>, i: nat, isa: Isa, d: Decoded, p: DstPart)
    requires i <= |t|
  {
    p.opNum == i && |p.regs| == |p.opMap| &&
    (forall j :: 0 <= j < |p.opMap| ==>
       p.opMap[j] < i && p.regs[j] == isa.actualReg(t[p.opMap[j]], d) && !isa.isZeroReg(p.regs[j])) &&
    (forall j, j' :: 0 <= j < j' < |p.opMap| ==> p.opMap[j] < p.opMap[j']) &&
    (forall n :: 0 <= n < i && !isa.isZeroReg(isa.actualReg(t[n], d)) ==> n in p.opMap)
  }

  lemma DstInvStep(t: seq<int>, i: nat, isa: Isa, d: Decoded, acc: DstPart)
    requires i < |t| && DstInv(t, i, isa, d, acc)
    ensures DstInv(t, i + 1, isa, d, DstStep(acc, i, isa, isa.actualReg(t[i], d)))
  {
    var next := DstStep(acc, i, isa, isa.actualReg(t[i], d));
    forall n | 0 <= n < i + 1 && !isa.isZeroReg(isa.actualReg(t[n], d))
      ensures n in next.opMap
    {
      if n < i {
        assert n in acc.opMap;
      } else {
        assert next.opMap[|next.opMap| - 1] == n;
      }
    }
  }

  lemma {:induction false} DstFromKeeps(t: seq<int>, i: nat, isa: Isa, d: Decoded, acc: DstPart)
    requires i <= Leading(t) && DstInv(t, i, isa, d, acc)
    ensures DstFrom(t, i, isa, d, acc).Ok? ==> DstInv(t, Leading(t), isa, d, DstFrom(t, i, isa, d, acc).value)
    ensures DstFrom(t, i, isa, d, acc).Fail? <==>
      exists n :: i <= n < Leading(t) && isa.actualReg(t[n], d) == -1
    decreases |t| - i
  {
    if i < Leading(t) {
      var reg := isa.actualReg(t[i], d);
      if reg != -1 {
        var next := DstStep(acc, i, isa, reg);
        DstInvStep(t, i, isa, d, acc);
        DstFromKeeps(t, i + 1, isa, d, next);
      }
    }
  }

  /** The source operands after the first i templates: opNum counts the
      templates read; every template index is either a register source,
      filed in regOpMap with its register, or an immediate, filed in
      immOpMap with 0 for the zero register or else the decoded
      immediate it names. */
  ghost predicate SrcInv(t: seq<int>, i: nat, isa: Isa, d: Decoded, p: SrcPart)
    requires i <= |t|
  {
    p.opNum == i && |p.regs| == |p.regOpMap| && |p.imms| == |p.immOpMap| &&
    |p.regOpMap| + |p.immOpMap| == i &&
    (forall j :: 0 <= j < |p.regOpMap| ==>
       p.regOpMap[j] < i && IsRegSource(isa, isa.actualSrc(t[p.regOpMap[j]], d)) &&
       p.regs[j] == isa.actualSrc(t[p.regOpMap[j]], d).1) &&
    (forall j :: 0 <= j < |p.immOpMap| ==>
       p.immOpMap[j] < i && !IsRegSource(isa, isa.actualSrc(t[p.immOpMap[j]], d)) &&
       p.imms[j] == ImmOf(isa.actualSrc(t[p.immOpMap[j]], d), d)) &&
    (forall j, j' :: 0 <= j < j' < |p.regOpMap| ==> p.regOpMap[j] < p.regOpMap[j']) &&
    (forall j, j' :: 0 <= j < j' < |p.immOpMap| ==> p.immOpMap[j] < p.immOpMap[j']) &&
    (forall n :: 0 <= n < i ==>
       if IsRegSource(isa, isa.actualSrc(t[n], d)) then n in p.regOpMap else n in p.immOpMap)
  }

  lemma SrcInvStep(t: seq<int>, i: nat, isa: Isa, d: Decoded, acc: SrcPart)
    requires i < |t| && SrcInv(t, i, isa, d, acc)
    ensures SrcInv(t, i + 1, isa, d, SrcStep(acc, i, isa, isa.actualSrc(t[i], d), d))
  {
    if IsRegSource(isa, isa.actualSrc(t[i], d)) {
      SrcInvStepReg(t, i, isa, d, acc);
    } else {
      SrcInvStepImm(t, i, isa, d, acc);
    }
  }

  lemma SrcInvStepReg(t: seq<int>, i: nat, isa: Isa, d: Decoded, acc: SrcPart)
    requires i < |t| && SrcInv(t, i, isa, d, acc) && IsRegSource(isa, isa.actualSrc(t[i], d))
    ensures SrcInv(t, i + 1, isa, d, SrcStep(acc, i, isa, isa.actualSrc(t[i], d), d))
  {
    var next := SrcStep(acc, i, isa, isa.actualSrc(t[i], d), d);
    assert next.immOpMap == acc.immOpMap && next.regOpMap == acc.regOpMap + [i];
    forall n | 0 <= n < i + 1
      ensures if IsRegSource(isa, isa.actualSrc(t[n], d)) then n in next.regOpMap else n in next.immOpMap
    {
      if n == i {
        assert next.regOpMap[|next.regOpMap| - 1] == n;
      }
    }
  }

  lemma SrcInvStepImm(t: seq<int>, i: nat, isa: Isa, d: Decoded, acc: SrcPart)
    requires i < |t| && SrcInv(t, i, isa, d, acc) && !IsRegSource(isa, isa.actualSrc(t[i], d))
    ensures SrcInv(t, i + 1, isa, d, SrcStep(acc, i, isa, isa.actualSrc(t[i], d), d))
  {
    var next := SrcStep(acc, i, isa, isa.actualSrc(t[i], d), d);
    assert next.regOpMap == acc.regOpMap && next.immOpMap == acc.immOpMap + [i];
    forall n | 0 <= n < i + 1
      ensures if IsRegSource(isa, isa.actualSrc(t[n], d)) then n in next.regOpMap else n in next.immOpMap
    {
      if n == i {
        assert next.immOpMap[|next.immOpMap| - 1] == n;
      }
    }
  }

  lemma {:induction false} SrcFromKeeps(t: seq<int>, i: nat, isa: Isa, d: Decoded, acc: SrcPart)
    requires i <= Leading(t) && SrcInv(t, i, isa, d, acc)
    ensures SrcFrom(t, i, isa, d, acc).Ok? ==> SrcInv(t, Leading(t), isa, d, SrcFrom(t, i, isa, d, acc).value)
    decreases |t| - i
  {
    if i < Leading(t) {
      var op := isa.actualSrc(t[i], d);
      if !SrcBad(op, d) {
        var next := SrcStep(acc, i, isa, op, d);
        assert SrcFrom(t, i, isa, d, acc) == SrcFrom(t, i + 1, isa, d, next);
        SrcInvStep(t, i, isa, d, acc);
        SrcFromKeeps(t, i + 1, isa, d, next);
      }
    }
  }

  lemma {:induction false} SrcFromFails(t: seq<int>, i: nat, isa: Isa, d: Decoded, acc: SrcPart)
    requires i <= Leading(t)
    ensures SrcFrom(t, i, isa, d, acc).Fail? <==>
      exists n :: i <= n < Leading(t) && SrcBad(isa.actualSrc(t[n], d), d)
    decreases |t| - i
  {
    if i < Leading(t) {
      var op := isa.actualSrc(t[i], d);
      if !SrcBad(op, d) {
        var next := SrcStep(acc, i, isa, op, d);
        assert SrcFrom(t, i, isa, d, acc) == SrcFrom(t, i + 1, isa, d, next);
        SrcFromFails(t, i + 1, isa, d, next);
      }
    }
  }

  /** What ConvertOneOpInfo produces for a defined op: it fails exactly when
      a template before the first -1 names register -1 (or an immediate
      outside the decoded ones), and otherwise reads every template before
      the first -1, keeps the non-zero destination registers, and splits
      the sources into register sources and immediates (0 for a zero
      register). */
  lemma OneOpInfoOperands(d: Decoded, def: OpInfoDef, microNum: int, microIndex: int,
                          mnemonic: string, isa: Isa)
    requires def.iclass != OpClassCode.UNDEF
    ensures OneOpInfo(d, def, microNum, microIndex, mnemonic, isa).Fail? <==>
      (exists n :: 0 <= n < Leading(def.dstTemplate) && isa.actualReg(def.dstTemplate[n], d) == -1) ||
      (exists n :: 0 <= n < Leading(def.srcTemplate) && SrcBad(isa.actualSrc(def.srcTemplate[n], d), d))
    ensures OneOpInfo(d, def, microNum, microIndex, mnemonic, isa).Ok? ==>
      var op := OneOpInfo(d, def, microNum, microIndex, mnemonic, isa).value;
      op.iclass == def.iclass && op.microOpNum == microNum && op.microOpIndex == microIndex &&
      DstInv(def.dstTemplate, Leading(def.dstTemplate), isa, d, op.dst) &&
      SrcInv(def.srcTemplate, Leading(def.srcTemplate), isa, d, op.src)
  {
    DstFromKeeps(def.dstTemplate, 0, isa, d, NoDst);
    SrcFromKeeps(def.srcTemplate, 0, isa, d, NoSrc);
    SrcFromFails(def.srcTemplate, 0, isa, d, NoSrc);
  }

  /** An undefined op has no destination and exactly one source: the
      immediate that is the code word read as a signed 32-bit number. */
  lemma UndefOperands(d: Decoded, def: OpInfoDef, microNum: int, microIndex: int,
                      mnemonic: string, isa: Isa)
    requires def.iclass == OpClassCode.UNDEF
    ensures var r := OneOpInfo(d, def, microNum, microIndex, mnemonic, isa);
      r.Ok? && r.value.dst.opNum == 0 && r.value.dst.regs == [] &&
      r.value.src.opNum == 1 && r.value.src.regs == [] && r.value.src.immOpMap == [0] &&
      |r.value.src.imms| == 1 && r.value.src.imms[0] % 0x1_0000_0000 == d.codeWord
  {
    CodeWordImmWraps(d.codeWord);
  }

  /** Convert yields one OpInfo per micro-op of the definition, in order,
      numbered by position and all carrying the micro-op count. */
  lemma {:induction false} ConvertNumbersMicroOps(def: OpDef, i: nat, d: Decoded, isa: Isa, acc: seq<OpInfo>)
    requires i <= |def.infoDefs| && |acc| == i
    requires forall j :: 0 <= j < i ==>
      OneOpInfo(d, def.infoDefs[j], |def.infoDefs|, j, def.name, isa) == Ok(acc[j])
    ensures var r := ConvertFrom(def, i, d, isa, acc);
      r.Ok? ==> (|r.value| == |def.infoDefs| &&
        forall j :: 0 <= j < |def.infoDefs| ==>
          (OneOpInfo(d, def.infoDefs[j], |def.infoDefs|, j, def.name, isa) == Ok(r.value[j]) &&
           r.value[j].microOpIndex == j && r.value[j].microOpNum == |def.infoDefs|))
    decreases |def.infoDefs| - i
  {
    if i < |def.infoDefs| {
      var one := OneOpInfo(d, def.infoDefs[i], |def.infoDefs|, i, def.name, isa);
      if one.Ok? {
        ConvertNumbersMicroOps(def, i + 1, d, isa, acc + [one.value]);
      }
    } else {
      forall j | 0 <= j < |def.infoDefs|
        ensures OneOpInfo(d, def.infoDefs[j], |def.infoDefs|, j, def.name, isa) == Ok(acc[j])
        ensures acc[j].microOpIndex == j && acc[j].microOpNum == |def.infoDefs|
      {
        MicroOpNumbering(d, def.infoDefs[j], |def.infoDefs|, j, def.name, isa);
      }
    }
  }

  /** A translated micro-op carries the count and index it was given. */
  lemma MicroOpNumbering(d: Decoded, def: OpInfoDef, microNum: int, microIndex: int,
                         mnemonic: string, isa: Isa)
    ensures var r := OneOpInfo(d, def, microNum, microIndex, mnemonic, isa);
      r.Ok? ==> (r.value.microOpNum == microNum && r.value.microOpIndex == microIndex &&
                 r.value.iclass == def.iclass && r.value.mnemonic == mnemonic)
  {
  }
}
