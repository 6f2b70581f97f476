/** The RV32 operations that touch process state: the control and status
    registers (FFLAGS, FRM, FCSR and the read-only counters, chapter 9
    "Zicsr" and section 11.2 of the RISC-V Unprivileged ISA 20191213), the
    CSRRW/CSRRS/CSRRC instructions, load-reserved/store-conditional on two
    pseudo registers, and the 32-bit branch helpers. Division is the
    width-generic Riscv64Ops.Div/Rem/Divu/Remu at 32 bits. */
module Riscv32Ops {
  import opened Arith
  import opened Words
  import opened GenericOp
  import opened Riscv64Ops

  // ---------------------------------------------------------------------
  // Division at 32 bits
  // ---------------------------------------------------------------------

  /** RISCV32IntDiv/IntRem/IntDivu/IntRemu follow section 7.2 at 32 bits:
      the table of special cases, with concrete values. */
  lemma DivisionTable32(l: nat)
    requires IsWord(32, l)
    ensures Div(32, l, 0) == 0xFFFF_FFFF && Rem(32, l, 0) == l
    ensures Divu(32, l, 0) == 0xFFFF_FFFF && Remu(32, l, 0) == l
    ensures Div(32, 0x8000_0000, 0xFFFF_FFFF) == 0x8000_0000
    ensures Rem(32, 0x8000_0000, 0xFFFF_FFFF) == 0
    ensures Div(32, 7, 0xFFFF_FFFE) == 0xFFFF_FFFD && Rem(32, 7, 0xFFFF_FFFE) == 1
  {
    Pow2Of32And64();
    DivisionEdgeCases(32, l);
    SignedAllOnes(32);
    assert Signed(32, 7) == 7 && Signed(32, 0xFFFF_FFFE) == -2;
    var q := TruncDiv(7, -2);
    assert q == -3;
    DivModUnique(-3, Pow2(32), -1, 0xFFFF_FFFD);
  }

  // ---------------------------------------------------------------------
  // Control and status registers
  // ---------------------------------------------------------------------

  const FFLAGS: nat := 0x001
  const FRM: nat := 0x002
  const FCSR: nat := 0x003
  const CYCLE: nat := 0xC00
  const TIME: nat := 0xC01
  const INSTRET: nat := 0xC02
  const CYCLEH: nat := 0xC80
  const TIMEH: nat := 0xC81
  const INSTRETH: nat := 0xC82

  /** The pseudo registers that hold the load-reserved state; CSR numbers
      are 12 bits, so no CSR instruction reaches them. */
  const RESERVED_ADDRESS: nat := 4096
  const RESERVING: nat := 4097

  predicate IsCounter(n: nat)
  {
    n == CYCLE || n == TIME || n == INSTRET
  }

  predicate IsCounterHigh(n: nat)
  {
    n == CYCLEH || n == TIMEH || n == INSTRETH
  }

  /** The process's control registers; one that was never written reads 0. */
  type Regs = map<nat, bv32>

  function Reg(regs: Regs, n: nat): bv32
  {
    if n in regs then regs[n] else 0
  }

  /** The low and high halves of the 64-bit instruction tick. */
  function TickLow(tick: bv64): (x: bv32)
    ensures x as bv64 == tick & 0xFFFF_FFFF
  {
    (tick & 0xFFFF_FFFF) as bv32
  }

  function TickHigh(tick: bv64): (x: bv32)
    ensures x as bv64 == tick >> 32
  {
    (tick >> 32) as bv32
  }

  /** GetCSR_Value: FCSR is assembled from FFLAGS and FRM, the counters
      read the instruction tick, everything else reads the stored value. */
  function ReadCsr(regs: Regs, n: nat, tick: bv64): bv32
  {
    if n == FCSR then Reg(regs, FFLAGS) | (Reg(regs, FRM) << 5)
    else if IsCounter(n) then TickLow(tick)
    else if IsCounterHigh(n) then TickHigh(tick)
    else Reg(regs, n)
  }

  /** SetCSR_Value as written: an FRM write keeps two bits. */
  function WriteCsrAsWritten(regs: Regs, n: nat, v: bv32): Regs
  {
    if n == FRM then regs[FRM := v & 0x3] else WriteCsr(regs, n, v)
  }

  /** SetCSR_Value with the three-bit FRM field of section 11.2 (the same
      width the FCSR write keeps): FFLAGS keeps five bits, FCSR splits into
      FFLAGS and FRM, and every other register, the read-only counters
      included, stores the value as given. */
  function WriteCsr(regs: Regs, n: nat, v: bv32): Regs
  {
    if n == FFLAGS then regs[FFLAGS := v & 0x1F]
    else if n == FRM then regs[FRM := v & 0x7]
    else if n == FCSR then regs[FFLAGS := v & 0x1F][FRM := (v >> 5) & 0x7]
    else regs[n := v]
  }

  /** The fields hold no bits beyond their width. */
  predicate FieldsValid(regs: Regs)
  {
    Reg(regs, FFLAGS) & !0x1F == 0 && Reg(regs, FRM) & !0x7 == 0
  }

  /** Every write keeps the fields within their widths. */
  lemma WriteKeepsFields(regs: Regs, n: nat, v: bv32)
    requires FieldsValid(regs)
    ensures FieldsValid(WriteCsr(regs, n, v))
  {
    var r := WriteCsr(regs, n, v);
    if n == FFLAGS || n == FCSR {
      MaskedFits(v, 0x1F);
    }
    if n == FRM || n == FCSR {
      MaskedFits(v >> 5, 0x7);
      MaskedFits(v, 0x7);
    }
    if n != FFLAGS && n != FRM && n != FCSR {
      assert Reg(r, FFLAGS) == Reg(regs, FFLAGS) && Reg(r, FRM) == Reg(regs, FRM);
    }
  }

  lemma MaskedFits(v: bv32, m: bv32)
    ensures (v & m) & !m == 0
  {
  }

  /** A write reads back as the value cut to the register's width: five
      bits for FFLAGS, three for FRM, eight for FCSR, all 32 for a plain
      register, while a counter still reads the tick. */
  lemma WriteThenRead(regs: Regs, n: nat, v: bv32, tick: bv64)
    ensures ReadCsr(WriteCsr(regs, n, v), n, tick)
         == if n == FFLAGS then v & 0x1F
            else if n == FRM then v & 0x7
            else if n == FCSR then v & 0xFF
            else if IsCounter(n) then TickLow(tick)
            else if IsCounterHigh(n) then TickHigh(tick)
            else v
  {
    if n == FCSR {
      var r := WriteCsr(regs, n, v);
      assert Reg(r, FFLAGS) == v & 0x1F && Reg(r, FRM) == (v >> 5) & 0x7;
      FcsrJoin(v);
    }
  }

  lemma FcsrJoin(v: bv32)
    ensures (v & 0x1F) | (((v >> 5) & 0x7) << 5) == v & 0xFF
  {
  }

  /** A write changes no register except the ones it names: FCSR writes
      FFLAGS and FRM, the others only themselves. */
  lemma WriteFrame(regs: Regs, n: nat, v: bv32, m: nat)
    requires m != n && !(n == FCSR && (m == FFLAGS || m == FRM))
    ensures Reg(WriteCsr(regs, n, v), m) == Reg(regs, m)
  {
  }

  /** The FRM write as written loses the third bit: writing RMM (4, round
      to nearest with ties to max magnitude) reads back as RNE (0), while
      writing the same rounding mode through FCSR keeps it. */
  lemma FrmWriteDropsRmm(regs: Regs, tick: bv64)
    ensures ReadCsr(WriteCsrAsWritten(regs, FRM, 4), FRM, tick) == 0
    ensures ReadCsr(WriteCsr(regs, FRM, 4), FRM, tick) == 4
    ensures ReadCsr(WriteCsrAsWritten(regs, FCSR, 4 << 5), FRM, tick) == 4
  {
  }

  /** The two FRM writes agree exactly on the values below 4. */
  lemma FrmWritesAgree(regs: Regs, v: bv32)
    ensures WriteCsrAsWritten(regs, FRM, v) == WriteCsr(regs, FRM, v) <==> v & 0x4 == 0
  {
    if v & 0x4 != 0 {
      assert Reg(WriteCsrAsWritten(regs, FRM, v), FRM) != Reg(WriteCsr(regs, FRM, v), FRM);
    }
  }

  /** The value CSRRS writes back: the old value with the source bits set. */
  function SetBits(old_: bv32, src: bv32): (x: bv32)
    ensures x & src == src && x & !src == old_ & !src
  {
    old_ | src
  }

  /** The value CSRRC writes back: the old value with the source bits
      cleared. */
  function ClearBits(old_: bv32, src: bv32): (x: bv32)
    ensures x & src == 0 && x & !src == old_ & !src
  {
    old_ & !src
  }

  /** A process's control registers and the stores that store-conditional
      performed. */
  datatype Store = Store(addr: bv32, value: bv32)

  class ControlState {
    var regs: Regs
    /** The memory writes made by successful store-conditionals. */
    var stores: seq<Store>

    constructor ()
      ensures regs == map[] && stores == []
    {
      regs, stores := map[], [];
    }

    function Read(n: nat, tick: bv64): bv32
      reads this
    {
      ReadCsr(regs, n, tick)
    }

    /** RISCV32CSRRW: returns the old value and writes the source. */
    method CsrRW(n: nat, src: bv32, tick: bv64) returns (rd: bv32)
      modifies this
      ensures rd == old(Read(n, tick))
      ensures regs == WriteCsr(old(regs), n, src) && stores == old(stores)
    {
      rd := Read(n, tick);
      regs := WriteCsr(regs, n, src);
    }

    /** RISCV32CSRRS: returns the old value and writes it with the source
        bits set. */
    method CsrRS(n: nat, src: bv32, tick: bv64) returns (rd: bv32)
      modifies this
      ensures rd == old(Read(n, tick))
      ensures regs == WriteCsr(old(regs), n, SetBits(rd, src)) && stores == old(stores)
    {
      rd := Read(n, tick);
      regs := WriteCsr(regs, n, SetBits(rd, src));
    }

    /** RISCV32CSRRC: returns the old value and writes it with the source
        bits cleared. */
    method CsrRC(n: nat, src: bv32, tick: bv64) returns (rd: bv32)
      modifies this
      ensures rd == old(Read(n, tick))
      ensures regs == WriteCsr(old(regs), n, ClearBits(rd, src)) && stores == old(stores)
    {
      rd := Read(n, tick);
      regs := WriteCsr(regs, n, ClearBits(rd, src));
    }

    /** RISCV32LoadReserved: the loaded value goes to rd, and the address
        is reserved. The memory read is a parameter. */
    method LoadReserved(addr: bv32, loaded: bv32) returns (rd: bv32)
      modifies this
      ensures rd == loaded && stores == old(stores)
      ensures regs == old(regs)[RESERVED_ADDRESS := addr][RESERVING := 1]
    {
      rd := loaded;
      regs := regs[RESERVED_ADDRESS := addr][RESERVING := 1];
    }

    /** RISCV32StoreConditional: when a reservation is held on the same
        address the store happens, rd is 0 and the reservation is
        released; otherwise nothing is stored, rd is 1 and the reservation
        stays. */
    method StoreConditional(addr: bv32, value: bv32) returns (rd: bv32)
      modifies this
      ensures rd == 0 <==> ScSucceeds(old(regs), addr)
      ensures rd == 0 || rd == 1
      ensures ScSucceeds(old(regs), addr) ==>
        stores == old(stores) + [Store(addr, value)] && regs == old(regs)[RESERVING := 0]
      ensures !ScSucceeds(old(regs), addr) ==> stores == old(stores) && regs == old(regs)
    {
      if ScSucceeds(regs, addr) {
        stores := stores + [Store(addr, value)];
        rd := 0;
        regs := regs[RESERVING := 0];
      } else {
        rd := 1;
      }
    }
  }

  /** A store-conditional succeeds when a reservation is held on its address. */
  predicate ScSucceeds(regs: Regs, addr: bv32)
  {
    Reg(regs, RESERVING) != 0 && Reg(regs, RESERVED_ADDRESS) == addr
  }

  /** LR then SC to the same address succeeds; a second SC then fails;
      an SC to another address fails and keeps the reservation. */
  lemma ReservationRules(regs: Regs, addr: bv32, other: bv32)
    requires other != addr
    ensures ScSucceeds(regs[RESERVED_ADDRESS := addr][RESERVING := 1], addr)
    ensures !ScSucceeds(regs[RESERVED_ADDRESS := addr][RESERVING := 1], other)
    ensures !ScSucceeds(regs[RESERVING := 0], addr)
  {
  }

  /** CSR instructions (12-bit numbers) never touch the reservation. */
  lemma CsrKeepsReservation(regs: Regs, n: nat, v: bv32, addr: bv32)
    requires n < 4096
    ensures ScSucceeds(WriteCsr(regs, n, v), addr) == ScSucceeds(regs, addr)
  {
    assert Reg(WriteCsr(regs, n, v), RESERVING) == Reg(regs, RESERVING);
    assert Reg(WriteCsr(regs, n, v), RESERVED_ADDRESS) == Reg(regs, RESERVED_ADDRESS);
  }

  /** CSRRS and CSRRC with a zero source leave a field register's value
      as it reads; CSRRC of a field clears exactly the source bits. */
  lemma SetClearFields(regs: Regs, n: nat, src: bv32, tick: bv64)
    requires FieldsValid(regs) && (n == FFLAGS || n == FRM || n == FCSR)
    ensures ReadCsr(WriteCsr(regs, n, SetBits(ReadCsr(regs, n, tick), 0)), n, tick) == ReadCsr(regs, n, tick)
    ensures ReadCsr(WriteCsr(regs, n, ClearBits(ReadCsr(regs, n, tick), src)), n, tick)
         == ClearBits(ReadCsr(regs, n, tick), src)
  {
    var x := ReadCsr(regs, n, tick);
    WriteThenRead(regs, n, SetBits(x, 0), tick);
    WriteThenRead(regs, n, ClearBits(x, src), tick);
    FieldsFit(regs, n, tick);
  }

  /** Under FieldsValid a field register reads within its width. */
  lemma FieldsFit(regs: Regs, n: nat, tick: bv64)
    requires FieldsValid(regs) && (n == FFLAGS || n == FRM || n == FCSR)
    ensures var x := ReadCsr(regs, n, tick);
      x == if n == FFLAGS then x & 0x1F else if n == FRM then x & 0x7 else x & 0xFF
  {
  }

  // ---------------------------------------------------------------------
  // Branches (32-bit program counter)
  // ---------------------------------------------------------------------

  /** RISCV32CurPC and RISCV32NextPC: the low 32 bits of the pc, and that
      plus 4, wrapped. */
  function CurPC32(pc: nat): (p: nat)
    ensures IsWord(32, p)
  {
    Unsigned(32, pc)
  }

  function NextPC32(pc: nat): (p: nat)
    ensures IsWord(32, p)
    ensures p == (CurPC32(pc) + 4) % Pow2(32)
  {
    Unsigned(32, CurPC32(pc) + 4)
  }

  lemma Word32Is64(x: nat)
    requires IsWord(32, x)
    ensures IsWord(64, x)
  {
    Pow2Mono(32, 64);
  }

  /** RISCV32BranchRelUncond: taken, to pc + disp in 32 bits. */
  method BranchRelUncond(s: BranchState, disp: nat)
    requires s.Valid() && IsWord(32, disp)
    modifies s
    ensures s.Valid() && s.taken && s.takenPC == AddDisp(32, CurPC32(s.pc), disp)
    ensures s.pc == old(s.pc) && s.dest == old(s.dest)
  {
    var t := AddDisp(32, CurPC32(s.pc), disp);
    Word32Is64(t);
    s.taken := true;
    s.takenPC := t;
  }

  /** RISCV32BranchRelCond: the relative branch when the condition holds,
      otherwise only the taken pc is set, to pc + 4. */
  method BranchRelCond(s: BranchState, disp: nat, cond: bool)
    requires s.Valid() && IsWord(32, disp)
    modifies s
    ensures s.Valid()
    ensures s.takenPC == (if cond then AddDisp(32, CurPC32(s.pc), disp) else NextPC32(s.pc))
    ensures s.taken == (cond || old(s.taken))
    ensures s.pc == old(s.pc) && s.dest == old(s.dest)
  {
    if cond {
      BranchRelUncond(s, disp);
    } else {
      var n := NextPC32(s.pc);
      Word32Is64(n);
      s.takenPC := n;
    }
  }

  /** RISCV32CallRelUncond (jal): rd gets pc + 4, then the relative branch. */
  method CallRelUncond(s: BranchState, disp: nat)
    requires s.Valid() && IsWord(32, disp)
    modifies s
    ensures s.Valid() && s.taken && s.takenPC == AddDisp(32, CurPC32(s.pc), disp)
    ensures s.dest == NextPC32(s.pc) && s.pc == old(s.pc)
  {
    var ret := NextPC32(s.pc);
    Word32Is64(ret);
    BranchRelUncond(s, disp);
    s.dest := ret;
  }

  /** RISCV32BranchAbsUncond: taken, to base + disp with bit 0 cleared. */
  method BranchAbsUncond(s: BranchState, base: nat, disp: nat)
    requires s.Valid() && IsWord(32, base) && IsWord(32, disp)
    modifies s
    ensures s.Valid() && s.taken && s.takenPC == JalrTarget(32, base, disp)
    ensures s.pc == old(s.pc) && s.dest == old(s.dest)
  {
    var t := JalrTarget(32, base, disp);
    Word32Is64(t);
    s.taken := true;
    s.takenPC := t;
  }

  /** RISCV32CallAbsUncond (jalr): rd gets pc + 4, read before the branch,
      then the absolute branch. */
  method CallAbsUncond(s: BranchState, base: nat, disp: nat)
    requires s.Valid() && IsWord(32, base) && IsWord(32, disp)
    modifies s
    ensures s.Valid() && s.taken && s.takenPC == JalrTarget(32, base, disp)
    ensures s.dest == NextPC32(s.pc) && s.pc == old(s.pc)
  {
    var ret := NextPC32(s.pc);
    Word32Is64(ret);
    BranchAbsUncond(s, base, disp);
    s.dest := ret;
  }
}
