/**
 Translating ARM data-processing instructions: register allocation, the emitted words, and the proof
 that they do to a represented guest what the instruction does.
 */
module Translation {
  import opened Words
  import opened Flags
  import opened Shifter
  import opened InstructionWords
  import opened HostMachine
  import opened Emission

  // ---------------------------------------------------------------- register allocation

  /** `mem_reg`. */
  const MEM_REG := -1

  /**
   `arm_register_allocation` and `thumb_register_allocation`. A comma is missing after the entry for
   r15, so that entry is `ARMREG_R0 -1` and each table has 31 entries.
   */
  const ARM_ALLOCATION: seq<int> :=
    [3, 4, -1, -1, -1, -1, 5, -1, -1, 6, -1, -1, 7, -1, 8, 0 - 1,
     -1, -1, -1, -1, -1, -1, -1, -1, -1, -1, -1, -1, -1, -1, -1]

  const THUMB_ALLOCATION: seq<int> :=
    [3, 4, 5, 6, 7, 8, -1, -1, -1, -1, -1, -1, -1, -1, -1, 0 - 1,
     -1, -1, -1, -1, -1, -1, -1, -1, -1, -1, -1, -1, -1, -1, -1]

  type Table = t: seq<int> | ValidTable(t) witness ARM_ALLOCATION

  /** Every guest register has its own host register among R3-R8, or lives in memory. */
  predicate ValidTable(t: seq<int>) {
    && |t| == 31
    && (forall r :: 0 <= r < 16 ==> t[r] == MEM_REG || 3 <= t[r] <= 8)
    && (forall r, q :: 0 <= r < q < 16 && t[r] == t[q] ==> t[r] == MEM_REG)
    && t[15] == MEM_REG
  }

  lemma ArmTableValid()
    ensures ValidTable(ARM_ALLOCATION)
  {
    var owners := [0, 1, 6, 9, 12, 14];
    assert forall r :: 0 <= r < 16 && ARM_ALLOCATION[r] != MEM_REG ==> owners[ARM_ALLOCATION[r] - 3] == r;
  }

  /** Where each guest register lives. */
  lemma TablesAre(r: Reg)
    ensures ARM_ALLOCATION[r] == (match r case 0 => 3 case 1 => 4 case 6 => 5 case 9 => 6 case 12 => 7 case 14 => 8
                                  case _ => -1)
    ensures THUMB_ALLOCATION[r] == if r < 6 then r + 3 else -1
  {}

  lemma ThumbTableValid()
    ensures ValidTable(THUMB_ALLOCATION)
  {
    assert forall r :: 0 <= r < 16 && THUMB_ALLOCATION[r] != MEM_REG ==> THUMB_ALLOCATION[r] - 3 == r;
  }

  // ---------------------------------------------------------------- guest and host states

  datatype Guest = Guest(regs: RegFile, flags: Nzcv, mem: Memory)

  const REG_BASE_OFFSET := 1024

  /** The frame address of a guest register's memory slot. */
  function Slot(h: Host, r: Reg): Word { ToWord(h.regs[SP] + (REG_BASE_OFFSET + r * 4)) }

  /** Where the host keeps guest register `r`. */
  function GuestReg(t: Table, h: Host, r: Reg): Word {
    if t[r] == MEM_REG then Read(h.frame, Slot(h, r)) else h.regs[t[r]]
  }

  /** A running host state stands for a guest state: r0-r14, the flags and memory. */
  ghost predicate Represents(t: Table, g: Guest, h: Host) {
    && h.status == Running
    && h.flags == g.flags
    && h.mem == g.mem
    && forall r: Reg :: r < 15 ==> GuestReg(t, h, r) == g.regs[r]
  }

  /** The state `h` stands for guest `g`, whether or not it is still running. */
  ghost predicate Stands(t: Table, g: Guest, h: Host) { Represents(t, g, h.(status := Running)) }

  /** Host registers that hold no guest register and are not the frame pointer. */
  predicate IsScratch(s: Reg) { s < 3 || s == S0 || s == FLAGS || s == CYCLES || s == LR }

  lemma ScratchKeeps(t: Table, g: Guest, h: Host, s: Reg, v: Word)
    requires Represents(t, g, h) && IsScratch(s)
    ensures Represents(t, g, h.Set(s, v))
  {
    var h' := h.Set(s, v);
    forall r: Reg | r < 15 ensures GuestReg(t, h', r) == g.regs[r] {
      assert GuestReg(t, h, r) == g.regs[r];
      assert Slot(h', r) == Slot(h, r);
    }
  }

  /** Host state after guest register `r` has been written. */
  function WithGuestReg(t: Table, h: Host, r: Reg, v: Word): Host {
    if t[r] == MEM_REG then h.(frame := h.frame[Slot(h, r) := v]) else h.Set(t[r], v)
  }

  /** A guest register in memory is the word 1024 + 4r bytes above the frame pointer. */
  lemma SlotAddress(h: Host, r: Reg)
    ensures Slot(h, r) == (h.regs[13] + 1024 + 4 * r) % 0x1_0000_0000 && SlotOffset(r) == 1024 + 4 * r
  {}

  lemma SlotsDiffer(h: Host, r: Reg, q: Reg)
    requires r != q
    ensures Slot(h, r) != Slot(h, q)
  {}

  lemma WriteGuestReg(t: Table, g: Guest, h: Host, r: Reg, v: Word)
    requires Represents(t, g, h)
    ensures Represents(t, g.(regs := g.regs[r := v]), WithGuestReg(t, h, r, v))
  {
    hide Slot;
    var h' := WithGuestReg(t, h, r, v);
    forall q: Reg | q < 15 ensures GuestReg(t, h', q) == g.regs[r := v][q] {
      assert GuestReg(t, h, q) == g.regs[q];
      assert Slot(h', q) == Slot(h, q) by { SameSlot(h, h', q); }
      if q != r { SlotsDiffer(h, r, q); }
    }
  }

  lemma SameSlot(h: Host, h': Host, r: Reg)
    requires h.regs[SP] == h'.regs[SP]
    ensures Slot(h, r) == Slot(h', r)
  {}

  // ---------------------------------------------------------------- moving guest registers

  function SlotOffset(r: Reg): nat { REG_BASE_OFFSET + r * 4 }

  /** Code, and the host register in which it leaves its value. */
  datatype Piece = Piece(code: seq<Word>, reg: Reg)

  /** `prepare_load_reg`. */
  function PrepareLoad(t: Table, scratch: Reg, r: Reg): Piece {
    if t[r] == MEM_REG then Piece([LoadWord(scratch, SP, SlotOffset(r))], scratch) else Piece([], t[r])
  }

  /** `prepare_load_reg_pc`, given the value r15 reads as. */
  function PrepareLoadPc(t: Table, scratch: Reg, r: Reg, pcValue: Word): Piece {
    if r == 15 then Piece(LoadConstant(scratch, pcValue), scratch) else PrepareLoad(t, scratch, r)
  }

  /** `prepare_store_reg`. */
  function PrepareStore(t: Table, scratch: Reg, r: Reg): Reg {
    if t[r] == MEM_REG then scratch else t[r]
  }

  /** `complete_store_reg`. */
  function CompleteStore(t: Table, scratch: Reg, r: Reg): seq<Word> {
    if t[r] == MEM_REG then [StoreWord(scratch, SP, SlotOffset(r))] else []
  }

  /** The value a guest register reads as, r15 included. */
  function GuestValue(g: Guest, r: Reg, pcValue: Word): Word {
    if r == 15 then pcValue else g.regs[r]
  }

  lemma LoadDoes(t: Table, scratch: Reg, r: Reg, pcValue: Word, env: Env, g: Guest, h: Host) returns (h': Host)
    requires Represents(t, g, h) && IsScratch(scratch)
    ensures var p := PrepareLoadPc(t, scratch, r, pcValue);
            && Does(p.code, env, h, h')
            && h'.regs[p.reg] == GuestValue(g, r, pcValue)
            && (p.reg == scratch || !IsScratch(p.reg))
    ensures Represents(t, g, h')
    ensures h'.regs[SP] == h.regs[SP]
    ensures forall q: Reg :: q != scratch ==> h'.regs[q] == h.regs[q]
  {
    hide Does, LoadConstant, LoadWord;
    var v := GuestValue(g, r, pcValue);
    if r == 15 {
      LoadConstantExact(scratch, pcValue, env, h);
      h' := h.Set(scratch, v);
      ScratchKeeps(t, g, h, scratch, v);
    } else if t[r] == MEM_REG {
      DoesTransfer(true, scratch, SP, SlotOffset(r), env, h);
      assert GuestReg(t, h, r) == v;
      h' := h.Set(scratch, v);
      ScratchKeeps(t, g, h, scratch, v);
    } else {
      DoesNothing(env, h);
      assert GuestReg(t, h, r) == v;
      h' := h;
    }
  }

  /** Storing back: the value is in the register `PrepareStore` named. */
  lemma StoreDoes(t: Table, scratch: Reg, r: Reg, v: Word, env: Env, g: Guest, h: Host)
    requires Represents(t, g, h) && IsScratch(scratch) && r != 15
    ensures var h1 := h.Set(PrepareStore(t, scratch, r), v);
            exists h' :: Does(CompleteStore(t, scratch, r), env, h1, h') && h'.regs == h1.regs
                         && Represents(t, g.(regs := g.regs[r := v]), h')
  {
    hide Does, StoreWord;
    var h1 := h.Set(PrepareStore(t, scratch, r), v);
    if t[r] == MEM_REG {
      ScratchKeeps(t, g, h, scratch, v);
      DoesTransfer(false, scratch, SP, SlotOffset(r), env, h1);
      WriteGuestReg(t, g, h1, r, v);
      assert Does(CompleteStore(t, scratch, r), env, h1, WithGuestReg(t, h1, r, v));
    } else {
      DoesNothing(env, h1);
      WriteGuestReg(t, g, h, r, v);
      assert Does(CompleteStore(t, scratch, r), env, h1, WithGuestReg(t, h, r, v));
    }
  }

  // ---------------------------------------------------------------- data processing

  predicate IsUnary(op: Opcode) { op == MOV || op == MVN }

  /** The shifter operand a guest instruction sees at `pc`. */
  function GuestOperand(o: Operand, pc: Word, g: Guest): Shifted {
    match o
    case Immediate(imm8, rot) =>
      var v := Ror(ToWord(imm8), 2 * (rot % 16));
      Shifted(v, if rot == 0 then g.flags.c else v >= TWO31)
    case ShiftedByImm(rm, t, amount) =>
      ImmediateShift(t, amount, GuestValue(g, rm, ToWord(pc + 8)), g.flags.c)
    case ShiftedByReg(rm, t, rs) =>
      RegisterShift(t, g.regs[rs], GuestValue(g, rm, ToWord(pc + 12)), g.flags.c)
  }

  /** What the architecture makes of a data-processing instruction at `pc`; a test writes only the flags. */
  function GuestDataProc(op: Opcode, s: bool, rd: Reg, rn: Reg, o: Operand, pc: Word, g: Guest): Guest {
    var b := GuestOperand(o, pc, g);
    var r := Alu(op, GuestValue(g, rn, ToWord(pc + 8)), b.value, b.carry, g.flags);
    Guest(if IsTest(op) then g.regs else g.regs[rd := r.value], if s then r.flags else g.flags, g.mem)
  }

  /** The shifter operands whose meaning the architecture defines: a shift by r15 is unpredictable. */
  predicate Predictable(o: Operand) { o.Valid() && (o.ShiftedByReg? ==> o.rs != 15) }

  predicate WritesPc(op: Opcode, rd: Reg) { !IsTest(op) && rd == 15 }

  /** The instructions after which translated code goes on: they do not write r15, and tests set the flags. */
  predicate Translatable(op: Opcode, s: bool, rd: Reg, o: Operand) {
    Predictable(o) && !WritesPc(op, rd) && (IsTest(op) ==> s)
  }

  /** The opcode emitted: for a register shift the macros of TST and TEQ expand to CMN. */
  function EmittedOp(op: Opcode, o: Operand): Opcode {
    if (op == TST || op == TEQ) && o.ShiftedByReg? then CMN else op
  }

  /** The operand loads and the host operand they prepare, in the emitter's order. */
  function OperandCode(t: Table, o: Operand, pc: Word): (seq<Word>, Operand) {
    match o
    case Immediate(imm8, rot) => ([], o)
    case ShiftedByImm(rm, st, amount) =>
      var m := PrepareLoadPc(t, A0, rm, ToWord(pc + 8));
      (m.code, ShiftedByImm(m.reg, st, amount))
    case ShiftedByReg(rm, st, rs) =>
      var b := PrepareLoad(t, LR, rs);
      var m := PrepareLoadPc(t, A0, rm, ToWord(pc + 12));
      (b.code + m.code, ShiftedByReg(m.reg, st, b.reg))
  }

  /** The register the host result goes to, and the loads and the operation of `arm_generate_op_*`. */
  function ResultReg(t: Table, op: Opcode, rd: Reg): Reg { if IsTest(op) then 0 else PrepareStore(t, A0, rd) }

  /** `prepare_load_rn_*`. */
  function RnPiece(t: Table, op: Opcode, rn: Reg, pc: Word): Piece {
    if IsUnary(op) then Piece([], 0) else PrepareLoadPc(t, A1, rn, ToWord(pc + 8))
  }

  /** Which instructions are meant, in numbers: opcodes 8 to 11 are the tests, which always set the flags. */
  lemma ScopeIs(op: Opcode, s: bool, rd: Reg, o: Operand)
    ensures WritesPc(op, rd) <==> rd == 15 && op !in {8, 9, 10, 11}
    ensures Translatable(op, s, rd, o) <==> Predictable(o) && if op in {8, 9, 10, 11} then s else rd < 15
    ensures Predictable(o) <==> match o
                                case Immediate(imm8, rot) => imm8 < 256 && rot < 16
                                case ShiftedByImm(_, _, amount) => amount < 32
                                case ShiftedByReg(_, _, rs) => rs < 15
  {}

  /** The fields that have to be zero are: rd in a test, rn in MOV and MVN. */
  lemma ZeroFields(t: Table, op: Opcode, rd: Reg, rn: Reg, pc: Word)
    ensures op in {8, 9, 10, 11} ==> ResultReg(t, op, rd) == 0
    ensures op in {13, 15} ==> RnPiece(t, op, rn, pc) == Piece([], 0)
  {}

  function OperationCode(t: Table, op: Opcode, s: bool, rd: Reg, rn: Reg, o: Operand, pc: Word): seq<Word> {
    var a := RnPiece(t, op, rn, pc);
    var (loads, operand) := OperandCode(t, o, pc);
    a.code + loads + [DataProcWord(EmittedOp(op, o), s, ResultReg(t, op, rd), a.reg, operand)]
  }

  /** `arm_generate_op_reg` and `arm_generate_op_imm`, unless they write r15. */
  function DataProcCode(t: Table, op: Opcode, s: bool, rd: Reg, rn: Reg, o: Operand, pc: Word): seq<Word> {
    OperationCode(t, op, s, rd, rn, o, pc) + if IsTest(op) then [] else CompleteStore(t, ResultReg(t, op, rd), rd)
  }

  /** `generate_indirect_branch_*`: the pending cycles, and the jump to the stub at `stub`. */
  function IndirectCode(cycles: nat, stub: Word): seq<Word> {
    CycleUpdateCode(cycles) + (LoadConstant(A1, stub) + [JumpWord(A1)])
  }

  /** An instruction without the S bit that writes r15. */
  function PcWriteCode(t: Table, op: Opcode, rn: Reg, o: Operand, pc: Word, cycles: nat, stub: Word): seq<Word> {
    OperationCode(t, op, false, 15, rn, o, pc) + IndirectCode(cycles, stub)
  }

  /** Loading the shifter operand leaves what `keep` holds, unless the loads use it. */
  lemma OperandDoes(t: Table, o: Operand, pc: Word, env: Env, g: Guest, h: Host) returns (h': Host)
    requires Represents(t, g, h) && Predictable(o)
    ensures var (loads, operand) := OperandCode(t, o, pc);
            && Does(loads, env, h, h')
            && operand.Valid()
            && OperandValue(operand, h') == GuestOperand(o, pc, g)
    ensures Represents(t, g, h')
    ensures forall q: Reg :: q != A0 && q != LR ==> h'.regs[q] == h.regs[q]
  {
    hide Does, LoadConstant, LoadWord, ImmediateShift, RegisterShift, Ror;
    match o
    case Immediate(imm8, rot) =>
      DoesNothing(env, h);
      h' := h;
    case ShiftedByImm(rm, st, amount) =>
      h' := LoadDoes(t, A0, rm, ToWord(pc + 8), env, g, h);
    case ShiftedByReg(rm, st, rs) =>
      var h1 := LoadDoes(t, LR, rs, 0, env, g, h);
      h' := LoadDoes(t, A0, rm, ToWord(pc + 12), env, g, h1);
      DoesThen(PrepareLoad(t, LR, rs).code, PrepareLoadPc(t, A0, rm, ToWord(pc + 12)).code, env, h, h1, h');
  }

  lemma UnaryIgnoresRn(op: Opcode, a: Word, a': Word, b: Word, c: bool, f: Nzcv)
    requires IsUnary(op)
    ensures Alu(op, a, b, c, f) == Alu(op, a', b, c, f)
  {}

  lemma FlagsWritten(t: Table, g: Guest, h: Host, f: Nzcv)
    requires Represents(t, g, h)
    ensures Represents(t, g.(flags := f), h.(flags := f))
  {
    forall r: Reg | r < 15 ensures GuestReg(t, h.(flags := f), r) == g.regs[r] {
      assert GuestReg(t, h, r) == g.regs[r];
    }
  }

  /** The guest's flags and the result, before the result is stored back. */
  function Result(op: Opcode, rn: Reg, o: Operand, pc: Word, g: Guest): Sum {
    var b := GuestOperand(o, pc, g);
    Alu(EmittedOp(op, o), GuestValue(g, rn, ToWord(pc + 8)), b.value, b.carry, g.flags)
  }

  /** The loads and the operation: the flags are the guest's, and the result is in its register. */
  lemma OperationDoes(t: Table, op: Opcode, s: bool, rd: Reg, rn: Reg, o: Operand, pc: Word,
                      env: Env, g: Guest, h: Host)
    returns (h2: Host, h3: Host)
    requires Represents(t, g, h) && Predictable(o) && (IsTest(op) ==> s)
    ensures var r := Result(op, rn, o, pc, g);
      && Represents(t, g.(flags := if s then r.flags else g.flags), h2)
      && h3 == if IsTest(op) then h2 else h2.Set(ResultReg(t, op, rd), r.value)
    ensures Does(OperationCode(t, op, s, rd, rn, o, pc), env, h, h3)
    ensures h2.regs[CYCLES] == h.regs[CYCLES]
  {
    hide Does, LoadConstant, DataProcWord, OperandCode, OperandValue, GuestOperand, Alu;
    var a := RnPiece(t, op, rn, pc);
    var d := ResultReg(t, op, rd);
    var (loads, operand) := OperandCode(t, o, pc);
    var e := EmittedOp(op, o);
    var h0 := h;
    if IsUnary(op) {
      DoesNothing(env, h);
    } else {
      h0 := LoadDoes(t, A1, rn, ToWord(pc + 8), env, g, h);
    }
    var h1 := OperandDoes(t, o, pc, env, g, h0);
    DoesDataProc(e, s, d, a.reg, operand, env, h1);
    h3 := DoDataProc(e, s, d, a.reg, operand, h1);
    var b := GuestOperand(o, pc, g);
    var r := Result(op, rn, o, pc, g);
    if IsUnary(op) {
      UnaryIgnoresRn(op, h1.regs[a.reg], GuestValue(g, rn, ToWord(pc + 8)), b.value, b.carry, g.flags);
    }
    assert Alu(e, h1.regs[a.reg], b.value, b.carry, h1.flags) == r;
    FlagsWritten(t, g, h1, if s then r.flags else g.flags);
    h2 := h1.(flags := if s then r.flags else g.flags);
    DoesThen(a.code, loads, env, h, h0, h1);
    DoesThen(a.code + loads, [DataProcWord(e, s, d, a.reg, operand)], env, h, h1, h3);
  }

  /**
   Translation preserves meaning: from any host state that represents a guest state, the emitted words
   run to their end in a host state that represents the guest after the instruction emitted. The cycle
   count is left alone.
   */
  lemma TranslationPreserves(t: Table, op: Opcode, s: bool, rd: Reg, rn: Reg, o: Operand, pc: Word,
                             env: Env, g: Guest, h: Host)
    returns (h': Host)
    requires Represents(t, g, h) && Translatable(op, s, rd, o)
    ensures Does(DataProcCode(t, op, s, rd, rn, o, pc), env, h, h')
    ensures Run(DataProcCode(t, op, s, rd, rn, o, pc), env, h) == h'
    ensures Represents(t, GuestDataProc(EmittedOp(op, o), s, rd, rn, o, pc, g), h')
    ensures h'.regs[CYCLES] == h.regs[CYCLES]
  {
    hide Does, Run, OperationCode, GuestOperand, Alu;
    var code := OperationCode(t, op, s, rd, rn, o, pc);
    var h2, h3 := OperationDoes(t, op, s, rd, rn, o, pc, env, g, h);
    if IsTest(op) {
      h' := h3;
      assert code + [] == code;
    } else {
      var r := Result(op, rn, o, pc, g);
      var d, f := PrepareStore(t, A0, rd), if s then r.flags else g.flags;
      StoreDoes(t, A0, rd, r.value, env, g.(flags := f), h2);
      h' :| Does(CompleteStore(t, A0, rd), env, h3, h') && h'.regs == h3.regs
            && Represents(t, g.(flags := f, regs := g.regs[rd := r.value]), h');
      assert CompleteStore(t, d, rd) == CompleteStore(t, A0, rd);
      DoesThen(code, CompleteStore(t, d, rd), env, h, h3, h');
    }
    DoesAll(DataProcCode(t, op, s, rd, rn, o, pc), env, h, h');
  }

  /**
   What is emitted means what the instruction means, in every state, unless it is a TST or TEQ with a
   register shift.
   */
  lemma {:induction false} EmittedOpExact(op: Opcode, s: bool, rd: Reg, rn: Reg, o: Operand)
    requires Predictable(o) && (IsTest(op) ==> s)
    ensures (forall pc: Word, g: Guest ::
               GuestDataProc(EmittedOp(op, o), s, rd, rn, o, pc, g) == GuestDataProc(op, s, rd, rn, o, pc, g))
            <==> !((op == TST || op == TEQ) && o.ShiftedByReg?)
  {
    hide GuestDataProc;
    if (op == TST || op == TEQ) && o.ShiftedByReg? {
      TestBecomesCmn(op, rd, rn, o);
    }
  }

  /** In a state of zeros with V set, a test keeps V and CMN clears it. */
  lemma TestBecomesCmn(op: Opcode, rd: Reg, rn: Reg, o: Operand)
    requires (op == TST || op == TEQ) && o.ShiftedByReg? && Predictable(o)
    ensures var g := Guest(seq(16, _ => 0), Nzcv(false, false, false, true), map[]);
      GuestDataProc(CMN, true, rd, rn, o, 0, g) != GuestDataProc(op, true, rd, rn, o, 0, g)
  {
    hide Alu, GuestOperand;
    var g := Guest(seq(16, _ => 0), Nzcv(false, false, false, true), map[]);
    var b := GuestOperand(o, 0, g);
    assert b.value <= 12 by { UnshiftedOperand(o, g); }
    CmnClearsV(op, GuestValue(g, rn, 8), b.value, b.carry, g.flags);
  }

  lemma UnshiftedOperand(o: Operand, g: Guest)
    requires o.ShiftedByReg? && g.regs[o.rs] == 0
    ensures GuestOperand(o, 0, g).value == GuestValue(g, o.rm, 12)
  {}

  lemma CmnClearsV(op: Opcode, a: Word, b: Word, c: bool, f: Nzcv)
    requires (op == TST || op == TEQ) && a <= 12 && b <= 12 && f.v
    ensures Alu(op, a, b, c, f).flags.v && !Alu(CMN, a, b, c, f).flags.v
  {
    hide Words.And, Xor;
  }

  /** An indirect branch leaves for the stub with the new pc, which is in A0, and the guest as it was. */
  lemma IndirectDoes(t: Table, cycles: nat, stub: Word, env: Env, g: Guest, h: Host) returns (h': Host)
    requires Represents(t, g, h)
    ensures Does(IndirectCode(cycles, stub), env, h, h')
    ensures Stands(t, g, h') && h'.regs[A0] == h.regs[A0] && h'.status == Left(stub)
  {
    hide Does, LoadConstant, JumpWord, CycleUpdateCode;
    var c := ToWord(h.regs[CYCLES] + cycles % 0x1_0000);
    CycleUpdateExact(cycles, env, h);
    var h1 := h.Set(CYCLES, c);
    ScratchKeeps(t, g, h, CYCLES, c);
    LoadConstantExact(A1, stub, env, h1);
    var h2 := h1.Set(A1, stub);
    ScratchKeeps(t, g, h1, A1, stub);
    DoesJump(A1, env, h2);
    h' := h2.(status := Left(stub));
    assert h'.(status := Running) == h2;
    DoesThen(LoadConstant(A1, stub), [JumpWord(A1)], env, h1, h2, h');
    DoesThen(CycleUpdateCode(cycles), LoadConstant(A1, stub) + [JumpWord(A1)], env, h, h1, h');
  }

  /** r15 has no place in the representation. */
  lemma PcUnseen(t: Table, g: Guest, h: Host, v: Word)
    requires Represents(t, g, h)
    ensures Represents(t, g.(regs := g.regs[15 := v]), h)
  {}

  /**
   An instruction that writes r15 without setting flags: the emitted words leave for the branch stub with
   the new pc in A0, in a state that stands for the guest after the instruction.
   */
  lemma PcWritePreserves(t: Table, op: Opcode, rn: Reg, o: Operand, pc: Word, cycles: nat, stub: Word,
                         env: Env, g: Guest, h: Host)
    returns (h': Host)
    requires Represents(t, g, h) && Predictable(o) && !IsTest(op)
    ensures Does(PcWriteCode(t, op, rn, o, pc, cycles, stub), env, h, h')
    ensures Run(PcWriteCode(t, op, rn, o, pc, cycles, stub), env, h) == h'
    ensures var g' := GuestDataProc(op, false, 15, rn, o, pc, g);
      Stands(t, g', h') && h'.regs[A0] == g'.regs[15] && h'.status == Left(stub)
  {
    hide Does, Run, OperationCode, IndirectCode, GuestOperand, Alu;
    var h2, h3 := OperationDoes(t, op, false, 15, rn, o, pc, env, g, h);
    var v := Result(op, rn, o, pc, g).value;
    ScratchKeeps(t, g, h2, A0, v);
    PcUnseen(t, g, h3, v);
    h' := IndirectDoes(t, cycles, stub, env, g.(regs := g.regs[15 := v]), h3);
    DoesThen(OperationCode(t, op, false, 15, rn, o, pc), IndirectCode(cycles, stub), env, h, h3, h');
    DoesAll(PcWriteCode(t, op, rn, o, pc, cycles, stub), env, h, h');
  }

  // ---------------------------------------------------------------- the emitting code

  method PrepareLoadReg(e: Emitter, t: Table, scratch: Reg, r: Reg) returns (reg: Reg)
    modifies e`code
    ensures e.code == old(e.code) + PrepareLoad(t, scratch, r).code && reg == PrepareLoad(t, scratch, r).reg
  {
    hide LoadWord;
    if t[r] == MEM_REG {
      e.Write32(LoadWord(scratch, SP, REG_BASE_OFFSET + r * 4));
      return scratch;
    }
    return t[r];
  }

  method PrepareLoadRegPc(e: Emitter, t: Table, scratch: Reg, r: Reg, pc: Word, pcOffset: nat) returns (reg: Reg)
    modifies e`code
    ensures var p := PrepareLoadPc(t, scratch, r, ToWord(pc + pcOffset));
            e.code == old(e.code) + p.code && reg == p.reg
  {
    hide LoadWord, LoadConstant;
    if r == 15 {
      e.LoadImm32(scratch, ToWord(pc + pcOffset));
      return scratch;
    }
    reg := PrepareLoadReg(e, t, scratch, r);
  }

  method PrepareLoadRn(e: Emitter, t: Table, op: Opcode, rn: Reg, pc: Word) returns (hostRn: Reg)
    modifies e`code
    ensures e.code == old(e.code) + RnPiece(t, op, rn, pc).code && hostRn == RnPiece(t, op, rn, pc).reg
  {
    hide PrepareLoadPc;
    hostRn := 0;
    if !IsUnary(op) { hostRn := PrepareLoadRegPc(e, t, A1, rn, pc, 8); }
  }

  method CompleteStoreReg(e: Emitter, t: Table, scratch: Reg, r: Reg)
    modifies e`code
    ensures e.code == old(e.code) + CompleteStore(t, scratch, r)
  {
    hide StoreWord;
    if t[r] == MEM_REG {
      e.Write32(StoreWord(scratch, SP, REG_BASE_OFFSET + r * 4));
    }
  }

  /** The branch of `arm_generate_op_reg` that loads the shifter operand. */
  method LoadOperand(e: Emitter, t: Table, opcode: Word, pc: Word) returns (operand: Operand)
    modifies e`code
    ensures var (loads, o) := OperandCode(t, DecodeOperand(opcode, false), pc);
            e.code == old(e.code) + loads && operand == o
    ensures operand.ShiftedByReg? == DecodeOperand(opcode, false).ShiftedByReg?
  {
    hide PrepareLoad, PrepareLoadPc, Field;
    var shiftType := ShiftOf(Field(opcode, 0x20, 4));
    var rm := opcode % 16;
    if Field(opcode, 0x10, 2) == 1 {
      var rs := Field(opcode, 0x100, 16);
      var hostRs := PrepareLoadReg(e, t, LR, rs);
      var hostRm := PrepareLoadRegPc(e, t, A0, rm, pc, 12);
      operand := ShiftedByReg(hostRm, shiftType, hostRs);
    } else {
      var shiftImm := Field(opcode, 0x80, 32);
      var hostRm := PrepareLoadRegPc(e, t, A0, rm, pc, 8);
      operand := ShiftedByImm(hostRm, shiftType, shiftImm);
    }
  }

  lemma DecodedForm(w: Word)
    ensures DecodeOperand(w, true).Immediate? && !DecodeOperand(w, false).Immediate?
  {}

  /** The code for a decoded instruction, in a block with `cycles` pending when it is unconditional. */
  function InstrCode(t: Table, i: Instr, pc: Word, cycles: nat, stub: Word): seq<Word>
    requires i.DataProc?
  {
    if WritesPc(i.op, i.rd) then PcWriteCode(t, i.op, i.rn, i.operand, pc, cycles, stub)
    else DataProcCode(t, i.op, i.s, i.rd, i.rn, i.operand, pc)
  }

  /** `generate_indirect_branch_arm`. */
  method GenerateIndirectBranch(e: Emitter, condition: Cond, stub: Word)
    modifies e
    ensures e.code == old(e.code) + IndirectCode(if condition == AL then old(e.cycleCount) else 0, stub)
    ensures e.cycleCount == if condition == AL then 0 else old(e.cycleCount)
  {
    hide LoadConstant, JumpWord, DataProcWord;
    if condition == AL { e.CycleUpdate(); }
    e.LoadImm32(A1, stub);
    e.Write32(JumpWord(A1));
  }

  /** `complete_store_rd_*`: nothing for a test, and an indirect branch for r15. */
  method CompleteStoreRd(e: Emitter, t: Table, op: Opcode, d: Reg, rd: Reg, condition: Cond, stub: Word)
    modifies e
    ensures e.code == old(e.code) +
      if IsTest(op) then [] else if rd == 15 then IndirectCode(if condition == AL then old(e.cycleCount) else 0, stub)
      else CompleteStore(t, d, rd)
    ensures e.cycleCount == if WritesPc(op, rd) && condition == AL then 0 else old(e.cycleCount)
  {
    hide IndirectCode, CompleteStore;
    if IsTest(op) {
      assert e.code + [] == e.code;
    } else if rd == 15 {
      GenerateIndirectBranch(e, condition, stub);
    } else {
      CompleteStoreReg(e, t, d, rd);
    }
  }

  /**
   `arm_generate_op_reg`: the fields are cut out of the guest opcode as the macro does it. The cycles of
   the instruction, `exec_cyc`, are returned.
   */
  method GenerateOpReg(e: Emitter, t: Table, opcode: Word, pc: Word, condition: Cond, stub: Word) returns (execCyc: nat)
    requires DecodeInstr(opcode).DataProc? && !DecodeInstr(opcode).operand.Immediate?
    requires WritesPc(DecodeInstr(opcode).op, DecodeInstr(opcode).rd) ==> !DecodeInstr(opcode).s
    modifies e
    ensures e.code == old(e.code)
                      + InstrCode(t, DecodeInstr(opcode), pc, if condition == AL then old(e.cycleCount) else 0, stub)
    ensures e.cycleCount == if WritesPc(DecodeInstr(opcode).op, DecodeInstr(opcode).rd) && condition == AL then 0
                            else old(e.cycleCount)
    ensures execCyc == if DecodeInstr(opcode).rd == 15 then (if DecodeInstr(opcode).operand.ShiftedByReg? then 4 else 3)
                       else if DecodeInstr(opcode).operand.ShiftedByReg? then 2 else 1
  {
    hide DataProcWord, RnPiece, CompleteStore, Field, OperandCode, DecodeOperand, IndirectCode;
    DecodedForm(opcode);
    var op, s := Field(opcode, 0x20_0000, 16), Field(opcode, 0x10_0000, 2) == 1;
    var rn, rd := Field(opcode, 0x1_0000, 16), Field(opcode, 0x1000, 16);
    var hostRn := PrepareLoadRn(e, t, op, rn, pc);
    var hostRd := ResultReg(t, op, rd);
    var operand := LoadOperand(e, t, opcode, pc);
    if operand.ShiftedByReg? {
      execCyc := if rd == 15 then 4 else 2;
    } else {
      execCyc := if rd == 15 then 3 else 1;
    }
    e.Write32(DataProcWord(EmittedOp(op, operand), s, hostRd, hostRn, operand));
    assert e.code == old(e.code) + OperationCode(t, op, s, rd, rn, DecodeInstr(opcode).operand, pc);
    CompleteStoreRd(e, t, op, hostRd, rd, condition, stub);
  }

  lemma ImmediateOperation(t: Table, op: Opcode, s: bool, rd: Reg, rn: Reg, o: Operand, pc: Word)
    requires o.Immediate?
    ensures var a := RnPiece(t, op, rn, pc);
      OperationCode(t, op, s, rd, rn, o, pc) == a.code + [DataProcWord(op, s, ResultReg(t, op, rd), a.reg, o)]
  {
    hide DataProcWord, RnPiece;
    var a := RnPiece(t, op, rn, pc);
    assert a.code + [] == a.code;
  }

  /** `arm_generate_op_imm`; the rotation is doubled by the decoder and halved again by the packing macro. */
  method GenerateOpImm(e: Emitter, t: Table, opcode: Word, pc: Word, condition: Cond, stub: Word) returns (execCyc: nat)
    requires DecodeInstr(opcode).DataProc? && DecodeInstr(opcode).operand.Immediate?
    requires WritesPc(DecodeInstr(opcode).op, DecodeInstr(opcode).rd) ==> !DecodeInstr(opcode).s
    modifies e
    ensures e.code == old(e.code)
                      + InstrCode(t, DecodeInstr(opcode), pc, if condition == AL then old(e.cycleCount) else 0, stub)
    ensures e.cycleCount == if WritesPc(DecodeInstr(opcode).op, DecodeInstr(opcode).rd) && condition == AL then 0
                            else old(e.cycleCount)
    ensures execCyc == if DecodeInstr(opcode).rd == 15 then 3 else 1
  {
    hide DataProcWord, RnPiece, CompleteStore, Field, IndirectCode, OperationCode;
    DecodedForm(opcode);
    var op, s := Field(opcode, 0x20_0000, 16), Field(opcode, 0x10_0000, 2) == 1;
    var rn, rd := Field(opcode, 0x1_0000, 16), Field(opcode, 0x1000, 16);
    var imm, immRor := opcode % 256, Field(opcode, 0x100, 16) * 2;
    execCyc := if rd == 15 then 3 else 1;
    var hostRn := PrepareLoadRn(e, t, op, rn, pc);
    var hostRd := ResultReg(t, op, rd);
    ImmediateOperation(t, op, s, rd, rn, Immediate(imm, immRor / 2), pc);
    e.Write32(DataProcWord(op, s, hostRd, hostRn, Immediate(imm, immRor / 2)));
    CompleteStoreRd(e, t, op, hostRd, rd, condition, stub);
  }
}
