/**
 The reference interpreter's data-processing macros, and exactly where they agree with the
 architecture the emitted code implements.
 */
module Interpreter {
  import opened Words
  import opened Flags
  import opened Shifter
  import opened InstructionWords
  import opened HostMachine
  import opened Translation

  /** The `expr` argument of the macros: the operation on u32 values. */
  function Expr(op: Opcode, a: Word, b: Word, c: bool): Word {
    match op
    case 0 => ToWord(Words.And(a, b))
    case 1 => ToWord(Xor(a, b))
    case 2 => ToWord(a - b)
    case 3 => ToWord(b - a)
    case 4 => ToWord(a + b)
    case 5 => ToWord(a + b + CarryIn(c))
    case 6 => ToWord(a - b - (1 - CarryIn(c)))
    case 7 => ToWord(b - a - (1 - CarryIn(c)))
    case 8 => ToWord(Words.And(a, b))
    case 9 => ToWord(Xor(a, b))
    case 10 => ToWord(a - b)
    case 11 => ToWord(a + b)
    case 12 => ToWord(Or(a, b))
    case 13 => b
    case 14 => ToWord(Words.And(a, Not(b)))
    case _ => Not(b)
  }

  predicate IsLogic(op: Opcode) { op in {AND, EOR, TST, TEQ, ORR, MOV, BIC, MVN} }

  /** The opcodes whose flag-setting macro takes no carry in. */
  predicate FlagsCovered(op: Opcode) { IsLogic(op) || op in {ADD, SUB, RSB, CMP, CMN} }

  /** A register rotation by more than 31 is undefined in the C text. */
  predicate ShiftDefined(o: Operand, g: Guest) {
    o.ShiftedByReg? && o.t == ROR ==> g.regs[o.rs] < 32
  }

  /** `calculate_reg_sh_flags`, or the immediate, which leaves C alone. */
  function ShiftWithFlags(o: Operand, pc: Word, g: Guest): Shifted
    requires o.Valid() && ShiftDefined(o, g)
  {
    match o
    case Immediate(imm8, rot) => Shifted(Ror(imm8, 2 * rot), g.flags.c)
    case ShiftedByImm(rm, t, amount) => ShiftFlagsImm(t, amount, GuestValue(g, rm, ToWord(pc + 8)), g.flags.c)
    case ShiftedByReg(rm, t, rs) => ShiftFlagsReg(t, g.regs[rs], GuestValue(g, rm, ToWord(pc + 12)), g.flags.c)
  }

  /** `calculate_reg_sh`, or the immediate. */
  function ShiftValue(o: Operand, pc: Word, g: Guest): Word
    requires o.Valid() && ShiftDefined(o, g)
  {
    match o
    case Immediate(imm8, rot) => Ror(imm8, 2 * rot)
    case ShiftedByImm(rm, t, amount) => ShiftValueImm(t, amount, GuestValue(g, rm, ToWord(pc + 8)), g.flags.c)
    case ShiftedByReg(rm, t, rs) => ShiftValueReg(t, g.regs[rs], GuestValue(g, rm, ToWord(pc + 12)))
  }

  /** `calculate_flags_add` or `calculate_flags_sub`, with the operands in the macro's order. */
  function ArithmeticFlags(op: Opcode, dest: Word, a: Word, b: Word): Nzcv {
    if op == ADD || op == CMN then FlagsAdd(dest, a, b)
    else if op == RSB then FlagsSub(dest, b, a) else FlagsSub(dest, a, b)
  }

  /**
   `arm_data_proc`, `arm_data_proc_logic_flags`, `arm_data_proc_add_flags` and `..._sub_flags`, and the
   `arm_data_proc_test_*` macros, which write only the flags.
   */
  function Interpret(op: Opcode, s: bool, rd: Reg, rn: Reg, o: Operand, pc: Word, g: Guest): Guest
    requires o.Valid() && ShiftDefined(o, g) && (s ==> FlagsCovered(op))
  {
    var a := GuestValue(g, rn, ToWord(pc + 8));
    var b := if s && IsLogic(op) then ShiftWithFlags(o, pc, g) else Shifted(ShiftValue(o, pc, g), g.flags.c);
    var dest := Expr(op, a, b.value, g.flags.c);
    var flags := if !s then g.flags
                 else if IsLogic(op) then Nzcv(Signed(dest) < 0, dest == 0, b.carry, g.flags.v)
                 else ArithmeticFlags(op, dest, a, b.value);
    g.(regs := if IsTest(op) then g.regs else g.regs[rd := dest], flags := flags)
  }

  /** The macro uses the carry out of the shifter. */
  predicate UsesCarry(op: Opcode, s: bool) { s && IsLogic(op) }

  /** The register shift amounts on which the interpreter and the hardware agree. */
  predicate AmountAgrees(op: Opcode, s: bool, o: Operand, g: Guest) {
    o.ShiftedByReg? && o.t != ROR ==>
      if UsesCarry(op, s) then LowByteSuffices(o.t, g.regs[o.rs]) else LowByteSufficesForValue(o.t, g.regs[o.rs])
  }

  /** A rotated immediate that would set C as it already is. */
  predicate CarryAgrees(op: Opcode, s: bool, o: Operand, g: Guest)
    requires o.Valid()
  {
    UsesCarry(op, s) && o.Immediate? ==> o.rot == 0 || (g.flags.c <==> Ror(o.imm8, 2 * o.rot) >= TWO31)
  }

  lemma ShiftMatches(op: Opcode, s: bool, o: Operand, pc: Word, g: Guest)
    requires o.Valid() && ShiftDefined(o, g) && AmountAgrees(op, s, o, g)
    ensures ShiftValue(o, pc, g) == GuestOperand(o, pc, g).value
    ensures UsesCarry(op, s) && CarryAgrees(op, s, o, g) ==> ShiftWithFlags(o, pc, g) == GuestOperand(o, pc, g)
  {
    hide Ror, ShiftFlagsImm, ShiftFlagsReg, ShiftValueImm, ShiftValueReg, ImmediateShift, RegisterShift, Shift;
    match o
    case Immediate(imm8, rot) =>
    case ShiftedByImm(rm, t, amount) =>
      ImmediateClosedForm(t, amount, GuestValue(g, rm, ToWord(pc + 8)), g.flags.c);
    case ShiftedByReg(rm, t, rs) =>
      RegisterShiftMatches(op, s, t, g.regs[rs], GuestValue(g, rm, ToWord(pc + 12)), g.flags.c);
  }

  lemma RegisterShiftMatches(op: Opcode, s: bool, t: ShiftType, shift: Word, v: Word, c: bool)
    requires t == ROR ==> shift < 32
    requires t != ROR ==> if UsesCarry(op, s) then LowByteSuffices(t, shift) else LowByteSufficesForValue(t, shift)
    ensures ShiftValueReg(t, shift, v) == RegisterShift(t, shift, v, c).value
    ensures UsesCarry(op, s) ==> ShiftFlagsReg(t, shift, v, c) == RegisterShift(t, shift, v, c)
  {
    hide ShiftFlagsReg, ShiftValueReg, Shift;
    RegisterClosedForm(t, shift, v, c);
    if t != ROR {
      if UsesCarry(op, s) { LowByteAgrees(t, shift, v, c); } else { LowByteValueAgreement(t, shift); }
    }
  }

  lemma ExprMatches(op: Opcode, a: Word, b: Word, carry: bool, f: Nzcv)
    ensures Expr(op, a, b, f.c) == Alu(op, a, b, carry, f).value
  {
    hide Words.And, Or, Xor, ToWord, AddWithCarry, Not;
    var c := CarryIn(f.c);
    if op in {SUB, RSB, ADD, CMP, CMN} {
      SumValue(a, Not(b), true);
      SumValue(b, Not(a), true);
      SumValue(a, b, false);
      SubtractByAdding(a, b, 1);
      SubtractByAdding(b, a, 1);
    } else if op in {ADC, SBC, RSC} {
      SumValue(a, b, f.c);
      SumValue(a, Not(b), f.c);
      SumValue(b, Not(a), f.c);
      SubtractByAdding(a, b, c);
      SubtractByAdding(b, a, c);
    }
  }

  lemma SumValue(x: Word, y: Word, c: bool)
    ensures AddWithCarry(x, y, c).value == ToWord(x + y + CarryIn(c))
  {}

  lemma SubtractByAdding(a: Word, b: Word, k: int)
    ensures ToWord(a + Not(b) + k) == ToWord(a - b - (1 - k))
  {}

  lemma FlagsMatch(op: Opcode, a: Word, b: Word, carry: bool, f: Nzcv)
    requires FlagsCovered(op)
    ensures var dest := Expr(op, a, b, f.c);
            Alu(op, a, b, carry, f).flags ==
              if IsLogic(op) then Nzcv(Signed(dest) < 0, dest == 0, carry, f.v) else ArithmeticFlags(op, dest, a, b)
  {
    hide Words.And, Or, Xor, FlagsAdd, FlagsSub, AddWithCarry;
    if IsLogic(op) {
    } else if op == ADD || op == CMN {
      AddFlagsExact(a, b);
    } else if op == RSB {
      SubFlagsExact(b, a);
    } else {
      SubFlagsExact(a, b);
    }
    AddValue(op, a, b, carry, f);
  }

  lemma AddValue(op: Opcode, a: Word, b: Word, carry: bool, f: Nzcv)
    ensures op == ADD || op == CMN ==> Alu(op, a, b, carry, f) == AddWithCarry(a, b, false)
    ensures op == SUB || op == CMP ==> Alu(op, a, b, carry, f) == AddWithCarry(a, Not(b), true)
    ensures op == RSB ==> Alu(op, a, b, carry, f) == AddWithCarry(b, Not(a), true)
  {}

  /**
   For every instruction whose shift amount and immediate the two treat alike, the interpreter computes
   what the architecture computes: registers, flags and memory.
   */
  lemma InterpreterMatches(op: Opcode, s: bool, rd: Reg, rn: Reg, o: Operand, pc: Word, g: Guest)
    requires Predictable(o) && ShiftDefined(o, g) && (s ==> FlagsCovered(op))
    requires AmountAgrees(op, s, o, g) && CarryAgrees(op, s, o, g)
    ensures Interpret(op, s, rd, rn, o, pc, g) == GuestDataProc(op, s, rd, rn, o, pc, g)
  {
    hide ShiftValue, ShiftWithFlags, GuestOperand, Expr, Alu, ArithmeticFlags, CarryAgrees;
    ShiftMatches(op, s, o, pc, g);
    var a := GuestValue(g, rn, ToWord(pc + 8));
    var b := GuestOperand(o, pc, g);
    ExprMatches(op, a, b.value, b.carry, g.flags);
    if s { FlagsMatch(op, a, b.value, b.carry, g.flags); }
  }

  /**
   A flag-setting logical instruction with an immediate: the interpreter leaves C alone where the
   architecture sets it from a rotated immediate. The two agree exactly when C already has that value.
   */
  lemma ImmediateCarryGap(op: Opcode, rd: Reg, rn: Reg, imm8: nat, rot: nat, pc: Word, g: Guest)
    requires IsLogic(op) && imm8 < 256 && rot < 16
    ensures Interpret(op, true, rd, rn, Immediate(imm8, rot), pc, g)
              == GuestDataProc(op, true, rd, rn, Immediate(imm8, rot), pc, g)
            <==> CarryAgrees(op, true, Immediate(imm8, rot), g)
  {
    hide Ror, Expr, Alu, ArithmeticFlags;
    var o := Immediate(imm8, rot);
    var a := GuestValue(g, rn, ToWord(pc + 8));
    var b := GuestOperand(o, pc, g);
    ExprMatches(op, a, b.value, b.carry, g.flags);
    FlagsMatch(op, a, b.value, b.carry, g.flags);
  }
}
