/** The interpreter's data-processing and shift macros as code that updates the processor in place. */
module ArmInterpreter {
  import opened Words
  import opened Flags
  import opened Shifter
  import opened InstructionWords
  import opened Translation
  import opened Interpreter
  import BlockTransfer

  /** `calculate_flags_logic`. */
  method SetLogicFlags(p: BlockTransfer.Processor, dest: Word)
    modifies p`flags
    ensures p.flags == old(p.flags).(n := Signed(dest) < 0, z := dest == 0)
  {
    p.flags := p.flags.(z := dest == 0);
    p.flags := p.flags.(n := Signed(dest) < 0);
  }

  /** The immediate shifts of `calculate_reg_sh_flags` and of `thumb_shift_*_imm`: C changes with the value. */
  method ShiftImm(p: BlockTransfer.Processor, t: ShiftType, imm: nat, v: Word) returns (dest: Word)
    requires imm < 32
    modifies p`flags
    ensures Shifted(dest, p.flags.c) == ImmediateShift(t, imm, v, old(p.flags.c))
    ensures p.flags == old(p.flags).(c := p.flags.c)
  {
    hide Shl, Shr, Sar, Ror, Bit, Shift;
    ImmediateClosedForm(t, imm, v, p.flags.c);
    dest := v;
    match t {
      case LSL =>
        if imm != 0 {
          p.flags := p.flags.(c := Bit(dest, 32 - imm) == 1);
          dest := Shl(dest, imm);
        }
      case LSR =>
        if imm == 0 {
          dest := 0;
          p.flags := p.flags.(c := v / TWO31 == 1);
        } else {
          p.flags := p.flags.(c := Bit(dest, imm - 1) == 1);
          dest := Shr(dest, imm);
        }
      case ASR =>
        if imm == 0 {
          dest := Sar(v, 31);
          p.flags := p.flags.(c := dest % 2 == 1);
        } else {
          p.flags := p.flags.(c := Bit(dest, imm - 1) == 1);
          dest := Sar(dest, imm);
        }
      case ROR =>
        if imm == 0 {
          var oldC := p.flags.c;
          p.flags := p.flags.(c := dest % 2 == 1);
          dest := dest / 2 + (if oldC then TWO31 else 0);
        } else {
          p.flags := p.flags.(c := Bit(dest, imm - 1) == 1);
          dest := Ror(dest, imm);
        }
    }
  }

  /** The register shifts of `calculate_reg_sh_flags` and of `thumb_shift_*_reg`. */
  method ShiftReg(p: BlockTransfer.Processor, t: ShiftType, shift: Word, v: Word) returns (dest: Word)
    requires t == ROR ==> shift < 32
    modifies p`flags
    ensures Shifted(dest, p.flags.c) == Shift(t, shift, v, old(p.flags.c))
    ensures p.flags == old(p.flags).(c := p.flags.c)
  {
    hide Shl, Shr, Sar, Ror, Bit, Shift;
    RegisterClosedForm(t, shift, v, p.flags.c);
    dest := v;
    if shift != 0 {
      match t {
        case LSL =>
          if shift > 31 {
            if shift == 32 {
              p.flags := p.flags.(c := dest % 2 == 1);
            } else {
              p.flags := p.flags.(c := false);
            }
            dest := 0;
          } else {
            p.flags := p.flags.(c := Bit(dest, 32 - shift) == 1);
            dest := Shl(dest, shift);
          }
        case LSR =>
          if shift > 31 {
            if shift == 32 {
              p.flags := p.flags.(c := dest / TWO31 == 1);
            } else {
              p.flags := p.flags.(c := false);
            }
            dest := 0;
          } else {
            p.flags := p.flags.(c := Bit(dest, shift - 1) == 1);
            dest := Shr(dest, shift);
          }
        case ASR =>
          if shift > 31 {
            dest := Sar(dest, 31);
            p.flags := p.flags.(c := dest % 2 == 1);
          } else {
            p.flags := p.flags.(c := Bit(dest, shift - 1) == 1);
            dest := Sar(dest, shift);
          }
        case ROR =>
          p.flags := p.flags.(c := Bit(dest, shift - 1) == 1);
          dest := Ror(dest, shift);
      }
    }
  }

  /** `calculate_reg_sh_flags`, or the immediate, with r15 reading as `pc` and what the offset adds. */
  method OperandWithFlags(p: BlockTransfer.Processor, o: Operand) returns (regSh: Word)
    requires Predictable(o) && ShiftDefined(o, p.State())
    modifies p`flags
    ensures Shifted(regSh, p.flags.c) == ShiftWithFlags(o, p.pc, old(p.State()))
    ensures p.flags == old(p.flags).(c := p.flags.c)
  {
    hide Ror, Shift, ShiftFlagsImm, ShiftFlagsReg, ImmediateShift;
    ghost var c := p.flags.c;
    match o {
      case Immediate(imm8, rot) =>
        regSh := Ror(imm8, 2 * rot);
      case ShiftedByImm(rm, t, amount) =>
        var v := GuestValue(p.State(), rm, ToWord(p.pc + 8));
        ImmediateClosedForm(t, amount, v, c);
        regSh := ShiftImm(p, t, amount, v);
      case ShiftedByReg(rm, t, rs) =>
        var v := GuestValue(p.State(), rm, ToWord(p.pc + 12));
        RegisterClosedForm(t, p.regs[rs], v, c);
        regSh := ShiftReg(p, t, p.regs[rs], v);
    }
  }

  /**
   `arm_data_proc`, `arm_data_proc_logic_flags`, `arm_data_proc_add_flags` and `..._sub_flags`, and the
   `arm_data_proc_test_*` macros. A result written to r15 without setting flags is the new pc.
   */
  method DataProc(p: BlockTransfer.Processor, op: Opcode, s: bool, rd: Reg, rn: Reg, o: Operand)
    requires Predictable(o) && ShiftDefined(o, p.State()) && (s ==> FlagsCovered(op)) && (IsTest(op) ==> s)
    requires WritesPc(op, rd) ==> !s
    modifies p
    ensures p.State() == Interpret(op, s, rd, rn, o, old(p.pc), old(p.State()))
    ensures p.pc == if WritesPc(op, rd) then p.regs[15] else ToWord(old(p.pc) + 4)
  {
    hide Ror, ShiftValue, ShiftWithFlags, Expr, ToWord, ArithmeticFlags;
    var a := GuestValue(p.State(), rn, ToWord(p.pc + 8));
    var dest: Word;
    if !s {
      dest := Expr(op, a, ShiftValue(o, p.pc, p.State()), p.flags.c);
    } else if IsLogic(op) {
      ghost var c := p.flags.c;
      var b := OperandWithFlags(p, o);
      LogicIgnoresCarry(op, a, b, c, p.flags.c);
      dest := Expr(op, a, b, p.flags.c);
      SetLogicFlags(p, dest);
    } else {
      var b := ShiftValue(o, p.pc, p.State());
      dest := Expr(op, a, b, p.flags.c);
      p.flags := ArithmeticFlags(op, dest, a, b);
    }
    p.pc := ToWord(p.pc + 4);
    if !IsTest(op) {
      p.regs := p.regs[rd := dest];
      if rd == 15 { p.pc := p.regs[15]; }
    }
  }

  lemma LogicIgnoresCarry(op: Opcode, a: Word, b: Word, c: bool, c': bool)
    requires IsLogic(op)
    ensures Expr(op, a, b, c) == Expr(op, a, b, c')
  {}

  /** N and Z from the result, C from the shifter, V as it was. */
  function ShiftFlags(r: Shifted, f: Nzcv): Nzcv { Nzcv(r.value >= TWO31, r.value == 0, r.carry, f.v) }

  /** `thumb_shift` with a register amount: the architecture's shift by the whole register, one place at a time. */
  method ThumbShiftReg(p: BlockTransfer.Processor, t: ShiftType, rd: Reg, rs: Reg)
    requires t == ROR ==> p.regs[rs] < 32
    modifies p
    ensures var r := Shift(t, old(p.regs[rs]), old(p.regs[rd]), old(p.flags.c));
      p.State() == Guest(old(p.regs)[rd := r.value], ShiftFlags(r, old(p.flags)), old(p.mem))
    ensures p.pc == ToWord(old(p.pc) + 2)
  {
    hide Shift, ToWord;
    var dest := ShiftReg(p, t, p.regs[rs], p.regs[rd]);
    SetLogicFlags(p, dest);
    p.regs := p.regs[rd := dest];
    p.pc := ToWord(p.pc + 2);
  }

  /** `thumb_shift` with an immediate amount. */
  method ThumbShiftImm(p: BlockTransfer.Processor, t: ShiftType, rd: Reg, rs: Reg, imm: nat)
    requires imm < 32
    modifies p
    ensures var r := ImmediateShift(t, imm, old(p.regs[rs]), old(p.flags.c));
      p.State() == Guest(old(p.regs)[rd := r.value], ShiftFlags(r, old(p.flags)), old(p.mem))
    ensures p.pc == ToWord(old(p.pc) + 2)
  {
    hide ImmediateShift, ToWord;
    var dest := ShiftImm(p, t, imm, p.regs[rs]);
    SetLogicFlags(p, dest);
    p.regs := p.regs[rd := dest];
    p.pc := ToWord(p.pc + 2);
  }
}
