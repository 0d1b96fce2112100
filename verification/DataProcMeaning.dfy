/**
 What data-processing instructions mean, in numbers and bits: the results and flags that the architecture's
 semantics, and with it the interpreter and the emitted code, give for each opcode and operand.
 */
module DataProcMeaning {
  import opened Words
  import opened Bitwise
  import opened Flags
  import opened Shifter
  import opened InstructionWords
  import opened HostMachine
  import opened Translation

  lemma SignedMeaning(v: Word)
    ensures -0x8000_0000 <= Signed(v) < 0x8000_0000 && (Signed(v) == v || Signed(v) == v - 0x1_0000_0000)
  {}

  lemma TopBit(v: Word)
    ensures Bit(v, 31) == 1 <==> v >= 0x8000_0000
  {
    hide Pow2;
    var n := 31;
    Pow2OfWord(n);
    DivUnique(v, Pow2(n), if v >= 0x8000_0000 then 1 else 0, if v >= 0x8000_0000 then v - 0x8000_0000 else v);
  }

  /** The shifter operand: the immediate forms as encoded, r15 8 bytes ahead, or 12 under a register shift. */
  lemma OperandMeaning(o: Operand, pc: Word, g: Guest)
    requires o.Valid()
    ensures var b, c := GuestOperand(o, pc, g), g.flags.c;
      match o
      case Immediate(imm8, rot) =>
        && b.value == Shift(ROR, 2 * rot, imm8, c).value
        && b.carry == (if rot == 0 then c else b.value >= 0x8000_0000)
      case ShiftedByImm(rm, t, amount) =>
        var v := if rm == 15 then (pc + 8) % 0x1_0000_0000 else g.regs[rm];
        if amount != 0 || t == LSL then b == Shift(t, amount, v, c)
        else if t == ROR then 2 * b.value + (if b.carry then 1 else 0) == v + (if c then 0x1_0000_0000 else 0)
        else b == Shift(t, 32, v, c)
      case ShiftedByReg(rm, t, rs) =>
        b == Shift(t, g.regs[rs] % 256, if rm == 15 then (pc + 12) % 0x1_0000_0000 else g.regs[rm], c)
  {
    hide Shift, Ror;
    if o.Immediate? {
      RotatedImmediate(o.imm8, 2 * o.rot, g.flags.c);
    }
  }

  lemma RotatedImmediate(imm8: nat, n: nat, c: bool)
    requires imm8 < 256 && n < 32
    ensures Ror(imm8, n) == Shift(ROR, n, imm8, c).value
  {
    hide Shift, Ror;
    RegisterClosedForm(ROR, n, imm8, c);
  }

  /** Only rd changes, and a test changes no register; without the S bit the flags stay. */
  lemma NothingElse(op: Opcode, s: bool, rd: Reg, rn: Reg, o: Operand, pc: Word, g: Guest)
    ensures var g' := GuestDataProc(op, s, rd, rn, o, pc, g);
      && g'.mem == g.mem && (!s ==> g'.flags == g.flags)
      && (forall r: Reg :: r != rd ==> g'.regs[r] == g.regs[r])
      && (op in {TST, TEQ, CMP, CMN} ==> g'.regs == g.regs)
  {
    hide Alu, GuestOperand;
  }

  /** The bits of a logical result. */
  lemma LogicBits(op: Opcode, s: bool, rd: Reg, rn: Reg, o: Operand, pc: Word, g: Guest, n: nat)
    requires n < 32
    ensures var a, b := if rn == 15 then (pc + 8) % 0x1_0000_0000 else g.regs[rn], GuestOperand(o, pc, g).value;
      var r := GuestDataProc(op, s, rd, rn, o, pc, g).regs[rd];
      && (op == AND ==> (Bit(r, n) == 1 <==> Bit(a, n) == 1 && Bit(b, n) == 1))
      && (op == EOR ==> (Bit(r, n) == 1 <==> Bit(a, n) != Bit(b, n)))
      && (op == ORR ==> (Bit(r, n) == 1 <==> Bit(a, n) == 1 || Bit(b, n) == 1))
      && (op == BIC ==> (Bit(r, n) == 1 <==> Bit(a, n) == 1 && Bit(b, n) == 0))
      && (op == MVN ==> (Bit(r, n) == 1 <==> Bit(b, n) == 0))
      && (op == MOV ==> r == b)
  {
    hide GuestOperand, And, Or, Xor, Not, Bit, AddWithCarry;
    var a, b := GuestValue(g, rn, ToWord(pc + 8)), GuestOperand(o, pc, g).value;
    BitAnd(a, b, n);
    BitAnd(a, Not(b), n);
    BitOr(a, b, n);
    BitXor(a, b, n);
    BitNot(b, n);
    BitwiseFits(a, b);
    BitwiseFits(a, Not(b));
  }

  /** The flags a logical instruction leaves: N and Z of the result, C of the shifter, V as it was. */
  lemma LogicFlags(op: Opcode, rd: Reg, rn: Reg, o: Operand, pc: Word, g: Guest)
    requires op in {AND, EOR, TST, TEQ, ORR, MOV, BIC, MVN}
    ensures var a, b := if rn == 15 then (pc + 8) % 0x1_0000_0000 else g.regs[rn], GuestOperand(o, pc, g);
      var g' := GuestDataProc(op, true, rd, rn, o, pc, g);
      var f, r := g'.flags, g'.regs[rd];
      && f.c == b.carry && f.v == g.flags.v
      && (op == TST ==> f.z == (forall n: nat :: n < 32 ==> !(Bit(a, n) == 1 && Bit(b.value, n) == 1)))
      && (op == TST ==> f.n == (a >= 0x8000_0000 && b.value >= 0x8000_0000))
      && (op == TEQ ==> f.z == (a == b.value) && f.n == ((a >= 0x8000_0000) != (b.value >= 0x8000_0000)))
      && (op != TST && op != TEQ ==> f.z == (r == 0) && f.n == (r >= 0x8000_0000))
  {
    hide GuestOperand, And, Or, Xor, Bit;
    var a, b := GuestValue(g, rn, ToWord(pc + 8)), GuestOperand(o, pc, g).value;
    BitwiseFits(a, b);
    CommonBits(a, b);
    DifferentBits(a, b);
  }

  lemma CommonBits(a: Word, b: Word)
    ensures And(a, b) == 0 <==> forall n: nat :: n < 32 ==> !(Bit(a, n) == 1 && Bit(b, n) == 1)
    ensures And(a, b) >= 0x8000_0000 <==> a >= 0x8000_0000 && b >= 0x8000_0000
  {
    hide Bit, And, Pow2;
    BitwiseFits(a, b);
    var x, m := And(a, b), 32;
    Pow2OfWord(m);
    HighBits(x, m);
    forall n: nat ensures Bit(x, n) == 1 <==> Bit(a, n) == 1 && Bit(b, n) == 1 { BitAnd(a, b, n); }
    forall n: nat ensures Bit(0, n) == 0 && (Bit(x, n) == 0 || Bit(x, n) == 1) {
      BitOfZero(n);
      BitBinary(x, n);
    }
    if forall n: nat :: n < 32 ==> !(Bit(a, n) == 1 && Bit(b, n) == 1) {
      forall n: nat ensures Bit(x, n) == Bit(0, n) {}
      BitsDetermine(x, 0);
    }
    TopBit(a);
    TopBit(b);
    TopBit(x);
  }

  lemma DifferentBits(a: Word, b: Word)
    ensures Xor(a, b) == 0 <==> a == b
    ensures Xor(a, b) >= 0x8000_0000 <==> (a >= 0x8000_0000) != (b >= 0x8000_0000)
  {
    hide Bit, Xor, Pow2;
    BitwiseFits(a, b);
    var x := Xor(a, b);
    forall n: nat ensures Bit(x, n) == 1 <==> Bit(a, n) != Bit(b, n) { BitXor(a, b, n); }
    forall n: nat ensures Bit(0, n) == 0 && (Bit(x, n) == 0 || Bit(x, n) == 1) {
      BitOfZero(n);
      BitBinary(x, n);
    }
    if x == 0 {
      forall n: nat ensures Bit(a, n) == Bit(b, n) {}
      BitsDetermine(a, b);
    }
    if a == b {
      forall n: nat ensures Bit(x, n) == Bit(0, n) {}
      BitsDetermine(x, 0);
    }
    TopBit(a);
    TopBit(b);
    TopBit(x);
    BitBinary(a, 31);
    BitBinary(b, 31);
  }

  /** Additions: the sum modulo 2^32, C its carry out of 32 bits and V its overflow as a signed number. */
  lemma AddMeaning(op: Opcode, s: bool, rd: Reg, rn: Reg, o: Operand, pc: Word, g: Guest)
    requires op in {ADD, ADC, CMN}
    ensures var a, b := if rn == 15 then (pc + 8) % 0x1_0000_0000 else g.regs[rn], GuestOperand(o, pc, g).value;
      var k := if op == ADC && g.flags.c then 1 else 0;
      var g', r := GuestDataProc(op, s, rd, rn, o, pc, g), (a + b + k) % 0x1_0000_0000;
      && (op != CMN ==> g'.regs[rd] == r)
      && (s ==> g'.flags == Nzcv(r >= 0x8000_0000, r == 0, a + b + k >= 0x1_0000_0000,
                                 !(-0x8000_0000 <= Signed(a) + Signed(b) + k < 0x8000_0000)))
  {
    hide GuestOperand;
    var a, b := GuestValue(g, rn, ToWord(pc + 8)), GuestOperand(o, pc, g).value;
    SumMeaning(a, b, op == ADC && g.flags.c);
  }

  /** Subtractions, in either order: C is "no borrow" and V the overflow as a signed number. */
  lemma SubtractMeaning(op: Opcode, s: bool, rd: Reg, rn: Reg, o: Operand, pc: Word, g: Guest)
    requires op in {SUB, RSB, SBC, RSC, CMP}
    ensures var a, b := if rn == 15 then (pc + 8) % 0x1_0000_0000 else g.regs[rn], GuestOperand(o, pc, g).value;
      var x, y := if op == RSB || op == RSC then b else a, if op == RSB || op == RSC then a else b;
      var k := if (op == SBC || op == RSC) && !g.flags.c then 1 else 0;
      var g', r := GuestDataProc(op, s, rd, rn, o, pc, g), (x - y - k) % 0x1_0000_0000;
      && (op != CMP ==> g'.regs[rd] == r)
      && (s ==> g'.flags == Nzcv(r >= 0x8000_0000, r == 0, x - y - k >= 0,
                                 !(-0x8000_0000 <= Signed(x) - Signed(y) - k < 0x8000_0000)))
  {
    hide GuestOperand, AddWithCarry, Not;
    var a, b := GuestValue(g, rn, ToWord(pc + 8)), GuestOperand(o, pc, g).value;
    var c := if op == SBC || op == RSC then g.flags.c else true;
    DifferenceMeaning(a, b, c);
    DifferenceMeaning(b, a, c);
  }

  lemma SumMeaning(x: Word, y: Word, c: bool)
    ensures var k := if c then 1 else 0;
      var r := (x + y + k) % 0x1_0000_0000;
      AddWithCarry(x, y, c) == Sum(r, Nzcv(r >= 0x8000_0000, r == 0, x + y + k >= 0x1_0000_0000,
                                           !(-0x8000_0000 <= Signed(x) + Signed(y) + k < 0x8000_0000)))
  {
    var k := if c then 1 else 0;
    assert (x + y + k) % 0x1_0000_0000 == if x + y + k < 0x1_0000_0000 then x + y + k else x + y + k - 0x1_0000_0000;
  }

  lemma DifferenceMeaning(x: Word, y: Word, c: bool)
    ensures var k := if c then 0 else 1;
      var r: int := (x - y - k) % 0x1_0000_0000;
      AddWithCarry(x, Not(y), c) == Sum(r, Nzcv(r >= 0x8000_0000, r == 0, x - y - k >= 0,
                                                !(-0x8000_0000 <= Signed(x) - Signed(y) - k < 0x8000_0000)))
  {
    var k: int := if c then 0 else 1;
    assert (x - y - k) % 0x1_0000_0000 == if x - y - k >= 0 then x - y - k else x - y - k + 0x1_0000_0000;
    assert x + Not(y) + CarryIn(c) == x - y - k + 0x1_0000_0000;
  }
}
