/**
 Host instruction words: the emitter's packing macros, and the decoding the ARM architecture
 prescribes for the words they build.
 */
module InstructionWords {
  import opened Words
  import opened Flags
  import opened Shifter

  type Reg = r: int | 0 <= r < 16

  // The data-processing opcodes.
  const AND := 0
  const EOR := 1
  const SUB := 2
  const RSB := 3
  const ADD := 4
  const ADC := 5
  const SBC := 6
  const RSC := 7
  const TST := 8
  const TEQ := 9
  const CMP := 10
  const CMN := 11
  const ORR := 12
  const MOV := 13
  const BIC := 14
  const MVN := 15

  type Opcode = op: int | 0 <= op < 16

  /** TST, TEQ, CMP and CMN write no register and exist only in the flag-setting form. */
  predicate IsTest(op: Opcode) { 8 <= op <= 11 }

  datatype Operand =
    | Immediate(imm8: nat, rot: nat)
    | ShiftedByImm(rm: Reg, t: ShiftType, amount: nat)
    | ShiftedByReg(rm: Reg, t: ShiftType, rs: Reg)
  {
    predicate Valid() {
      match this
      case Immediate(imm8, rot) => imm8 < 256 && rot < 16
      case ShiftedByImm(_, _, amount) => amount < 32
      case ShiftedByReg(_, _, _) => true
    }
  }

  datatype Instr =
    | DataProc(op: Opcode, s: bool, rd: Reg, rn: Reg, operand: Operand)
    | Transfer(load: bool, rd: Reg, rn: Reg, offset: int)
    | Branch(link: bool, offset24: nat)
    | Exchange(link: bool, rm: Reg)
    | Other

  datatype Decoded = Decoded(cond: Cond, instr: Instr)

  function ShiftCode(t: ShiftType): (code: nat)
    ensures code < 4
  {
    match t case LSL => 0 case LSR => 1 case ASR => 2 case ROR => 3
  }

  function ShiftOf(code: nat): ShiftType
    requires code < 4
  {
    if code == 0 then LSL else if code == 1 then LSR else if code == 2 then ASR else ROR
  }

  // ---------------------------------------------------------------- packing

  /** The fields common to all data-processing words, or-ed onto a 12-bit operand. */
  function PackDpi(operand: nat, rd: Reg, rn: Reg, s: bool, op: Opcode, imm: bool, cond: Cond): nat {
    Or(Or(Or(Or(Or(Or(operand,
      rd * 0x1000),
      rn * 0x1_0000),
      (if s then 1 else 0) * 0x10_0000),
      op * 0x20_0000),
      (if imm then 1 else 0) * 0x200_0000),
      cond * 0x1000_0000)
  }

  function PackOperand(o: Operand): nat {
    match o
    case Immediate(imm8, rot) => Or(imm8 % 256, rot % 16 * 0x100)
    case ShiftedByImm(rm, t, amount) => Or(Or(rm, ShiftCode(t) * 0x20), amount % 32 * 0x80)
    case ShiftedByReg(rm, t, rs) => Or(Or(Or(rm, 0x10), ShiftCode(t) * 0x20), rs * 0x100)
  }

  function PackDataProc(op: Opcode, s: bool, rd: Reg, rn: Reg, o: Operand, cond: Cond): nat {
    PackDpi(PackOperand(o), rd, rn, s, op, o.Immediate?, cond)
  }

  /** A word transfer with an immediate offset, pre-indexed, without write-back. */
  function PackTransfer(load: bool, rd: Reg, rn: Reg, imm: int, cond: Cond): nat
  {
    Or(Or(Or(Or(Or(Or(Or(if imm < 0 then -imm else imm,
      rd * 0x1000),
      rn * 0x1_0000),
      (if load then 1 else 0) * 0x10_0000),
      (if imm >= 0 then 1 else 0) * 0x80_0000),
      0x100_0000),
      0x400_0000),
      cond * 0x1000_0000)
  }

  function PackBranch(offset: nat, link: bool, cond: Cond): nat {
    Or(Or(Or(offset, (if link then 1 else 0) * 0x100_0000), 5 * 0x200_0000), cond * 0x1000_0000)
  }

  /** BX and BLX to a register; the fields are or-ed lowest first. */
  function PackExchange(link: bool, rm: Reg, cond: Cond): nat {
    Or(Or(rm, (if link then 0x12_FFF3 else 0x12_FFF1) * 0x10), cond * 0x1000_0000)
  }

  // ---------------------------------------------------------------- decoding

  function DecodeOperand(w: Word, imm: bool): Operand {
    if imm then Immediate(w % 256, Field(w, 0x100, 16))
    else if Field(w, 0x10, 2) == 0 then
      ShiftedByImm(w % 16, ShiftOf(Field(w, 0x20, 4)), Field(w, 0x80, 32))
    else
      ShiftedByReg(w % 16, ShiftOf(Field(w, 0x20, 4)), Field(w, 0x100, 16))
  }

  function DecodeInstr(w: Word): Instr {
    var op, s := Field(w, 0x20_0000, 16), Field(w, 0x10_0000, 2) == 1;
    var rn, rd := Field(w, 0x1_0000, 16), Field(w, 0x1000, 16);
    match Field(w, 0x200_0000, 8)
    case 0 =>
      if IsTest(op) && !s then
        if Field(w, 0x10, 0x100_0000) == 0x12_FFF1 then Exchange(false, w % 16)
        else if Field(w, 0x10, 0x100_0000) == 0x12_FFF3 then Exchange(true, w % 16)
        else Other
      else if Field(w, 0x10, 2) == 1 && Field(w, 0x80, 2) == 1 then Other
      else DataProc(op, s, rd, rn, DecodeOperand(w, false))
    case 1 =>
      if IsTest(op) && !s then Other else DataProc(op, s, rd, rn, DecodeOperand(w, true))
    case 2 =>
      if Field(w, 0x100_0000, 2) == 1 && Field(w, 0x20_0000, 4) == 0 then
        Transfer(s, rd, rn, if Field(w, 0x80_0000, 2) == 1 then w % 0x1000 else -(w % 0x1000))
      else Other
    case 5 =>
      Branch(Field(w, 0x100_0000, 2) == 1, w % 0x100_0000)
    case _ => Other
  }

  function Decode(w: Word): Decoded { Decoded(w / 0x1000_0000, DecodeInstr(w)) }

  // ---------------------------------------------------------------- packing then decoding

  /** Or-ing fields at the weights used here. */
  lemma OrField(a: nat, b: nat, w: nat)
    requires a < w
    requires w in {0x10, 0x20, 0x80, 0x100, 0x1000, 0x1_0000, 0x10_0000, 0x20_0000, 0x80_0000,
                   0x100_0000, 0x200_0000, 0x400_0000, 0x1000_0000}
    ensures Or(a, b * w) == a + b * w
  {
    var k := if w == 0x10 then 4 else if w == 0x20 then 5 else if w == 0x80 then 7 else if w == 0x100 then 8
             else if w == 0x1000 then 12 else if w == 0x1_0000 then 16 else if w == 0x10_0000 then 20
             else if w == 0x20_0000 then 21 else if w == 0x80_0000 then 23 else if w == 0x100_0000 then 24
             else if w == 0x200_0000 then 25 else if w == 0x400_0000 then 26 else 28;
    assert Pow2(k) == w by { SmallPowers(); }
    OrAbove(a, b, k);
  }

  /** A packed data-processing word is the sum of its fields. */
  lemma PackDpiSum(operand: nat, rd: Reg, rn: Reg, s: bool, op: Opcode, imm: bool, cond: Cond)
    requires operand < 0x1000
    ensures PackDpi(operand, rd, rn, s, op, imm, cond)
         == operand + rd * 0x1000 + rn * 0x1_0000 + (if s then 1 else 0) * 0x10_0000 + op * 0x20_0000
            + (if imm then 1 else 0) * 0x200_0000 + cond * 0x1000_0000
  {
    hide Words.Or;
    OrField(operand, rd, 0x1000);
    var a := operand + rd * 0x1000;
    OrField(a, rn, 0x1_0000);
    var b := a + rn * 0x1_0000;
    OrField(b, if s then 1 else 0, 0x10_0000);
    var c := b + (if s then 1 else 0) * 0x10_0000;
    OrField(c, op, 0x20_0000);
    var d := c + op * 0x20_0000;
    OrField(d, if imm then 1 else 0, 0x200_0000);
    OrField(d + (if imm then 1 else 0) * 0x200_0000, cond, 0x1000_0000);
  }

  lemma PackOperandSum(o: Operand)
    requires o.Valid()
    ensures PackOperand(o) == match o
      case Immediate(imm8, rot) => imm8 + rot * 0x100
      case ShiftedByImm(rm, t, amount) => rm + ShiftCode(t) * 0x20 + amount * 0x80
      case ShiftedByReg(rm, t, rs) => rm + 0x10 + ShiftCode(t) * 0x20 + rs * 0x100
  {
    hide Words.Or, ShiftCode;
    match o
    case Immediate(imm8, rot) => OrField(imm8, rot, 0x100);
    case ShiftedByImm(rm, t, amount) => ImmShiftSum(rm, ShiftCode(t), amount);
    case ShiftedByReg(rm, t, rs) => RegShiftSum(rm, ShiftCode(t), rs);
  }

  /** The shift types, as encoded. */
  lemma ShiftCodes(t: ShiftType)
    ensures ShiftOf(ShiftCode(t)) == t
    ensures ShiftCode(LSL) == 0 && ShiftCode(LSR) == 1 && ShiftCode(ASR) == 2 && ShiftCode(ROR) == 3
  {}

  lemma ImmShiftSum(rm: Reg, st: nat, amount: nat)
    requires st < 4 && amount < 32
    ensures Or(Or(rm, st * 0x20), amount % 32 * 0x80) == rm + st * 0x20 + amount * 0x80
  {
    hide Words.Or;
    OrField(rm, st, 0x20);
    OrField(rm + st * 0x20, amount, 0x80);
  }

  lemma RegShiftSum(rm: Reg, st: nat, rs: Reg)
    requires st < 4
    ensures Or(Or(Or(rm, 0x10), st * 0x20), rs * 0x100) == rm + 0x10 + st * 0x20 + rs * 0x100
  {
    hide Words.Or;
    OrField(rm, 1, 0x10);
    OrField(rm + 0x10, st, 0x20);
    OrField(rm + 0x10 + st * 0x20, rs, 0x100);
  }

  lemma FieldsOfDpi(w: nat, operand: nat, rd: Reg, rn: Reg, s: nat, op: Opcode, imm: nat, cond: Cond)
    requires operand < 0x1000 && s < 2 && imm < 8
    requires w == operand + rd * 0x1000 + rn * 0x1_0000 + s * 0x10_0000 + op * 0x20_0000
                  + imm * 0x200_0000 + cond * 0x1000_0000
    ensures w < TWO32 && w / 0x1000_0000 == cond && Field(w, 0x200_0000, 8) == imm
    ensures Field(w, 0x20_0000, 16) == op && Field(w, 0x10_0000, 2) == s
    ensures Field(w, 0x1_0000, 16) == rn && Field(w, 0x1000, 16) == rd
    ensures w % 0x1000 == operand
  {
    hide Field;
    var w5 := imm + 8 * cond;
    var w4 := op + 16 * w5;
    var w3 := s + 2 * w4;
    var w2 := rn + 16 * w3;
    FieldAt(w, 0x1000, 16, operand, rd, w2);
    FieldAt(w, 0x1_0000, 16, operand + rd * 0x1000, rn, w3);
    var b3 := operand + rd * 0x1000 + rn * 0x1_0000;
    FieldAt(w, 0x10_0000, 2, b3, s, w4);
    FieldAt(w, 0x20_0000, 16, b3 + s * 0x10_0000, op, w5);
    FieldAt(w, 0x200_0000, 8, b3 + s * 0x10_0000 + op * 0x20_0000, imm, cond);
    DivUnique(w, 0x1000, rd + 16 * w2, operand);
    DivUnique(w, 0x1000_0000, cond, w - cond * 0x1000_0000);
  }

  /** A field of the low 12 bits does not see the bits above. */
  lemma FieldOfOperand(w: nat, lo: nat, width: nat)
    requires lo > 0 && width > 0
    requires 0x1000 % (lo * width) == 0
    ensures Field(w, lo, width) == Field(w % 0x1000, lo, width)
  {
    var m := lo * width;
    var k := 0x1000 / m;
    var a, r := w / 0x1000 * k, w % 0x1000;
    assert w / 0x1000 * 0x1000 == a * m by { MulAssoc(w / 0x1000, k, m); }
    var q, f, below := r / lo / width, Field(r, lo, width), r % lo;
    MulDistributes(a, q, width);
    MulAssoc(a, width, lo);
    MulCommutes(width, lo);
    assert w == ((a + q) * width + f) * lo + below by {
      MulDistributes(a * width, q * width + f, lo);
    }
    DivUnique(w, lo, (a + q) * width + f, below);
    DivUnique((a + q) * width + f, width, a + q, f);
  }

  lemma FieldsOfOperand(o: Operand)
    requires o.Valid()
    ensures PackOperand(o) < 0x1000
    ensures DecodeOperand(PackOperand(o), o.Immediate?) == o
    ensures o.ShiftedByImm? ==> Field(PackOperand(o), 0x10, 2) == 0
    ensures o.ShiftedByReg? ==> Field(PackOperand(o), 0x10, 2) == 1 && Field(PackOperand(o), 0x80, 2) == 0
  {
    hide PackOperand, Field;
    PackOperandSum(o);
    var w := PackOperand(o);
    match o
    case Immediate(imm8, rot) =>
      FieldAt(w, 0x100, 16, imm8, rot, 0);
      DivUnique(w, 256, rot, imm8);
    case ShiftedByImm(rm, t, amount) =>
      var st := ShiftCode(t);
      FieldAt(w, 0x10, 2, rm, 0, st + 4 * amount);
      FieldAt(w, 0x20, 4, rm, st, amount);
      FieldAt(w, 0x80, 32, rm + st * 0x20, amount, 0);
      DivUnique(w, 16, 2 * st + 8 * amount, rm);
    case ShiftedByReg(rm, t, rs) =>
      var st := ShiftCode(t);
      FieldAt(w, 0x10, 2, rm, 1, st + 8 * rs);
      FieldAt(w, 0x20, 4, rm + 0x10, st, 2 * rs);
      FieldAt(w, 0x80, 2, rm + 0x10 + st * 0x20, 0, rs);
      FieldAt(w, 0x100, 16, rm + 0x10 + st * 0x20, rs, 0);
      DivUnique(w, 16, 1 + 2 * st + 16 * rs, rm);
  }

  lemma LowBitsOfOperand(w: nat)
    ensures w % 256 == w % 0x1000 % 256 && w % 16 == w % 0x1000 % 16
  {
    var q, r := w / 0x1000, w % 0x1000;
    DivUnique(w, 256, 16 * q + r / 256, r % 256);
    DivUnique(w, 16, 256 * q + r / 16, r % 16);
  }

  /** Decoding recovers every field the emitter packed into a data-processing word. */
  lemma DecodePackDataProc(op: Opcode, s: bool, rd: Reg, rn: Reg, o: Operand, cond: Cond)
    requires o.Valid() && (IsTest(op) ==> s)
    ensures PackDataProc(op, s, rd, rn, o, cond) < TWO32
    ensures Decode(PackDataProc(op, s, rd, rn, o, cond)) == Decoded(cond, DataProc(op, s, rd, rn, o))
  {
    hide PackDpi, PackOperand, Field;
    FieldsOfOperand(o);
    PackDpiSum(PackOperand(o), rd, rn, s, op, o.Immediate?, cond);
    var w := PackDataProc(op, s, rd, rn, o, cond);
    FieldsOfDpi(w, PackOperand(o), rd, rn, if s then 1 else 0, op, if o.Immediate? then 1 else 0, cond);
    FieldOfOperand(w, 0x10, 2);
    FieldOfOperand(w, 0x20, 4);
    FieldOfOperand(w, 0x80, 2);
    FieldOfOperand(w, 0x80, 32);
    FieldOfOperand(w, 0x100, 16);
    LowBitsOfOperand(w);
  }

  /** The words built, as sums of their fields: pre-indexed word transfers, branches, BX and BLX. */
  lemma PackedSums(load: bool, rd: Reg, rn: Reg, imm: int, cond: Cond, offset: nat, link: bool, rm: Reg)
    requires -0x1000 < imm < 0x1000 && offset < 0x100_0000
    ensures PackTransfer(load, rd, rn, imm, cond)
         == cond * 0x1000_0000 + rn * 0x1_0000 + rd * 0x1000
            + if imm < 0 then (if load then 0x510_0000 else 0x500_0000) - imm
              else (if load then 0x590_0000 else 0x580_0000) + imm
    ensures PackBranch(offset, link, cond) == cond * 0x1000_0000 + (if link then 0xB00_0000 else 0xA00_0000) + offset
    ensures PackExchange(link, rm, cond) == cond * 0x1000_0000 + (if link then 0x12F_FF30 else 0x12F_FF10) + rm
  {
    hide Words.Or;
    TransferSum(load, rd, rn, imm, cond);
    OrField(offset, if link then 1 else 0, 0x100_0000);
    OrField(offset + (if link then 1 else 0) * 0x100_0000, 5, 0x200_0000);
    OrField(offset + (if link then 0xB00_0000 else 0xA00_0000), cond, 0x1000_0000);
    var k := if link then 0x12_FFF3 else 0x12_FFF1;
    OrField(rm, k, 0x10);
    OrField(rm + k * 0x10, cond, 0x1000_0000);
  }

  lemma TransferSum(load: bool, rd: Reg, rn: Reg, imm: int, cond: Cond)
    requires -0x1000 < imm < 0x1000
    ensures PackTransfer(load, rd, rn, imm, cond)
         == cond * 0x1000_0000 + rn * 0x1_0000 + rd * 0x1000
            + if imm < 0 then (if load then 0x510_0000 else 0x500_0000) - imm
              else (if load then 0x590_0000 else 0x580_0000) + imm
  {
    hide Words.Or;
    var l, u, d := if load then 1 else 0, if imm >= 0 then 1 else 0, if imm < 0 then -imm else imm;
    OrField(d, rd, 0x1000);
    OrField(d + rd * 0x1000, rn, 0x1_0000);
    var b := d + rd * 0x1000 + rn * 0x1_0000;
    OrField(b, l, 0x10_0000);
    OrField(b + l * 0x10_0000, u, 0x80_0000);
    var c := b + l * 0x10_0000 + u * 0x80_0000;
    OrField(c, 1, 0x100_0000);
    OrField(c + 0x100_0000, 1, 0x400_0000);
    OrField(c + 0x500_0000, cond, 0x1000_0000);
  }

  /** The load and store words, decoded; the displacement is at most 12 bits, up or down. */
  lemma DecodePackTransfer(load: bool, rd: Reg, rn: Reg, imm: int, cond: Cond)
    requires -0x1000 < imm < 0x1000
    ensures PackTransfer(load, rd, rn, imm, cond) < TWO32
    ensures Decode(PackTransfer(load, rd, rn, imm, cond)) == Decoded(cond, Transfer(load, rd, rn, imm))
  {
    hide Field, Words.Or, PackTransfer;
    var l, u, d := if load then 1 else 0, if imm >= 0 then 1 else 0, if imm < 0 then -imm else imm;
    TransferSum(load, rd, rn, imm, cond);
    var b := d + rd * 0x1000 + rn * 0x1_0000;
    var w := PackTransfer(load, rd, rn, imm, cond);
    FieldsOfDpi(w, d, rd, rn, l, 8 + 4 * u, 2, cond);
    FieldAt(w, 0x20_0000, 4, b + l * 0x10_0000, 0, 10 + u + 32 * cond);
    FieldAt(w, 0x80_0000, 2, b + l * 0x10_0000, u, 5 + 16 * cond);
    FieldAt(w, 0x100_0000, 2, b + l * 0x10_0000 + u * 0x80_0000, 1, 2 + 8 * cond);
  }

  lemma DecodePackBranch(offset: nat, link: bool, cond: Cond)
    requires offset < 0x100_0000
    ensures PackBranch(offset, link, cond) < TWO32
    ensures PackBranch(offset, link, cond) % 0x100_0000 == offset
    ensures Decode(PackBranch(offset, link, cond)) == Decoded(cond, Branch(link, offset))
  {
    hide Field, Words.Or;
    var l := if link then 1 else 0;
    OrField(offset, l, 0x100_0000);
    OrField(offset + l * 0x100_0000, 5, 0x200_0000);
    OrField(offset + l * 0x100_0000 + 5 * 0x200_0000, cond, 0x1000_0000);
    var w := PackBranch(offset, link, cond);
    FieldAt(w, 0x100_0000, 2, offset, l, 5 + 8 * cond);
    FieldAt(w, 0x200_0000, 8, offset + l * 0x100_0000, 5, cond);
    DivUnique(w, 0x1000_0000, cond, w - cond * 0x1000_0000);
    DivUnique(w, 0x100_0000, l + 10 + 16 * cond, offset);
  }

  lemma DecodePackExchange(link: bool, rm: Reg, cond: Cond)
    ensures PackExchange(link, rm, cond) < TWO32
    ensures Decode(PackExchange(link, rm, cond)) == Decoded(cond, Exchange(link, rm))
  {
    hide Field, Words.Or;
    var k := if link then 0x12_FFF3 else 0x12_FFF1;
    OrField(rm, k, 0x10);
    OrField(rm + k * 0x10, cond, 0x1000_0000);
    var w := PackExchange(link, rm, cond);
    FieldAt(w, 0x10, 0x100_0000, rm, k, cond);
    var below := rm + (k - 0x12_0000) * 0x10;
    FieldAt(w, 0x20_0000, 16, below, 9, 8 * cond);
    FieldAt(w, 0x10_0000, 2, below, 0, 9 + 128 * cond);
    FieldAt(w, 0x200_0000, 8, rm + k * 0x10, 0, cond);
    DivUnique(w, 0x1000_0000, cond, w - cond * 0x1000_0000);
    DivUnique(w, 16, k + cond * 0x100_0000, rm);
  }
}
