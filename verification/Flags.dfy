/**
 The condition flags: the interpreter's way of computing them after an addition or a subtraction,
 the exact integer facts they stand for, and the sixteen condition codes.
 */
module Flags {
  import opened Words

  datatype Nzcv = Nzcv(n: bool, z: bool, c: bool, v: bool)

  // ---------------------------------------------------------------- the interpreter's macros

  /** The `calculate_flags_add` macro, where `dest` is `a + b` as a u32. */
  function FlagsAdd(dest: Word, a: Word, b: Word): Nzcv {
    Nzcv(Signed(dest) < 0,
         dest == 0,
         dest < a,
         (Signed(dest) < Signed(a)) != (Signed(b) < 0))
  }

  /** The `calculate_flags_sub` macro, where `dest` is `a - b` as a u32. */
  function FlagsSub(dest: Word, a: Word, b: Word): Nzcv {
    Nzcv(Signed(dest) < 0,
         dest == 0,
         b <= a,
         (Signed(b) > Signed(a)) != (Signed(dest) < 0))
  }

  // ---------------------------------------------------------------- the architecture's adder

  datatype Sum = Sum(value: Word, flags: Nzcv)

  function CarryIn(c: bool): int { if c then 1 else 0 }

  /** Addition with carry: the flags say whether the exact unsigned and signed sums fit a word. */
  function AddWithCarry(x: Word, y: Word, c: bool): Sum {
    var value := ToWord(x + y + CarryIn(c));
    Sum(value, Nzcv(value >= TWO31,
                    value == 0,
                    x + y + CarryIn(c) != value,
                    Signed(x) + Signed(y) + CarryIn(c) != Signed(value)))
  }

  /** After an addition C is the exact unsigned carry and V the exact signed overflow. */
  lemma AddFlagsExact(a: Word, b: Word)
    ensures FlagsAdd(ToWord(a + b), a, b) == AddWithCarry(a, b, false).flags
    ensures FlagsAdd(ToWord(a + b), a, b).c <==> a + b >= TWO32
    ensures FlagsAdd(ToWord(a + b), a, b).v <==> !(-TWO31 <= Signed(a) + Signed(b) < TWO31)
  {
    assert ToWord(a + b) == if a + b < TWO32 then a + b else a + b - TWO32;
  }

  /** After a subtraction C is "no borrow" and V the exact signed overflow. */
  lemma SubFlagsExact(a: Word, b: Word)
    ensures AddWithCarry(a, Not(b), true).value == ToWord(a - b)
    ensures FlagsSub(ToWord(a - b), a, b) == AddWithCarry(a, Not(b), true).flags
    ensures FlagsSub(ToWord(a - b), a, b).c <==> a - b >= 0
    ensures FlagsSub(ToWord(a - b), a, b).v <==> !(-TWO31 <= Signed(a) - Signed(b) < TWO31)
  {
    var d := if a >= b then a - b else a - b + TWO32;
    assert ToWord(a - b) == ToWord(a + Not(b) + 1) == d;
  }

  // ---------------------------------------------------------------- condition codes

  const EQ := 0
  const NE := 1
  const CS := 2
  const CC := 3
  const MI := 4
  const PL := 5
  const VS := 6
  const VC := 7
  const HI := 8
  const LS := 9
  const GE := 10
  const LT := 11
  const GT := 12
  const LE := 13
  const AL := 14
  const NV := 15

  type Cond = c: int | 0 <= c < 16

  /** Section A3.2 of the ARM Architecture Reference Manual; code 15 never executes here. */
  predicate Holds(cond: Cond, f: Nzcv) {
    match cond
    case 0 => f.z
    case 1 => !f.z
    case 2 => f.c
    case 3 => !f.c
    case 4 => f.n
    case 5 => !f.n
    case 6 => f.v
    case 7 => !f.v
    case 8 => f.c && !f.z
    case 9 => !f.c || f.z
    case 10 => f.n == f.v
    case 11 => f.n != f.v
    case 12 => !f.z && f.n == f.v
    case 13 => f.z || f.n != f.v
    case 14 => true
    case _ => false
  }

  /** The `condition_opposite_*` table. */
  function Opposite(cond: Cond): Cond {
    match cond
    case 0 => NE
    case 1 => EQ
    case 2 => CC
    case 3 => CS
    case 4 => PL
    case 5 => MI
    case 6 => VC
    case 7 => VS
    case 8 => LS
    case 9 => HI
    case 10 => LT
    case 11 => GE
    case 12 => LE
    case 13 => GT
    case 14 => NV
    case _ => AL
  }

  /** The block header's `condition ^= 0x01`. */
  function FlipLowBit(cond: Cond): Cond {
    XorOne(cond);
    Xor(cond, 1)
  }

  lemma FlipIsOpposite(cond: Cond)
    ensures FlipLowBit(cond) == Opposite(cond)
  {
    hide Xor;
    XorOne(cond);
  }

  lemma XorOne(n: nat)
    ensures Xor(n, 1) == if n % 2 == 0 then n + 1 else n - 1
  {
    assert Xor(n, 1) == (if n % 2 != 1 then 1 else 0) + 2 * Xor(n / 2, 0);
    XorZero(n / 2);
  }

  lemma {:induction false} XorZero(n: nat)
    ensures Xor(n, 0) == n
  {
    if n != 0 { XorZero(n / 2); }
  }

  /** Both ways of inverting a condition are logical negation, for all sixteen codes. */
  lemma OppositeNegates(cond: Cond, f: Nzcv)
    ensures Holds(Opposite(cond), f) <==> !Holds(cond, f)
    ensures Holds(FlipLowBit(cond), f) <==> !Holds(cond, f)
  {
    FlipIsOpposite(cond);
  }

  /** After comparing `a` with `b` the conditions decide the unsigned and signed order. */
  lemma ConditionsDecideOrder(a: Word, b: Word)
    ensures var f := FlagsSub(ToWord(a - b), a, b);
            && (Holds(EQ, f) <==> a == b) && (Holds(NE, f) <==> a != b)
            && (Holds(CS, f) <==> a >= b) && (Holds(CC, f) <==> a < b)
            && (Holds(HI, f) <==> a > b)  && (Holds(LS, f) <==> a <= b)
            && (Holds(GE, f) <==> Signed(a) >= Signed(b)) && (Holds(LT, f) <==> Signed(a) < Signed(b))
            && (Holds(GT, f) <==> Signed(a) > Signed(b))  && (Holds(LE, f) <==> Signed(a) <= Signed(b))
            && (Holds(MI, f) <==> (a - b) % 0x1_0000_0000 >= 0x8000_0000) && (Holds(PL, f) <==> !Holds(MI, f))
            && (Holds(VS, f) <==> !(-0x8000_0000 <= Signed(a) - Signed(b) < 0x8000_0000))
            && (Holds(VC, f) <==> !Holds(VS, f)) && Holds(AL, f) && !Holds(NV, f)
  {}
}
