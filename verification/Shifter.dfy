/**
 The barrel shifter: the interpreter's closed forms, and the one-bit shift they abbreviate.
 */
module Shifter {
  import opened Words

  datatype ShiftType = LSL | LSR | ASR | ROR

  datatype Shifted = Shifted(value: Word, carry: bool)

  /** One place: the bit shifted out becomes the carry. */
  function ShiftOnce(t: ShiftType, v: Word): Shifted {
    match t
    case LSL => Shifted(ToWord(2 * v), v >= TWO31)
    case LSR => Shifted(v / 2, v % 2 == 1)
    case ASR => Shifted(ToWord(Signed(v) / 2), v % 2 == 1)
    case ROR => Shifted(v / 2 + v % 2 * TWO31, v % 2 == 1)
  }

  /** One place in numbers: the bit shifted out and the rest are the word, unsigned or signed. */
  lemma OneShift(t: ShiftType, v: Word)
    ensures var r, out := ShiftOnce(t, v).value, if ShiftOnce(t, v).carry then 1 else 0;
      match t
      case LSL => out * 0x1_0000_0000 + r == 2 * v
      case LSR => 2 * r + out == v
      case ASR => 2 * Signed(r) + out == Signed(v)
      case ROR => 2 * r + out == v + out * 0x1_0000_0000
  {}

  /** `n` places, one at a time: what section A5.1 of the architecture manual tabulates. */
  function Shift(t: ShiftType, n: nat, v: Word, c: bool): Shifted {
    if n == 0 then Shifted(v, c) else ShiftOnce(t, Shift(t, n - 1, v, c).value)
  }

  /** Rotate right with extend: one place through the carry. */
  function Rrx(v: Word, c: bool): Shifted {
    Shifted(v / 2 + (if c then TWO31 else 0), v % 2 == 1)
  }

  /** The shifter operand of an encoded immediate shift; amount 0 is special for three types. */
  function ImmediateShift(t: ShiftType, imm: nat, v: Word, c: bool): Shifted {
    if imm == 0 && t == ROR then Rrx(v, c)
    else if imm == 0 && t != LSL then Shift(t, 32, v, c)
    else Shift(t, imm, v, c)
  }

  /** The shifter operand of an encoded register shift: only the low byte of the register counts. */
  function RegisterShift(t: ShiftType, rs: Word, v: Word, c: bool): Shifted {
    Shift(t, rs % 256, v, c)
  }

  // ---------------------------------------------------------------- the interpreter's macros

  /** `calculate_reg_sh_flags`, immediate cases. */
  function ShiftFlagsImm(t: ShiftType, imm: nat, v: Word, c: bool): Shifted
    requires imm < 32
  {
    match t
    case LSL => if imm != 0 then Shifted(Shl(v, imm), Bit(v, 32 - imm) == 1) else Shifted(v, c)
    case LSR => if imm == 0 then Shifted(0, v / TWO31 == 1) else Shifted(Shr(v, imm), Bit(v, imm - 1) == 1)
    case ASR => if imm == 0 then Shifted(Sar(v, 31), Sar(v, 31) % 2 == 1)
                else Shifted(Sar(v, imm), Bit(v, imm - 1) == 1)
    case ROR => if imm == 0 then Shifted(v / 2 + (if c then TWO31 else 0), v % 2 == 1)
                else Shifted(Ror(v, imm), Bit(v, imm - 1) == 1)
  }

  /** `calculate_reg_sh_flags`, register cases; a rotation by more than 31 is undefined in C. */
  function ShiftFlagsReg(t: ShiftType, shift: Word, v: Word, c: bool): Shifted
    requires t == ROR ==> shift < 32
  {
    if shift == 0 then Shifted(v, c)
    else match t
      case LSL => if shift > 31 then Shifted(0, if shift == 32 then v % 2 == 1 else false)
                  else Shifted(Shl(v, shift), Bit(v, 32 - shift) == 1)
      case LSR => if shift > 31 then Shifted(0, if shift == 32 then v / TWO31 == 1 else false)
                  else Shifted(Shr(v, shift), Bit(v, shift - 1) == 1)
      case ASR => if shift > 31 then Shifted(Sar(v, 31), Sar(v, 31) % 2 == 1)
                  else Shifted(Sar(v, shift), Bit(v, shift - 1) == 1)
      case ROR => Shifted(Ror(v, shift), Bit(v, shift - 1) == 1)
  }

  /** `calculate_reg_sh`, which leaves the carry alone. */
  function ShiftValueImm(t: ShiftType, imm: nat, v: Word, c: bool): Word
    requires imm < 32
  {
    match t
    case LSL => Shl(v, imm)
    case LSR => if imm == 0 then 0 else Shr(v, imm)
    case ASR => if imm == 0 then Sar(v, 31) else Sar(v, imm)
    case ROR => if imm == 0 then v / 2 + (if c then TWO31 else 0) else Ror(v, imm)
  }

  function ShiftValueReg(t: ShiftType, shift: Word, v: Word): Word
    requires t == ROR ==> shift < 32
  {
    match t
    case LSL => if shift <= 31 then Shl(v, shift) else 0
    case LSR => if shift <= 31 then Shr(v, shift) else 0
    case ASR => if shift <= 31 then Sar(v, shift) else Sar(v, 31)
    case ROR => Ror(v, shift)
  }

  // ---------------------------------------------------------------- closed forms

  lemma {:induction false} LeftClosed(n: nat, v: Word, c: bool)
    requires n <= 32
    ensures Shift(LSL, n, v, c) == Shifted(Shl(v, n), if n == 0 then c else Bit(v, 32 - n) == 1)
  {
    if n != 0 {
      LeftClosed(n - 1, v, c);
      LeftStep(v, n - 1);
      TopBitOfLeftShift(v, n - 1);
    } else {
      LeftStep(v, 0);
    }
  }

  lemma LeftStep(v: Word, m: nat)
    ensures Shl(v, m + 1) == ToWord(2 * Shl(v, m))
    ensures m == 0 ==> Shl(v, m) == v
  {
    var p := v * Pow2(m);
    assert v * Pow2(m + 1) == p * 2 by { MulCommutes(2, Pow2(m)); MulAssoc(v, Pow2(m), 2); }
    ModMulMod(p, 2, TWO32);
  }

  /** The bit about to leave a word that has been shifted left `m` times. */
  lemma TopBitOfLeftShift(v: Word, m: nat)
    requires m <= 31
    ensures Shl(v, m) / TWO31 == Bit(v, 31 - m)
  {
    Complementary(m, 31 - m);
    TopBitOfProduct(v, Pow2(m), Pow2(31 - m));
  }

  lemma TopBitOfProduct(v: Word, p: nat, k: nat)
    requires p > 0 && k > 0 && k * p == TWO31
    ensures v * p % TWO32 / TWO31 == v / k % 2
  {
    var a, r := v / k, v % k;
    MulDistributes(a * k, r, p);
    MulAssoc(a, k, p);
    assert v == a * k + r;
    assert v * p == a * TWO31 + r * p;
    MulMonotone(r, k - 1, p);
    MulMonotone(0, r, p);
    MulDistributes(k, -1, p);
    DivUnique(v * p, TWO32, a / 2, a % 2 * TWO31 + r * p);
    DivUnique(a % 2 * TWO31 + r * p, TWO31, a % 2, r * p);
  }

  lemma {:induction false} RightClosed(n: nat, v: Word, c: bool)
    ensures Shift(LSR, n, v, c) == Shifted(Shr(v, n), if n == 0 then c else Bit(v, n - 1) == 1)
  {
    if n != 0 {
      RightClosed(n - 1, v, c);
      DivDiv(v, Pow2(n - 1), 2);
    }
  }

  lemma {:induction false} ArithmeticClosed(n: nat, v: Word, c: bool)
    ensures Shift(ASR, n, v, c).value == Sar(v, n)
    ensures n != 0 ==> Shift(ASR, n, v, c).carry == (Sar(v, n - 1) % 2 == 1)
  {
    if n != 0 {
      ArithmeticClosed(n - 1, v, c);
      ArithmeticHalf(v, n - 1);
    }
  }

  lemma ArithmeticHalf(v: Word, m: nat)
    ensures ToWord(Signed(Sar(v, m)) / 2) == Sar(v, m + 1)
  {
    SignedQuotient(Signed(v), Pow2(m));
    assert Signed(v) / Pow2(m) / 2 == Signed(v) / (Pow2(m) * 2) by { DivDiv(Signed(v), Pow2(m), 2); }
    MulCommutes(Pow2(m), 2);
  }

  lemma SignedQuotient(s: int, d: nat)
    requires d > 0 && -TWO31 <= s < TWO31
    ensures Signed(ToWord(s / d)) == s / d
  {
    SignedQuotientInRange(s, d);
  }

  lemma SignedQuotientInRange(s: int, d: nat)
    requires d > 0 && -TWO31 <= s < TWO31
    ensures -TWO31 <= s / d < TWO31
  {
    var q := s / d;
    assert s == q * d + s % d;
    MulGrows(q, d);
    MulGrows(q + 1, d);
    assert (q + 1) * d == q * d + d;
    if q <= -1 { MulGrows(-(q + 1), d); assert -(q + 1) * d == -((q + 1) * d); }
  }

  /** Below 32 places the bit an arithmetic shift exposes is the plain bit of the word. */
  lemma ArithmeticBit(v: Word, n: nat)
    requires n <= 31
    ensures Sar(v, n) % 2 == Bit(v, n)
  {
    Complementary(n, 31 - n);
    if v >= TWO31 {
      NegativeQuotient(v, Pow2(n), Pow2(31 - n));
    } else {
      DivShrinks(v, Pow2(n));
    }
  }

  lemma NegativeQuotient(v: int, p: nat, k: nat)
    requires p > 0 && k * p == TWO31
    ensures ToWord((v - TWO32) / p) % 2 == v / p % 2
  {
    var a: int, b: int := v / p, -2 * k;
    MulAssoc(-2, k, p);
    MulDistributes(a, b, p);
    DivUnique(v - TWO32, p, a + b, v % p);
    Parity(a + b);
    assert (a + b) % 2 == a % 2 by { ModAdd(a, b / 2, 2); }
  }

  lemma Parity(x: int)
    ensures ToWord(x) % 2 == x % 2
  {}

  /** A rotation puts the low bits above the high ones, and the two parts fit one word. */
  lemma RotateFits(v: Word, n: nat)
    requires n <= 32
    ensures 0 <= v / Pow2(n) + v % Pow2(n) * Pow2(32 - n) < TWO32
  {
    Complementary(n, 32 - n);
    var p, k := Pow2(n), Pow2(32 - n);
    QuotientBelow(v, p, k);
    MulMonotone(v % p, p - 1, k);
    MulMonotone(0, v % p, k);
    MulDistributes(p, -1, k);
    DivShrinks(v, p);
  }

  lemma QuotientBelow(v: int, p: nat, k: nat)
    requires p > 0 && v < k * p
    ensures v / p < k
  {
    if v / p >= k { MulMonotone(k, v / p, p); }
  }

  lemma RotateParts(v: int, p: nat, k: nat)
    requires p > 0 && k * p == TWO31
    ensures v % (2 * p) * k == v % p * k + v / p % 2 * TWO31
    ensures v / (2 * p) == v / p / 2
  {
    DivDiv(v, p, 2);
    MulCommutes(p, 2);
    var b, r := v / p % 2, v % p;
    DoubleModulus(v, p);
    MulDistributes(b * p, r, k);
    MulAssoc(b, p, k);
    MulCommutes(p, k);
  }

  lemma DoubleModulus(v: int, p: nat)
    requires p > 0
    ensures v % (2 * p) == v / p % 2 * p + v % p
  {
    var a := v / p;
    MulDistributes(a / 2 * 2, a % 2, p);
    MulAssoc(a / 2, 2, p);
    DivUnique(v, 2 * p, a / 2, a % 2 * p + v % p);
  }

  lemma RotateHalf(v: int, p: nat, k: nat)
    requires p > 0 && k * p == TWO31
    ensures var w := v / p + v % p * (2 * k);
            w % 2 == v / p % 2 && w / 2 == v / p / 2 + v % p * k
  {
    MulAssoc(v % p, 2, k);
    MulCommutes(v % p, 2);
    MulAssoc(2, v % p, k);
  }

  lemma RotateValue(v: Word, n: nat)
    requires n <= 32
    ensures Ror(v, n) == v / Pow2(n) + v % Pow2(n) * Pow2(32 - n)
  {
    RotateFits(v, n);
  }

  lemma RotateZero(v: Word)
    ensures Ror(v, 0) == v
  {
    RotateValue(v, 0);
  }

  lemma RotateStep(v: Word, m: nat)
    requires m <= 30
    ensures ShiftOnce(ROR, Ror(v, m)) == Shifted(Ror(v, m + 1), Bit(v, m) == 1)
  {
    Complementary(m, 31 - m);
    RotateValue(v, m);
    RotateValue(v, m + 1);
    RotateParts(v, Pow2(m), Pow2(31 - m));
    RotateHalf(v, Pow2(m), Pow2(31 - m));
  }

  lemma {:induction false} RotateClosed(n: nat, v: Word, c: bool)
    requires n <= 31
    ensures Shift(ROR, n, v, c) == Shifted(Ror(v, n), if n == 0 then c else Bit(v, n - 1) == 1)
  {
    if n == 0 {
      RotateZero(v);
    } else {
      RotateClosed(n - 1, v, c);
      RotateStep(v, n - 1);
    }
  }

  lemma RightBeyond(n: nat, v: Word)
    ensures n >= 32 ==> Shr(v, n) == 0
    ensures n == 31 ==> Bit(v, n) == v / TWO31
  {
    Pow2Beyond(n);
    Pow2OfWord(n);
    if n >= 32 { DivUnique(v, Pow2(n), 0, v); }
  }

  lemma {:induction false} LeftBeyond(n: nat, v: Word, c: bool)
    requires n >= 32
    ensures Shift(LSL, n, v, c) == Shifted(0, n == 32 && v % 2 == 1)
  {
    if n == 32 {
      LeftClosed(n, v, c);
      Pow2OfWord(n);
      assert Bit(v, 0) == v % 2;
    } else {
      LeftBeyond(n - 1, v, c);
    }
  }

  lemma ArithmeticBeyond(n: nat, v: Word)
    requires n >= 31
    ensures Sar(v, n) == if v >= TWO31 then TWO32 - 1 else 0
  {
    Pow2Beyond(n);
    if v >= TWO31 {
      DivUnique(Signed(v), Pow2(n), -1, Signed(v) + Pow2(n));
    } else {
      DivUnique(v, Pow2(n), 0, v);
    }
  }

  /** The immediate closed forms are the architecture's shifter, for every value and amount. */
  lemma ImmediateClosedForm(t: ShiftType, imm: nat, v: Word, c: bool)
    requires imm < 32
    ensures ShiftFlagsImm(t, imm, v, c) == ImmediateShift(t, imm, v, c)
    ensures ShiftValueImm(t, imm, v, c) == ImmediateShift(t, imm, v, c).value
  {
    match t
    case LSL => LeftClosed(imm, v, c);
    case LSR => if imm == 0 { LogicalRight(32, v, c); } else { LogicalRight(imm, v, c); }
    case ASR => if imm == 0 { ArithmeticRight(32, v, c); } else { ArithmeticRight(imm, v, c); }
    case ROR => RotateClosed(imm, v, c);
  }

  lemma {:induction false} LogicalRight(n: nat, v: Word, c: bool)
    requires n >= 1
    ensures n < 32 ==> Shift(LSR, n, v, c) == Shifted(Shr(v, n), Bit(v, n - 1) == 1)
    ensures n >= 32 ==> Shift(LSR, n, v, c) == Shifted(0, n == 32 && v / TWO31 == 1)
  {
    RightClosed(n, v, c);
    RightBeyond(n, v);
    RightBeyond(n - 1, v);
  }

  lemma ArithmeticRight(n: nat, v: Word, c: bool)
    requires n >= 1
    ensures n < 32 ==> Shift(ASR, n, v, c) == Shifted(Sar(v, n), Bit(v, n - 1) == 1)
    ensures n >= 32 ==> Shift(ASR, n, v, c) == Shifted(Sar(v, 31), Sar(v, 31) % 2 == 1)
  {
    ArithmeticClosed(n, v, c);
    if n < 32 {
      ArithmeticBit(v, n - 1);
    } else {
      ArithmeticBeyond(n, v);
      ArithmeticBeyond(n - 1, v);
      ArithmeticBeyond(31, v);
    }
  }

  /** The register closed forms shift by the whole register, one place at a time. */
  lemma RegisterClosedForm(t: ShiftType, shift: Word, v: Word, c: bool)
    requires t == ROR ==> shift < 32
    ensures ShiftFlagsReg(t, shift, v, c) == Shift(t, shift, v, c)
    ensures ShiftValueReg(t, shift, v) == Shift(t, shift, v, c).value
  {
    hide Shl, Shr, Sar, Ror, Bit;
    if shift == 0 {
      Unshifted(t, v, c);
    } else {
      match t
      case LSL => if shift < 32 { LeftClosed(shift, v, c); } else { LeftBeyond(shift, v, c); }
      case LSR => LogicalRight(shift, v, c);
      case ASR => ArithmeticRight(shift, v, c);
      case ROR => RotateClosed(shift, v, c);
    }
  }

  lemma Unshifted(t: ShiftType, v: Word, c: bool)
    ensures Shift(t, 0, v, c) == Shifted(v, c) && ShiftValueReg(t, 0, v) == v
  {
    assert Pow2(0) == 1;
    if t == ROR { RotateZero(v); }
  }

  /** Whether shifting by a whole register is the same as shifting by its low byte. */
  predicate LowByteSuffices(t: ShiftType, shift: Word) {
    shift < 256 || shift % 256 > (if t == ASR then 31 else 32)
  }

  /**
   The interpreter shifts by the whole register where the hardware uses the low byte: the two agree
   on every value and carry exactly for these amounts.
   */
  lemma LowByteAgreement(t: ShiftType, shift: Word)
    requires t != ROR
    ensures (forall v: Word, c: bool :: ShiftFlagsReg(t, shift, v, c) == RegisterShift(t, shift, v, c))
            <==> LowByteSuffices(t, shift)
  {
    if LowByteSuffices(t, shift) {
      forall v: Word, c: bool ensures ShiftFlagsReg(t, shift, v, c) == RegisterShift(t, shift, v, c) {
        LowByteAgrees(t, shift, v, c);
      }
    } else {
      LowByteDiffers(t, shift);
    }
  }

  lemma LowByteAgrees(t: ShiftType, shift: Word, v: Word, c: bool)
    requires t != ROR && LowByteSuffices(t, shift)
    ensures ShiftFlagsReg(t, shift, v, c) == RegisterShift(t, shift, v, c)
  {
    hide Shift, Shl, Shr, Sar, Bit;
    RegisterClosedForm(t, shift % 256, v, c);
  }

  lemma LowByteDiffers(t: ShiftType, shift: Word)
    requires t != ROR && !LowByteSuffices(t, shift)
    ensures ShiftFlagsReg(t, shift, TellTale(t), false) != RegisterShift(t, shift, TellTale(t), false)
  {
    RegisterClosedForm(t, shift % 256, TellTale(t), false);
    ShortShiftVisible(t, shift % 256, TellTale(t));
    ArithmeticBeyond(31, TellTale(t));
  }

  /** The same for the value alone: the carry of a shift by exactly 32 (or, for ASR, 31) does not matter. */
  predicate LowByteSufficesForValue(t: ShiftType, shift: Word) {
    shift < 256 || shift % 256 > (if t == ASR then 30 else 31)
  }

  lemma LowByteValueAgreement(t: ShiftType, shift: Word)
    requires t != ROR
    ensures (forall v: Word, c: bool :: ShiftValueReg(t, shift, v) == RegisterShift(t, shift, v, c).value)
            <==> LowByteSufficesForValue(t, shift)
  {
    hide Shift, ShiftValueReg;
    forall v: Word, c: bool ensures RegisterShift(t, shift, v, c).value == ShiftValueReg(t, shift % 256, v) {
      RegisterClosedForm(t, shift % 256, v, c);
    }
    if LowByteSufficesForValue(t, shift) {
      forall v: Word ensures ShiftValueReg(t, shift, v) == ShiftValueReg(t, shift % 256, v) {
        ValuesAgree(t, shift, v);
      }
    } else {
      ShortValueVisible(t, shift);
      assert RegisterShift(t, shift, TellTale(t), false).value == ShiftValueReg(t, shift % 256, TellTale(t));
    }
  }

  lemma ValuesAgree(t: ShiftType, shift: Word, v: Word)
    requires t != ROR && LowByteSufficesForValue(t, shift)
    ensures ShiftValueReg(t, shift, v) == ShiftValueReg(t, shift % 256, v)
  {
    hide Shl, Shr, Sar;
  }

  lemma ShortValueVisible(t: ShiftType, shift: Word)
    requires t != ROR && !LowByteSufficesForValue(t, shift)
    ensures ShiftValueReg(t, shift, TellTale(t)) == 0 != ShiftValueReg(t, shift % 256, TellTale(t))
  {
    var low, n := shift % 256, if t == ASR then 30 else 31;
    Pow2Monotone(low, n);
    Pow2Shown(n);
    ArithmeticBeyond(31, TellTale(t));
    match t
    case LSL => SmallModulus(Pow2(low), TWO32);
    case LSR => DivAtLeastOne(TellTale(t), Pow2(low));
    case ASR => DivAtLeastOne(TellTale(t), Pow2(low));
  }

  lemma Pow2Shown(n: nat)
    ensures n == 31 ==> Pow2(n) == 0x8000_0000
    ensures n == 30 ==> Pow2(n) == 0x4000_0000
  {
    Pow2OfWord(n);
    var m := 31;
    Pow2OfWord(m);
    if n == 30 { assert Pow2(m) == 2 * Pow2(n); }
  }

  lemma SmallModulus(c: nat, m: nat)
    requires c < m
    ensures c % m == c
  {}

  /** A word that no short shift of type `t` turns into zero without a carry. */
  function TellTale(t: ShiftType): Word {
    if t == LSL then 1 else if t == LSR then 0x8000_0000 else 0x4000_0000
  }

  lemma ShortShiftVisible(t: ShiftType, low: nat, v: Word)
    requires t != ROR && low <= (if t == ASR then 31 else 32) && v == TellTale(t)
    ensures ShiftFlagsReg(t, low, v, false) != Shifted(0, false)
  {
    var n := 31;
    Pow2OfWord(n);
    if low < 31 {
      Pow2Monotone(low + 1, n);
      assert 2 * Pow2(low) <= TWO31;
      match t
      case LSL =>
      case LSR => DivAtLeastOne(v, Pow2(low));
      case ASR => DivAtLeastOne(v, Pow2(low));
    } else if low == 31 {
      assert Pow2(n - 1) * 2 == TWO31;
    }
  }
}
