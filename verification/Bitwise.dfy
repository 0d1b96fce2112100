/** What the bitwise operations compute, bit by bit, and that the bits determine a word. */
module Bitwise {
  import opened Words

  lemma BitHalf(v: nat, n: nat)
    ensures Bit(v, n + 1) == Bit(v / 2, n)
    ensures Bit(v, 0) == v % 2
  {
    Pow2Double(n);
    DivDiv(v, 2, Pow2(n));
    assert Pow2(0) == 1;
  }

  lemma {:induction false} BitOfZero(n: nat)
    ensures Bit(0, n) == 0
  {
    DivUnique(0, Pow2(n), 0, 0);
  }

  /** A number made of a low bit and the rest. */
  lemma BitOfPair(low: nat, rest: nat, n: nat)
    requires low < 2
    ensures Bit(low + 2 * rest, n) == if n == 0 then low else Bit(rest, n - 1)
  {
    hide Bit;
    DivUnique(low + 2 * rest, 2, rest, low);
    BitHalf(low + 2 * rest, if n == 0 then 0 else n - 1);
  }

  lemma {:induction false} BitAnd(a: nat, b: nat, n: nat)
    ensures Bit(And(a, b), n) == 1 <==> Bit(a, n) == 1 && Bit(b, n) == 1
    decreases a
  {
    hide Bit;
    BitOfZero(n);
    if a != 0 {
      BitOfPair(a % 2 * (b % 2), And(a / 2, b / 2), n);
      BitHalf(a, if n == 0 then 0 else n - 1);
      BitHalf(b, if n == 0 then 0 else n - 1);
      if n > 0 { BitAnd(a / 2, b / 2, n - 1); }
    }
  }

  lemma {:induction false} BitOr(a: nat, b: nat, n: nat)
    ensures Bit(Or(a, b), n) == 1 <==> Bit(a, n) == 1 || Bit(b, n) == 1
    decreases a + b
  {
    hide Bit;
    BitOfZero(n);
    if a != 0 || b != 0 {
      BitOfPair(if a % 2 == 1 || b % 2 == 1 then 1 else 0, Or(a / 2, b / 2), n);
      BitHalf(a, if n == 0 then 0 else n - 1);
      BitHalf(b, if n == 0 then 0 else n - 1);
      if n > 0 { BitOr(a / 2, b / 2, n - 1); }
    }
  }

  lemma {:induction false} BitXor(a: nat, b: nat, n: nat)
    ensures Bit(Xor(a, b), n) == 1 <==> Bit(a, n) != Bit(b, n)
    decreases a + b
  {
    hide Bit;
    BitOfZero(n);
    if a != 0 || b != 0 {
      BitOfPair(if a % 2 != b % 2 then 1 else 0, Xor(a / 2, b / 2), n);
      BitHalf(a, if n == 0 then 0 else n - 1);
      BitHalf(b, if n == 0 then 0 else n - 1);
      if n > 0 { BitXor(a / 2, b / 2, n - 1); }
    }
  }

  lemma {:induction false} BitComplement(a: nat, m: nat, n: nat)
    requires a < Pow2(m) && n < m
    ensures Bit(Pow2(m) - 1 - a, n) == 1 <==> Bit(a, n) == 0
    decreases m
  {
    hide Bit;
    Pow2Double(m - 1);
    var p := Pow2(m - 1);
    var r := p - 1 - a / 2;
    assert Pow2(m) - 1 - a == (1 - a % 2) + 2 * r;
    BitOfPair(1 - a % 2, r, n);
    BitHalf(a, if n == 0 then 0 else n - 1);
    if n > 0 { BitComplement(a / 2, m - 1, n - 1); }
  }

  lemma BitNot(a: Word, n: nat)
    requires n < 32
    ensures Bit(Not(a), n) == 1 <==> Bit(a, n) == 0
  {
    hide Bit, Pow2;
    var m := 32;
    Pow2OfWord(m);
    BitComplement(a, m, n);
  }

  /** Bits are 0 or 1. */
  lemma BitBinary(v: nat, n: nat)
    ensures Bit(v, n) == 0 || Bit(v, n) == 1
  {}

  /** A number is determined by its bits. */
  lemma {:induction false} BitsDetermine(x: nat, y: nat)
    requires forall n: nat :: Bit(x, n) == Bit(y, n)
    ensures x == y
    decreases x + y
  {
    hide Bit;
    if x != 0 || y != 0 {
      BitHalf(x, 0);
      BitHalf(y, 0);
      forall n: nat ensures Bit(x / 2, n) == Bit(y / 2, n) {
        BitHalf(x, n);
        BitHalf(y, n);
      }
      BitsDetermine(x / 2, y / 2);
    }
  }

  /** Bits from `m` up are clear exactly below 2^m. */
  lemma {:induction false} HighBits(v: nat, m: nat)
    ensures v < Pow2(m) <==> forall n: nat :: n >= m ==> Bit(v, n) == 0
    decreases m
  {
    hide Bit;
    if m == 0 {
      if forall n: nat :: n >= m ==> Bit(v, n) == 0 {
        forall n: nat ensures Bit(v, n) == Bit(0, n) {
          assert n >= m;
          BitOfZero(n);
        }
        BitsDetermine(v, 0);
      } else {
        forall n: nat ensures v == 0 ==> Bit(v, n) == 0 { BitOfZero(n); }
      }
    } else {
      HighBits(v / 2, m - 1);
      Pow2Double(m - 1);
      forall n: nat | n >= m ensures Bit(v, n) == Bit(v / 2, n - 1) { BitHalf(v, n - 1); }
      forall n: nat | n >= m - 1 ensures Bit(v / 2, n) == Bit(v, n + 1) { BitHalf(v, n); }
    }
  }

  /** The operations on words give words. */
  lemma BitwiseFits(a: Word, b: Word)
    ensures And(a, b) < TWO32 && Or(a, b) < TWO32 && Xor(a, b) < TWO32
  {
    hide Bit, And, Or, Xor, Pow2;
    var m := 32;
    Pow2OfWord(m);
    HighBits(a, m);
    HighBits(b, m);
    forall n: nat | n >= m ensures Bit(And(a, b), n) == Bit(Or(a, b), n) == Bit(Xor(a, b), n) == 0 {
      assert Bit(a, n) == 0 && Bit(b, n) == 0;
      BitAnd(a, b, n);
      BitOr(a, b, n);
      BitXor(a, b, n);
      BitBinary(And(a, b), n);
      BitBinary(Or(a, b), n);
      BitBinary(Xor(a, b), n);
    }
    HighBits(And(a, b), m);
    HighBits(Or(a, b), m);
    HighBits(Xor(a, b), m);
  }
}
