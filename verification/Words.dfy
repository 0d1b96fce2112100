/**
 32-bit machine words and the C operations on them.

 A word is the integer a C `u32` holds. Masking with 2^k - 1 is written `% 2^k`, and a shift by a
 constant k as a division or multiplication by 2^k.
 */
module Words {
  const TWO32: int := 0x1_0000_0000
  const TWO31: int := 0x8000_0000

  type Word = x: int | 0 <= x < 0x1_0000_0000

  /** C's conversion to `u32`. */
  function ToWord(x: int): Word { x % TWO32 }

  /** C's `(s32)v`. */
  function Signed(v: Word): int { if v < TWO31 then v else v - TWO32 }

  function Pow2(n: nat): (r: nat)
    ensures r > 0
  {
    if n == 0 then 1 else 2 * Pow2(n - 1)
  }

  /** C's `v << n` and `v >> n` on `u32`, and `(s32)v >> n`. */
  function Shl(v: Word, n: nat): Word { ToWord(v * Pow2(n)) }

  function Shr(v: Word, n: nat): (r: Word)
    ensures r <= v
  {
    DivShrinks(v, Pow2(n));
    v / Pow2(n)
  }

  function Sar(v: Word, n: nat): Word { ToWord(Signed(v) / Pow2(n)) }

  /** Bit `n` of `v`. */
  function Bit(v: nat, n: nat): nat { v / Pow2(n) % 2 }

  /** Rotation right by `n` places, 0 <= n <= 32. */
  function Ror(v: Word, n: nat): Word
    requires n <= 32
  {
    ToWord(v / Pow2(n) + v % Pow2(n) * Pow2(32 - n))
  }

  function And(a: nat, b: nat): nat {
    if a == 0 then 0 else a % 2 * (b % 2) + 2 * And(a / 2, b / 2)
  }

  function Or(a: nat, b: nat): nat
    decreases a + b
  {
    if a == 0 && b == 0 then 0 else (if a % 2 == 1 || b % 2 == 1 then 1 else 0) + 2 * Or(a / 2, b / 2)
  }

  function Xor(a: nat, b: nat): nat
    decreases a + b
  {
    if a == 0 && b == 0 then 0 else (if a % 2 != b % 2 then 1 else 0) + 2 * Xor(a / 2, b / 2)
  }

  function Not(a: Word): Word { TWO32 - 1 - a }

  // ---------------------------------------------------------------- powers of two

  lemma DivShrinks(v: nat, d: nat)
    requires d > 0
    ensures 0 <= v / d <= v
  {
    var q := v / d;
    assert v == q * d + v % d;
    MulGrows(q, d);
  }

  lemma MulGrows(q: int, d: int)
    requires d > 0
    ensures q >= 0 ==> q * d >= q
    ensures q >= 1 ==> q * d >= d
    ensures q <= -1 ==> q * d <= -d
  {
    if q >= 1 {
      assert q * d == (q - 1) * d + d;
      assert q * d == q * (d - 1) + q;
    } else if q <= -1 {
      assert q * d == (q + 1) * d - d;
    }
  }

  lemma SmallPowers()
    ensures Pow2(4) == 0x10 && Pow2(5) == 0x20 && Pow2(7) == 0x80 && Pow2(8) == 0x100 && Pow2(12) == 0x1000
    ensures Pow2(15) == 0x8000 && Pow2(16) == 0x1_0000
    ensures Pow2(20) == 0x10_0000 && Pow2(21) == 0x20_0000 && Pow2(23) == 0x80_0000 && Pow2(24) == 0x100_0000
    ensures Pow2(25) == 0x200_0000 && Pow2(26) == 0x400_0000 && Pow2(28) == 0x1000_0000
  {
    Pow2Sum(4, 4);
    Pow2Sum(8, 4);
    Pow2Sum(8, 7);
    Pow2Sum(8, 8);
    Pow2Sum(16, 4);
    Pow2Sum(16, 5);
    Pow2Sum(16, 7);
    Pow2Sum(16, 8);
    Pow2Sum(20, 5);
    Pow2Sum(21, 5);
    Pow2Sum(16, 12);
  }

  lemma Pow2Literals()
    ensures Pow2(31) == TWO31 && Pow2(32) == TWO32
  {
    SmallPowers();
    Pow2Sum(16, 15);
    Pow2Sum(16, 16);
  }

  /** The two word-sized powers, without literal arguments for the verifier to compute with. */
  lemma Pow2OfWord(n: nat)
    ensures n == 31 ==> Pow2(n) == TWO31
    ensures n == 32 ==> Pow2(n) == TWO32
  {
    Pow2Literals();
  }

  lemma Complementary(m: nat, n: nat)
    ensures m + n == 31 ==> Pow2(n) * Pow2(m) == TWO31
    ensures m + n == 32 ==> Pow2(n) * Pow2(m) == TWO32
  {
    Pow2Sum(n, m);
    Pow2OfWord(n + m);
  }

  lemma {:induction false} Pow2Sum(m: nat, n: nat)
    ensures Pow2(m + n) == Pow2(m) * Pow2(n)
  {
    if m != 0 {
      Pow2Sum(m - 1, n);
      MulAssoc(2, Pow2(m - 1), Pow2(n));
    }
  }

  lemma Pow2Double(k: nat)
    ensures Pow2(k + 1) == 2 * Pow2(k)
  {}

  lemma {:induction false} Pow2Monotone(m: nat, n: nat)
    requires m <= n
    ensures Pow2(m) <= Pow2(n)
    decreases n - m
  {
    if m < n { Pow2Monotone(m + 1, n); }
  }

  lemma Pow2Beyond(n: nat)
    ensures n >= 31 ==> Pow2(n) >= TWO31
    ensures n >= 32 ==> Pow2(n) >= TWO32
  {
    if n >= 32 {
      var w := 32;
      Pow2OfWord(w);
      Pow2Monotone(w, n);
    } else {
      Pow2OfWord(n);
    }
  }

  // ---------------------------------------------------------------- division

  lemma MulAssoc(a: int, b: int, c: int)
    ensures a * b * c == a * (b * c)
  {}

  lemma MulCommutes(a: int, b: int)
    ensures a * b == b * a
  {}

  lemma MulDistributes(a: int, b: int, c: int)
    ensures (a + b) * c == a * c + b * c
  {}

  lemma MulMonotone(a: int, b: int, c: nat)
    requires a <= b
    ensures a * c <= b * c
  {}

  lemma DivAtLeastOne(v: int, d: nat)
    requires 0 < d <= v
    ensures v / d >= 1
  {
    if v / d <= 0 { MulMonotone(v / d, 0, d); }
  }

  /** A quotient and remainder are determined by their defining equation. */
  lemma DivUnique(x: int, d: int, q: int, r: int)
    requires d > 0 && 0 <= r < d && x == q * d + r
    ensures x / d == q && x % d == r
  {
    assert (x / d) * d + x % d == x;
    assert (x / d - q) * d == r - x % d;
    MulGrows(x / d - q, d);
  }

  lemma DivDiv(x: int, a: int, b: int)
    requires a > 0 && b > 0
    ensures a * b > 0 && x / (a * b) == x / a / b
  {
    var q, r := x / a / b, x / a % b;
    MulDistributes(q * b, r, a);
    MulAssoc(q, b, a);
    MulCommutes(b, a);
    MulMonotone(r, b - 1, a);
    MulMonotone(0, r, a);
    MulMonotone(1, a, b);
    MulDistributes(b, -1, a);
    DivUnique(x, a * b, q, r * a + x % a);
  }

  lemma ModMulMod(x: int, k: int, m: int)
    requires m > 0
    ensures (x % m * k) % m == (x * k) % m
  {
    var q := x / m;
    assert x == q * m + x % m;
    assert x * k == q * k * m + x % m * k;
    ModAdd(x % m * k, q * k, m);
  }

  /** A remainder modulo a product, as a two-digit number. */
  lemma ModSplit(x: int, a: int, b: int)
    requires a > 0 && b > 0
    ensures a * b > 0 && x % (a * b) == x % a + x / a % b * a
  {
    DivDiv(x, a, b);
    var q, f := x / a / b, x / a % b;
    MulDistributes(q * b, f, a);
    MulAssoc(q, b, a);
    MulCommutes(b, a);
    MulMonotone(f, b - 1, a);
    MulMonotone(0, f, a);
    MulDistributes(b, -1, a);
    DivUnique(x, a * b, q, f * a + x % a);
  }

  lemma HalfOfMod(v: nat, p: nat)
    requires p > 0
    ensures v % (2 * p) % 2 == v % 2 && v % (2 * p) / 2 == v / 2 % p && v / (2 * p) == v / 2 / p
  {
    ModSplit(v, 2, p);
    DivDiv(v, 2, p);
    var r := v / 2 % p;
    assert v % (2 * p) == v % 2 + r * 2;
  }

  lemma ModAdd(x: int, q: int, m: int)
    requires m > 0
    ensures (q * m + x) % m == x % m
  {
    assert q * m + x == (q + x / m) * m + x % m;
    DivUnique(q * m + x, m, q + x / m, x % m);
  }

  // ---------------------------------------------------------------- fields of a word

  lemma {:induction false} OrZero(b: nat)
    ensures Or(0, b) == b
  {
    if b != 0 { OrZero(b / 2); }
  }

  /** Or-ing in a field above the bits already there is adding it. */
  lemma {:induction false} OrAbove(a: nat, b: nat, k: nat)
    requires a < Pow2(k)
    ensures Or(a, b * Pow2(k)) == a + b * Pow2(k)
  {
    if k == 0 {
      OrZero(b);
    } else {
      var c := b * Pow2(k - 1);
      assert b * Pow2(k) == 2 * c;
      OrAbove(a / 2, b, k - 1);
      assert Or(a, 2 * c) == a % 2 + 2 * Or(a / 2, c);
    }
  }

  lemma {:induction false} AndMask(a: nat, k: nat)
    ensures And(a, Pow2(k) - 1) == a % Pow2(k)
  {
    if k == 0 {
      AndZero(a);
    } else {
      var p := Pow2(k - 1);
      Pow2Double(k - 1);
      if a != 0 {
        AndMask(a / 2, k - 1);
        AndStep(a, p);
      } else {
        DivUnique(a, 2 * p, 0, 0);
      }
    }
  }

  lemma AndStep(a: nat, p: nat)
    requires a != 0 && p > 0 && And(a / 2, p - 1) == a / 2 % p
    ensures And(a, 2 * p - 1) == a % (2 * p)
  {
    HalfOfMod(a, p);
    assert (2 * p - 1) / 2 == p - 1 && (2 * p - 1) % 2 == 1;
    assert And(a, 2 * p - 1) == a % 2 * 1 + 2 * And(a / 2, p - 1);
  }

  lemma {:induction false} AndZero(a: nat)
    ensures And(a, 0) == 0
  {
    if a != 0 { AndZero(a / 2); }
  }

  /** Clearing the two low bits. */
  lemma AndNotThree(a: Word)
    ensures And(a, Not(3)) == a - a % 4
  {
    hide And, Pow2;
    var k := 30;
    var m := 0x3FFF_FFFF;
    assert Pow2(k) == m + 1 by { var w := 31; Pow2OfWord(w); Pow2Double(k); }
    AndMask(a / 4, k);
    assert a / 4 % (m + 1) == a / 4 by { DivUnique(a / 4, m + 1, 0, a / 4); }
    AndDouble(a, 2 * m);
    AndDouble(a / 2, m);
    assert a / 2 / 2 == a / 4;
  }

  lemma AndDouble(a: nat, b: nat)
    ensures And(a, 2 * b) == 2 * And(a / 2, b)
  {
    var c := 2 * b;
    assert c % 2 == 0 && c / 2 == b;
    if a != 0 { assert And(a, c) == a % 2 * (c % 2) + 2 * And(a / 2, c / 2); }
  }

  lemma {:induction false} OrCommutes(a: nat, b: nat)
    ensures Or(a, b) == Or(b, a)
    decreases a + b
  {
    if a != 0 || b != 0 { OrCommutes(a / 2, b / 2); }
  }

  lemma {:induction false} OrBelow(a: nat, b: nat, t: nat, k: nat)
    requires a < Pow2(k) && b < Pow2(k)
    ensures Or(a + t * Pow2(k), b) == Or(a, b) + t * Pow2(k)
    ensures Or(a, b) < Pow2(k)
  {
    if k == 0 {
      OrZero(t);
      OrCommutes(t, 0);
    } else {
      var c := t * Pow2(k - 1);
      assert t * Pow2(k) == 2 * c;
      OrBelow(a / 2, b / 2, t, k - 1);
      assert (a + 2 * c) % 2 == a % 2 && (a + 2 * c) / 2 == a / 2 + c;
    }
  }

  /** The field of `width` values that starts at weight `lo`. */
  function Field(w: nat, lo: nat, width: nat): (f: nat)
    requires lo > 0 && width > 0
    ensures f < width
  {
    w / lo % width
  }

  lemma FieldAt(w: nat, lo: nat, width: nat, below: nat, f: nat, above: nat)
    requires below < lo && f < width
    requires w == below + lo * (f + width * above)
    ensures Field(w, lo, width) == f
  {
    MulCommutes(lo, f + width * above);
    DivUnique(w, lo, f + width * above, below);
    MulCommutes(width, above);
    DivUnique(f + width * above, width, above, f);
  }
}
