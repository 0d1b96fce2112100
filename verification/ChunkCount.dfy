/** How many instructions a constant takes. */
module ChunkCount {
  import opened Words
  import opened Constants

  // ---------------------------------------------------------------- where the pieces start

  /** From `p` on, where the first does, the even places at which bytes have to start, each as late as it can. */
  function Starts(imm: Word, p: nat): seq<nat>
    requires p <= 32 && p % 2 == 0
    decreases 32 - p
  {
    if p == 32 then [] else if p >= 24 then [p] else [p] + Starts(imm, NextPair(imm, p + 8))
  }

  /** Whether the last piece fits beside the first in one byte: the test asks for two others below it. */
  predicate Merges(imm: Word, n: nat, first: nat, last: nat) {
    n >= 3 && last > 24 && imm % Pow2(first + 8) < Pow2(last - 24) - 1
  }

  lemma WrapsExactly(imm: Word, p: nat, chunks: seq<Chunk>, first: nat)
    requires 24 <= p < 32 && first < 24 && first % 2 == 0 && imm % Pow2(first) == 0
    requires chunks != [] && chunks[0] == ChunkAt(imm, first)
    ensures WrapsAround(p, chunks) <==> Merges(imm, |chunks| + 1, first, p)
  {
    hide Pow2, Shr, Shl;
    FirstBits(imm, first);
    assert (32 - chunks[0].rot) % 32 == first;
    assert 8 - (32 - p) == p - 24;
  }

  lemma FirstBits(imm: Word, first: nat)
    requires first < 24 && imm % Pow2(first) == 0
    ensures Shl(ChunkAt(imm, first).store, first) == imm % Pow2(first + 8)
  {
    hide Pow2, Shr;
    ByteSplit(imm, first);
    ModBelow(imm, Pow2(first + 8));
    Fits(imm % Pow2(first + 8));
  }

  lemma ModBelow(x: nat, m: nat)
    requires m > 0
    ensures x % m <= x
  {
    if x < m { DivUnique(x, m, 0, x); }
  }

  lemma {:induction false} CountFrom(imm: Word, p: nat, chunks: seq<Chunk>, first: nat)
    requires p <= 32 && p % 2 == 0 && first < 24 && first % 2 == 0 && imm % Pow2(first) == 0
    requires chunks != [] && chunks[0] == ChunkAt(imm, first)
    ensures var starts := Starts(imm, p);
            |DisectFrom(imm, p, chunks)| == |chunks| + |starts|
              - if starts != [] && Merges(imm, |chunks| + |starts|, first, starts[|starts| - 1]) then 1 else 0
    decreases 32 - p
  {
    hide Pow2, Shr, ChunkAt, NextPair, WrapsAround, Merges, DisectFrom;
    if p >= 24 {
      DisectLast(imm, p, chunks);
      if p < 32 { WrapsExactly(imm, p, chunks, first); }
    } else {
      DisectMore(imm, p, chunks);
      var q := NextPair(imm, p + 8);
      CountFrom(imm, q, chunks + [ChunkAt(imm, p)], first);
      if q == 32 { OnlyHighMerges(imm, |chunks| + 1, first, p); }
    }
  }

  lemma OnlyHighMerges(imm: Word, n: nat, first: nat, last: nat)
    requires last <= 24
    ensures !Merges(imm, n, first, last)
  {}

  /** A constant takes one instruction for every piece, and one less where the last piece joins the first. */
  lemma CountExact(imm: Word)
    requires imm != 0
    ensures var starts := Starts(imm, NextPair(imm, 0));
            && starts != []
            && |Disect(imm)| == |starts| - if Merges(imm, |starts|, starts[0], starts[|starts| - 1]) then 1 else 0
  {
    hide Pow2, Shr, ChunkAt, NextPair, DisectFrom;
    DisectNonzero(imm);
    StartNonzero(imm);
    var p := NextPair(imm, 0);
    if p >= 24 {
      DisectLast(imm, p, []);
      assert !WrapsAround(p, []);
    } else {
      DisectMore(imm, p, []);
      assert [] + [ChunkAt(imm, p)] == [ChunkAt(imm, p)];
      var q := NextPair(imm, p + 8);
      CountFrom(imm, q, [ChunkAt(imm, p)], p);
      if q == 32 { OnlyHighMerges(imm, 1, p, p); }
    }
  }

  lemma StartNonzero(imm: Word)
    requires imm != 0
    ensures NextPair(imm, 0) < 32 && imm % Pow2(NextPair(imm, 0)) == 0
  {
    hide NextPair, Pow2;
    var p := NextPair(imm, 0);
    ScanSkipsZeros(imm, 0);
    assert imm % Pow2(0) == 0 by { assert Pow2(0) == 1 by { PowZero(); } }
    if p == 32 {
      Pow2OfWord(p);
      DivUnique(imm, TWO32, 0, imm);
    }
  }

  lemma PowZero()
    ensures Pow2(0) == 1
  {}

  // ---------------------------------------------------------------- no fewer bytes would do

  /** Every set bit of `imm` from `l` on lies in a byte that starts at an even place among `places`. */
  ghost predicate Covers(places: set<nat>, imm: Word, l: nat) {
    forall b :: l <= b < 32 && Bit(imm, b) == 1 ==> exists q :: q in places && q % 2 == 0 && q <= b < q + 8
  }

  lemma PairHasBit(imm: Word, p: nat)
    ensures Shr(imm, p) % 4 != 0 <==> Bit(imm, p) == 1 || Bit(imm, p + 1) == 1
  {
    Pow2Double(p);
    MulCommutes(2, Pow2(p));
    DivDiv(imm, Pow2(p), 2);
    hide Pow2;
  }

  lemma {:induction false} NoBitsBefore(imm: Word, l: nat)
    requires l <= 32 && l % 2 == 0
    ensures forall b :: l <= b < NextPair(imm, l) ==> Bit(imm, b) != 1
    decreases 32 - l
  {
    hide Bit, Shr;
    if l != 32 && Shr(imm, l) % 4 == 0 {
      PairHasBit(imm, l);
      NoBitsBefore(imm, l + 2);
    }
  }

  /** The pieces are as few as bytes at even places can be, as long as none wraps around. */
  lemma {:induction false} StartsFewest(imm: Word, p: nat, places: set<nat>)
    requires p <= 32 && p % 2 == 0 && (p < 32 ==> Shr(imm, p) % 4 != 0) && Covers(places, imm, p)
    ensures |Starts(imm, p)| <= |places|
    decreases 32 - p
  {
    hide Bit, Shr, NextPair;
    if p < 32 {
      PairHasBit(imm, p);
      var b := if Bit(imm, p) == 1 then p else p + 1;
      var q :| q in places && q % 2 == 0 && q <= b < q + 8;
      if p < 24 {
        assert q <= p;
        var next := NextPair(imm, p + 8);
        ScanFinds(imm, p + 8);
        DropPlace(imm, p, next, places, q);
        StartsFewest(imm, next, places - {q});
      }
    }
  }

  lemma DropPlace(imm: Word, l: nat, m: nat, places: set<nat>, q: nat)
    requires Covers(places, imm, l) && l <= m && q + 8 <= m
    ensures Covers(places - {q}, imm, m)
  {
    hide Bit;
    forall b | m <= b < 32 && Bit(imm, b) == 1
      ensures exists r :: r in places - {q} && r % 2 == 0 && r <= b < r + 8
    {
      var r :| r in places && r % 2 == 0 && r <= b < r + 8;
      assert r in places - {q};
    }
  }

  function Places(starts: seq<nat>): set<nat> { set q | q in starts }

  lemma {:induction false} StartsCover(imm: Word, p: nat)
    requires p <= 32 && p % 2 == 0
    ensures Covers(Places(Starts(imm, p)), imm, p)
    decreases 32 - p
  {
    hide Bit, Shr, NextPair;
    if p < 24 {
      var next := NextPair(imm, p + 8);
      NoBitsBefore(imm, p + 8);
      StartsCover(imm, next);
      AddPlace(imm, p, next, Starts(imm, next));
    } else if p < 32 {
      assert p in Places([p]);
    }
  }

  lemma AddPlace(imm: Word, p: nat, next: nat, rest: seq<nat>)
    requires p % 2 == 0 && p + 8 <= next && Covers(Places(rest), imm, next)
    requires forall b :: p + 8 <= b < next ==> Bit(imm, b) != 1
    ensures Covers(Places([p] + rest), imm, p)
  {
    hide Bit;
    var places := Places([p] + rest);
    assert p in places && forall q :: q in Places(rest) ==> q in places;
    forall b | p <= b < 32 && Bit(imm, b) == 1
      ensures exists q :: q in places && q % 2 == 0 && q <= b < q + 8
    {
      if b >= p + 8 {
        var q :| q in Places(rest) && q % 2 == 0 && q <= b < q + 8;
        assert q in places;
      }
    }
  }

  /** The pieces of a constant: they cover its bits, and no fewer places do. */
  lemma PiecesFewest(imm: Word, places: set<nat>)
    requires imm != 0
    ensures Covers(Places(Starts(imm, NextPair(imm, 0))), imm, 0)
    ensures Covers(places, imm, 0) ==> |Starts(imm, NextPair(imm, 0))| <= |places|
  {
    hide Bit, Shr, NextPair, Starts;
    var p := NextPair(imm, 0);
    ScanFinds(imm, 0);
    NoBitsBefore(imm, 0);
    StartsCover(imm, p);
    assert forall b | 0 <= b < 32 && Bit(imm, b) == 1 :: p <= b;
    if Covers(places, imm, 0) { StartsFewest(imm, p, places); }
  }

  /** One instruction is enough exactly for the constants whose bits lie in a byte at an even place. */
  lemma OneInstruction(imm: Word)
    requires imm != 0
    ensures |Disect(imm)| == 1 <==> exists q :: Covers({q}, imm, 0)
  {
    hide Bit, Shr, NextPair, Disect, Covers, Pow2, Starts;
    CountExact(imm);
    PiecesFewest(imm, {});
    var starts := Starts(imm, NextPair(imm, 0));
    if |Disect(imm)| == 1 {
      assert Places(starts) == {starts[0]};
    }
    if q :| Covers({q}, imm, 0) { PiecesFewest(imm, {q}); }
  }

  /** A byte that wraps around takes two, though one could hold it: the two pieces are never joined. */
  lemma WrappedByteTakesTwo(imm: Word, k: nat)
    requires k in {2, 4, 6} && !exists q :: Covers({q}, imm, 0)
    requires forall b :: k <= b < 24 + k ==> Bit(imm, b) != 1
    ensures |Disect(imm)| == 2
  {
    hide Bit, Disect, Starts, Covers, Pow2, NextPair;
    ZeroCovered();
    CountExact(imm);
    OneInstruction(imm);
    assert Covers({0, 24 + k}, imm, 0) by { BothEnds(imm, k); }
    PiecesFewest(imm, {0, 24 + k});
  }

  lemma BothEnds(imm: Word, k: nat)
    requires k in {2, 4, 6}
    requires forall b :: k <= b < 24 + k ==> Bit(imm, b) != 1
    ensures Covers({0, 24 + k}, imm, 0)
  {
    hide Bit;
    forall b | 0 <= b < 32 && Bit(imm, b) == 1
      ensures exists q :: q in {0, 24 + k} && q % 2 == 0 && q <= b < q + 8
    {
      var q := if b < k then 0 else 24 + k;
      assert q in {0, 24 + k} && q <= b < q + 8;
    }
  }

  lemma ZeroCovered()
    ensures Covers({0}, 0, 0)
  {
    forall b: nat ensures Bit(0, b) == 0 { DivUnique(0, Pow2(b), 0, 0); }
  }
}
