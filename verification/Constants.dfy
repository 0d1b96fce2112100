/**
 Splitting a 32-bit constant into rotated 8-bit immediates, and the code that loads or adds it.
 */
module Constants {
  import opened Words
  import opened Shifter

  /** An 8-bit immediate and the number of places it is rotated right. */
  datatype Chunk = Chunk(store: Word, rot: Word)

  /** The first position at or after `l`, in steps of two, where `imm` has a bit of the pair set; else 32. */
  function NextPair(imm: Word, l: nat): (p: nat)
    requires l <= 32 && l % 2 == 0
    ensures l <= p <= 32 && p % 2 == 0
    decreases 32 - l
  {
    if l == 32 || Shr(imm, l) % 4 != 0 then l else NextPair(imm, l + 2)
  }

  function ChunkAt(imm: Word, p: nat): Chunk
    requires p < 32
  {
    Chunk(Shr(imm, p) % 0x100, (32 - p) % 32)
  }

  /** Whether the last chunk, at `p`, is tacked on to the first one. */
  predicate WrapsAround(p: nat, chunks: seq<Chunk>): (b: bool)
    requires 24 <= p < 32
    ensures b ==> |chunks| > 1 && chunks[0].rot < 32
  {
    |chunks| > 1 && p > 24 && chunks[0].rot < 32
    && Shl(chunks[0].store, (32 - chunks[0].rot) % 32) < Pow2(8 - (32 - p)) - 1
  }

  function Tacked(imm: Word, p: nat, first: Chunk): Chunk
    requires p < 32 && first.rot < 32
  {
    Chunk(ToWord(Or(Shl(first.store, (32 - p + (32 - first.rot)) % 32), Shr(imm, p) % 0x100)), 32 - p)
  }

  /** A chunk at position 24 or above is the last. */
  function LastChunk(imm: Word, p: nat, chunks: seq<Chunk>): seq<Chunk>
    requires 24 <= p < 32
  {
    if WrapsAround(p, chunks) then chunks[0 := Tacked(imm, p, chunks[0])]
    else chunks + [ChunkAt(imm, p)]
  }

  /** The chunks of `imm`, given those below position `p`, where the next one starts. */
  function DisectFrom(imm: Word, p: nat, chunks: seq<Chunk>): seq<Chunk>
    requires p <= 32 && p % 2 == 0
    decreases 32 - p
  {
    if p == 32 then chunks
    else if p >= 24 then LastChunk(imm, p, chunks)
    else DisectFrom(imm, NextPair(imm, p + 8), chunks + [ChunkAt(imm, p)])
  }

  function Disect(imm: Word): seq<Chunk> {
    if imm == 0 then [Chunk(0, 0)] else DisectFrom(imm, NextPair(imm, 0), [])
  }

  /** What two parallel arrays hold, as chunks. */
  function Chunks(stores: seq<Word>, rotations: seq<Word>, count: nat): (r: seq<Chunk>)
    requires count <= |stores| && count <= |rotations|
    ensures |r| == count
  {
    seq(count, i requires 0 <= i < count => Chunk(stores[i], rotations[i]))
  }

  lemma ChunksAt(s: seq<Word>, r: seq<Word>, n: nat)
    requires n <= |s| && n <= |r|
    ensures forall i :: 0 <= i < n ==> Chunks(s, r, n)[i] == Chunk(s[i], r[i])
  {}

  lemma NextChunk(s: seq<Word>, r: seq<Word>, n: nat, store: Word, rot: Word)
    requires n < |s| && n < |r|
    ensures Chunks(s[n := store], r[n := rot], n + 1) == Chunks(s, r, n) + [Chunk(store, rot)]
  {}

  lemma OneChunk(s: seq<Word>, r: seq<Word>)
    requires s != [] && r != []
    ensures Chunks(s, r, 1) == [Chunk(s[0], r[0])]
  {}

  lemma FirstChunk(s: seq<Word>, r: seq<Word>, n: nat, store: Word, rot: Word)
    requires 0 < n <= |s| && n <= |r|
    ensures Chunks(s[0 := store], r[0 := rot], n) == Chunks(s, r, n)[0 := Chunk(store, rot)]
    ensures Chunks(s, r, n)[0] == Chunk(s[0], r[0])
  {}

  lemma ScanStep(imm: Word, l: nat)
    requires l <= 32 && l % 2 == 0
    ensures NextPair(imm, l) == if l == 32 || Shr(imm, l) % 4 != 0 then l else NextPair(imm, l + 2)
  {}

  lemma DisectLast(imm: Word, p: nat, chunks: seq<Chunk>)
    requires 24 <= p <= 32 && p % 2 == 0
    ensures DisectFrom(imm, p, chunks) == if p == 32 then chunks else LastChunk(imm, p, chunks)
  {
    hide NextPair, LastChunk, ChunkAt;
  }

  lemma DisectMore(imm: Word, p: nat, chunks: seq<Chunk>)
    requires p < 24 && p % 2 == 0
    ensures DisectFrom(imm, p, chunks) == DisectFrom(imm, NextPair(imm, p + 8), chunks + [ChunkAt(imm, p)])
  {
    hide NextPair, LastChunk, ChunkAt;
  }

  /** `arm_disect_imm_32bit`. */
  method DisectImm32(imm: Word, stores: array<Word>, rotations: array<Word>) returns (count: nat)
    requires stores != rotations && stores.Length == 4 && rotations.Length == 4
    modifies stores, rotations
    ensures 1 <= count <= 4
    ensures Chunks(stores[..], rotations[..], count) == Disect(imm)
  {
    hide Shr, Shl, Or, Pow2, NextPair, DisectFrom, Chunks;
    count := 0;
    var leftShift := 0;
    if imm == 0 {
      rotations[0] := 0;
      stores[0] := 0;
      assert Chunks(stores[..], rotations[..], 1) == [Chunk(0, 0)] by { OneChunk(stores[..], rotations[..]); }
      return 1;
    }
    assert Chunks(stores[..], rotations[..], 0) == [];
    while true
      invariant leftShift % 2 == 0 && 8 * count <= leftShift <= 31
      invariant Disect(imm) == DisectFrom(imm, NextPair(imm, leftShift), Chunks(stores[..], rotations[..], count))
      invariant forall i :: 0 <= i < count ==> rotations[i] < 32
      decreases 32 - leftShift
    {
      ghost var s, r, chunks := stores[..], rotations[..], Chunks(stores[..], rotations[..], count);
      ghost var l := leftShift;
      while leftShift < 32
        invariant leftShift % 2 == 0 && l <= leftShift <= 32
        invariant NextPair(imm, l) == NextPair(imm, leftShift)
        modifies {}
      {
        ScanStep(imm, leftShift);
        if Shr(imm, leftShift) % 4 != 0 {
          break;
        }
        leftShift := leftShift + 2;
      }
      ScanStep(imm, leftShift);
      assert stores[..] == s && rotations[..] == r;
      assert Disect(imm) == DisectFrom(imm, leftShift, chunks);
      if leftShift >= 24 { DisectLast(imm, leftShift, chunks); } else { DisectMore(imm, leftShift, chunks); }
      if leftShift == 32 {
        DisectExact(imm);
        return count;
      }
      NextChunk(s, r, count, Shr(imm, leftShift) % 0x100, (32 - leftShift) % 32);
      if leftShift >= 24 {
        var topBits := 32 - leftShift;
        var residualBits := 8 - topBits;
        var residualMask := Pow2(residualBits) - 1;
        if count > 0 { FirstChunk(s, r, count, s[0], r[0]); }
        if count > 1 && leftShift > 24 && Shl(stores[0], (32 - rotations[0]) % 32) < residualMask {
          stores[0] := ToWord(Or(Shl(stores[0], (topBits + (32 - rotations[0])) % 32), Shr(imm, leftShift) % 0x100));
          rotations[0] := topBits;
          FirstChunk(s, r, count, stores[0], rotations[0]);
          assert stores[..] == s[0 := stores[0]] && rotations[..] == r[0 := rotations[0]];
          return count;
        } else {
          stores[count] := Shr(imm, leftShift) % 0x100;
          rotations[count] := (32 - leftShift) % 32;
          assert stores[..] == s[count := stores[count]] && rotations[..] == r[count := rotations[count]];
          return count + 1;
        }
      }
      stores[count] := Shr(imm, leftShift) % 0x100;
      rotations[count] := (32 - leftShift) % 32;
      assert stores[..] == s[count := stores[count]] && rotations[..] == r[count := rotations[count]];
      count := count + 1;
      leftShift := leftShift + 8;
    }
  }

  // ---------------------------------------------------------------- the chunks are exact

  /** The word an immediate operand stands for. */
  function Value(c: Chunk): Word
    requires c.rot < 32
  {
    Ror(c.store, c.rot)
  }

  predicate ValidChunk(c: Chunk) { c.store < 0x100 && c.rot < 32 && c.rot % 2 == 0 }

  predicate ValidChunks(cs: seq<Chunk>) { forall i :: 0 <= i < |cs| ==> ValidChunk(cs[i]) }

  /** Loading the chunks: move the first, or in the others. */
  function OrValues(cs: seq<Chunk>): nat
    requires ValidChunks(cs)
  {
    if cs == [] then 0 else Or(OrValues(cs[..|cs| - 1]), Value(cs[|cs| - 1]))
  }

  /** Adding the chunks one after the other. */
  function SumValues(cs: seq<Chunk>): nat
    requires ValidChunks(cs)
  {
    if cs == [] then 0 else SumValues(cs[..|cs| - 1]) + Value(cs[|cs| - 1])
  }

  /** What holds of the chunks found below position `l`, the first of them at `first`. */
  predicate Progress(imm: Word, l: nat, cs: seq<Chunk>, first: nat) {
    && ValidChunks(cs)
    && 8 * |cs| <= l
    && SumValues(cs) == imm % Pow2(l)
    && (forall i :: 0 <= i <= |cs| ==> OrValues(cs[..i]) == SumValues(cs[..i]) < Pow2(l))
    && (cs != [] ==> first < 24 && first + 8 <= l && cs[0] == ChunkAt(imm, first) && cs[0].store != 0)
  }

  /** The bits a scan skips are zero. */
  lemma {:induction false} ScanSkipsZeros(imm: Word, l: nat)
    requires l <= 32 && l % 2 == 0
    ensures imm % Pow2(NextPair(imm, l)) == imm % Pow2(l)
    decreases 32 - l
  {
    if l != 32 && Shr(imm, l) % 4 == 0 {
      FourTimes(l);
      hide Pow2;
      ModSplit(imm, Pow2(l), 4);
      ScanSkipsZeros(imm, l + 2);
    }
  }

  lemma FourTimes(l: nat)
    ensures Pow2(l + 2) == Pow2(l) * 4
  {}

  lemma ByteSplit(imm: Word, p: nat)
    ensures imm % Pow2(p + 8) == imm % Pow2(p) + Shr(imm, p) % 0x100 * Pow2(p)
  {
    Pow2Sum(p, 8);
    SmallPowers();
    hide Pow2;
    ModSplit(imm, Pow2(p), 0x100);
  }

  lemma HighByte(imm: Word, p: nat)
    requires 24 <= p <= 32
    ensures Shr(imm, p) < Pow2(32 - p) <= 0x100
  {
    Complementary(p, 32 - p);
    SmallPowers();
    Pow2Monotone(32 - p, 8);
    hide Pow2;
    QuotientBelow(imm, Pow2(p), Pow2(32 - p));
  }

  /** A byte rotated right by 32 - p is the byte shifted left by p, when that fits. */
  lemma RotatedByte(c: Word, p: nat)
    requires p < 32 && c < 0x100 && (p > 24 ==> c < Pow2(32 - p))
    ensures Ror(c, (32 - p) % 32) == c * Pow2(p)
  {
    hide Ror;
    if p == 0 {
      RotateZero(c);
    } else {
      RotatedHigh(c, p);
    }
  }

  lemma RotatedHigh(c: Word, p: nat)
    requires 0 < p < 32 && c < 0x100 && (p > 24 ==> c < Pow2(32 - p))
    ensures Ror(c, 32 - p) == c * Pow2(p)
  {
    hide Ror, Pow2;
    var n := 32 - p;
    SmallPowers();
    if p <= 24 { Pow2Monotone(8, n); }
    RotateValue(c, n);
    DivUnique(c, Pow2(n), 0, c);
    assert 32 - n == p;
  }

  /** The chunk at `p` stands for the bits of `imm` it was taken from. */
  lemma ChunkValue(imm: Word, p: nat)
    requires p < 32 && p % 2 == 0
    ensures ValidChunk(ChunkAt(imm, p))
    ensures Value(ChunkAt(imm, p)) == Shr(imm, p) % 0x100 * Pow2(p)
  {
    hide Ror, Pow2, Shr;
    if p >= 24 { HighByte(imm, p); }
    RotatedByte(Shr(imm, p) % 0x100, p);
  }

  lemma Snoc(cs: seq<Chunk>, c: Chunk)
    requires ValidChunks(cs) && ValidChunk(c)
    ensures ValidChunks(cs + [c])
    ensures OrValues(cs + [c]) == Or(OrValues(cs), Value(c))
    ensures SumValues(cs + [c]) == SumValues(cs) + Value(c)
    ensures forall i :: 0 <= i <= |cs| ==> (cs + [c])[..i] == cs[..i]
  {
    assert (cs + [c])[..|cs|] == cs;
  }

  /** Appending a chunk whose value lies above everything so far. */
  lemma {:induction false} AppendHigh(cs: seq<Chunk>, c: Chunk, total: nat, x: nat, k: nat)
    requires ValidChunks(cs) && ValidChunk(c) && Value(c) == x * Pow2(k)
    requires SumValues(cs) == total < Pow2(k)
    requires forall i :: 0 <= i <= |cs| ==> OrValues(cs[..i]) == SumValues(cs[..i]) < Pow2(k)
    ensures ValidChunks(cs + [c])
    ensures OrValues(cs + [c]) == SumValues(cs + [c]) == total + x * Pow2(k)
    ensures forall i :: 0 <= i <= |cs| ==>
      OrValues((cs + [c])[..i]) == SumValues((cs + [c])[..i]) < Pow2(k)
  {
    hide Value, OrValues, SumValues;
    Snoc(cs, c);
    assert cs[..|cs|] == cs;
    OrAbove(total, x, k);
  }

  lemma Mod4(x: nat)
    ensures x % 0x100 % 4 == x % 4
  {}

  lemma ProgressStep(imm: Word, l: nat, p: nat, cs: seq<Chunk>, first: nat)
    requires p % 2 == 0 && l <= p < 24 && imm % Pow2(p) == imm % Pow2(l)
    requires Shr(imm, p) % 4 != 0
    requires Progress(imm, l, cs, first)
    ensures Progress(imm, p + 8, cs + [ChunkAt(imm, p)], if cs == [] then p else first)
  {
    hide Value, OrValues, SumValues, Or, Shr, Pow2;
    ChunkValue(imm, p);
    var c := ChunkAt(imm, p);
    PrefixesStay(cs, l, p);
    AppendHigh(cs, c, imm % Pow2(p), Shr(imm, p) % 0x100, p);
    assert SumValues(cs + [c]) == imm % Pow2(p + 8) < Pow2(p + 8) by { ByteSplit(imm, p); }
    PrefixesBelow(cs, c, p);
    Mod4(Shr(imm, p));
  }

  lemma PrefixesStay(cs: seq<Chunk>, l: nat, p: nat)
    requires l <= p && ValidChunks(cs)
    requires forall i :: 0 <= i <= |cs| ==> OrValues(cs[..i]) == SumValues(cs[..i]) < Pow2(l)
    ensures forall i :: 0 <= i <= |cs| ==> OrValues(cs[..i]) == SumValues(cs[..i]) < Pow2(p)
  {
    hide OrValues, SumValues, Pow2;
    Pow2Monotone(l, p);
  }

  /** Every prefix stays below the next power, the whole by hypothesis and the others a fortiori. */
  lemma PrefixesBelow(cs: seq<Chunk>, c: Chunk, p: nat)
    requires ValidChunks(cs + [c]) && OrValues(cs + [c]) == SumValues(cs + [c]) < Pow2(p + 8)
    requires forall i :: 0 <= i <= |cs| ==> OrValues((cs + [c])[..i]) == SumValues((cs + [c])[..i]) < Pow2(p)
    ensures forall i :: 0 <= i <= |cs + [c]| ==> OrValues((cs + [c])[..i]) == SumValues((cs + [c])[..i]) < Pow2(p + 8)
  {
    hide OrValues, SumValues, Pow2;
    Pow2Monotone(p, p + 8);
    var cs' := cs + [c];
    assert cs'[..|cs'|] == cs';
  }

  /** Adding bits above all chunks to the first one adds them to the whole. */
  lemma {:induction false} MergeFirst(cs: seq<Chunk>, c: Chunk, t: nat, p: nat)
    requires cs != [] && ValidChunks(cs) && ValidChunk(c)
    requires forall i :: 0 <= i <= |cs| ==> OrValues(cs[..i]) == SumValues(cs[..i]) < Pow2(p)
    requires Value(c) == Value(cs[0]) + t * Pow2(p)
    ensures ValidChunks(cs[0 := c])
    ensures OrValues(cs[0 := c]) == SumValues(cs[0 := c]) == SumValues(cs) + t * Pow2(p)
  {
    hide Value, OrValues, SumValues, Or, Pow2;
    var init, last := cs[..|cs| - 1], cs[|cs| - 1];
    assert cs == init + [last];
    assert cs[..|cs|] == cs;
    Snoc(init, last);
    if |cs| == 1 {
      assert init == [];
      assert cs[0 := c] == [] + [c];
      Snoc([], c);
      EmptyValues();
      OrZero(Value(c));
      OrZero(Value(last));
    } else {
      forall i | 0 <= i <= |init| ensures OrValues(init[..i]) == SumValues(init[..i]) < Pow2(p) {
        assert init[..i] == cs[..i];
      }
      MergeFirst(init, c, t, p);
      assert cs[0 := c] == init[0 := c] + [last];
      Snoc(init[0 := c], last);
      assert init[..|init|] == init;
      OrBelow(SumValues(init), Value(last), t, p);
    }
  }

  lemma EmptyValues()
    ensures OrValues([]) == SumValues([]) == 0
  {}

  /** The first chunk ends low enough to make room for the bits tacked on below it. */
  lemma TackedShift(imm: Word, p: nat, first: nat, chunks: seq<Chunk>)
    requires 24 < p < 32 && p % 2 == 0 && first < 24 && first % 2 == 0
    requires chunks != [] && chunks[0] == ChunkAt(imm, first) && chunks[0].store != 0
    requires WrapsAround(p, chunks)
    ensures first + 24 < p
    ensures Value(chunks[0]) == chunks[0].store * Pow2(first) <= Pow2(p - 24) - 2
    ensures (32 - p + (32 - chunks[0].rot)) % 32 == 32 - p + first
  {
    hide Pow2, Ror, Shr, Or, Value;
    var c := chunks[0];
    ChunkValue(imm, first);
    RotationBack(first, p);
    var v := c.store * Pow2(first);
    assert Shl(c.store, first) == v by { Fits(v); }
    MulGrows(c.store, Pow2(first));
    if first >= p - 24 { Pow2Monotone(p - 24, first); }
  }

  lemma RotationBack(first: nat, p: nat)
    requires first < 24 < p < 32
    ensures (32 - (32 - first) % 32) % 32 == first
    ensures first + 24 < p ==> (32 - p + (32 - (32 - first) % 32)) % 32 == 32 - p + first
  {}

  lemma Fits(v: int)
    requires 0 <= v < TWO32
    ensures ToWord(v) == v
  {}

  lemma TackedFits(store: Word, first: nat, v: nat, t: nat, p: nat)
    requires 24 < p < 32 && first + 24 < p
    requires v == store * Pow2(first) <= Pow2(p - 24) - 2
    requires t < Pow2(32 - p)
    ensures v * Pow2(32 - p) + t < 0x100
    ensures store * Pow2(32 - p + first) == v * Pow2(32 - p)
  {
    hide Pow2;
    var n := 32 - p;
    var w := Pow2(n);
    Pow2Sum(first, n);
    assert store * Pow2(first + n) == v * w by { MulAssoc(store, Pow2(first), w); }
    assert Pow2(p - 24) * w == 0x100 by { Pow2Sum(p - 24, n); SmallPowers(); }
    MulMonotone(v, Pow2(p - 24) - 2, w);
    MulDistributes(Pow2(p - 24), -2, w);
  }

  lemma RotatedPair(v: nat, t: nat, p: nat)
    requires 24 < p < 32 && t < Pow2(32 - p) && v * Pow2(32 - p) + t < 0x100
    ensures Ror(v * Pow2(32 - p) + t, 32 - p) == v + t * Pow2(p)
  {
    hide Pow2, Ror;
    var n := 32 - p;
    assert 32 - n == p;
    RotateValue(v * Pow2(n) + t, n);
    DivUnique(v * Pow2(n) + t, Pow2(n), v, t);
  }

  /** Tacking the top bits on gives a chunk that stands for both parts. */
  lemma TackedValue(imm: Word, p: nat, first: nat, cs: seq<Chunk>)
    requires 24 < p < 32 && p % 2 == 0 && first < 24 && first % 2 == 0
    requires cs != [] && cs[0] == ChunkAt(imm, first) && cs[0].store != 0
    requires WrapsAround(p, cs)
    ensures ValidChunk(cs[0]) && ValidChunk(Tacked(imm, p, cs[0]))
    ensures Value(Tacked(imm, p, cs[0])) == Value(cs[0]) + Shr(imm, p) * Pow2(p)
  {
    hide *;
    var c, t := cs[0], Shr(imm, p);
    assert ValidChunk(c) && c.store < 0x100 && c.rot < 32 && c.rot % 2 == 0 by { ChunkFits(imm, first); }
    var v := Value(c);
    TackedShift(imm, p, first, cs);
    HighByte(imm, p);
    TackedFits(c.store, first, v, t, p);
    TackedStore(imm, p, first, c, v);
    RotatedPair(v, t, p);
    ValueIsRor(c);
    ValueIsRor(Tacked(imm, p, c));
  }

  lemma ChunkFits(imm: Word, p: nat)
    requires p < 32 && p % 2 == 0
    ensures var c := ChunkAt(imm, p); ValidChunk(c) && c.store < 0x100 && c.rot < 32 && c.rot % 2 == 0
  {
    hide Shr;
  }

  lemma ValueIsRor(c: Chunk)
    requires c.store < 0x100 && c.rot < 32 && c.rot % 2 == 0
    ensures ValidChunk(c) && Value(c) == Ror(c.store, c.rot)
  {}

  lemma TackedStore(imm: Word, p: nat, first: nat, c: Chunk, v: nat)
    requires 24 < p < 32 && c.rot < 32
    requires (32 - p + (32 - c.rot)) % 32 == 32 - p + first
    requires Shr(imm, p) < 0x100 && Shr(imm, p) < Pow2(32 - p)
    requires c.store * Pow2(32 - p + first) == v * Pow2(32 - p)
    requires v * Pow2(32 - p) + Shr(imm, p) < 0x100
    ensures Tacked(imm, p, c) == Chunk(v * Pow2(32 - p) + Shr(imm, p), 32 - p)
  {
    hide Pow2, Or, Shr;
    var t, n := Shr(imm, p), 32 - p;
    Fits(v * Pow2(n));
    OrAbove(t, v, n);
    OrCommutes(v * Pow2(n), t);
  }

  lemma WrapExact(imm: Word, l: nat, p: nat, cs: seq<Chunk>, first: nat)
    requires 24 <= p < 32 && p % 2 == 0 && first % 2 == 0 && l <= p && imm % Pow2(p) == imm % Pow2(l)
    requires Progress(imm, l, cs, first) && WrapsAround(p, cs)
    ensures Exact(imm, cs[0 := Tacked(imm, p, cs[0])])
  {
    hide Value, OrValues, SumValues, Or, Pow2, Ror, Shr, Tacked, ChunkAt;
    assert p > 24;
    TackedValue(imm, p, first, cs);
    Pow2Monotone(l, p);
    MergeFirst(cs, Tacked(imm, p, cs[0]), Shr(imm, p), p);
    Recombine(imm, p);
  }

  lemma Recombine(imm: Word, p: nat)
    ensures imm % Pow2(p) + Shr(imm, p) * Pow2(p) == imm
  {}

  /** What the emitter needs of the chunks: few, encodable, and together exactly the constant. */
  predicate Exact(imm: Word, cs: seq<Chunk>) {
    && 1 <= |cs| <= 4
    && ValidChunks(cs)
    && OrValues(cs) == SumValues(cs) == imm
  }

  lemma LastExact(imm: Word, l: nat, p: nat, cs: seq<Chunk>, first: nat)
    requires 24 <= p < 32 && p % 2 == 0 && first % 2 == 0 && l <= p && imm % Pow2(p) == imm % Pow2(l)
    requires Progress(imm, l, cs, first)
    ensures Exact(imm, LastChunk(imm, p, cs))
  {
    hide Value, OrValues, SumValues, Or, Pow2, Ror, Shr, Tacked, ChunkAt, WrapsAround;
    if WrapsAround(p, cs) {
      WrapExact(imm, l, p, cs, first);
    } else {
      ChunkValue(imm, p);
      HighByte(imm, p);
      Pow2Monotone(l, p);
      AppendHigh(cs, ChunkAt(imm, p), imm % Pow2(p), Shr(imm, p), p);
      Recombine(imm, p);
    }
  }

  lemma {:induction false} ScanFinds(imm: Word, l: nat)
    requires l <= 32 && l % 2 == 0
    ensures NextPair(imm, l) < 32 ==> Shr(imm, NextPair(imm, l)) % 4 != 0
    decreases 32 - l
  {
    if l != 32 && Shr(imm, l) % 4 == 0 { ScanFinds(imm, l + 2); }
  }

  lemma {:induction false} DisectFromExact(imm: Word, l: nat, cs: seq<Chunk>, first: nat)
    requires imm != 0 && l <= 32 && l % 2 == 0 && first % 2 == 0
    requires Progress(imm, l, cs, first)
    ensures Exact(imm, DisectFrom(imm, NextPair(imm, l), cs))
    decreases 32 - l
  {
    hide OrValues, SumValues, Pow2, Shr, NextPair, LastChunk, ChunkAt;
    var p := NextPair(imm, l);
    ScanSkipsZeros(imm, l);
    ScanFinds(imm, l);
    if p == 32 {
      DisectLast(imm, p, cs);
      Pow2OfWord(p);
      assert cs[..|cs|] == cs;
      if cs == [] { EmptyValues(); }
    } else if p >= 24 {
      DisectLast(imm, p, cs);
      LastExact(imm, l, p, cs, first);
    } else {
      DisectMore(imm, p, cs);
      ProgressStep(imm, l, p, cs, first);
      DisectFromExact(imm, p + 8, cs + [ChunkAt(imm, p)], if cs == [] then p else first);
    }
  }

  /** Every constant is split exactly, into at most four rotated bytes. */
  lemma DisectExact(imm: Word)
    ensures Exact(imm, Disect(imm))
  {
    hide *;
    EmptyValues();
    if imm == 0 {
      ZeroExact();
    } else {
      StartOfScan(imm);
      DisectFromExact(imm, 0, [], 0);
      DisectNonzero(imm);
    }
  }

  lemma ZeroExact()
    ensures Exact(0, Disect(0))
  {
    hide OrValues, SumValues, DisectFrom, Ror, Or;
    RotateZero(0);
    EmptyValues();
    Snoc([], Chunk(0, 0));
    OrZero(0);
    assert [] + [Chunk(0, 0)] == [Chunk(0, 0)];
  }

  lemma StartOfScan(imm: Word)
    ensures Progress(imm, 0, [], 0)
  {
    EmptyValues();
    assert Pow2(0) == 1;
  }

  lemma DisectNonzero(imm: Word)
    requires imm != 0
    ensures Disect(imm) == DisectFrom(imm, NextPair(imm, 0), [])
  {
    hide DisectFrom, NextPair;
  }
}
