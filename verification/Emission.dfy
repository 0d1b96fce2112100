/** The emitter's output, and the words it writes to load or add a constant. */
module Emission {
  import opened Words
  import opened Flags
  import opened Shifter
  import opened InstructionWords
  import opened HostMachine
  import opened Constants

  /** The translation buffer up to `translation_ptr`, and the cycles not yet accounted for. */
  class Emitter {
    var code: seq<Word>
    var cycleCount: nat

    constructor ()
      ensures code == [] && cycleCount == 0
    {
      code := [];
      cycleCount := 0;
    }

    /** `write32`. */
    method Write32(value: Word)
      modifies this`code
      ensures code == old(code) + [value]
    {
      code := code + [value];
    }

    /** `arm_load_imm_32bit`. */
    method LoadImm32(ireg: Reg, imm: Word)
      modifies this`code
      ensures code == old(code) + LoadConstant(ireg, imm)
    {
      hide Disect, DataProcWord, Chunks, Exact;
      var stores := new Word[4];
      var rotations := new Word[4];
      var storeCount := DisectImm32(imm, stores, rotations);
      ghost var cs := Disect(imm);
      ghost var before := code;
      ChunksAt(stores[..], rotations[..], storeCount);
      assert forall i :: 0 <= i < storeCount ==> cs[i] == Chunk(stores[i], rotations[i]);
      Write32(DataProcWord(MOV, false, ireg, 0, Immediate(stores[0], rotations[0] / 2)));
      for i := 1 to storeCount
        invariant code == before + LoadCode(ireg, cs, i)
        invariant forall j :: 0 <= j < storeCount ==> cs[j] == Chunk(stores[j], rotations[j])
      {
        Write32(DataProcWord(ORR, false, ireg, ireg, Immediate(stores[i], rotations[i] / 2)));
      }
    }

    /** `generate_cycle_update`. */
    method CycleUpdate()
      modifies this
      ensures code == old(code) + CycleUpdateCode(old(cycleCount)) && cycleCount == 0
    {
      hide DataProcWord;
      if cycleCount != 0 {
        if cycleCount / 256 != 0 {
          Write32(DataProcWord(ADD, false, CYCLES, CYCLES, Immediate(cycleCount / 256 % 256, (32 - 8) / 2)));
        }
        Write32(DataProcWord(ADD, false, CYCLES, CYCLES, Immediate(cycleCount % 256, 0)));
        cycleCount := 0;
      }
    }

    /** `arm_access_memory_adjust_imm`, with ADD for `up` and SUB otherwise. */
    method AdjustImm(up: bool, ireg: Reg, rn: Reg, offset: Word)
      modifies this`code
      ensures code == old(code) + AdjustCode(up, ireg, rn, offset)
    {
      hide Disect, DataProcWord, Chunks, Exact;
      var stores := new Word[4];
      var rotations := new Word[4];
      var storeCount := DisectImm32(offset, stores, rotations);
      ghost var cs := Disect(offset);
      ChunksAt(stores[..], rotations[..], storeCount);
      assert forall i :: 0 <= i < storeCount ==> cs[i] == Chunk(stores[i], rotations[i]);
      var op := if up then ADD else SUB;
      if storeCount > 1 {
        Write32(DataProcWord(op, false, ireg, rn, Immediate(stores[0], rotations[0] / 2)));
        Write32(DataProcWord(op, false, ireg, ireg, Immediate(stores[1], rotations[1] / 2)));
      } else {
        Write32(DataProcWord(op, false, ireg, rn, Immediate(stores[0], rotations[0] / 2)));
      }
    }
  }

  /** `generate_cycle_update`: the pending cycles are added to the cycle register. */
  function CycleUpdateCode(cycles: nat): seq<Word> {
    if cycles == 0 then []
    else
      (if cycles / 256 != 0 then [ChunkWord(ADD, CYCLES, CYCLES, Chunk(cycles / 256 % 256, 24))] else [])
        + [ChunkWord(ADD, CYCLES, CYCLES, Chunk(cycles % 256, 0))]
  }

  /** An immediate instruction for one chunk; the packing macros halve the rotation. */
  function ChunkWord(op: Opcode, rd: Reg, rn: Reg, c: Chunk): Word {
    DataProcWord(op, false, rd, rn, Immediate(c.store, c.rot / 2))
  }

  function LoadCode(ireg: Reg, cs: seq<Chunk>, n: nat): seq<Word>
    requires 1 <= n <= |cs|
  {
    if n == 1 then [ChunkWord(MOV, ireg, 0, cs[0])]
    else LoadCode(ireg, cs, n - 1) + [ChunkWord(ORR, ireg, ireg, cs[n - 1])]
  }

  function LoadConstant(ireg: Reg, imm: Word): seq<Word> {
    DisectExact(imm);
    LoadCode(ireg, Disect(imm), |Disect(imm)|)
  }

  function AdjustCode(up: bool, ireg: Reg, rn: Reg, offset: Word): seq<Word> {
    DisectExact(offset);
    var cs := Disect(offset);
    var op := if up then ADD else SUB;
    [ChunkWord(op, ireg, rn, cs[0])] + if |cs| > 1 then [ChunkWord(op, ireg, ireg, cs[1])] else []
  }

  // ---------------------------------------------------------------- what the words do

  lemma DoesChunk(op: Opcode, rd: Reg, rn: Reg, c: Chunk, env: Env, h: Host)
    requires ValidChunk(c) && !IsTest(op) && h.status == Running
    ensures Does([ChunkWord(op, rd, rn, c)], env, h, h.Set(rd, Alu(op, h.regs[rn], Value(c), h.flags.c, h.flags).value))
  {
    hide Does, Ror, Alu, DataProcWord;
    var o := Immediate(c.store, c.rot / 2);
    DoesDataProc(op, false, rd, rn, o, env, h);
    assert OperandValue(o, h).value == Value(c);
    CarryDoesNotMatter(op, h.regs[rn], Value(c), OperandValue(o, h).carry, h.flags.c, h.flags);
  }

  lemma CarryDoesNotMatter(op: Opcode, a: Word, b: Word, c1: bool, c2: bool, f: Nzcv)
    ensures Alu(op, a, b, c1, f).value == Alu(op, a, b, c2, f).value
  {
    hide Words.And, Words.Or, Words.Xor;
  }

  lemma {:induction false} OrValuesFit(cs: seq<Chunk>)
    requires ValidChunks(cs)
    ensures OrValues(cs) < TWO32
  {
    hide Value, Words.Or, Pow2;
    if cs != [] {
      OrValuesFit(cs[..|cs| - 1]);
      var k := 32;
      Pow2OfWord(k);
      OrBelow(OrValues(cs[..|cs| - 1]), Value(cs[|cs| - 1]), 0, k);
    }
  }

  lemma {:induction false} LoadsPrefix(ireg: Reg, cs: seq<Chunk>, n: nat, env: Env, h: Host)
    requires 1 <= n <= |cs| && ValidChunks(cs) && h.status == Running
    ensures OrValues(cs[..n]) < TWO32
    ensures Does(LoadCode(ireg, cs, n), env, h, h.Set(ireg, OrValues(cs[..n])))
  {
    hide Does, Value, Words.Or, ChunkWord;
    OrValuesFit(cs[..n]);
    assert cs[..n][..n - 1] == cs[..n - 1];
    if n == 1 {
      DoesChunk(MOV, ireg, 0, cs[0], env, h);
      assert OrValues(cs[..0]) == 0;
      OrZero(Value(cs[0]));
    } else {
      LoadsPrefix(ireg, cs, n - 1, env, h);
      var h1 := h.Set(ireg, OrValues(cs[..n - 1]));
      DoesChunk(ORR, ireg, ireg, cs[n - 1], env, h1);
      var h2 := h1.Set(ireg, OrValues(cs[..n]));
      assert h2.regs == h.Set(ireg, OrValues(cs[..n])).regs;
      DoesThen(LoadCode(ireg, cs, n - 1), [ChunkWord(ORR, ireg, ireg, cs[n - 1])], env, h, h1, h2);
    }
  }

  /** Running the words that load a constant leaves exactly that constant, and nothing else changed. */
  lemma LoadConstantExact(ireg: Reg, imm: Word, env: Env, h: Host)
    requires h.status == Running
    ensures Does(LoadConstant(ireg, imm), env, h, h.Set(ireg, imm))
    ensures 1 <= |LoadConstant(ireg, imm)| <= 4
  {
    hide Does, Disect, OrValues, SumValues;
    DisectExact(imm);
    var cs := Disect(imm);
    assert cs[..|cs|] == cs;
    LoadsPrefix(ireg, cs, |cs|, env, h);
    LoadCodeLength(ireg, cs, |cs|);
  }

  lemma LoadCodeLength(ireg: Reg, cs: seq<Chunk>, n: nat)
    requires 1 <= n <= |cs|
    ensures |LoadCode(ireg, cs, n)| == n
  {}

  // ---------------------------------------------------------------- offsets

  lemma ScanOfSmall(imm: Word, l: nat)
    requires imm <= 0xFFF && l <= 32 && l % 2 == 0
    ensures NextPair(imm, l) < 12 || NextPair(imm, l) == 32
  {
    var p := NextPair(imm, l);
    ScanFinds(imm, l);
    if 12 <= p < 32 {
      SmallPowers();
      Pow2Monotone(12, p);
      hide Pow2;
      DivUnique(imm, Pow2(p), 0, imm);
    }
  }

  /** A 12-bit offset needs at most two chunks. */
  lemma OffsetChunks(offset: Word)
    requires offset <= 0xFFF
    ensures |Disect(offset)| <= 2
  {
    hide DisectFrom, NextPair, ChunkAt;
    if offset != 0 {
      DisectNonzero(offset);
      ScanOfSmall(offset, 0);
      var p0 := NextPair(offset, 0);
      OffsetFrom(offset, p0, []);
      if p0 < 12 {
        ScanOfSmall(offset, p0 + 8);
        var p1 := NextPair(offset, p0 + 8);
        assert [] + [ChunkAt(offset, p0)] == [ChunkAt(offset, p0)];
        OffsetFrom(offset, p1, [ChunkAt(offset, p0)]);
        if p1 < 12 {
          ScanOfSmall(offset, p1 + 8);
          OffsetFrom(offset, NextPair(offset, p1 + 8), [ChunkAt(offset, p0)] + [ChunkAt(offset, p1)]);
        }
      }
    }
  }

  lemma OffsetFrom(imm: Word, p: nat, chunks: seq<Chunk>)
    requires (p < 12 || p == 32) && p % 2 == 0
    ensures DisectFrom(imm, p, chunks)
         == if p == 32 then chunks else DisectFrom(imm, NextPair(imm, p + 8), chunks + [ChunkAt(imm, p)])
  {
    hide DisectFrom;
    if p == 32 { DisectLast(imm, p, chunks); } else { DisectMore(imm, p, chunks); }
  }

  lemma SumOfTwo(cs: seq<Chunk>)
    requires 1 <= |cs| <= 2 && ValidChunks(cs)
    ensures SumValues(cs) == Value(cs[0]) + if |cs| == 2 then Value(cs[1]) else 0
  {
    hide Value;
    assert SumValues(cs[..|cs| - 1][..0]) == 0;
    if |cs| == 2 {
      assert cs[..1] == [cs[0]];
      assert SumValues(cs[..1]) == SumValues(cs[..1][..0]) + Value(cs[0]);
      assert SumValues(cs[..1][..0]) == 0;
    }
  }

  lemma AddOrSubtract(up: bool, a: Word, b: Word, c: bool, f: Nzcv)
    ensures Alu(if up then ADD else SUB, a, b, c, f).value == ToWord(if up then a + b else a - b)
  {}

  /** One chunk added to or subtracted from a register. */
  lemma DoesAdjust(up: bool, rd: Reg, rn: Reg, c: Chunk, env: Env, h: Host)
    requires ValidChunk(c) && h.status == Running
    ensures Does([ChunkWord(if up then ADD else SUB, rd, rn, c)], env, h,
                 h.Set(rd, ToWord(if up then h.regs[rn] + Value(c) else h.regs[rn] - Value(c))))
  {
    hide Does, Value, ChunkWord, Alu;
    DoesChunk(if up then ADD else SUB, rd, rn, c, env, h);
    AddOrSubtract(up, h.regs[rn], Value(c), h.flags.c, h.flags);
  }

  lemma TwoSteps(up: bool, x: Word, a: Word, b: Word)
    ensures ToWord(if up then ToWord(if up then x + a else x - a) + b else ToWord(if up then x + a else x - a) - b)
         == ToWord(if up then x + (a + b) else x - (a + b))
  {}

  lemma AdjustTwice(up: bool, ireg: Reg, rn: Reg, c: Chunk, d: Chunk, env: Env, h: Host)
    requires ValidChunk(c) && ValidChunk(d) && h.status == Running
    ensures var op, sum := if up then ADD else SUB, Value(c) + Value(d);
      Does([ChunkWord(op, ireg, rn, c)] + [ChunkWord(op, ireg, ireg, d)], env, h,
           h.Set(ireg, ToWord(if up then h.regs[rn] + sum else h.regs[rn] - sum)))
  {
    hide Does, Value, ChunkWord, ToWord;
    var op, x, sum := if up then ADD else SUB, h.regs[rn], Value(c) + Value(d);
    DoesAdjust(up, ireg, rn, c, env, h);
    var h1 := h.Set(ireg, ToWord(if up then x + Value(c) else x - Value(c)));
    DoesAdjust(up, ireg, ireg, d, env, h1);
    TwoSteps(up, x, Value(c), Value(d));
    var h2 := h.Set(ireg, ToWord(if up then x + sum else x - sum));
    assert h2.regs == h1.regs[ireg := h2.regs[ireg]];
    DoesThen([ChunkWord(op, ireg, rn, c)], [ChunkWord(op, ireg, ireg, d)], env, h, h1, h2);
  }

  /** For every 12-bit offset the emitted ADD or SUB words compute the address exactly. */
  lemma AdjustExact(up: bool, ireg: Reg, rn: Reg, offset: Word, env: Env, h: Host)
    requires offset <= 0xFFF && h.status == Running
    ensures Does(AdjustCode(up, ireg, rn, offset), env, h,
                 h.Set(ireg, ToWord(if up then h.regs[rn] + offset else h.regs[rn] - offset)))
  {
    hide Does, Disect, OrValues, SumValues, Value, ChunkWord, Alu;
    DisectExact(offset);
    OffsetChunks(offset);
    var cs := Disect(offset);
    SumOfTwo(cs);
    var op := if up then ADD else SUB;
    var x := h.regs[rn];
    DoesAdjust(up, ireg, rn, cs[0], env, h);
    if |cs| > 1 {
      AdjustTwice(up, ireg, rn, cs[0], cs[1], env, h);
    } else {
      assert [ChunkWord(op, ireg, rn, cs[0])] + [] == [ChunkWord(op, ireg, rn, cs[0])];
    }
  }

  // ---------------------------------------------------------------- cycles

  lemma CycleChunks(cycles: nat)
    ensures Value(Chunk(cycles % 256, 0)) == cycles % 256
    ensures Value(Chunk(cycles / 256 % 256, 24)) == cycles / 256 % 256 * 256
    ensures cycles / 256 % 256 * 256 + cycles % 256 == cycles % 0x1_0000
    ensures cycles / 256 == 0 ==> cycles % 256 == cycles % 0x1_0000
  {
    hide Ror, Pow2;
    RotateZero(cycles % 256);
    SmallPowers();
    RotatedHigh(cycles / 256 % 256, 8);
    ModSplit(cycles, 256, 256);
  }

  /** The cycle register gains exactly the pending cycles, modulo 65536, and the flags are untouched. */
  lemma CycleUpdateExact(cycles: nat, env: Env, h: Host)
    requires h.status == Running
    ensures Does(CycleUpdateCode(cycles), env, h, h.Set(CYCLES, ToWord(h.regs[CYCLES] + cycles % 0x1_0000)))
  {
    hide Does, Value, ChunkWord;
    CycleChunks(cycles);
    var x := h.regs[CYCLES];
    var h2 := h.Set(CYCLES, ToWord(x + cycles % 0x1_0000));
    var c1, c0 := Chunk(cycles / 256 % 256, 24), Chunk(cycles % 256, 0);
    if cycles == 0 {
      DoesNothing(env, h);
      assert h2.regs == h.regs;
    } else if cycles / 256 != 0 {
      DoesAdjust(true, CYCLES, CYCLES, c1, env, h);
      TwoSteps(true, x, Value(c1), Value(c0));
      var h1 := h.Set(CYCLES, ToWord(x + Value(c1)));
      DoesAdjust(true, CYCLES, CYCLES, c0, env, h1);
      assert h1.regs[CYCLES := h2.regs[CYCLES]] == h2.regs;
      DoesThen([ChunkWord(ADD, CYCLES, CYCLES, c1)], [ChunkWord(ADD, CYCLES, CYCLES, c0)], env, h, h1, h2);
    } else {
      DoesAdjust(true, CYCLES, CYCLES, c0, env, h);
      assert [] + [ChunkWord(ADD, CYCLES, CYCLES, c0)] == [ChunkWord(ADD, CYCLES, CYCLES, c0)];
    }
  }
}
