/**
 Branches inside translated code: the 24-bit displacement and its two decoders, patching a branch after
 the fact, and the cycle accounting of a conditional block.
 */
module Branches {
  import opened Words
  import opened Flags
  import opened Shifter
  import opened InstructionWords
  import opened HostMachine
  import opened Constants
  import opened Emission

  /** `arm_relative_offset`. */
  function RelativeOffset(source: Word, target: Word): nat {
    ToWord(ToWord(target - source) - 8) / 4 % 0x100_0000
  }

  /** `generate_branch_patch_unconditional`: the word at `source` made to branch to `target`. */
  function Patched(word: Word, source: Word, target: Word): nat {
    Or(word / 0x100_0000 * 0x100_0000, RelativeOffset(source, target))
  }

  /** `arm_decode_branch`: the byte displacement in an opcode. */
  function DecodedOffset(opcode: Word): int {
    Signed(ToWord(opcode % 0x100_0000 * 0x100)) / 64
  }

  /** The interpreter's branch target: relative to the pc plus 8. */
  function InterpreterTarget(opcode: Word, pc: Word): Word { ToWord(pc + 8 + DecodedOffset(opcode)) }

  /** `SIGNEXTEND_24` of the disassembler. */
  function SignExtended(i: Word): nat {
    Or(i % 0x100_0000, (if Field(i, 0x80_0000, 2) == 1 then 0xFF else 0) * 0x100_0000)
  }

  /** The disassembler's branch target. */
  function DisassemblerTarget(i: Word, adr: Word): Word { ToWord(adr + ToWord(SignExtended(i) * 4) + 8) }

  /** Whether a branch word at `source` can reach `target`. */
  predicate Reaches(source: Word, target: Word) {
    -0x200_0000 <= Signed(ToWord(target - source - 8)) < 0x200_0000
  }

  lemma PatchedSum(word: Word, source: Word, target: Word)
    ensures Patched(word, source, target) == word / 0x100_0000 * 0x100_0000 + RelativeOffset(source, target) < TWO32
  {
    hide Or, RelativeOffset;
    var hi, rel := word / 0x100_0000, RelativeOffset(source, target);
    assert rel < 0x100_0000 by { RelativeFits(source, target); }
    OrField(rel, hi, 0x100_0000);
    OrCommutes(hi * 0x100_0000, rel);
  }

  lemma RelativeFits(source: Word, target: Word)
    ensures RelativeOffset(source, target) < 0x100_0000
  {}

  /** Both decoders read a 24-bit field as a signed number of words. */
  lemma DecodersAgree(i: Word, pc: Word)
    ensures DecodedOffset(i) == 4 * SignExtend24(i % 0x100_0000)
    ensures InterpreterTarget(i, pc) == DisassemblerTarget(i, pc) == ToWord(pc + 8 + 4 * SignExtend24(i % 0x100_0000))
  {
    hide SignExtend24, SignExtended;
    var x := i % 0x100_0000;
    SignOfField(x);
    SignExtendedField(i);
    SameTarget(pc, 4 * SignExtend24(x));
  }

  lemma SignExtendedField(i: Word)
    ensures SignExtended(i) < TWO32 && ToWord(SignExtended(i) * 4) == ToWord(4 * SignExtend24(i % 0x100_0000))
  {
    hide Or, Field;
    var x := i % 0x100_0000;
    var top := x / 0x80_0000;
    FieldAt(i, 0x80_0000, 2, x % 0x80_0000, top, i / 0x100_0000);
    OrField(x, if top == 1 then 0xFF else 0, 0x100_0000);
  }

  lemma SameTarget(pc: Word, d: int)
    ensures ToWord(pc + ToWord(d) + 8) == ToWord(pc + 8 + d)
  {}

  lemma SignOfField(x: nat)
    requires x < 0x100_0000
    ensures Signed(ToWord(x * 0x100)) == 0x100 * SignExtend24(x)
  {}

  /** The displacement survives truncation to 24 bits exactly when the target is within reach. */
  lemma RelativeReaches(source: Word, target: Word)
    requires source % 4 == 0 && target % 4 == 0
    ensures ToWord(source + 8 + 4 * SignExtend24(RelativeOffset(source, target))) == target
            <==> Reaches(source, target)
    ensures Reaches(source, target) ==>
      4 * SignExtend24(RelativeOffset(source, target)) == Signed(ToWord(target - source - 8))
  {
    hide SignExtend24;
    var d := ToWord(target - source - 8);
    DisplacementTwice(source, target);
    DisplacementAligned(source, target);
    Truncated(d);
    Congruent(source, d, 4 * SignExtend24(d / 4 % 0x100_0000));
    DisplacementBack(source, target);
  }

  lemma DisplacementTwice(source: Word, target: Word)
    ensures ToWord(ToWord(target - source) - 8) == ToWord(target - source - 8)
  {}

  lemma DisplacementBack(source: Word, target: Word)
    ensures ToWord(source + 8 + ToWord(target - source - 8)) == target
  {}

  lemma DisplacementAligned(source: Word, target: Word)
    requires source % 4 == 0 && target % 4 == 0
    ensures ToWord(target - source - 8) % 4 == 0
  {
    var d: int := target as int - source as int - 8;
    assert d == TWO32 * (d / TWO32) + d % TWO32;
  }

  /** Keeping 24 bits of a word displacement keeps its value exactly when it is in range. */
  lemma Truncated(d: Word)
    requires d % 4 == 0
    ensures 4 * SignExtend24(d / 4 % 0x100_0000) == Signed(d) <==> -0x200_0000 <= Signed(d) < 0x200_0000
    ensures -0x200_0000 <= 4 * SignExtend24(d / 4 % 0x100_0000) < 0x200_0000
  {}

  lemma Congruent(source: Word, d: Word, s: int)
    requires -0x200_0000 <= s < 0x200_0000
    ensures ToWord(source + 8 + s) == ToWord(source + 8 + d) <==> s == Signed(d)
  {}

  /**
   Patching keeps the condition and opcode byte, and both decoders recover exactly the target, if and
   only if the word-aligned target lies within reach: from 2^25 - 8 bytes back to 2^25 + 4 bytes ahead.
   */
  lemma PatchRoundTrip(word: Word, source: Word, target: Word)
    requires source % 4 == 0 && target % 4 == 0
    ensures Patched(word, source, target) < TWO32
    ensures Patched(word, source, target) / 0x100_0000 == word / 0x100_0000
    ensures InterpreterTarget(Patched(word, source, target), source) == target <==> Reaches(source, target)
    ensures DisassemblerTarget(Patched(word, source, target), source) == target <==> Reaches(source, target)
  {
    hide RelativeOffset, Patched, InterpreterTarget, DisassemblerTarget, Reaches;
    PatchedSum(word, source, target);
    RelativeFits(source, target);
    var w := Patched(word, source, target);
    DivUnique(w, 0x100_0000, word / 0x100_0000, RelativeOffset(source, target));
    DecodersAgree(w, source);
    RelativeReaches(source, target);
  }

  /** Any two words of a translation cache of at most 10 MiB reach each other. */
  lemma CacheReaches(cache: Word, source: Word, target: Word)
    requires cache + 10 * 1024 * 1024 <= TWO32
    requires cache <= source < cache + 10 * 1024 * 1024 && cache <= target < cache + 10 * 1024 * 1024
    ensures Reaches(source, target)
  {}

  // ---------------------------------------------------------------- conditional blocks

  /** The branch over a conditional block, before and after patching. */
  function FillerWord(cond: Cond): Word { ToWord(PackBranch(0, false, cond)) }

  function SkipWord(cond: Cond, source: Word, target: Word): Word {
    ToWord(Patched(FillerWord(cond), source, target))
  }

  /** The cycle correction for `n` skipped instructions. */
  function CorrectionWord(up: bool, n: nat): Word {
    ChunkWord(if up then ADD else SUB, CYCLES, CYCLES, Chunk(n % 256, 0))
  }

  /** The words between the branch and its target. */
  function Guarded(body: seq<Word>, cycles: nat, n: nat): seq<Word> {
    body + (CycleUpdateCode(cycles) + [CorrectionWord(false, n)])
  }

  /** A conditional block at `source`, as `arm_conditional_block_header` and the patch leave it. */
  function ConditionalCode(cond: Cond, body: seq<Word>, cycles: nat, n: nat, source: Word): seq<Word> {
    var guarded := Guarded(body, cycles, n);
    [SkipWord(FlipLowBit(cond), source, ToWord(source + 4 * (1 + |guarded|)))] + guarded + [CorrectionWord(true, n)]
  }

  lemma PackBranchSum(offset: nat, cond: Cond)
    requires offset < 0x100_0000
    ensures PackBranch(offset, false, cond) == offset + 0xA00_0000 + cond * 0x1000_0000
  {
    hide Or;
    OrField(offset, 0, 0x100_0000);
    OrField(offset, 5, 0x200_0000);
    OrField(offset + 0xA00_0000, cond, 0x1000_0000);
  }

  lemma SkipWordDecodes(cond: Cond, source: Word, target: Word)
    ensures Decode(SkipWord(cond, source, target)) == Decoded(cond, Branch(false, RelativeOffset(source, target)))
  {
    hide Or, Decode, RelativeOffset, Patched, PackBranch;
    RelativeFits(source, target);
    var x := RelativeOffset(source, target);
    PackBranchSum(0, cond);
    PackBranchSum(x, cond);
    PatchedSum(FillerWord(cond), source, target);
    assert Patched(FillerWord(cond), source, target) == PackBranch(x, false, cond);
    DecodePackBranch(x, false, cond);
  }

  /** A forward branch over `k` words, counting itself, skips exactly those. */
  lemma SkipDistance(source: Word, k: nat)
    requires source % 4 == 0 && 1 <= k < 0x80_0000
    ensures 2 + SignExtend24(RelativeOffset(source, ToWord(source + 4 * k))) == k
  {
    hide SignExtend24, RelativeOffset;
    var target := ToWord(source + 4 * k);
    assert target % 4 == 0;
    assert ToWord(target - source - 8) == ToWord(4 * k - 8) by { SkipDisplacement(source, k); }
    RelativeReaches(source, target);
  }

  lemma SkipDisplacement(source: Word, k: nat)
    ensures ToWord(ToWord(source + 4 * k) - source - 8) == ToWord(4 * k - 8)
  {}

  /** The first word of a conditional block: fall into the block, or land on its last word. */
  lemma FirstBranch(cond: Cond, skip: Word, guarded: seq<Word>, source: Word, after: seq<Word>, env: Env, h: Host)
    requires h.status == Running && source % 4 == 0 && 1 + |guarded| < 0x80_0000
    requires skip == SkipWord(cond, source, ToWord(source + 4 * (1 + |guarded|)))
    ensures Run([skip] + guarded + after, env, h)
         == if Holds(cond, h.flags) then Run(after, env, h) else Run(guarded + after, env, h)
  {
    hide Decode, SkipWord, RelativeOffset, SignExtend24, Run, Holds, ToWord;
    var k := 1 + |guarded|;
    var target := ToWord(source + 4 * k);
    SkipWordDecodes(cond, source, target);
    SkipDistance(source, k);
    RelativeFits(source, target);
    Slices(skip, guarded, after);
    RunBranch([skip] + guarded + after, cond, RelativeOffset(source, target), env, h);
  }

  lemma Slices(skip: Word, guarded: seq<Word>, after: seq<Word>)
    ensures var code := [skip] + guarded + after;
            code[0] == skip && code[1..] == guarded + after && code[1 + |guarded|..] == after
  {
    var code := [skip] + guarded + after;
    assert code == [skip] + (guarded + after);
    assert code == ([skip] + guarded) + after;
  }

  lemma CorrectionDoes(up: bool, n: nat, env: Env, h: Host)
    requires h.status == Running
    ensures Does([CorrectionWord(up, n)], env, h,
                 h.Set(CYCLES, ToWord(if up then h.regs[CYCLES] + n % 256 else h.regs[CYCLES] - n % 256)))
  {
    hide Does, ChunkWord, Ror;
    RotateZero(n % 256);
    DoesAdjust(up, CYCLES, CYCLES, Chunk(n % 256, 0), env, h);
  }

  /** Subtracting the skipped instructions cancels adding them. */
  lemma CorrectionsCancel(x: Word, n: nat)
    ensures ToWord(ToWord(x - n) + n) == x
  {}

  /**
   Cycle accounting of a conditional block: when the condition holds, the body runs and the cycle register
   gains exactly the block's cycles, modulo 65536; when it fails, exactly one cycle for each skipped
   instruction, modulo 256, and nothing else changes. The accounting words never touch the flags.
   */
  lemma ConditionalBlockCycles(cond: Cond, body: seq<Word>, cycles: nat, n: nat, source: Word,
                               env: Env, h: Host, h1: Host)
    requires h.status == Running && h1.status == Running && Does(body, env, h, h1)
    requires cond < AL && source % 4 == 0 && |body| < 0x40_0000
    ensures Does(ConditionalCode(cond, body, cycles, n, source), env, h,
                 if Holds(cond, h.flags) then h1.Set(CYCLES, ToWord(h1.regs[CYCLES] + cycles % 0x1_0000))
                 else h.Set(CYCLES, ToWord(h.regs[CYCLES] + n % 256)))
  {
    hide CorrectionWord, CycleUpdateCode, SkipWord, Run, ToWord, Holds;
    var code := ConditionalCode(cond, body, cycles, n, source);
    var h' := if Holds(cond, h.flags) then h1.Set(CYCLES, ToWord(h1.regs[CYCLES] + cycles % 0x1_0000))
              else h.Set(CYCLES, ToWord(h.regs[CYCLES] + n % 256));
    forall rest: seq<Word> ensures Run(code + rest, env, h) == Run(rest, env, h') {
      ConditionalRun(cond, body, cycles, n, source, rest, env, h, h1);
    }
  }

  lemma ConditionalRun(cond: Cond, body: seq<Word>, cycles: nat, n: nat, source: Word, rest: seq<Word>,
                       env: Env, h: Host, h1: Host)
    requires h.status == Running && h1.status == Running && Does(body, env, h, h1)
    requires cond < AL && source % 4 == 0 && |body| < 0x40_0000
    ensures Run(ConditionalCode(cond, body, cycles, n, source) + rest, env, h)
         == Run(rest, env, if Holds(cond, h.flags) then h1.Set(CYCLES, ToWord(h1.regs[CYCLES] + cycles % 0x1_0000))
                           else h.Set(CYCLES, ToWord(h.regs[CYCLES] + n % 256)))
  {
    hide CorrectionWord, CycleUpdateCode, SkipWord, Run, ToWord, Holds, Does, FlipLowBit;
    var guarded, last := Guarded(body, cycles, n), [CorrectionWord(true, n)];
    var skip := [SkipWord(FlipLowBit(cond), source, ToWord(source + 4 * (1 + |guarded|)))];
    CycleCodeShort(cycles);
    OppositeNegates(cond, h.flags);
    FirstBranch(FlipLowBit(cond), skip[0], guarded, source, last + rest, env, h);
    assert skip + guarded + last + rest == skip + guarded + (last + rest);
    if Holds(cond, h.flags) {
      GuardedDoes(body, cycles, n, env, h, h1);
      DoesBefore(guarded + last, rest, env, h, h1.Set(CYCLES, ToWord(h1.regs[CYCLES] + cycles % 0x1_0000)));
      assert guarded + (last + rest) == guarded + last + rest;
    } else {
      CorrectionDoes(true, n, env, h);
      DoesBefore(last, rest, env, h, h.Set(CYCLES, ToWord(h.regs[CYCLES] + n % 256)));
    }
  }

  lemma CycleCodeShort(cycles: nat)
    ensures |CycleUpdateCode(cycles)| <= 2
  {}

  lemma GuardedDoes(body: seq<Word>, cycles: nat, n: nat, env: Env, h: Host, h1: Host)
    requires h.status == Running && h1.status == Running && Does(body, env, h, h1)
    ensures Does(Guarded(body, cycles, n) + [CorrectionWord(true, n)], env, h,
                 h1.Set(CYCLES, ToWord(h1.regs[CYCLES] + cycles % 0x1_0000)))
  {
    hide Does, CorrectionWord, CycleUpdateCode, ToWord;
    var x := ToWord(h1.regs[CYCLES] + cycles % 0x1_0000);
    CycleUpdateExact(cycles, env, h1);
    var h2 := h1.Set(CYCLES, x);
    CorrectionDoes(false, n, env, h2);
    var h3 := h2.Set(CYCLES, ToWord(x - n % 256));
    CorrectionDoes(true, n, env, h3);
    CorrectionsCancel(x, n % 256);
    assert h3.Set(CYCLES, x) == h2;
    DoesThen(CycleUpdateCode(cycles), [CorrectionWord(false, n)], env, h1, h2, h3);
    DoesThen(body, CycleUpdateCode(cycles) + [CorrectionWord(false, n)], env, h, h1, h3);
    DoesThen(Guarded(body, cycles, n), [CorrectionWord(true, n)], env, h, h3, h2);
  }

  // ---------------------------------------------------------------- emission

  /** `arm_conditional_block_header`: the branch is emitted unpatched and its place remembered. */
  method ConditionalHeader(e: Emitter, condition: Cond) returns (flipped: Cond, backpatch: nat)
    modifies e
    ensures flipped == FlipLowBit(condition) && e.cycleCount == 0
    ensures backpatch == |old(e.code)| + |CycleUpdateCode(old(e.cycleCount))|
    ensures e.code == old(e.code) + CycleUpdateCode(old(e.cycleCount)) + [FillerWord(flipped)]
  {
    hide FillerWord, CycleUpdateCode, FlipLowBit;
    e.CycleUpdate();
    flipped := FlipLowBit(condition);
    backpatch := |e.code|;
    e.Write32(FillerWord(flipped));
  }

  /**
   `generate_branch_patch_conditional_arm`, for a block whose first guest instruction is at `condPc`, in a
   translation buffer that starts at address `buffer`.
   */
  method PatchConditional(e: Emitter, buffer: Word, backpatch: nat, condition: Cond, condPc: Word, pc: Word,
                          ghost body: seq<Word>)
    requires backpatch < |e.code|
    requires e.code == e.code[..backpatch] + [FillerWord(FlipLowBit(condition))] + body
    modifies e
    ensures e.code == old(e.code)[..backpatch]
      + ConditionalCode(condition, body, old(e.cycleCount), ToWord(pc - condPc) / 4 % 256, ToWord(buffer + 4 * backpatch))
    ensures e.cycleCount == 0
  {
    hide FillerWord, CycleUpdateCode, CorrectionWord, FlipLowBit, Patched;
    ghost var prefix := e.code[..backpatch];
    var n := ToWord(pc - condPc) / 4 % 256;
    ghost var guarded := Guarded(body, e.cycleCount, n);
    ghost var filler := FillerWord(FlipLowBit(condition));
    e.CycleUpdate();
    e.Write32(CorrectionWord(false, n));
    assert e.code == prefix + [filler] + guarded;
    var source, target := ToWord(buffer + 4 * backpatch), ToWord(buffer + 4 * |e.code|);
    assert target == ToWord(source + 4 * (1 + |guarded|)) by { AddressInBuffer(buffer, backpatch, 1 + |guarded|); }
    var patched := ToWord(Patched(e.code[backpatch], source, target));
    e.code := e.code[backpatch := patched];
    assert e.code == prefix + [SkipWord(FlipLowBit(condition), source, target)] + guarded;
    e.Write32(CorrectionWord(true, n));
  }

  lemma AddressInBuffer(buffer: Word, i: nat, j: nat)
    ensures ToWord(ToWord(buffer + 4 * i) + 4 * j) == ToWord(buffer + 4 * (i + j))
  {}
}
