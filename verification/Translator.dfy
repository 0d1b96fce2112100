/**
 The translator's loop over a conditional block: guest opcodes decoded and translated one after the other,
 with the cycles they take, between the block's header and its patch.
 */
module Translator {
  import opened Words
  import opened Flags
  import opened InstructionWords
  import opened HostMachine
  import opened Emission
  import opened Translation
  import opened Branches
  import opened Blocks
  import BlockEmitter

  datatype Fetched = Fetched(instr: GuestInstr) | Outside

  /** The address mode of an LDM or STM opcode: P, before or after, and U, up or down. */
  function ModeOf(before: bool, up: bool): BlockTransfer.Mode {
    if up then (if before then BlockTransfer.UpPre else BlockTransfer.Up)
    else if before then BlockTransfer.DownB else BlockTransfer.DownA
  }

  /** A guest opcode as the translator's dispatch takes it apart; LDM and STM with the S bit are outside. */
  function Fetch(opcode: Word): Fetched {
    var i := DecodeInstr(opcode);
    if i.DataProc? then Fetched(Operate(i.op, i.s, i.rd, i.rn, i.operand))
    else if Field(opcode, 0x200_0000, 8) == 4 && Field(opcode, 0x40_0000, 2) == 0 then
      Fetched(Multiple(Field(opcode, 0x10_0000, 2) == 1,
                       ModeOf(Field(opcode, 0x100_0000, 2) == 1, Field(opcode, 0x80_0000, 2) == 1),
                       Field(opcode, 0x20_0000, 2) == 1, Field(opcode, 0x1_0000, 16), opcode % 0x1_0000))
    else Outside
  }

  /** Opcodes the block goes on after. */
  predicate GoesOn(opcodes: seq<Word>) {
    forall k | 0 <= k < |opcodes| :: Fetch(opcodes[k]).Fetched? && Fetch(opcodes[k]).instr.GoesOn()
  }

  function FetchAll(opcodes: seq<Word>): (gs: seq<GuestInstr>)
    requires GoesOn(opcodes)
    ensures |gs| == |opcodes| && AllGoOn(gs)
    ensures forall k | 0 <= k < |gs| :: gs[k] == Fetch(opcodes[k]).instr
  {
    seq(|opcodes|, k requires 0 <= k < |opcodes| => Fetch(opcodes[k]).instr)
  }

  /** One instruction translated, and its cycles added to those pending. */
  method TranslateInstr(e: Emitter, t: Table, opcode: Word, pc: Word, condition: Cond, env: Env)
    requires Fetch(opcode).Fetched? && Fetch(opcode).instr.GoesOn()
    modifies e
    ensures e.code == old(e.code) + InstrWords(t, Fetch(opcode).instr, pc, env)
    ensures e.cycleCount == old(e.cycleCount) + Cost(Fetch(opcode).instr)
  {
    hide Field, DataProcCode, BlockTransfer.BlockCode, DecodeInstr;
    var execCyc := 0;
    var i := Fetch(opcode).instr;
    match i {
      case Operate(op, s, rd, rn, operand) =>
        if operand.Immediate? {
          execCyc := GenerateOpImm(e, t, opcode, pc, condition, 0);
        } else {
          execCyc := GenerateOpReg(e, t, opcode, pc, condition, 0);
        }
      case Multiple(load, mode, writeback, base, list) =>
        NothingLeft(load, t, mode, writeback, base, list, pc, env, if condition == AL then e.cycleCount else 0);
        BlockEmitter.BlockMemory(e, load, t, mode, writeback, base, list, pc, condition, env, 0);
    }
    e.cycleCount := e.cycleCount + execCyc;
  }

  lemma NothingLeft(load: bool, t: Table, mode: BlockTransfer.Mode, writeback: bool, base: Reg,
                    list: BlockTransfer.RegList, pc: Word, env: Env, cycles: nat)
    requires !(load && BlockTransfer.InList(list, 15))
    ensures BlockTransfer.BlockCode(load, t, mode, writeback, base, list, pc, env, cycles, 0)
         == BlockTransfer.BlockCode(load, t, mode, writeback, base, list, pc, env, 0, 0)
  {
    hide BlockTransfer.SetupCode, BlockTransfer.AccessesFrom, Bit;
  }

  lemma BlockStep(t: Table, gs: seq<GuestInstr>, i: GuestInstr, pc: Word, env: Env)
    ensures BlockCode(t, gs + [i], pc, env)
         == BlockCode(t, gs, pc, env) + InstrWords(t, i, ToWord(pc + 4 * |gs|), env)
    decreases |gs|
  {
    hide InstrWords;
    if gs == [] {
      assert gs + [i] == [i] && [i][1..] == [];
      assert ToWord(pc) == pc;
    } else {
      assert (gs + [i])[1..] == gs[1..] + [i];
      BlockStep(t, gs[1..], i, ToWord(pc + 4), env);
      assert ToWord(ToWord(pc + 4) + 4 * (|gs| - 1)) == ToWord(pc + 4 * |gs|) by { NextAddressOf(pc, |gs| - 1); }
    }
  }

  lemma NextAddressOf(pc: Word, n: nat)
    ensures ToWord(ToWord(pc + 4) + 4 * n) == ToWord(pc + 4 * (n + 1))
    ensures ToWord(ToWord(pc + 4 * n) + 4) == ToWord(pc + 4 * (n + 1))
  {
    ModAdd((pc + 4) % TWO32 + 4 * n, (pc + 4) / TWO32, TWO32);
    ModAdd((pc + 4 * n) % TWO32 + 4, (pc + 4 * n) / TWO32, TWO32);
  }

  /** The translator's loop: each instruction at the pc four bytes after the one before it. */
  method TranslateBlock(e: Emitter, t: Table, opcodes: seq<Word>, startPc: Word, condition: Cond, env: Env)
    returns (pc: Word)
    requires GoesOn(opcodes)
    modifies e
    ensures e.code == old(e.code) + BlockCode(t, FetchAll(opcodes), startPc, env)
    ensures e.cycleCount == old(e.cycleCount) + TotalCost(FetchAll(opcodes))
    ensures pc == ToWord(startPc + 4 * |opcodes|)
  {
    hide Fetch, InstrWords, Cost, BlockCode, TotalCost;
    pc := startPc;
    ghost var gs := FetchAll(opcodes);
    EmptyBlock(t, startPc, env);
    var k := 0;
    while k < |opcodes|
      invariant 0 <= k <= |opcodes|
      invariant pc == ToWord(startPc + 4 * k)
      invariant e.code == old(e.code) + BlockCode(t, gs[..k], startPc, env)
      invariant e.cycleCount == old(e.cycleCount) + TotalCost(gs[..k])
    {
      BlockStep(t, gs[..k], gs[k], startPc, env);
      CostLast(gs[..k], gs[k]);
      assert gs[..k] + [gs[k]] == gs[..k + 1];
      NextAddressOf(startPc, k);
      TranslateInstr(e, t, opcodes[k], pc, condition, env);
      pc := ToWord(pc + 4);
      k := k + 1;
    }
    assert gs[..k] == gs;
  }

  lemma EmptyBlock(t: Table, pc: Word, env: Env)
    ensures BlockCode(t, [], pc, env) == [] && TotalCost([]) == 0 && ToWord(pc) == pc
  {}

  /**
   A whole conditional block: the header with the cycles pending before it, the instructions, and the
   patch, which spends exactly the block's own cycles.
   */
  method TranslateConditional(e: Emitter, t: Table, buffer: Word, opcodes: seq<Word>, startPc: Word,
                              condition: Cond, env: Env)
    requires GoesOn(opcodes) && |opcodes| <= MAX_BLOCK_SIZE
    modifies e
    ensures var before := old(e.code) + CycleUpdateCode(old(e.cycleCount));
      var gs := FetchAll(opcodes);
      e.code == before + ConditionalCode(condition, BlockCode(t, gs, startPc, env), TotalCost(gs), |gs|,
                                         ToWord(buffer + 4 * |before|))
    ensures e.cycleCount == 0
  {
    hide Fetch, BlockCode, TotalCost, CycleUpdateCode, FillerWord, FlipLowBit, ConditionalCode;
    ghost var gs := FetchAll(opcodes);
    ghost var before := e.code + CycleUpdateCode(e.cycleCount);
    var flipped, backpatch := ConditionalHeader(e, condition);
    var pc := TranslateBlock(e, t, opcodes, startPc, condition, env);
    assert e.code[..backpatch] == before;
    PatchConditional(e, buffer, backpatch, condition, startPc, pc, BlockCode(t, gs, startPc, env));
    SkippedCount(startPc, |gs|);
    SameCorrection(condition, BlockCode(t, gs, startPc, env), TotalCost(gs), |gs|, ToWord(buffer + 4 * backpatch));
  }

  lemma SkippedCount(startPc: Word, n: nat)
    requires n <= MAX_BLOCK_SIZE
    ensures ToWord(ToWord(startPc + 4 * n) - startPc) / 4 % 256 == n % 256
  {
    assert ToWord(ToWord(startPc + 4 * n) - startPc) == 4 * n;
  }

  /** The skipped instructions are counted modulo 256. */
  lemma SameCorrection(cond: Cond, body: seq<Word>, cycles: nat, n: nat, source: Word)
    ensures ConditionalCode(cond, body, cycles, n % 256, source) == ConditionalCode(cond, body, cycles, n, source)
  {
    hide ChunkWord, SkipWord, CycleUpdateCode;
  }

  /**
   The cycles of a block add up over its instructions: none for a transfer, one for a data-processing
   instruction and two when it shifts by a register, and two more when its rd field is 15.
   */
  lemma {:induction false} CostLast(gs: seq<GuestInstr>, i: GuestInstr)
    ensures TotalCost([]) == 0 && TotalCost(gs + [i]) == TotalCost(gs) + Cost(i)
    ensures i.Multiple? ==> Cost(i) == 0
    ensures i.Operate? && i.rd != 15 ==> Cost(i) == if i.operand.ShiftedByReg? then 2 else 1
    ensures i.Operate? && i.rd == 15 ==> Cost(i) == if i.operand.ShiftedByReg? then 4 else 3
    decreases |gs|
  {
    if gs == [] {
      assert gs + [i] == [i] && [i][1..] == [];
    } else {
      assert (gs + [i])[1..] == gs[1..] + [i];
      CostLast(gs[1..], i);
    }
  }

  /** The k-th instruction of a block runs at the pc 4k bytes on. */
  lemma {:induction false} RunGuestLast(cond: Cond, gs: seq<GuestInstr>, i: GuestInstr, pc: Word, g: Guest)
    ensures var before := RunGuest(cond, gs, pc, g);
      RunGuest(cond, gs + [i], pc, g)
      == if Holds(cond, before.flags) then Execute(i, (pc + 4 * |gs|) % 0x1_0000_0000, before) else before
    decreases |gs|
  {
    hide Execute;
    if gs == [] {
      assert gs + [i] == [i] && [i][1..] == [];
    } else {
      assert (gs + [i])[1..] == gs[1..] + [i];
      RunGuestLast(cond, gs[1..], i, ToWord(pc + 4), if Holds(cond, g.flags) then Execute(gs[0], pc, g) else g);
      NextAddressOf(pc, |gs| - 1);
    }
  }
}
