/**
 Whole blocks: consecutive guest instructions translated one after the other, and conditional blocks behind
 a single skip branch, with the cycle accounting at both ends.
 */
module Blocks {
  import opened Words
  import opened Flags
  import opened InstructionWords
  import opened HostMachine
  import opened Emission
  import opened Translation
  import opened Interpreter
  import opened Branches
  import BlockTransfer

  /** A data-processing instruction, or an LDM or STM. */
  datatype GuestInstr =
    | Operate(op: Opcode, s: bool, rd: Reg, rn: Reg, operand: Operand)
    | Multiple(load: bool, mode: BlockTransfer.Mode, writeback: bool, base: Reg, list: BlockTransfer.RegList)
  {
    /** The block goes on after it, and it is emitted as itself. */
    predicate GoesOn() {
      match this
      case Operate(op, s, rd, _, o) => Translatable(op, s, rd, o) && EmittedOp(op, o) == op
      case Multiple(load, _, _, base, list) => base != 15 && !(load && BlockTransfer.InList(list, 15))
    }

    predicate SetsFlags() { Operate? && s }
  }

  predicate AllGoOn(gs: seq<GuestInstr>) { forall k | 0 <= k < |gs| :: gs[k].GoesOn() }

  predicate NoFlags(gs: seq<GuestInstr>) { forall k | 0 <= k < |gs| :: !gs[k].SetsFlags() }

  /** No instruction calls a memory helper, which adds its own cycles. */
  predicate NoTransfers(gs: seq<GuestInstr>) { forall k | 0 <= k < |gs| :: gs[k].Operate? }

  /** `exec_cyc`; transfers leave their cycles to the helpers. */
  function Cost(i: GuestInstr): nat {
    if i.Multiple? then 0
    else (if i.operand.ShiftedByReg? then 2 else 1) + if i.rd == 15 then 2 else 0
  }

  function TotalCost(gs: seq<GuestInstr>): nat { if gs == [] then 0 else Cost(gs[0]) + TotalCost(gs[1..]) }

  /** What an instruction means at `pc`. */
  function Execute(i: GuestInstr, pc: Word, g: Guest): Guest {
    match i
    case Operate(op, s, rd, rn, o) => GuestDataProc(op, s, rd, rn, o, pc, g)
    case Multiple(load, mode, writeback, base, list) =>
      BlockTransfer.Interpret(load, mode, writeback, base, list, pc, g)
  }

  /** The instructions one after the other, each under the condition. */
  function RunGuest(cond: Cond, gs: seq<GuestInstr>, pc: Word, g: Guest): Guest {
    if gs == [] then g
    else RunGuest(cond, gs[1..], ToWord(pc + 4), if Holds(cond, g.flags) then Execute(gs[0], pc, g) else g)
  }

  function InstrWords(t: Table, i: GuestInstr, pc: Word, env: Env): seq<Word> {
    match i
    case Operate(op, s, rd, rn, o) => DataProcCode(t, op, s, rd, rn, o, pc)
    case Multiple(load, mode, writeback, base, list) =>
      BlockTransfer.BlockCode(load, t, mode, writeback, base, list, pc, env, 0, 0)
  }

  /** The instructions' words, one after the other. */
  function BlockCode(t: Table, gs: seq<GuestInstr>, pc: Word, env: Env): seq<Word> {
    if gs == [] then [] else InstrWords(t, gs[0], pc, env) + BlockCode(t, gs[1..], ToWord(pc + 4), env)
  }

  /** `MAX_BLOCK_SIZE`. */
  const MAX_BLOCK_SIZE := 8192

  /** What the translator puts behind one branch: an instruction that sets flags is always alone. */
  predicate OneBlock(gs: seq<GuestInstr>) {
    0 < |gs| <= MAX_BLOCK_SIZE && (|gs| == 1 || NoFlags(gs))
  }

  lemma InstrPreserves(t: Table, i: GuestInstr, pc: Word, env: Env, g: Guest, h: Host) returns (h': Host)
    requires Represents(t, g, h) && i.GoesOn() && env.Valid()
    ensures Does(InstrWords(t, i, pc, env), env, h, h')
    ensures Represents(t, Execute(i, pc, g), h')
    ensures i.Operate? ==> h'.regs[CYCLES] == h.regs[CYCLES]
  {
    hide Does, Run, DataProcCode, GuestDataProc, Represents, BlockTransfer.BlockCode, BlockTransfer.Interpret;
    match i
    case Operate(op, s, rd, rn, o) =>
      h' := TranslationPreserves(t, op, s, rd, rn, o, pc, env, g, h);
    case Multiple(load, mode, writeback, base, list) =>
      h' := BlockTransfer.BlockTransferRefines(load, t, mode, writeback, base, list, pc, env, 0, 0, g, h);
      assert h'.(status := Running) == h';
  }

  /** Translating a sequence of instructions preserves its meaning. */
  lemma {:induction false} BlockPreserves(t: Table, gs: seq<GuestInstr>, pc: Word, env: Env, g: Guest, h: Host)
    returns (h': Host)
    requires Represents(t, g, h) && AllGoOn(gs) && env.Valid()
    ensures Does(BlockCode(t, gs, pc, env), env, h, h')
    ensures Run(BlockCode(t, gs, pc, env), env, h) == h'
    ensures Represents(t, RunGuest(AL, gs, pc, g), h')
    ensures NoTransfers(gs) ==> h'.regs[CYCLES] == h.regs[CYCLES]
    decreases |gs|
  {
    hide Does, Run, InstrWords, Execute, Represents;
    if gs == [] {
      DoesNothing(env, h);
      h' := h;
    } else {
      var i, rest := gs[0], gs[1..];
      assert Holds(AL, g.flags);
      var h1 := InstrPreserves(t, i, pc, env, g, h);
      h' := BlockPreserves(t, rest, ToWord(pc + 4), env, Execute(i, pc, g), h1);
      DoesThen(InstrWords(t, i, pc, env), BlockCode(t, rest, ToWord(pc + 4), env), env, h, h1, h');
    }
    DoesAll(BlockCode(t, gs, pc, env), env, h, h');
  }

  lemma FlagsKept(i: GuestInstr, pc: Word, g: Guest)
    requires !i.SetsFlags()
    ensures Execute(i, pc, g).flags == g.flags
  {
    hide Alu, GuestOperand, BlockTransfer.MoveFrom;
    if i.Multiple? { TransferKeepsFlags(i.load, i.mode, i.writeback, i.base, i.list, pc, g); }
  }

  lemma TransferKeepsFlags(load: bool, mode: BlockTransfer.Mode, writeback: bool, base: Reg,
                           list: BlockTransfer.RegList, pc: Word, g: Guest)
    ensures BlockTransfer.Interpret(load, mode, writeback, base, list, pc, g).flags == g.flags
  {
    hide BlockTransfer.MoveFrom, BlockTransfer.WordBitCount, BlockTransfer.Offset, BlockTransfer.Align,
         BlockTransfer.Written;
    var count := BlockTransfer.WordBitCount(list);
    var start := BlockTransfer.Align(BlockTransfer.Offset(mode, g.regs[base], count));
    var g1 := if writeback then g.(regs := g.regs[base := BlockTransfer.Written(mode, g.regs[base], count)]) else g;
    MovesKeepFlags(load, list, 0, start, ToWord(pc + 8), g1);
  }

  lemma {:induction false} MovesKeepFlags(load: bool, list: BlockTransfer.RegList, i: nat, address: Word, pcStore: Word,
                                          g: Guest)
    requires i <= 16
    ensures BlockTransfer.MoveFrom(load, list, i, address, pcStore, g).flags == g.flags
    decreases 16 - i
  {
    hide Bit;
    if i < 16 {
      if BlockTransfer.InList(list, i) {
        MovesKeepFlags(load, list, i + 1, ToWord(address + 4), pcStore,
                       BlockTransfer.MoveOne(load, i, address, pcStore, g));
      } else {
        MovesKeepFlags(load, list, i + 1, address, pcStore, g);
      }
    }
  }

  /** Testing the condition once is testing it before each instruction. */
  lemma {:induction false} ConditionHeld(cond: Cond, gs: seq<GuestInstr>, pc: Word, g: Guest)
    requires |gs| <= 1 || NoFlags(gs)
    ensures RunGuest(cond, gs, pc, g) == if Holds(cond, g.flags) then RunGuest(AL, gs, pc, g) else g
    decreases |gs|
  {
    hide Execute;
    if gs != [] {
      var i := gs[0];
      assert Holds(AL, g.flags);
      if |gs| > 1 { FlagsKept(i, pc, g); }
      ConditionHeld(cond, gs[1..], ToWord(pc + 4), g);
      ConditionHeld(cond, gs[1..], ToWord(pc + 4), Execute(i, pc, g));
    }
  }

  // ---------------------------------------------------------------- code size

  lemma ConstantShort(scratch: Reg, v: Word)
    ensures |LoadConstant(scratch, v)| <= 4
  {
    hide LoadConstant, Does;
    var zero: Host := Host(seq(16, _ => 0), Nzcv(false, false, false, false), map[], map[], 0, Running);
    LoadConstantExact(scratch, v, Env(0, 1, 2, (_, _) => 0), zero);
  }

  lemma LoadShort(t: Table, scratch: Reg, r: Reg, pcValue: Word)
    ensures |PrepareLoadPc(t, scratch, r, pcValue).code| <= 4 && |PrepareLoad(t, scratch, r).code| <= 1
  {
    hide LoadConstant, LoadWord, Does;
    if r == 15 { ConstantShort(scratch, pcValue); }
  }

  lemma OperandShort(t: Table, o: Operand, pc: Word)
    ensures |OperandCode(t, o, pc).0| <= 5
  {
    hide PrepareLoad, PrepareLoadPc, ToWord;
    match o
    case Immediate(imm8, rot) =>
    case ShiftedByImm(rm, st, amount) => LoadShort(t, A0, rm, ToWord(pc + 8));
    case ShiftedByReg(rm, st, rs) =>
      LoadShort(t, LR, rs, 0);
      LoadShort(t, A0, rm, ToWord(pc + 12));
  }

  lemma OperateShort(t: Table, op: Opcode, s: bool, rd: Reg, rn: Reg, o: Operand, pc: Word)
    ensures |DataProcCode(t, op, s, rd, rn, o, pc)| <= 11
  {
    hide OperandCode, StoreWord, DataProcWord, PrepareLoadPc, ToWord;
    LoadShort(t, A1, rn, ToWord(pc + 8));
    OperandShort(t, o, pc);
  }

  lemma ListedShort(load: bool, t: Table, list: BlockTransfer.RegList, i: Reg, offset: nat, site: BlockTransfer.Site,
                    env: Env)
    ensures |BlockTransfer.ListedCode(load, t, list, i, offset, site, env)| <= 11
  {
    hide LoadConstant, LoadWord, StoreWord, BlockTransfer.MoveWord, BlockTransfer.ByteWord, BlockTransfer.IsLast,
         CallWord;
    ConstantShort(LR, env.load);
    ConstantShort(LR, env.store);
    ConstantShort(LR, env.storeSafe);
    ConstantShort(A1, site.r15);
  }

  lemma {:induction false} AccessesShort(load: bool, t: Table, list: BlockTransfer.RegList, i: nat, offset: nat,
                                         site: BlockTransfer.Site, env: Env)
    requires i <= 16
    ensures |BlockTransfer.AccessesFrom(load, t, list, i, offset, site, env)| <= 11 * (16 - i)
    decreases 16 - i
  {
    hide BlockTransfer.ListedCode, Bit;
    if i < 16 {
      ListedShort(load, t, list, i, offset, site, env);
      AccessesShort(load, t, list, i + 1, offset + 4, site, env);
      AccessesShort(load, t, list, i + 1, offset, site, env);
    }
  }

  lemma SetupShort(load: bool, t: Table, mode: BlockTransfer.Mode, writeback: bool, base: Reg,
                   list: BlockTransfer.RegList)
    ensures |BlockTransfer.SetupCode(load, t, mode, writeback, base, list)| <= 6
  {
    hide LoadWord, StoreWord, BlockTransfer.MoveWord, BlockTransfer.ByteWord, Bit, BlockTransfer.WordBitCount;
  }

  lemma InstrShort(t: Table, i: GuestInstr, pc: Word, env: Env)
    requires i.GoesOn()
    ensures |InstrWords(t, i, pc, env)| <= 200
  {
    hide DataProcCode, BlockTransfer.SetupCode, BlockTransfer.AccessesFrom, Bit;
    match i
    case Operate(op, s, rd, rn, o) => OperateShort(t, op, s, rd, rn, o, pc);
    case Multiple(load, mode, writeback, base, list) =>
      SetupShort(load, t, mode, writeback, base, list);
      AccessesShort(load, t, list, 0, 0, BlockTransfer.ArmSite(pc), env);
  }

  lemma {:induction false} BlockCodeShort(t: Table, gs: seq<GuestInstr>, pc: Word, env: Env)
    requires AllGoOn(gs)
    ensures |BlockCode(t, gs, pc, env)| <= 200 * |gs|
    decreases |gs|
  {
    hide InstrWords;
    if gs != [] {
      InstrShort(t, gs[0], pc, env);
      BlockCodeShort(t, gs[1..], ToWord(pc + 4), env);
    }
  }

  lemma {:induction false} CostBounded(gs: seq<GuestInstr>)
    ensures TotalCost(gs) <= 4 * |gs|
  {
    if gs != [] { CostBounded(gs[1..]); }
  }

  // ---------------------------------------------------------------- conditional blocks

  /**
   A translated conditional block preserves meaning: it runs to its end in a state that represents the
   guest after its instructions, each run under the condition. When the condition fails the cycle register
   gains one for each instruction, modulo 256; when it holds, the block's cycles and whatever the memory
   helpers added, which is nothing in a block without transfers.
   */
  lemma ConditionalBlockPreserves(t: Table, cond: Cond, gs: seq<GuestInstr>, pc: Word, source: Word,
                                  env: Env, g: Guest, h: Host)
    returns (h': Host, waits: Word)
    requires Represents(t, g, h) && AllGoOn(gs) && OneBlock(gs) && env.Valid() && cond < AL && source % 4 == 0
    ensures Does(ConditionalCode(cond, BlockCode(t, gs, pc, env), TotalCost(gs), |gs|, source), env, h, h')
    ensures Run(ConditionalCode(cond, BlockCode(t, gs, pc, env), TotalCost(gs), |gs|, source), env, h) == h'
    ensures Represents(t, RunGuest(cond, gs, pc, g), h')
    ensures h'.regs[CYCLES]
         == ToWord(h.regs[CYCLES] + if Holds(cond, g.flags) then waits + TotalCost(gs) else |gs| % 256)
    ensures NoTransfers(gs) ==> waits == 0
  {
    hide Does, Run, BlockCode, RunGuest, TotalCost, ConditionalCode, ToWord;
    var h1 := BlockPreserves(t, gs, pc, env, g, h);
    var code := ConditionalCode(cond, BlockCode(t, gs, pc, env), TotalCost(gs), |gs|, source);
    BlockCodeShort(t, gs, pc, env);
    CostBounded(gs);
    ConditionHeld(cond, gs, pc, g);
    ConditionalBlockCycles(cond, BlockCode(t, gs, pc, env), TotalCost(gs), |gs|, source, env, h, h1);
    waits := WaitsAdded(h.regs[CYCLES], h1.regs[CYCLES], TotalCost(gs));
    if Holds(cond, h.flags) {
      var v := ToWord(h1.regs[CYCLES] + TotalCost(gs));
      ScratchKeeps(t, RunGuest(AL, gs, pc, g), h1, CYCLES, v);
      h' := h1.Set(CYCLES, v);
    } else {
      var v := ToWord(h.regs[CYCLES] + |gs| % 256);
      ScratchKeeps(t, g, h, CYCLES, v);
      h' := h.Set(CYCLES, v);
    }
    DoesAll(code, env, h, h');
  }

  lemma WaitsAdded(x: Word, y: Word, cost: nat) returns (waits: Word)
    ensures ToWord(x + (waits + cost)) == ToWord(y + cost)
    ensures x == y ==> waits == 0
  {
    waits := ToWord(y as int - x as int);
  }

  // ---------------------------------------------------------------- the interpreter

  /**
   Emitted code and the reference interpreter agree: from a state that represents the guest, the words for
   an instruction end in a state that represents what the interpreter's macro makes of it.
   */
  lemma EmittedMatchesInterpreter(t: Table, op: Opcode, s: bool, rd: Reg, rn: Reg, o: Operand, pc: Word,
                                  env: Env, g: Guest, h: Host)
    returns (h': Host)
    requires Represents(t, g, h) && Translatable(op, s, rd, o) && EmittedOp(op, o) == op
    requires ShiftDefined(o, g) && (s ==> FlagsCovered(op)) && AmountAgrees(op, s, o, g) && CarryAgrees(op, s, o, g)
    ensures Does(DataProcCode(t, op, s, rd, rn, o, pc), env, h, h')
    ensures Run(DataProcCode(t, op, s, rd, rn, o, pc), env, h) == h'
    ensures Represents(t, Interpret(op, s, rd, rn, o, pc, g), h')
  {
    hide Does, Run, DataProcCode, Interpret, GuestDataProc;
    h' := TranslationPreserves(t, op, s, rd, rn, o, pc, env, g, h);
    InterpreterMatches(op, s, rd, rn, o, pc, g);
  }
}
