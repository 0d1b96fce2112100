/** The Thumb block-transfer macros as code: the interpreter's loop and the emitter's. */
module ThumbEmitter {
  import opened Words
  import opened Flags
  import opened InstructionWords
  import opened HostMachine
  import opened Emission
  import opened Translation
  import opened BlockTransfer
  import opened BlockEmitter
  import opened ThumbBlocks

  /** No register from r8 up is in a Thumb list. */
  lemma NothingAbove(load: bool, list: LowList, address: Word, g: Guest)
    ensures MoveFrom(load, list, 8, address, 0, g) == g
  {
    hide MoveFrom, Bit, Rank;
    SmallPowers();
    LowCount(list);
    BitCountIsRank(list, 8);
    EmptyMoves(load, list, 8, address, 0, g);
  }

  /** `thumb_block_memory` of the interpreter. */
  method InterpretBlock(p: Processor, form: Form, list: LowList)
    modifies p
    ensures p.State() == InterpretThumb(form, list, old(p.State()))
    ensures p.pc == if form.PopPc? then p.regs[15] else ToWord(old(p.pc) + 2)
  {
    hide Bit, MoveFrom, BitCount, Start, ToWord;
    ghost var g := p.State();
    var rb := form.Base();
    var address: Word := Start(form, list, p.regs[rb]);
    ghost var start, whole := address, MoveFrom(form.Loads(), list, 0, address, 0, g);
    AddressStep(start, list, 0);
    var offset := 0;
    for i := 0 to 8
      invariant p.pc == old(p.pc) && offset == 4 * Rank(list, i)
      invariant whole == MoveFrom(form.Loads(), list, i, AddressOf(start, list, i), 0, p.State())
    {
      MoveStep(form.Loads(), list, i, AddressOf(start, list, i), 0, p.State());
      AddressStep(start, list, i);
      RankStep(list, i);
      if InList(list, i) {
        if form.Loads() {
          p.regs := p.regs[i := Read(p.mem, ToWord(address + offset))];
        } else {
          p.mem := p.mem[ToWord(address + offset) := p.regs[i]];
        }
        offset := offset + 4;
      }
    }
    NothingAbove(form.Loads(), list, AddressOf(start, list, 8), p.State());
    OffsetIsCount(list);
    p.pc := ToWord(p.pc + 2);
    match form {
      case Push =>
      case PushLr =>
        p.mem := p.mem[ToWord(address + offset) := p.regs[14]];
      case PopPc =>
        var link := Read(p.mem, ToWord(address + offset));
        p.pc := link - link % 2;
        p.regs := p.regs[15 := p.pc];
        address := ToWord(address + (offset + 4));
      case _ =>
        address := ToWord(address + offset);
    }
    if !(form.Loads() && InList(list, rb)) {
      p.regs := p.regs[rb := address];
    }
    HighBitsClear(list, 13);
  }

  lemma OffsetIsCount(list: LowList)
    ensures Rank(list, 8) == BitCount(list)
  {
    SmallPowers();
    BitCountIsRank(list, 8);
  }

  // ---------------------------------------------------------------- emission

  /** `thumb_block_address_preadjust_*`. */
  method GeneratePreadjust(e: Emitter, form: Form, list: LowList)
    modifies e`code
    ensures e.code == old(e.code) + PreadjustCode(form, list)
  {
    hide ByteWord, BitCount;
    match form {
      case Push => e.Write32(ByteWord(SUB, S0, S0, BitCount(list) * 4));
      case PushLr => e.Write32(ByteWord(SUB, S0, S0, (BitCount(list) + 1) * 4));
      case _ =>
    }
  }

  /** `thumb_block_address_postadjust_*`. */
  method GeneratePostadjust(e: Emitter, t: Table, form: Form, list: LowList)
    modifies e`code
    ensures e.code == old(e.code) + PostadjustCode(t, form, list)
  {
    hide BitCount, StoreReg, ByteWord;
    match form {
      case Push => GenerateStoreReg(e, t, S0, 13);
      case PushLr => GenerateStoreReg(e, t, S0, 13);
      case PopPc => GenerateRaise(e, t, 13, (BitCount(list) + 1) * 4);
      case _ => GenerateRaise(e, t, form.Base(), BitCount(list) * 4);
    }
  }

  method GenerateRaise(e: Emitter, t: Table, r: Reg, imm: nat)
    modifies e`code
    ensures e.code == old(e.code) + ([ByteWord(ADD, A0, S0, imm)] + StoreReg(t, A0, r))
  {
    hide ByteWord, StoreReg;
    e.Write32(ByteWord(ADD, A0, S0, imm));
    GenerateStoreReg(e, t, A0, r);
  }

  /** `thumb_block_memory_extra_*`. */
  method GenerateExtra(e: Emitter, t: Table, form: Form, list: LowList, pc: Word, env: Env, stub: Word)
    modifies e
    ensures e.code == old(e.code) + ExtraCode(t, form, list, pc, env, old(e.cycleCount), stub)
  {
    hide ByteWord, BitCount, Call, LoadReg, IndirectCode;
    if form.PopPc? {
      e.Write32(ByteWord(ADD, A0, S0, BitCount(list) * 4));
      GenerateFunctionCall(e, env.load);
      e.Write32(ToWord(pc + 4));
      GenerateIndirectBranch(e, AL, stub);
    } else if form.PushLr? {
      e.Write32(ByteWord(ADD, A0, S0, BitCount(list) * 4));
      GenerateLoadReg(e, t, A1, 14);
      GenerateFunctionCall(e, env.storeSafe);
    }
  }

  /** `thumb_block_memory` of the emitter. */
  method EmitBlock(e: Emitter, t: Table, form: Form, list: LowList, pc: Word, env: Env, stub: Word)
    modifies e
    ensures e.code == old(e.code) + ThumbCode(t, form, list, pc, env, old(e.cycleCount), stub)
  {
    hide ByteWord, LoadReg, PreadjustCode, PostadjustCode, AccessesFrom, ExtraCode, IsLast;
    GenerateLoadReg(e, t, S0, form.Base());
    e.Write32(ByteWord(BIC, S0, S0, 3));
    GeneratePreadjust(e, form, list);
    GeneratePostadjust(e, t, form, list);
    NothingAboveList(list);
    GenerateAccesses(e, form.Loads(), t, 8, list, ThumbSite(form, pc), env);
    GenerateExtra(e, t, form, list, pc, env, stub);
  }
}
