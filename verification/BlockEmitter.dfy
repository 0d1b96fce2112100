/** The emitting side of block transfers: the macros as code that appends to the translation buffer. */
module BlockEmitter {
  import opened Words
  import opened Flags
  import opened InstructionWords
  import opened HostMachine
  import opened Emission
  import opened Translation
  import opened BlockTransfer

  /** `generate_load_reg`. */
  method GenerateLoadReg(e: Emitter, t: Table, ireg: Reg, r: Reg)
    modifies e`code
    ensures e.code == old(e.code) + LoadReg(t, ireg, r)
  {
    hide DataProcWord, LoadWord;
    if t[r] != MEM_REG {
      e.Write32(DataProcWord(MOV, false, ireg, 0, ShiftedByImm(t[r], Shifter.LSL, 0)));
    } else {
      e.Write32(LoadWord(ireg, SP, REG_BASE_OFFSET + r * 4));
    }
  }

  /** `generate_store_reg`. */
  method GenerateStoreReg(e: Emitter, t: Table, ireg: Reg, r: Reg)
    modifies e`code
    ensures e.code == old(e.code) + StoreReg(t, ireg, r)
  {
    hide DataProcWord, StoreWord;
    if t[r] != MEM_REG {
      e.Write32(DataProcWord(MOV, false, t[r], 0, ShiftedByImm(ireg, Shifter.LSL, 0)));
    } else {
      e.Write32(StoreWord(ireg, SP, REG_BASE_OFFSET + r * 4));
    }
  }

  /** `generate_load_reg_pc`, given the value of r15. */
  method GenerateLoadRegPc(e: Emitter, t: Table, ireg: Reg, r: Reg, pcValue: Word)
    modifies e`code
    ensures e.code == old(e.code) + LoadRegPc(t, ireg, r, pcValue)
  {
    hide LoadReg, LoadConstant;
    if r == 15 {
      e.LoadImm32(ireg, pcValue);
    } else {
      GenerateLoadReg(e, t, ireg, r);
    }
  }

  /** `generate_function_call`. */
  method GenerateFunctionCall(e: Emitter, target: Word)
    modifies e`code
    ensures e.code == old(e.code) + Call(target)
  {
    hide CallWord, LoadConstant;
    e.LoadImm32(LR, target);
    e.Write32(CallWord(LR));
  }

  /** `arm_block_memory_load`, `..._store` and their `final` forms. */
  method GenerateAccess(e: Emitter, load: bool, t: Table, i: Reg, last: bool, site: Site, env: Env)
    modifies e`code
    ensures e.code == old(e.code) + AccessCode(load, t, i, last, site, env)
  {
    hide Call, StoreReg, LoadRegPc;
    if load {
      GenerateFunctionCall(e, env.load);
      e.Write32(site.afterLoad);
      GenerateStoreReg(e, t, A0, i);
    } else {
      GenerateLoadRegPc(e, t, A1, i, site.r15);
      if last && site.checkLast {
        GenerateFunctionCall(e, env.store);
        e.Write32(site.afterStore);
      } else {
        GenerateFunctionCall(e, env.storeSafe);
      }
    }
  }

  /** `arm_block_memory_writeback_down` and `..._up`. */
  method GenerateWriteback(e: Emitter, t: Table, mode: Mode, rn: Reg, list: RegList)
    modifies e`code
    ensures e.code == old(e.code) + WritebackCode(t, mode, rn, WordBitCount(list))
  {
    hide ByteWord, LoadReg, StoreReg, WordBitCount;
    GenerateLoadReg(e, t, A0, rn);
    if mode.DownA? || mode.DownB? {
      e.Write32(ByteWord(SUB, A0, A0, WordBitCount(list) * 4));
    } else {
      e.Write32(ByteWord(ADD, A0, A0, WordBitCount(list) * 4));
    }
    GenerateStoreReg(e, t, A0, rn);
  }

  lemma {:induction false} NothingAfterLast(load: bool, t: Table, list: RegList, i: nat, j: nat, offset: nat,
                                           site: Site, env: Env)
    requires i < j <= 16 && IsLast(list, i)
    ensures AccessesFrom(load, t, list, j, offset, site, env) == []
    decreases 16 - j
  {
    hide ListedCode;
    if j < 16 {
      Pow2Monotone(i + 1, j);
      HighBitClear(list, Pow2(i + 1), Pow2(j));
      NothingAfterLast(load, t, list, i, j + 1, offset, site, env);
    }
  }

  lemma HighBitClear(v: nat, p: nat, q: nat)
    requires 0 < p <= q && v / p == 0
    ensures v / q == 0
  {
    if v >= p { DivAtLeastOne(v, p); }
    DivUnique(v, q, 0, v);
  }

  /** `arm_block_memory_offset_*`. */
  method GenerateOffset(e: Emitter, mode: Mode, list: RegList)
    modifies e`code
    ensures e.code == old(e.code) + OffsetCode(mode, WordBitCount(list))
  {
    hide ByteWord, WordBitCount;
    match mode {
      case DownA => e.Write32(ByteWord(SUB, S0, S0, WordBitCount(list) * 4 - 4));
      case DownB => e.Write32(ByteWord(SUB, S0, S0, WordBitCount(list) * 4));
      case Up =>
      case UpPre => e.Write32(ByteWord(ADD, S0, S0, 4));
    }
  }

  /** `arm_block_memory_adjust_pc_*`. */
  method GenerateLeave(e: Emitter, load: bool, list: RegList, condition: Cond, stub: Word)
    modifies e
    ensures e.code == old(e.code) + LeaveCode(load, list, if condition == AL then old(e.cycleCount) else 0, stub)
    ensures !(load && InList(list, 15)) ==> e.cycleCount == old(e.cycleCount)
  {
    hide IndirectCode, Bit;
    if load && InList(list, 15) {
      GenerateIndirectBranch(e, condition, stub);
    }
  }

  method GenerateSetup(e: Emitter, load: bool, t: Table, mode: Mode, writeback: bool, rn: Reg, list: RegList)
    modifies e`code
    ensures e.code == old(e.code) + SetupCode(load, t, mode, writeback, rn, list)
  {
    hide ByteWord, LoadReg, OffsetCode, WordBitCount, WritebackCode, Bit;
    GenerateLoadReg(e, t, S0, rn);
    GenerateOffset(e, mode, list);
    if writeback && !(load && InList(list, rn)) {
      GenerateWriteback(e, t, mode, rn, list);
    }
    e.Write32(ByteWord(BIC, S0, S0, 3));
  }

  /** `arm_block_memory`, in a block with the given condition. */
  method BlockMemory(e: Emitter, load: bool, t: Table, mode: Mode, writeback: bool, rn: Reg, list: RegList, pc: Word,
                     condition: Cond, env: Env, stub: Word)
    modifies e
    ensures e.code == old(e.code)
                      + BlockCode(load, t, mode, writeback, rn, list, pc, env,
                                  if condition == AL then old(e.cycleCount) else 0, stub)
    ensures !(load && InList(list, 15)) ==> e.cycleCount == old(e.cycleCount)
  {
    hide SetupCode, LeaveCode, AccessesFrom, IsLast, Bit;
    GenerateSetup(e, load, t, mode, writeback, rn, list);
    NothingAboveList(list);
    GenerateAccesses(e, load, t, 16, list, ArmSite(pc), env);
    GenerateLeave(e, load, list, condition, stub);
  }

  lemma AccessesStep(load: bool, t: Table, list: RegList, i: Reg, offset: nat, site: Site, env: Env)
    ensures AccessesFrom(load, t, list, i, offset, site, env) ==
      if InList(list, i) then
        ListedCode(load, t, list, i, offset, site, env) + AccessesFrom(load, t, list, i + 1, offset + 4, site, env)
      else AccessesFrom(load, t, list, i + 1, offset, site, env)
  {}

  /** The code of a listed register; `last` is what the macro tests. */
  method GenerateListed(e: Emitter, load: bool, t: Table, list: RegList, i: Reg, last: bool, offset: nat,
                        site: Site, env: Env)
    requires last == IsLast(list, i)
    modifies e`code
    ensures e.code == old(e.code) + ListedCode(load, t, list, i, offset, site, env)
  {
    hide ByteWord, AccessCode, IsLast;
    e.Write32(ByteWord(ADD, A0, S0, offset));
    GenerateAccess(e, load, t, i, last, site, env);
  }

  /** The loop over the first `n` registers, which stops at the last listed one. */
  method GenerateAccesses(e: Emitter, load: bool, t: Table, n: nat, list: RegList, site: Site, env: Env)
    requires 1 <= n <= 16 && IsLast(list, n - 1)
    modifies e`code
    ensures e.code == old(e.code) + AccessesFrom(load, t, list, 0, 0, site, env)
  {
    hide ListedCode, Bit, IsLast, AccessesFrom;
    ghost var whole := e.code + AccessesFrom(load, t, list, 0, 0, site, env);
    var offset := 0;
    var i := 0;
    while i < n
      invariant 0 <= i <= n
      invariant whole == e.code + AccessesFrom(load, t, list, i, offset, site, env)
    {
      AccessesStep(load, t, list, i, offset, site, env);
      if InList(list, i) {
        if !IsLast(list, i) {
          GenerateListed(e, load, t, list, i, false, offset, site, env);
          offset := offset + 4;
        } else {
          GenerateListed(e, load, t, list, i, true, offset, site, env);
          NothingAfterLast(load, t, list, i, i + 1, offset + 4, site, env);
          assert whole == e.code;
          return;
        }
      }
      i := i + 1;
    }
    NothingAfterLast(load, t, list, n - 1, n, offset, site, env);
  }

  lemma NothingAboveList(list: RegList)
    ensures IsLast(list, 15) && (list < 0x100 ==> IsLast(list, 7))
  {
    SmallPowers();
  }
}
