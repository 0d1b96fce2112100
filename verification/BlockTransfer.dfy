/**
 Block transfers (LDM and STM): the interpreter's loop, the emitted code, and the proof that the code
 does to a represented guest what the interpreter does.
 */
module BlockTransfer {
  import opened Words
  import opened Flags
  import opened Shifter
  import opened InstructionWords
  import opened HostMachine
  import opened Emission
  import opened Translation

  /** The address modes, by the offset applied to the base and the direction of the write-back. */
  datatype Mode = DownA | DownB | Up | UpPre

  type RegList = l: int | 0 <= l < 0x1_0000

  predicate InList(list: RegList, i: nat) { Bit(list, i) == 1 }

  /** The entries of `bit_count`: the number of bits set. */
  function BitCount(b: nat): nat { if b == 0 then 0 else b % 2 + BitCount(b / 2) }

  function WordBitCount(list: RegList): nat { BitCount(list / 256) + BitCount(list % 256) }

  /** The number of listed registers below `i`. */
  function Rank(list: RegList, i: nat): nat {
    if i == 0 then 0 else Rank(list, i - 1) + Bit(list, i - 1)
  }

  // ---------------------------------------------------------------- the interpreter

  function Align(a: Word): Word { a - a % 4 }

  /** The first address before alignment: `arm_block_memory_offset_*`. */
  function Offset(mode: Mode, base: Word, count: nat): Word {
    match mode
    case DownA => ToWord(base - count * 4 + 4)
    case DownB => ToWord(base - count * 4)
    case Up => base
    case UpPre => ToWord(base + 4)
  }

  /** `arm_block_memory_writeback_*`. */
  function Written(mode: Mode, base: Word, count: nat): Word {
    if mode.DownA? || mode.DownB? then ToWord(base - count * 4) else ToWord(base + count * 4)
  }

  /** One register moved; r15 is stored as `pcStore`. */
  function MoveOne(load: bool, i: Reg, address: Word, pcStore: Word, g: Guest): Guest {
    if load then g.(regs := g.regs[i := Read(g.mem, address)])
    else g.(mem := g.mem[address := if i == 15 then pcStore else g.regs[i]])
  }

  /** Registers `i` and up moved, the first of them at `address`. */
  function MoveFrom(load: bool, list: RegList, i: nat, address: Word, pcStore: Word, g: Guest): Guest
    requires i <= 16
    decreases 16 - i
  {
    if i == 16 then g
    else if InList(list, i) then
      MoveFrom(load, list, i + 1, ToWord(address + 4), pcStore, MoveOne(load, i, address, pcStore, g))
    else MoveFrom(load, list, i + 1, address, pcStore, g)
  }

  lemma MoveStep(load: bool, list: RegList, i: Reg, address: Word, pcStore: Word, g: Guest)
    ensures MoveFrom(load, list, i, address, pcStore, g) ==
      if InList(list, i) then
        MoveFrom(load, list, i + 1, ToWord(address + 4), pcStore, MoveOne(load, i, address, pcStore, g))
      else MoveFrom(load, list, i + 1, address, pcStore, g)
    ensures forall a, g :: MoveFrom(load, list, 16, a, pcStore, g) == g
  {}

  /** The interpreter's block transfer at `pc`, without the S bit. */
  function Interpret(load: bool, mode: Mode, writeback: bool, rn: Reg, list: RegList, pc: Word, g: Guest): Guest {
    var base, count := g.regs[rn], WordBitCount(list);
    var g1 := if writeback then g.(regs := g.regs[rn := Written(mode, base, count)]) else g;
    MoveFrom(load, list, 0, Align(Offset(mode, base, count)), ToWord(pc + 8), g1)
  }

  lemma NextPc(pc: Word)
    ensures ToWord(ToWord(pc + 4) + 4) == ToWord(pc + 8)
  {}

  /** A guest processor the interpreter updates in place. */
  class Processor {
    var regs: RegFile
    var flags: Nzcv
    var mem: Memory
    var pc: Word

    function State(): Guest
      reads this
    {
      Guest(regs, flags, mem)
    }

    /** `arm_block_memory`; a loaded r15 is also the new pc. */
    method BlockMemory(load: bool, mode: Mode, writeback: bool, rn: Reg, list: RegList)
      modifies this
      ensures State() == Interpret(load, mode, writeback, rn, list, old(pc), old(State()))
      ensures pc == if load && InList(list, 15) then regs[15] else ToWord(old(pc) + 4)
    {
      hide Bit, WordBitCount, Offset, Written, Align, MoveFrom, ToWord;
      NextPc(pc);
      var base := regs[rn];
      var address: Word := Align(Offset(mode, base, WordBitCount(list)));
      if writeback {
        regs := regs[rn := Written(mode, base, WordBitCount(list))];
      }
      ghost var pcStore, whole := ToWord(pc + 8), MoveFrom(load, list, 0, address, ToWord(pc + 8), State());
      for i := 0 to 15
        invariant pc == old(pc)
        invariant whole == MoveFrom(load, list, i, address, pcStore, State())
      {
        MoveStep(load, list, i, address, pcStore, State());
        if InList(list, i) {
          if load {
            regs := regs[i := Read(mem, address)];
          } else {
            mem := mem[address := regs[i]];
          }
          address := ToWord(address + 4);
        }
      }
      MoveStep(load, list, 15, address, pcStore, State());
      pc := ToWord(pc + 4);
      if InList(list, 15) {
        if load {
          pc := Read(mem, address);
          regs := regs[15 := pc];
        } else {
          mem := mem[address := ToWord(pc + 4)];
        }
      }
    }
  }

  // ---------------------------------------------------------------- what a block transfer means

  lemma {:induction false} RankBound(list: RegList, i: nat, j: nat)
    requires i <= j
    ensures Rank(list, i) <= Rank(list, j) <= Rank(list, i) + (j - i)
    ensures i < j && InList(list, i) ==> Rank(list, i) < Rank(list, j)
    decreases j - i
  {
    hide Bit;
    if i < j {
      RankBound(list, i, j - 1);
      BitIsBinary(list, j - 1);
    }
  }

  lemma BitIsBinary(v: nat, n: nat)
    ensures 0 <= Bit(v, n) <= 1
  {}

  /** The address of listed register `i`: the lowest register is at the lowest address. */
  function AddressOf(start: Word, list: RegList, i: nat): Word { ToWord(start + 4 * Rank(list, i)) }

  lemma AddressesDiffer(start: Word, list: RegList, i: nat, j: nat)
    requires i < j <= 16 && InList(list, i)
    ensures AddressOf(start, list, i) != AddressOf(start, list, j)
  {
    hide Bit;
    RankBound(list, i, j);
    RankBound(list, 0, j);
  }

  /** A load fills every listed register from its own address and changes nothing else. */
  lemma {:induction false} LoadMeaning(list: RegList, i: nat, start: Word, pcStore: Word, g: Guest)
    requires i <= 16
    ensures var g' := MoveFrom(true, list, i, AddressOf(start, list, i), pcStore, g);
            && g'.mem == g.mem && g'.flags == g.flags
            && forall r: Reg :: g'.regs[r] ==
                 if i <= r && InList(list, r) then Read(g.mem, AddressOf(start, list, r)) else g.regs[r]
    decreases 16 - i
  {
    hide Bit, AddressOf;
    if i < 16 {
      AddressStep(start, list, i);
      if InList(list, i) {
        LoadMeaning(list, i + 1, start, pcStore, MoveOne(true, i, AddressOf(start, list, i), pcStore, g));
      } else {
        LoadMeaning(list, i + 1, start, pcStore, g);
      }
    }
  }

  /** A store puts every listed register at its own address and changes nothing else. */
  lemma {:induction false} StoreMeaning(list: RegList, i: nat, start: Word, pcStore: Word, g: Guest)
    requires i <= 16
    ensures var g' := MoveFrom(false, list, i, AddressOf(start, list, i), pcStore, g);
            && g'.regs == g.regs && g'.flags == g.flags
            && (forall r: Reg :: i <= r && InList(list, r) ==>
                  Read(g'.mem, AddressOf(start, list, r)) == if r == 15 then pcStore else g.regs[r])
            && (forall a: Word :: (forall r: Reg :: i <= r && InList(list, r) ==> a != AddressOf(start, list, r)) ==>
                  Read(g'.mem, a) == Read(g.mem, a))
    decreases 16 - i
  {
    hide Bit, AddressOf;
    if i < 16 {
      AddressStep(start, list, i);
      if InList(list, i) {
        var g1 := MoveOne(false, i, AddressOf(start, list, i), pcStore, g);
        StoreMeaning(list, i + 1, start, pcStore, g1);
        forall r: Reg | i < r && InList(list, r) ensures AddressOf(start, list, i) != AddressOf(start, list, r) {
          AddressesDiffer(start, list, i, r);
        }
      } else {
        StoreMeaning(list, i + 1, start, pcStore, g);
      }
    }
  }

  lemma AddressStep(start: Word, list: RegList, i: nat)
    ensures AddressOf(start, list, i + 1)
         == if InList(list, i) then ToWord(AddressOf(start, list, i) + 4) else AddressOf(start, list, i)
    ensures AddressOf(start, list, 0) == start
  {
    hide Rank, Bit, ToWord;
    RankOfZero(list);
    RankStep(list, i);
    NextAddress(start, Rank(list, i));
  }

  lemma NextAddress(start: Word, n: nat)
    ensures ToWord(start + 4 * (n + 1)) == ToWord(ToWord(start + 4 * n) + 4)
    ensures ToWord(start) == start
  {
    ModAdd(start + 4 * n - (start + 4 * n) / TWO32 * TWO32 + 4, (start + 4 * n) / TWO32, TWO32);
  }

  // ---------------------------------------------------------------- the emitted code

  /** An add, subtract or bit-clear of an unrotated byte. */
  function ByteWord(op: Opcode, rd: Reg, rn: Reg, imm: int): Word {
    DataProcWord(op, false, rd, rn, Immediate(imm % 256, 0))
  }

  function MoveWord(rd: Reg, rm: Reg): Word {
    DataProcWord(MOV, false, rd, 0, ShiftedByImm(rm, LSL, 0))
  }

  /** `generate_load_reg` and `generate_store_reg`. */
  function LoadReg(t: Table, ireg: Reg, r: Reg): seq<Word> {
    if t[r] != MEM_REG then [MoveWord(ireg, t[r])] else [LoadWord(ireg, SP, SlotOffset(r))]
  }

  function StoreReg(t: Table, ireg: Reg, r: Reg): seq<Word> {
    if t[r] != MEM_REG then [MoveWord(t[r], ireg)] else [StoreWord(ireg, SP, SlotOffset(r))]
  }

  /** `generate_load_reg_pc`. */
  function LoadRegPc(t: Table, ireg: Reg, r: Reg, pcValue: Word): seq<Word> {
    if r == 15 then LoadConstant(ireg, pcValue) else LoadReg(t, ireg, r)
  }

  /** `generate_function_call`. */
  function Call(target: Word): seq<Word> { LoadConstant(LR, target) + [CallWord(LR)] }

  /** What the accesses depend on: the value of r15, the data words, and whether the last store is checked. */
  datatype Site = Site(r15: Word, afterLoad: Word, afterStore: Word, checkLast: bool)

  function ArmSite(pc: Word): Site { Site(ToWord(pc + 8), ToWord(pc + 8), ToWord(pc + 4), true) }

  /** The access for register `i`, whose address is in A0; a checked store uses its own helper. */
  function AccessCode(load: bool, t: Table, i: Reg, last: bool, site: Site, env: Env): seq<Word> {
    if load then
      Call(env.load) + [site.afterLoad] + StoreReg(t, A0, i)
    else
      LoadRegPc(t, A1, i, site.r15)
        + (if last && site.checkLast then Call(env.store) + [site.afterStore] else Call(env.storeSafe))
  }

  /** Whether no listed register is above `i`: `!(reg_list & ~((2 << i) - 1))`. */
  predicate IsLast(list: RegList, i: nat) { list / Pow2(i + 1) == 0 }

  /** Listed register `i`: its address from the start in S0, then the access. */
  function ListedCode(load: bool, t: Table, list: RegList, i: Reg, offset: nat, site: Site, env: Env): seq<Word> {
    [ByteWord(ADD, A0, S0, offset)] + AccessCode(load, t, i, IsLast(list, i), site, env)
  }

  /** The accesses for registers `i` and up, the first at displacement `offset`. */
  function AccessesFrom(load: bool, t: Table, list: RegList, i: nat, offset: nat, site: Site, env: Env): seq<Word>
    requires i <= 16
    decreases 16 - i
  {
    if i == 16 then []
    else if InList(list, i) then
      ListedCode(load, t, list, i, offset, site, env) + AccessesFrom(load, t, list, i + 1, offset + 4, site, env)
    else AccessesFrom(load, t, list, i + 1, offset, site, env)
  }

  /** `arm_block_memory_offset_*` on the base in S0. */
  function OffsetCode(mode: Mode, count: nat): seq<Word> {
    match mode
    case DownA => [ByteWord(SUB, S0, S0, count * 4 - 4)]
    case DownB => [ByteWord(SUB, S0, S0, count * 4)]
    case Up => []
    case UpPre => [ByteWord(ADD, S0, S0, 4)]
  }

  /** `arm_block_memory_writeback_*`. */
  function WritebackCode(t: Table, mode: Mode, rn: Reg, count: nat): seq<Word> {
    LoadReg(t, A0, rn)
      + [ByteWord(if mode.DownA? || mode.DownB? then SUB else ADD, A0, A0, count * 4)]
      + StoreReg(t, A0, rn)
  }

  /** A load only writes the base back when the base is not in the list. */
  predicate WritesBack(load: bool, writeback: bool, rn: Reg, list: RegList) {
    writeback && !(load && InList(list, rn))
  }

  /** The words before the accesses: the aligned start address in S0, and the write-back. */
  function SetupCode(load: bool, t: Table, mode: Mode, writeback: bool, rn: Reg, list: RegList): seq<Word> {
    LoadReg(t, S0, rn)
      + OffsetCode(mode, WordBitCount(list))
      + (if WritesBack(load, writeback, rn, list) then WritebackCode(t, mode, rn, WordBitCount(list)) else [])
      + [ByteWord(BIC, S0, S0, 3)]
  }

  /** After a loaded r15: the pending cycles, and the jump to the indirect-branch stub at `stub`. */
  function LeaveCode(load: bool, list: RegList, cycles: nat, stub: Word): seq<Word> {
    if load && InList(list, 15) then IndirectCode(cycles, stub) else []
  }

  /** `arm_block_memory` without the S bit. */
  function BlockCode(load: bool, t: Table, mode: Mode, writeback: bool, rn: Reg, list: RegList, pc: Word,
                     env: Env, cycles: nat, stub: Word): seq<Word>
  {
    SetupCode(load, t, mode, writeback, rn, list)
      + AccessesFrom(load, t, list, 0, 0, ArmSite(pc), env)
      + LeaveCode(load, list, cycles, stub)
  }

  // ---------------------------------------------------------------- what the pieces do

  lemma DoesByte(op: Opcode, rd: Reg, rn: Reg, imm: int, env: Env, h: Host)
    requires !IsTest(op) && h.status == Running
    ensures Does([ByteWord(op, rd, rn, imm)], env, h,
                 h.Set(rd, Alu(op, h.regs[rn], imm % 256, h.flags.c, h.flags).value))
  {
    hide Does, Alu, DataProcWord;
    DoesDataProc(op, false, rd, rn, Immediate(imm % 256, 0), env, h);
    RotateZero(imm % 256);
  }

  lemma DoesMove(rd: Reg, rm: Reg, env: Env, h: Host)
    requires h.status == Running
    ensures Does([MoveWord(rd, rm)], env, h, h.Set(rd, h.regs[rm]))
  {
    hide Does, DataProcWord;
    DoesDataProc(MOV, false, rd, 0, ShiftedByImm(rm, LSL, 0), env, h);
  }

  lemma LoadRegDoes(t: Table, ireg: Reg, r: Reg, env: Env, g: Guest, h: Host)
    requires Represents(t, g, h) && IsScratch(ireg) && r != 15
    ensures Does(LoadReg(t, ireg, r), env, h, h.Set(ireg, g.regs[r]))
    ensures Represents(t, g, h.Set(ireg, g.regs[r]))
  {
    hide Does, MoveWord, LoadWord;
    assert GuestReg(t, h, r) == g.regs[r];
    ScratchKeeps(t, g, h, ireg, g.regs[r]);
    if t[r] != MEM_REG {
      DoesMove(ireg, t[r], env, h);
    } else {
      DoesTransfer(true, ireg, SP, SlotOffset(r), env, h);
    }
  }

  lemma LoadRegPcDoes(t: Table, ireg: Reg, r: Reg, pcValue: Word, env: Env, g: Guest, h: Host)
    requires Represents(t, g, h) && IsScratch(ireg)
    ensures var v := GuestValue(g, r, pcValue);
            Does(LoadRegPc(t, ireg, r, pcValue), env, h, h.Set(ireg, v)) && Represents(t, g, h.Set(ireg, v))
  {
    hide Does, LoadReg, LoadConstant;
    if r == 15 {
      LoadConstantExact(ireg, pcValue, env, h);
      ScratchKeeps(t, g, h, ireg, pcValue);
    } else {
      LoadRegDoes(t, ireg, r, env, g, h);
    }
  }

  /** Storing a scratch register into a guest register; a loaded r15 goes to its memory slot. */
  lemma StoreRegDoes(t: Table, ireg: Reg, r: Reg, env: Env, g: Guest, h: Host)
    requires Represents(t, g, h) && IsScratch(ireg)
    ensures var h' := WithGuestReg(t, h, r, h.regs[ireg]);
            && Does(StoreReg(t, ireg, r), env, h, h')
            && Represents(t, g.(regs := g.regs[r := h.regs[ireg]]), h')
            && forall q: Reg :: IsScratch(q) || q == SP ==> h'.regs[q] == h.regs[q]
  {
    hide Does, MoveWord, StoreWord;
    WriteGuestReg(t, g, h, r, h.regs[ireg]);
    if t[r] != MEM_REG {
      DoesMove(t[r], ireg, env, h);
    } else {
      DoesTransfer(false, ireg, SP, SlotOffset(r), env, h);
    }
  }

  /** A helper disturbs no guest register. */
  lemma ClobberKeeps(t: Table, g: Guest, h: Host, env: Env)
    requires Represents(t, g, h)
    ensures Represents(t, g, Clobber(env, h)) && Clobber(env, h).regs[S0] == h.regs[S0]
  {
    var h' := Clobber(env, h);
    forall r: Reg | r < 15 ensures GuestReg(t, h', r) == g.regs[r] {
      assert GuestReg(t, h, r) == g.regs[r];
      SameSlot(h, h', r);
    }
  }

  lemma MemoryKeeps(t: Table, g: Guest, h: Host, m: Memory)
    requires Represents(t, g, h)
    ensures Represents(t, g.(mem := m), h.(mem := m))
  {
    forall r: Reg | r < 15 ensures GuestReg(t, h.(mem := m), r) == g.regs[r] {
      assert GuestReg(t, h, r) == g.regs[r];
    }
  }

  /** Calling a helper: the address is loaded into the link register first. */
  lemma LoadCallDoes(t: Table, data: Word, env: Env, g: Guest, h: Host)
    requires Represents(t, g, h) && env.Valid()
    ensures var h' := HelperLoad(env, h.Set(LR, env.load));
            && Does(Call(env.load) + [data], env, h, h')
            && Represents(t, g, h')
            && h'.regs[A0] == Read(g.mem, h.regs[A0]) && h'.regs[S0] == h.regs[S0]
  {
    hide Does, LoadConstant, CallWord, Clobber;
    var h1 := h.Set(LR, env.load);
    LoadConstantExact(LR, env.load, env, h);
    ScratchKeeps(t, g, h, LR, env.load);
    DoesLoadCall(LR, data, env, h1);
    DoesThen(LoadConstant(LR, env.load), [CallWord(LR), data], env, h, h1, HelperLoad(env, h1));
    assert Call(env.load) + [data] == LoadConstant(LR, env.load) + [CallWord(LR), data];
    ClobberKeeps(t, g, h1, env);
    ScratchKeeps(t, g, Clobber(env, h1), A0, Read(g.mem, h.regs[A0]));
  }

  lemma StoreCallDoes(t: Table, last: bool, data: Word, env: Env, g: Guest, h: Host)
    requires Represents(t, g, h) && env.Valid()
    ensures var h' := HelperStore(env, h.Set(LR, if last then env.store else env.storeSafe));
            && Does(if last then Call(env.store) + [data] else Call(env.storeSafe), env, h, h')
            && Represents(t, g.(mem := g.mem[h.regs[A0] := h.regs[A1]]), h')
            && h'.regs[S0] == h.regs[S0]
  {
    hide Does, LoadConstant, CallWord, Clobber;
    var target := if last then env.store else env.storeSafe;
    var h1 := h.Set(LR, target);
    LoadConstantExact(LR, target, env, h);
    ScratchKeeps(t, g, h, LR, target);
    if last {
      DoesStoreCall(LR, data, env, h1);
      DoesThen(LoadConstant(LR, target), [CallWord(LR), data], env, h, h1, HelperStore(env, h1));
      assert Call(env.store) + [data] == LoadConstant(LR, target) + [CallWord(LR), data];
    } else {
      DoesSafeStoreCall(LR, env, h1);
      DoesThen(LoadConstant(LR, target), [CallWord(LR)], env, h, h1, HelperStore(env, h1));
    }
    ClobberKeeps(t, g, h1, env);
    MemoryKeeps(t, g, Clobber(env, h1), g.mem[h.regs[A0] := h.regs[A1]]);
  }

  /** One access, from the address already in A0. */
  lemma AccessDoes(load: bool, t: Table, i: Reg, last: bool, site: Site, env: Env, g: Guest, h: Host) returns (h': Host)
    requires Represents(t, g, h) && env.Valid()
    ensures Does(AccessCode(load, t, i, last, site, env), env, h, h')
    ensures Represents(t, MoveOne(load, i, h.regs[A0], site.r15, g), h')
    ensures h'.regs[S0] == h.regs[S0]
    ensures load ==> h'.regs[A0] == Read(g.mem, h.regs[A0])
  {
    hide Does, Call, StoreReg, LoadRegPc, HelperLoad, HelperStore, WithGuestReg;
    if load {
      var h1 := HelperLoad(env, h.Set(LR, env.load));
      LoadCallDoes(t, site.afterLoad, env, g, h);
      h' := WithGuestReg(t, h1, i, h1.regs[A0]);
      StoreRegDoes(t, A0, i, env, g, h1);
      DoesThen(Call(env.load) + [site.afterLoad], StoreReg(t, A0, i), env, h, h1, h');
    } else {
      var v := GuestValue(g, i, site.r15);
      LoadRegPcDoes(t, A1, i, site.r15, env, g, h);
      var h1 := h.Set(A1, v);
      StoreCallDoes(t, last && site.checkLast, site.afterStore, env, g, h1);
      h' := HelperStore(env, h1.Set(LR, if last && site.checkLast then env.store else env.storeSafe));
      DoesThen(LoadRegPc(t, A1, i, site.r15),
               if last && site.checkLast then Call(env.store) + [site.afterStore] else Call(env.storeSafe),
               env, h, h1, h');
    }
  }

  /** One listed register: its address from the start in S0, then the access. */
  lemma OneAccessDoes(load: bool, t: Table, list: RegList, i: Reg, start: Word, site: Site, env: Env, g: Guest, h: Host)
    returns (h': Host)
    requires Represents(t, g, h) && env.Valid() && h.regs[S0] == start
    ensures Does(ListedCode(load, t, list, i, 4 * Rank(list, i), site, env), env, h, h')
    ensures var g' := MoveOne(load, i, AddressOf(start, list, i), site.r15, g);
            Represents(t, g', h') && (load ==> h'.regs[A0] == g'.regs[i])
    ensures h'.regs[S0] == start
  {
    hide Does, ByteWord, AccessCode, IsLast, Bit, Rank, Represents;
    var offset, address := 4 * Rank(list, i), AddressOf(start, list, i);
    RankBound(list, 0, i);
    RankOfZero(list);
    RunningWhen(t, g, h);
    ByteAdjust(true, A0, S0, offset, env, h);
    ScratchKeeps(t, g, h, A0, address);
    var h1 := h.Set(A0, address);
    h' := AccessDoes(load, t, i, IsLast(list, i), site, env, g, h1);
    DoesThen([ByteWord(ADD, A0, S0, offset)], AccessCode(load, t, i, IsLast(list, i), site, env), env, h, h1, h');
  }

  lemma RunningWhen(t: Table, g: Guest, h: Host)
    requires Represents(t, g, h)
    ensures h.status == Running
  {}

  lemma RankOfZero(list: RegList)
    ensures Rank(list, 0) == 0
  {}

  lemma RankStep(list: RegList, i: nat)
    ensures Rank(list, i + 1) == Rank(list, i) + if InList(list, i) then 1 else 0
  {
    BitIsBinary(list, i);
  }

  /** All accesses from register `i` on; after a loaded r15 its value is also in A0. */
  lemma {:induction false} AccessesDo(load: bool, t: Table, list: RegList, i: nat, start: Word, site: Site,
                                      env: Env, g: Guest, h: Host) returns (h': Host)
    requires i <= 16 && Represents(t, g, h) && env.Valid() && h.regs[S0] == start
    ensures Does(AccessesFrom(load, t, list, i, 4 * Rank(list, i), site, env), env, h, h')
    ensures Represents(t, MoveFrom(load, list, i, AddressOf(start, list, i), site.r15, g), h')
    ensures i == 16 ==> h' == h
    ensures h'.regs[S0] == start
    ensures i < 16 && load && InList(list, 15) ==>
              h'.regs[A0] == MoveFrom(load, list, i, AddressOf(start, list, i), site.r15, g).regs[15]
    decreases 16 - i
  {
    hide Does, ListedCode, Bit, MoveOne, Rank, AddressOf, Represents;
    if i == 16 {
      DoesNothing(env, h);
      h' := h;
    } else {
      AddressStep(start, list, i);
      RankStep(list, i);
      if InList(list, i) {
        var address := AddressOf(start, list, i);
        var h2 := OneAccessDoes(load, t, list, i, start, site, env, g, h);
        var g1 := MoveOne(load, i, address, site.r15, g);
        h' := AccessesDo(load, t, list, i + 1, start, site, env, g1, h2);
        DoesThen(ListedCode(load, t, list, i, 4 * Rank(list, i), site, env),
                 AccessesFrom(load, t, list, i + 1, 4 * Rank(list, i) + 4, site, env), env, h, h2, h');
      } else {
        h' := AccessesDo(load, t, list, i + 1, start, site, env, g, h);
      }
    }
  }

  // ---------------------------------------------------------------- counting listed registers

  lemma {:induction false} BitCountSplit(v: Word, k: nat)
    ensures BitCount(v) == BitCount(v % Pow2(k)) + BitCount(Shr(v, k))
    decreases k
  {
    hide BitCount, Pow2;
    if k == 0 {
      assert Pow2(k) == 1 by { Pow2One(); }
      assert v % 1 == 0 && v / 1 == v;
      BitCountZero();
    } else {
      var p := Pow2(k - 1);
      Pow2Double(k - 1);
      BitCountSplit(v / 2, k - 1);
      HalfOfMod(v, p);
      BitCountStep(v);
      BitCountStep(v % (2 * p));
    }
  }

  lemma Pow2One()
    ensures Pow2(0) == 1
  {}

  lemma BitCountZero()
    ensures BitCount(0) == 0
  {}

  lemma BitCountStep(v: nat)
    ensures BitCount(v) == v % 2 + BitCount(v / 2)
  {}

  lemma {:induction false} RankShift(v: RegList, k: nat)
    ensures Rank(v, k + 1) == v % 2 + Rank(v / 2, k)
  {
    if k == 0 {
      assert Bit(v, 0) == v % 2;
      assert Rank(v, 1) == Rank(v, 0) + Bit(v, 0);
    } else {
      RankShift(v, k - 1);
      DivDiv(v, 2, Pow2(k - 1));
      assert Bit(v, k) == Bit(v / 2, k - 1);
    }
  }

  lemma {:induction false} BitCountIsRank(v: RegList, k: nat)
    requires v < Pow2(k)
    ensures BitCount(v) == Rank(v, k)
  {
    if k != 0 {
      BitCountIsRank(v / 2, k - 1);
      RankShift(v, k - 1);
      BitCountStep(v);
    }
  }

  /** The table lookup counts the listed registers. */
  lemma CountIsRank(list: RegList)
    ensures WordBitCount(list) == Rank(list, 16) <= 16
  {
    SmallPowers();
    BitCountSplit(list, 8);
    BitCountIsRank(list, 16);
    RankBound(list, 0, 16);
  }

  lemma {:induction false} EmptyMoves(load: bool, list: RegList, i: nat, address: Word, pcStore: Word, g: Guest)
    requires i <= 16 && Rank(list, i) == Rank(list, 16)
    ensures MoveFrom(load, list, i, address, pcStore, g) == g
    decreases 16 - i
  {
    hide Bit, Rank;
    if i < 16 {
      RankStep(list, i);
      RankBound(list, i + 1, 16);
      EmptyMoves(load, list, i + 1, address, pcStore, g);
    }
  }

  // ---------------------------------------------------------------- the setup words

  lemma ByteAdjust(up: bool, rd: Reg, rn: Reg, imm: nat, env: Env, h: Host)
    requires imm < 256 && h.status == Running
    ensures Does([ByteWord(if up then ADD else SUB, rd, rn, imm)], env, h,
                 h.Set(rd, ToWord(if up then h.regs[rn] + imm else h.regs[rn] - imm)))
  {
    hide Does, ByteWord, Alu;
    DoesByte(if up then ADD else SUB, rd, rn, imm, env, h);
    AddOrSubtract(up, h.regs[rn], imm, h.flags.c, h.flags);
  }

  /** The start address, except for an empty DownA list, where it is never used. */
  lemma OffsetDoes(mode: Mode, count: nat, env: Env, h: Host) returns (x: Word)
    requires count <= 16 && h.status == Running
    ensures Does(OffsetCode(mode, count), env, h, h.Set(S0, x))
    ensures count > 0 ==> x == Offset(mode, h.regs[S0], count)
  {
    hide Does, ByteWord;
    var base := h.regs[S0];
    match mode
    case DownA =>
      if count == 0 {
        DoesByte(SUB, S0, S0, -4, env, h);
        x := Alu(SUB, base, -4 % 256, h.flags.c, h.flags).value;
      } else {
        x := ToWord(base - (count * 4 - 4));
        ByteAdjust(false, S0, S0, count * 4 - 4, env, h);
      }
    case DownB =>
      x := ToWord(base - count * 4);
      ByteAdjust(false, S0, S0, count * 4, env, h);
    case Up =>
      x := base;
      DoesNothing(env, h);
      assert h.Set(S0, x) == h;
    case UpPre =>
      x := ToWord(base + 4);
      ByteAdjust(true, S0, S0, 4, env, h);
  }

  lemma WritebackDoes(t: Table, mode: Mode, rn: Reg, count: nat, env: Env, g: Guest, h: Host) returns (h': Host)
    requires Represents(t, g, h) && rn != 15 && count <= 16
    ensures Does(WritebackCode(t, mode, rn, count), env, h, h')
    ensures Represents(t, g.(regs := g.regs[rn := Written(mode, g.regs[rn], count)]), h')
    ensures h'.regs[S0] == h.regs[S0]
  {
    hide Does, LoadReg, StoreReg, ByteWord, WithGuestReg;
    var up := !(mode.DownA? || mode.DownB?);
    var w := Written(mode, g.regs[rn], count);
    LoadRegDoes(t, A0, rn, env, g, h);
    var h1 := h.Set(A0, g.regs[rn]);
    ByteAdjust(up, A0, A0, count * 4, env, h1);
    ScratchKeeps(t, g, h1, A0, w);
    var h2 := h1.Set(A0, w);
    StoreRegDoes(t, A0, rn, env, g, h2);
    h' := WithGuestReg(t, h2, rn, w);
    var c := [ByteWord(if up then ADD else SUB, A0, A0, count * 4)];
    DoesThen(LoadReg(t, A0, rn), c, env, h, h1, h2);
    DoesThen(LoadReg(t, A0, rn) + c, StoreReg(t, A0, rn), env, h, h2, h');
  }

  lemma AlignDoes(env: Env, h: Host)
    requires h.status == Running
    ensures Does([ByteWord(BIC, S0, S0, 3)], env, h, h.Set(S0, Align(h.regs[S0])))
  {
    hide Does, ByteWord, Words.And, Not;
    DoesByte(BIC, S0, S0, 3, env, h);
    AndNotThree(h.regs[S0]);
  }

  /** The guest after the write-back the emitted code does. */
  function AfterWriteback(load: bool, mode: Mode, writeback: bool, rn: Reg, list: RegList, g: Guest): Guest {
    if WritesBack(load, writeback, rn, list) then
      g.(regs := g.regs[rn := Written(mode, g.regs[rn], WordBitCount(list))])
    else g
  }

  lemma SetupDoes(load: bool, t: Table, mode: Mode, writeback: bool, rn: Reg, list: RegList,
                  env: Env, g: Guest, h: Host) returns (h': Host)
    requires Represents(t, g, h) && rn != 15
    ensures Does(SetupCode(load, t, mode, writeback, rn, list), env, h, h')
    ensures Represents(t, AfterWriteback(load, mode, writeback, rn, list, g), h')
    ensures WordBitCount(list) > 0 ==> h'.regs[S0] == Align(Offset(mode, g.regs[rn], WordBitCount(list)))
  {
    hide Does, LoadReg, StoreReg, ByteWord, WordBitCount, Offset, Written, OffsetCode, WritebackCode, Align, Bit;
    CountIsRank(list);
    var count := WordBitCount(list);
    LoadRegDoes(t, S0, rn, env, g, h);
    var h1 := h.Set(S0, g.regs[rn]);
    var x := OffsetDoes(mode, count, env, h1);
    var h2 := h1.Set(S0, x);
    ScratchKeeps(t, g, h1, S0, x);
    var g1, h3 := g, h2;
    var wb := if WritesBack(load, writeback, rn, list) then WritebackCode(t, mode, rn, count) else [];
    if WritesBack(load, writeback, rn, list) {
      h3 := WritebackDoes(t, mode, rn, count, env, g, h2);
      g1 := g.(regs := g.regs[rn := Written(mode, g.regs[rn], count)]);
    } else {
      DoesNothing(env, h2);
    }
    h' := h3.Set(S0, Align(x));
    AlignDoes(env, h3);
    ScratchKeeps(t, g1, h3, S0, Align(x));
    var c1, c2 := LoadReg(t, S0, rn), OffsetCode(mode, count);
    DoesThen(c1, c2, env, h, h1, h2);
    DoesThen(c1 + c2, wb, env, h, h2, h3);
    DoesThen(c1 + c2 + wb, [ByteWord(BIC, S0, S0, 3)], env, h, h3, h');
  }

  /** A written-back base that is also loaded ends with the loaded value either way. */
  lemma {:induction false} LoadedBase(list: RegList, i: nat, address: Word, pcStore: Word, g: Guest, rn: Reg, v: Word)
    requires i <= rn && InList(list, rn)
    ensures MoveFrom(true, list, i, address, pcStore, g.(regs := g.regs[rn := v]))
         == MoveFrom(true, list, i, address, pcStore, g)
    decreases 16 - i
  {
    hide Bit;
    var g1 := g.(regs := g.regs[rn := v]);
    if i == rn {
      assert MoveOne(true, i, address, pcStore, g1) == MoveOne(true, i, address, pcStore, g);
    } else if InList(list, i) {
      var m := MoveOne(true, i, address, pcStore, g);
      assert MoveOne(true, i, address, pcStore, g1) == m.(regs := m.regs[rn := v]);
      LoadedBase(list, i + 1, ToWord(address + 4), pcStore, m, rn, v);
    } else {
      LoadedBase(list, i + 1, address, pcStore, g, rn, v);
    }
  }

  lemma LeaveDoes(t: Table, list: RegList, load: bool, cycles: nat, stub: Word, env: Env, g: Guest, h: Host)
    returns (h': Host)
    requires Represents(t, g, h)
    ensures Does(LeaveCode(load, list, cycles, stub), env, h, h')
    ensures Stands(t, g, h') && h'.regs[A0] == h.regs[A0]
    ensures h'.status == if load && InList(list, 15) then Left(stub) else Running
  {
    hide Does, IndirectCode, Bit;
    if load && InList(list, 15) {
      h' := IndirectDoes(t, cycles, stub, env, g, h);
    } else {
      DoesNothing(env, h);
      h' := h;
      assert h.(status := Running) == h;
    }
  }

  /**
   LDM and STM are refined: for every register list, address mode and write-back, with the base in the
   list or not, the emitted words take a representation of the guest to a representation of the guest
   after the interpreter's block transfer. A load of r15 ends at the branch stub with the new pc in A0.
   */
  lemma BlockTransferRefines(load: bool, t: Table, mode: Mode, writeback: bool, rn: Reg, list: RegList, pc: Word,
                             env: Env, cycles: nat, stub: Word, g: Guest, h: Host) returns (h': Host)
    requires Represents(t, g, h) && env.Valid() && rn != 15
    ensures Does(BlockCode(load, t, mode, writeback, rn, list, pc, env, cycles, stub), env, h, h')
    ensures Run(BlockCode(load, t, mode, writeback, rn, list, pc, env, cycles, stub), env, h) == h'
    ensures Stands(t, Interpret(load, mode, writeback, rn, list, pc, g), h')
    ensures h'.status == if load && InList(list, 15) then Left(stub) else Running
    ensures load && InList(list, 15) ==>
              h'.regs[A0] == Interpret(load, mode, writeback, rn, list, pc, g).regs[15]
  {
    hide Does, Run, SetupCode, AccessesFrom, LeaveCode, WordBitCount, Offset, Written, Align, Bit, MoveFrom, Represents,
         AddressOf, Rank;
    var g1 := AfterWriteback(load, mode, writeback, rn, list, g);
    var h1 := SetupDoes(load, t, mode, writeback, rn, list, env, g, h);
    var start := h1.regs[S0];
    AddressStep(start, list, 0);
    RankOfZero(list);
    var h2 := AccessesDo(load, t, list, 0, start, ArmSite(pc), env, g1, h1);
    var g2 := MoveFrom(load, list, 0, start, ToWord(pc + 8), g1);
    h' := LeaveDoes(t, list, load, cycles, stub, env, g2, h2);
    var c1, c2 := SetupCode(load, t, mode, writeback, rn, list), AccessesFrom(load, t, list, 0, 0, ArmSite(pc), env);
    DoesThen(c1, c2, env, h, h1, h2);
    DoesThen(c1 + c2, LeaveCode(load, list, cycles, stub), env, h, h2, h');
    DoesAll(BlockCode(load, t, mode, writeback, rn, list, pc, env, cycles, stub), env, h, h');
    SameMoves(load, mode, writeback, rn, list, pc, g, start);
  }

  /** The emitted order of write-back and accesses gives the interpreter's guest. */
  lemma SameMoves(load: bool, mode: Mode, writeback: bool, rn: Reg, list: RegList, pc: Word, g: Guest, start: Word)
    requires WordBitCount(list) > 0 ==> start == Align(Offset(mode, g.regs[rn], WordBitCount(list)))
    ensures MoveFrom(load, list, 0, start, ToWord(pc + 8), AfterWriteback(load, mode, writeback, rn, list, g))
         == Interpret(load, mode, writeback, rn, list, pc, g)
  {
    hide WordBitCount, Offset, Written, Align, Bit, MoveFrom, Rank;
    var first := Align(Offset(mode, g.regs[rn], WordBitCount(list)));
    var g1 := AfterWriteback(load, mode, writeback, rn, list, g);
    if WordBitCount(list) == 0 {
      CountIsRank(list);
      RankOfZero(list);
      EmptyMoves(load, list, 0, start, ToWord(pc + 8), g1);
      EmptyMoves(load, list, 0, first, ToWord(pc + 8), g1);
    }
    if writeback && !WritesBack(load, writeback, rn, list) {
      LoadedBase(list, 0, first, ToWord(pc + 8), g, rn, Written(mode, g.regs[rn], WordBitCount(list)));
      if WordBitCount(list) == 0 {
        EmptyMoves(load, list, 0, first, ToWord(pc + 8), g);
      }
    }
  }
}
