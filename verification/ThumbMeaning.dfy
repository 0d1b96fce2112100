/** What each Thumb block transfer does to registers and memory, and the round trips of PUSH and POP. */
module ThumbMeaning {
  import opened Words
  import opened InstructionWords
  import opened HostMachine
  import opened Translation
  import opened BlockTransfer
  import opened ThumbBlocks
  import opened BlockMeaning

  /** Each listed register of `g` is at its own word from `start` on, and no other word has changed. */
  ghost predicate StoredFrom(list: LowList, start: Word, n: nat, g: Guest, mem: Memory) {
    && (forall r: LowReg :: InList(list, r) ==> Read(mem, ToWord(start + 4 * Rank(list, r))) == g.regs[r])
    && forall a: Word :: (forall k: nat :: k < n ==> a != ToWord(start + 4 * k)) ==> Read(mem, a) == Read(g.mem, a)
  }

  lemma StoresFrom(list: LowList, start: Word, g: Guest)
    ensures var g' := MoveFrom(false, list, 0, start, 0, g);
      g'.regs == g.regs && g'.flags == g.flags && StoredFrom(list, start, BitCount(list), g, g'.mem)
  {
    hide Bit, MoveFrom, BitCount, Rank, Read;
    LowCount(list);
    RankOfZero(list);
    AddressStep(start, list, 0);
    StoreMeaning(list, 0, start, 0, g);
    var g', n := MoveFrom(false, list, 0, start, 0, g), BitCount(list);
    forall r: LowReg | InList(list, r) ensures Read(g'.mem, ToWord(start + 4 * Rank(list, r))) == g.regs[r] {
      assert AddressOf(start, list, r) == ToWord(start + 4 * Rank(list, r));
    }
    forall a: Word | forall k: nat :: k < n ==> a != ToWord(start + 4 * k) ensures Read(g'.mem, a) == Read(g.mem, a) {
      forall r: Reg | InList(list, r) ensures a != AddressOf(start, list, r) {
        RankBound(list, r, 16);
        assert Rank(list, r) < n;
      }
    }
  }

  /** Each listed register is loaded from its own word from `start` on. */
  lemma LoadsFrom(list: LowList, start: Word, g: Guest)
    ensures var g' := MoveFrom(true, list, 0, start, 0, g);
      && g'.mem == g.mem && g'.flags == g.flags
      && forall r: Reg :: g'.regs[r] ==
           if r < 8 && InList(list, r) then Read(g.mem, ToWord(start + 4 * Rank(list, r))) else g.regs[r]
  {
    hide Bit, MoveFrom, Rank, Read;
    RankOfZero(list);
    AddressStep(start, list, 0);
    LoadMeaning(list, 0, start, 0, g);
    var g' := MoveFrom(true, list, 0, start, 0, g);
    forall r: Reg ensures g'.regs[r] ==
      if r < 8 && InList(list, r) then Read(g.mem, ToWord(start + 4 * Rank(list, r))) else g.regs[r]
    {
      if r >= 8 { HighBitsClear(list, r); }
      assert AddressOf(start, list, r) == ToWord(start + 4 * Rank(list, r));
    }
  }

  // ---------------------------------------------------------------- the six forms

  /** PUSH {list}: SP moves down one word for each register, and they are stored upwards from it. */
  lemma PushListMeaning(list: LowList, g: Guest)
    ensures var p, n := InterpretThumb(Push, list, g), BitCount(list);
      var sp := (g.regs[13] - g.regs[13] % 4 - 4 * n) % 0x1_0000_0000;
      p.regs == g.regs[13 := sp] && p.flags == g.flags && StoredFrom(list, sp, n, g, p.mem)
  {
    hide MoveFrom, BitCount, Bit, StoredFrom;
    StoresFrom(list, Start(Push, list, g.regs[13]), g);
  }

  /** PUSH {list, LR}: the same with one word more, which holds LR. */
  lemma PushLinkMeaning(list: LowList, g: Guest)
    ensures var p, n := InterpretThumb(PushLr, list, g), BitCount(list);
      var sp := (g.regs[13] - g.regs[13] % 4 - 4 * (n + 1)) % 0x1_0000_0000;
      && p.regs == g.regs[13 := sp] && p.flags == g.flags && StoredFrom(list, sp, n + 1, g, p.mem)
      && Read(p.mem, ToWord(sp + 4 * n)) == g.regs[14]
  {
    hide MoveFrom, BitCount, Bit, StoredFrom, Read;
    var start := Start(PushLr, list, g.regs[13]);
    StoresFrom(list, start, g);
    LinkStored(list, start, g, MoveFrom(false, list, 0, start, 0, g).mem, g.regs[14]);
  }

  lemma LinkStored(list: LowList, start: Word, g: Guest, mem: Memory, v: Word)
    requires StoredFrom(list, start, BitCount(list), g, mem)
    ensures var a := ToWord(start + 4 * BitCount(list));
      StoredFrom(list, start, BitCount(list) + 1, g, mem[a := v]) && Read(mem[a := v], a) == v
  {
    hide BitCount, Bit, Rank, ToWord;
    var n := BitCount(list);
    var last := ToWord(start + 4 * n);
    LowCount(list);
    forall r: LowReg | InList(list, r) ensures ToWord(start + 4 * Rank(list, r)) != last {
      AddressesDiffer(start, list, r, 16);
    }
    forall a: Word | forall k: nat :: k < n + 1 ==> a != ToWord(start + 4 * k)
      ensures Read(mem[last := v], a) == Read(g.mem, a)
    {
      assert a != ToWord(start + 4 * n);
    }
  }

  /** POP {list}: the registers are loaded upwards from SP, which moves past them; memory is unchanged. */
  lemma PopListMeaning(list: LowList, g: Guest)
    ensures var p, sp := InterpretThumb(Pop, list, g), g.regs[13] - g.regs[13] % 4;
      && p.mem == g.mem && p.flags == g.flags
      && forall r: Reg :: p.regs[r] ==
           if r < 8 && InList(list, r) then Read(g.mem, ToWord(sp + 4 * Rank(list, r)))
           else if r == 13 then (sp + 4 * BitCount(list)) % 0x1_0000_0000 else g.regs[r]
  {
    hide MoveFrom, BitCount, Bit, Rank, Read;
    LoadsFrom(list, Start(Pop, list, g.regs[13]), g);
    HighBitsClear(list, 13);
  }

  /** POP {list, PC}: the same with one word more, which goes to PC without its low bit. */
  lemma PopLinkMeaning(list: LowList, g: Guest)
    ensures var p, sp, n := InterpretThumb(PopPc, list, g), g.regs[13] - g.regs[13] % 4, BitCount(list);
      var link := Read(g.mem, ToWord(sp + 4 * n));
      && p.mem == g.mem && p.flags == g.flags
      && forall r: Reg :: p.regs[r] ==
           if r < 8 && InList(list, r) then Read(g.mem, ToWord(sp + 4 * Rank(list, r)))
           else if r == 13 then (sp + 4 * (n + 1)) % 0x1_0000_0000
           else if r == 15 then link - link % 2 else g.regs[r]
  {
    hide MoveFrom, BitCount, Bit, Rank, Read;
    LoadsFrom(list, Start(PopPc, list, g.regs[13]), g);
    HighBitsClear(list, 13);
  }

  /** STMIA rb!, {list}: the registers are stored upwards from rb, which moves past them. */
  lemma StoreUpMeaning(b: LowReg, list: LowList, g: Guest)
    ensures var p, start, n := InterpretThumb(StoreUp(b), list, g), g.regs[b] - g.regs[b] % 4, BitCount(list);
      && p.regs == g.regs[b := (start + 4 * n) % 0x1_0000_0000] && p.flags == g.flags
      && StoredFrom(list, start, n, g, p.mem)
  {
    hide MoveFrom, BitCount, Bit, StoredFrom;
    StoresFrom(list, Start(StoreUp(b), list, g.regs[b]), g);
  }

  /** LDMIA rb!, {list}: they are loaded upwards from rb, which moves past them unless it is loaded itself. */
  lemma LoadUpMeaning(b: LowReg, list: LowList, g: Guest)
    ensures var p, start := InterpretThumb(LoadUp(b), list, g), g.regs[b] - g.regs[b] % 4;
      && p.mem == g.mem && p.flags == g.flags
      && forall r: Reg :: p.regs[r] ==
           if r < 8 && InList(list, r) then Read(g.mem, ToWord(start + 4 * Rank(list, r)))
           else if r == b then (start + 4 * BitCount(list)) % 0x1_0000_0000 else g.regs[r]
  {
    hide MoveFrom, BitCount, Bit, Rank, Read;
    LoadsFrom(list, Start(LoadUp(b), list, g.regs[b]), g);
  }

  // ---------------------------------------------------------------- round trips

  /**
   PUSH {list} and a later POP {list} that finds the stack pointer and the pushed words as PUSH left them:
   every listed register has its value back, and SP is the aligned SP from before.
   */
  lemma PushPopList(list: LowList, g: Guest, later: Guest)
    requires StackKept(BitCount(list), InterpretThumb(Push, list, g), later)
    ensures var popped := InterpretThumb(Pop, list, later);
      && (forall r: LowReg :: InList(list, r) ==> popped.regs[r] == g.regs[r])
      && popped.regs[13] == g.regs[13] - g.regs[13] % 4
  {
    hide Bit, BitCount, Rank, InterpretThumb, Read, ToWord;
    var pushed, popped := InterpretThumb(Push, list, g), InterpretThumb(Pop, list, later);
    PushListMeaning(list, g);
    PopListMeaning(list, later);
    LowCount(list);
    AlignedBelow(g.regs[13], BitCount(list));
    forall r: LowReg | InList(list, r) ensures popped.regs[r] == g.regs[r] {
      RankBound(list, r, 16);
      var k := Rank(list, r);
      assert Read(later.mem, ToWord(pushed.regs[13] + 4 * k)) == Read(pushed.mem, ToWord(pushed.regs[13] + 4 * k));
    }
  }

  lemma AlignedBelow(sp: Word, n: nat)
    requires n <= 8
    ensures var low: int := (sp - sp % 4 - 4 * n) % 0x1_0000_0000; (low + 4 * n) % 0x1_0000_0000 == sp - sp % 4
    ensures (sp - sp % 4 - 4 * n) % 0x1_0000_0000 % 4 == 0
  {
    var x: int := sp - sp % 4;
    assert (x - 4 * n) % 0x1_0000_0000 == if x >= 4 * n then x - 4 * n else x - 4 * n + 0x1_0000_0000;
    assert x % 4 == 0;
  }

  // ---------------------------------------------------------------- the emitted calls

  /**
   The words after the calls: without LR, a PUSH or STMIA ends with the checking store helper and the address
   of the next instruction; with LR no store is checked; a load is followed by the address after the next.
   */
  lemma ThumbCallsFollowed(t: Table, form: Form, list: LowList, i: LowReg, pc: Word, env: Env)
    requires list != 0
    ensures form.Push? || form.StoreUp? ==>
              EndsWith(AccessesFrom(false, t, list, 0, 0, ThumbSite(form, pc), env),
                       Call(env.store) + [(pc + 2) % 0x1_0000_0000])
    ensures form.PushLr? ==> EndsWith(AccessesFrom(false, t, list, 0, 0, ThumbSite(form, pc), env), Call(env.storeSafe))
    ensures AccessCode(true, t, i, IsLast(list, i), ThumbSite(form, pc), env)
         == Call(env.load) + [(pc + 4) % 0x1_0000_0000] + StoreReg(t, A0, i)
  {
    hide Call, StoreReg, AccessesFrom, Bit, IsLast;
    var j: nat :| InList(list, j) by { SomeListed(list); }
    if j >= 16 { NotListed(list, j); }
    StoresEnd(t, list, 0, j, 0, ThumbSite(form, pc), env);
  }
}
