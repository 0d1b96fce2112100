/**
 Thumb block transfers (PUSH, POP, LDMIA, STMIA): interpreter, emitted code, the call/return round trip,
 and the one form on which emitter and interpreter differ.
 */
module ThumbBlocks {
  import opened Words
  import opened InstructionWords
  import opened HostMachine
  import opened Translation
  import opened BlockTransfer

  type LowList = l: int | 0 <= l < 0x100

  type LowReg = r: int | 0 <= r < 8

  datatype Form = Push | PushLr | Pop | PopPc | StoreUp(base: LowReg) | LoadUp(base: LowReg) {
    function Base(): Reg { if StoreUp? || LoadUp? then base else 13 }

    predicate Loads() { Pop? || PopPc? || LoadUp? }
  }

  /** The first address: `thumb_block_address_preadjust_*` on the aligned base. */
  function Start(form: Form, list: LowList, base: Word): Word {
    match form
    case Push => ToWord(Align(base) - BitCount(list) * 4)
    case PushLr => ToWord(Align(base) - (BitCount(list) + 1) * 4)
    case _ => Align(base)
  }

  /** The final base: `thumb_block_address_postadjust_*`. */
  function Final(form: Form, list: LowList, base: Word): Word {
    match form
    case Push => Start(form, list, base)
    case PushLr => Start(form, list, base)
    case PopPc => ToWord(Start(form, list, base) + (BitCount(list) + 1) * 4)
    case _ => ToWord(Start(form, list, base) + BitCount(list) * 4)
  }

  /** The address after the listed registers, where LR is pushed and PC popped. */
  function LinkAddress(form: Form, list: LowList, base: Word): Word {
    ToWord(Start(form, list, base) + BitCount(list) * 4)
  }

  /** The pushed LR or the popped PC. */
  function MoveLink(form: Form, address: Word, g: Guest): Guest {
    if form.PushLr? then g.(mem := g.mem[address := g.regs[14]])
    else if form.PopPc? then g.(regs := g.regs[15 := Read(g.mem, address) - Read(g.mem, address) % 2])
    else g
  }

  /** `thumb_block_memory` of the interpreter: the base is written last, and not after loading it. */
  function InterpretThumb(form: Form, list: LowList, g: Guest): Guest {
    var rb := form.Base();
    var base := g.regs[rb];
    var g1 := MoveFrom(form.Loads(), list, 0, Start(form, list, base), 0, g);
    var g2 := MoveLink(form, LinkAddress(form, list, base), g1);
    if form.Loads() && InList(list, rb) then g2
    else g2.(regs := g2.regs[rb := Final(form, list, base)])
  }

  /** What the emitted code does: the base is written first, always. */
  function EmittedThumb(form: Form, list: LowList, g: Guest): Guest {
    var rb := form.Base();
    var base := g.regs[rb];
    var g1 := g.(regs := g.regs[rb := Final(form, list, base)]);
    MoveLink(form, LinkAddress(form, list, base), MoveFrom(form.Loads(), list, 0, Start(form, list, base), 0, g1))
  }

  // ---------------------------------------------------------------- interpreter and emitter

  lemma HighBitsClear(list: LowList, i: nat)
    requires i >= 8
    ensures !InList(list, i)
  {
    SmallPowers();
    Pow2Monotone(8, i);
    hide Pow2;
    DivUnique(list, Pow2(i), 0, list);
  }

  /** A base outside the list may be written before or after the transfer. */
  lemma {:induction false} BaseCommutes(load: bool, list: RegList, i: nat, address: Word, g: Guest, rn: Reg, v: Word)
    requires i <= 16 && !InList(list, rn)
    ensures MoveFrom(load, list, i, address, 0, g.(regs := g.regs[rn := v])) ==
            var m := MoveFrom(load, list, i, address, 0, g); m.(regs := m.regs[rn := v])
    decreases 16 - i
  {
    hide Bit;
    if i < 16 {
      var g1 := g.(regs := g.regs[rn := v]);
      if InList(list, i) {
        var m := MoveOne(load, i, address, 0, g);
        assert MoveOne(load, i, address, 0, g1) == m.(regs := m.regs[rn := v]) by {
          assert g.regs[rn := v][i := Read(g.mem, address)] == g.regs[i := Read(g.mem, address)][rn := v];
        }
        BaseCommutes(load, list, i + 1, ToWord(address + 4), m, rn, v);
      } else {
        BaseCommutes(load, list, i + 1, address, g, rn, v);
      }
    }
  }

  /** A store-multiple with its base in the list. */
  predicate StoresBase(form: Form, list: LowList) { form.StoreUp? && InList(list, form.base) }

  /**
   Emitter and interpreter agree on every form and list except a store-multiple whose base is in the
   list: there the emitter stores the written-back base and the interpreter the original one.
   */
  lemma ThumbAgreement(form: Form, list: LowList, g: Guest)
    ensures EmittedThumb(form, list, g) == InterpretThumb(form, list, g) <==> !StoresBase(form, list)
  {
    hide Bit, MoveFrom, Start, Final, BitCount;
    var rb := form.Base();
    var base := g.regs[rb];
    var v, start := Final(form, list, base), Start(form, list, base);
    HighBitsClear(list, 13);
    if StoresBase(form, list) {
      StoredBaseDiffers(form, list, g);
    } else if InList(list, rb) {
      LoadedBase(list, 0, start, 0, g, rb, v);
    } else {
      BaseCommutes(form.Loads(), list, 0, start, g, rb, v);
      var m := MoveFrom(form.Loads(), list, 0, start, 0, g);
      var a := LinkAddress(form, list, base);
      var p := Read(m.mem, a) - Read(m.mem, a) % 2;
      assert m.regs[rb := v][15 := p] == m.regs[15 := p][rb := v];
    }
  }

  /** What a store leaves at a listed register's address is that register. */
  lemma StoredAt(list: LowList, start: Word, r: LowReg, g: Guest)
    requires InList(list, r)
    ensures Read(MoveFrom(false, list, 0, start, 0, g).mem, AddressOf(start, list, r)) == g.regs[r]
  {
    hide Bit, MoveFrom, AddressOf, Read;
    AddressStep(start, list, 0);
    StoreMeaning(list, 0, start, 0, g);
  }

  lemma ListedCount(list: LowList, r: LowReg)
    requires InList(list, r)
    ensures 1 <= BitCount(list) <= 8
  {
    hide Bit, BitCount;
    LowCount(list);
    RankBound(list, r, 16);
    RankBound(list, 0, r);
    RankOfZero(list);
  }

  /** The word stored for the base is the new base in one and the old base in the other. */
  lemma StoredBaseDiffers(form: Form, list: LowList, g: Guest)
    requires StoresBase(form, list)
    ensures EmittedThumb(form, list, g).mem != InterpretThumb(form, list, g).mem
  {
    hide Bit, MoveFrom, BitCount, AddressOf, Read, Start;
    var rb := form.base;
    var base := g.regs[rb];
    var v, start := Final(form, list, base), Start(form, list, base);
    StoredAt(list, start, rb, g);
    StoredAt(list, start, rb, g.(regs := g.regs[rb := v]));
    ListedCount(list, rb);
    NewBaseDiffers(base, BitCount(list));
    assert start == Align(base) by { UpStart(form, list, base); }
  }

  lemma UpStart(form: Form, list: LowList, base: Word)
    requires form.StoreUp?
    ensures Start(form, list, base) == Align(base)
  {}

  lemma NewBaseDiffers(base: Word, count: nat)
    requires 1 <= count <= 8
    ensures ToWord(Align(base) + count * 4) != base
  {}

  lemma {:induction false} LowCount(list: LowList)
    ensures BitCount(list) == Rank(list, 16) <= 8
  {
    SmallPowers();
    BitCountIsRank(list, 8);
    RankBound(list, 0, 8);
    RankOfZero(list);
    CountIsRank(list);
    assert list / 256 == 0 && list % 256 == list;
    BitCountZero();
  }

  // ---------------------------------------------------------------- the call/return round trip

  /** PUSH {list, LR}: the listed registers in order upwards from the new stack pointer, then LR. */
  lemma PushMeaning(list: LowList, g: Guest)
    ensures var pushed := InterpretThumb(PushLr, list, g);
            var sp := pushed.regs[13];
            && sp == ToWord(Align(g.regs[13]) - (BitCount(list) + 1) * 4)
            && (forall r: LowReg :: InList(list, r) ==> Read(pushed.mem, ToWord(sp + 4 * Rank(list, r))) == g.regs[r])
            && Read(pushed.mem, ToWord(sp + 4 * BitCount(list))) == g.regs[14]
  {
    hide Bit, MoveFrom, BitCount, Rank, Align;
    LowCount(list);
    RankOfZero(list);
    var start := Start(PushLr, list, g.regs[13]);
    AddressStep(start, list, 0);
    StoreMeaning(list, 0, start, 0, g);
    var stored := MoveFrom(false, list, 0, start, 0, g);
    var pushed := InterpretThumb(PushLr, list, g);
    forall r: LowReg | InList(list, r) ensures Read(pushed.mem, ToWord(start + 4 * Rank(list, r))) == g.regs[r] {
      AddressesDiffer(start, list, r, 16);
      assert Read(stored.mem, AddressOf(start, list, r)) == g.regs[r];
    }
  }

  /** POP {list, PC}: the same words back, PC without its low bit. */
  lemma PopMeaning(list: LowList, g: Guest)
    ensures var popped := InterpretThumb(PopPc, list, g);
            var sp := Align(g.regs[13]);
            var link := Read(g.mem, ToWord(sp + 4 * BitCount(list)));
            && (forall r: LowReg :: InList(list, r) ==> popped.regs[r] == Read(g.mem, ToWord(sp + 4 * Rank(list, r))))
            && popped.regs[15] == link - link % 2
            && popped.regs[13] == ToWord(sp + (BitCount(list) + 1) * 4)
  {
    hide Bit, MoveFrom, BitCount, Rank, Align;
    LowCount(list);
    RankOfZero(list);
    HighBitsClear(list, 13);
    var start := Start(PopPc, list, g.regs[13]);
    AddressStep(start, list, 0);
    LoadMeaning(list, 0, start, 0, g);
    var popped := InterpretThumb(PopPc, list, g);
    forall r: LowReg | InList(list, r) ensures popped.regs[r] == Read(g.mem, ToWord(start + 4 * Rank(list, r))) {
      assert AddressOf(start, list, r) == ToWord(start + 4 * Rank(list, r));
    }
  }

  /** The stack pointer and the `n` words above it are the same. */
  predicate StackKept(n: nat, pushed: Guest, later: Guest) {
    && later.regs[13] == pushed.regs[13]
    && forall k: nat :: k < n ==>
         Read(later.mem, ToWord(pushed.regs[13] + 4 * k)) == Read(pushed.mem, ToWord(pushed.regs[13] + 4 * k))
  }

  /** The listed registers and the stack pointer are those of `g`, and PC is its LR with bit 0 clear. */
  predicate Returned(list: LowList, g: Guest, popped: Guest) {
    && (forall r: LowReg :: InList(list, r) ==> popped.regs[r] == g.regs[r])
    && popped.regs[15] == g.regs[14] - g.regs[14] % 2
    && popped.regs[13] == Align(g.regs[13])
  }

  /**
   PUSH {list, LR} and a later POP {list, PC}: whatever happened in between, if the stack pointer and the
   pushed words are as PUSH left them, every listed register has its value back, PC is the saved LR with
   bit 0 clear, and SP is the aligned SP from before the PUSH.
   */
  lemma PushPopRoundTrip(list: LowList, g: Guest, later: Guest)
    requires StackKept(BitCount(list) + 1, InterpretThumb(PushLr, list, g), later)
    ensures Returned(list, g, InterpretThumb(PopPc, list, later))
  {
    hide Bit, BitCount, Rank, InterpretThumb, Align, Read, ToWord;
    var sp, count := g.regs[13], BitCount(list);
    var pushed, popped := InterpretThumb(PushLr, list, g), InterpretThumb(PopPc, list, later);
    PushMeaning(list, g);
    PopMeaning(list, later);
    AlignedStart(sp, count);
    StackRestored(sp, count);
    LowCount(list);
    forall r: LowReg | InList(list, r) ensures popped.regs[r] == g.regs[r] {
      RankBound(list, r, 16);
      var k := Rank(list, r);
      assert Read(later.mem, ToWord(pushed.regs[13] + 4 * k)) == Read(pushed.mem, ToWord(pushed.regs[13] + 4 * k));
    }
    assert Read(later.mem, ToWord(pushed.regs[13] + 4 * count)) == Read(pushed.mem, ToWord(pushed.regs[13] + 4 * count));
  }

  lemma AlignedStart(sp: Word, count: nat)
    ensures Align(ToWord(Align(sp) - (count + 1) * 4)) == ToWord(Align(sp) - (count + 1) * 4)
  {}

  lemma StackRestored(sp: Word, count: nat)
    ensures ToWord(ToWord(Align(sp) - (count + 1) * 4) + (count + 1) * 4) == Align(sp)
  {}

  // ---------------------------------------------------------------- the emitted code

  function PreadjustCode(form: Form, list: LowList): seq<Word> {
    match form
    case Push => [ByteWord(SUB, S0, S0, BitCount(list) * 4)]
    case PushLr => [ByteWord(SUB, S0, S0, (BitCount(list) + 1) * 4)]
    case _ => []
  }

  function PostadjustCode(t: Table, form: Form, list: LowList): seq<Word> {
    match form
    case Push => StoreReg(t, S0, 13)
    case PushLr => StoreReg(t, S0, 13)
    case PopPc => [ByteWord(ADD, A0, S0, (BitCount(list) + 1) * 4)] + StoreReg(t, A0, 13)
    case _ => [ByteWord(ADD, A0, S0, BitCount(list) * 4)] + StoreReg(t, A0, form.Base())
  }

  /** r15 is never in a Thumb list; with LR or PC to follow, the last listed register is not the last access. */
  function ThumbSite(form: Form, pc: Word): Site {
    Site(0, ToWord(pc + 4), ToWord(pc + 2), !form.PushLr? && !form.PopPc?)
  }

  /** `thumb_block_memory_extra_*`. */
  function ExtraCode(t: Table, form: Form, list: LowList, pc: Word, env: Env, cycles: nat, stub: Word): seq<Word> {
    match form
    case PushLr => [ByteWord(ADD, A0, S0, BitCount(list) * 4)] + (LoadReg(t, A1, 14) + Call(env.storeSafe))
    case PopPc =>
      [ByteWord(ADD, A0, S0, BitCount(list) * 4)]
        + ((Call(env.load) + [ToWord(pc + 4)]) + IndirectCode(cycles, stub))
    case _ => []
  }

  function ThumbSetup(t: Table, form: Form, list: LowList): seq<Word> {
    LoadReg(t, S0, form.Base()) + [ByteWord(BIC, S0, S0, 3)] + PreadjustCode(form, list)
      + PostadjustCode(t, form, list)
  }

  /** `thumb_block_memory` of the emitter. */
  function ThumbCode(t: Table, form: Form, list: LowList, pc: Word, env: Env, cycles: nat, stub: Word): seq<Word> {
    ThumbSetup(t, form, list)
      + AccessesFrom(form.Loads(), t, list, 0, 0, ThumbSite(form, pc), env)
      + ExtraCode(t, form, list, pc, env, cycles, stub)
  }

  lemma PreadjustDoes(form: Form, list: LowList, base: Word, env: Env, h: Host)
    requires h.status == Running && h.regs[S0] == Align(base)
    ensures Does(PreadjustCode(form, list), env, h, h.Set(S0, Start(form, list, base)))
  {
    hide Does, ByteWord, BitCount, Align;
    LowCount(list);
    match form
    case Push => ByteAdjust(false, S0, S0, BitCount(list) * 4, env, h);
    case PushLr => ByteAdjust(false, S0, S0, (BitCount(list) + 1) * 4, env, h);
    case _ =>
      DoesNothing(env, h);
      assert h.Set(S0, Align(base)) == h;
  }

  lemma PostadjustDoes(t: Table, form: Form, list: LowList, base: Word, env: Env, g: Guest, h: Host) returns (h': Host)
    requires Represents(t, g, h) && h.regs[S0] == Start(form, list, base)
    ensures Does(PostadjustCode(t, form, list), env, h, h')
    ensures Represents(t, g.(regs := g.regs[form.Base() := Final(form, list, base)]), h')
    ensures h'.regs[S0] == h.regs[S0]
  {
    hide Does, ByteWord, BitCount, StoreReg, WithGuestReg, Start, Represents;
    RunningWhen(t, g, h);
    var v := Final(form, list, base);
    if form.Push? || form.PushLr? {
      StoreRegDoes(t, S0, 13, env, g, h);
      h' := WithGuestReg(t, h, 13, v);
    } else {
      var count := if form.PopPc? then BitCount(list) + 1 else BitCount(list);
      LowCount(list);
      h' := RaiseDoes(t, form.Base(), count, v, env, g, h);
    }
  }

  /** The base raised past `count` words and stored back. */
  lemma RaiseDoes(t: Table, r: Reg, count: nat, v: Word, env: Env, g: Guest, h: Host) returns (h': Host)
    requires Represents(t, g, h) && count <= 9 && v == ToWord(h.regs[S0] + count * 4)
    ensures Does([ByteWord(ADD, A0, S0, count * 4)] + StoreReg(t, A0, r), env, h, h')
    ensures Represents(t, g.(regs := g.regs[r := v]), h') && h'.regs[S0] == h.regs[S0]
  {
    hide Does, ByteWord, StoreReg, WithGuestReg, Represents, ToWord;
    RunningWhen(t, g, h);
    ByteAdjust(true, A0, S0, count * 4, env, h);
    ScratchKeeps(t, g, h, A0, v);
    var h1 := h.Set(A0, v);
    StoreRegDoes(t, A0, r, env, g, h1);
    h' := WithGuestReg(t, h1, r, v);
    DoesThen([ByteWord(ADD, A0, S0, count * 4)], StoreReg(t, A0, r), env, h, h1, h');
  }

  lemma ThumbSetupDoes(t: Table, form: Form, list: LowList, env: Env, g: Guest, h: Host) returns (h': Host)
    requires Represents(t, g, h)
    ensures var base := g.regs[form.Base()];
            && Does(ThumbSetup(t, form, list), env, h, h')
            && Represents(t, g.(regs := g.regs[form.Base() := Final(form, list, base)]), h')
            && h'.regs[S0] == Start(form, list, base)
  {
    hide Does, ByteWord, BitCount, LoadReg, PreadjustCode, PostadjustCode, Start, Final, Align;
    var base := g.regs[form.Base()];
    LoadRegDoes(t, S0, form.Base(), env, g, h);
    var h1 := h.Set(S0, base);
    AlignDoes(env, h1);
    var h2 := h1.Set(S0, Align(base));
    ScratchKeeps(t, g, h1, S0, Align(base));
    PreadjustDoes(form, list, base, env, h2);
    var h3 := h2.Set(S0, Start(form, list, base));
    ScratchKeeps(t, g, h2, S0, Start(form, list, base));
    h' := PostadjustDoes(t, form, list, base, env, g, h3);
    var c1, c2 := LoadReg(t, S0, form.Base()), [ByteWord(BIC, S0, S0, 3)];
    DoesThen(c1, c2, env, h, h1, h2);
    DoesThen(c1 + c2, PreadjustCode(form, list), env, h, h2, h3);
    DoesThen(c1 + c2 + PreadjustCode(form, list), PostadjustCode(t, form, list), env, h, h3, h');
  }

  lemma PushLinkDoes(t: Table, form: Form, list: LowList, base: Word, pc: Word, env: Env, cycles: nat, stub: Word,
                     g: Guest, h: Host) returns (h': Host)
    requires form.PushLr? && Represents(t, g, h) && env.Valid() && h.regs[S0] == Start(form, list, base)
    ensures Does(ExtraCode(t, form, list, pc, env, cycles, stub), env, h, h')
    ensures Represents(t, MoveLink(form, LinkAddress(form, list, base), g), h')
  {
    hide Does, ByteWord, BitCount, LoadReg, Call, Start, HelperStore;
    LowCount(list);
    var a := LinkAddress(form, list, base);
    ByteAdjust(true, A0, S0, BitCount(list) * 4, env, h);
    ScratchKeeps(t, g, h, A0, a);
    var h1 := h.Set(A0, a);
    LoadRegDoes(t, A1, 14, env, g, h1);
    var h2 := h1.Set(A1, g.regs[14]);
    StoreCallDoes(t, false, 0, env, g, h2);
    h' := HelperStore(env, h2.Set(LR, env.storeSafe));
    DoesThen(LoadReg(t, A1, 14), Call(env.storeSafe), env, h1, h2, h');
    DoesThen([ByteWord(ADD, A0, S0, BitCount(list) * 4)], LoadReg(t, A1, 14) + Call(env.storeSafe), env, h, h1, h');
  }

  lemma PopLinkDoes(t: Table, form: Form, list: LowList, base: Word, pc: Word, env: Env, cycles: nat, stub: Word,
                    g: Guest, h: Host) returns (h': Host)
    requires form.PopPc? && Represents(t, g, h) && env.Valid()
    requires h.regs[S0] == Start(form, list, base)
    ensures Does(ExtraCode(t, form, list, pc, env, cycles, stub), env, h, h')
    ensures Stands(t, MoveLink(form, LinkAddress(form, list, base), g), h') && h'.status == Left(stub)
    ensures h'.regs[A0] == Read(g.mem, LinkAddress(form, list, base))
  {
    hide Does, ByteWord, BitCount, Call, Start, HelperLoad, IndirectCode;
    LowCount(list);
    var a := LinkAddress(form, list, base);
    ByteAdjust(true, A0, S0, BitCount(list) * 4, env, h);
    ScratchKeeps(t, g, h, A0, a);
    var h1 := h.Set(A0, a);
    LoadCallDoes(t, ToWord(pc + 4), env, g, h1);
    var h2 := HelperLoad(env, h1.Set(LR, env.load));
    h' := IndirectDoes(t, cycles, stub, env, g, h2);
    PcUnseen(t, g, h'.(status := Running), Read(g.mem, a) - Read(g.mem, a) % 2);
    var call := Call(env.load) + [ToWord(pc + 4)];
    DoesThen(call, IndirectCode(cycles, stub), env, h1, h2, h');
    DoesThen([ByteWord(ADD, A0, S0, BitCount(list) * 4)], call + IndirectCode(cycles, stub), env, h, h1, h');
  }

  lemma ExtraDoes(t: Table, form: Form, list: LowList, base: Word, pc: Word, env: Env, cycles: nat, stub: Word,
                  g: Guest, h: Host) returns (h': Host)
    requires Represents(t, g, h) && env.Valid() && h.regs[S0] == Start(form, list, base)
    ensures Does(ExtraCode(t, form, list, pc, env, cycles, stub), env, h, h')
    ensures Stands(t, MoveLink(form, LinkAddress(form, list, base), g), h')
    ensures h'.status == if form.PopPc? then Left(stub) else Running
    ensures form.PopPc? ==> h'.regs[A0] == Read(g.mem, LinkAddress(form, list, base))
  {
    hide Does, ExtraCode, Represents, Start, LinkAddress;
    if form.PushLr? {
      h' := PushLinkDoes(t, form, list, base, pc, env, cycles, stub, g, h);
      StandsRunning(t, MoveLink(form, LinkAddress(form, list, base), g), h');
    } else if form.PopPc? {
      h' := PopLinkDoes(t, form, list, base, pc, env, cycles, stub, g, h);
    } else {
      DoesNothing(env, h);
      NoExtra(t, form, list, pc, env, cycles, stub);
      h' := h;
      StandsRunning(t, g, h');
    }
  }

  lemma ThumbCodeDoes(t: Table, form: Form, list: LowList, pc: Word, env: Env, cycles: nat, stub: Word,
                      g: Guest, h: Host) returns (h': Host)
    requires Represents(t, g, h) && env.Valid()
    ensures h'.status == if form.PopPc? then Left(stub) else Running
    ensures form.PopPc? ==> h'.regs[A0] - h'.regs[A0] % 2 == EmittedThumb(form, list, g).regs[15]
    ensures Stands(t, EmittedThumb(form, list, g), h')
    ensures Does(ThumbCode(t, form, list, pc, env, cycles, stub), env, h, h')
  {
    hide Does, ThumbSetup, AccessesFrom, ExtraCode, Bit, MoveFrom, Represents, Start, Final, LinkAddress, Rank,
         AddressOf, Stands;
    var base := g.regs[form.Base()];
    var start := Start(form, list, base);
    var h1 := ThumbSetupDoes(t, form, list, env, g, h);
    var g1 := g.(regs := g.regs[form.Base() := Final(form, list, base)]);
    AddressStep(start, list, 0);
    RankOfZero(list);
    var site := ThumbSite(form, pc);
    var h2 := AccessesDo(form.Loads(), t, list, 0, start, site, env, g1, h1);
    var g2 := MoveFrom(form.Loads(), list, 0, start, 0, g1);
    h' := ExtraDoes(t, form, list, base, pc, env, cycles, stub, g2, h2);
    var c1, c2 := ThumbSetup(t, form, list), AccessesFrom(form.Loads(), t, list, 0, 0, site, env);
    DoesThen(c1, c2, env, h, h1, h2);
    DoesThen(c1 + c2, ExtraCode(t, form, list, pc, env, cycles, stub), env, h, h2, h');
  }

  /**
   The emitted words do to a represented guest what the interpreter does if and only if the form is not a
   store-multiple with its base in the list. A popped PC reaches the branch stub in A0 with its low bit
   still there.
   */
  lemma ThumbBlockRefines(t: Table, form: Form, list: LowList, pc: Word, env: Env, cycles: nat, stub: Word,
                          g: Guest, h: Host) returns (h': Host)
    requires Represents(t, g, h) && env.Valid()
    ensures h'.status == if form.PopPc? then Left(stub) else Running
    ensures form.PopPc? ==> h'.regs[A0] - h'.regs[A0] % 2 == InterpretThumb(form, list, g).regs[15]
    ensures Stands(t, InterpretThumb(form, list, g), h') <==> !StoresBase(form, list)
    ensures Does(ThumbCode(t, form, list, pc, env, cycles, stub), env, h, h')
    ensures Run(ThumbCode(t, form, list, pc, env, cycles, stub), env, h) == h'
  {
    hide Does, Run, ThumbCode, InterpretThumb, EmittedThumb, Bit, GuestReg;
    h' := ThumbCodeDoes(t, form, list, pc, env, cycles, stub, g, h);
    ThumbAgreement(form, list, g);
    if StoresBase(form, list) { StoredBaseDiffers(form, list, g); }
    DoesAll(ThumbCode(t, form, list, pc, env, cycles, stub), env, h, h');
  }

  lemma NoExtra(t: Table, form: Form, list: LowList, pc: Word, env: Env, cycles: nat, stub: Word)
    requires !form.PushLr? && !form.PopPc?
    ensures ExtraCode(t, form, list, pc, env, cycles, stub) == []
  {}

  lemma StandsRunning(t: Table, g: Guest, h: Host)
    requires Represents(t, g, h)
    ensures Stands(t, g, h) && h.status == Running
  {
    assert h.(status := Running) == h;
  }
}
