/** What LDM and STM do, by the address modes of section A5.4 of the ARM Architecture Reference Manual. */
module BlockMeaning {
  import opened Words
  import opened Bitwise
  import opened InstructionWords
  import opened HostMachine
  import opened Translation
  import opened BlockTransfer

  /**
   The words transferred start, for `n` registers, at the base (increment after), a word above it (increment
   before), or so that they end at it (decrement after) or a word below it (decrement before); the address
   bits 0 and 1 are ignored. The base moves past them.
   */
  lemma AddressRange(mode: Mode, base: Word, n: nat)
    requires n <= 16
    ensures var first := Align(Offset(mode, base, n));
      && (mode.Up? ==> first == base - base % 4)
      && (mode.UpPre? ==> first == (base - base % 4 + 4) % 0x1_0000_0000)
      && (mode.DownA? ==> (first + 4 * n) % 0x1_0000_0000 == (base - base % 4 + 4) % 0x1_0000_0000)
      && (mode.DownB? ==> (first + 4 * n) % 0x1_0000_0000 == base - base % 4)
    ensures Written(mode, base, n)
         == (if mode.Up? || mode.UpPre? then base + 4 * n else base - 4 * n) % 0x1_0000_0000
  {
    hide Align, ToWord, Written;
    BaseIsWord(base);
    MovedBase(mode, base, n);
    match mode
    case Up => Aligned(base, 0);
    case UpPre => Aligned(base, 4);
    case DownA => Aligned(base, 4 - 4 * n);
    case DownB => Aligned(base, -4 * n);
  }

  lemma BaseIsWord(base: Word)
    ensures ToWord(base) == base % 0x1_0000_0000 == base
  {}

  lemma MovedBase(mode: Mode, base: Word, n: nat)
    ensures Written(mode, base, n)
         == (if mode.Up? || mode.UpPre? then base + 4 * n else base - 4 * n) % 0x1_0000_0000
  {}

  /** Aligning after moving by whole words is moving after aligning. */
  lemma Aligned(base: Word, d: int)
    requires d % 4 == 0 && -0x1000 < d < 0x1000
    ensures Align(ToWord(base + d)) == (base - base % 4 + d) % 0x1_0000_0000
    ensures (Align(ToWord(base + d)) - d) % 0x1_0000_0000 == base - base % 4
    ensures (Align(ToWord(base + d)) + (4 - d)) % 0x1_0000_0000 == (base - base % 4 + 4) % 0x1_0000_0000
  {
    hide Align, ToWord;
    var y: int := base - base % 4;
    AlignedWord(y + d, base % 4);
    ShiftedRemainder(y + d, -d);
    ShiftedRemainder(y + d, 4 - d);
    assert y + d + base % 4 == base + d && y + d + (4 - d) == y + 4;
    BaseIsWord(y);
  }

  /** Aligning drops what was added to a multiple of four. */
  lemma AlignedWord(z: int, b: int)
    requires z % 4 == 0 && 0 <= b < 4
    ensures Align(ToWord(z + b)) == z % 0x1_0000_0000
  {
    var q, r := z / TWO32, z % TWO32;
    assert z == q * TWO32 + r;
    assert r % 4 == 0;
    DivUnique(z + b, TWO32, q, r + b);
  }

  lemma ShiftedRemainder(x: int, e: int)
    ensures (x % 0x1_0000_0000 + e) % 0x1_0000_0000 == (x + e) % 0x1_0000_0000
  {
    ModAdd(x % TWO32 + e, x / TWO32, TWO32);
  }

  /** A load fills every listed register, lowest first; a base written back and not loaded has moved. */
  lemma LoadMultipleMeaning(mode: Mode, writeback: bool, rn: Reg, list: RegList, pc: Word, g: Guest)
    ensures var g', n := Interpret(true, mode, writeback, rn, list, pc, g), WordBitCount(list);
      var first := Align(Offset(mode, g.regs[rn], n));
      && g'.mem == g.mem && g'.flags == g.flags
      && forall r: Reg :: g'.regs[r] ==
           if InList(list, r) then Read(g.mem, ToWord(first + 4 * Rank(list, r)))
           else if writeback && r == rn then Written(mode, g.regs[rn], n) else g.regs[r]
  {
    hide Bit, MoveFrom, Rank, Align, Offset, Written, WordBitCount, Read;
    var n := WordBitCount(list);
    var first := Align(Offset(mode, g.regs[rn], n));
    var g1 := if writeback then g.(regs := g.regs[rn := Written(mode, g.regs[rn], n)]) else g;
    RankOfZero(list);
    AddressStep(first, list, 0);
    LoadMeaning(list, 0, first, ToWord(pc + 8), g1);
    var g' := Interpret(true, mode, writeback, rn, list, pc, g);
    forall r: Reg ensures g'.regs[r] ==
      if InList(list, r) then Read(g.mem, ToWord(first + 4 * Rank(list, r))) else g1.regs[r]
    {
      assert AddressOf(first, list, r) == ToWord(first + 4 * Rank(list, r));
    }
  }

  /**
   A store puts every listed register at its own word, lowest first: the base as written back, and r15 eight
   bytes ahead. Every other word of memory, and every register but a written-back base, is unchanged.
   */
  lemma StoreMultipleMeaning(mode: Mode, writeback: bool, rn: Reg, list: RegList, pc: Word, g: Guest)
    ensures var g', n := Interpret(false, mode, writeback, rn, list, pc, g), WordBitCount(list);
      var first, moved := Align(Offset(mode, g.regs[rn], n)), Written(mode, g.regs[rn], n);
      && g'.regs == (if writeback then g.regs[rn := moved] else g.regs) && g'.flags == g.flags
      && (forall r: Reg :: InList(list, r) ==>
            Read(g'.mem, ToWord(first + 4 * Rank(list, r))) ==
              if r == 15 then (pc + 8) % 0x1_0000_0000 else if writeback && r == rn then moved else g.regs[r])
      && (forall a: Word :: (forall k: nat :: k < n ==> a != ToWord(first + 4 * k)) ==> Read(g'.mem, a) == Read(g.mem, a))
  {
    hide Bit, MoveFrom, Rank, Align, Offset, Written, WordBitCount, Read;
    var n := WordBitCount(list);
    var first := Align(Offset(mode, g.regs[rn], n));
    StoresAt(list, first, ToWord(pc + 8),
             if writeback then g.(regs := g.regs[rn := Written(mode, g.regs[rn], n)]) else g);
  }

  lemma StoresAt(list: RegList, first: Word, pcStore: Word, g: Guest)
    ensures var g', n := MoveFrom(false, list, 0, first, pcStore, g), WordBitCount(list);
      && g'.regs == g.regs && g'.flags == g.flags
      && (forall r: Reg :: InList(list, r) ==>
            Read(g'.mem, ToWord(first + 4 * Rank(list, r))) == if r == 15 then pcStore else g.regs[r])
      && (forall a: Word :: (forall k: nat :: k < n ==> a != ToWord(first + 4 * k)) ==> Read(g'.mem, a) == Read(g.mem, a))
  {
    hide Bit, MoveFrom, Rank, WordBitCount, Read, ToWord;
    var n, g' := WordBitCount(list), MoveFrom(false, list, 0, first, pcStore, g);
    CountIsRank(list);
    RankOfZero(list);
    AddressStep(first, list, 0);
    StoreMeaning(list, 0, first, pcStore, g);
    forall r: Reg | InList(list, r)
      ensures Read(g'.mem, ToWord(first + 4 * Rank(list, r))) == if r == 15 then pcStore else g.regs[r]
    {
      assert AddressOf(first, list, r) == ToWord(first + 4 * Rank(list, r));
    }
    forall a: Word | forall k: nat :: k < n ==> a != ToWord(first + 4 * k) ensures Read(g'.mem, a) == Read(g.mem, a) {
      forall r: Reg | InList(list, r) ensures a != AddressOf(first, list, r) {
        RankBound(list, r, 16);
        assert Rank(list, r) < n;
      }
    }
  }

  // ---------------------------------------------------------------- the emitted calls

  /** The last listed register is the one with none listed above it. */
  lemma LastIsHighest(list: RegList, i: nat)
    ensures IsLast(list, i) <==> forall j: nat :: j > i ==> !InList(list, j)
  {
    hide Pow2, Bit;
    HighBits(list, i + 1);
    if list < Pow2(i + 1) {
      DivUnique(list, Pow2(i + 1), 0, list);
      forall j: nat | j > i ensures !InList(list, j) { assert Bit(list, j) == 0; }
    } else {
      DivAtLeastOne(list, Pow2(i + 1));
      var j: nat :| j >= i + 1 && Bit(list, j) != 0;
      BitBinary(list, j);
      assert InList(list, j);
    }
  }

  ghost predicate EndsWith(code: seq<Word>, end: seq<Word>) { exists front :: code == front + end }

  lemma EndsLater(front: seq<Word>, code: seq<Word>, end: seq<Word>)
    requires EndsWith(code, end)
    ensures EndsWith(front + code, end)
  {
    var f :| code == f + end;
    assert front + code == (front + f) + end;
  }

  /** After the last store the emitted code checks for modified code, and only where nothing more is stored. */
  lemma {:induction false} StoresEnd(t: Table, list: RegList, i: nat, j: nat, offset: nat, site: Site, env: Env)
    requires i <= j < 16 && InList(list, j)
    ensures EndsWith(AccessesFrom(false, t, list, i, offset, site, env),
                     if site.checkLast then Call(env.store) + [site.afterStore] else Call(env.storeSafe))
    decreases 16 - i
  {
    hide Bit, ListedCode, Call, IsLast;
    var end := if site.checkLast then Call(env.store) + [site.afterStore] else Call(env.storeSafe);
    LastIsHighest(list, i);
    if i < j {
      if InList(list, i) {
        StoresEnd(t, list, i + 1, j, offset + 4, site, env);
        EndsLater(ListedCode(false, t, list, i, offset, site, env),
                  AccessesFrom(false, t, list, i + 1, offset + 4, site, env), end);
      } else {
        StoresEnd(t, list, i + 1, j, offset, site, env);
      }
    } else if IsLast(list, i) {
      NothingAfter(t, list, i, i + 1, offset + 4, site, env);
      LastStoreEnds(t, list, i, offset, site, env);
      assert AccessesFrom(false, t, list, i, offset, site, env) == ListedCode(false, t, list, i, offset, site, env) + [];
    } else {
      var k: nat :| k > i && InList(list, k);
      if k >= 16 { NotListed(list, k); }
      StoresEnd(t, list, i + 1, k, offset + 4, site, env);
      EndsLater(ListedCode(false, t, list, i, offset, site, env),
                AccessesFrom(false, t, list, i + 1, offset + 4, site, env), end);
    }
  }

  lemma NotListed(list: RegList, k: nat)
    requires k >= 16
    ensures !InList(list, k)
  {
    hide Pow2, Bit;
    SmallPowers();
    HighBits(list, 16);
  }

  lemma {:induction false} NothingAfter(t: Table, list: RegList, i: nat, j: nat, offset: nat, site: Site, env: Env)
    requires i < j <= 16 && IsLast(list, i)
    ensures AccessesFrom(false, t, list, j, offset, site, env) == []
    decreases 16 - j
  {
    hide ListedCode, IsLast, Bit;
    if j < 16 {
      LastIsHighest(list, i);
      NothingAfter(t, list, i, j + 1, offset, site, env);
    }
  }

  lemma LastStoreEnds(t: Table, list: RegList, i: Reg, offset: nat, site: Site, env: Env)
    requires IsLast(list, i)
    ensures EndsWith(ListedCode(false, t, list, i, offset, site, env),
                     if site.checkLast then Call(env.store) + [site.afterStore] else Call(env.storeSafe))
  {
    hide Call, LoadRegPc, IsLast, ByteWord;
    var front := [ByteWord(ADD, A0, S0, offset)] + LoadRegPc(t, A1, i, site.r15);
    var end := if site.checkLast then Call(env.store) + [site.afterStore] else Call(env.storeSafe);
    assert ListedCode(false, t, list, i, offset, site, env) == front + end;
  }

  /**
   The words after the calls: an STM ends with the checking store helper and the address of the next
   instruction, to go on from; a load is followed by that of the one after it.
   */
  lemma CallsFollowed(t: Table, list: RegList, i: Reg, pc: Word, env: Env)
    requires list != 0
    ensures EndsWith(AccessesFrom(false, t, list, 0, 0, ArmSite(pc), env), Call(env.store) + [(pc + 4) % 0x1_0000_0000])
    ensures AccessCode(true, t, i, IsLast(list, i), ArmSite(pc), env)
         == Call(env.load) + [(pc + 8) % 0x1_0000_0000] + StoreReg(t, A0, i)
  {
    hide Call, StoreReg, AccessesFrom, Bit, IsLast, Pow2;
    SmallPowers();
    var j: nat :| InList(list, j) by { SomeListed(list); }
    if j >= 16 { NotListed(list, j); }
    StoresEnd(t, list, 0, j, 0, ArmSite(pc), env);
  }

  lemma SomeListed(list: RegList)
    requires list != 0
    ensures exists j: nat :: InList(list, j)
  {
    hide Bit;
    if forall j: nat :: !InList(list, j) {
      forall j: nat ensures Bit(list, j) == Bit(0, j) {
        assert !InList(list, j);
        BitBinary(list, j);
        BitOfZero(j);
      }
      BitsDetermine(list, 0);
    }
  }
}
