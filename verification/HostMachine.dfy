/**
 The host ARM processor the emitted words run on, as far as the emitter relies on it: sixteen
 registers, the flags, the frame that holds guest registers, and guest memory behind three helpers.
 */
module HostMachine {
  import opened Words
  import opened Flags
  import opened Shifter
  import opened InstructionWords

  /** The result and flags of a data-processing opcode; `carry` is the shifter's carry-out. */
  function Alu(op: Opcode, a: Word, b: Word, carry: bool, f: Nzcv): Sum {
    match op
    case 0 => Logic(ToWord(Words.And(a, b)), carry, f)
    case 1 => Logic(ToWord(Xor(a, b)), carry, f)
    case 2 => AddWithCarry(a, Not(b), true)
    case 3 => AddWithCarry(b, Not(a), true)
    case 4 => AddWithCarry(a, b, false)
    case 5 => AddWithCarry(a, b, f.c)
    case 6 => AddWithCarry(a, Not(b), f.c)
    case 7 => AddWithCarry(b, Not(a), f.c)
    case 8 => Logic(ToWord(Words.And(a, b)), carry, f)
    case 9 => Logic(ToWord(Xor(a, b)), carry, f)
    case 10 => AddWithCarry(a, Not(b), true)
    case 11 => AddWithCarry(a, b, false)
    case 12 => Logic(ToWord(Or(a, b)), carry, f)
    case 13 => Logic(b, carry, f)
    case 14 => Logic(ToWord(Words.And(a, Not(b))), carry, f)
    case _ => Logic(Not(b), carry, f)
  }

  function Logic(value: Word, carry: bool, f: Nzcv): Sum {
    Sum(value, Nzcv(value >= TWO31, value == 0, carry, f.v))
  }

  type RegFile = s: seq<Word> | |s| == 16 witness seq(16, _ => 0)

  type Memory = map<Word, Word>

  function Read(m: Memory, a: Word): Word { if a in m then m[a] else 0 }

  datatype Status = Running | Left(target: Word) | Stuck

  datatype Host = Host(regs: RegFile, flags: Nzcv, frame: Memory, mem: Memory, calls: nat, status: Status) {
    function Set(r: Reg, v: Word): Host { this.(regs := regs[r := v]) }
  }

  // Host register roles.
  const A0: Reg := 0
  const A1: Reg := 1
  const A2: Reg := 2
  const S0: Reg := 9
  const FLAGS: Reg := 11
  const CYCLES: Reg := 12
  const SP: Reg := 13
  const LR: Reg := 14

  /** The entry points of the three memory helpers, and what they leave in the registers they do not keep. */
  datatype Env = Env(load: Word, store: Word, storeSafe: Word, junk: (nat, Reg) -> Word) {
    predicate Valid() { load != store && load != storeSafe && store != storeSafe }
  }

  function OperandValue(o: Operand, h: Host): Shifted {
    match o
    case Immediate(imm8, rot) =>
      var v := Ror(ToWord(imm8), 2 * (rot % 16));
      Shifted(v, if rot == 0 then h.flags.c else v >= TWO31)
    case ShiftedByImm(rm, t, amount) => ImmediateShift(t, amount, h.regs[rm], h.flags.c)
    case ShiftedByReg(rm, t, rs) => RegisterShift(t, h.regs[rs], h.regs[rm], h.flags.c)
  }

  function DoDataProc(op: Opcode, s: bool, rd: Reg, rn: Reg, o: Operand, h: Host): Host {
    var b := OperandValue(o, h);
    var r := Alu(op, h.regs[rn], b.value, b.carry, h.flags);
    var h1 := if IsTest(op) then h else h.Set(rd, r.value);
    if s then h1.(flags := r.flags) else h1
  }

  /** The frame is only reached through words the emitter addresses relative to the stack pointer. */
  function DoTransfer(load: bool, rd: Reg, rn: Reg, offset: int, h: Host): Host {
    var a := ToWord(h.regs[rn] + offset);
    if load then h.Set(rd, Read(h.frame, a)) else h.(frame := h.frame[a := h.regs[rd]])
  }

  /** A helper keeps R3-R10, the stack pointer and the flags, and nothing else. */
  function Clobber(env: Env, h: Host): Host {
    var j := (r: Reg) => env.junk(h.calls, r);
    h.Set(A0, j(A0)).Set(A1, j(A1)).Set(A2, j(A2)).Set(FLAGS, j(FLAGS)).Set(CYCLES, j(CYCLES)).Set(LR, j(LR))
      .(calls := h.calls + 1)
  }

  function HelperLoad(env: Env, h: Host): Host {
    Clobber(env, h).Set(A0, Read(h.mem, h.regs[A0]))
  }

  function HelperStore(env: Env, h: Host): Host {
    Clobber(env, h).(mem := h.mem[h.regs[A0] := h.regs[A1]])
  }

  /** A 24-bit field read as a signed number. */
  function SignExtend24(x: nat): int
    requires x < 0x100_0000
  {
    if x < 0x80_0000 then x else x - 0x100_0000
  }

  /**
   Runs a code sequence from its first word. The load helper and the plain store helper return past
   the data word that follows the call; the safe store helper returns straight after it. A branch may
   only go forward and no further than the end of the sequence.
   */
  function Run(code: seq<Word>, env: Env, h: Host): Host
    decreases |code|
  {
    if code == [] || h.status != Running then h
    else
      var d := Decode(code[0]);
      if !Holds(d.cond, h.flags) then Run(code[1..], env, h)
      else match d.instr
        case DataProc(op, s, rd, rn, o) => Run(code[1..], env, DoDataProc(op, s, rd, rn, o, h))
        case Transfer(load, rd, rn, offset) => Run(code[1..], env, DoTransfer(load, rd, rn, offset, h))
        case Branch(link, offset) =>
          var skip := 2 + SignExtend24(offset);
          if !link && 1 <= skip <= |code| then Run(code[skip..], env, h) else h.(status := Stuck)
        case Exchange(link, rm) =>
          var target := h.regs[rm];
          if !link then h.(status := Left(target))
          else if target == env.load && |code| >= 2 then Run(code[2..], env, HelperLoad(env, h))
          else if target == env.store && |code| >= 2 then Run(code[2..], env, HelperStore(env, h))
          else if target == env.storeSafe then Run(code[1..], env, HelperStore(env, h))
          else h.(status := Stuck)
        case Other => h.(status := Stuck)
  }

  // ---------------------------------------------------------------- straight-line pieces

  /** From `h`, running `code` always arrives at its end in state `h'`, whatever follows. */
  ghost predicate Does(code: seq<Word>, env: Env, h: Host, h': Host) {
    forall rest: seq<Word> :: Run(code + rest, env, h) == Run(rest, env, h')
  }

  lemma DoesNothing(env: Env, h: Host)
    ensures Does([], env, h, h)
  {
    hide Run;
    forall rest: seq<Word> ensures Run([] + rest, env, h) == Run(rest, env, h) {
      assert [] + rest == rest;
    }
  }

  lemma DoesThen(c1: seq<Word>, c2: seq<Word>, env: Env, h: Host, h1: Host, h2: Host)
    requires Does(c1, env, h, h1) && Does(c2, env, h1, h2)
    ensures Does(c1 + c2, env, h, h2)
  {
    hide Run;
    forall rest: seq<Word> ensures Run(c1 + c2 + rest, env, h) == Run(rest, env, h2) {
      assert c1 + c2 + rest == c1 + (c2 + rest);
    }
  }

  lemma DoesBefore(code: seq<Word>, rest: seq<Word>, env: Env, h: Host, h': Host)
    requires Does(code, env, h, h')
    ensures Run(code + rest, env, h) == Run(rest, env, h')
  {}

  /** A piece that ends in a running state is all there is to run when nothing follows. */
  lemma DoesAll(code: seq<Word>, env: Env, h: Host, h': Host)
    requires Does(code, env, h, h')
    ensures Run(code, env, h) == h'
  {
    assert Run(code + [], env, h) == Run([], env, h');
    assert code + [] == code;
  }

  // ---------------------------------------------------------------- single instructions

  /** The emitter's always-executed words. */
  function DataProcWord(op: Opcode, s: bool, rd: Reg, rn: Reg, o: Operand): Word {
    ToWord(PackDataProc(op, s, rd, rn, o, AL))
  }

  function LoadWord(rd: Reg, rn: Reg, imm: nat): Word { ToWord(PackTransfer(true, rd, rn, imm, AL)) }

  function StoreWord(rd: Reg, rn: Reg, imm: nat): Word { ToWord(PackTransfer(false, rd, rn, imm, AL)) }

  function CallWord(rm: Reg): Word { ToWord(PackExchange(true, rm, AL)) }

  function JumpWord(rm: Reg): Word { ToWord(PackExchange(false, rm, AL)) }

  /** The first step of a run whose first word decodes to an always-executed instruction. */
  lemma FirstWord(w: Word, rest: seq<Word>)
    ensures ([w] + rest)[0] == w && ([w] + rest)[1..] == rest
  {}

  lemma DoesDataProc(op: Opcode, s: bool, rd: Reg, rn: Reg, o: Operand, env: Env, h: Host)
    requires o.Valid() && (IsTest(op) ==> s) && h.status == Running
    ensures Does([DataProcWord(op, s, rd, rn, o)], env, h, DoDataProc(op, s, rd, rn, o, h))
  {
    hide PackDataProc, Decode, DoDataProc;
    DecodePackDataProc(op, s, rd, rn, o, AL);
    var w := DataProcWord(op, s, rd, rn, o);
    forall rest: seq<Word> ensures Run([w] + rest, env, h) == Run(rest, env, DoDataProc(op, s, rd, rn, o, h)) {
      FirstWord(w, rest);
    }
  }

  lemma DoesTransfer(load: bool, rd: Reg, rn: Reg, imm: nat, env: Env, h: Host)
    requires imm < 0x1000 && h.status == Running
    ensures Does([if load then LoadWord(rd, rn, imm) else StoreWord(rd, rn, imm)], env, h,
                 DoTransfer(load, rd, rn, imm, h))
  {
    hide PackTransfer, Decode, DoTransfer;
    DecodePackTransfer(load, rd, rn, imm, AL);
    var w := if load then LoadWord(rd, rn, imm) else StoreWord(rd, rn, imm);
    forall rest: seq<Word> ensures Run([w] + rest, env, h) == Run(rest, env, DoTransfer(load, rd, rn, imm, h)) {
      FirstWord(w, rest);
    }
  }

  /** A register exchange: a jump leaves, and a call runs the helper it reaches. */
  lemma RunExchange(code: seq<Word>, link: bool, rm: Reg, env: Env, h: Host)
    requires code != [] && h.status == Running && Decode(code[0]) == Decoded(AL, Exchange(link, rm))
    ensures !link ==> Run(code, env, h) == h.(status := Left(h.regs[rm]))
    ensures link && env.Valid() && |code| >= 2 && h.regs[rm] == env.load ==>
              Run(code, env, h) == Run(code[2..], env, HelperLoad(env, h))
    ensures link && env.Valid() && |code| >= 2 && h.regs[rm] == env.store ==>
              Run(code, env, h) == Run(code[2..], env, HelperStore(env, h))
    ensures link && env.Valid() && h.regs[rm] == env.storeSafe ==>
              Run(code, env, h) == Run(code[1..], env, HelperStore(env, h))
  {
    hide Decode, SignExtend24, DoDataProc, DoTransfer, HelperLoad, HelperStore;
  }

  lemma RunStopped(code: seq<Word>, env: Env, h: Host)
    requires h.status != Running
    ensures Run(code, env, h) == h
  {}

  /** A call or jump word decodes to itself. */
  lemma ExchangeDecodes(link: bool, rm: Reg)
    ensures Decode(if link then CallWord(rm) else JumpWord(rm)) == Decoded(AL, Exchange(link, rm))
  {
    hide PackExchange, Decode;
    DecodePackExchange(link, rm, AL);
  }

  /** A call through `rm` of the load helper, with its data word. */
  lemma DoesLoadCall(rm: Reg, data: Word, env: Env, h: Host)
    requires env.Valid() && h.status == Running && h.regs[rm] == env.load
    ensures Does([CallWord(rm), data], env, h, HelperLoad(env, h))
  {
    hide CallWord, Decode, HelperLoad, Run;
    ExchangeDecodes(true, rm);
    var code := [CallWord(rm), data];
    forall rest: seq<Word> ensures Run(code + rest, env, h) == Run(rest, env, HelperLoad(env, h)) {
      assert (code + rest)[0] == CallWord(rm) && (code + rest)[2..] == rest;
      RunExchange(code + rest, true, rm, env, h);
    }
  }

  lemma DoesStoreCall(rm: Reg, data: Word, env: Env, h: Host)
    requires env.Valid() && h.status == Running && h.regs[rm] == env.store
    ensures Does([CallWord(rm), data], env, h, HelperStore(env, h))
  {
    hide CallWord, Decode, HelperStore, Run;
    ExchangeDecodes(true, rm);
    var code := [CallWord(rm), data];
    forall rest: seq<Word> ensures Run(code + rest, env, h) == Run(rest, env, HelperStore(env, h)) {
      assert (code + rest)[0] == CallWord(rm) && (code + rest)[2..] == rest;
      RunExchange(code + rest, true, rm, env, h);
    }
  }

  lemma DoesSafeStoreCall(rm: Reg, env: Env, h: Host)
    requires env.Valid() && h.status == Running && h.regs[rm] == env.storeSafe
    ensures Does([CallWord(rm)], env, h, HelperStore(env, h))
  {
    hide CallWord, Decode, HelperStore, Run;
    ExchangeDecodes(true, rm);
    forall rest: seq<Word> ensures Run([CallWord(rm)] + rest, env, h) == Run(rest, env, HelperStore(env, h)) {
      FirstWord(CallWord(rm), rest);
      RunExchange([CallWord(rm)] + rest, true, rm, env, h);
    }
  }

  lemma DoesJump(rm: Reg, env: Env, h: Host)
    requires h.status == Running
    ensures Does([JumpWord(rm)], env, h, h.(status := Left(h.regs[rm])))
  {
    hide JumpWord, Decode, Run;
    ExchangeDecodes(false, rm);
    var h' := h.(status := Left(h.regs[rm]));
    forall rest: seq<Word> ensures Run([JumpWord(rm)] + rest, env, h) == Run(rest, env, h') {
      FirstWord(JumpWord(rm), rest);
      RunExchange([JumpWord(rm)] + rest, false, rm, env, h);
      RunStopped(rest, env, h');
    }
  }

  /** A branch is either taken or falls through. */
  lemma RunBranch(code: seq<Word>, cond: Cond, offset: nat, env: Env, h: Host)
    requires code != [] && h.status == Running && offset < 0x100_0000
    requires Decode(code[0]) == Decoded(cond, Branch(false, offset))
    requires 1 <= 2 + SignExtend24(offset) <= |code|
    ensures Run(code, env, h)
         == Run(if Holds(cond, h.flags) then code[2 + SignExtend24(offset)..] else code[1..], env, h)
  {
    hide Decode, SignExtend24, Holds;
  }
}
