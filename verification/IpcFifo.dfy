/**
 The inter-processor FIFO registers and rings. Each method below takes the link between the processors
 (module IpcLink) through one step and keeps both control registers equal to the bits that the link says.
 */
module IpcFifo {
  import opened Words
  import opened Rings
  import opened IpcLink

  // Bits of the control register.
  const SENDEMPTY: bv16 := 0x0001
  const SENDFULL: bv16 := 0x0002
  const SENDIRQEN: bv16 := 0x0004
  const SENDCLEAR: bv16 := 0x0008
  const RECVEMPTY: bv16 := 0x0100
  const RECVFULL: bv16 := 0x0200
  const RECVIRQEN: bv16 := 0x0400
  const FIFOERROR: bv16 := 0x4000
  const FIFOENABLE: bv16 := 0x8000
  const WRITEABLE: bv16 := SENDIRQEN | RECVIRQEN | FIFOENABLE

  function Keep(c: bv16, mask: bv16): bv16 { c & mask }

  function Put(c: bv16, bits: bv16): bv16 { c | bits }

  predicate Has(c: bv16, bit: bv16) { c & bit != 0 }

  /** A bit, when it is on. */
  function Flag(b: bool, bit: bv16): bv16 { if b then bit else 0 }

  /** The bits of a control register: empty and full of the queue it sends into and of the one it receives from. */
  datatype Bits = Bits(sendEmpty: bool, sendFull: bool, sendIrq: bool, recvEmpty: bool, recvFull: bool,
                       recvIrq: bool, error: bool, enabled: bool)
  {
    function Packed(): bv16 {
      Flag(sendEmpty, SENDEMPTY) | Flag(sendFull, SENDFULL) | Flag(sendIrq, SENDIRQEN)
      | Flag(recvEmpty, RECVEMPTY) | Flag(recvFull, RECVFULL) | Flag(recvIrq, RECVIRQEN)
      | Flag(error, FIFOERROR) | Flag(enabled, FIFOENABLE)
    }
  }

  function BitsOf(k: Link, p: Proc): Bits {
    var l, r := k.Of(p), k.Of(Other(p));
    Bits(l.queue == [], |l.queue| == CAPACITY, l.sendIrq, r.queue == [], |r.queue| == CAPACITY, l.recvIrq,
         l.error, l.enabled)
  }

  /** The control register of `p`. */
  function Register(k: Link, p: Proc): bv16 { BitsOf(k, p).Packed() }

  /** What a write to the control register asks for. */
  function ControlOf(val: bv16): Control {
    Control(Has(val, FIFOENABLE), Has(val, SENDIRQEN), Has(val, RECVIRQEN), Has(val, FIFOERROR), Has(val, SENDCLEAR))
  }

  /** Every bit can be read back from the register. */
  lemma BitsRead(b: Bits)
    ensures var c := b.Packed();
      && Has(c, SENDEMPTY) == b.sendEmpty && Has(c, SENDFULL) == b.sendFull && Has(c, SENDIRQEN) == b.sendIrq
      && Has(c, RECVEMPTY) == b.recvEmpty && Has(c, RECVFULL) == b.recvFull && Has(c, RECVIRQEN) == b.recvIrq
      && Has(c, FIFOERROR) == b.error && Has(c, FIFOENABLE) == b.enabled
  {}

  /** Where each bit is, in a register and in a write to it. */
  lemma Layout(b: Bits, val: bv16)
    ensures var c := b.Packed();
      && (c & 0x0001 != 0 <==> b.sendEmpty) && (c & 0x0002 != 0 <==> b.sendFull) && (c & 0x0004 != 0 <==> b.sendIrq)
      && (c & 0x0100 != 0 <==> b.recvEmpty) && (c & 0x0200 != 0 <==> b.recvFull) && (c & 0x0400 != 0 <==> b.recvIrq)
      && (c & 0x4000 != 0 <==> b.error) && (c & 0x8000 != 0 <==> b.enabled) && c & 0x38F8 == 0
    ensures ControlOf(val) == Control(val & 0x8000 != 0, val & 0x0004 != 0, val & 0x0400 != 0, val & 0x4000 != 0,
                                      val & 0x0008 != 0)
  {}

  /** The mask 0xBFFC forgets empty and full of the queue sent into, and the error. */
  lemma SendForgotten(b: Bits)
    ensures Keep(b.Packed(), 0xBFFC) == b.(sendEmpty := false, sendFull := false, error := false).Packed()
  {}

  /** The mask 0xBCFF forgets empty and full of the queue received from, and the error. */
  lemma RecvForgotten(b: Bits)
    ensures Keep(b.Packed(), 0xBCFF) == b.(recvEmpty := false, recvFull := false, error := false).Packed()
  {}

  lemma ErrorCleared(b: Bits)
    ensures Keep(b.Packed(), !FIFOERROR) == b.(error := false).Packed()
  {}

  lemma SendFullCleared(b: Bits)
    ensures Keep(b.Packed(), !SENDFULL) == b.(sendFull := false).Packed()
  {}

  lemma RecvFullCleared(b: Bits)
    ensures Keep(b.Packed(), !RECVFULL) == b.(recvFull := false).Packed()
  {}

  lemma SendEmptySet(b: Bits)
    ensures Put(b.Packed(), SENDEMPTY) == b.(sendEmpty := true).Packed()
  {}

  lemma SendFullSet(b: Bits)
    ensures Put(b.Packed(), SENDFULL) == b.(sendFull := true).Packed()
  {}

  lemma RecvEmptySet(b: Bits)
    ensures Put(b.Packed(), RECVEMPTY) == b.(recvEmpty := true).Packed()
  {}

  lemma RecvFullSet(b: Bits)
    ensures Put(b.Packed(), RECVFULL) == b.(recvFull := true).Packed()
  {}

  lemma ErrorSet(b: Bits)
    ensures Put(b.Packed(), FIFOERROR) == b.(error := true).Packed()
  {}

  /** Replacing the writable bits by those of `val`. */
  lemma Written(b: Bits, val: bv16)
    ensures Put(Keep(b.Packed(), !WRITEABLE), Keep(val, WRITEABLE))
         == b.(sendIrq := Has(val, SENDIRQEN), recvIrq := Has(val, RECVIRQEN), enabled := Has(val, FIFOENABLE)).Packed()
  {}

  /** `IPC_FIFO`. */
  class Ring {
    const buf: array<Word>
    var head: nat
    var tail: nat
    var size: nat

    ghost predicate Valid()
      reads this
    {
      buf.Length == CAPACITY && head < CAPACITY && size <= CAPACITY && tail < CAPACITY
      && tail == Slot(CAPACITY, head, size)
    }

    ghost function Contents(): seq<Word>
      reads this, buf
      requires Valid()
    {
      Window(buf[..], head, size)
    }

    constructor ()
      ensures Valid() && Contents() == [] && fresh(buf)
    {
      buf := new Word[CAPACITY](i => 0);
      head, tail, size := 0, 0, 0;
    }

    method Push(val: Word)
      requires Valid() && size < CAPACITY
      modifies this, buf
      ensures Valid() && Contents() == old(Contents()) + [val]
    {
      WindowPush(buf[..], head, size, val);
      buf[tail] := val;
      tail := tail + 1;
      size := size + 1;
      if tail > 15 { tail := 0; }
    }

    method Pop() returns (val: Word)
      requires Valid() && size > 0
      modifies this
      ensures Valid() && old(Contents()) == [val] + Contents()
    {
      WindowPop(buf[..], head, size);
      val := buf[head];
      head := head + 1;
      size := size - 1;
      if head > 15 { head := 0; }
    }

    method Clear()
      requires Valid()
      modifies this
      ensures Valid() && Contents() == []
    {
      head := 0;
      tail := 0;
      size := 0;
    }
  }

  /** Both rings, both control registers and the interrupts raised so far. */
  class Fifo {
    const ring9: Ring
    const ring7: Ring
    var cnt9: bv16
    var cnt7: bv16
    var irqs: seq<Irq>
    /** The state of the link, as the two processors see it. */
    ghost var link: Link

    function RingOf(p: Proc): Ring { if p == ARM9 then ring9 else ring7 }

    function CntOf(p: Proc): bv16
      reads this`cnt9, this`cnt7
    {
      if p == ARM9 then cnt9 else cnt7
    }

    ghost predicate Wired()
      reads ring9, ring7
    {
      ring9 != ring7 && ring9.buf != ring7.buf && ring9.Valid() && ring7.Valid()
    }

    /** The words in the ring that `p` sends into. */
    ghost function Queue(p: Proc): (q: seq<Word>)
      reads ring9, ring7, ring9.buf, ring7.buf
      requires Wired()
      ensures |q| == RingOf(p).size <= CAPACITY
    {
      RingOf(p).Contents()
    }

    ghost predicate Valid()
      reads this`link, this`cnt9, this`cnt7, ring9, ring7, ring9.buf, ring7.buf
    {
      Wired() && forall p :: Queue(p) == link.Of(p).queue && CntOf(p) == Register(link, p)
    }

    constructor ()
      ensures Valid() && link == RESET && irqs == []
      ensures fresh(ring9) && fresh(ring7) && fresh(ring9.buf) && fresh(ring7.buf)
    {
      ring9 := new Ring();
      ring7 := new Ring();
      cnt9, cnt7, irqs, link := 0x0101, 0x0101, [], RESET;
    }

    method Push(p: Proc, val: Word)
      requires Wired() && RingOf(p).size < CAPACITY
      modifies ring9, ring7, ring9.buf, ring7.buf
      ensures Wired() && Queue(p) == old(Queue(p)) + [val] && Queue(Other(p)) == old(Queue(Other(p)))
    {
      hide Window;
      RingOf(p).Push(val);
    }

    method Pop(p: Proc) returns (val: Word)
      requires Wired() && RingOf(p).size > 0
      modifies ring9, ring7
      ensures Wired() && val == old(Queue(p)[0]) && Queue(p) == old(Queue(p)[1..])
      ensures Queue(Other(p)) == old(Queue(Other(p)))
    {
      hide Window;
      val := RingOf(p).Pop();
    }

    method Clear(p: Proc)
      requires Wired()
      modifies ring9, ring7
      ensures Wired() && Queue(p) == [] && Queue(Other(p)) == old(Queue(Other(p)))
    {
      hide Window;
      RingOf(p).Clear();
    }

    /** `Valid`, from the point of view of one processor. */
    ghost predicate ValidFrom(p: Proc)
      reads this`link, this`cnt9, this`cnt7, ring9, ring7, ring9.buf, ring7.buf
    {
      && Wired()
      && Queue(p) == link.Of(p).queue && Queue(Other(p)) == link.Of(Other(p)).queue
      && CntOf(p) == Register(link, p) && CntOf(Other(p)) == Register(link, Other(p))
    }

    lemma EitherSide(p: Proc)
      ensures Valid() == ValidFrom(p)
    {
      hide Register, Queue, Wired, CntOf;
    }

    method SetCnt(p: Proc, cnt: bv16)
      modifies this`cnt9, this`cnt7
      ensures CntOf(p) == cnt && CntOf(Other(p)) == old(CntOf(Other(p)))
    {
      if p == ARM9 { cnt9 := cnt; } else { cnt7 := cnt; }
    }

    /** Both registers written back: the link is now `k`. */
    method WriteBack(p: Proc, cntL: bv16, cntR: bv16, ghost k: Link)
      requires Wired() && Queue(p) == k.Of(p).queue && Queue(Other(p)) == k.Of(Other(p)).queue
      requires cntL == Register(k, p) && cntR == Register(k, Other(p))
      modifies this`cnt9, this`cnt7, this`link
      ensures Valid() && link == k
    {
      hide Register, Queue, Valid, Wired, CntOf, RingOf, Link.Of;
      SetCnt(p, cntL);
      SetCnt(Other(p), cntR);
      link := k;
      EitherSide(p);
    }

    /** `IPC_FIFOinit`, which clears one processor's ring and sets its register. */
    method Init(proc: Proc)
      requires Wired()
      modifies this`cnt9, this`cnt7, ring9, ring7
      ensures Wired() && Queue(proc) == [] && Queue(Other(proc)) == old(Queue(Other(proc)))
      ensures CntOf(proc) == 0x0101 && CntOf(Other(proc)) == old(CntOf(Other(proc)))
    {
      hide Queue, Ring.Valid, RingOf;
      Clear(proc);
      SetCnt(proc, 0x0101);
    }

    /** Both inits, in either order, leave the link as after reset. */
    method InitBoth(first: Proc)
      requires Wired()
      modifies this, ring9, ring7
      ensures Valid() && link == RESET && irqs == old(irqs)
    {
      hide Queue, Wired, Ring.Valid, RingOf, Valid, CntOf, Register;
      Init(first);
      Init(Other(first));
      ResetRegisters(first);
      WriteBack(first, CntOf(first), CntOf(Other(first)), RESET);
    }

    method MakeIrq(irq: Irq)
      modifies this`irqs
      ensures irqs == old(irqs) + [irq]
    {
      irqs := irqs + [irq];
    }

    /** `IPC_FIFOsend`. */
    method Send(proc: Proc, val: Word)
      requires Valid()
      modifies this, ring9, ring7, ring9.buf, ring7.buf
      ensures Valid() && link == old(SendStep(link, proc, val).link)
      ensures irqs == old(irqs + SendStep(link, proc, val).irqs)
    {
      hide Register, SendStep, Queue, Keep, Put, Has, Valid, Wired, CntOf, RingOf, Link.Of, Link.With, Ring.Valid;
      EitherSide(proc);
      ghost var k := link;
      ReadRegister(k, proc);
      SendOutcome(k, proc, val);
      ghost var k' := SendStep(k, proc, val).link;
      var remote := Other(proc);
      var cntL := CntOf(proc);
      if !Has(cntL, FIFOENABLE) {
        return;
      }
      if RingOf(proc).size > 15 {
        cntL := Put(cntL, FIFOERROR);
        ErrorRegisters(k, proc);
        WriteBack(proc, cntL, CntOf(remote), k');
        return;
      }
      SendRegisters(k, proc, val);
      ReadRegister(k', remote);
      var cntR := CntOf(remote);
      cntL := Keep(cntL, 0xBFFC);
      cntR := Keep(cntR, 0xBCFF);
      Push(proc, val);
      if RingOf(proc).size > 15 {
        cntL := Put(cntL, SENDFULL);
        cntR := Put(cntR, RECVFULL);
      }
      WriteBack(proc, cntL, cntR, k');
      if Has(cntR, RECVIRQEN) { MakeIrq(RecvNonEmpty(remote)); }
    }

    /** `IPC_FIFOrecv`. */
    method Recv(proc: Proc) returns (val: Word)
      requires Valid()
      modifies this, ring9, ring7, ring9.buf, ring7.buf
      ensures Valid() && link == old(RecvStep(link, proc).link) && val == old(RecvStep(link, proc).value)
      ensures irqs == old(irqs + RecvStep(link, proc).irqs)
    {
      hide Register, RecvStep, Queue, Keep, Put, Has, Valid, Wired, CntOf, RingOf, Link.Of, Link.With, Ring.Valid;
      EitherSide(proc);
      ghost var k := link;
      ReadRegister(k, proc);
      RecvOutcome(k, proc);
      ghost var k' := RecvStep(k, proc).link;
      var remote := Other(proc);
      var cntL := CntOf(proc);
      if !Has(cntL, FIFOENABLE) { return 0; }
      if RingOf(remote).size == 0 {
        cntL := Put(cntL, FIFOERROR);
        ErrorRegisters(k, proc);
        WriteBack(proc, cntL, CntOf(remote), k');
        return 0;
      }
      RecvRegisters(k, proc);
      ReadRegister(k', remote);
      var cntR := CntOf(remote);
      cntL := Keep(cntL, 0xBCFF);
      cntR := Keep(cntR, 0xBFFC);
      val := Pop(remote);
      if RingOf(remote).size == 0 {
        cntL := Put(cntL, RECVEMPTY);
        cntR := Put(cntR, SENDEMPTY);
        if Has(cntR, SENDIRQEN) { MakeIrq(SendEmpty(remote)); }
      }
      WriteBack(proc, cntL, cntR, k');
    }

    /** The interrupts that a control write may find due. */
    method RaiseEnabled(proc: Proc, cnt: bv16)
      modifies this`irqs
      ensures irqs == old(irqs) + RaisedIf(Has(cnt, SENDIRQEN) && Has(cnt, SENDEMPTY), SendEmpty(proc))
                                + RaisedIf(Has(cnt, RECVIRQEN) && !Has(cnt, RECVEMPTY), RecvNonEmpty(proc))
    {
      hide Has;
      if Has(cnt, SENDIRQEN) { if Has(cnt, SENDEMPTY) { MakeIrq(SendEmpty(proc)); } }
      if Has(cnt, RECVIRQEN) { if !Has(cnt, RECVEMPTY) { MakeIrq(RecvNonEmpty(proc)); } }
    }

    /** `IPC_FIFOcnt`. */
    method Cnt(proc: Proc, val: bv16)
      requires Valid()
      modifies this, ring9, ring7, ring9.buf, ring7.buf
      ensures Valid() && link == old(ControlStep(link, proc, ControlOf(val)).link)
      ensures irqs == old(irqs + ControlStep(link, proc, ControlOf(val)).irqs)
    {
      hide RaisedIf, Register, ControlStep, Queue, Keep, Put, Has, Valid, Wired, CntOf, RingOf, Link.Of, Link.With,
           Ring.Valid;
      EitherSide(proc);
      ghost var k := link;
      ControlOutcome(k, proc, ControlOf(val));
      ControlRegisters(k, proc, val);
      PeerRegister(k, proc, val);
      ghost var k' := ControlStep(k, proc, ControlOf(val)).link;
      ReadRegister(k', proc);
      var cntL, cntR := CntOf(proc), CntOf(Other(proc));
      if Has(val, FIFOERROR) { cntL := Keep(cntL, !FIFOERROR); }
      if Has(val, SENDCLEAR) {
        Clear(proc);
        cntL := Put(cntL, SENDEMPTY);
        cntR := Put(cntR, RECVEMPTY);
        cntL := Keep(cntL, !SENDFULL);
        cntR := Keep(cntR, !RECVFULL);
      }
      cntL := Keep(cntL, !WRITEABLE);
      cntL := Put(cntL, Keep(val, WRITEABLE));
      RaiseEnabled(proc, cntL);
      WriteBack(proc, cntL, cntR, k');
    }
  }

  lemma ResetRegisters(p: Proc)
    ensures Register(RESET, p) == Register(RESET, Other(p)) == 0x0101
    ensures RESET.Of(p).queue == RESET.Of(Other(p)).queue == []
  {}

  lemma ReadRegister(k: Link, p: Proc)
    ensures var c, l := Register(k, p), k.Of(p);
      && Has(c, FIFOENABLE) == l.enabled && Has(c, RECVIRQEN) == l.recvIrq && Has(c, SENDIRQEN) == l.sendIrq
      && Has(c, SENDEMPTY) == (l.queue == []) && Has(c, RECVEMPTY) == (k.Of(Other(p)).queue == [])
  {
    hide Bits.Packed, Has;
    BitsRead(BitsOf(k, p));
  }

  lemma ErrorRegisters(k: Link, p: Proc)
    ensures var k' := k.With(p, k.Of(p).(error := true));
      && Register(k', p) == Put(Register(k, p), FIFOERROR) && Register(k', Other(p)) == Register(k, Other(p))
      && k'.Of(p).queue == k.Of(p).queue && k'.Of(Other(p)).queue == k.Of(Other(p)).queue
  {
    hide Bits.Packed, Put;
    var k' := k.With(p, k.Of(p).(error := true));
    assert k'.Of(p) == k.Of(p).(error := true) && k'.Of(Other(p)) == k.Of(Other(p));
    ErrorSet(BitsOf(k, p));
  }

  /** What an accepted word does to the two registers, bit by bit. */
  lemma SendBits(k: Link, p: Proc, word: Word)
    requires var l := k.Of(p); l.enabled && |l.queue| < CAPACITY
    ensures var k', full := SendStep(k, p, word).link, |k.Of(p).queue| + 1 == CAPACITY;
      && BitsOf(k', p) == BitsOf(k, p).(sendEmpty := false, sendFull := full, error := false)
      && BitsOf(k', Other(p)) == BitsOf(k, Other(p)).(recvEmpty := false, recvFull := full, error := false)
  {
    hide Link.Of, Link.With;
    var l, r := k.Of(p), k.Of(Other(p));
    var l' := l.(queue := l.queue + [word], error := false);
    WithOf(k, p, l');
    WithOf(k.With(p, l'), Other(p), r.(error := false));
  }

  /** The register of a processor that has sent, and of one that has a word to receive. */
  lemma AfterSending(b: Bits, full: bool)
    ensures var c := Keep(b.Packed(), 0xBFFC);
      (if full then Put(c, SENDFULL) else c) == b.(sendEmpty := false, sendFull := full, error := false).Packed()
  {
    hide Bits.Packed, Keep, Put;
    SendForgotten(b);
    SendFullSet(b.(sendEmpty := false, sendFull := false, error := false));
  }

  lemma AfterArrival(b: Bits, full: bool)
    ensures var c := Keep(b.Packed(), 0xBCFF);
      (if full then Put(c, RECVFULL) else c) == b.(recvEmpty := false, recvFull := full, error := false).Packed()
  {
    hide Bits.Packed, Keep, Put;
    RecvForgotten(b);
    RecvFullSet(b.(recvEmpty := false, recvFull := false, error := false));
  }

  lemma SendRegisters(k: Link, p: Proc, word: Word)
    requires var l := k.Of(p); l.enabled && |l.queue| < CAPACITY
    ensures var k', full := SendStep(k, p, word).link, |k.Of(p).queue| + 1 == CAPACITY;
      var cntL, cntR := Keep(Register(k, p), 0xBFFC), Keep(Register(k, Other(p)), 0xBCFF);
      && Register(k', p) == (if full then Put(cntL, SENDFULL) else cntL)
      && Register(k', Other(p)) == (if full then Put(cntR, RECVFULL) else cntR)
  {
    hide Bits.Packed, Keep, Put, BitsOf, SendStep;
    var b, d := BitsOf(k, p), BitsOf(k, Other(p));
    var full := |k.Of(p).queue| + 1 == CAPACITY;
    SendBits(k, p, word);
    AfterSending(b, full);
    AfterArrival(d, full);
  }

  /** What a delivered word does to the two registers, bit by bit. */
  lemma RecvBits(k: Link, p: Proc)
    requires k.Of(p).enabled && 0 < |k.Of(Other(p)).queue| <= CAPACITY
    ensures var k', empty := RecvStep(k, p).link, |k.Of(Other(p)).queue| == 1;
      && BitsOf(k', p) == BitsOf(k, p).(recvEmpty := empty, recvFull := false, error := false)
      && BitsOf(k', Other(p)) == BitsOf(k, Other(p)).(sendEmpty := empty, sendFull := false, error := false)
  {
    hide Link.Of, Link.With;
    var l, r := k.Of(p), k.Of(Other(p));
    var r' := r.(queue := r.queue[1..], error := false);
    WithOf(k, p, l.(error := false));
    WithOf(k.With(p, l.(error := false)), Other(p), r');
    assert |r'.queue| == |r.queue| - 1;
  }

  /** The register of a processor that has received, and of one whose word has gone. */
  lemma AfterReceiving(b: Bits, empty: bool)
    ensures var c := Keep(b.Packed(), 0xBCFF);
      (if empty then Put(c, RECVEMPTY) else c) == b.(recvEmpty := empty, recvFull := false, error := false).Packed()
  {
    hide Bits.Packed, Keep, Put;
    RecvForgotten(b);
    RecvEmptySet(b.(recvEmpty := false, recvFull := false, error := false));
  }

  lemma AfterDeparture(b: Bits, empty: bool)
    ensures var c := Keep(b.Packed(), 0xBFFC);
      (if empty then Put(c, SENDEMPTY) else c) == b.(sendEmpty := empty, sendFull := false, error := false).Packed()
  {
    hide Bits.Packed, Keep, Put;
    SendForgotten(b);
    SendEmptySet(b.(sendEmpty := false, sendFull := false, error := false));
  }

  lemma RecvRegisters(k: Link, p: Proc)
    requires k.Of(p).enabled && 0 < |k.Of(Other(p)).queue| <= CAPACITY
    ensures var k', empty := RecvStep(k, p).link, |k.Of(Other(p)).queue| == 1;
      var cntL, cntR := Keep(Register(k, p), 0xBCFF), Keep(Register(k, Other(p)), 0xBFFC);
      && Register(k', p) == (if empty then Put(cntL, RECVEMPTY) else cntL)
      && Register(k', Other(p)) == (if empty then Put(cntR, SENDEMPTY) else cntR)
  {
    hide Bits.Packed, Keep, Put, BitsOf, RecvStep;
    var b, d := BitsOf(k, p), BitsOf(k, Other(p));
    var empty := |k.Of(Other(p)).queue| == 1;
    RecvBits(k, p);
    AfterReceiving(b, empty);
    AfterDeparture(d, empty);
  }

  /** What a control write does to the two registers, bit by bit. */
  lemma ControlBits(k: Link, p: Proc, c: Control)
    ensures var k', b, d := ControlStep(k, p, c).link, BitsOf(k, p), BitsOf(k, Other(p));
      && BitsOf(k', p) == b.(sendEmpty := c.clear || b.sendEmpty, sendFull := !c.clear && b.sendFull,
                             sendIrq := c.sendIrq, recvIrq := c.recvIrq, enabled := c.enabled,
                             error := b.error && !c.acknowledge)
      && BitsOf(k', Other(p)) == d.(recvEmpty := c.clear || d.recvEmpty, recvFull := !c.clear && d.recvFull)
  {
    hide Link.Of, Link.With, ControlStep;
    ControlSides(k, p, c);
    assert Other(Other(p)) == p;
  }

  lemma ControlRegisters(k: Link, p: Proc, val: bv16)
    ensures var k', c := ControlStep(k, p, ControlOf(val)).link, Register(k, p);
      var acked := if Has(val, FIFOERROR) then Keep(c, !FIFOERROR) else c;
      var emptied := if Has(val, SENDCLEAR) then Keep(Put(acked, SENDEMPTY), !SENDFULL) else acked;
      Register(k', p) == Put(Keep(emptied, !WRITEABLE), Keep(val, WRITEABLE))
  {
    hide Bits.Packed, Keep, Put, Has, BitsOf, ControlStep;
    var b := BitsOf(k, p);
    ControlBits(k, p, ControlOf(val));
    ErrorCleared(b);
    var acked := if Has(val, FIFOERROR) then b.(error := false) else b;
    SendEmptySet(acked);
    SendFullCleared(acked.(sendEmpty := true));
    Written(if Has(val, SENDCLEAR) then acked.(sendEmpty := true, sendFull := false) else acked, val);
  }

  lemma PeerRegister(k: Link, p: Proc, val: bv16)
    ensures var k', d := ControlStep(k, p, ControlOf(val)).link, Register(k, Other(p));
      Register(k', Other(p)) == (if Has(val, SENDCLEAR) then Keep(Put(d, RECVEMPTY), !RECVFULL) else d)
  {
    hide Bits.Packed, Keep, Put, Has, BitsOf, ControlStep;
    var d := BitsOf(k, Other(p));
    ControlBits(k, p, ControlOf(val));
    RecvEmptySet(d);
    RecvFullCleared(d.(recvEmpty := true));
  }

  lemma SendOutcome(k: Link, p: Proc, word: Word)
    ensures var o, l, r := SendStep(k, p, word), k.Of(p), k.Of(Other(p));
      if !l.enabled then o.link == k && o.irqs == []
      else if |l.queue| == CAPACITY then o.link == k.With(p, l.(error := true)) && o.irqs == []
      else
        && o.link.Of(p).queue == l.queue + [word] && o.link.Of(Other(p)).queue == r.queue
        && o.irqs == if o.link.Of(Other(p)).recvIrq then [RecvNonEmpty(Other(p))] else []
  {}

  lemma RecvOutcome(k: Link, p: Proc)
    ensures var o, l, r := RecvStep(k, p), k.Of(p), k.Of(Other(p));
      if !l.enabled then o.link == k && o.value == 0 && o.irqs == []
      else if r.queue == [] then o.link == k.With(p, l.(error := true)) && o.value == 0 && o.irqs == []
      else
        && o.value == r.queue[0] && o.link.Of(Other(p)).queue == r.queue[1..] && o.link.Of(p).queue == l.queue
        && o.irqs
           == if o.link.Of(Other(p)).queue == [] && o.link.Of(Other(p)).sendIrq then [SendEmpty(Other(p))] else []
  {}

  lemma ControlOutcome(k: Link, p: Proc, c: Control)
    ensures var o, l, r := ControlStep(k, p, c), k.Of(p), k.Of(Other(p));
      && o.link.Of(p).queue == (if c.clear then [] else l.queue) && o.link.Of(Other(p)) == r
      && o.link.Of(p).sendIrq == c.sendIrq && o.link.Of(p).recvIrq == c.recvIrq
      && o.irqs
         == RaisedIf(c.sendIrq && o.link.Of(p).queue == [], SendEmpty(p))
            + RaisedIf(c.recvIrq && r.queue != [], RecvNonEmpty(p))
  {}
}
