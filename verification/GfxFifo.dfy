/** The geometry command FIFO: its ring, the count of matrix-stack commands in flight and the status flags. */
module GfxFifo {
  import opened Words
  import opened Rings

  type Byte = x: nat | x < 0x100

  datatype Entry = Entry(cmd: Byte, param: Word)

  /** The flags of the status register that follow the FIFO. */
  datatype Status = Status(low: bool, empty: bool, busy: bool)

  datatype Event = Dma | Reschedule

  /** `HACK_GXIFO_SIZE`. */
  const CAPACITY := 200000

  predicate IsMatrixStackCommand(cmd: Byte) { cmd == 0x11 || cmd == 0x12 }

  /** How many matrix-stack commands are queued. */
  function MatrixOps(q: seq<Entry>): (n: nat)
    ensures n <= |q|
  {
    if q == [] then 0 else MatrixOps(q[..|q| - 1]) + if IsMatrixStackCommand(q[|q| - 1].cmd) then 1 else 0
  }

  /** The status a program should read: few enough entries, none, and any matrix-stack command pending. */
  ghost function StatusOf(q: seq<Entry>): Status {
    Status(|q| < 128, q == [], exists e :: e in q && IsMatrixStackCommand(e.cmd))
  }

  /** The count is non-zero exactly while a matrix-stack command waits. */
  lemma {:induction false} BusyExactly(q: seq<Entry>)
    ensures MatrixOps(q) != 0 <==> exists e :: e in q && (e.cmd == 0x11 || e.cmd == 0x12)
  {
    if q != [] {
      var front, last := q[..|q| - 1], q[|q| - 1];
      BusyExactly(front);
      assert q == front + [last];
      assert last in q;
    }
  }

  /** The flags: low up to 127 entries, empty with none, busy while a matrix push or pop is queued. */
  lemma StatusMeaning(q: seq<Entry>)
    ensures StatusOf(q).low <==> |q| <= 127
    ensures StatusOf(q).empty <==> |q| == 0
    ensures StatusOf(q).busy <==> exists k :: 0 <= k < |q| && (q[k].cmd == 0x11 || q[k].cmd == 0x12)
  {
    if k :| 0 <= k < |q| && (q[k].cmd == 0x11 || q[k].cmd == 0x12) { assert q[k] in q; }
  }

  /** Taking the oldest command takes exactly its own share of the count, so the count never underflows. */
  lemma {:induction false} MatrixOpsHead(q: seq<Entry>)
    requires q != []
    ensures MatrixOps(q) == MatrixOps(q[1..]) + if IsMatrixStackCommand(q[0].cmd) then 1 else 0
  {
    if |q| > 1 {
      MatrixOpsHead(q[..|q| - 1]);
      assert q[1..][..|q| - 2] == q[..|q| - 1][1..];
    } else {
      assert q[1..] == [] && q[..0] == [];
    }
  }

  lemma MatrixOpsPush(q: seq<Entry>, e: Entry)
    ensures MatrixOps(q + [e]) == MatrixOps(q) + if IsMatrixStackCommand(e.cmd) then 1 else 0
  {
    assert (q + [e])[..|q|] == q;
  }

  /** `GFX_PIPE`, of which only the clear is used. */
  class Pipe {
    var head: nat
    var tail: nat
    var size: nat

    constructor () { head, tail, size := 0, 0, 0; }
  }

  /** `GFX_FIFO`, with the flags it drives, what it triggered and the control register. */
  class Fifo {
    const cmd: array<Byte>
    const param: array<Word>
    var head: nat
    var tail: nat
    var size: nat
    var matrixStackOpSize: nat
    var status: Status
    var events: seq<Event>
    var control: Word

    /** The commands sent, and those handed on, since the last clear. */
    ghost var sent: seq<Entry>
    ghost var popped: seq<Entry>

    ghost predicate Wired()
      reads this`head, this`tail, this`size
    {
      && cmd.Length == param.Length == CAPACITY
      && head < CAPACITY && tail < CAPACITY && size <= CAPACITY && tail == Slot(CAPACITY, head, size)
    }

    /** The queued commands, oldest first. */
    ghost function Queue(): (q: seq<Entry>)
      reads this`head, this`tail, this`size, cmd, param
      requires Wired()
      ensures |q| == size
    {
      Entries(Window(cmd[..], head, size), Window(param[..], head, size))
    }

    ghost predicate Valid()
      reads this, cmd, param
    {
      && Wired()
      && matrixStackOpSize == MatrixOps(Queue())
      && sent == popped + Queue()
    }

    constructor ()
      ensures Valid() && Queue() == [] && sent == []
    {
      cmd := new Byte[CAPACITY](i => 0);
      param := new Word[CAPACITY](i => 0);
      head, tail, size, matrixStackOpSize := 0, 0, 0, 0;
      status, events, control, sent, popped := Status(true, true, false), [], 0, [], [];
    }

    /** `GXF_FIFO_handleEvents`. */
    method HandleEvents()
      requires Valid()
      modifies this`status, this`events
      ensures Valid() && status == StatusOf(Queue())
      ensures events == old(events) + (if status.low then [Dma] else [])
                + (if status.low != old(status.low) || status.empty != old(status.empty) then [Reschedule] else [])
    {
      hide Queue, Wired, MatrixOps;
      BusyExactly(Queue());
      var low := size <= 127;
      var lowChange := status.low != low;
      status := status.(low := low);
      if low { events := events + [Dma]; }
      var empty := size == 0;
      var emptyChange := status.empty != empty;
      status := status.(empty := empty);
      status := status.(busy := matrixStackOpSize != 0);
      if emptyChange || lowChange { events := events + [Reschedule]; }
    }

    /** The ring half of a send. */
    method Enqueue(c: Byte, p: Word)
      requires Wired() && size < CAPACITY
      modifies this`tail, this`size, cmd, param
      ensures Wired() && Queue() == old(Queue()) + [Entry(c, p)]
    {
      hide Window, Entries;
      EntriesPush(cmd[..], param[..], head, size, c, p);
      ghost var t := tail;
      assert tail == Slot(CAPACITY, head, size);
      cmd[tail] := c;
      param[tail] := p;
      assert cmd[..] == old(cmd[..])[t := c] && param[..] == old(param[..])[t := p];
      tail := tail + 1;
      size := size + 1;
      if tail > CAPACITY - 1 { tail := 0; }
    }

    /** The ring half of a receive. */
    method Dequeue()
      requires Wired() && size > 0
      modifies this`head, this`size
      ensures Wired() && Queue() == old(Queue()[1..])
    {
      hide Window, Entries;
      EntriesPop(cmd[..], param[..], head, size);
      head := head + 1;
      size := size - 1;
      if head > CAPACITY - 1 { head := 0; }
    }

    /** `GFX_FIFOsend`, below capacity. */
    method Send(c: Byte, p: Word)
      requires Valid() && size < 200000
      modifies this, cmd, param
      ensures Valid() && Queue() == old(Queue()) + [Entry(c, p)] && status == StatusOf(Queue())
      ensures sent == old(sent) + [Entry(c, p)] && popped == old(popped) && control == old(control)
    {
      hide StatusOf, MatrixOps, Queue, Wired;
      MatrixOpsPush(Queue(), Entry(c, p));
      Enqueue(c, p);
      if IsMatrixStackCommand(c) { matrixStackOpSize := matrixStackOpSize + 1; }
      sent := sent + [Entry(c, p)];
      HandleEvents();
    }

    /** `GFX_PIPErecv`. */
    method Recv() returns (entry: Entry, ok: bool)
      requires Valid()
      modifies this
      ensures Valid() && status == StatusOf(Queue()) && ok == (old(Queue()) != [])
      ensures if ok then entry == old(Queue()[0]) && Queue() == old(Queue()[1..]) && popped == old(popped) + [entry]
              else Queue() == old(Queue()) && popped == old(popped)
      ensures sent == old(sent) && control == old(control)
    {
      hide StatusOf, MatrixOps, Window, Entries;
      entry, ok := Entry(0, 0), false;
      if size == 0 {
        HandleEvents();
        return;
      }
      EntriesPop(cmd[..], param[..], head, size);
      MatrixOpsHead(Queue());
      entry := Entry(cmd[head], param[head]);
      assert entry == Queue()[0];
      if IsMatrixStackCommand(entry.cmd) { matrixStackOpSize := matrixStackOpSize - 1; }
      Dequeue();
      popped := popped + [entry];
      HandleEvents();
      ok := true;
    }

    /** `GFX_FIFOcnt`: bit 29 clears the pipe and the FIFO and leaves the flags as they were. */
    method Control(val: Word, pipe: Pipe)
      requires Valid()
      modifies this, pipe
      ensures Valid() && status == old(status) && events == old(events)
      ensures if val / 0x2000_0000 % 2 == 1 then
                Queue() == [] && sent == popped == [] && pipe.size == 0 && control == old(control)
              else
                Queue() == old(Queue()) && sent == old(sent) && popped == old(popped) && control == val
    {
      if val / 0x2000_0000 % 2 == 1 {
        pipe.head, pipe.tail, pipe.size := 0, 0, 0;
        matrixStackOpSize := 0;
        head, tail, size, matrixStackOpSize := 0, 0, 0, 0;
        sent, popped := [], [];
        return;
      }
      control := val;
    }
  }

  function Entries(cs: seq<Byte>, ps: seq<Word>): (q: seq<Entry>)
    requires |cs| == |ps|
    ensures |q| == |cs|
  {
    seq(|cs|, i requires 0 <= i < |cs| => Entry(cs[i], ps[i]))
  }

  lemma EntriesPush(cs: seq<Byte>, ps: seq<Word>, head: nat, size: nat, c: Byte, p: Word)
    requires |cs| == |ps| && head < |cs| && size < |cs|
    ensures var t := Slot(|cs|, head, size);
      Entries(Window(cs[t := c], head, size + 1), Window(ps[t := p], head, size + 1))
        == Entries(Window(cs, head, size), Window(ps, head, size)) + [Entry(c, p)]
  {
    WindowPush(cs, head, size, c);
    WindowPush(ps, head, size, p);
  }

  lemma EntriesPop(cs: seq<Byte>, ps: seq<Word>, head: nat, size: nat)
    requires |cs| == |ps| && head < |cs| && 0 < size <= |cs|
    ensures var q := Entries(Window(cs, head, size), Window(ps, head, size));
      && q[0] == Entry(cs[head], ps[head])
      && Entries(Window(cs, Slot(|cs|, head, 1), size - 1), Window(ps, Slot(|cs|, head, 1), size - 1)) == q[1..]
  {
    WindowPop(cs, head, size);
    WindowPop(ps, head, size);
  }
}
