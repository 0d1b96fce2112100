/**
 The link between the two processors, as programs see it: one queue of at most 16 words in each direction,
 and for each processor the bits it may set. Every status bit is derived from the queues.
 */
module IpcLink {
  import opened Words

  datatype Proc = ARM9 | ARM7

  function Other(p: Proc): Proc { if p == ARM9 then ARM7 else ARM9 }

  /** One processor's side: the words it has sent and the other has not received, and its own bits. */
  datatype Side = Side(queue: seq<Word>, enabled: bool, sendIrq: bool, recvIrq: bool, error: bool)

  datatype Link = Link(arm9: Side, arm7: Side)
  {
    function Of(p: Proc): Side { if p == ARM9 then arm9 else arm7 }

    function With(p: Proc, s: Side): Link { if p == ARM9 then this.(arm9 := s) else this.(arm7 := s) }
  }

  lemma WithOf(k: Link, p: Proc, s: Side)
    ensures k.With(p, s).Of(p) == s && k.With(p, s).Of(Other(p)) == k.Of(Other(p)) && Other(Other(p)) == p
  {}

  const CAPACITY := 16

  const RESET := Link(Side([], false, false, false, false), Side([], false, false, false, false))

  datatype Irq = SendEmpty(to: Proc) | RecvNonEmpty(to: Proc)

  datatype Event =
    | Accepted(from: Proc, word: Word)
    | Delivered(from: Proc, word: Word)
    | Cleared(from: Proc)

  /** What a step leads to: the new link, the value it returns, its traffic and the interrupts it raises. */
  datatype Outcome = Outcome(link: Link, value: Word, events: seq<Event>, irqs: seq<Irq>)

  /** A write to the control register: the bits the program may set, the acknowledge and the clear. */
  datatype Control = Control(enabled: bool, sendIrq: bool, recvIrq: bool, acknowledge: bool, clear: bool)

  datatype Step = Send(proc: Proc, word: Word) | Recv(proc: Proc) | SetControl(proc: Proc, control: Control)

  /** The interrupt, when its condition holds. */
  function RaisedIf(b: bool, irq: Irq): seq<Irq> { if b then [irq] else [] }

  function SendStep(k: Link, p: Proc, word: Word): Outcome {
    var l, r := k.Of(p), k.Of(Other(p));
    if !l.enabled then Outcome(k, 0, [], [])
    else if |l.queue| == CAPACITY then Outcome(k.With(p, l.(error := true)), 0, [], [])
    else Outcome(k.With(p, l.(queue := l.queue + [word], error := false)).With(Other(p), r.(error := false)), 0,
                 [Accepted(p, word)], RaisedIf(r.recvIrq, RecvNonEmpty(Other(p))))
  }

  function RecvStep(k: Link, p: Proc): Outcome {
    var l, r := k.Of(p), k.Of(Other(p));
    if !l.enabled then Outcome(k, 0, [], [])
    else if r.queue == [] then Outcome(k.With(p, l.(error := true)), 0, [], [])
    else Outcome(k.With(p, l.(error := false)).With(Other(p), r.(queue := r.queue[1..], error := false)), r.queue[0],
                 [Delivered(Other(p), r.queue[0])],
                 RaisedIf(|r.queue| == 1 && r.sendIrq, SendEmpty(Other(p))))
  }

  function ControlStep(k: Link, p: Proc, c: Control): Outcome {
    var l, r := k.Of(p), k.Of(Other(p));
    var queue := if c.clear then [] else l.queue;
    Outcome(k.With(p, Side(queue, c.enabled, c.sendIrq, c.recvIrq, l.error && !c.acknowledge)), 0,
            if c.clear then [Cleared(p)] else [],
            RaisedIf(c.sendIrq && queue == [], SendEmpty(p)) + RaisedIf(c.recvIrq && r.queue != [], RecvNonEmpty(p)))
  }

  function Take(k: Link, s: Step): Outcome {
    match s
    case Send(p, word) => SendStep(k, p, word)
    case Recv(p) => RecvStep(k, p)
    case SetControl(p, c) => ControlStep(k, p, c)
  }

  // ---------------------------------------------------------------- runs

  /** The link after a run of steps from reset. */
  function After(run: seq<Step>): Link {
    if run == [] then RESET else Take(After(run[..|run| - 1]), run[|run| - 1]).link
  }

  /** What the last step of a non-empty run led to. */
  function Last(run: seq<Step>): Outcome
    requires run != []
  {
    Take(After(run[..|run| - 1]), run[|run| - 1])
  }

  /** The traffic of a run, in order. */
  function Log(run: seq<Step>): seq<Event> {
    if run == [] then [] else Log(run[..|run| - 1]) + Last(run).events
  }

  /** The words accepted from `p` since its queue was last cleared, in order. */
  function Sent(log: seq<Event>, p: Proc): seq<Word> {
    if log == [] then []
    else
      var before, e := Sent(log[..|log| - 1], p), log[|log| - 1];
      if e == Cleared(p) then [] else if e.Accepted? && e.from == p then before + [e.word] else before
  }

  /** The words of `p` delivered to the other processor since the last clear, in order. */
  function Received(log: seq<Event>, p: Proc): seq<Word> {
    if log == [] then []
    else
      var before, e := Received(log[..|log| - 1], p), log[|log| - 1];
      if e == Cleared(p) then [] else if e.Delivered? && e.from == p then before + [e.word] else before
  }

  lemma SentSnoc(log: seq<Event>, e: Event, p: Proc)
    ensures Sent(log + [e], p)
         == if e == Cleared(p) then [] else if e.Accepted? && e.from == p then Sent(log, p) + [e.word] else Sent(log, p)
    ensures Received(log + [e], p)
         == if e == Cleared(p) then [] else if e.Delivered? && e.from == p then Received(log, p) + [e.word]
            else Received(log, p)
  {
    assert (log + [e])[..|log|] == log;
  }

  ghost predicate Conserved(k: Link, log: seq<Event>) {
    && |k.arm9.queue| <= CAPACITY && |k.arm7.queue| <= CAPACITY
    && forall p :: Sent(log, p) == Received(log, p) + k.Of(p).queue
  }

  lemma StepConserves(k: Link, log: seq<Event>, s: Step)
    requires Conserved(k, log)
    ensures Conserved(Take(k, s).link, log + Take(k, s).events)
  {
    var o := Take(k, s);
    forall p ensures Sent(log + o.events, p) == Received(log + o.events, p) + o.link.Of(p).queue {
      match s
      case Send(q, word) => SendConserves(k, log, q, word, p);
      case Recv(q) => RecvConserves(k, log, q, p);
      case SetControl(q, c) => ControlConserves(k, log, q, c, p);
    }
  }

  lemma SendConserves(k: Link, log: seq<Event>, q: Proc, word: Word, p: Proc)
    requires Conserved(k, log)
    ensures var o := SendStep(k, q, word);
            Sent(log + o.events, p) == Received(log + o.events, p) + o.link.Of(p).queue
  {
    hide Sent, Received;
    var o, l, r := SendStep(k, q, word), k.Of(q), k.Of(Other(q));
    if !l.enabled || |l.queue| == CAPACITY {
      assert log + o.events == log;
    } else {
      SentSnoc(log, Accepted(q, word), p);
    }
  }

  lemma RecvConserves(k: Link, log: seq<Event>, q: Proc, p: Proc)
    requires Conserved(k, log)
    ensures var o := RecvStep(k, q);
            Sent(log + o.events, p) == Received(log + o.events, p) + o.link.Of(p).queue
  {
    hide Sent, Received, Link.Of, Link.With;
    var o, l, r := RecvStep(k, q), k.Of(q), k.Of(Other(q));
    if !l.enabled || r.queue == [] {
      assert log + o.events == log;
      WithOf(k, q, l.(error := true));
    } else {
      WithOf(k, q, l.(error := false));
      WithOf(k.With(q, l.(error := false)), Other(q), r.(queue := r.queue[1..], error := false));
      SentSnoc(log, Delivered(Other(q), r.queue[0]), p);
      assert r.queue == [r.queue[0]] + r.queue[1..];
    }
  }

  lemma ControlConserves(k: Link, log: seq<Event>, q: Proc, c: Control, p: Proc)
    requires Conserved(k, log)
    ensures var o := ControlStep(k, q, c);
            Sent(log + o.events, p) == Received(log + o.events, p) + o.link.Of(p).queue
  {
    hide Sent, Received;
    if c.clear { SentSnoc(log, Cleared(q), p); } else { assert log + ControlStep(k, q, c).events == log; }
  }

  /**
   Over every run of both processors: the words received since the last clear followed by the words still
   queued are exactly the words accepted since then, in order. Nothing is lost, duplicated or reordered, and
   no queue outgrows the ring.
   */
  lemma {:induction false} NothingLost(run: seq<Step>, p: Proc)
    ensures Sent(Log(run), p) == Received(Log(run), p) + After(run).Of(p).queue
    ensures |After(run).Of(p).queue| <= CAPACITY
  {
    RunConserves(run);
  }

  lemma {:induction false} RunConserves(run: seq<Step>)
    ensures Conserved(After(run), Log(run))
  {
    if run != [] {
      var before := run[..|run| - 1];
      RunConserves(before);
      StepConserves(After(before), Log(before), run[|run| - 1]);
    }
  }

  // ---------------------------------------------------------------- words accepted, delivered and refused

  /** A step that moves a word: a send to a queue with room, or a receive from one that is not empty. */
  predicate Moves(k: Link, s: Step) {
    match s
    case Send(p, _) => k.Of(p).enabled && |k.Of(p).queue| < 16
    case Recv(p) => k.Of(p).enabled && k.Of(Other(p)).queue != []
    case SetControl(_, _) => false
  }

  /** A step the link refuses though the processor has it enabled. */
  predicate Refuses(k: Link, s: Step) {
    match s
    case Send(p, _) => k.Of(p).enabled && |k.Of(p).queue| >= 16
    case Recv(p) => k.Of(p).enabled && k.Of(Other(p)).queue == []
    case SetControl(_, _) => false
  }

  /** Exactly the steps that move a word have traffic, besides a clear; a receive returns the oldest word or 0. */
  lemma StepTraffic(k: Link, s: Step)
    requires |k.Of(s.proc).queue| <= 16
    ensures var o := Take(k, s);
      match s
      case Send(p, word) => o.events == if Moves(k, s) then [Accepted(p, word)] else []
      case Recv(p) =>
        && o.events == (if Moves(k, s) then [Delivered(Other(p), k.Of(Other(p)).queue[0])] else [])
        && o.value == if Moves(k, s) then k.Of(Other(p)).queue[0] else 0
      case SetControl(p, c) => o.events == if c.clear then [Cleared(p)] else []
  {}

  /** What a step does to a processor's own bits: only its control writes set them. */
  lemma StepBits(k: Link, s: Step, p: Proc)
    ensures var l, l' := k.Of(p), Take(k, s).link.Of(p);
      if s.SetControl? && s.proc == p then
        l'.enabled == s.control.enabled && l'.sendIrq == s.control.sendIrq && l'.recvIrq == s.control.recvIrq
      else l'.enabled == l.enabled && l'.sendIrq == l.sendIrq && l'.recvIrq == l.recvIrq
  {
    hide Link.Of, Link.With;
    var r := s.proc;
    var l, o := k.Of(r), k.Of(Other(r));
    match s
    case Send(_, word) =>
      WithOf(k, r, l.(error := true));
      WithOf(k, r, l.(queue := l.queue + [word], error := false));
      WithOf(k.With(r, l.(queue := l.queue + [word], error := false)), Other(r), o.(error := false));
    case Recv(_) =>
      WithOf(k, r, l.(error := true));
      if o.queue != [] {
        WithOf(k, r, l.(error := false));
        WithOf(k.With(r, l.(error := false)), Other(r), o.(queue := o.queue[1..], error := false));
      }
    case SetControl(_, c) => ControlSides(k, r, c);
  }

  /** What a step does to the error bits: a refusal sets the processor's own, a word moved clears both. */
  lemma StepErrors(k: Link, s: Step, p: Proc)
    requires |k.Of(s.proc).queue| <= 16
    ensures Take(k, s).link.Of(p).error
         == if Moves(k, s) then false
            else if Refuses(k, s) && s.proc == p then true
            else k.Of(p).error && !(s.SetControl? && s.proc == p && s.control.acknowledge)
  {
    hide Link.Of, Link.With;
    var r := s.proc;
    var l, o := k.Of(r), k.Of(Other(r));
    match s
    case Send(_, word) =>
      WithOf(k, r, l.(error := true));
      WithOf(k, r, l.(queue := l.queue + [word], error := false));
      WithOf(k.With(r, l.(queue := l.queue + [word], error := false)), Other(r), o.(error := false));
    case Recv(_) =>
      WithOf(k, r, l.(error := true));
      if o.queue != [] {
        WithOf(k, r, l.(error := false));
        WithOf(k.With(r, l.(error := false)), Other(r), o.(queue := o.queue[1..], error := false));
      }
    case SetControl(_, c) => ControlSides(k, r, c);
  }

  /** Step `i` of a run was refused to `p`, and since then no word has moved and `p` has not acknowledged. */
  ghost predicate RefusedSince(run: seq<Step>, p: Proc, i: nat) {
    && i < |run| && run[i].proc == p && Refuses(After(run[..i]), run[i])
    && forall j :: i < j < |run| ==>
         !Moves(After(run[..j]), run[j]) && !(run[j].SetControl? && run[j].proc == p && run[j].control.acknowledge)
  }

  /** In every reachable state the error bit says that a step was refused and nothing has made up for it since. */
  lemma {:induction false} ErrorMeaning(run: seq<Step>, p: Proc)
    ensures After(run).Of(p).error <==> exists i: nat :: RefusedSince(run, p, i)
  {
    hide Take, Moves, Refuses, Link.Of;
    if run == [] {
      assert !RESET.Of(p).error by { NoErrorAtReset(p); }
    } else {
      var n := |run| - 1;
      var before := run[..n];
      var k, s := After(before), run[n];
      ErrorMeaning(before, p);
      NothingLost(before, s.proc);
      StepErrors(k, s, p);
      if Refuses(k, s) && s.proc == p {
        NotBoth(k, s);
        assert RefusedSince(run, p, n);
      } else {
        RefusedBefore(run, p);
      }
    }
  }

  lemma NoErrorAtReset(p: Proc)
    ensures !RESET.Of(p).error
  {}

  lemma NotBoth(k: Link, s: Step)
    ensures !(Moves(k, s) && Refuses(k, s))
  {}

  lemma RefusedBefore(run: seq<Step>, p: Proc)
    requires run != []
    requires var n := |run| - 1; !(Refuses(After(run[..n]), run[n]) && run[n].proc == p)
    ensures var n, s := |run| - 1, run[|run| - 1];
      (exists i: nat :: RefusedSince(run, p, i)) <==>
      (exists i: nat :: RefusedSince(run[..n], p, i))
      && !Moves(After(run[..n]), s) && !(s.SetControl? && s.proc == p && s.control.acknowledge)
  {
    hide After, Moves, Refuses;
    var n := |run| - 1;
    var before := run[..n];
    assert forall j | 0 <= j <= n :: before[..j] == run[..j];
    if i: nat :| RefusedSince(run, p, i) {
      assert RefusedSince(before, p, i);
    }
    if i: nat :| RefusedSince(before, p, i) {
      if !Moves(After(before), run[n]) && !(run[n].SetControl? && run[n].proc == p && run[n].control.acknowledge) {
        assert RefusedSince(run, p, i);
      }
    }
  }

  // ---------------------------------------------------------------- interrupts

  /** The condition an interrupt stands for. */
  predicate Due(k: Link, irq: Irq) {
    match irq
    case SendEmpty(p) => k.Of(p).sendIrq && k.Of(p).queue == []
    case RecvNonEmpty(p) => k.Of(p).recvIrq && k.Of(Other(p)).queue != []
  }

  /** A step raises only interrupts that are due after it, and every one that it makes due. */
  lemma StepRaises(k: Link, s: Step, irq: Irq)
    ensures irq in Take(k, s).irqs ==> Due(Take(k, s).link, irq)
    ensures Due(Take(k, s).link, irq) && !Due(k, irq) ==> irq in Take(k, s).irqs
  {
    hide SendStep, RecvStep, ControlStep, Due;
    match s
    case Send(p, word) => SendRaises(k, p, word, irq);
    case Recv(p) => RecvRaises(k, p, irq);
    case SetControl(p, c) => ControlRaises(k, p, c, irq);
  }

  /**
   * The interrupts a step may raise: its receiver's for a word sent, its sender's for one received, its own for a
   * control write.
   */
  predicate Concerns(k: Link, s: Step, irq: Irq) {
    match s
    case Send(p, _) => Moves(k, s) && irq == RecvNonEmpty(Other(p))
    case Recv(p) => Moves(k, s) && irq == SendEmpty(Other(p))
    case SetControl(p, _) => irq == SendEmpty(p) || irq == RecvNonEmpty(p)
  }

  /** Of those a step raises each that is due after it, once, and no other. */
  lemma StepRaisesExactly(k: Link, s: Step, irq: Irq)
    requires |k.Of(s.proc).queue| <= 16
    ensures irq in Take(k, s).irqs <==> Concerns(k, s, irq) && Due(Take(k, s).link, irq)
    ensures forall i, j | 0 <= i < j < |Take(k, s).irqs| :: Take(k, s).irqs[i] != Take(k, s).irqs[j]
  {
    hide Due, Link.Of, Link.With;
    var p := s.proc;
    var l, r := k.Of(p), k.Of(Other(p));
    DueFrom(k, p, irq);
    DueFrom(Take(k, s).link, p, irq);
    match s
    case Send(_, word) =>
      WithOf(k, p, l.(queue := l.queue + [word], error := false));
      WithOf(k.With(p, l.(queue := l.queue + [word], error := false)), Other(p), r.(error := false));
    case Recv(_) =>
      if r.queue != [] {
        WithOf(k, p, l.(error := false));
        WithOf(k.With(p, l.(error := false)), Other(p), r.(queue := r.queue[1..], error := false));
      }
    case SetControl(_, c) => ControlSides(k, p, c);
  }

  /** Which interrupts are due, from one processor's side. */
  lemma DueFrom(k: Link, p: Proc, irq: Irq)
    ensures Due(k, SendEmpty(p)) == (k.Of(p).sendIrq && k.Of(p).queue == [])
    ensures Due(k, RecvNonEmpty(p)) == (k.Of(p).recvIrq && k.Of(Other(p)).queue != [])
    ensures Due(k, SendEmpty(Other(p))) == (k.Of(Other(p)).sendIrq && k.Of(Other(p)).queue == [])
    ensures Due(k, RecvNonEmpty(Other(p))) == (k.Of(Other(p)).recvIrq && k.Of(p).queue != [])
    ensures irq == SendEmpty(p) || irq == RecvNonEmpty(p) || irq == SendEmpty(Other(p)) || irq == RecvNonEmpty(Other(p))
  {}

  lemma SendRaises(k: Link, p: Proc, word: Word, irq: Irq)
    ensures var o := SendStep(k, p, word);
      && (irq in o.irqs ==> Due(o.link, irq)) && (Due(o.link, irq) && !Due(k, irq) ==> irq in o.irqs)
  {
    hide Due, Link.Of, Link.With;
    var l, r := k.Of(p), k.Of(Other(p));
    var k1 := k.With(p, l.(queue := l.queue + [word], error := false));
    WithOf(k, p, l.(error := true));
    WithOf(k, p, l.(queue := l.queue + [word], error := false));
    WithOf(k1, Other(p), r.(error := false));
    DueFrom(k, p, irq);
    DueFrom(SendStep(k, p, word).link, p, irq);
  }

  lemma RecvRaises(k: Link, p: Proc, irq: Irq)
    ensures var o := RecvStep(k, p);
      && (irq in o.irqs ==> Due(o.link, irq)) && (Due(o.link, irq) && !Due(k, irq) ==> irq in o.irqs)
  {
    hide Due, Link.Of, Link.With;
    var l, r := k.Of(p), k.Of(Other(p));
    WithOf(k, p, l.(error := true));
    if r.queue != [] {
      WithOf(k, p, l.(error := false));
      WithOf(k.With(p, l.(error := false)), Other(p), r.(queue := r.queue[1..], error := false));
    }
    DueFrom(k, p, irq);
    DueFrom(RecvStep(k, p).link, p, irq);
  }

  lemma ControlRaises(k: Link, p: Proc, c: Control, irq: Irq)
    ensures var o := ControlStep(k, p, c);
      && (irq in o.irqs ==> Due(o.link, irq)) && (Due(o.link, irq) && !Due(k, irq) ==> irq in o.irqs)
  {
    hide Due, Link.Of, Link.With;
    WithOf(k, p, ControlStep(k, p, c).link.Of(p));
    ControlSides(k, p, c);
    DueFrom(k, p, irq);
    DueFrom(ControlStep(k, p, c).link, p, irq);
  }

  lemma ControlSides(k: Link, p: Proc, c: Control)
    ensures var k', l := ControlStep(k, p, c).link, k.Of(p);
      && k'.Of(p) == Side(if c.clear then [] else l.queue, c.enabled, c.sendIrq, c.recvIrq,
                          l.error && !c.acknowledge)
      && k'.Of(Other(p)) == k.Of(Other(p))
  {}

  /** Raised by step `i` of the run, and due ever since. */
  ghost predicate RaisedSince(run: seq<Step>, irq: Irq, i: nat) {
    && 0 < i <= |run|
    && irq in Last(run[..i]).irqs
    && forall j :: i <= j <= |run| ==> Due(After(run[..j]), irq)
  }

  /** In every reachable state, an interrupt that is due was raised at or after the moment it became due. */
  lemma {:induction false} NoLostInterrupt(run: seq<Step>, irq: Irq)
    ensures Due(After(run), irq) <==> exists i: nat :: RaisedSince(run, irq, i)
    decreases |run|, 1
  {
    hide Take, Due;
    if Due(After(run), irq) {
      if run == [] {
        assert false by { DueAtReset(irq); }
      } else {
        NoLostStep(run, irq);
      }
    }
    if i: nat :| RaisedSince(run, irq, i) {
      assert run[..|run|] == run;
    }
  }

  lemma DueAtReset(irq: Irq)
    ensures !Due(RESET, irq)
  {}

  lemma {:induction false} NoLostStep(run: seq<Step>, irq: Irq)
    requires run != [] && Due(After(run), irq)
    ensures exists i: nat :: RaisedSince(run, irq, i)
    decreases |run|, 0
  {
    hide Take, Due, After;
    var n := |run| - 1;
    var before := run[..n];
    assert run[..|run|] == run;
    if irq in Last(run).irqs {
      assert RaisedSince(run, irq, |run|);
    } else {
      assert Due(After(before), irq) by { Persisted(run, irq); }
      NoLostInterrupt(before, irq);
      var i: nat :| RaisedSince(before, irq, i);
      assert before[..i] == run[..i];
      forall j | i <= j <= |run| ensures Due(After(run[..j]), irq) {
        if j <= n { assert before[..j] == run[..j]; }
      }
      assert RaisedSince(run, irq, i);
    }
  }

  lemma Persisted(run: seq<Step>, irq: Irq)
    requires run != [] && Due(After(run), irq) && irq !in Last(run).irqs
    ensures Due(After(run[..|run| - 1]), irq)
  {
    hide Take, Due;
    StepRaises(After(run[..|run| - 1]), run[|run| - 1], irq);
  }
}
