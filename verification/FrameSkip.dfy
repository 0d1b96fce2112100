/** The main loop's choice of which frames to skip. Waiting for the clock changes none of its variables. */
module FrameSkip {
  import opened Words
  import opened Throttle

  /** `mainLoopData` and `lastskiprate`, as far as skipping goes. */
  datatype State = State(framestoskip: int, framesskipped: int, skipnextframe: bool, lastskiprate: int)

  /** What the loop reads on one step; `amount` is what automatic frame skip asks for. */
  datatype Input = Input(force: int, frameskiprate: int, automatic: bool, fastForward: bool, frameAdvance: bool,
                         continuous: bool, amount: int)
  {
    function SkipRate(): int { if force < 0 then frameskiprate else force }

    function FastRate(): int { if force < 0 then 9 else force }

    predicate MustShow() { force == 0 || frameAdvance || (continuous && !fastForward) }
  }

  /** The state in which a step decides: a new rate forgets the frames still to be skipped. */
  function Rated(s: State, i: Input): State {
    if s.lastskiprate != i.SkipRate() then s.(lastskiprate := i.SkipRate(), framestoskip := 0) else s
  }

  /** Whether a step skips the next frame. */
  predicate Skips(s: State, i: Input) { s.skipnextframe && !i.MustShow() }

  function Counted(s: State, i: Input): State {
    if Skips(s, i) then
      s.(framestoskip := s.framestoskip - 1, skipnextframe := s.framestoskip > 1, framesskipped := s.framesskipped + 1)
    else s.(framesskipped := 0, skipnextframe := s.skipnextframe || s.framestoskip > 0)
  }

  function Hurried(s: State, i: Input): State {
    if !i.fastForward then s
    else
      var t := if s.framesskipped < i.FastRate() then s.(skipnextframe := true, framestoskip := 1) else s;
      if t.framestoskip < 1 then t.(framestoskip := t.framestoskip + i.FastRate()) else t
  }

  function Refilled(s: State, i: Input): State {
    if s.framestoskip >= 1 then s
    else if i.automatic && i.frameskiprate != 0 then
      if i.frameAdvance || i.continuous then s else s.(framestoskip := s.framestoskip + i.amount)
    else s.(framestoskip := s.framestoskip + i.SkipRate())
  }

  function Next(s: State, i: Input): State { Refilled(Hurried(Counted(Rated(s, i), i), i), i) }

  // ---------------------------------------------------------------- runs at a fixed rate

  /** A step at rate `n`, neither fast-forwarding nor advancing by hand. */
  predicate Fixed(i: Input, n: nat) {
    i.SkipRate() == n && !i.fastForward && !i.frameAdvance && !i.continuous && 0 <= i.amount <= n
  }

  /** Which steps of a run skip. */
  function Pattern(s: State, run: seq<Input>): (p: seq<bool>)
    ensures |p| == |run|
    decreases |run|
  {
    if run == [] then [] else [Skips(s, run[0])] + Pattern(Next(s, run[0]), run[1..])
  }

  /** The frames still to be skipped, at rate `n`. */
  function Left(s: State, n: nat): int { if s.lastskiprate != n then 0 else s.framestoskip }

  /** No more than `n` frames left to skip, and none at rate 0. */
  predicate Ready(s: State, n: nat) { Left(s, n) <= n && (s.skipnextframe ==> n > 0) }

  /** The consecutive skips ahead of a state. */
  function Ahead(s: State, n: nat): nat {
    if !s.skipnextframe then 0 else if Left(s, n) > 1 then Left(s, n) else 1
  }

  lemma ReadyNext(s: State, i: Input, n: nat)
    requires Ready(s, n) && Fixed(i, n)
    ensures Ready(Next(s, i), n)
    ensures Skips(s, i) ==> Ahead(Next(s, i), n) == Ahead(s, n) - 1
  {}

  lemma {:induction false} ShownWithin(s: State, run: seq<Input>, n: nat)
    requires Ready(s, n) && |run| > Ahead(s, n) && forall k | 0 <= k < |run| :: Fixed(run[k], n)
    ensures exists k :: 0 <= k <= Ahead(s, n) && !Pattern(s, run)[k]
    decreases Ahead(s, n)
  {
    if Skips(s, run[0]) {
      ReadyNext(s, run[0], n);
      ShownWithin(Next(s, run[0]), run[1..], n);
      var k :| 0 <= k <= Ahead(Next(s, run[0]), n) && !Pattern(Next(s, run[0]), run[1..])[k];
      assert !Pattern(s, run)[k + 1];
    } else {
      assert !Pattern(s, run)[0];
    }
  }

  /** At a fixed rate `n`, whatever automatic frame skip asks for, no `n + 1` steps in a row all skip. */
  lemma {:induction false} NeverTooMany(s: State, run: seq<Input>, n: nat, from: nat)
    requires Ready(s, n) && from + n < |run| && forall k | 0 <= k < |run| :: Fixed(run[k], n)
    ensures exists k :: from <= k <= from + n && !Pattern(s, run)[k]
    decreases from
  {
    if from == 0 {
      ShownWithin(s, run, n);
    } else {
      ReadyNext(s, run[0], n);
      NeverTooMany(Next(s, run[0]), run[1..], n, from - 1);
      var k :| from - 1 <= k <= from - 1 + n && !Pattern(Next(s, run[0]), run[1..])[k];
      assert !Pattern(s, run)[k + 1];
    }
  }

  /** A state about to skip is followed by as many skips as it has ahead. */
  lemma {:induction false} AllSkip(s: State, run: seq<Input>, n: nat)
    requires s.skipnextframe && |run| == Ahead(s, n)
    requires forall k | 0 <= k < |run| :: Fixed(run[k], n) && run[k].force < 0
    ensures forall k | 0 <= k < |run| :: Pattern(s, run)[k]
    decreases |run|
  {
    var t := Next(s, run[0]);
    if Left(s, n) > 1 { AllSkip(t, run[1..], n); }
  }

  /** Of the `n + 1` steps of a run at rate `n` that begin with step `from`, one does not skip. */
  ghost predicate OneShown(s: State, n: nat, run: seq<Input>, from: nat) {
    from + n < |run| && (forall k | 0 <= k < |run| :: Fixed(run[k], n))
    ==> exists k :: from <= k <= from + n && !Pattern(s, run)[k]
  }

  /** A plain step at rate `n`. */
  function Plain(n: nat): Input { Input(-1, n, false, false, false, false, 0) }

  /** A run at rate `n` that skips more than `n` frames in a row, from a state that is not ready. */
  lemma {:induction false} TooMany(s: State, n: nat) returns (run: seq<Input>, from: nat)
    requires !Ready(s, n)
    ensures !OneShown(s, n, run, from)
  {
    if s.skipnextframe {
      from := 0;
      run := seq(Ahead(s, n), _ => Plain(n));
      AllSkip(s, run, n);
    } else {
      from := 1;
      var t := Next(s, Plain(n));
      var rest := seq(Ahead(t, n), _ => Plain(n));
      run := [Plain(n)] + rest;
      AllSkip(t, rest, n);
      assert run[1..] == rest;
      assert forall k | 1 <= k < |run| :: Pattern(s, run)[k] == Pattern(t, rest)[k - 1];
    }
  }

  /** Every run at rate `n` keeps to at most `n` skips in a row if and only if it starts in a ready state. */
  lemma {:induction false} ReadyExact(s: State, n: nat)
    ensures Ready(s, n) <==> forall run: seq<Input>, from: nat :: OneShown(s, n, run, from)
  {
    if Ready(s, n) {
      forall run: seq<Input>, from: nat ensures OneShown(s, n, run, from) {
        if from + n < |run| && (forall k | 0 <= k < |run| :: Fixed(run[k], n)) {
          NeverTooMany(s, run, n, from);
        }
      }
    } else {
      var run, from := TooMany(s, n);
    }
  }

  // ---------------------------------------------------------------- automatic frame skip off

  /** A step at rate `n` without automatic frame skip. */
  predicate Manual(i: Input, n: nat) { Fixed(i, n) && !(i.automatic && i.frameskiprate != 0) }

  predicate AllManual(run: seq<Input>, n: nat) { forall k | 0 <= k < |run| :: Manual(run[k], n) }

  /** `c` steps into the cycle of one shown frame and `n` skipped ones. */
  predicate InCycle(s: State, n: nat, c: nat) {
    s.lastskiprate == n && c <= n && if c == 0 then !s.skipnextframe && s.framestoskip == n
                                     else s.skipnextframe && s.framestoskip == n - c + 1
  }

  lemma CycleNext(s: State, i: Input, n: nat, c: nat)
    requires InCycle(s, n, c) && Manual(i, n)
    ensures Skips(s, i) <==> c != 0
    ensures InCycle(Next(s, i), n, if c == n then 0 else c + 1)
  {}

  lemma {:induction false} CyclePattern(s: State, run: seq<Input>, n: nat, c: nat, k: nat)
    requires InCycle(s, n, c) && k < |run| && AllManual(run, n)
    ensures Pattern(s, run)[k] <==> (c + k) % (n + 1) != 0
    decreases k
  {
    CycleNext(s, run[0], n, c);
    if k > 0 {
      var c' := if c == n then 0 else c + 1;
      CyclePattern(Next(s, run[0]), run[1..], n, c', k - 1);
      if c == n { OneRound(k - 1, n + 1); }
    } else {
      SmallModulus(c, n + 1);
    }
  }

  lemma {:induction false} OneRound(k: nat, m: nat)
    requires m > 0
    ensures (m + k) % m == k % m
  {
    DivUnique(m + k, m, k / m + 1, k % m);
  }

  lemma SmallModulus(c: nat, m: nat)
    requires c < m
    ensures c % m == c
  {}

  // ---------------------------------------------------------------- settling into the rhythm

  /** The steps until a cycle starts, about to show a frame with `f` left to skip. */
  function SettlingShown(f: int, n: nat): nat
    requires n > 0
    decreases if f < 1 then 1 - f else 0
  {
    if f == n then 0 else if f >= 1 then f + 1 else 1 + SettlingShown(f + n, n)
  }

  /** The steps until a cycle starts. */
  function Settling(s: State, n: nat): nat
    requires n > 0
  {
    if !s.skipnextframe then SettlingShown(Left(s, n), n)
    else if Left(s, n) >= 1 then Left(s, n) else 1 + SettlingShown(Left(s, n) - 1 + n, n)
  }

  lemma SettlingNext(s: State, i: Input, n: nat)
    requires n > 0 && Manual(i, n)
    ensures Settling(s, n) == 0 ==> InCycle(s, n, 0)
    ensures Settling(s, n) > 0 ==> Settling(Next(s, i), n) == Settling(s, n) - 1
  {}

  /**
   From every state whatever, skips pending or frames left, manual frame skip at rate `n` falls after
   `Settling` steps into the rhythm of one shown frame and `n` skipped ones.
   */
  lemma {:induction false} RhythmSettles(s: State, run: seq<Input>, n: nat, k: nat)
    requires n > 0 && AllManual(run, n) && Settling(s, n) <= k < |run|
    ensures Pattern(s, run)[k] <==> (k - Settling(s, n)) % (n + 1) != 0
    decreases k
  {
    hide Next, Settling, Manual, Skips;
    SettlingNext(s, run[0], n);
    if Settling(s, n) == 0 {
      CyclePattern(s, run, n, 0, k);
    } else {
      RhythmSettles(Next(s, run[0]), run[1..], n, k - 1);
    }
  }

  /** At most `n + 1` steps, when no more than `n` frames are left. */
  lemma SettlingSoon(s: State, n: nat)
    requires n > 0 && 0 <= Left(s, n) <= n
    ensures Settling(s, n) <= n + 1
  {}

  /** At rate 0 nothing is skipped once no skip is pending and no frame is left. */
  lemma {:induction false} NeverSkips(s: State, run: seq<Input>, k: nat)
    requires !s.skipnextframe && Left(s, 0) <= 0 && AllManual(run, 0) && k < |run|
    ensures !Pattern(s, run)[k]
    decreases k
  {
    if k > 0 { NeverSkips(Next(s, run[0]), run[1..], k - 1); }
  }

  // ---------------------------------------------------------------- the rhythm from the second step on

  /** After a frame shown at step `i`, exactly `n` are skipped and the next is shown. */
  ghost predicate CycleAt(s: State, n: nat, run: seq<Input>, i: nat) {
    i < |run| && !Pattern(s, run)[i] ==>
      forall j :: i < j < |run| && j <= i + n + 1 ==> (Pattern(s, run)[j] <==> j <= i + n)
  }

  /** So it is after each frame shown at step `from` or later. */
  ghost predicate Rhythm(s: State, n: nat, from: nat, run: seq<Input>) {
    AllManual(run, n) ==> forall i: nat :: from <= i ==> CycleAt(s, n, run, i)
  }

  /** A pending skip has a frame to skip, and no frame is owed; at rate 0, there is nothing to skip. */
  predicate Settled(s: State, n: nat) {
    if n == 0 then !s.skipnextframe && Left(s, n) <= 0
    else if s.skipnextframe then Left(s, n) >= 1 else Left(s, n) >= 0
  }

  /** Every frame shown from here on starts a cycle. */
  predicate Steady(s: State, n: nat) {
    if n == 0 then !s.skipnextframe && Left(s, n) <= 0
    else if s.skipnextframe then Left(s, n) >= 1 else InCycle(s, n, 0)
  }

  lemma SteadyNext(s: State, i: Input, n: nat)
    requires Manual(i, n) && (Settled(s, n) || Steady(s, n))
    ensures Steady(Next(s, i), n)
  {}

  lemma {:induction false} SteadyRhythm(s: State, run: seq<Input>, n: nat, i: nat, d: nat)
    requires Steady(s, n) && AllManual(run, n) && i + d < |run| && d <= n + 1 && !Pattern(s, run)[i]
    ensures Pattern(s, run)[i + d] <==> 1 <= d <= n
    decreases i
  {
    hide Next, Manual;
    if i > 0 {
      SteadyNext(s, run[0], n);
      SteadyRhythm(Next(s, run[0]), run[1..], n, i - 1, d);
    } else if n == 0 {
      NeverSkips(s, run, d);
    } else {
      ShownNow(s, run[0], n);
      CyclePattern(s, run, n, 0, d);
      if d == n + 1 { OneRound(0, n + 1); } else { SmallModulus(d, n + 1); }
    }
  }

  lemma ShownNow(s: State, i: Input, n: nat)
    requires n > 0 && Manual(i, n) && !Skips(s, i)
    ensures !s.skipnextframe
  {}

  lemma PatternTail(s: State, run: seq<Input>, k: nat)
    requires k + 1 < |run|
    ensures Pattern(s, run)[k + 1] == Pattern(Next(s, run[0]), run[1..])[k]
  {}

  /** From an unsettled state at a rate above 0, the burst after the frame shown at step 1 is too short. */
  lemma {:induction false} ShortBurst(s: State, n: nat) returns (run: seq<Input>, d: nat)
    requires n > 0 && !Settled(s, n)
    ensures AllManual(run, n) && 1 <= d <= n && 1 + d < |run| && !Pattern(s, run)[1] && !Pattern(s, run)[1 + d]
  {
    var t := Next(s, Plain(n));
    assert !t.skipnextframe && t.lastskiprate == n && t.framestoskip < n;
    var rest := seq(n + 2, _ => Plain(n));
    run := [Plain(n)] + rest;
    assert run[0] == Plain(n) && run[1..] == rest;
    d := ShortFirst(t, n, rest);
    PatternTail(s, run, 0);
    PatternTail(s, run, d);
  }

  lemma ShownFirst(t: State, run: seq<Input>)
    requires run != [] && !t.skipnextframe
    ensures !Pattern(t, run)[0]
  {}

  lemma ShownSettling(f: int, n: nat)
    requires 1 <= f < n
    ensures SettlingShown(f, n) == f + 1
  {}

  lemma {:induction false} ShortFirst(t: State, n: nat, rest: seq<Input>) returns (d: nat)
    requires n > 0 && !t.skipnextframe && t.lastskiprate == n && t.framestoskip < n
    requires |rest| == n + 2 && AllManual(rest, n)
    ensures 1 <= d <= n && !Pattern(t, rest)[0] && !Pattern(t, rest)[d]
  {
    hide Pattern, SettlingShown;
    ShownFirst(t, rest);
    if t.framestoskip >= 1 {
      d := t.framestoskip + 1;
      ShownSettling(t.framestoskip, n);
      RhythmSettles(t, rest, n, d);
    } else {
      d := 1;
      PatternTail(t, rest, 0);
      ShownFirst(Next(t, rest[0]), rest[1..]);
    }
  }

  /** At rate 0 a skip that is pending, or becomes pending, can still come after a forced frame. */
  lemma {:induction false} LateSkip(s: State) returns (run: seq<Input>)
    requires !Settled(s, 0)
    ensures AllManual(run, 0) && |run| == 3 && !Pattern(s, run)[1] && Pattern(s, run)[2]
  {
    var forced := Plain(0).(force := 0);
    run := [forced, forced, Plain(0)];
    var t := Next(s, forced);
    PatternTail(s, run, 0);
    PatternTail(s, run, 1);
    assert run[1..] == [forced, Plain(0)] && run[1..][1..] == [Plain(0)];
    PatternTail(t, run[1..], 0);
  }

  /** From the second step on exactly `n` frames are skipped between shown ones if and only if the start is settled. */
  lemma {:induction false} RhythmExact(s: State, n: nat)
    ensures Settled(s, n) <==> forall run: seq<Input> :: Rhythm(s, n, 1, run)
  {
    hide Next, Manual, Settled, Skips;
    if Settled(s, n) {
      forall run: seq<Input> ensures Rhythm(s, n, 1, run) {
        if AllManual(run, n) { SettledRhythm(s, n, run); }
      }
    } else {
      var run := Unsettled(s, n);
      assert !Rhythm(s, n, 1, run);
    }
  }

  lemma {:induction false} Unsettled(s: State, n: nat) returns (run: seq<Input>)
    requires !Settled(s, n)
    ensures AllManual(run, n) && !CycleAt(s, n, run, 1)
  {
    hide Next, Manual, Settled, Skips, Pattern;
    var j: nat;
    if n == 0 {
      run := LateSkip(s);
      j := 2;
    } else {
      var d;
      run, d := ShortBurst(s, n);
      j := 1 + d;
    }
    assert Pattern(s, run)[j] != (j <= 1 + n);
  }

  lemma {:induction false} SettledRhythm(s: State, n: nat, run: seq<Input>)
    requires Settled(s, n) && AllManual(run, n)
    ensures Rhythm(s, n, 1, run)
  {
    hide Next, Manual, Settled, Skips;
    forall i: nat | 1 <= i ensures CycleAt(s, n, run, i) {
      forall j | i < j < |run| && j <= i + n + 1 && !Pattern(s, run)[i] ensures Pattern(s, run)[j] <==> j <= i + n {
        SteadyNext(s, run[0], n);
        PatternTail(s, run, i - 1);
        PatternTail(s, run, j - 1);
        SteadyRhythm(Next(s, run[0]), run[1..], n, i - 1, j - i);
      }
    }
  }

  /** From the first step on, if and only if the start is steady: about to show with `n` left, or skipping. */
  lemma {:induction false} SteadyExact(s: State, n: nat)
    ensures Steady(s, n) <==> forall run: seq<Input> :: Rhythm(s, n, 0, run)
  {
    hide Next, Manual, Skips, Pattern;
    if Steady(s, n) {
      forall run: seq<Input> ensures Rhythm(s, n, 0, run) {
        if AllManual(run, n) { SteadyThroughout(s, n, run); }
      }
    } else if Settled(s, n) {
      var run := FirstGap(s, n);
      assert !Rhythm(s, n, 0, run);
    } else {
      var run := Unsettled(s, n);
      assert !Rhythm(s, n, 0, run);
    }
  }

  lemma {:induction false} SteadyThroughout(s: State, n: nat, run: seq<Input>)
    requires Steady(s, n) && AllManual(run, n)
    ensures Rhythm(s, n, 0, run)
  {
    hide Next, Manual, Steady, Skips, Pattern;
    forall i: nat ensures CycleAt(s, n, run, i) {
      forall j | i < j < |run| && j <= i + n + 1 && !Pattern(s, run)[i] ensures Pattern(s, run)[j] <==> j <= i + n {
        SteadyRhythm(s, run, n, i, j - i);
      }
    }
  }

  /** The frames left over at a settled start make the first gap too short or too long. */
  lemma {:induction false} FirstGap(s: State, n: nat) returns (run: seq<Input>)
    requires !Steady(s, n) && Settled(s, n)
    ensures AllManual(run, n) && !CycleAt(s, n, run, 0)
  {
    hide Pattern, SettlingShown;
    var f := Left(s, n);
    run := seq(f + n + 2, _ => Plain(n));
    ShownFirst(s, run);
    if f == 0 {
      PatternTail(s, run, 0);
      ShownFirst(Next(s, run[0]), run[1..]);
      assert !Pattern(s, run)[1];
    } else if f < n {
      ShownSettling(f, n);
      RhythmSettles(s, run, n, f + 1);
      assert !Pattern(s, run)[f + 1];
    } else {
      LongBurst(s, n, run);
      assert Pattern(s, run)[n + 1];
    }
  }

  lemma {:induction false} LongBurst(s: State, n: nat, run: seq<Input>)
    requires n > 0 && !s.skipnextframe && Left(s, n) > n && |run| > Left(s, n)
    requires forall k | 0 <= k < |run| :: run[k] == Plain(n)
    ensures Pattern(s, run)[n + 1]
  {
    hide Pattern;
    var t := Next(s, run[0]);
    assert t.skipnextframe && Ahead(t, n) == Left(s, n);
    var burst := run[1..][..Ahead(t, n)];
    AllSkip(t, burst, n);
    PatternTail(s, run, n);
    PatternPrefix(t, run[1..], |burst|, n);
  }

  /** What comes later does not change the pattern so far. */
  lemma {:induction false} PatternPrefix(s: State, run: seq<Input>, m: nat, k: nat)
    requires k < m <= |run|
    ensures Pattern(s, run[..m])[k] == Pattern(s, run)[k]
    decreases k
  {
    assert run[..m][0] == run[0];
    if k > 0 {
      assert run[..m][1..] == run[1..][..m - 1];
      PatternPrefix(Next(s, run[0]), run[1..], m - 1, k - 1);
    }
  }

  /** The pattern from the initial state: two shown frames, then `n` skipped for each one shown. */
  ghost predicate EveryNth(s: State, n: nat, run: seq<Input>, k: nat) {
    AllManual(run, n) && k < |run| ==> (Pattern(s, run)[k] <==> k > 0 && (k - 1) % (n + 1) != 0)
  }

  /** That is the pattern exactly from the states with no skip pending and no frame left. */
  lemma {:induction false} EveryNthShown(s: State, n: nat)
    ensures !s.skipnextframe && (if n == 0 then Left(s, n) <= 0 else Left(s, n) == 0)
            <==> forall run: seq<Input>, k: nat :: EveryNth(s, n, run, k)
  {
    if !s.skipnextframe && (if n == 0 then Left(s, n) <= 0 else Left(s, n) == 0) {
      forall run: seq<Input>, k: nat ensures EveryNth(s, n, run, k) {
        if AllManual(run, n) && k < |run| { QuietStart(s, n, run, k); }
      }
    } else {
      var run, k := OtherStart(s, n);
      assert !EveryNth(s, n, run, k);
    }
  }

  lemma {:induction false} QuietStart(s: State, n: nat, run: seq<Input>, k: nat)
    requires !s.skipnextframe && (if n == 0 then Left(s, n) <= 0 else Left(s, n) == 0)
    requires AllManual(run, n) && k < |run|
    ensures Pattern(s, run)[k] <==> k > 0 && (k - 1) % (n + 1) != 0
  {
    if n == 0 {
      NeverSkips(s, run, k);
    } else if k > 0 {
      assert InCycle(Next(s, run[0]), n, 0);
      CyclePattern(Next(s, run[0]), run[1..], n, 0, k - 1);
    }
  }

  lemma {:induction false} OtherStart(s: State, n: nat) returns (run: seq<Input>, k: nat)
    requires s.skipnextframe || (if n == 0 then Left(s, n) > 0 else Left(s, n) != 0)
    ensures !EveryNth(s, n, run, k)
  {
    if s.skipnextframe {
      run, k := [Plain(n)], 0;
    } else if Left(s, n) > 0 {
      run, k := [Plain(n), Plain(n)], 1;
      PatternTail(s, run, 0);
    } else {
      var d;
      run, d := ShortBurst(s, n);
      k := 1 + d;
      SmallModulus(d, n + 1);
      assert (k - 1) % (n + 1) == d;
    }
  }

  // ---------------------------------------------------------------- fast-forwarding

  /** A fast-forwarded step at rate `n`, unforced: 9 frames are to be skipped for each one shown, or `force` of them. */
  predicate Fast(i: Input, n: int, r: nat) {
    && i.fastForward && !i.frameAdvance && i.SkipRate() == n
    && ((i.force < 0 && r == 9) || (i.force > 0 && r == i.force))
  }

  predicate AllFast(run: seq<Input>, n: int, r: nat) { forall k | 0 <= k < |run| :: Fast(run[k], n, r) }

  /** The frames still to be skipped at a rate that may also be negative. */
  function Owed(s: State, n: int): int { if s.lastskiprate != n then 0 else s.framestoskip }

  /** The skips before the next shown frame: those the count allows, or else those still owed. */
  function FastAhead(s: State, n: int, r: nat): nat {
    if !s.skipnextframe then 0
    else if s.framesskipped + 1 < r then r - s.framesskipped
    else if Owed(s, n) > 1 then Owed(s, n) else 1
  }

  lemma FastNext(s: State, i: Input, n: int, r: nat)
    requires Fast(i, n, r)
    ensures Skips(s, i) <==> FastAhead(s, n, r) > 0
    ensures Skips(s, i) ==> FastAhead(Next(s, i), n, r) == FastAhead(s, n, r) - 1
    ensures !Skips(s, i) ==> FastAhead(Next(s, i), n, r) == r
  {}

  /**
   While fast-forwarding, from every state: after the skips ahead, one frame is shown and exactly 9 (or
   `force`) are skipped, over and over. From the initial state that is so from the first step.
   */
  lemma {:induction false} FastForwardRhythm(s: State, run: seq<Input>, n: int, r: nat, k: nat)
    requires AllFast(run, n, r) && k < |run|
    ensures Pattern(s, run)[k] <==> k < FastAhead(s, n, r) || (k - FastAhead(s, n, r)) % (r + 1) != 0
    ensures s == State(0, 0, false, 0) ==> (Pattern(s, run)[k] <==> k % (r + 1) != 0)
    decreases k
  {
    hide Next, Fast, Skips;
    var m := FastAhead(s, n, r);
    FastNext(s, run[0], n, r);
    if k > 0 {
      var t := Next(s, run[0]);
      FastForwardRhythm(t, run[1..], n, r, k - 1);
      if m == 0 {
        if k <= r { SmallModulus(k, r + 1); } else { OneRound(k - 1 - r, r + 1); }
      }
    }
  }

  /**
   What fast-forwarding leaves owed, should it end here: one frame while the skips are not used up, and then
   as many as it skips at a time.
   */
  lemma FastOwes(s: State, i: Input, n: int, r: nat)
    requires Fast(i, n, r)
    ensures var s' := Next(s, i);
      && (s'.framesskipped < r ==> s'.framestoskip == 1 && s'.skipnextframe)
      && (s'.framesskipped >= r && s.skipnextframe && 1 - r < Owed(s, n) <= 1 ==>
            s'.framestoskip == Owed(s, n) - 1 + r && !s'.skipnextframe)
      && (s'.framesskipped >= r && s.skipnextframe && Owed(s, n) > 1 ==>
            s'.framestoskip == Owed(s, n) - 1 && s'.skipnextframe)
  {}

  /** Fast-forwarding with every frame forced skips none and schedules none. */
  lemma ForcedOwesNone(s: State, i: Input)
    requires i.fastForward && i.force == 0 && !(i.automatic && i.frameskiprate != 0)
    ensures var s' := Next(s, i);
      s'.framesskipped == 0 && s'.framestoskip == Owed(s, 0) && s'.skipnextframe == (s.skipnextframe || Owed(s, 0) > 0)
  {}

  /** A forced step, a frame advance, and a continuous advance without fast-forward never skip. */
  lemma MustShowNeverSkips(s: State, i: Input)
    ensures i.force == 0 || i.frameAdvance || (i.continuous && !i.fastForward) ==> !Skips(s, i)
    ensures Skips(s, i) ==> s.skipnextframe
    ensures s.skipnextframe && i.force != 0 && !i.frameAdvance && (i.fastForward || !i.continuous) ==> Skips(s, i)
  {}

  // ---------------------------------------------------------------- what the counters mean

  /** The state after a run. */
  function After(s: State, run: seq<Input>): State
    decreases |run|
  {
    if run == [] then s else After(Next(s, run[0]), run[1..])
  }

  lemma CountNext(s: State, i: Input)
    ensures Next(s, i).framesskipped == if Skips(s, i) then s.framesskipped + 1 else 0
  {}

  /** `framesskipped` counts the skips since the last frame shown, or since the start. */
  lemma {:induction false} SkippedCounted(s: State, run: seq<Input>)
    requires s.framesskipped == 0
    ensures var k := After(s, run).framesskipped;
      && 0 <= k <= |run|
      && (forall j | |run| - k <= j < |run| :: Pattern(s, run)[j])
      && (k < |run| ==> !Pattern(s, run)[|run| - k - 1])
  {
    hide After, Pattern;
    TrailingSkips(s, run);
  }

  ghost predicate AllSkipped(s: State, run: seq<Input>) { forall j | 0 <= j < |run| :: Pattern(s, run)[j] }

  lemma AllSkippedStep(s: State, run: seq<Input>)
    requires run != []
    ensures AllSkipped(s, run) <==> Skips(s, run[0]) && AllSkipped(Next(s, run[0]), run[1..])
  {
    hide Next, Skips;
    var t, rest := Next(s, run[0]), run[1..];
    assert Pattern(s, run) == [Skips(s, run[0])] + Pattern(t, rest);
    if Skips(s, run[0]) && AllSkipped(t, rest) {
      forall j | 0 <= j < |run| ensures Pattern(s, run)[j] {
        if j > 0 { assert Pattern(t, rest)[j - 1]; }
      }
    }
    if AllSkipped(s, run) {
      assert Pattern(s, run)[0];
      forall j | 0 <= j < |rest| ensures Pattern(t, rest)[j] { assert Pattern(s, run)[j + 1]; }
    }
  }

  lemma {:induction false} TrailingSkips(s: State, run: seq<Input>)
    requires s.framesskipped >= 0
    ensures var k := After(s, run).framesskipped;
      if AllSkipped(s, run) then k == s.framesskipped + |run|
      else 0 <= k < |run| && (forall j | |run| - k <= j < |run| :: Pattern(s, run)[j])
           && !Pattern(s, run)[|run| - k - 1]
    decreases |run|
  {
    hide Next, Skips, AllSkipped;
    if run == [] {
      assert AllSkipped(s, run) by { NothingToSkip(s); }
    } else {
      var t, rest := Next(s, run[0]), run[1..];
      CountNext(s, run[0]);
      AllSkippedStep(s, run);
      TrailingSkips(t, rest);
      var k := After(s, run).framesskipped;
      if !AllSkipped(s, run) { TrailingStep(s, run, k); }
    }
  }

  lemma NothingToSkip(s: State)
    ensures AllSkipped(s, [])
  {}

  lemma TrailingStep(s: State, run: seq<Input>, k: int)
    requires run != [] && !AllSkipped(s, run)
    requires if AllSkipped(Next(s, run[0]), run[1..]) then k == |run| - 1 && !Skips(s, run[0])
             else 0 <= k < |run| - 1
                  && (forall j | |run| - 1 - k <= j < |run| - 1 :: Pattern(Next(s, run[0]), run[1..])[j])
                  && !Pattern(Next(s, run[0]), run[1..])[|run| - k - 2]
    ensures 0 <= k < |run| && (forall j | |run| - k <= j < |run| :: Pattern(s, run)[j]) && !Pattern(s, run)[|run| - k - 1]
  {
    hide Next, Skips;
    var t, rest := Next(s, run[0]), run[1..];
    assert Pattern(s, run) == [Skips(s, run[0])] + Pattern(t, rest);
    forall j | |run| - k <= j < |run| ensures Pattern(s, run)[j] {
      assert Pattern(t, rest)[j - 1];
    }
  }

  /** A step on which automatic frame skip, with nothing left, asks for `a` frames. */
  predicate Asks(i: Input, n: nat, a: nat) {
    Fixed(i, n) && i.automatic && i.frameskiprate != 0 && i.amount == a && i.force < 0
  }

  /** What automatic frame skip asks for is done: after one more shown frame, exactly that many are skipped. */
  lemma {:induction false} AskedIsSkipped(s: State, run: seq<Input>, n: nat, a: nat, k: nat)
    requires !s.skipnextframe && Left(s, n) == 0 && 0 < a <= n && k < |run| && k < a + 3
    requires Asks(run[0], n, a) && forall j | 0 < j < |run| :: Fixed(run[j], n) && run[j].force < 0
    ensures Pattern(s, run)[k] <==> 2 <= k < a + 2
  {
    hide Pattern;
    ShownFirst(s, run);
    if k > 0 {
      var t := Next(s, run[0]);
      PatternTail(s, run, k - 1);
      ShownFirst(t, run[1..]);
      if k > 1 {
        var u := Next(t, run[1]);
        PatternTail(t, run[1..], k - 2);
        assert run[1..][1..] == run[2..];
        Burst(u, run[2..], n, a, k - 2);
      }
    }
  }

  /** A skip with `a` frames left is followed by exactly as many skips. */
  lemma {:induction false} Burst(s: State, run: seq<Input>, n: nat, a: nat, k: nat)
    requires s.skipnextframe && s.lastskiprate == n && s.framestoskip == a > 0 && k < |run| && k <= a
    requires forall j | 0 <= j < |run| :: Fixed(run[j], n) && run[j].force < 0
    ensures Pattern(s, run)[k] <==> k < a
    decreases k
  {
    if k > 0 {
      PatternTail(s, run, k - 1);
      if a > 1 {
        Burst(Next(s, run[0]), run[1..], n, a - 1, k - 1);
      } else {
        ShownFirst(Next(s, run[0]), run[1..]);
      }
    }
  }

  /** While frames are advanced by hand, automatic frame skip schedules none. */
  lemma AdvanceSchedulesNone(s: State, i: Input)
    requires i.automatic && i.frameskiprate != 0 && !i.fastForward && (i.frameAdvance || i.continuous)
    ensures Next(s, i).framestoskip == if s.lastskiprate != i.SkipRate() then 0 else s.framestoskip
  {}

  // ---------------------------------------------------------------- the loop

  class MainLoop {
    var framestoskip: int
    var framesskipped: int
    var skipnextframe: int
    var lastskiprate: int
    var frameAdvance: bool

    ghost function Abs(): State
      reads this
    {
      State(framestoskip, framesskipped, skipnextframe != 0, lastskiprate)
    }

    constructor ()
      ensures Abs() == State(0, 0, false, 0)
    {
      framestoskip, framesskipped, skipnextframe, lastskiprate, frameAdvance := 0, 0, 0, 0, false;
    }

    /** The first part of a step: whether to skip. */
    method Decide(i: Input) returns (skipped: bool)
      requires i.frameAdvance == frameAdvance
      modifies this`framestoskip, this`framesskipped, this`skipnextframe, this`lastskiprate
      ensures Abs() == old(Counted(Rated(Abs(), i), i)) && skipped == old(Skips(Abs(), i))
    {
      skipped := false;
      if lastskiprate != i.SkipRate() {
        lastskiprate := i.SkipRate();
        framestoskip := 0;
      }
      if skipnextframe == 0 || i.force == 0 || frameAdvance || (i.continuous && !i.fastForward) {
        framesskipped := 0;
        if framestoskip > 0 { skipnextframe := 1; }
      } else {
        framestoskip := framestoskip - 1;
        if framestoskip < 1 { skipnextframe := 0; } else { skipnextframe := 1; }
        framesskipped := framesskipped + 1;
        skipped := true;
      }
    }

    /** The second part: fast-forwarding. */
    method Hurry(i: Input)
      modifies this`framestoskip, this`skipnextframe
      ensures Abs() == old(Hurried(Abs(), i))
    {
      if i.fastForward {
        if framesskipped < i.FastRate() {
          skipnextframe := 1;
          framestoskip := 1;
        }
        if framestoskip < 1 { framestoskip := framestoskip + i.FastRate(); }
      }
    }

    /** The third part: how many frames to skip next; `amount` is what automatic frame skip asked for, if it did. */
    method Refill(i: Input, pacer: Pacer, skipper: Skipper, adjustment: real) returns (ghost amount: int)
      requires pacer.Valid() && i.frameAdvance == frameAdvance
      modifies this`framestoskip, pacer, skipper
      ensures pacer.Valid() && Abs() == old(Refilled(Abs(), i.(amount := amount)))
      ensures i.SkipRate() >= 0 ==> 0 <= amount <= i.SkipRate()
    {
      hide Settles, Truncated, Clamped;
      amount := 0;
      if i.automatic && i.frameskiprate != 0 {
        if !frameAdvance && !i.continuous {
          pacer.NextFrame(skipper, adjustment);
          if framestoskip < 1 {
            var rv, _ := skipper.GetSkipAmount(0, i.SkipRate());
            amount := rv;
            framestoskip := framestoskip + rv;
          }
        }
      } else {
        if framestoskip < 1 { framestoskip := framestoskip + i.SkipRate(); }
      }
    }

    /** `nds4droid_throttle`, without the wait; `skipped` says that it called `NDS_SkipNextFrame`. */
    method Step(i: Input, allowSleep: bool, pacer: Pacer, skipper: Skipper, adjustment: real)
      returns (skipped: bool, ghost amount: int)
      requires pacer.Valid() && i.frameAdvance == frameAdvance
      modifies this, pacer, skipper
      ensures pacer.Valid() && (i.SkipRate() >= 0 ==> 0 <= amount <= i.SkipRate())
      ensures Abs() == old(Next(Abs(), i.(amount := amount))) && skipped == old(Skips(Abs(), i))
      ensures frameAdvance == (old(frameAdvance) && !allowSleep)
    {
      hide Counted, Hurried, Refilled, Skips, Rated;
      ghost var s := Abs();
      skipped := Decide(i);
      Hurry(i);
      amount := Refill(i, pacer, skipper, adjustment);
      AmountUnread(s, i, amount);
      if frameAdvance && allowSleep { frameAdvance := false; }
    }
  }

  /** Only the last part of a step reads the amount. */
  lemma AmountUnread(s: State, i: Input, amount: int)
    ensures var j := i.(amount := amount); Hurried(Counted(Rated(s, i), i), i) == Hurried(Counted(Rated(s, j), j), j)
  {}
}
