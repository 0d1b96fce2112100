/** Pacing emulation against the clock, and choosing how many frames to skip. Times are in the clock's ticks. */
module Throttle {
  import opened Words

  /** `afsfreq` and `tfreq`: ticks a second, plain and in 16.16 fixed point. */
  const AFSFREQ := 1000
  const TFREQ := 1000 * 0x1_0000
  const CORE_DESIREDFPS := 3920763
  const FPS_SCALERS := [1024, 512, 448, 384, 320, 256, 192, 128, 96, 64, 42, 32, 16]
  const TWO64 := 0x1_0000_0000_0000_0000

  /** The 64-bit word that holds a time. */
  function Wrapped(x: int): (r: int)
    ensures 0 <= r < TWO64
  {
    x % TWO64
  }

  /** 64-bit subtraction. */
  function Sub64(a: int, b: int): (r: int)
    ensures 0 <= r < TWO64
  {
    Wrapped(a - b)
  }

  /** `n` frames of `p` ticks. */
  function Frames(n: int, p: int): int { n * p }

  /** Ticks a frame. */
  function Period(desiredfps: int): int
    requires desiredfps > 0
  {
    TFREQ / desiredfps
  }

  /** The lateness at which pacing starts afresh. */
  function FourPeriods(desiredfps: int): int
    requires desiredfps > 0
  {
    TFREQ * 4 / desiredfps
  }

  function DesiredFps(index: nat): (fps: int)
    requires index < |FPS_SCALERS|
    ensures fps > 0
  {
    CORE_DESIREDFPS * FPS_SCALERS[index] / 256
  }

  /** Four frames, rounded down once, against the frame rounded down. */
  lemma {:induction false} FourPeriodsNear(desiredfps: int)
    requires desiredfps > 0
    ensures 0 <= 4 * Period(desiredfps) <= FourPeriods(desiredfps) <= 4 * Period(desiredfps) + 3
    ensures FourPeriods(desiredfps) <= 4 * TFREQ
  {
    var p, r := Period(desiredfps), TFREQ % desiredfps;
    assert TFREQ == desiredfps * p + r;
    var q := TFREQ * 4 / desiredfps;
    assert TFREQ * 4 == desiredfps * q + TFREQ * 4 % desiredfps;
    if q < 4 * p { MulLess(desiredfps, q + 1, 4 * p); }
    if q > 4 * p + 3 { MulLess(desiredfps, 4 * p + 4, q); }
  }

  /**
   A frame is its length in milliseconds at the given rate, in frames a second of 16 bits' fraction, rounded
   down; at full speed it is 16 of the 16.7 milliseconds a frame should take.
   */
  lemma FrameLength(desiredfps: int)
    requires desiredfps > 0
    ensures Period(desiredfps) * desiredfps <= 1000 * 0x1_0000 < (Period(desiredfps) + 1) * desiredfps
    ensures DesiredFps(5) == 3920763 && Period(DesiredFps(5)) == 16
  {
    var p, r := Period(desiredfps), TFREQ % desiredfps;
    assert TFREQ == desiredfps * p + r;
    assert TFREQ / 3920763 == 16;
  }

  /** The speeds, in 256ths of full speed. */
  lemma Speeds(index: nat)
    requires index < |FPS_SCALERS|
    ensures FPS_SCALERS == [1024, 512, 448, 384, 320, 256, 192, 128, 96, 64, 42, 32, 16]
    ensures 256 * DesiredFps(index) <= 3920763 * FPS_SCALERS[index] < 256 * (DesiredFps(index) + 1)
  {}

  lemma MulLess(d: int, a: int, b: int)
    requires d > 0 && a <= b
    ensures d * a <= d * b
  {}

  /** The part of a request that is whole frames: conversion to `int` drops the fraction. */
  function Truncated(x: real): int { if x >= 0.0 then x.Floor else -(-x).Floor }

  function Clamped(x: real, lo: real, hi: real): real
  {
    if x > hi then hi else if x < lo then lo else x
  }

  /**
   `r` is where a request settles: `t` is its whole part, `total` the request and the error carried so far.
   It moves off `t` one frame at a time, only while a whole frame of error remains, never beyond one frame
   past the last amount nor out of range; and it stops only when it must.
   */
  ghost predicate Settles(r: int, t: int, total: real, last: int, min: int, max: int) {
    && (r > t ==> total - r as real >= 0.0 && r - 1 <= last && r <= max)
    && (r < t ==> total - r as real <= 0.0 && r + 1 >= last && r >= min)
    && !(total - r as real >= 1.0 && r <= last && r < max)
    && !(total - r as real <= -1.0 && r >= last && r > min)
  }

  /** A request settles in one place. */
  lemma SettlesOnce(r1: int, r2: int, t: int, total: real, last: int, min: int, max: int)
    requires Settles(r1, t, total, last, min, max) && Settles(r2, t, total, last, min, max)
    ensures r1 == r2
  {}

  /** A request whose whole part is in range settles in range. */
  lemma SettlesInRange(r: int, t: int, total: real, last: int, min: int, max: int)
    requires Settles(r, t, total, last, min, max) && min <= t <= max
    ensures min <= r <= max
  {}

  /** `AutoFrameSkip_GetSkipAmount`, up to the cut to the range: the two loops that use up the error. */
  method Settle(request: real, carried: real, last: int, min: int, max: int) returns (rv: int, left: real)
    ensures Settles(rv, Truncated(request), request + carried, last, min, max)
    ensures left == request + carried - rv as real
  {
    hide Truncated;
    rv := Truncated(request);
    ghost var t, total := rv, request + carried;
    left := carried + (request - rv as real);
    while left >= 1.0 && rv <= last && rv < max
      invariant left == total - rv as real && rv >= t
      invariant rv > t ==> left >= 0.0 && rv - 1 <= last && rv <= max
      decreases max - rv
    {
      left := left - 1.0;
      rv := rv + 1;
    }
    while left <= -1.0 && rv >= last && rv > min
      invariant left == total - rv as real
      invariant rv > t ==> left >= 0.0 && rv - 1 <= last && rv <= max
      invariant rv < t ==> left <= 0.0 && rv + 1 >= last && rv >= min
      invariant !(left >= 1.0 && rv <= last && rv < max)
      decreases rv - min
    {
      left := left + 1.0;
      rv := rv - 1;
    }
  }

  /** Cutting to the range: the lower bound first. */
  function Cut(r: int, min: int, max: int): int {
    if r > max then max else if r >= min then r else if min > max then max else min
  }

  /** No amount in range is nearer to where the request settles; an empty range gives its upper end. */
  lemma CutNearest(r: int, min: int, max: int, x: int)
    ensures min <= max ==> min <= Cut(r, min, max) <= max
    ensures min <= x <= max ==> Distance(Cut(r, min, max), r) <= Distance(x, r)
    ensures min > max ==> Cut(r, min, max) == max
  {}

  function Distance(x: int, y: int): int { if x >= y then x - y else y - x }

  /** The same for the limits on the error and on the request. */
  lemma ClampedNearest(x: real, lo: real, hi: real, y: real)
    requires lo <= hi
    ensures lo <= Clamped(x, lo, hi) <= hi
    ensures lo <= y <= hi && y <= x ==> y <= Clamped(x, lo, hi) <= x || Clamped(x, lo, hi) == x
    ensures lo <= y <= hi && y >= x ==> x <= Clamped(x, lo, hi) <= y || Clamped(x, lo, hi) == x
  {}

  /** Conversion to `int` goes toward zero by less than one. */
  lemma TruncatedTowardZero(x: real)
    ensures x >= 0.0 ==> Truncated(x) as real <= x < Truncated(x) as real + 1.0
    ensures x <= 0.0 ==> Truncated(x) as real - 1.0 < x <= Truncated(x) as real
  {}

  /**
   Where a request settles, in one formula: a whole frame of error or more is paid up as far as one frame
   above the last amount and the upper end allow, and a debt likewise downwards.
   */
  lemma SettlesAt(r: int, t: int, total: real, last: int, min: int, max: int)
    ensures Settles(r, t, total, last, min, max) <==>
      r == if total - t as real >= 1.0 then Greater(t, Lesser(total.Floor, Lesser(last + 1, max)))
           else if total - t as real <= -1.0 then Lesser(t, Greater(-(-total).Floor, Greater(last - 1, min)))
           else t
  {}

  function Lesser(x: int, y: int): int { if x <= y then x else y }

  function Greater(x: int, y: int): int { if x >= y then x else y }

  /** In range, what is returned and carried is exactly what was asked for and carried, within four frames. */
  lemma Conserved(r: int, request: real, carried: real, last: int, min: int, max: int)
    requires Settles(r, Truncated(request), request + carried, last, min, max) && min <= Truncated(request) <= max
    ensures var rv, left := Cut(r, min, max), Clamped(request + carried - r as real, -4.0, 4.0);
      min <= rv <= max && (rv as real + left == request + carried <==> -4.0 <= request + carried - rv as real <= 4.0)
  {
    hide Truncated;
    SettlesInRange(r, Truncated(request), request + carried, last, min, max);
  }

  /** The frames to skip, as the controller would have them. */
  class Skipper {
    var fSkipFrames: real
    var fSkipFramesError: real
    var lastSkip: int

    constructor ()
      ensures fSkipFrames == 0.0 && fSkipFramesError == 0.0 && lastSkip == 0
    {
      fSkipFrames, fSkipFramesError, lastSkip := 0.0, 0.0, 0;
    }

    /** `AutoFrameSkip_GetSkipAmount`: `r` is where the request settles. */
    method GetSkipAmount(min: int, max: int) returns (rv: int, ghost r: int)
      modifies this
      ensures Settles(r, Truncated(old(fSkipFrames)), old(fSkipFrames + fSkipFramesError), old(lastSkip), min, max)
      ensures rv == lastSkip == Cut(r, min, max) && (min <= max ==> min <= rv <= max)
      ensures fSkipFramesError == Clamped(old(fSkipFrames + fSkipFramesError) - r as real, -4.0, 4.0)
      ensures min <= max ==> fSkipFrames == Clamped(old(fSkipFrames), min as real - 1.0, max as real + 1.0)
    {
      hide Truncated, Settles;
      var left;
      rv, left := Settle(fSkipFrames, fSkipFramesError, lastSkip, min, max);
      fSkipFramesError := left;
      r := rv;
      if rv < min { rv := min; }
      if rv > max { rv := max; }
      if fSkipFramesError >= 4.0 { fSkipFramesError := 4.0; }
      if fSkipFramesError <= -4.0 { fSkipFramesError := -4.0; }
      if fSkipFrames < min as real - 1.0 { fSkipFrames := min as real - 1.0; }
      if fSkipFrames > max as real + 1.0 { fSkipFrames := max as real + 1.0; }
      lastSkip := rv;
    }
  }

  class Pacer {
    var desiredFpsScalerIndex: nat
    var desiredfps: int
    var ltime: int

    /** The same time as `ltime` without 64-bit wrap-around. */
    ghost var due: int
    /** The last clock reading. */
    ghost var now: int
    /** Where `due` stood when the rate or the clock was last set, the frames waited for since, and those given back. */
    ghost var origin: int
    ghost var waits: nat
    ghost var credits: nat

    ghost function Frame(): int
      reads this`desiredfps
      requires desiredfps > 0
    {
      Period(desiredfps)
    }

    /** `ltime` never passes the clock, nor falls behind the frames waited for. */
    ghost predicate Valid()
      reads this
    {
      && desiredFpsScalerIndex < |FPS_SCALERS| && desiredfps == DesiredFps(desiredFpsScalerIndex)
      && ltime == Wrapped(due)
      && origin + Frames(waits - credits, Frame()) <= due <= now
    }

    constructor (start: nat, clock: int)
      requires start < TWO64 && start <= clock
      ensures Valid() && ltime == origin == start && now == clock && waits == credits == 0
    {
      desiredFpsScalerIndex, desiredfps, ltime := 5, DesiredFps(5), start;
      due, origin, now, waits, credits := start, start, clock, 0, 0;
    }

    /** Over every run the clock is at least one period past the start for each frame waited for and not given back. */
    lemma RunBound()
      requires Valid()
      ensures origin + (waits - credits) * Period(desiredfps) <= due <= now
      ensures 0 <= ltime < 0x1_0000_0000_0000_0000 && exists turns: int :: due == turns * 0x1_0000_0000_0000_0000 + ltime
    {
      assert due == due / TWO64 * TWO64 + ltime;
    }

    /** `IncreaseSpeed` and `DecreaseSpeed`. */
    method SetSpeed(up: bool)
      requires Valid()
      modifies this`desiredFpsScalerIndex, this`desiredfps, this`origin, this`waits, this`credits
      ensures Valid() && waits == credits == 0 && origin == due
      ensures up ==> desiredfps >= old(desiredfps)
      ensures !up ==> desiredfps <= old(desiredfps)
    {
      if up {
        if desiredFpsScalerIndex != 0 { desiredFpsScalerIndex := desiredFpsScalerIndex - 1; }
      } else {
        if desiredFpsScalerIndex != |FPS_SCALERS| - 1 { desiredFpsScalerIndex := desiredFpsScalerIndex + 1; }
      }
      desiredfps := DesiredFps(desiredFpsScalerIndex);
      origin, waits, credits := due, 0, 0;
    }

    /** A time that 64-bit subtraction tells apart from `ltime`: the clock may run ahead, or be set back. */
    ghost predicate InReach(ttime: int)
      reads this`due
    {
      due - TWO64 + 4 * TFREQ <= ttime < due + TWO64
    }

    /**
     The frame is over at `ttime`: the next is due one period on, or from now when four are missed. A clock
     set back behind `ltime` looks like a very late one, and pacing starts afresh.
     */
    method NextDue(ttime: int)
      requires Valid() && InReach(ttime) && (ttime < due || ttime - due >= Frame())
      modifies this`ltime, this`due, this`now, this`waits, this`credits, this`origin
      ensures Valid() && now == ttime && 0 <= now - due < 3 * Frame() + 3
      ensures if now < old(due) then due == origin == now && waits == credits == 0
              else origin == old(origin) && waits == old(waits) + 1 && credits == old(credits)
                   && due == if now - old(due) >= FourPeriods(desiredfps) then now else old(due) + Frame()
    {
      hide DesiredFps, Period, FourPeriods, Sub64, Wrapped, Frames;
      FourPeriodsNear(desiredfps);
      Difference(ttime, due);
      Moves(due, Frame());
      OneMore(waits - credits, Frame());
      NoFrames(Frame());
      if ttime < due { origin, waits, credits := ttime, 0, 0; } else { waits := waits + 1; }
      if Sub64(ttime, ltime) >= FourPeriods(desiredfps) {
        ltime := Wrapped(ttime);
        due := ttime;
      } else {
        ltime := Wrapped(ltime + Period(desiredfps));
        due := due + Frame();
      }
      now := ttime;
    }

    /** A reading within the current frame. */
    ghost predicate Early(ttime: int)
      reads this`due, this`desiredfps
      requires desiredfps > 0
    {
      0 <= ttime - due < Frame()
    }

    /**
     `SpeedThrottle`, which reads `clock` until a frame's time is over; `waited` says that it returned after
     `used` readings, and is false when it was fast-forwarding or the readings ran out first.
     */
    method SpeedThrottle(fastForward: bool, clock: seq<int>) returns (used: nat, waited: bool, sleeps: seq<int>)
      requires Valid() && forall i | 0 <= i < |clock| :: InReach(clock[i])
      modifies this`ltime, this`due, this`now, this`waits, this`credits, this`origin
      ensures Valid() && used <= |clock|
      ensures waited ==> !fastForward && 0 < used && now == clock[used - 1]
      ensures waited ==> !old(Early(clock[used - 1])) && forall i | 0 <= i < used - 1 :: old(Early(clock[i]))
      ensures waited ==> 0 <= now - due < 3 * Frame() + 3
      ensures waited ==>
        if now < old(due) then due == origin == now && waits == credits == 0
        else origin == old(origin) && waits == old(waits) + 1 && credits == old(credits)
             && due == if now - old(due) >= FourPeriods(desiredfps) then now else old(due) + Frame()
      ensures !waited ==> due == old(due) && waits == old(waits) && credits == old(credits) && origin == old(origin)
      ensures !waited && !fastForward ==> used == |clock| && forall i | 0 <= i < used :: old(Early(clock[i]))
      ensures forall s | s in sleeps :: 10 <= 2 * s <= Frame()
    {
      hide DesiredFps, Period, FourPeriods, Sub64, Wrapped, Frames;
      used, waited, sleeps := 0, false, [];
      FourPeriodsNear(desiredfps);
      while true
        invariant used <= |clock| && Valid() && due == old(due) && waits == old(waits)
        invariant credits == old(credits) && origin == old(origin)
        invariant forall i | 0 <= i < used :: Early(clock[i])
        invariant forall s | s in sleeps :: 10 <= 2 * s <= Frame()
        decreases |clock| - used
      {
        if fastForward || used == |clock| { return; }
        var ttime := clock[used];
        Difference(ttime, due);
        if Sub64(ttime, ltime) < Period(desiredfps) {
          now := ttime;
          var sleep := Sleep(Period(desiredfps) - Sub64(ttime, ltime));
          sleeps := sleeps + sleep;
          used := used + 1;
        } else {
          NextDue(ttime);
          used := used + 1;
          waited := true;
          return;
        }
      }
    }

    /** The rest of the frame, in milliseconds; half of it is slept away, when that is worth while. */
    method Sleep(remaining: int) returns (sleep: seq<int>)
      requires remaining >= 0
      ensures sleep == if remaining >= 10 then [remaining / 2] else []
    {
      var sleepy := remaining;
      sleepy := sleepy * 1000;
      sleepy := sleepy / AFSFREQ;
      sleep := if sleepy >= 10 then [sleepy / 2] else [];
    }

    /** The end of `AutoFrameSkip_NextFrame`, for the adjustment the controller came to. */
    method NextFrame(skipper: Skipper, adjustment: real)
      requires Valid()
      modifies this`ltime, this`due, this`credits, skipper`fSkipFrames
      ensures Valid() && skipper.fSkipFrames == old(skipper.fSkipFrames) + adjustment
      ensures var late := adjustment > 0.0 && skipper.fSkipFrames > 0.0;
        due == old(due) - (if late then Frame() else 0) && credits == old(credits) + (if late then 1 else 0)
    {
      hide DesiredFps, Period, FourPeriods, Sub64, Wrapped, Frames;
      skipper.fSkipFrames := skipper.fSkipFrames + adjustment;
      FourPeriodsNear(desiredfps);
      if adjustment > 0.0 && skipper.fSkipFrames > 0.0 {
        ltime := Sub64(ltime, Period(desiredfps));
        due := due - Frame();
        credits := credits + 1;
        OneMore(waits - credits, Frame());
        Moves(old(due), Frame());
      }
    }
  }

  /** The 64-bit difference is the time elapsed, and more than four frames when the clock was set back. */
  lemma Difference(ttime: int, due: int)
    requires due - TWO64 + 4 * TFREQ <= ttime < due + TWO64
    ensures ttime >= due ==> Sub64(ttime, Wrapped(due)) == ttime - due
    ensures ttime < due ==> Sub64(ttime, Wrapped(due)) >= 4 * TFREQ
  {}

  /** Moving `ltime` moves the time it stands for. */
  lemma Moves(due: int, p: int)
    ensures Wrapped(Wrapped(due) + p) == Wrapped(due + p)
    ensures Sub64(Wrapped(due), p) == Wrapped(due - p)
  {
    var q, r := due / TWO64, due % TWO64;
    assert due == q * TWO64 + r;
    ModAdd(r + p, q, TWO64);
    ModAdd(r - p, q, TWO64);
  }

  lemma NoFrames(p: int)
    ensures Frames(0, p) == 0
  {}

  lemma OneMore(n: int, p: int)
    ensures Frames(n + 1, p) == Frames(n, p) + p
  {}
}
