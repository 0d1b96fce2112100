/** Fixed-size ring buffers as sequences: the words between the head and the tail, oldest first. */
module Rings {
  /** The position `i` places after `head` in a ring of `n` slots. */
  function Slot(n: nat, head: nat, i: nat): (r: nat)
    requires head < n && i <= n
    ensures r < n
  {
    if head + i < n then head + i else head + i - n
  }

  /** The `size` entries that start at `head`. */
  function Window<T>(buf: seq<T>, head: nat, size: nat): (w: seq<T>)
    requires head < |buf| && size <= |buf|
    ensures |w| == size
  {
    seq(size, i requires 0 <= i < size => buf[Slot(|buf|, head, i)])
  }

  /** Writing at the tail appends, whatever wraps round. */
  lemma WindowPush<T>(buf: seq<T>, head: nat, size: nat, x: T)
    requires head < |buf| && size < |buf|
    ensures Window(buf[Slot(|buf|, head, size) := x], head, size + 1) == Window(buf, head, size) + [x]
  {}

  /** Stepping the head drops the oldest entry. */
  lemma WindowPop<T>(buf: seq<T>, head: nat, size: nat)
    requires head < |buf| && 0 < size <= |buf|
    ensures Window(buf, head, size) == [buf[head]] + Window(buf, Slot(|buf|, head, 1), size - 1)
  {}
}
