/**
 Handing sound blocks to the player through two buffers. The emulator fills a free buffer; the player, each
 time it has finished one, is given the newest. Each of the two is one step here.
 */
module AudioQueue {
  type Block = seq<int>

  class SoundBuffer {
    const data: array<int>
    var avail: bool
    var samples: nat

    /** The block the buffer holds: two values a sample. */
    ghost function Held(): Block
      reads this, data
      requires 2 * samples <= data.Length
    {
      data[..2 * samples]
    }

    constructor (size: nat)
      ensures data.Length == size && fresh(data) && avail && samples == 0
    {
      data := new int[size](i => 0);
      avail, samples := true, 0;
    }
  }

  class Output {
    const first: SoundBuffer
    const second: SoundBuffer
    const soundbufsize: nat
    var nextSoundBuffer: int
    var currentlyPlaying: bool

    /** The player: the buffer it was given last, every block given to it, and how often it got silence. */
    var held: int
    var played: seq<Block>
    var silences: nat

    /** The blocks accepted so far, and which of them each played block was. */
    ghost var submitted: seq<Block>
    ghost var numbers: seq<nat>

    function Buffer(i: int): SoundBuffer { if i == 0 then first else second }

    ghost predicate Wired()
      reads first, second
    {
      && first != second && first.data != second.data
      && first.data.Length == second.data.Length == soundbufsize / 2 && soundbufsize >= 4
      && 2 * first.samples <= first.data.Length && 2 * second.samples <= second.data.Length
    }

    /** The played blocks are submitted blocks in order: each is the one before it again, or the next one. */
    ghost predicate InOrder()
      reads this
    {
      && |numbers| == |played|
      && (forall k | 0 <= k < |played| :: numbers[k] < |submitted| && played[k] == submitted[numbers[k]])
      && (numbers != [] ==> numbers[0] == 0)
      && forall k | 0 < k < |numbers| :: numbers[k] == numbers[k - 1] || numbers[k] == numbers[k - 1] + 1
    }

    ghost predicate Idle()
      reads this, first, second
    {
      !currentlyPlaying && first.avail && second.avail && submitted == [] && played == []
    }

    /** The player holds the newest block, or the one before it while the newest waits in the other buffer. */
    ghost predicate Playing()
      reads this, first, second, first.data, second.data
      requires Wired()
    {
      && currentlyPlaying && 0 <= nextSoundBuffer <= 1 && 0 <= held <= 1
      && submitted != [] && played != [] && |numbers| == |played|
      && !Buffer(held).avail && !Buffer(nextSoundBuffer).avail
      && Buffer(nextSoundBuffer).Held() == submitted[|submitted| - 1]
      && Buffer(held).Held() == played[|played| - 1]
      && numbers[|numbers| - 1] == |submitted| - (if held == nextSoundBuffer then 1 else 2)
      && (held == nextSoundBuffer ==> Buffer(1 - held).avail)
    }

    ghost predicate Valid()
      reads this, first, second, first.data, second.data
    {
      Wired() && InOrder() && silences == 0 && (Idle() || Playing())
    }

    constructor (buffersize: nat)
      requires buffersize >= 4
      ensures Valid() && Idle() && soundbufsize == buffersize
    {
      first := new SoundBuffer(buffersize / 2);
      second := new SoundBuffer(buffersize / 2);
      soundbufsize := buffersize;
      nextSoundBuffer, currentlyPlaying, held, played, silences := -1, false, -1, [], 0;
      submitted, numbers := [], [];
    }

    /** Once playing, every submitted block but the newest has been played, and perhaps that too: none is left out. */
    lemma NonePassedOver(n: nat)
      requires Valid() && currentlyPlaying && n < |submitted| && (n == |submitted| - 1 ==> held == nextSoundBuffer)
      ensures exists k :: 0 <= k < |played| && numbers[k] == n && played[k] == submitted[n]
    {
      NothingSkipped(numbers, n);
      var k :| 0 <= k < |numbers| && numbers[k] == n;
    }

    /** `bqPlayerCallback`. */
    method Callback()
      requires Wired() && 0 <= nextSoundBuffer <= 1
      modifies this`held, this`played, this`silences, first`avail, second`avail
      ensures var b := Buffer(nextSoundBuffer);
        if old(Buffer(nextSoundBuffer).avail) then
          && silences == old(silences) + 1 && held == -1 && played == old(played)
          && first.avail == old(first.avail) && second.avail == old(second.avail)
        else
          && silences == old(silences) && held == nextSoundBuffer && played == old(played) + [b.Held()]
          && !b.avail && Buffer(1 - nextSoundBuffer).avail
    {
      var buffer := Buffer(nextSoundBuffer);
      if buffer.avail {
        held, silences := -1, silences + 1;
        return;
      }
      held, played := nextSoundBuffer, played + [buffer.data[..2 * buffer.samples]];
      Buffer(if nextSoundBuffer == 0 then 1 else 0).avail := true;
    }

    /** The player has finished a block: it gets the newest, never silence. */
    method Finished()
      requires Valid() && currentlyPlaying
      modifies this, first, second
      ensures Valid() && currentlyPlaying && silences == 0 && submitted == old(submitted)
      ensures played == old(played) + [submitted[|submitted| - 1]]
      ensures held == nextSoundBuffer == old(nextSoundBuffer)
    {
      Callback();
      numbers := numbers + [|submitted| - 1];
    }

    /** `SNDOpenSLGetAudioSpace`. */
    method GetAudioSpace() returns (space: nat)
      requires Valid()
      ensures space == (if first.avail || second.avail then soundbufsize / 4 else 0)
      ensures space == 0 <==> currentlyPlaying && held != nextSoundBuffer
      ensures currentlyPlaying ==> !Buffer(held).avail
    {
      var i := 0;
      while i < 2
        invariant 0 <= i <= 2 && forall k | 0 <= k < i :: !Buffer(k).avail
      {
        if Buffer(i).avail { return soundbufsize / 4; }
        i := i + 1;
      }
      assert !Buffer(0).avail && !Buffer(1).avail;
      return 0;
    }

    /** `memcpy` into a buffer. */
    method Fill(i: int, block: Block)
      requires Wired() && 0 <= i <= 1 && |block| % 2 == 0 && |block| <= soundbufsize / 2
      modifies Buffer(i), Buffer(i).data
      ensures Wired() && Buffer(i).Held() == block && !Buffer(i).avail
    {
      var b := Buffer(i);
      forall k | 0 <= k < |block| { b.data[k] := block[k]; }
      b.samples := |block| / 2;
      b.avail := false;
    }

    /** The update once a free buffer is found: it is not the player's, and becomes the newest. */
    method Submit(i: int, block: Block)
      requires Valid() && |block| % 2 == 0 && |block| <= soundbufsize / 2 && 0 <= i <= 1 && Buffer(i).avail
      modifies this, first, second, first.data, second.data
      ensures Valid() && currentlyPlaying && submitted == old(submitted) + [block]
      ensures old(currentlyPlaying) ==> PlayerKept(old(held), old(played), old(Buffer(held).Held()))
      ensures !old(currentlyPlaying) ==> played == [block]
    {
      Publish(i, block);
      if !currentlyPlaying { Start(); }
    }

    /** The free buffer filled and made the newest; a busy player is not disturbed. */
    method Publish(i: int, block: Block)
      requires Valid() && |block| % 2 == 0 && |block| <= soundbufsize / 2 && 0 <= i <= 1 && Buffer(i).avail
      modifies this`nextSoundBuffer, this`submitted, Buffer(i), Buffer(i).data
      ensures submitted == old(submitted) + [block] && Wired() && InOrder() && silences == 0
      ensures currentlyPlaying ==> Playing() && PlayerKept(old(held), old(played), old(Buffer(held).Held()))
      ensures !currentlyPlaying ==> nextSoundBuffer == i && !Buffer(i).avail && [Buffer(i).Held()] == submitted
                                    && played == []
    {
      assert currentlyPlaying ==> i != held && i != nextSoundBuffer;
      Fill(i, block);
      nextSoundBuffer := i;
      submitted := submitted + [block];
    }

    /** The first block sets the player going. */
    method Start()
      requires Wired() && InOrder() && silences == 0 && played == [] && 0 <= nextSoundBuffer <= 1
      requires !Buffer(nextSoundBuffer).avail && submitted == [Buffer(nextSoundBuffer).Held()]
      modifies this`held, this`played, this`silences, this`numbers, this`currentlyPlaying, first`avail, second`avail
      ensures Valid() && currentlyPlaying && played == submitted
    {
      Callback();
      numbers := numbers + [|submitted| - 1];
      currentlyPlaying := true;
    }

    /** What the player holds and has played is unchanged. */
    ghost predicate PlayerKept(wasHeld: int, wasPlayed: seq<Block>, block: Block)
      reads this, first, second, first.data, second.data
    {
      Wired() && held == wasHeld && played == wasPlayed && Buffer(held).Held() == block
    }

    /**
     `SNDOpenSLUpdateAudio`: the block goes to a buffer the player does not hold; with no free buffer it is
     dropped. The player's own block stays as it is.
     */
    method UpdateAudio(block: Block)
      requires Valid() && |block| % 2 == 0 && |block| <= soundbufsize / 2
      modifies this, first, second, first.data, second.data
      ensures Valid() && currentlyPlaying
      ensures submitted == old(submitted) + if old(first.avail || second.avail) then [block] else []
      ensures old(currentlyPlaying) ==> PlayerKept(old(held), old(played), old(Buffer(held).Held()))
      ensures !old(currentlyPlaying) ==> played == [block]
    {
      var i := 0;
      while i < 2
        invariant 0 <= i <= 2 && forall k | 0 <= k < i :: !Buffer(k).avail
      {
        if Buffer(i).avail {
          Submit(i, block);
          return;
        }
        i := i + 1;
      }
      assert !Buffer(0).avail && !Buffer(1).avail;
    }
  }

  /** Block numbers that start at 0 and advance by at most one leave none out. */
  lemma {:induction false} NothingSkipped(numbers: seq<nat>, n: nat)
    requires numbers != [] && numbers[0] == 0 && n <= numbers[|numbers| - 1]
    requires forall k | 0 < k < |numbers| :: numbers[k] == numbers[k - 1] || numbers[k] == numbers[k - 1] + 1
    ensures n in numbers
  {
    var front := numbers[..|numbers| - 1];
    if n != numbers[|numbers| - 1] {
      NothingSkipped(front, n);
    }
  }
}
