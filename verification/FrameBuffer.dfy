/**
 * The growable buffer behind the Android and Windows decoders: a queue of frames kept
 * in one array, compacted before it is grown.  Both decoders define it alike.
 */
module FrameBuffer {
  import opened ByteOrder
  import opened Frames

  /** One 16-bit PCM sample as a float. */
  function Scaled(low: byte, high: byte): real {
    Signed16(low + 256 * high) as real * (1.0 / 32767.0)
  }

  /** The two bytes of a 16-bit sample become that sample over 32767. */
  lemma ScaledOf(x: int)
    requires -0x8000 <= x < 0x8000
    ensures var u := x % 0x1_0000; Scaled(u % 256, u / 256) == x as real / 32767.0
  {
    var u := x % 0x1_0000;
    assert u % 256 + 256 * (u / 256) == u;
    assert Signed16(u) == x;
    assert x as real * (1.0 / 32767.0) == x as real / 32767.0;
  }

  /** The float samples of a block of interleaved 16-bit PCM. */
  function Samples(pcm: seq<byte>): (s: seq<real>)
    ensures |s| == |pcm| / 2
  {
    seq(|pcm| / 2, i requires 0 <= i < |pcm| / 2 => Scaled(pcm[2 * i], pcm[2 * i + 1]))
  }

  lemma SamplesJoin(a: seq<byte>, b: seq<byte>)
    requires |a| % 2 == 0
    ensures Samples(a + b) == Samples(a) + Samples(b)
  {
    forall i | 0 <= i < |Samples(a + b)|
      ensures Samples(a + b)[i] == (Samples(a) + Samples(b))[i]
    {
      if i < |a| / 2 {
        assert (a + b)[2 * i] == a[2 * i] && (a + b)[2 * i + 1] == a[2 * i + 1];
      } else {
        assert (a + b)[2 * i] == b[2 * (i - |a| / 2)] && (a + b)[2 * i + 1] == b[2 * (i - |a| / 2) + 1];
      }
    }
  }

  lemma SamplesCut(pcm: seq<byte>, a: nat, b: nat)
    requires a <= b && 2 * b <= |pcm|
    ensures Samples(pcm[2 * a..2 * b]) == Samples(pcm)[a..b]
  {
  }

  /** Whole frames in a block of 16-bit PCM. */
  function WholeIn(bytes: nat, channels: nat): (frames: nat)
    requires channels > 0
    ensures 0 <= frames * channels <= bytes / 2 && bytes < 2 * ((frames + 1) * channels)
  {
    WholeFits(bytes, channels);
    bytes / (2 * channels)
  }

  lemma WholeFits(bytes: nat, channels: nat)
    requires channels > 0
    ensures bytes / (2 * channels) >= 0
    ensures 0 <= bytes / (2 * channels) * channels <= bytes / 2
    ensures bytes < 2 * ((bytes / (2 * channels) + 1) * channels)
  {
    DivBelow(bytes, 2 * channels);
    HalfFits(bytes, bytes / (2 * channels), channels);
    assert (bytes / (2 * channels) + 1) * (2 * channels) == 2 * ((bytes / (2 * channels) + 1) * channels);
  }

  lemma DivBelow(n: nat, d: nat)
    requires d > 0
    ensures n / d >= 0 && n / d * d <= n < (n / d + 1) * d
  {
    assert n == n / d * d + n % d;
  }

  lemma HalfFits(bytes: nat, frames: nat, channels: nat)
    requires frames * (2 * channels) <= bytes
    ensures 0 <= frames * channels <= bytes / 2
  {
    assert frames * (2 * channels) == 2 * (frames * channels);
  }

  /** Where the array of a frame buffer is written next, and how many frames it has room for. */
  datatype Room = Room(written: nat, capacity: nat)
  {
    /** Whether `frames` more fit behind those written. */
    predicate Fits(frames: nat) {
      written + frames <= capacity
    }

    /**
     * `putIntoFloatBuffer` on counters, with `buffered` frames in the buffer: what fits is
     * appended, or moved to the front first, or the array grows if memory allows.
     */
    function Put(buffered: nat, frames: nat, canGrow: bool): (r: (Room, bool)) {
      if Fits(frames) then (Room(written + frames, capacity), true)
      else if buffered + frames <= capacity then (Room(buffered + frames, capacity), true)
      else if canGrow then (Room(buffered + frames, capacity + 2 * frames), true)
      else (Room(buffered, capacity), false)
    }
  }

  /** What is left of a queue when `frames` frames are dropped from its front. */
  function Dropped(queue: seq<real>, frames: nat, channels: nat): seq<real> {
    Scale(0, frames, channels);
    if frames * channels <= |queue| then queue[frames * channels..] else []
  }

  class FloatBuffer {
    const channels: nat
    var data: array<real>
    var capacityFrames: nat
    var readPos: nat
    var writePos: nat
    /** Below zero where more frames have been dropped than were there. */
    var numFrames: int

    ghost predicate Valid()
      reads this
    {
      && channels > 0
      && data.Length == capacityFrames * channels
      && readPos + numFrames == writePos <= capacityFrames
    }

    /** The frames waiting, oldest first. */
    ghost function Queue(): (q: seq<real>)
      requires Valid()
      reads this, data
      ensures |q| == if numFrames <= 0 then 0 else numFrames * channels
    {
      if numFrames <= 0 then [] else
        Scale(0, readPos, channels);
        Scale(readPos, writePos, channels);
        Scale(writePos, capacityFrames, channels);
        data[readPos * channels..writePos * channels]
    }

    ghost function Space(): Room
      reads this
    {
      Room(writePos, capacityFrames)
    }

    constructor (channels: nat, capacityFrames: nat)
      requires channels > 0
      ensures Valid() && Queue() == [] && this.channels == channels && fresh(data)
      ensures numFrames == 0 && Space() == Room(0, capacityFrames)
    {
      Scale(0, capacityFrames, channels);
      this.channels := channels;
      this.capacityFrames := capacityFrames;
      data := new real[capacityFrames * channels](_ => 0.0);
      readPos, writePos, numFrames := 0, 0, 0;
    }

    method Clear()
      requires Valid()
      modifies this`readPos, this`writePos, this`numFrames
      ensures Valid() && Queue() == [] && numFrames == 0 && writePos == 0
    {
      readPos, writePos, numFrames := 0, 0, 0;
    }

    /** Moves the queue to the front of the array: the `memmove` of `putIntoFloatBuffer`. */
    method Compact()
      requires Valid() && numFrames >= 0
      modifies this`readPos, this`writePos, data
      ensures Valid() && readPos == 0 && Queue() == old(Queue())
    {
      ghost var queue := Queue();
      Scale(0, readPos, channels);
      Scale(0, numFrames, channels);
      Scale(readPos, writePos, channels);
      Scale(writePos, capacityFrames, channels);
      if numFrames > 0 {
        var offset := readPos * channels;
        forall i | 0 <= i < numFrames * channels {
          data[i] := data[offset + i];
        }
      }
      readPos := 0;
      writePos := numFrames;
      assert data[..numFrames * channels] == queue;
    }

    /** `realloc`: a larger array that starts with the old contents. */
    method Grow(newCapacity: nat)
      requires Valid() && numFrames >= 0 && newCapacity >= capacityFrames
      modifies this`data, this`capacityFrames
      ensures Valid() && fresh(data) && capacityFrames == newCapacity && Queue() == old(Queue())
    {
      Scale(0, readPos, channels);
      Scale(writePos, capacityFrames, channels);
      Scale(readPos, writePos, channels);
      Scale(capacityFrames, newCapacity, channels);
      var newBuffer := new real[newCapacity * channels](_ => 0.0);
      forall i | 0 <= i < data.Length {
        newBuffer[i] := data[i];
      }
      assert newBuffer[readPos * channels..writePos * channels] == data[readPos * channels..writePos * channels];
      data := newBuffer;
      capacityFrames := newCapacity;
    }

    /**
     * `putIntoFloatBuffer`.  `canGrow` says whether a `realloc`, should one be needed,
     * succeeds.  The call fails only if it does not, and then loses nothing queued.  Frames that
     * are still to be dropped go first; the array cannot be compacted as long as there are any.
     */
    method Put(pcm: seq<byte>, canGrow: bool) returns (ok: bool)
      requires Valid() && (numFrames >= 0 || Space().Fits(WholeIn(|pcm|, channels)))
      modifies this`data, this`capacityFrames, this`readPos, this`writePos, this`numFrames, data
      ensures Valid() && (fresh(data) || data == old(data))
      ensures old(numFrames) >= 0 ==>
                && (Space(), ok) == old(Space()).Put(old(numFrames), WholeIn(|pcm|, channels), canGrow)
                && Queue() == old(Queue()) + if ok then Samples(pcm)[..WholeIn(|pcm|, channels) * channels] else []
      ensures ok <==> canGrow || old(numFrames) + WholeIn(|pcm|, channels) <= old(capacityFrames)
      ensures capacityFrames == old(capacityFrames) || capacityFrames == old(capacityFrames) + 2 * WholeIn(|pcm|, channels)
      ensures old(numFrames) < 0 ==>
                && ok && Space() == Room(old(writePos) + WholeIn(|pcm|, channels), old(capacityFrames))
                && Queue() == Dropped(Samples(pcm)[..WholeIn(|pcm|, channels) * channels], -old(numFrames), channels)
      ensures numFrames == old(numFrames) + if ok then WholeIn(|pcm|, channels) else 0
      ensures old(numFrames) + WholeIn(|pcm|, channels) <= old(capacityFrames) ==> data == old(data)
    {
      hide FloatBuffer.Queue, Samples, WholeIn, Dropped;
      var framesRead := WholeIn(|pcm|, channels);
      if capacityFrames - writePos < framesRead {
        Compact();
        if capacityFrames - writePos < framesRead {
          if !canGrow {
            return false;
          }
          Grow(capacityFrames + framesRead * 2);
        }
      }
      Append(pcm, framesRead);
      return true;
    }

    /** The copy loop at the end of `putIntoFloatBuffer`. */
    method Append(pcm: seq<byte>, framesRead: nat)
      requires Valid() && writePos + framesRead <= capacityFrames
      requires 0 <= framesRead * channels <= |pcm| / 2
      modifies this`writePos, this`numFrames, data
      ensures Valid() && numFrames == old(numFrames) + framesRead && writePos == old(writePos) + framesRead
      ensures Queue() == if old(numFrames) >= 0 then old(Queue()) + Samples(pcm)[..framesRead * channels]
                         else Dropped(Samples(pcm)[..framesRead * channels], -old(numFrames), channels)
    {
      hide FloatBuffer.Queue, Samples, Dropped;
      ghost var before := data[..];
      QueueIs();
      var base, numSamples := writePos * channels, framesRead * channels;
      ghost var end := (writePos + framesRead) * channels;
      Behind(writePos, framesRead, capacityFrames, channels);
      CopySamples(pcm, base, numSamples);
      writePos := writePos + framesRead;
      numFrames := numFrames + framesRead;
      assert base + numSamples == end;
      Appended(before, Samples(pcm)[..numSamples], old(numFrames), framesRead);
    }

    lemma QueueIs()
      requires Valid()
      ensures numFrames >= 0 ==>
                && 0 <= readPos * channels <= writePos * channels <= data.Length
                && Queue() == data[..][readPos * channels..writePos * channels]
    {
      if numFrames >= 0 {
        Scale(0, readPos, channels);
        Scale(readPos, writePos, channels);
        Scale(writePos, capacityFrames, channels);
        NothingQueued(numFrames, channels);
      }
    }

    /** The loop itself. */
    method CopySamples(pcm: seq<byte>, base: nat, numSamples: nat)
      requires numSamples <= |pcm| / 2 && base + numSamples <= data.Length
      modifies data
      ensures data[..base] == old(data[..])[..base] && data[base..base + numSamples] == Samples(pcm)[..numSamples]
    {
      hide Scaled;
      var k := 0;
      while k < numSamples
        invariant 0 <= k <= numSamples
        invariant data[..base] == old(data[..])[..base]
        invariant data[base..base + k] == Samples(pcm)[..k]
        modifies data
      {
        data[base + k] := Scaled(pcm[2 * k], pcm[2 * k + 1]);
        k := k + 1;
      }
    }

    /** The queue after new frames have been written behind it. */
    lemma Appended(before: seq<real>, added: seq<real>, buffered: int, framesRead: nat)
      requires Valid() && numFrames == buffered + framesRead && writePos >= framesRead
      requires |added| == framesRead * channels && |before| == data.Length
      requires 0 <= (writePos - framesRead) * channels <= writePos * channels <= data.Length
      requires data[..(writePos - framesRead) * channels] == before[..(writePos - framesRead) * channels]
      requires data[(writePos - framesRead) * channels..writePos * channels] == added
      ensures buffered >= 0 ==>
                && 0 <= readPos * channels <= (writePos - framesRead) * channels
                && Queue() == before[readPos * channels..(writePos - framesRead) * channels] + added
      ensures buffered < 0 ==> Queue() == Dropped(added, -buffered, channels)
    {
      var from, base, end := readPos * channels, (writePos - framesRead) * channels, writePos * channels;
      Scale(0, readPos, channels);
      if buffered >= 0 {
        Scale(readPos, writePos - framesRead, channels);
        assert data[from..end] == data[..base][from..] + data[base..end];
        NothingQueued(numFrames, channels);
      } else {
        Scale(0, -buffered, channels);
        AddFrames(writePos - framesRead, -buffered, channels);
        if numFrames > 0 {
          Scale(-buffered, framesRead, channels);
          assert data[from..end] == data[base..end][-buffered * channels..];
        } else if numFrames < 0 {
          Scale(framesRead + 1, -buffered, channels);
          AddFrames(framesRead, 1, channels);
        }
      }
    }

    /** Copies the oldest `frames` frames out, as `decode` does with `memcpy`. */
    method Drain(frames: nat) returns (out: seq<real>)
      requires Valid() && frames <= numFrames
      modifies this`readPos, this`numFrames
      ensures Valid() && numFrames == old(numFrames) - frames
      ensures |out| == frames * channels && out + Queue() == old(Queue())
    {
      Scale(0, readPos, channels);
      Scale(readPos, readPos + frames, channels);
      Scale(readPos + frames, writePos, channels);
      Scale(writePos, capacityFrames, channels);
      assert (readPos + frames) * channels == readPos * channels + frames * channels;
      out := data[readPos * channels..readPos * channels + frames * channels];
      readPos := readPos + frames;
      numFrames := numFrames - frames;
    }

    /** Drops `frames` frames, those that are not there yet from what comes next. */
    method Skip(frames: nat)
      requires Valid() && numFrames >= 0
      modifies this`readPos, this`numFrames
      ensures Valid() && numFrames == old(numFrames) - frames
      ensures Queue() == Dropped(old(Queue()), frames, channels)
    {
      Scale(0, frames, channels);
      Scale(0, readPos, channels);
      Scale(writePos, capacityFrames, channels);
      AddFrames(readPos, frames, channels);
      if frames <= numFrames {
        Scale(frames, numFrames, channels);
        Scale(readPos + frames, writePos, channels);
      } else {
        Scale(numFrames + 1, frames, channels);
        AddFrames(numFrames, 1, channels);
      }
      readPos := readPos + frames;
      numFrames := numFrames - frames;
    }
  }

  lemma Behind(at: nat, frames: nat, capacity: nat, channels: nat)
    requires at + frames <= capacity
    ensures 0 <= at * channels <= (at + frames) * channels <= capacity * channels
    ensures (at + frames) * channels == at * channels + frames * channels
  {
    Scale(0, at, channels);
    Scale(at, at + frames, channels);
    Scale(at + frames, capacity, channels);
    AddFrames(at, frames, channels);
  }

  lemma NothingQueued(frames: nat, channels: nat)
    ensures frames == 0 ==> frames * channels == 0
  {
  }
}
