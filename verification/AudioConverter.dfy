/**
 * The AudioToolbox decoder: seeks go to a packet of the file, the frames before the target
 * inside that packet are dropped as they come out of the converter.
 */
module AudioConverter {
  import opened Frames
  import opened Session
  import opened Truncation

  /** One `fill_data` before the end of the file: the frames the converter makes of a chunk, and whether it parses. */
  datatype Fill = Fill(frames: nat, ok: bool)

  /** No parse error among the fills `[from, to)`. */
  ghost predicate Clean(fills: seq<Fill>, from: nat, to: nat)
    requires from <= to <= |fills|
  {
    forall i :: from <= i < to ==> fills[i].ok
  }

  /** The frames that the fills from `turn` on yield. */
  function Rest(fills: seq<Fill>, turn: nat): nat
    requires turn <= |fills|
    decreases |fills| - turn
  {
    if turn == |fills| then 0 else fills[turn].frames + Rest(fills, turn + 1)
  }

  /** First frame of a packet. */
  function PacketStart(packet: nat, framesPerPacket: nat): nat {
    packet * framesPerPacket
  }

  /** What a decode counts: frames still to drop, frames buffered, fills used, frames handed out. */
  datatype Stage = Stage(offset: nat, buffered: nat, turn: nat, read: nat)

  /** A call of `decode` for `frames` frames at `index`. */
  datatype Call = Call(fills: seq<Fill>, junk: nat, index: nat, frames: nat)
  {
    ghost predicate Holds(s: Stage) {
      s.turn <= |fills| && s.read <= frames
    }

    /** `fill_data` on counters, and whether it succeeds. */
    function Filled(s: Stage): (r: (Stage, bool))
      requires Holds(s)
      ensures Holds(r.0) && (r.1 ==> r.0.turn == s.turn + 1)
    {
      if s.turn == |fills| then (s, false)
      else (s.(turn := s.turn + 1, buffered := s.buffered + fills[s.turn].frames), fills[s.turn].ok)
    }

    /** `dump_data` on counters. */
    function Dumped(s: Stage): (r: Stage)
      requires Holds(s)
      ensures Holds(r) && r.turn == s.turn && r.offset == s.offset && s.read <= r.read && r.buffered <= s.buffered
      ensures s.buffered > 0 && s.read < frames ==> r.buffered < s.buffered
    {
      var current := index + s.read;
      var deleted := if current < junk then Min(junk - current, s.buffered) else 0;
      var count := if frames - s.read > deleted then Min(s.buffered - deleted, frames - s.read - deleted) else 0;
      s.(buffered := s.buffered - deleted - count, read := s.read + count)
    }

    /** Drops what is buffered of the frames before the target. */
    function Dropped(s: Stage): (r: Stage)
      requires Holds(s)
      ensures Holds(r)
    {
      var k := Min(s.buffered, s.offset);
      s.(buffered := s.buffered - k, offset := s.offset - k)
    }

    /** One round of the loop, and whether the loop goes on. */
    function Step(s: Stage): (r: (Stage, bool))
      requires Holds(s) && s.read < frames
      ensures Holds(r.0) && s.turn <= r.0.turn && s.read <= r.0.read
      ensures r.1 ==> Less(|fills| - r.0.turn, r.0.offset, r.0.buffered, |fills| - s.turn, s.offset, s.buffered)
    {
      if s.offset > 0 then
        var d := Dropped(s);
        if d.offset > 0 then Filled(d) else (d, true)
      else if s.buffered == 0 then Filled(s)
      else (Dumped(s), true)
    }

    /** The loop of `decode`. */
    function Loop(s: Stage): (r: Stage)
      requires Holds(s)
      ensures Holds(r) && s.turn <= r.turn && s.read <= r.read
      decreases |fills| - s.turn, s.offset, s.buffered
    {
      if s.read == frames then s
      else if Step(s).1 then Loop(Step(s).0) else Step(s).0
    }

    lemma LoopStep(s: Stage)
      requires Holds(s) && s.read < frames
      ensures Loop(s) == if Step(s).1 then Loop(Step(s).0) else Step(s).0
    {
    }

    lemma LoopEnd(s: Stage)
      requires Holds(s)
      ensures s.read == frames ==> Loop(s) == s
    {
    }

    /** The whole call: the loop, then one more dump. */
    function Run(s: Stage): (r: Stage)
      requires Holds(s)
      ensures Holds(r) && s.turn <= r.turn && s.read <= r.read
    {
      Dumped(Loop(s))
    }

    /** Where the frames still to come end, relative to the position: no step of a call changes it. */
    function Ahead(s: Stage): int
      requires Holds(s)
    {
      s.buffered + Rest(fills, s.turn) - s.offset + s.read
    }

    lemma StepMeans(s: Stage)
      requires Holds(s) && s.read < frames && index >= junk
      ensures var (r, more) := Step(s);
              && Ahead(r) == Ahead(s) && r.offset <= s.offset && (s.offset > 0 ==> r.read == s.read)
              && (more ==> Clean(fills, s.turn, r.turn))
              && (!more ==> (r.turn == s.turn == |fills| && r.buffered == 0) || !Clean(fills, s.turn, r.turn))
    {
    }

    lemma {:induction false} LoopMeans(s: Stage)
      requires Holds(s) && index >= junk
      ensures var r := Loop(s);
              && Ahead(r) == Ahead(s) && r.offset <= s.offset && (r.offset > 0 ==> r.read == s.read)
              && (r.read == frames || (r.turn == |fills| && r.buffered == 0) || !Clean(fills, s.turn, r.turn))
      decreases |fills| - s.turn, s.offset, s.buffered
    {
      if s.read < frames {
        StepMeans(s);
        hide Step, Dumped, Dropped, Filled, Rest;
        var (next, more) := Step(s);
        if more {
          LoopMeans(next);
          assert Clean(fills, s.turn, Loop(next).turn) ==> Clean(fills, next.turn, Loop(next).turn);
        }
      }
    }

    /**
     * Past the start junk a call loses no frame, and if it meets no failing fill it hands out
     * what was asked for or ends with the file, however the fills are cut.
     */
    lemma RunMeans(s: Stage)
      requires Holds(s) && index >= junk && s.read == 0
      ensures var r := Run(s);
              && Ahead(r) == Ahead(s) && r.offset <= s.offset
              && (Clean(fills, s.turn, r.turn) ==>
                    && (r.read == frames || (r.turn == |fills| && r.buffered == 0))
                    && (r.offset > 0 ==> r.read == 0))
    {
      LoopMeans(s);
      hide Step, Loop, Rest;
    }

    /** The first fill from `turn` on that fails. */
    function Failing(turn: nat): (f: nat)
      requires turn <= |fills|
      ensures turn <= f <= |fills| && Clean(fills, turn, f) && (f < |fills| ==> !fills[f].ok)
      decreases |fills| - turn
    {
      if turn < |fills| && fills[turn].ok then Failing(turn + 1) else turn
    }

    /** The frames that the fills `[from, to)` yield. */
    function Given(from: nat, end: nat): nat
      requires from <= end <= |fills|
      decreases end - from
    {
      if from == end then 0 else fills[from].frames + Given(from + 1, end)
    }

    /** What is buffered and what the fills before the first failure yield. */
    function Sound(s: Stage): nat
      requires Holds(s)
    {
      s.buffered + Given(s.turn, Failing(s.turn))
    }

    /** What the failing fill itself leaves in the buffer. */
    function Torn(s: Stage): nat
      requires Holds(s)
    {
      if Failing(s.turn) < |fills| then fills[Failing(s.turn)].frames else 0
    }

    /** The frames still to be dropped after a call, and the frames it hands out. */
    function Outcome(s: Stage): (nat, nat)
      requires Holds(s)
    {
      if Sound(s) < s.offset then (s.offset - Sound(s), Min(frames, s.read + Torn(s)))
      else (0, Min(frames, s.read + Sound(s) - s.offset + Torn(s)))
    }

    lemma OutcomeStep(s: Stage)
      requires Holds(s) && s.read < frames && index >= junk && (s.offset > 0 ==> s.read == 0)
      ensures var (r, more) := Step(s);
              && (r.offset > 0 ==> r.read == 0)
              && if more then Outcome(r) == Outcome(s) else (Dumped(r).offset, Dumped(r).read) == Outcome(s)
    {
    }

    /**
     * Every call past the start junk, whatever fails.  Up to the first failing fill the frames
     * count as they should; what the failing fill leaves in the buffer is handed out even if the
     * target has not been reached.
     */
    lemma {:induction false} RunExactly(s: Stage)
      requires Holds(s) && index >= junk && frames > 0 && (s.offset > 0 ==> s.read == 0)
      ensures (Run(s).offset, Run(s).read) == Outcome(s)
      decreases |fills| - s.turn, s.offset, s.buffered
    {
      if s.read < frames {
        OutcomeStep(s);
        hide Step, Outcome;
        var (next, more) := Step(s);
        if more {
          RunExactly(next);
        }
      }
    }

    /** A fill `t` that fails before the target is reached, and leaves frames in the buffer. */
    ghost predicate FailsEarly(s: Stage, t: nat)
      requires Holds(s)
    {
      && s.turn <= t < |fills| && Clean(fills, s.turn, t) && !fills[t].ok
      && s.buffered + Given(s.turn, t) < s.offset && fills[t].frames > 0
    }

    /** Only the first failing fill can be such a fill. */
    lemma FailsFirst(s: Stage, t: nat)
      requires Holds(s) && FailsEarly(s, t)
      ensures t == Failing(s.turn)
    {
    }

    /**
     * A call hands out frames from before the target if and only if a fill fails before the
     * target is reached and leaves frames in the buffer.  They are the first frames of that
     * fill, and begin as many frames before the target as had still to be dropped.
     */
    lemma EarlyExactly(s: Stage)
      requires Holds(s) && index >= junk && frames > 0 && s.read == 0
      ensures Run(s).read > 0 && Run(s).offset > 0 <==> exists t: nat :: FailsEarly(s, t)
      ensures forall t: nat :: FailsEarly(s, t) ==>
                && Run(s).read == Min(frames, fills[t].frames)
                && Run(s).offset == s.offset - s.buffered - Given(s.turn, t)
    {
      RunExactly(s);
      hide Run;
      forall t: nat | FailsEarly(s, t)
        ensures t == Failing(s.turn)
      {
        FailsFirst(s, t);
      }
      if Sound(s) < s.offset && Torn(s) > 0 {
        assert FailsEarly(s, Failing(s.turn));
      }
    }

    /** At or past the junk no frame is lost. */
    lemma {:induction false} PastJunk(s: Stage)
      requires Holds(s) && index + s.read >= junk
      ensures Ahead(Loop(s)) == Ahead(s) && Ahead(Dumped(s)) == Ahead(s) && Loop(s).read >= s.read
      decreases |fills| - s.turn, s.offset, s.buffered
    {
      if s.read < frames {
        StepAhead(s);
        hide Step, Dropped, Filled, Rest;
        if Step(s).1 {
          PastJunk(Step(s).0);
        }
      }
    }

    lemma StepAhead(s: Stage)
      requires Holds(s) && s.read < frames
      ensures Ahead(Step(s).0) <= Ahead(s) && Ahead(Dumped(s)) <= Ahead(s)
      ensures index + s.read >= junk ==> Ahead(Step(s).0) == Ahead(s)
    {
    }

    /** Before it frames can only be lost. */
    lemma {:induction false} LoopShrinks(s: Stage)
      requires Holds(s)
      ensures Ahead(Loop(s)) <= Ahead(s) && Ahead(Run(s)) <= Ahead(s)
      decreases |fills| - s.turn, s.offset, s.buffered
    {
      if s.read < frames {
        StepAhead(s);
        hide Step, Dropped, Filled, Rest;
        if Step(s).1 {
          LoopShrinks(Step(s).0);
        }
      }
    }

    /**
     * A call from before the end of the junk, with more buffered than it asks for and than is
     * left of the junk: it loses the junk and nothing else if and only if it asks for twice as
     * much as is left of the junk.  Otherwise the position is still before the end of the junk
     * when it dumps again, and real frames go the way of the junk.
     */
    lemma JunkExactly(s: Stage)
      requires Holds(s) && s.offset == 0 && s.read == 0 && index < junk
      requires s.buffered > frames > 0 && s.buffered > junk - index
      ensures Ahead(Run(s)) == Ahead(s) - (junk - index) <==> frames >= 2 * (junk - index)
    {
      var once, twice := Dumped(s), Dumped(Dumped(s));
      assert Loop(s) == Loop(once) && Ahead(once) == Ahead(s) - (junk - index);
      if frames >= 2 * (junk - index) {
        assert index + once.read >= junk;
        PastJunk(once);
        hide Step, Dropped, Filled, Rest, Loop;
        PastJunk(Loop(once));
      } else {
        assert Loop(once) == Loop(twice) && Ahead(twice) < Ahead(once);
        LoopShrinks(twice);
        hide Step, Dropped, Filled, Rest, Loop;
      }
    }

    /** A call for no more than is left of the junk hands out nothing and uses up the file, or all up to a fill that fails. */
    lemma {:induction false} JunkEatsAll(s: Stage)
      requires Holds(s) && s.read == 0 && 0 < frames && index + frames <= junk
      ensures Run(s).read == 0 && Loop(s).read == 0
      ensures Clean(fills, s.turn, Run(s).turn) ==> Run(s).turn == |fills| && Run(s).buffered == 0
      decreases |fills| - s.turn, s.offset, s.buffered
    {
      DumpsNothing(s);
      var (next, more) := Step(s);
      if more {
        hide Step, Dropped, Filled, Dumped;
        JunkEatsAll(next);
        assert Clean(fills, s.turn, Run(s).turn) ==> Clean(fills, next.turn, Run(s).turn);
      } else {
        DumpsNothing(next);
      }
    }

    lemma DumpsNothing(s: Stage)
      requires Holds(s) && s.read == 0 && 0 < frames && index + frames <= junk
      ensures Dumped(s).read == 0 && Step(s).0.read == 0
      ensures !Step(s).1 ==> (Step(s).0.turn == |fills| && Step(s).0.buffered == 0) || !Clean(fills, s.turn, Step(s).0.turn)
      ensures s.buffered == 0 ==> Dumped(s).buffered == 0
    {
    }
  }

  class DecoderAudioConverter {
    var pcm: seq<real>
    var frameOffset: nat
    var frameIndex: nat

    const channels: nat
    const framesPerPacket: nat
    const startJunk: nat

    /** The file as the converter decodes it. */
    const stream: seq<real>
    const length: nat

    /** What the provider and the converter answer from the last seek on, and how much of it is used up. */
    var fills: seq<Fill>
    var turn: nat

    /** The frame that the converter decodes next. */
    var produced: nat

    /** The frames that the buffer holds are `[front, produced)`. */
    ghost var front: nat

    /** Answers that continue the stream at frame `at`: to its end, unless one of them fails. */
    ghost predicate Answers(answers: seq<Fill>, at: nat) {
      && at + Rest(answers, 0) <= length
      && (Clean(answers, 0, |answers|) ==> at + Rest(answers, 0) == length)
    }

    ghost predicate Valid()
      reads this
    {
      && channels > 0 && framesPerPacket > 0 && length * channels <= |stream|
      && turn <= |fills| && Total() <= length
      && (Clean(fills, 0, |fills|) ==> Total() == length)
      && Holds()
    }

    /** Where the decoded frames and those still to come end. */
    ghost function Total(): nat
      requires turn <= |fills|
      reads this
    {
      produced + Rest(fills, turn)
    }

    ghost predicate Holds()
      reads this
    {
      && front <= produced <= length && produced * channels <= |stream|
      && pcm == Span(stream, front, produced, channels)
    }

    /** The position is that of the buffer and of the frames still to drop. */
    ghost predicate Aligned()
      reads this
    {
      frameIndex == front + frameOffset
    }

    ghost function Reader(): Session.Reader {
      Session.Reader(stream, channels, length, length)
    }

    function Buffered(): nat
      requires channels > 0
      reads this
    {
      |pcm| / channels
    }

    ghost function Now(read: nat): Stage
      requires channels > 0
      reads this
    {
      Stage(frameOffset, Buffered(), turn, read)
    }

    ghost function Asked(index: nat, frames: nat): Call
      reads this
    {
      Call(fills, startJunk, index, frames)
    }

    constructor (channels: nat, framesPerPacket: nat, startJunk: nat, stream: seq<real>, length: nat, fills: seq<Fill>)
      requires channels > 0 && framesPerPacket > 0 && length * channels <= |stream|
      requires Rest(fills, 0) <= length && (Clean(fills, 0, |fills|) ==> Rest(fills, 0) == length)
      ensures Valid() && Aligned() && frameIndex == turn == 0 && pcm == []
      ensures this.channels == channels && this.framesPerPacket == framesPerPacket && this.startJunk == startJunk
      ensures this.stream == stream && this.length == length && this.fills == fills
    {
      this.channels, this.framesPerPacket, this.startJunk := channels, framesPerPacket, startJunk;
      this.stream, this.length, this.fills := stream, length, fills;
      pcm, frameOffset, frameIndex, turn, front, produced := [], 0, 0, 0, 0, 0;
    }

    /**
     * `seek`: the packet of the target, and how far the target lies inside it.  `ready` says
     * whether the library finds the packet; `answers` is what it reads there.
     */
    method Seek(frame: nat, ready: bool, answers: seq<Fill>)
      requires Valid()
      requires ready ==> Answers(answers, PacketStart(frame / framesPerPacket, framesPerPacket))
      modifies this
      ensures Valid()
      ensures ready ==> Aligned() && frameIndex == frame && frameOffset == frame % framesPerPacket
      ensures ready ==> front % framesPerPacket == 0
      ensures ready ==> fills == answers && turn == 0 && pcm == []
      ensures !ready ==> unchanged(this)
    {
      hide PacketStart, Clean, Rest, Span;
      if !ready {
        return;
      }
      var packet := frame / framesPerPacket;
      SplitFrame(frame, framesPerPacket);
      frameOffset, frameIndex := frame % framesPerPacket, frame;
      pcm, fills, turn := [], answers, 0;
      front, produced := PacketStart(packet, framesPerPacket), PacketStart(packet, framesPerPacket);
      Scale(front, length, channels);
      EmptySpan(stream, front, channels);
    }

    /** `flush`: the buffer is forgotten, the position is not. */
    method Flush()
      requires Valid()
      modifies this`pcm, this`front
      ensures Valid() && pcm == [] && front == old(front + Buffered())
      ensures old(Aligned()) ==> (Aligned() <==> old(pcm) == [])
    {
      SpanLength(stream, front, produced, channels);
      front, pcm := produced, [];
      Scale(front, length, channels);
    }

    /** `fill_data`: the frames of the next answer, behind those buffered. */
    method FillData(ghost call: Call, ghost read: nat) returns (ok: bool)
      requires Valid() && call.fills == fills && read <= call.frames
      modifies this`pcm, this`produced, this`turn
      ensures Valid() && (Now(read), ok) == call.Filled(old(Now(read)))
      ensures Total() == old(Total())
    {
      hide Clean, Span;
      if turn == |fills| {
        return false;
      }
      var frames := fills[turn].frames;
      Scale(produced + frames, length, channels);
      SpanJoin(stream, front, produced, produced + frames, channels);
      SpanLength(stream, front, produced, channels);
      SpanLength(stream, front, produced + frames, channels);
      pcm := pcm + Span(stream, produced, produced + frames, channels);
      produced := produced + frames;
      ok := fills[turn].ok;
      turn := turn + 1;
    }

    /** `erase` of whole frames at the front of the buffer. */
    method Erase(count: nat)
      requires Valid() && count <= Buffered()
      modifies this`pcm, this`front
      ensures Valid() && Buffered() == old(Buffered()) - count && front == old(front) + count
      ensures 0 <= count * channels <= |old(pcm)|
      ensures old(pcm)[..count * channels] == Span(stream, old(front), front, channels)
    {
      hide Clean, Rest;
      SpanLength(stream, front, produced, channels);
      CutSpan(stream, front, front + count, produced, channels);
      SpanLength(stream, front + count, produced, channels);
      pcm, front := pcm[count * channels..], front + count;
    }

    /** The first `read` frames of the output are those before the front of the buffer. */
    ghost predicate Handing(out: seq<real>, read: nat)
      reads this
    {
      && read <= front && front * channels <= |stream| && 0 <= read * channels <= |out|
      && out[..read * channels] == Span(stream, front - read, front, channels)
    }

    /** `memcpy` of the front of the buffer behind the frames read, and its `erase`. */
    method HandOut(out: array<real>, count: nat, read: nat)
      requires Valid() && count <= Buffered() && 0 <= (read + count) * channels <= out.Length
      modifies out, this`pcm, this`front
      ensures Valid() && Buffered() == old(Buffered()) - count && front == old(front) + count
      ensures old(Handing(out[..], read)) ==> Handing(out[..], read + count)
    {
      ghost var before, start := out[..], front;
      var buffered := pcm;
      Erase(count);
      Scale(0, read, channels);
      AddFrames(read, count, channels);
      var at := read * channels;
      forall i | 0 <= i < count * channels {
        out[at + i] := buffered[i];
      }
      assert out[at..(read + count) * channels] == buffered[..count * channels];
      assert before[..at] == out[..at];
      HandedOn(before, out[..], start, read, count);
    }

    lemma HandedOn(before: seq<real>, out: seq<real>, start: nat, read: nat, count: nat)
      requires front == start + count && front * channels <= |stream|
      requires start * channels <= |stream| && 0 <= read * channels <= (read + count) * channels <= |out| == |before|
      requires out[..read * channels] == before[..read * channels]
      requires out[read * channels..(read + count) * channels] == Span(stream, start, front, channels)
      ensures read <= start && before[..read * channels] == Span(stream, start - read, start, channels) ==>
                Handing(out, read + count)
    {
      if read <= start {
        SpanJoin(stream, start - read, start, front, channels);
        assert out[..(read + count) * channels] == out[..read * channels] + out[read * channels..(read + count) * channels];
      }
    }

    /** `dump_data`: at positions before the start junk it erases, then it hands out what fits. */
    method DumpData(out: array<real>, index: nat, frames: nat, read: nat) returns (now: nat)
      requires Valid() && read <= frames && frames * channels == out.Length
      modifies out, this`pcm, this`front
      ensures Valid() && now <= frames && Now(now) == Asked(index, frames).Dumped(old(Now(read)))
      ensures index >= startJunk && old(Handing(out[..], read)) ==> Handing(out[..], now)
    {
      hide Clean, Rest, Span, Handing;
      var framesToRead := frames - read;
      if index + read < startJunk {
        var deleted := Min(startJunk - (index + read), |pcm| / channels);
        Erase(deleted);
        framesToRead := framesToRead - deleted;
      }
      now := read;
      if framesToRead > 0 && |pcm| > 0 {
        SpanLength(stream, front, produced, channels);
        SmallerProduct(|pcm|, Buffered(), framesToRead, channels);
        var samples := Min(|pcm|, framesToRead * channels);
        var count := samples / channels;
        Scale(0, read + count, channels);
        Scale(read + count, frames, channels);
        HandOut(out, count, read);
        now := read + count;
      } else {
        SpanLength(stream, front, produced, channels);
      }
    }

    /** The frames before the target, as far as they are buffered, are erased. */
    method DropOffset()
      requires Valid()
      modifies this`pcm, this`front, this`frameOffset
      ensures Valid() && front + frameOffset == old(front + frameOffset)
      ensures frameOffset == old(frameOffset) - Min(old(Buffered()), old(frameOffset))
      ensures Buffered() == old(Buffered()) - Min(old(Buffered()), old(frameOffset))
    {
      hide Clean, Rest, Span;
      var maximumErase := Min(|pcm| / channels, frameOffset);
      Erase(maximumErase);
      frameOffset := frameOffset - maximumErase;
    }

    /** One round of the loop in `decode`. */
    method Round(out: array<real>, index: nat, frames: nat, read: nat) returns (more: bool, now: nat)
      requires Valid() && read < frames && frames * channels == out.Length && (frameOffset > 0 ==> read == 0)
      modifies out, this`pcm, this`front, this`frameOffset, this`produced, this`turn
      ensures Valid() && now <= frames && (Now(now), more) == Asked(index, frames).Step(old(Now(read)))
      ensures Total() == old(Total())
      ensures frameOffset > 0 ==> now == 0
      ensures index >= startJunk && old(Handing(out[..], read)) ==> Handing(out[..], now)
    {
      hide Clean, Rest, Span, Call.Dumped, Call.Filled;
      ghost var _ := Total();
      more, now := true, read;
      if frameOffset > 0 {
        DropOffset();
        HandingNothing(out[..]);
        if frameOffset > 0 {
          more := FillData(Asked(index, frames), read);
        }
      } else if pcm == [] {
        more := FillData(Asked(index, frames), read);
      } else {
        SpanLength(stream, front, produced, channels);
        now := DumpData(out, index, frames, read);
      }
    }

    /**
     * `decode`.  At or past the start junk the frames handed out are consecutive, and the
     * position, the buffer and the frames still to drop go on together.  Frames from before the
     * position come out exactly if a fill fails before it is reached.  If no fill up to now
     * has failed, they are the frames at the position: as many as asked for, or all to the end.
     */
    method Decode(frames: nat) returns (index: nat, readFrames: nat, samples: seq<real>)
      requires Valid()
      modifies this
      ensures Valid() && fills == old(fills) && turn >= old(turn) && readFrames <= frames
      ensures index == old(frameIndex) && frameIndex == index + readFrames
      ensures Now(readFrames) == Asked(index, frames).Run(old(Now(0)))
      ensures index >= startJunk ==> front + frameOffset == old(front + frameOffset) + readFrames
      ensures index >= startJunk ==> readFrames <= front && samples == Slice(front - readFrames, front)
      ensures index >= startJunk && frames > 0 ==>
                (readFrames > 0 && frameOffset > 0 <==> exists t: nat :: Asked(index, frames).FailsEarly(old(Now(0)), t))
      ensures frames > 0 && index + frames <= startJunk ==>
                readFrames == 0 && (Clean(fills, old(turn), turn) ==> turn == |fills| && pcm == [])
      ensures index >= startJunk && old(Aligned()) && Clean(fills, 0, turn) ==>
                readFrames == Reader().Available(index, frames) && samples == Reader().Delivered(index, frames)
    {
      hide Clean, Rest, Span, Call.Run, Session.Reader.Available, Session.Reader.Delivered;
      index := frameIndex;
      ghost var call, start := Asked(index, frames), Now(0);
      SpanLength(stream, front, produced, channels);
      Scale(0, frames, channels);
      var out := new real[frames * channels];
      readFrames := Fill(out, index, frames);
      samples := out[..readFrames * channels];
      frameIndex := index + readFrames;
      if frames > 0 && index + frames <= startJunk {
        call.JunkEatsAll(start);
        SpanLength(stream, front, produced, channels);
      }
      if index >= startJunk {
        RunPlace(call, start, old(front), readFrames);
        if frames > 0 {
          call.EarlyExactly(start);
        }
        if old(Aligned()) && Clean(fills, 0, turn) {
          RunDelivers(call, start, old(front), readFrames);
        }
      }
    }

    /** The loop, and the dump behind it. */
    method Fill(out: array<real>, index: nat, frames: nat) returns (read: nat)
      requires Valid() && frames * channels == out.Length
      modifies out, this`pcm, this`front, this`frameOffset, this`produced, this`turn
      ensures Valid() && read <= frames && turn >= old(turn) && Total() == old(Total())
      ensures Now(read) == Asked(index, frames).Run(old(Now(0)))
      ensures 0 <= read * channels <= out.Length
      ensures index >= startJunk ==> Handing(out[..], read)
    {
      ghost var call, start, total := Asked(index, frames), Now(0), Total();
      HandingNothing(out[..]);
      hide Clean, Rest, Span, DecoderAudioConverter.Holds, DecoderAudioConverter.Handing, Call.Step, Call.Loop, Call.Dumped;
      read := 0;
      var more := true;
      while more && read < frames
        invariant Valid() && read <= frames && turn >= start.turn && (frameOffset > 0 ==> read == 0)
        invariant Total() == total
        invariant index >= startJunk ==> Handing(out[..], read)
        invariant call.Loop(start) == if more then call.Loop(Now(read)) else Now(read)
        decreases more, |fills| - turn, frameOffset, Buffered()
      {
        call.LoopStep(Now(read));
        more, read := Round(out, index, frames, read);
      }
      call.LoopEnd(Now(read));
      read := DumpData(out, index, frames, read);
      Scale(0, read, channels);
      Scale(read, frames, channels);
    }

    /** What the library answers to a seek, if the whole file parses. */
    ghost predicate AnswersWell(answers: seq<Fill>, frame: nat)
      requires framesPerPacket > 0
    {
      Answers(answers, PacketStart(frame / framesPerPacket, framesPerPacket)) && Clean(answers, 0, |answers|)
    }

    /** A run of seeks and decodes of a file that parses, however its bytes and packets are cut. */
    method Play(answer: nat -> seq<Fill>, ops: seq<Operation>) returns (outputs: seq<seq<real>>)
      requires Valid() && Aligned() && Clean(fills, 0, |fills|) && startJunk <= frameIndex
      requires forall i :: 0 <= i < |ops| ==> !ops[i].Flush?
      requires forall i :: 0 <= i < |ops| && ops[i].Seek? ==>
                 startJunk <= ops[i].frame <= length && AnswersWell(answer(ops[i].frame), ops[i].frame)
      modifies this
      ensures Valid() && Aligned()
      ensures frameIndex == Reader().Position(old(frameIndex), ops)
      ensures outputs == Reader().Outputs(old(frameIndex), ops)
      decreases |ops|
    {
      hide Rest, Span, Call.Run, Session.Reader.Available, Session.Reader.Delivered;
      if |ops| == 0 {
        return [];
      }
      var head := [];
      match ops[0] {
        case Seek(frame) =>
          assert AnswersWell(answer(ops[0].frame), ops[0].frame);
          Seek(frame, true, answer(frame));
        case Decode(n) =>
          var _, _, samples := Decode(n);
          head := [samples];
      }
      var rest := Play(answer, ops[1..]);
      outputs := head + rest;
    }

    /** Frames `[from, to)` of the stream, if there are so many. */
    ghost function Slice(from: nat, to: nat): seq<real> {
      if from <= to && to * channels <= |stream| then Span(stream, from, to, channels) else []
    }

    /** No frame is lost or repeated between the buffer and the output. */
    lemma RunPlace(call: Call, start: Stage, at: nat, read: nat)
      requires Valid() && call == Asked(call.index, call.frames) && call.index >= startJunk
      requires call.Holds(start) && start.read == 0 && Now(read) == call.Run(start)
      requires at + start.buffered + Rest(fills, start.turn) == Total()
      ensures front + frameOffset == at + start.offset + read
    {
      call.RunMeans(start);
      hide Call.Run, Rest, Clean;
      SpanLength(stream, front, produced, channels);
    }

    lemma RunDelivers(call: Call, start: Stage, at: nat, read: nat)
      requires Valid() && call == Asked(call.index, call.frames) && call.index >= startJunk
      requires call.Holds(start) && start.read == 0 && Now(read) == call.Run(start)
      requires at + start.buffered + Rest(fills, start.turn) == Total() && call.index == at + start.offset
      requires Clean(fills, 0, turn) && read <= front
      ensures read == Reader().Available(call.index, call.frames)
      ensures Reader().Delivered(call.index, call.frames) == Slice(front - read, front)
    {
      RunPlace(call, start, at, read);
      call.RunMeans(start);
      assert Clean(fills, start.turn, turn);
      hide Call.Run;
      SpanLength(stream, front, produced, channels);
      Scale(front, length, channels);
      EmptySpan(stream, front, channels);
      if read == 0 && call.index < length {
        Scale(call.index, length, channels);
        EmptySpan(stream, call.index, channels);
      }
    }

    lemma HandingNothing(out: seq<real>)
      requires Valid()
      ensures Handing(out, 0)
    {
      Scale(front, produced, channels);
      EmptySpan(stream, front, channels);
    }
  }

  /** The measure of the loop: bytes to read, frames to drop, samples to hand out. */
  ghost predicate Less(a: nat, b: nat, c: nat, a': nat, b': nat, c': nat) {
    a < a' || (a == a' && (b < b' || (b == b' && c < c')))
  }

  lemma SplitFrame(frame: nat, packet: nat)
    requires packet > 0
    ensures frame / packet >= 0 && frame == PacketStart(frame / packet, packet) + frame % packet
    ensures 0 <= frame % packet < packet && PacketStart(frame / packet, packet) % packet == 0
  {
    WholeFrames(frame / packet, packet);
  }

  lemma EmptySpan(s: seq<real>, at: nat, channels: nat)
    requires at * channels <= |s|
    ensures Span(s, at, at, channels) == []
  {
  }

  lemma SpanLength(s: seq<real>, from: nat, to: nat, channels: nat)
    requires from <= to && to * channels <= |s| && channels > 0
    ensures |Span(s, from, to, channels)| == (to - from) * channels
    ensures (to - from) * channels / channels == to - from
    ensures Span(s, from, to, channels) == [] <==> from == to
  {
    WholeFrames(to - from, channels);
    if from < to {
      Scale(1, to - from, channels);
    }
  }

  /** The lesser of two whole numbers of frames, taken in samples. */
  lemma SmallerProduct(samples: nat, frames: nat, wanted: nat, channels: nat)
    requires channels > 0 && samples == frames * channels
    ensures Min(samples, wanted * channels) == Min(frames, wanted) * channels
    ensures Min(samples, wanted * channels) / channels == Min(frames, wanted)
  {
    if frames <= wanted {
      Scale(frames, wanted, channels);
      WholeFrames(frames, channels);
    } else {
      Scale(wanted, frames, channels);
      WholeFrames(wanted, channels);
    }
  }
}
