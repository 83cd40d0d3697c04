/** The Vorbis decoder: planar chunks of any size, with holes between them, interleaved into one buffer. */
module Vorbis {
  import opened Frames
  import opened Session
  import opened Truncation

  /** A planar buffer: one plane per channel, all of the same length. */
  ghost predicate Planar(planes: seq<seq<real>>, length: nat) {
    |planes| > 0 && forall j :: 0 <= j < |planes| ==> |planes[j]| == length
  }

  lemma Place(p: nat, channels: nat, length: nat)
    requires channels > 0 && p < length * channels
    ensures p / channels < length && p % channels < channels && p == p / channels * channels + p % channels
  {
    if p / channels >= length {
      Scale(length, p / channels, channels);
    }
  }

  lemma PlaceOf(i: nat, j: nat, channels: nat)
    requires j < channels
    ensures (i * channels + j) / channels == i && (i * channels + j) % channels == j
  {
    var p := i * channels + j;
    assert p == p / channels * channels + p % channels;
    if p / channels > i {
      Scale(i + 1, p / channels, channels);
      AddFrames(i, 1, channels);
    } else if p / channels < i {
      Scale(p / channels + 1, i, channels);
      AddFrames(p / channels, 1, channels);
    }
  }

  function Interleaved(planes: seq<seq<real>>, length: nat): (s: seq<real>)
    requires Planar(planes, length)
    ensures |s| == length * |planes|
  {
    seq(length * |planes|, p requires 0 <= p < length * |planes| =>
      (Place(p, |planes|, length); planes[p % |planes|][p / |planes|]))
  }

  /** Frames `[from, to)` of every plane. */
  function Cut(planes: seq<seq<real>>, length: nat, from: nat, to: nat): (r: seq<seq<real>>)
    requires Planar(planes, length) && from <= to <= length
    ensures Planar(r, to - from) && |r| == |planes|
  {
    seq(|planes|, j requires 0 <= j < |planes| => planes[j][from..to])
  }

  lemma InterleavedAt(planes: seq<seq<real>>, length: nat, i: nat, j: nat)
    requires Planar(planes, length) && i < length && j < |planes|
    ensures i * |planes| + j < |Interleaved(planes, length)|
    ensures Interleaved(planes, length)[i * |planes| + j] == planes[j][i]
  {
    Scale(i + 1, length, |planes|);
    AddFrames(i, 1, |planes|);
    PlaceOf(i, j, |planes|);
  }

  /** Interleaving a cut of the planes is cutting the interleaved stream. */
  lemma InterleavedCut(planes: seq<seq<real>>, length: nat, from: nat, to: nat)
    requires Planar(planes, length) && from <= to <= length
    ensures 0 <= to * |planes| <= |Interleaved(planes, length)|
    ensures Interleaved(Cut(planes, length, from, to), to - from) == Span(Interleaved(planes, length), from, to, |planes|)
  {
    hide Interleaved, Planar;
    var ch := |planes|;
    var cut := Cut(planes, length, from, to);
    var inner := Interleaved(cut, to - from);
    Scale(0, from, ch);
    Scale(from, to, ch);
    Scale(to, length, ch);
    var outer := Span(Interleaved(planes, length), from, to, ch);
    forall p | 0 <= p < |inner|
      ensures inner[p] == outer[p]
    {
      CutAt(planes, length, from, to, p);
    }
  }

  lemma CutAt(planes: seq<seq<real>>, length: nat, from: nat, to: nat, p: nat)
    requires Planar(planes, length) && from <= to <= length && p < (to - from) * |planes|
    ensures 0 <= from * |planes| + p < length * |planes|
    ensures Interleaved(Cut(planes, length, from, to), to - from)[p] == Interleaved(planes, length)[from * |planes| + p]
  {
    var ch := |planes|;
    Place(p, ch, to - from);
    var i, j := p / ch, p % ch;
    hide Interleaved;
    AddFrames(from, i, ch);
    InterleavedAt(Cut(planes, length, from, to), to - from, i, j);
    InterleavedAt(planes, length, from + i, j);
  }

  /** What the codec does at one read: a hole, a failure, or at most so many frames. */
  datatype Answer = Skip | Fail | Give(frames: nat)

  /** One result of `ov_read_float`; no frames means the end of the stream. */
  datatype Read = Hole | Failure | Pcm(planes: seq<seq<real>>, frames: nat)

  /** No read among `[from, to)` fails. */
  ghost predicate Clean(script: seq<Answer>, from: nat, to: nat)
    requires from <= to <= |script|
  {
    forall i :: from <= i < to ==> !script[i].Fail?
  }

  /** What a decode counts: answers used up and frames read. */
  datatype Stage = Stage(turn: nat, read: nat)

  /** A call of `decode` for `frames` frames, with `left` frames between its index and the end. */
  datatype Call = Call(script: seq<Answer>, left: nat, frames: nat)
  {
    ghost predicate Holds(s: Stage) {
      s.turn <= |script| && s.read <= Min(frames, left)
    }

    /** The frames of one read that succeeds: never none before the end. */
    function Taken(s: Stage, most: nat): (k: nat)
      requires Holds(s)
      ensures k <= Min(frames, left) - s.read
      ensures k == 0 && most > 0 ==> s.read == frames || s.read == left
    {
      Min(most, Min(frames, left) - s.read)
    }

    /** One round of the loop, and whether the loop goes on; behind the script every read is full. */
    function Step(s: Stage): (r: (Stage, bool))
      requires Holds(s) && s.read < frames
      ensures Holds(r.0) && s.turn <= r.0.turn && s.read <= r.0.read
      ensures r.1 ==> s.turn < r.0.turn || s.read < r.0.read
    {
      if s.turn == |script| then
        var k := Taken(s, frames);
        (s.(read := s.read + k), k > 0)
      else match script[s.turn]
        case Skip => (s.(turn := s.turn + 1), true)
        case Fail => (s.(turn := s.turn + 1), false)
        case Give(most) =>
          var k := Taken(s, most);
          (Stage(s.turn + 1, s.read + k), k > 0)
    }

    /** The loop of `decode`. */
    function Run(s: Stage): (r: Stage)
      requires Holds(s)
      ensures Holds(r) && s.turn <= r.turn && s.read <= r.read
      decreases |script| - s.turn + frames - s.read
    {
      if s.read == frames then s
      else if Step(s).1 then Run(Step(s).0) else Step(s).0
    }

    /**
     * A decode reads what was asked for or all there is, however the codec cuts it and
     * wherever the holes are, unless a read fails; then that is the last read.
     */
    lemma {:induction false} RunReads(s: Stage)
      requires Holds(s) && Sized(script)
      ensures var r := Run(s);
              && (r.read == Min(frames, left) || (r.turn > s.turn && script[r.turn - 1].Fail?))
              && Clean(script, s.turn, if r.turn > s.turn then r.turn - 1 else r.turn)
      decreases |script| - s.turn + frames - s.read
    {
      if s.read < frames && Step(s).1 {
        RunReads(Step(s).0);
      }
    }
  }

  /** A read that succeeds asks for no empty chunk. */
  ghost predicate Sized(script: seq<Answer>) {
    forall i :: 0 <= i < |script| && script[i].Give? ==> script[i].frames > 0
  }

  class DecoderVorbis {
    var frameIndex: nat

    /** The codec: its planes, where it stands, how it answers, and how many answers are used up. */
    const planes: seq<seq<real>>
    const length: nat
    const seekable: bool
    const script: seq<Answer>
    var at: nat
    var turn: nat

    ghost predicate Valid()
      reads this
    {
      && Planar(planes, length) && frameIndex <= length && at <= length && (seekable || at == frameIndex)
      && Sized(script) && turn <= |script|
    }

    ghost function Reader(): (r: Session.Reader)
      requires Planar(planes, length)
      ensures r.Valid()
    {
      Session.Reader(Interleaved(planes, length), |planes|, length, length)
    }

    /** A decode of `frames` frames at `index`. */
    ghost function Asked(index: nat, frames: nat): Call
      requires index <= length
    {
      Call(script, length - index, frames)
    }

    constructor (planes: seq<seq<real>>, length: nat, seekable: bool, script: seq<Answer>)
      requires Planar(planes, length) && Sized(script)
      ensures Valid() && frameIndex == at == turn == 0
      ensures this.planes == planes && this.length == length && this.seekable == seekable && this.script == script
    {
      this.planes, this.length, this.seekable, this.script := planes, length, seekable, script;
      frameIndex, at, turn := 0, 0, 0;
    }

    /** `ov_pcm_seek`: past the end it is refused, and may leave the codec anywhere. */
    method PcmSeek(frame: nat) returns (ok: bool)
      requires Valid()
      modifies this`at
      ensures ok == (seekable && frame <= length) && at <= length
      ensures ok ==> at == frame
      ensures !seekable ==> at == old(at)
    {
      ok := seekable && frame <= length;
      if ok {
        at := frame;
      } else if seekable {
        var anywhere: nat :| anywhere <= length;
        at := anywhere;
      }
    }

    /** `ov_read_float`: the next answer of the codec, as far as the stream and the request go. */
    method ReadFloat(n: nat) returns (r: Read)
      requires Planar(planes, length) && at <= length && n > 0 && turn <= |script|
      modifies this`at, this`turn
      ensures turn == Min(old(turn) + 1, |script|)
      ensures r.Hole? <==> old(turn) < |script| && script[old(turn)].Skip?
      ensures r.Failure? <==> old(turn) < |script| && script[old(turn)].Fail?
      ensures r.Pcm? ==>
                && (r.frames == if old(turn) < |script| then Min(script[old(turn)].frames, Min(n, length - old(at)))
                                else Min(n, length - old(at)))
                && at == old(at) + r.frames && at <= length && r.planes == Cut(planes, length, old(at), at)
      ensures !r.Pcm? ==> at == old(at)
    {
      var frames := Min(n, length - at);
      if turn < |script| {
        var answer := script[turn];
        turn := turn + 1;
        if answer.Skip? {
          return Hole;
        }
        if answer.Fail? {
          return Failure;
        }
        frames := Min(answer.frames, frames);
      }
      r := Pcm(Cut(planes, length, at, at + frames), frames);
      at := at + frames;
    }

    /** `seek`: a refused seek leaves the position as it was. */
    method Seek(frame: nat)
      requires Valid()
      modifies this`at, this`frameIndex
      ensures Valid()
      ensures frameIndex == if seekable && frame <= length then frame else old(frameIndex)
      ensures seekable && frame <= length ==> at == frame
    {
      var ok := PcmSeek(frame);
      if ok {
        frameIndex := frame;
      }
    }

    /** The first `readFrames` frames of the output are the frames of the stream from `index` on. */
    ghost predicate Holding(out: seq<real>, index: nat, readFrames: nat)
      requires Planar(planes, length)
    {
      && 0 <= readFrames * |planes| <= |out| && index + readFrames <= length
      && (index + readFrames) * |planes| <= length * |planes|
      && out[..readFrames * |planes|] == Span(Interleaved(planes, length), index, index + readFrames, |planes|)
    }

    lemma HoldingNothing(out: seq<real>, index: nat)
      requires Planar(planes, length) && index <= length
      ensures Holding(out, index, 0)
    {
      EmptyStart(planes, length, index);
    }

    /** One round of the loop in `decode`. */
    method Round(out: array<real>, frames: nat, readFrames: nat, ghost index: nat)
      returns (more: bool, count: nat)
      requires Planar(planes, length) && readFrames < frames && frames * |planes| == out.Length && turn <= |script|
      requires at == index + readFrames && Holding(out[..], index, readFrames)
      modifies out, this`at, this`turn
      ensures at == index + readFrames + count && turn <= |script| && Holding(out[..], index, readFrames + count)
      ensures (Stage(turn, readFrames + count), more) == Asked(index, frames).Step(Stage(old(turn), readFrames))
    {
      hide Interleaved, Cut, Span, Planar;
      more, count := true, 0;
      var r := ReadFloat(frames - readFrames);
      match r {
        case Hole =>
        case Failure =>
          more := false;
        case Pcm(pcm, n) =>
          if n == 0 {
            more := false;
          } else {
            Scale(readFrames + n, frames, |planes|);
            AppendChunk(out, pcm, n, readFrames, index);
            count := n;
          }
      }
    }

    /**
     * `decode`: it seeks to its own position first, wherever the codec stands.  It hands out a
     * slice of the stream at the position, and the whole of what was asked for, or of what is
     * left, unless a read fails.
     */
    method Decode(frames: nat) returns (index: nat, readFrames: nat, samples: seq<real>)
      requires Valid()
      modifies this
      ensures Valid() && old(turn) <= turn
      ensures index == old(frameIndex) && frameIndex == index + readFrames
      ensures Stage(turn, readFrames) == Asked(index, frames).Run(Stage(old(turn), 0))
      ensures samples == Reader().Delivered(index, readFrames)
      ensures readFrames < Reader().Available(index, frames) ==> turn > old(turn) && script[turn - 1].Fail?
      ensures Clean(script, old(turn), turn) ==>
                readFrames == Reader().Available(index, frames) && samples == Reader().Delivered(index, frames)
    {
      hide Session.Reader.Available, Session.Reader.Delivered, Interleaved, Holding, Call.Run;
      index := frameIndex;
      ghost var call, start := Asked(index, frames), Stage(turn, 0);
      Seek(index);
      Scale(0, frames, |planes|);
      var interleaved := new real[frames * |planes|];
      readFrames := Fill(interleaved, frames, index);
      call.RunReads(start);
      frameIndex := index + readFrames;
      samples := Hand(interleaved, index, frames, readFrames);
    }

    /** The loop of `decode`. */
    method Fill(out: array<real>, frames: nat, ghost index: nat) returns (readFrames: nat)
      requires Valid() && at == index && frames * |planes| == out.Length
      modifies out, this`at, this`turn
      ensures readFrames <= frames && at == index + readFrames <= length && old(turn) <= turn <= |script|
      ensures Holding(out[..], index, readFrames)
      ensures Stage(turn, readFrames) == Asked(index, frames).Run(Stage(old(turn), 0))
    {
      hide Interleaved, Holding, Call.Step, Planar, Sized;
      ghost var call, start := Asked(index, frames), Stage(turn, 0);
      HoldingNothing(out[..], index);
      readFrames := 0;
      var more := true;
      while more && readFrames < frames
        invariant readFrames <= Min(frames, length - index) && at == index + readFrames
        invariant start.turn <= turn <= |script| && Holding(out[..], index, readFrames)
        invariant call.Run(start) == if more then call.Run(Stage(turn, readFrames)) else Stage(turn, readFrames)
        decreases more, |script| - turn + frames - readFrames
      {
        var count;
        more, count := Round(out, frames, readFrames, index);
        readFrames := readFrames + count;
      }
    }

    /** The frames read, as the callback gets them. */
    method Hand(out: array<real>, ghost index: nat, ghost frames: nat, readFrames: nat) returns (samples: seq<real>)
      requires Planar(planes, length) && readFrames <= frames && Holding(out[..], index, readFrames)
      ensures readFrames <= Reader().Available(index, frames) && index + readFrames <= length
      ensures samples == Reader().Delivered(index, readFrames)
      ensures readFrames == frames || index + readFrames == length ==>
                readFrames == Reader().Available(index, frames) && samples == Reader().Delivered(index, frames)
    {
      hide Interleaved, Session.Reader.Available, Session.Reader.Delivered, Span;
      Handed(index, frames, readFrames);
      samples := out[..readFrames * |planes|];
      assert out[..][..readFrames * |planes|] == samples;
    }

    /** What a decode that read `readFrames` frames hands out, as the abstract reader has it. */
    lemma Handed(index: nat, frames: nat, readFrames: nat)
      requires Planar(planes, length) && index + readFrames <= length && readFrames <= frames
      ensures readFrames <= Reader().Available(index, frames)
      ensures readFrames == frames || index + readFrames == length ==> readFrames == Reader().Available(index, frames)
      ensures (index + readFrames) * |planes| <= length * |planes|
      ensures Reader().Delivered(index, readFrames)
           == Span(Interleaved(planes, length), index, index + readFrames, |planes|)
      ensures readFrames == Reader().Available(index, frames) ==>
                Reader().Delivered(index, frames) == Reader().Delivered(index, readFrames)
    {
      hide Interleaved, Span;
      Scale(index + readFrames, length, |planes|);
      EmptyStart(planes, length, index);
    }

    /** Whether the codec takes an operation: a seek past the end or in a stream that cannot seek is refused. */
    predicate Taken(op: Operation) {
      op.Seek? ==> seekable && op.frame <= length
    }

    /** A run without the seeks that are refused. */
    function Accepted(ops: seq<Operation>): seq<Operation> {
      if |ops| == 0 then []
      else if Taken(ops[0]) then [ops[0]] + Accepted(ops[1..])
      else Accepted(ops[1..])
    }

    /**
     * A run of seeks, decodes and flushes without a failing read: what the abstract reader
     * delivers, refused seeks left out.
     */
    method Play(ops: seq<Operation>) returns (outputs: seq<seq<real>>)
      requires Valid() && Clean(script, turn, |script|)
      modifies this
      ensures Valid()
      ensures frameIndex == Reader().Position(old(frameIndex), Accepted(ops))
      ensures outputs == Reader().Outputs(old(frameIndex), Accepted(ops))
      decreases |ops|
    {
      hide Session.Reader.Available, Session.Reader.Delivered, Interleaved, Planar, Call.Run;
      if |ops| == 0 {
        return [];
      }
      assert Taken(ops[0]) ==> ([ops[0]] + Accepted(ops[1..]))[1..] == Accepted(ops[1..]);
      var head := [];
      match ops[0] {
        case Seek(frame) => Seek(frame);
        case Flush =>
        case Decode(n) =>
          var _, _, out := Decode(n);
          head := [out];
      }
      var rest := Play(ops[1..]);
      outputs := head + rest;
    }

    /** The copy of a chunk continues the slice of the stream that the output holds. */
    method AppendChunk(out: array<real>, pcm: seq<seq<real>>, count: nat, readFrames: nat, ghost index: nat)
      requires Planar(planes, length) && Holding(out[..], index, readFrames) && index + readFrames + count <= length
      requires pcm == Cut(planes, length, index + readFrames, index + readFrames + count)
      requires (readFrames + count) * |planes| <= out.Length
      modifies out
      ensures Holding(out[..], index, readFrames + count)
    {
      hide Interleaved, Cut, Span;
      var read, end := readFrames * |planes|, (readFrames + count) * |planes|;
      Scale(readFrames, readFrames + count, |planes|);
      Scale(index + readFrames + count, length, |planes|);
      InterleavedCut(planes, length, index + readFrames, index + readFrames + count);
      ghost var before := out[..];
      assert before[..read] == out[..read];
      CopyChunk(out, pcm, count, readFrames);
      SpanJoin(Interleaved(planes, length), index, index + readFrames, index + readFrames + count, |planes|);
      assert out[..][..end] == out[..read] + out[read..end];
    }
  }

  lemma EmptyStart(planes: seq<seq<real>>, length: nat, at: nat)
    requires Planar(planes, length) && at <= length
    ensures at * |planes| <= length * |planes|
    ensures Span(Interleaved(planes, length), at, at, |planes|) == []
  {
    Scale(at, length, |planes|);
  }

  /** The copy of one chunk into the output, behind the frames read so far. */
  method CopyChunk(out: array<real>, pcm: seq<seq<real>>, frames: nat, readFrames: nat)
    requires Planar(pcm, frames)
    requires 0 <= readFrames * |pcm| <= (readFrames + frames) * |pcm| <= out.Length
    modifies out
    ensures out[..readFrames * |pcm|] == old(out[..readFrames * |pcm|])
    ensures out[readFrames * |pcm|..(readFrames + frames) * |pcm|] == Interleaved(pcm, frames)
  {
    var channels := |pcm|;
    var base := readFrames * channels;
    AddFrames(readFrames, frames, channels);
    var i := 0;
    while i < frames
      invariant i <= frames && 0 <= i * channels <= frames * channels
      invariant out[..base] == old(out[..base])
      invariant forall p :: 0 <= p < i * channels ==> out[base + p] == Interleaved(pcm, frames)[p]
    {
      Scale(i + 1, frames, channels);
      AddFrames(i, 1, channels);
      CopyFrame(out, pcm, frames, base, i);
      i := i + 1;
    }
    assert out[base..base + frames * channels] == Interleaved(pcm, frames);
  }

  /** One frame of the copy. */
  method CopyFrame(out: array<real>, pcm: seq<seq<real>>, frames: nat, base: nat, i: nat)
    requires Planar(pcm, frames) && i < frames
    requires 0 <= i * |pcm| && i * |pcm| + |pcm| <= frames * |pcm| && base + frames * |pcm| <= out.Length
    modifies out
    ensures forall p :: 0 <= p < base + i * |pcm| ==> out[p] == old(out[p])
    ensures forall p :: i * |pcm| <= p < i * |pcm| + |pcm| ==> out[base + p] == Interleaved(pcm, frames)[p]
  {
    hide Interleaved;
    var channels := |pcm|;
    for j := 0 to channels
      invariant forall p :: 0 <= p < base + i * channels ==> out[p] == old(out[p])
      invariant forall p :: i * channels <= p < i * channels + j ==> out[base + p] == Interleaved(pcm, frames)[p]
    {
      InterleavedAt(pcm, frames, i, j);
      out[i * channels + j + base] := pcm[j][i];
    }
  }
}
