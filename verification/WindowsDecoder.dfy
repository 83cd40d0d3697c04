/**
 * The Windows decoder: the same frame buffer, filled from a Media Foundation source
 * reader whose position after a seek is known only from the second block on.
 */
module WindowsDecoder {
  import opened ByteOrder
  import opened FrameBuffer
  import opened Frames
  import opened ShortReads
  import opened Truncation
  import opened WindowsLoop

  lemma {:induction false} PcmLength(script: seq<Read>, n: nat, channels: nat)
    requires channels > 0 && n <= |script| && WholeBlocks(script, channels)
    ensures |PcmOf(script, n)| == ReadFrames(script, n, channels) * channels * 2
    ensures 0 <= ReadFrames(script, n, channels) * channels
  {
    Scale(0, ReadFrames(script, n, channels), channels);
    if n > 0 {
      PcmLength(script, n - 1, channels);
      AddFrames(ReadFrames(script, n - 1, channels), BlockFrames(script[n - 1], channels), channels);
      if script[n - 1].Block? {
        assert Whole(script[n - 1].pcm, channels);
      }
    }
  }

  lemma {:induction false} PcmPrefix(script: seq<Read>, n: nat, m: nat)
    requires n <= m <= |script|
    ensures PcmOf(script, n) <= PcmOf(script, m)
  {
    if n < m {
      PcmPrefix(script, n, m - 1);
    }
  }

  /** All that the reader yields. */
  function StreamOf(script: seq<Read>): seq<real> {
    Samples(PcmOf(script, |script|))
  }

  /** `count` frames of a stream, if it has so many. */
  function Part(stream: seq<real>, first: int, count: nat, channels: nat): seq<real> {
    if 0 <= first && (first + count) * channels <= |stream| then Span(stream, first, first + count, channels) else []
  }

  /** A block is its part of the stream. */
  lemma BlockIsPart(script: seq<Read>, turn: nat, channels: nat)
    requires channels > 0 && turn < |script| && WholeBlocks(script, channels) && script[turn].Block?
    ensures ReadFrames(script, turn + 1, channels) * channels <= |StreamOf(script)|
    ensures |Samples(script[turn].pcm)| == BlockFrames(script[turn], channels) * channels
    ensures Samples(script[turn].pcm)
         == Part(StreamOf(script), ReadFrames(script, turn, channels), BlockFrames(script[turn], channels), channels)
  {
    var a, b := ReadFrames(script, turn, channels), ReadFrames(script, turn + 1, channels);
    var all, pcm := PcmOf(script, |script|), script[turn].pcm;
    assert Whole(pcm, channels);
    PcmLength(script, turn, channels);
    PcmLength(script, turn + 1, channels);
    PcmPrefix(script, turn + 1, |script|);
    assert b == a + BlockFrames(script[turn], channels);
    assert PcmOf(script, turn + 1) == PcmOf(script, turn) + pcm;
    hide PcmOf, ReadFrames, Samples, WholeIn, StreamOf;
    Scale(a, b, channels);
    PrefixThen(PcmOf(script, turn), pcm, all, a * channels, b * channels);
    SamplesCut(all, a * channels, b * channels);
  }

  lemma PrefixThen(before: seq<byte>, pcm: seq<byte>, all: seq<byte>, a: nat, b: nat)
    requires before + pcm <= all && |before| == 2 * a && |before + pcm| == 2 * b && a <= b
    ensures all[2 * a..2 * b] == pcm
  {
  }

  /** What the pieces sound like. */
  function Render(pieces: seq<Piece>, stream: seq<real>, channels: nat): seq<real> {
    if |pieces| == 0 then [] else RenderPiece(pieces[0], stream, channels) + Render(pieces[1..], stream, channels)
  }

  function RenderPiece(piece: Piece, stream: seq<real>, channels: nat): seq<real> {
    match piece
    case Silent(count) => Silence(count, channels)
    case Played(first, count) => Part(stream, first, count, channels)
  }

  lemma {:induction false} RenderLast(pieces: seq<Piece>, piece: Piece, stream: seq<real>, channels: nat)
    ensures Render(pieces + [piece], stream, channels) == Render(pieces, stream, channels) + RenderPiece(piece, stream, channels)
    decreases |pieces|
  {
    hide RenderPiece;
    if |pieces| == 0 {
      assert pieces + [piece] == [piece];
      assert [piece][1..] == [];
    } else {
      assert (pieces + [piece])[1..] == pieces[1..] + [piece];
      RenderLast(pieces[1..], piece, stream, channels);
    }
  }

  /** Positions `[from, end)` of a stream that starts at `start`: silence before it, its frames from there on. */
  function Stretch(from: int, end: int, start: int, stream: seq<real>, channels: nat): seq<real>
    requires from <= end
  {
    var a, b := if from <= start then 0 else from - start, if end <= start then 0 else end - start;
    Silence(end - from - (b - a), channels) + Part(stream, a, b - a, channels)
  }

  lemma StretchSilent(from: int, mid: int, end: int, start: int, stream: seq<real>, channels: nat)
    requires from <= mid <= end && mid <= start
    ensures Stretch(from, end, start, stream, channels)
         == Silence(mid - from, channels) + Stretch(mid, end, start, stream, channels)
  {
    var b := if end <= start then 0 else end - start;
    AddFrames(mid - from, end - mid - b, channels);
    assert Silence(mid - from, channels) + Silence(end - mid - b, channels) == Silence(end - from - b, channels);
  }

  lemma StretchPlayed(from: int, mid: int, end: int, start: int, stream: seq<real>, channels: nat)
    requires start <= from <= mid <= end && (end - start) * channels <= |stream|
    ensures Stretch(from, end, start, stream, channels)
         == Part(stream, from - start, mid - from, channels) + Stretch(mid, end, start, stream, channels)
  {
    Scale(mid - start, end - start, channels);
    SpanJoin(stream, from - start, mid - start, end - start, channels);
    assert Silence(0, channels) == [];
  }

  /** Right pieces sound like the stream at their positions. */
  lemma {:induction false} RightSounds(pieces: seq<Piece>, at: int, start: int, limit: nat, stream: seq<real>, channels: nat)
    requires Right(pieces, at, start, start) && Bounded(pieces, limit) && limit * channels <= |stream|
    ensures at + Extent(pieces) <= start + limit || at + Extent(pieces) <= start || Extent(pieces) == 0
    ensures Render(pieces, stream, channels) == Stretch(at, at + Extent(pieces), start, stream, channels)
    decreases |pieces|
  {
    hide Stretch, Part, Silence;
    if |pieces| == 0 {
      StretchNone(at, start, stream, channels);
    } else {
      var piece, rest := pieces[0], pieces[1..];
      var mid, end := at + piece.count, at + Extent(pieces);
      RightSounds(rest, mid, start, limit, stream, channels);
      match piece {
        case Silent(count) =>
          StretchSilent(at, mid, end, start, stream, channels);
        case Played(first, count) =>
          Scale(end - start, limit, channels);
          StretchPlayed(at, mid, end, start, stream, channels);
      }
    }
  }

  lemma StretchNone(at: int, start: int, stream: seq<real>, channels: nat)
    ensures Stretch(at, at, start, stream, channels) == []
  {
    var a := if at <= start then 0 else at - start;
    assert Part(stream, a, 0, channels) == [];
    assert Silence(0, channels) == [];
  }

  /** A buffer that holds its part of the stream goes on doing so behind the next block. */
  lemma StockGrows(stream: seq<real>, at: nat, frames: nat, buffered: int, queue: seq<real>, channels: nat)
    requires channels > 0 && (at + frames) * channels <= |stream|
    requires queue == Part(stream, at - buffered, if buffered > 0 then buffered else 0, channels) && buffered <= at
    ensures var block := Part(stream, at, frames, channels);
            var now := buffered + frames;
            Part(stream, at - buffered, if now > 0 then now else 0, channels)
            == if buffered >= 0 then queue + block else Dropped(block, -buffered, channels)
  {
    hide Span;
    Scale(at, at + frames, channels);
    EmptyPart(stream, at - buffered, channels);
    if buffered >= 0 {
      SpanJoin(stream, at - buffered, at, at + frames, channels);
      EmptyPart(stream, at, channels);
    } else if -buffered <= frames {
      CutSpan(stream, at, at - buffered, at + frames, channels);
      EmptyPart(stream, at + frames, channels);
    } else {
      Scale(frames + 1, -buffered, channels);
      AddFrames(frames, 1, channels);
      Scale(at, at + frames, channels);
    }
  }

  lemma EmptyPart(stream: seq<real>, first: int, channels: nat)
    ensures Part(stream, first, 0, channels) == []
  {
  }

  /** Dropping frames from a part of the stream. */
  lemma StockShrinks(stream: seq<real>, first: int, buffered: nat, cut: nat, channels: nat)
    requires channels > 0 && 0 <= first && (first + buffered) * channels <= |stream|
    ensures |Part(stream, first, buffered, channels)| == buffered * channels
    ensures Dropped(Part(stream, first, buffered, channels), cut, channels)
         == Part(stream, first + cut, if buffered > cut then buffered - cut else 0, channels)
  {
    hide Span;
    if cut <= buffered {
      CutSpan(stream, first, first + cut, first + buffered, channels);
      EmptyPart(stream, first + cut, channels);
    } else {
      Scale(buffered + 1, cut, channels);
      AddFrames(buffered, 1, channels);
      EmptyPart(stream, first + cut, channels);
    }
  }

  /** All samples of a block of whole frames go into the buffer. */
  lemma WholeBlockSamples(pcm: seq<byte>, channels: nat)
    requires channels > 0 && Whole(pcm, channels)
    ensures Samples(pcm)[..WholeIn(|pcm|, channels) * channels] == Samples(pcm)
  {
  }

  lemma NoSound(stream: seq<real>, channels: nat)
    ensures Render([], stream, channels) == []
    ensures forall frames: nat :: [] + RenderPiece(Silent(frames), stream, channels) == Silence(frames, channels)
  {
  }

  /** The first `framesRead` frames of the output are what `pieces` sound like, unless silence was written over them. */
  ghost predicate Written(out: seq<real>, framesRead: nat, pieces: seq<Piece>, stream: seq<real>, channels: nat) {
    && (framesRead == 0 <==> pieces == []) && 0 <= framesRead * channels <= |out|
    && (Tidy(pieces) ==> out[..framesRead * channels] == Render(pieces, stream, channels))
  }

  lemma NothingMore(pieces: seq<Piece>)
    ensures pieces + [] == pieces
    ensures forall h: Halt :: h.Behind([]) == h
  {
    forall h: Halt
      ensures h.Behind([]) == h
    {
      assert [] + h.pieces == h.pieces;
    }
  }

  lemma NothingWritten(out: seq<real>, stream: seq<real>, channels: nat)
    ensures Written(out, 0, [], stream, channels)
  {
  }

  lemma NothingBehind(h: Halt)
    ensures h.Behind([]) == h
  {
    assert [] + h.pieces == h.pieces;
  }

  lemma OnlyBehind(h: Halt, pieces: seq<Piece>)
    requires h.pieces == []
    ensures h.Behind(pieces) == h.(pieces := pieces)
  {
    assert pieces + [] == pieces;
  }

  lemma BehindBoth(h: Halt, first: seq<Piece>, second: seq<Piece>)
    ensures h.Behind(second).Behind(first) == h.Behind(first + second)
  {
    assert first + (second + h.pieces) == first + second + h.pieces;
  }

  /** Silence behind something else is not tidy. */
  lemma Untidy(pieces: seq<Piece>, frames: nat)
    requires pieces != []
    ensures !Tidy(pieces + [Silent(frames)])
  {
    var all := pieces + [Silent(frames)];
    assert all[1..][|all| - 2] == Silent(frames);
  }

  lemma StillTidy(pieces: seq<Piece>, first: int, frames: nat)
    ensures Tidy(pieces + [Played(first, frames)]) ==> Tidy(pieces)
  {
    var all := pieces + [Played(first, frames)];
    if |pieces| > 0 {
      assert forall i :: 0 <= i < |pieces| - 1 ==> all[1..][i] == pieces[1..][i];
    }
  }

  lemma PartSplits(stream: seq<real>, first: int, a: nat, b: nat, channels: nat)
    requires 0 <= first && (first + a + b) * channels <= |stream|
    ensures |Part(stream, first, a, channels)| == a * channels
    ensures Part(stream, first, a + b, channels) == Part(stream, first, a, channels) + Part(stream, first + a, b, channels)
  {
    Scale(first + a, first + a + b, channels);
    SpanJoin(stream, first, first + a, first + a + b, channels);
  }

  lemma FrontOf(a: seq<real>, b: seq<real>, c: seq<real>, d: seq<real>)
    requires a + b == c + d && |a| == |c|
    ensures a == c && b == d
  {
    assert (a + b)[..|a|] == a && (c + d)[..|c|] == c;
    assert (a + b)[|a|..] == b && (c + d)[|c|..] == d;
  }

  class DecoderWindows {
    const samplerate: nat
    const buffer: FloatBuffer
    var currentFrameIndex: int
    var insertSilenceFrames: nat
    var eof: bool
    var afterSeek: bool
    /** The source reader: what it yields from the last seek on, where in the stream that is, and how far it has got. */
    var script: seq<Read>
    var start: int
    var turn: nat
    /** Whether a block has been written in front of the array; then nothing is known any more. */
    var torn: bool

    /** The frame last sought, the first frame still to be had since then or since the last flush, what was handed out. */
    ghost var sought: int
    ghost var floor: int
    ghost var history: seq<Piece>

    ghost predicate Valid()
      reads this, buffer
    {
      && buffer.Valid() && turn <= |script| && WholeBlocks(script, buffer.channels)
      && (afterSeek ==> buffer.numFrames >= 0)
    }

    ghost function Setup(canGrow: bool): Setting
      reads this, buffer
    {
      Setting(script, start, samplerate, buffer.channels, canGrow)
    }

    ghost function Now(): Supply
      reads this, buffer
    {
      Supply(currentFrameIndex, insertSilenceFrames, buffer.numFrames, buffer.Space(), afterSeek, turn, eof)
    }

    /** The buffer holds the last frames read. */
    ghost predicate Stocked()
      requires Valid()
      reads this, buffer, buffer.data
    {
      && buffer.numFrames <= Setup(true).Upto(turn)
      && buffer.Queue() == Part(StreamOf(script), Setup(true).Next(Now()), if buffer.numFrames > 0 then buffer.numFrames else 0, buffer.channels)
    }

    /** What holds between the calls of a decoder that has memory. */
    ghost predicate Complete()
      requires Valid()
      reads this, buffer, buffer.data
    {
      && !torn && Stocked() && start <= floor && currentFrameIndex == sought + Extent(history)
      && Setup(true).Fine(Now(), floor)
      && (Right(history, sought, start, floor) ==> Setup(true).Sane(Now(), floor))
    }

    /** Everything handed out since the seek was in its place, and what comes next is. */
    ghost predicate InPlace()
      requires Valid()
      reads this, buffer
    {
      Right(history, sought, start, floor) && Setup(true).Ready(Now(), floor)
    }

    constructor (samplerate: nat, channels: nat, script: seq<Read>, start: int)
      requires channels > 0 && WholeBlocks(script, channels)
      ensures Valid() && fresh(buffer) && fresh(buffer.data) && buffer.channels == channels
      ensures Now() == Supply(0, 0, 0, Room(0, 4096), true, 0, false) && !torn
      ensures this.script == script && this.start == start && this.samplerate == samplerate
      ensures Complete() && InPlace() && sought == 0 && history == [] && floor == start
    {
      this.samplerate := samplerate;
      buffer := new FloatBuffer(channels, 4096);
      currentFrameIndex, insertSilenceFrames, eof, afterSeek := 0, 0, false, true;
      this.script, turn, this.start, torn := script, 0, start, false;
      sought, floor, history := 0, start, [];
      new;
      hide WholeBlocks, DecoderWindows.Complete, DecoderWindows.InPlace;
      AtSeek();
    }

    lemma AtSeek()
      requires Valid() && !torn && afterSeek && turn == 0 && buffer.numFrames == 0 && insertSilenceFrames == 0
      requires history == [] && currentFrameIndex == sought && floor == start
      ensures Complete() && InPlace()
    {
      hide StreamOf, WholeBlocks;
      EmptyPart(StreamOf(script), 0, buffer.channels);
      hide Part;
    }

    /**
     * `seek`; `positioned` is the outcome of `SetCurrentPosition`, after which the reader yields
     * `next`, the stream from frame `from` on.
     */
    method Seek(frame: int, next: seq<Read>, from: int, positioned: bool)
      requires Valid() && !torn && WholeBlocks(next, buffer.channels)
      modifies this, buffer`readPos, buffer`writePos, buffer`numFrames
      ensures Valid() && !torn
      ensures if old(currentFrameIndex) != frame && positioned
              then Complete() && InPlace() && sought == frame && history == [] && script == next && start == floor == from
                   && Now() == Supply(frame, 0, 0, Room(0, buffer.capacityFrames), true, 0, false)
              else unchanged(this) && unchanged(buffer)
    {
      hide WholeBlocks, DecoderWindows.Complete, DecoderWindows.InPlace, StreamOf, ReadFrames, Part, FloatBuffer.Queue;
      if currentFrameIndex == frame {
        return;
      }
      if positioned {
        currentFrameIndex := frame;
        insertSilenceFrames := 0;
        buffer.Clear();
        eof, afterSeek := false, true;
        script, turn, start := next, 0, from;
        sought, floor, history := frame, from, [];
        AtSeek();
      }
    }

    /**
     * `flush` drops what is ready to be handed out; the reader goes on where it stood.  The
     * frames to come then are ahead of the position by exactly the frames dropped, so the
     * decoder stays in place exactly if a correction is still to come or nothing was there.
     */
    method Flush()
      requires Valid()
      modifies this`insertSilenceFrames, this`eof, this`floor, buffer`readPos, buffer`writePos, buffer`numFrames
      ensures Valid() && Now() == old(Now()).(silence := 0, buffered := 0, room := Room(0, buffer.capacityFrames), eof := false)
      ensures Setup(true).Shift(Now()) == old(Setup(true).Shift(Now())) + old(buffer.numFrames + insertSilenceFrames)
      ensures old(Complete()) ==> Complete()
      ensures old(Complete() && InPlace()) ==>
                (InPlace() <==> old(afterSeek || (buffer.numFrames == 0 && insertSilenceFrames == 0)))
    {
      hide StreamOf, WholeBlocks, FloatBuffer.Queue, ReadFrames;
      ghost var before := floor;
      floor := start + Setup(true).Upto(turn);
      buffer.Clear();
      insertSilenceFrames, eof := 0, false;
      EmptyPart(StreamOf(script), Setup(true).Upto(turn), buffer.channels);
      if before <= floor && Right(history, sought, start, before) {
        RightFloor(history, sought, start, before, floor);
      }
      hide Part;
    }

    /** What `winDecode` has returned. */
    ghost function TimeOf(timestampFrames: int): Time
      reads this
    {
      if torn then Lost else if timestampFrames < 0 then Minus else At(timestampFrames)
    }

    /** `winDecode`: the block's time in frames, or -1 where it reports a failure. */
    method WinDecode(canGrow: bool) returns (timestampFrames: int)
      requires Valid() && !torn
      modifies this`eof, this`turn, this`torn, buffer, buffer.data
      ensures Valid() && (fresh(buffer.data) || buffer.data == old(buffer.data))
      ensures (Now(), TimeOf(timestampFrames)) == Setup(canGrow).ReadOne(old(Now()))
      ensures canGrow && !torn && old(Stocked()) ==> Stocked()
    {
      hide FloatBuffer.Queue, Samples, StreamOf, Part, TimestampFrames, WholeBlocks, WholeIn;
      if turn == |script| {
        return -1;
      }
      var read := script[turn];
      match read {
        case Unusable =>
          turn := turn + 1;
          return -1;
        case EndOfStream =>
          turn, eof := turn + 1, true;
          return -1;
        case Block(pcm, timestamp, unlocked) =>
          PutBlock(pcm, canGrow);
          timestampFrames := if unlocked then TimestampFrames(timestamp, samplerate) else -1;
      }
    }

    /** A block goes into the buffer, unless it would be written in front of the array. */
    method PutBlock(pcm: seq<byte>, canGrow: bool)
      requires Valid() && !torn && turn < |script| && script[turn].Block? && pcm == script[turn].pcm
      modifies this`turn, this`torn, buffer, buffer.data
      ensures Valid() && (fresh(buffer.data) || buffer.data == old(buffer.data))
      ensures var frames := WholeIn(|pcm|, buffer.channels);
              var s := old(Now());
              if s.buffered >= 0 then
                var (room, ok) := s.room.Put(s.buffered, frames, canGrow);
                !torn && Now() == s.(turn := s.turn + 1, room := room, buffered := s.buffered + if ok then frames else 0)
              else if s.room.Fits(frames) then
                !torn && Now() == s.(turn := s.turn + 1, room := s.room.(written := s.room.written + frames), buffered := s.buffered + frames)
              else torn && Now() == s
      ensures canGrow && !torn && old(Stocked()) ==> Stocked()
    {
      hide FloatBuffer.Queue, Samples, WholeIn, StreamOf, Part, Dropped;
      ghost var queue, buffered, at := buffer.Queue(), buffer.numFrames, Setup(true).Upto(turn);
      if buffer.numFrames < 0 && buffer.capacityFrames - buffer.writePos < WholeIn(|pcm|, buffer.channels) {
        torn := true;
        return;
      }
      WholeBlockSamples(pcm, buffer.channels);
      BlockIsPart(script, turn, buffer.channels);
      ghost var stocked := Stocked();
      var _ := buffer.Put(pcm, canGrow);
      turn := turn + 1;
      if canGrow && stocked {
        StockGrows(StreamOf(script), at, WholeIn(|pcm|, buffer.channels), buffered, queue, buffer.channels);
      }
    }

    /** The correction of the position: cuts frames, of the next blocks if need be, or inserts the silence that is missing. */
    method Correct(framesToCut: int)
      requires Valid() && buffer.numFrames >= 0
      requires !afterSeek
      modifies this`insertSilenceFrames, buffer`readPos, buffer`numFrames
      ensures Valid() && Now() == Corrected(old(Now()), framesToCut)
      ensures old(Stocked()) ==> Stocked()
    {
      hide FloatBuffer.Queue, StreamOf, Part, Dropped, ReadFrames, WholeBlocks;
      ghost var first, buffered := Setup(true).Next(Now()), buffer.numFrames;
      if framesToCut < 0 {
        insertSilenceFrames := -framesToCut;
      } else if framesToCut > 0 {
        if Stocked() {
          StreamHolds();
          StockShrinks(StreamOf(script), first, buffered, framesToCut, buffer.channels);
        }
        buffer.Skip(framesToCut);
      }
    }

    /** The stream has all frames that have been read. */
    lemma StreamHolds()
      requires Valid()
      ensures Setup(true).Upto(turn) * buffer.channels <= |StreamOf(script)|
    {
      PcmLength(script, turn, buffer.channels);
      PcmPrefix(script, turn, |script|);
    }

    /** Why the loop breaks behind a read that failed. */
    function Broken(): Ending
      reads this
    {
      if torn then Torn else if eof then Ending.EndOfStream else Failure
    }

    /** The branch of `decode` that needs more frames. */
    method Refill(canGrow: bool) returns (ending: Ending)
      requires Valid() && !torn && !eof && buffer.numFrames <= 0 && insertSilenceFrames == 0
      modifies this`eof, this`turn, this`torn, this`afterSeek, this`insertSilenceFrames, buffer, buffer.data
      ensures Valid() && (fresh(buffer.data) || buffer.data == old(buffer.data))
      ensures (Now(), ending) == Setup(canGrow).Pull(old(Now())) && torn == ending.Torn?
      ensures canGrow && !torn && old(Stocked()) ==> Stocked()
    {
      hide Setting.ReadOne, WholeBlocks, FloatBuffer.Queue, Part, StreamOf, ReadFrames;
      var timestampFrames := WinDecode(canGrow);
      if torn || timestampFrames < 0 {
        return Broken();
      }
      if afterSeek {
        afterSeek := false;
        var framesBuffered := buffer.numFrames;
        timestampFrames := WinDecode(canGrow);
        if torn || timestampFrames < 0 {
          return Broken();
        }
        timestampFrames := timestampFrames - framesBuffered;
        Correct(currentFrameIndex - timestampFrames);
      }
      return Enough;
    }

    /** Silence goes to the start of the output, whatever has been read before it. */
    method OfferSilence(out: array<real>, framesRead: nat, n: nat, ghost pieces: seq<Piece>) returns (silenceFrames: nat)
      requires Valid() && out != buffer.data && out.Length == n * buffer.channels
      requires 2 * framesRead < n && insertSilenceFrames > 0
      modifies this`insertSilenceFrames, this`currentFrameIndex, out
      ensures Valid() && silenceFrames == Min(old(insertSilenceFrames), n - framesRead)
      ensures Now() == Setup(true).AfterSilence(old(Now()), silenceFrames)
      ensures old(Written(out[..], framesRead, pieces, StreamOf(script), buffer.channels)) ==>
                Written(out[..], framesRead + silenceFrames, pieces + [Silent(silenceFrames)], StreamOf(script), buffer.channels)
      ensures old(Stocked()) ==> Stocked()
    {
      hide FloatBuffer.Queue, StreamOf, Part, Render, ReadFrames, WholeBlocks;
      var ch := buffer.channels;
      var frames := n - framesRead;
      silenceFrames := if insertSilenceFrames > frames then frames else insertSilenceFrames;
      Scale(0, silenceFrames, ch);
      Scale(silenceFrames, n, ch);
      Scale(0, framesRead + silenceFrames, ch);
      Scale(framesRead + silenceFrames, n, ch);
      forall i | 0 <= i < silenceFrames * ch {
        out[i] := 0.0;
      }
      insertSilenceFrames := insertSilenceFrames - silenceFrames;
      currentFrameIndex := currentFrameIndex + silenceFrames;
      if framesRead == 0 && pieces == [] {
        assert out[..][..silenceFrames * ch] == Silence(silenceFrames, ch);
        RenderLast([], Silent(silenceFrames), StreamOf(script), ch);
        NoSound(StreamOf(script), ch);
        assert [] + [Silent(silenceFrames)] == pieces + [Silent(silenceFrames)];
      } else if pieces != [] {
        Untidy(pieces, silenceFrames);
      }
    }

    /** Buffered frames follow what has been read. */
    method OfferBuffered(out: array<real>, framesRead: nat, n: nat, ghost pieces: seq<Piece>) returns (frames: nat)
      requires Valid() && out != buffer.data && out.Length == n * buffer.channels
      requires 2 * framesRead < n && insertSilenceFrames == 0 && buffer.numFrames > 0
      modifies this`currentFrameIndex, buffer`readPos, buffer`numFrames, out
      ensures Valid() && frames == Min(old(buffer.numFrames), n - framesRead)
      ensures Now() == Setup(true).AfterFrames(old(Now()), frames)
      ensures old(Stocked()) ==> Stocked()
      ensures old(Stocked() && Written(out[..], framesRead, pieces, StreamOf(script), buffer.channels)) ==>
                Written(out[..], framesRead + frames, pieces + [Played(old(Setup(true).Next(Now())), frames)], StreamOf(script), buffer.channels)
    {
      hide FloatBuffer.Queue, StreamOf, Part, Render, ReadFrames, WholeBlocks;
      var ch := buffer.channels;
      ghost var first, buffered, queue, before := Setup(true).Next(Now()), buffer.numFrames, buffer.Queue(), out[..];
      frames := Min(buffer.numFrames, n - framesRead);
      Scale(0, framesRead, ch);
      Scale(framesRead, framesRead + frames, ch);
      Scale(framesRead + frames, n, ch);
      AddFrames(framesRead, frames, ch);
      var base := framesRead * ch;
      var chunk := buffer.Drain(frames);
      forall i | 0 <= i < |chunk| {
        out[base + i] := chunk[i];
      }
      assert out[..][..(framesRead + frames) * ch] == before[..base] + chunk;
      currentFrameIndex := currentFrameIndex + frames;
      ghost var left := buffer.Queue();
      if old(Stocked()) {
        StreamHolds();
        PartSplits(StreamOf(script), first, frames, buffered - frames, ch);
        FrontOf(chunk, left, Part(StreamOf(script), first, frames, ch), Part(StreamOf(script), first + frames, buffered - frames, ch));
        RenderLast(pieces, Played(first, frames), StreamOf(script), ch);
        StillTidy(pieces, first, frames);
      }
    }

    /** One round of the loop of `decode`, and the piece it hands out. */
    method Round(out: array<real>, framesRead: nat, n: nat, canGrow: bool, ghost pieces: seq<Piece>)
      returns (ending: Ending, read: nat, ghost more: seq<Piece>)
      requires Valid() && !torn && out != buffer.data && out.Length == n * buffer.channels && 2 * framesRead < n
      modifies this`eof, this`turn, this`torn, this`afterSeek, this`insertSilenceFrames, this`currentFrameIndex, buffer, buffer.data, out
      ensures Valid() && (fresh(buffer.data) || buffer.data == old(buffer.data)) && framesRead <= read <= n && torn == ending.Torn?
      ensures Setup(canGrow).Run(old(Now()), framesRead, n)
           == (if ending.Enough? then Setup(canGrow).Run(Now(), read, n) else Halt(Now(), read, [], ending)).Behind(more)
      ensures old(turn) <= turn && (ending.Enough? ==> turn > old(turn) || (turn == old(turn) && read > framesRead))
      ensures canGrow && !torn && old(Stocked()) ==> Stocked()
      ensures canGrow && old(Stocked() && Written(out[..], framesRead, pieces, StreamOf(script), buffer.channels)) ==>
                Written(out[..], read, pieces + more, StreamOf(script), buffer.channels)
    {
      hide Setting.Run, Setting.Pull, FloatBuffer.Queue, StreamOf, Part, Render, ReadFrames, WholeBlocks, Tidy, DecoderWindows.Stocked, Written;
      ghost var st, s := Setup(canGrow), Now();
      ending, read, more := Enough, framesRead, [];
      NothingMore(pieces);
      if insertSilenceFrames > 0 {
        var k := OfferSilence(out, framesRead, n, pieces);
        read, more := framesRead + k, [Silent(k)];
        st.RunSilence(s, framesRead, n, k);
      } else if buffer.numFrames > 0 {
        var k := OfferBuffered(out, framesRead, n, pieces);
        read, more := framesRead + k, [Played(st.Next(s), k)];
        st.RunFrames(s, framesRead, n, k);
      } else if eof {
        st.RunStops(s, framesRead, n);
        ending := Ending.EndOfStream;
      } else {
        st.RunPull(s, framesRead, n);
        ending := Refill(canGrow);
      }
    }

    /** The loop of `decode`, into an output of `n` frames. */
    method Fill(out: array<real>, n: nat, canGrow: bool) returns (framesRead: nat, ending: Ending, ghost pieces: seq<Piece>)
      requires Valid() && !torn && out != buffer.data && out.Length == n * buffer.channels
      modifies this`eof, this`turn, this`torn, this`afterSeek, this`insertSilenceFrames, this`currentFrameIndex, buffer, buffer.data, out
      ensures Valid() && (fresh(buffer.data) || buffer.data == old(buffer.data)) && framesRead <= n && torn == ending.Torn?
      ensures Halt(Now(), framesRead, pieces, ending) == Setup(canGrow).Run(old(Now()), 0, n)
      ensures canGrow && !torn && old(Stocked()) ==> Stocked()
      ensures canGrow && old(Stocked()) && Tidy(pieces) ==>
                0 <= framesRead * buffer.channels <= n * buffer.channels
                && out[..framesRead * buffer.channels] == Render(pieces, StreamOf(script), buffer.channels)
    {
      NothingWritten(out[..], StreamOf(script), buffer.channels);
      ghost var st, s := Setup(canGrow), Now();
      NothingBehind(st.Run(s, 0, n));
      hide Setting.Run, FloatBuffer.Queue, StreamOf, Render, WholeBlocks, Tidy, DecoderWindows.Stocked, Halt.Behind;
      framesRead, ending, pieces := 0, Enough, [];
      var frames: nat := n;
      while ending.Enough? && framesRead < frames
        invariant Valid() && (fresh(buffer.data) || buffer.data == old(buffer.data)) && torn == ending.Torn?
        invariant out != buffer.data && framesRead + frames == n && turn <= |script|
        invariant st.Run(s, 0, n)
               == (if ending.Enough? then st.Run(Now(), framesRead, n) else Halt(Now(), framesRead, [], ending)).Behind(pieces)
        invariant canGrow && !torn && old(Stocked()) ==> Stocked()
        invariant canGrow && old(Stocked()) ==> Written(out[..], framesRead, pieces, StreamOf(script), buffer.channels)
        decreases ending.Enough?, |script| - turn, frames
      {
        ghost var more, before := [], pieces;
        ending, framesRead, more := Round(out, framesRead, n, canGrow, pieces);
        pieces := pieces + more;
        frames := n - framesRead;
        BehindBoth(if ending.Enough? then st.Run(Now(), framesRead, n) else Halt(Now(), framesRead, [], ending), before, more);
      }
      if ending.Enough? {
        st.RunStops(Now(), framesRead, n);
      }
      OnlyBehind(Halt(Now(), framesRead, [], ending), pieces);
    }

    /**
     * `decode`; `hasMemory` for the output, `canGrow` for the frame buffer.  With memory, all
     * handed out since the seek is in its place and what comes next is, if and only if that was
     * so before and the reads of the call keep it so.  Then the call hands out the stream at its
     * position, with silence before the reader's start.
     */
    method Decode(n: nat, hasMemory: bool, canGrow: bool) returns (c: Callback)
      requires Valid()
      modifies this, buffer, buffer.data
      ensures Valid() && (fresh(buffer.data) || buffer.data == old(buffer.data))
      ensures script == old(script) && start == old(start) && sought == old(sought) && floor == old(floor)
      ensures old(turn) <= turn && old(currentFrameIndex) <= currentFrameIndex
      ensures !old(torn) ==> |c.samples| == c.count * buffer.channels && c.index == currentFrameIndex == old(currentFrameIndex) + c.count
      ensures !old(torn) && !hasMemory ==> c.count == 0 && unchanged(this) && unchanged(buffer) && unchanged(buffer.data)
      ensures !old(torn) && hasMemory ==>
                var h := old(Setup(canGrow)).Run(old(Now()), 0, n);
                Now() == h.supply && torn == h.ending.Torn? && c.count == h.count && history == old(history) + h.pieces
      ensures hasMemory && canGrow && old(Complete()) ==>
                var h := old(Setup(canGrow)).Run(old(Now()), 0, n);
                Tidy(h.pieces) ==> c.samples == Render(h.pieces, StreamOf(script), buffer.channels)
      ensures hasMemory && canGrow && old(Complete()) && !torn ==> Complete()
      ensures hasMemory && canGrow && old(Complete()) && !torn ==>
                (InPlace() <==> old(InPlace()) && (old(afterSeek) ==> Kept(old(turn), old(Displaced()))))
      ensures hasMemory && canGrow && old(Complete()) && !torn && InPlace() && floor == start ==>
                c.samples == Stretch(old(currentFrameIndex), currentFrameIndex, start, StreamOf(script), buffer.channels)
    {
      if torn || !hasMemory {
        return Callback(currentFrameIndex, 0, []);
      }
      hide *;
      c := DecodeInto(n, canGrow);
    }

    /** How far what comes next is from its position. */
    ghost function Displaced(): int
      requires Valid()
      reads this, buffer
    {
      Setup(true).Shift(Now())
    }

    /** Whether the reads from `from` on keep a decoder in place. */
    ghost predicate Kept(from: nat, displaced: int)
      requires Valid() && from <= turn
      reads this, buffer
    {
      Setup(true).Keeps(from, turn, displaced == 0)
    }

    /** `decode` once it has its output. */
    method DecodeInto(n: nat, canGrow: bool) returns (c: Callback)
      requires Valid() && !torn
      modifies this, buffer, buffer.data
      ensures Valid() && (fresh(buffer.data) || buffer.data == old(buffer.data))
      ensures script == old(script) && start == old(start) && sought == old(sought) && floor == old(floor)
      ensures old(turn) <= turn && old(currentFrameIndex) <= currentFrameIndex
      ensures |c.samples| == c.count * buffer.channels && c.index == currentFrameIndex == old(currentFrameIndex) + c.count
      ensures var h := old(Setup(canGrow)).Run(old(Now()), 0, n);
              Now() == h.supply && torn == h.ending.Torn? && c.count == h.count && history == old(history) + h.pieces
      ensures canGrow && old(Complete()) ==>
                var h := old(Setup(canGrow)).Run(old(Now()), 0, n);
                Tidy(h.pieces) ==> c.samples == Render(h.pieces, StreamOf(script), buffer.channels)
      ensures canGrow && old(Complete()) && !torn ==> Complete()
      ensures canGrow && old(Complete()) && !torn ==>
                (InPlace() <==> old(InPlace()) && (old(afterSeek) ==> Kept(old(turn), old(Displaced()))))
      ensures canGrow && old(Complete()) && !torn && InPlace() && floor == start ==>
                c.samples == Stretch(old(currentFrameIndex), currentFrameIndex, start, StreamOf(script), buffer.channels)
    {
      hide Setting.Run, FloatBuffer.Queue, StreamOf, Part, Render, WholeBlocks, Tidy, Setting.Fine, Setting.Sane,
        Setting.Ready, Setting.Keeps, Setting.Shift, Right, Extent, Stretch, ReadFrames;
      ghost var st, s, before := Setup(canGrow), Now(), history;
      Scale(0, n, buffer.channels);
      var out := new real[n * buffer.channels](_ => 0.0);
      var framesRead, ending;
      ghost var pieces;
      framesRead, ending, pieces := Fill(out, n, canGrow);
      st.RunCounts(s, 0, n);
      Scale(0, framesRead, buffer.channels);
      Scale(framesRead, n, buffer.channels);
      history := history + pieces;
      c := Callback(currentFrameIndex, framesRead, out[..framesRead * buffer.channels]);
      if canGrow && old(Complete()) && !torn {
        st.CallMeans(s, n, floor, before, sought);
        if Right(history, sought, start, floor) && floor == start {
          st.RunBounded(s, 0, n, floor);
          WholeStream();
          RightSounds(pieces, s.position, start, st.Upto(|script|), StreamOf(script), buffer.channels);
        }
      }
    }

    lemma WholeStream()
      requires Valid()
      ensures Setup(true).Upto(|script|) * buffer.channels <= |StreamOf(script)|
    {
      PcmLength(script, |script|, buffer.channels);
    }

    /** What the reads since a seek say about the decoder, if there has been no flush. */
    ghost predicate Tracked()
      requires Valid()
      reads this, buffer, buffer.data
    {
      var st := Setup(true);
      && Complete() && floor == start
      && (if afterSeek then Displaced() == start - sought && st.FirstReleased(0) >= turn
          else st.FirstReleased(0) < turn && (st.FirstReleased(0) + 1 < turn || turn == |script|))
      && (InPlace() <==> st.Keeps(0, turn, start == sought))
    }

    /** A decoder that has just been positioned. */
    lemma JustSought()
      requires Valid() && Complete() && InPlace() && floor == start && history == []
      requires afterSeek && turn == 0 && buffer.numFrames == 0 && insertSilenceFrames == 0
      ensures Tracked()
    {
      hide Part, StreamOf, WholeBlocks;
      Setup(true).NothingRead(0, start == sought);
    }

    /** A call of a run. */
    method DecodeOn(n: nat) returns (c: Callback)
      requires Valid() && Tracked()
      modifies this, buffer, buffer.data
      ensures Valid() && (fresh(buffer.data) || buffer.data == old(buffer.data))
      ensures script == old(script) && start == old(start) && sought == old(sought)
      ensures !torn ==> Tracked() && c.index == currentFrameIndex == old(currentFrameIndex) + c.count
      ensures !torn && InPlace() ==>
                old(InPlace()) && c.samples == Stretch(old(currentFrameIndex), currentFrameIndex, start, StreamOf(script), buffer.channels)
    {
      hide Setting.Run, Setting.Keeps, Setting.Shift, Setting.Ready, Setting.Sane, Setting.Fine, Setting.FirstReleased,
        Right, StreamOf, Stretch, WholeBlocks, DecoderWindows.Stocked, FloatBuffer.Queue;
      ghost var st, s := Setup(true), Now();
      c := Decode(n, true, true);
      if !torn {
        st.RunWaits(s, 0, n, floor);
        st.KeepsJoin(0, s.turn, turn, start == sought);
      }
    }

    /**
     * The calls after a seek, however the reader cuts its blocks and whatever fails: everything
     * they hand out is in its place, and what comes next is, if and only if the reads keep a
     * decoder in place.  Then the calls hand out the stream from the frame sought on.
     */
    method Play(requests: seq<nat>) returns (calls: seq<Callback>)
      requires Valid() && Tracked()
      modifies this, buffer, buffer.data
      ensures Valid() && script == old(script) && start == old(start) && sought == old(sought)
      ensures !torn ==> (InPlace() <==> Setup(true).Keeps(0, turn, start == sought))
      ensures !torn && InPlace() ==>
                old(InPlace()) && Follows(calls, old(currentFrameIndex), start, StreamOf(script), buffer.channels)
      decreases |requests|
    {
      hide Setting.Keeps, Setting.Shift, Setting.Ready, Setting.FirstReleased, Right, StreamOf, Stretch, WholeBlocks,
        DecoderWindows.Complete;
      calls := [];
      if |requests| == 0 {
        return;
      }
      var c := DecodeOn(requests[0]);
      if !torn {
        var rest := Play(requests[1..]);
        calls := [c] + rest;
        assert calls[1..] == rest;
      }
    }

    /** A seek that is accepted, and the calls behind it. */
    method PlayFrom(frame: int, next: seq<Read>, from: int, requests: seq<nat>) returns (calls: seq<Callback>)
      requires Valid() && !torn && WholeBlocks(next, buffer.channels) && frame != currentFrameIndex
      modifies this, buffer, buffer.data
      ensures Valid() && script == next && start == from && sought == frame
      ensures !torn ==> (InPlace() <==> Setup(true).Keeps(0, turn, from == frame))
      ensures !torn && InPlace() ==> Follows(calls, frame, from, StreamOf(next), buffer.channels)
    {
      hide WholeBlocks, StreamOf, Follows, Setting.Keeps, DecoderWindows.Complete, DecoderWindows.InPlace, DecoderWindows.Tracked;
      Seek(frame, next, from, true);
      JustSought();
      calls := Play(requests);
    }
  }

  /** Calls from position `at` on that hand out the stream at their positions. */
  ghost predicate Follows(calls: seq<Callback>, at: int, start: int, stream: seq<real>, channels: nat) {
    |calls| > 0 ==>
      && calls[0].index == at + calls[0].count
      && calls[0].samples == Stretch(at, at + calls[0].count, start, stream, channels)
      && Follows(calls[1..], at + calls[0].count, start, stream, channels)
  }

  /** A block of two mono frames at one frame a second. */
  function TwoFrames(pcm: seq<byte>, second: nat, unlocked: bool): Read {
    Block(pcm, 10000000 * second, unlocked)
  }

  function ThreeBlocks(first: seq<byte>, second: seq<byte>, third: seq<byte>, unlocked: bool): seq<Read> {
    [TwoFrames(first, 0, unlocked), TwoFrames(second, 2, true), TwoFrames(third, 4, true)]
  }

  lemma ThreeBlocksAre(first: seq<byte>, second: seq<byte>, third: seq<byte>, unlocked: bool)
    requires |first| == |second| == |third| == 4
    ensures var script := ThreeBlocks(first, second, third, unlocked);
            && WholeBlocks(script, 1) && WholeIn(4, 1) == 2
            && TimestampFrames(20000000, 1) == 2 && TimestampFrames(0, 1) == 0 && TimestampFrames(40000000, 1) == 4
            && ReadFrames(script, 0, 1) == 0 && ReadFrames(script, 1, 1) == 2 && ReadFrames(script, 2, 1) == 4 && ReadFrames(script, 3, 1) == 6
            && Samples(first) == Part(StreamOf(script), 0, 2, 1) && Samples(third) == Part(StreamOf(script), 4, 2, 1)
  {
    var script := ThreeBlocks(first, second, third, unlocked);
    assert WholeIn(4, 1) == 2;
    ToLongUnique(0.0, 0);
    ToLongUnique(2.0, 2);
    ToLongUnique(4.0, 4);
    hide Samples, PcmOf, StreamOf, Part, TimestampFrames;
    assert ReadFrames(script, 1, 1) == 2;
    assert ReadFrames(script, 2, 1) == 4;
    BlockIsPart(script, 0, 1);
    BlockIsPart(script, 2, 1);
  }

  lemma OnePiece(piece: Piece, stream: seq<real>, channels: nat)
    ensures Tidy([piece]) && Render([piece], stream, channels) == RenderPiece(piece, stream, channels)
  {
    assert [piece][1..] == [];
  }

  /**
   * A first block that cannot be released comes out where the reader stood: right if and only if
   * it stood at the frame sought.
   */
  method UnreleasedBlock(first: seq<byte>, second: seq<byte>, third: seq<byte>, start: int) returns (c: Callback, d: DecoderWindows)
    requires |first| == |second| == |third| == 4
    ensures fresh(d) && d.Valid() && d.start == start && d.sought == 0
    ensures c == Callback(2, 2, Samples(first)) && (d.InPlace() <==> start == 0)
  {
    var script := ThreeBlocks(first, second, third, false);
    ThreeBlocksAre(first, second, third, false);
    d := new DecoderWindows(1, 1, script, start);
    OnePiece(Played(0, 2), StreamOf(script), 1);
    UnreleasedRun(first, second, third, start);
    hide WholeIn, TimestampFrames, ReadFrames, Setting.Run, StreamOf, Part, Samples, WholeBlocks, ThreeBlocks, Stretch;
    var nothing := d.Decode(2, true, true);
    c := d.Decode(2, true, true);
  }

  lemma UnreleasedRun(first: seq<byte>, second: seq<byte>, third: seq<byte>, start: int)
    requires |first| == |second| == |third| == 4
    ensures var st := Setting(ThreeBlocks(first, second, third, false), start, 1, 1, true);
            var s, t := Supply(0, 0, 0, Room(0, 4096), true, 0, false), Supply(0, 0, 2, Room(2, 4096), true, 1, false);
            && st.Run(s, 0, 2) == Halt(t, 0, [], Failure)
            && st.Run(t, 0, 2) == Halt(Supply(2, 0, 0, Room(2, 4096), true, 1, false), 2, [Played(0, 2)], Enough)
  {
    ThreeBlocksAre(first, second, third, false);
    hide TimestampFrames, WholeIn, ReadFrames;
    var st := Setting(ThreeBlocks(first, second, third, false), start, 1, 1, true);
    var s, t := Supply(0, 0, 0, Room(0, 4096), true, 0, false), Supply(0, 0, 2, Room(2, 4096), true, 1, false);
    assert st.ReadOne(s) == (t, Minus);
    assert st.Pull(s) == (t, Failure);
    st.RunPull(s, 0, 2);
    st.RunFrames(t, 0, 2, 2);
    st.RunStops(st.AfterFrames(t, 2), 2, 2);
    assert [Played(0, 2)] + [] == [Played(0, 2)];
  }

  /** A flush after two of four frames: the next call reports frames 2 and 3 and hands out frames 4 and 5. */
  method FlushLosesItsPlace(first: seq<byte>, second: seq<byte>, third: seq<byte>) returns (before: Callback, after: Callback)
    requires |first| == |second| == |third| == 4
    ensures before == Callback(2, 2, Samples(first)) && after == Callback(4, 2, Samples(third))
  {
    hide WholeIn, TimestampFrames, ReadFrames, Setting.Run, StreamOf, Part, Samples, WholeBlocks, ThreeBlocks, Stretch;
    hide DecoderWindows.InPlace, DecoderWindows.Kept, DecoderWindows.Displaced, DecoderWindows.Complete, DecoderWindows.Valid;
    hide Right, Extent, Render, Setting.Shift, Tidy;
    var script := ThreeBlocks(first, second, third, true);
    ThreeBlocksAre(first, second, third, true);
    var d := new DecoderWindows(1, 1, script, 0);
    OnePiece(Played(0, 2), StreamOf(script), 1);
    OnePiece(Played(4, 2), StreamOf(script), 1);
    TwoAndTwo(first, second, third);
    before := d.Decode(2, true, true);
    d.Flush();
    after := d.Decode(2, true, true);
  }

  /** Two frames are handed out and two stay in the buffer; the next two come from the third block. */
  lemma TwoAndTwo(first: seq<byte>, second: seq<byte>, third: seq<byte>)
    requires |first| == |second| == |third| == 4
    ensures var st := Setting(ThreeBlocks(first, second, third, true), 0, 1, 1, true);
            var s, t := Supply(0, 0, 0, Room(0, 4096), true, 0, false), Supply(2, 0, 0, Room(0, 4096), false, 2, false);
            && st.Run(s, 0, 2) == Halt(Supply(2, 0, 2, Room(4, 4096), false, 2, false), 2, [Played(0, 2)], Enough)
            && st.Run(t, 0, 2) == Halt(Supply(4, 0, 0, Room(2, 4096), false, 3, false), 2, [Played(4, 2)], Enough)
  {
    ThreeBlocksAre(first, second, third, true);
    hide TimestampFrames, WholeIn, ReadFrames;
    var st := Setting(ThreeBlocks(first, second, third, true), 0, 1, 1, true);
    var s, t := Supply(0, 0, 0, Room(0, 4096), true, 0, false), Supply(2, 0, 0, Room(0, 4096), false, 2, false);
    var read, more := Supply(0, 0, 4, Room(4, 4096), false, 2, false), Supply(2, 0, 2, Room(2, 4096), false, 3, false);
    assert st.ReadOne(s) == (Supply(0, 0, 2, Room(2, 4096), true, 1, false), At(0));
    assert st.ReadOne(Supply(0, 0, 2, Room(2, 4096), false, 1, false)) == (read, At(2));
    assert st.Pull(s) == (read, Enough);
    st.RunPull(s, 0, 2);
    st.RunFrames(read, 0, 2, 2);
    st.RunStops(st.AfterFrames(read, 2), 2, 2);
    assert st.ReadOne(t) == (more, At(4));
    assert st.Pull(t) == (more, Enough);
    st.RunPull(t, 0, 2);
    st.RunFrames(more, 0, 2, 2);
    st.RunStops(st.AfterFrames(more, 2), 2, 2);
    assert [Played(0, 2)] + [] == [Played(0, 2)] && [Played(4, 2)] + [] == [Played(4, 2)];
  }

  /** A cut of five frames, of which the two blocks hold four: the frame sought comes out all the same. */
  method CutBeyondTheBuffer(first: seq<byte>, second: seq<byte>, third: seq<byte>) returns (c: Callback, d: DecoderWindows)
    requires |first| == |second| == |third| == 4
    ensures fresh(d) && d.Valid() && d.sought == 5 && d.start == 0 && d.InPlace()
    ensures c == Callback(6, 1, Samples(third)[1..])
  {
    var script := ThreeBlocks(first, second, third, true);
    ThreeBlocksAre(first, second, third, true);
    d := new DecoderWindows(1, 1, script, 0);
    OnePiece(Played(5, 1), StreamOf(script), 1);
    LargeCut(first, second, third);
    LastOfPart(StreamOf(script), 4);
    hide WholeIn, TimestampFrames, ReadFrames, Setting.Run, StreamOf, Part, Samples, WholeBlocks, ThreeBlocks, Stretch;
    d.Seek(5, script, 0, true);
    c := d.Decode(1, true, true);
  }

  lemma LastOfPart(stream: seq<real>, first: nat)
    requires |Part(stream, first, 2, 1)| == 2
    ensures Part(stream, first + 1, 1, 1) == Part(stream, first, 2, 1)[1..]
  {
  }

  lemma LargeCut(first: seq<byte>, second: seq<byte>, third: seq<byte>)
    requires |first| == |second| == |third| == 4
    ensures var st := Setting(ThreeBlocks(first, second, third, true), 0, 1, 1, true);
            st.Run(Supply(5, 0, 0, Room(0, 4096), true, 0, false), 0, 1)
            == Halt(Supply(6, 0, 0, Room(6, 4096), false, 3, false), 1, [Played(5, 1)], Enough)
  {
    ThreeBlocksAre(first, second, third, true);
    hide TimestampFrames, WholeIn, ReadFrames;
    var st := Setting(ThreeBlocks(first, second, third, true), 0, 1, 1, true);
    var s := Supply(5, 0, 0, Room(0, 4096), true, 0, false);
    var read, more := Supply(5, 0, -1, Room(4, 4096), false, 2, false), Supply(5, 0, 1, Room(6, 4096), false, 3, false);
    assert st.ReadOne(s) == (Supply(5, 0, 2, Room(2, 4096), true, 1, false), At(0));
    assert st.ReadOne(Supply(5, 0, 2, Room(2, 4096), false, 1, false)) == (Supply(5, 0, 4, Room(4, 4096), false, 2, false), At(2));
    assert st.Pull(s) == (read, Enough);
    st.RunPull(s, 0, 1);
    assert st.ReadOne(read) == (more, At(4));
    assert st.Pull(read) == (more, Enough);
    st.RunPull(read, 0, 1);
    st.RunFrames(more, 0, 1, 1);
    st.RunStops(st.AfterFrames(more, 1), 1, 1);
    assert [Played(5, 1)] + [] == [Played(5, 1)];
  }

  /** One frame is buffered and the next block holds another: a call for two returns one and stops there. */
  lemma OneOfTwo(position: int)
    ensures var st := Setting([Block([0, 0], 0, true), Block([0, 0], 0, true)], 0, 1, 1, true);
            var s := Supply(position, 0, 1, Room(1, 4096), false, 1, false);
            && Total(st.Arrivals(s)) >= 2
            && st.Run(s, 0, 2) == Halt(Supply(position + 1, 0, 0, Room(1, 4096), false, 1, false), 1, [Played(0, 1)], Enough)
  {
    var st := Setting([Block([0, 0], 0, true), Block([0, 0], 0, true)], 0, 1, 1, true);
    var s := Supply(position, 0, 1, Room(1, 4096), false, 1, false);
    var used, next := st.AfterFrames(s, 1), Supply(position + 1, 0, 1, Room(2, 4096), false, 2, false);
    assert WholeIn(2, 1) == 1;
    assert st.Upto(1) == 1;
    assert st.Used(s) == used;
    assert st.Pull(used) == (next, Enough);
    assert st.Blocks(s) == [0, 1] + st.Blocks(next);
    FrontTotal([0, 1], [0, 1] + st.Blocks(next));
    FrontTotal([0, 1], st.Blocks(next));
    TwoTotal(0, 1);
    hide Setting.Blocks, Setting.Pull;
    st.RunFrames(s, 0, 2, 1);
    st.RunStops(used, 1, 2);
    assert [Played(0, 1)] + [] == [Played(0, 1)];
  }

  lemma TwoTotal(a: nat, b: nat)
    ensures Total([a, b]) == a + b
  {
    assert [a, b][1..] == [b] && [b][1..] == [];
    assert Total([b]) == b;
  }

  lemma {:induction false} FrontTotal(a: seq<nat>, b: seq<nat>)
    ensures Total(a + b) == Total(a) + Total(b)
    decreases |a|
  {
    if |a| == 0 {
      assert a + b == b;
    } else {
      assert (a + b)[1..] == a[1..] + b;
      FrontTotal(a[1..], b);
    }
  }
}
