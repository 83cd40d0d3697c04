/**
 * The decode loop of the Windows decoder on counters: which frames of its source reader it
 * hands out, at which positions, for every course the reads can take.
 */
module WindowsLoop {
  import opened ByteOrder
  import opened FrameBuffer
  import opened Frames
  import opened ShortReads
  import opened Truncation

  /** One `ReadSample`: a block of PCM with its time in 100 ns units, or why there is none. */
  datatype Read =
    | Block(pcm: seq<byte>, timestamp: nat, unlocked: bool)
    | EndOfStream
    | Unusable

  /** PCM of the first `n` reads. */
  function PcmOf(script: seq<Read>, n: nat): seq<byte>
    requires n <= |script|
  {
    if n == 0 then [] else PcmOf(script, n - 1) + if script[n - 1].Block? then script[n - 1].pcm else []
  }

  ghost predicate WholeBlocks(script: seq<Read>, channels: nat)
    requires channels > 0
  {
    forall i :: 0 <= i < |script| && script[i].Block? ==> Whole(script[i].pcm, channels)
  }

  /** A block of PCM that holds whole frames. */
  ghost predicate Whole(pcm: seq<byte>, channels: nat)
    requires channels > 0
  {
    |pcm| == WholeIn(|pcm|, channels) * channels * 2
  }

  function BlockFrames(read: Read, channels: nat): nat
    requires channels > 0
  {
    if read.Block? then WholeIn(|read.pcm|, channels) else 0
  }

  /** The frames of the first `n` reads. */
  function ReadFrames(script: seq<Read>, n: nat, channels: nat): nat
    requires channels > 0 && n <= |script|
  {
    if n == 0 then 0 else ReadFrames(script, n - 1, channels) + BlockFrames(script[n - 1], channels)
  }

  lemma {:induction false} ReadsAscend(script: seq<Read>, m: nat, n: nat, channels: nat)
    requires channels > 0 && m <= n <= |script|
    ensures ReadFrames(script, m, channels) <= ReadFrames(script, n, channels)
  {
    if m < n {
      ReadsAscend(script, m, n - 1, channels);
    }
  }

  function TimestampFrames(timestamp: nat, samplerate: nat): (frames: nat)
  {
    ToLong(timestamp as real / 10000000.0 * samplerate as real)
  }

  /**
   * For a reader that rounds its times down to 100 ns, the conversion back to frames is exact
   * if and only if the frame lies on such a time; otherwise it is one frame short.
   */
  lemma TimestampExactly(frame: nat, samplerate: nat)
    requires 0 < samplerate <= 10000000
    ensures frame * 10000000 / samplerate >= 0
    ensures var read := TimestampFrames(frame * 10000000 / samplerate, samplerate);
            read == if frame * 10000000 % samplerate == 0 then frame else frame - 1
  {
    var t, lost := frame * 10000000 / samplerate, frame * 10000000 % samplerate;
    assert t * samplerate + lost == frame * 10000000;
    hide TimestampFrames;
    TimeLost(t, samplerate, frame, lost);
  }

  lemma TimeLost(t: nat, samplerate: nat, frame: nat, lost: nat)
    requires t * samplerate + lost == frame * 10000000 && lost < 10000000
    ensures TimestampFrames(t, samplerate) == if lost == 0 then frame else frame - 1
  {
    var x := t as real / 10000000.0 * samplerate as real;
    InUnits(t, samplerate, t * samplerate);
    assert x == frame as real - lost as real / 10000000.0;
    ToLongUnique(x, if lost == 0 then frame else frame - 1);
  }

  lemma InUnits(t: nat, samplerate: nat, product: nat)
    requires product == t * samplerate
    ensures t as real / 10000000.0 * samplerate as real == product as real / 10000000.0
  {
  }

  function Silence(frames: nat, channels: nat): (s: seq<real>)
    ensures |s| == frames * channels
    ensures forall i :: 0 <= i < |s| ==> s[i] == 0.0
  {
    Scale(0, frames, channels);
    seq(frames * channels, _ => 0.0)
  }

  /** A stretch of what a decoder hands out: silence, or frames of the reader from `first` on. */
  datatype Piece = Silent(count: nat) | Played(first: int, count: nat)

  function Extent(pieces: seq<Piece>): nat {
    if |pieces| == 0 then 0 else pieces[0].count + Extent(pieces[1..])
  }

  /**
   * Whether pieces handed out from position `at` on are those of their positions, for a reader
   * that yields the stream from frame `start` on: frames at their own places, silence only
   * before `floor`, the first frame still to be had.
   */
  predicate Right(pieces: seq<Piece>, at: int, start: int, floor: int) {
    |pieces| > 0 ==> RightPiece(pieces[0], at, start, floor) && Right(pieces[1..], at + pieces[0].count, start, floor)
  }

  predicate RightPiece(piece: Piece, at: int, start: int, floor: int) {
    match piece
    case Silent(count) => at + count <= floor
    case Played(first, count) => start + first == at
  }

  lemma FirstPiece(piece: Piece, rest: seq<Piece>, at: int, start: int, floor: int)
    ensures Extent([piece] + rest) == piece.count + Extent(rest)
    ensures Right([piece] + rest, at, start, floor)
       <==> RightPiece(piece, at, start, floor) && Right(rest, at + piece.count, start, floor)
  {
    assert ([piece] + rest)[1..] == rest;
  }

  lemma NoPieces(at: int, start: int, floor: int)
    ensures Extent([]) == 0 && Right([], at, start, floor)
  {
  }

  /** What is right stays right when less is still to be had. */
  lemma {:induction false} RightFloor(pieces: seq<Piece>, at: int, start: int, floor: int, higher: int)
    requires floor <= higher && Right(pieces, at, start, floor)
    ensures Right(pieces, at, start, higher)
    decreases |pieces|
  {
    if |pieces| > 0 {
      RightFloor(pieces[1..], at + pieces[0].count, start, floor, higher);
    }
  }

  lemma {:induction false} ExtentJoin(a: seq<Piece>, b: seq<Piece>)
    ensures Extent(a + b) == Extent(a) + Extent(b)
    decreases |a|
  {
    if |a| == 0 {
      assert a + b == b;
    } else {
      assert (a + b)[1..] == a[1..] + b;
      ExtentJoin(a[1..], b);
    }
  }

  lemma {:induction false} RightJoin(a: seq<Piece>, b: seq<Piece>, at: int, start: int, floor: int)
    ensures Right(a + b, at, start, floor) <==> Right(a, at, start, floor) && Right(b, at + Extent(a), start, floor)
    decreases |a|
  {
    if |a| == 0 {
      assert a + b == b;
    } else {
      assert (a + b)[1..] == a[1..] + b;
      RightJoin(a[1..], b, at + a[0].count, start, floor);
    }
  }

  /** Where frames can still come from, and the position they will be counted from. */
  datatype Supply = Supply(position: int, silence: nat, buffered: int, room: Room, afterSeek: bool, turn: nat, eof: bool)

  /** Why the loop of `decode` ends; `Torn` where a block would be written in front of the array. */
  datatype Ending = Enough | EndOfStream | Failure | Torn

  datatype Halt = Halt(supply: Supply, count: nat, pieces: seq<Piece>, ending: Ending)
  {
    function Behind(done: seq<Piece>): Halt {
      this.(pieces := done + pieces)
    }
  }

  /** What `winDecode` returns: a time in frames, -1, or nothing where it writes in front of the array. */
  datatype Time = At(frames: nat) | Minus | Lost

  /** The correction on counters: silence, or a cut, of more than there is if need be. */
  function Corrected(s: Supply, framesToCut: int): (r: Supply)
    ensures r.turn == s.turn
  {
    if framesToCut < 0 then s.(silence := -framesToCut) else s.(buffered := s.buffered - framesToCut)
  }

  /** A block read well: it could be released, so its time counts. */
  predicate Released(read: Read) {
    read.Block? && read.unlocked
  }

  /** What stays the same during a call: the reads, and the frame of the stream they start at. */
  datatype Setting = Setting(script: seq<Read>, start: int, samplerate: nat, channels: nat, canGrow: bool)
  {
    ghost predicate Valid() {
      channels > 0
    }

    function Upto(turn: nat): nat
      requires Valid() && turn <= |script|
    {
      ReadFrames(script, turn, channels)
    }

    /** `winDecode` on counters. */
    function ReadOne(s: Supply): (r: (Supply, Time))
      requires Valid() && s.turn <= |script|
      ensures s.turn <= r.0.turn <= |script| && (r.1.At? ==> s.turn < r.0.turn)
      ensures s.buffered >= 0 ==> r.0.buffered >= s.buffered && !r.1.Lost?
    {
      if s.turn == |script| then (s, Minus) else
        match script[s.turn]
        case Unusable => (s.(turn := s.turn + 1), Minus)
        case EndOfStream => (s.(turn := s.turn + 1, eof := true), Minus)
        case Block(pcm, timestamp, unlocked) =>
          var frames := WholeIn(|pcm|, channels);
          var time := if unlocked then At(TimestampFrames(timestamp, samplerate)) else Minus;
          if s.buffered >= 0 then
            var (room, ok) := s.room.Put(s.buffered, frames, canGrow);
            (s.(turn := s.turn + 1, room := room, buffered := s.buffered + if ok then frames else 0), time)
          else if s.room.Fits(frames) then
            (s.(turn := s.turn + 1, room := s.room.(written := s.room.written + frames), buffered := s.buffered + frames), time)
          else (s, Lost)
    }

    function Stopped(s: Supply, time: Time): (Supply, Ending) {
      (s, if time.Lost? then Torn else if s.eof then Ending.EndOfStream else Failure)
    }

    /** The branch of the loop that reads: one block, or two and a correction after a seek. */
    function Pull(s: Supply): (r: (Supply, Ending))
      requires Valid() && s.turn <= |script|
      ensures s.turn <= r.0.turn <= |script| && (r.1.Enough? ==> s.turn < r.0.turn)
    {
      var (first, time) := ReadOne(s);
      if !time.At? then Stopped(first, time)
      else if !s.afterSeek then (first, Enough)
      else
        var (second, later) := ReadOne(first.(afterSeek := false));
        if !later.At? then Stopped(second, later)
        else (Corrected(second, s.position - (later.frames - first.buffered)), Enough)
    }

    /** The next frames out of the buffer, as they stand in the reads. */
    function Next(s: Supply): int
      requires Valid() && s.turn <= |script|
    {
      Upto(s.turn) - s.buffered
    }

    function AfterSilence(s: Supply, k: nat): Supply
      requires k <= s.silence
    {
      s.(silence := s.silence - k, position := s.position + k)
    }

    function AfterFrames(s: Supply, k: nat): Supply {
      s.(buffered := s.buffered - k, position := s.position + k)
    }

    /** The loop of `decode` on counters. */
    function Run(s: Supply, framesRead: nat, n: nat): (h: Halt)
      requires Valid() && s.turn <= |script| && framesRead <= n
      ensures s.turn <= h.supply.turn <= |script| && framesRead <= h.count <= n
      decreases |script| - s.turn, n - framesRead
    {
      if 2 * framesRead >= n then Halt(s, framesRead, [], Enough)
      else if s.silence > 0 then
        var k := Min(s.silence, n - framesRead);
        Run(AfterSilence(s, k), framesRead + k, n).Behind([Silent(k)])
      else if s.buffered > 0 then
        var k := Min(s.buffered, n - framesRead);
        Run(AfterFrames(s, k), framesRead + k, n).Behind([Played(Next(s), k)])
      else if s.eof then Halt(s, framesRead, [], Ending.EndOfStream)
      else
        var (next, ending) := Pull(s);
        if ending.Enough? then Run(next, framesRead, n) else Halt(next, framesRead, [], ending)
    }

    lemma RunStops(s: Supply, framesRead: nat, n: nat)
      requires Valid() && s.turn <= |script| && framesRead <= n
      ensures 2 * framesRead >= n ==> Run(s, framesRead, n) == Halt(s, framesRead, [], Enough)
      ensures 2 * framesRead < n && s.silence == 0 && s.buffered <= 0 && s.eof ==>
                Run(s, framesRead, n) == Halt(s, framesRead, [], Ending.EndOfStream)
    {
    }

    lemma RunSilence(s: Supply, framesRead: nat, n: nat, k: nat)
      requires Valid() && s.turn <= |script| && 2 * framesRead < n && s.silence > 0 && k == Min(s.silence, n - framesRead)
      ensures Run(s, framesRead, n) == Run(AfterSilence(s, k), framesRead + k, n).Behind([Silent(k)])
    {
    }

    lemma RunFrames(s: Supply, framesRead: nat, n: nat, k: nat)
      requires Valid() && s.turn <= |script| && 2 * framesRead < n && s.silence == 0 && s.buffered > 0 && k == Min(s.buffered, n - framesRead)
      ensures Run(s, framesRead, n) == Run(AfterFrames(s, k), framesRead + k, n).Behind([Played(Next(s), k)])
    {
    }

    lemma RunPull(s: Supply, framesRead: nat, n: nat)
      requires Valid() && s.turn <= |script| && 2 * framesRead < n && s.silence == 0 && s.buffered <= 0 && !s.eof
      ensures var (next, ending) := Pull(s);
              Run(s, framesRead, n) == if ending.Enough? then Run(next, framesRead, n) else Halt(next, framesRead, [], ending)
    {
      hide Pull;
    }

    /** The pieces handed out are as many frames as the call counts. */
    lemma {:induction false} RunCounts(s: Supply, framesRead: nat, n: nat)
      requires Valid() && s.turn <= |script| && framesRead <= n
      ensures var h := Run(s, framesRead, n);
              h.count == framesRead + Extent(h.pieces) && h.supply.position == s.position + Extent(h.pieces)
      decreases |script| - s.turn, n - framesRead
    {
      hide Setting.Run, Pull, Extent, Right, RightPiece;
      RunStops(s, framesRead, n);
      NoPieces(0, 0, 0);
      if 2 * framesRead >= n || (s.silence == 0 && s.buffered <= 0 && s.eof) {
      } else if s.silence > 0 {
        var k := Min(s.silence, n - framesRead);
        RunSilence(s, framesRead, n, k);
        RunCounts(AfterSilence(s, k), framesRead + k, n);
        FirstPiece(Silent(k), Run(AfterSilence(s, k), framesRead + k, n).pieces, 0, 0, 0);
      } else if s.buffered > 0 {
        var k := Min(s.buffered, n - framesRead);
        RunFrames(s, framesRead, n, k);
        RunCounts(AfterFrames(s, k), framesRead + k, n);
        FirstPiece(Played(Next(s), k), Run(AfterFrames(s, k), framesRead + k, n).pieces, 0, 0, 0);
      } else {
        RunPull(s, framesRead, n);
        PullKeeps(s);
        if Pull(s).1.Enough? {
          RunCounts(Pull(s).0, framesRead, n);
        }
      }
    }

    lemma PullKeeps(s: Supply)
      requires Valid() && s.turn <= |script|
      ensures Pull(s).0.position == s.position
      ensures !s.afterSeek ==> !Pull(s).0.afterSeek && Pull(s).0.silence == s.silence
    {
    }

    function Available(s: Supply): nat {
      if s.buffered > 0 then s.buffered else 0
    }

    /** The supply once silence and buffer are used up. */
    function Used(s: Supply): Supply {
      s.(silence := 0, buffered := s.buffered - Available(s), position := s.position + s.silence + Available(s))
    }

    /** The pieces that come from the reader once silence and buffer are used up. */
    function Blocks(s: Supply): seq<nat>
      requires Valid() && s.turn <= |script|
      decreases |script| - s.turn
    {
      if s.eof then [] else
        var (next, ending) := Pull(Used(s));
        if ending.Enough? then [next.silence, Available(next)] + Blocks(next) else []
    }

    /** The pieces in which frames become available to a call. */
    function Arrivals(s: Supply): seq<nat>
      requires Valid() && s.turn <= |script|
    {
      [s.silence, Available(s)] + Blocks(s)
    }

    /** A call reads what the shared loop reads of the pieces that arrive, and ends early only when they run out. */
    lemma {:induction false} RunReads(s: Supply, framesRead: nat, n: nat)
      requires Valid() && s.turn <= |script| && framesRead <= n
      ensures Run(s, framesRead, n).count == FramesRead(Arrivals(s), framesRead, n)
      ensures Run(s, framesRead, n).ending.Enough? <==> n <= 2 * Run(s, framesRead, n).count
      decreases |script| - s.turn, n - framesRead
    {
      hide Setting.Run, Pull, Setting.Arrivals, FramesRead;
      RunStops(s, framesRead, n);
      ReadStops(Arrivals(s), framesRead, n);
      if 2 * framesRead >= n {
      } else if s.silence > 0 {
        var k := Min(s.silence, n - framesRead);
        RunSilence(s, framesRead, n, k);
        UseSilence(s, framesRead, n, k);
        RunReads(AfterSilence(s, k), framesRead + k, n);
      } else if s.buffered > 0 {
        var k := Min(s.buffered, n - framesRead);
        RunFrames(s, framesRead, n, k);
        UseBuffer(s, framesRead, n, k);
        RunReads(AfterFrames(s, k), framesRead + k, n);
      } else {
        UseBlock(s, framesRead, n);
        if !s.eof {
          RunPull(s, framesRead, n);
          if Pull(s).1.Enough? {
            RunReads(Pull(s).0, framesRead, n);
          }
        }
      }
    }

    lemma UseSilence(s: Supply, framesRead: nat, n: nat, k: nat)
      requires Valid() && s.turn <= |script| && 2 * framesRead < n && k == Min(s.silence, n - framesRead)
      ensures FramesRead(Arrivals(s), framesRead, n) == FramesRead(Arrivals(AfterSilence(s, k)), framesRead + k, n)
    {
      hide Pull;
      assert Blocks(AfterSilence(s, k)) == Blocks(s);
      hide FramesRead, Setting.Blocks;
      FirstOfTwo(s.silence, Available(s), Blocks(s), framesRead, n, k);
    }

    lemma UseBuffer(s: Supply, framesRead: nat, n: nat, k: nat)
      requires Valid() && s.turn <= |script| && 2 * framesRead < n && s.silence == 0 && s.buffered > 0 && k == Min(s.buffered, n - framesRead)
      ensures FramesRead(Arrivals(s), framesRead, n) == FramesRead(Arrivals(AfterFrames(s, k)), framesRead + k, n)
    {
      hide Pull;
      assert Blocks(AfterFrames(s, k)) == Blocks(s);
      hide FramesRead, Setting.Blocks;
      SecondOfTwo(s.buffered, Blocks(s), framesRead, n, k);
    }

    lemma FirstOfTwo(a: nat, b: nat, rest: seq<nat>, framesRead: nat, n: nat, k: nat)
      requires 2 * framesRead < n && k == Min(a, n - framesRead)
      ensures FramesRead([a, b] + rest, framesRead, n) == FramesRead([a - k, b] + rest, framesRead + k, n)
    {
      hide FramesRead;
      TwoPieces(a, b, rest, framesRead, n);
      TwoPieces(a - k, b, rest, framesRead + k, n);
    }

    lemma SecondOfTwo(b: nat, rest: seq<nat>, framesRead: nat, n: nat, k: nat)
      requires 2 * framesRead < n && k == Min(b, n - framesRead)
      ensures FramesRead([0, b] + rest, framesRead, n) == FramesRead([0, b - k] + rest, framesRead + k, n)
    {
      hide FramesRead;
      TwoPieces(0, b, rest, framesRead, n);
      TwoPieces(0, b - k, rest, framesRead + k, n);
      ReadStops(rest, framesRead + k, n);
    }

    lemma UseBlock(s: Supply, framesRead: nat, n: nat)
      requires Valid() && s.turn <= |script| && 2 * framesRead < n && s.silence == 0 && s.buffered <= 0
      ensures FramesRead(Arrivals(s), framesRead, n)
           == if !s.eof && Pull(s).1.Enough? then FramesRead(Arrivals(Pull(s).0), framesRead, n) else framesRead
    {
      hide FramesRead, Pull;
      assert Used(s) == s;
      hide Setting.Used;
      TwoPieces(s.silence, Available(s), Blocks(s), framesRead, n);
      ReadStops([], framesRead, n);
    }

    lemma ReadStops(pieces: seq<nat>, framesRead: nat, n: nat)
      requires framesRead <= n
      ensures pieces == [] || n <= 2 * framesRead ==> FramesRead(pieces, framesRead, n) == framesRead
    {
    }

    lemma TwoPieces(silence: nat, buffered: nat, rest: seq<nat>, framesRead: nat, n: nat)
      requires framesRead <= n
      ensures FramesRead([silence, buffered] + rest, framesRead, n)
           == if 2 * framesRead >= n then framesRead
              else var r := Min(n, framesRead + silence);
                   if 2 * r >= n then r else FramesRead(rest, Min(n, r + buffered), n)
    {
      assert ([silence, buffered] + rest)[1..] == [buffered] + rest;
      assert ([buffered] + rest)[1..] == rest;
    }

    /** A call returns all it was asked for if and only if that much arrives and no arrival leaves it at half or more. */
    lemma FullReads(s: Supply, n: nat)
      requires Valid() && s.turn <= |script|
      ensures Run(s, 0, n).count == n <==> Total(Arrivals(s)) >= n && !Stalls(Arrivals(s), 0, n)
    {
      RunReads(s, 0, n);
      FullExactly(Arrivals(s), 0, n);
    }

    /** A read that fails: the script is over, or it is neither a block that was read well nor the end of the stream. */
    ghost predicate Stops(turn: nat)
      requires turn <= |script|
    {
      turn == |script| || (turn > 0 && !Released(script[turn - 1]) && !script[turn - 1].EndOfStream?)
    }

    lemma PullMeans(s: Supply)
      requires Valid() && s.turn <= |script| && !s.eof
      ensures var (next, ending) := Pull(s);
              && (ending.EndOfStream? ==> next.eof && next.turn > 0 && script[next.turn - 1].EndOfStream?)
              && (ending.Failure? ==> !next.eof && Stops(next.turn))
              && (ending.Enough? ==> !next.eof)
              && (ending.Torn? ==> next.buffered < 0)
    {
      hide TimestampFrames, WholeIn;
    }

    /** What the endings mean: a call that ends early has met the end, a failed read, or a block with no place in the array. */
    lemma {:induction false} EndingMeans(s: Supply, framesRead: nat, n: nat)
      requires Valid() && s.turn <= |script| && framesRead <= n
      ensures var h := Run(s, framesRead, n);
              && (h.ending.EndOfStream? ==>
                    h.supply.eof && (s.eof || (h.supply.turn > 0 && script[h.supply.turn - 1].EndOfStream?)))
              && (h.ending.Failure? ==> !h.supply.eof && Stops(h.supply.turn))
              && (h.ending.Torn? ==> h.supply.buffered < 0)
      decreases |script| - s.turn, n - framesRead
    {
      hide Setting.Run, Pull, Setting.Stops;
      RunStops(s, framesRead, n);
      if 2 * framesRead >= n || (s.silence == 0 && s.buffered <= 0 && s.eof) {
      } else if s.silence > 0 {
        var k := Min(s.silence, n - framesRead);
        RunSilence(s, framesRead, n, k);
        EndingMeans(AfterSilence(s, k), framesRead + k, n);
      } else if s.buffered > 0 {
        var k := Min(s.buffered, n - framesRead);
        RunFrames(s, framesRead, n, k);
        EndingMeans(AfterFrames(s, k), framesRead + k, n);
      } else {
        RunPull(s, framesRead, n);
        PullMeans(s);
        if Pull(s).1.Enough? {
          EndingMeans(Pull(s).0, framesRead, n);
        }
      }
    }

    /** How far the next frame out of the stream is ahead of the position it will be handed out at. */
    ghost function Shift(s: Supply): int
      requires Valid() && s.turn <= |script|
    {
      start + Next(s) - (s.position + s.silence)
    }

    /** A correction is still to come, before any frame that is still to be had. */
    ghost predicate Awaiting(s: Supply, floor: int)
      requires Valid() && s.turn <= |script|
    {
      s.afterSeek && s.buffered == 0 && start + Upto(s.turn) == floor
    }

    /** What comes next is what the position says. */
    ghost predicate Ready(s: Supply, floor: int)
      requires Valid() && s.turn <= |script|
    {
      (Shift(s) == 0 && (s.silence > 0 ==> s.position + s.silence <= floor)) || Awaiting(s, floor)
    }

    /** What holds of the counters between calls. */
    ghost predicate Fine(s: Supply, floor: int)
      requires Valid()
    {
      && s.turn <= |script| && floor <= start + Next(s) && floor <= start + Upto(s.turn)
      && (s.afterSeek ==> s.silence == 0 && s.buffered >= 0) && (s.silence > 0 ==> s.buffered >= 0)
    }

    /** Before the correction, frames were handed out since the seek or flush only if they are in place. */
    ghost predicate Sane(s: Supply, floor: int)
      requires Valid() && s.turn <= |script|
    {
      s.afterSeek && s.buffered == 0 && Shift(s) != 0 ==> start + Upto(s.turn) == floor
    }

    /** The first block from `turn` on that is read well. */
    function FirstReleased(turn: nat): (t: nat)
      requires turn <= |script|
      ensures turn <= t <= |script| && (t < |script| ==> Released(script[t]))
      ensures forall i :: turn <= i < t ==> !Released(script[i])
      decreases |script| - turn
    {
      if turn == |script| || Released(script[turn]) then turn else FirstReleased(turn + 1)
    }

    /** The time of a block, in frames, is where it stands in the stream. */
    ghost predicate Timed(i: nat)
      requires Valid() && i < |script| && script[i].Block?
    {
      TimestampFrames(script[i].timestamp, samplerate) == start + Upto(i)
    }

    /**
     * Whether the reads `[turn, end)` leave a decoder in place that waits for its correction,
     * `aligned` if the reader stands at its position anyway.  The first block that is read well
     * and the read behind it make the correction; frames read before it, or without it, come out
     * where the reader stood.
     */
    ghost predicate Keeps(turn: nat, end: nat, aligned: bool)
      requires Valid() && turn <= end <= |script|
    {
      var t := FirstReleased(turn);
      if t >= end then aligned || Upto(end) == Upto(turn)
      else if t + 1 < end && Released(script[t + 1]) then Timed(t + 1) && (aligned || Upto(t) == Upto(turn))
      else aligned
    }

    lemma ReadOneFine(s: Supply)
      requires Valid() && canGrow && s.turn <= |script|
      ensures var (r, time) := ReadOne(s);
              && Next(r) == Next(s) && Upto(s.turn) <= Upto(r.turn)
              && r.position == s.position && r.silence == s.silence && r.afterSeek == s.afterSeek
              && (s.buffered >= 0 ==> r.buffered >= s.buffered && !time.Lost?)
              && (time.At? <==> !time.Lost? && s.turn < |script| && Released(script[s.turn]))
              && (time.At? ==> time.frames == TimestampFrames(script[s.turn].timestamp, samplerate))
              && (!time.Lost? && s.turn < |script| ==> r.turn == s.turn + 1 && r.buffered == s.buffered + BlockFrames(script[s.turn], channels))
              && (s.turn == |script| ==> r == s)
    {
      hide TimestampFrames, WholeIn;
    }

    lemma SilenceStep(s: Supply, k: nat, floor: int)
      requires Valid() && Fine(s, floor) && 0 < k <= s.silence
      ensures Fine(AfterSilence(s, k), floor) && Sane(AfterSilence(s, k), floor)
      ensures Ready(s, floor) <==> RightPiece(Silent(k), s.position, start, floor) && Ready(AfterSilence(s, k), floor)
    {
      hide ReadFrames;
    }

    lemma FramesStep(s: Supply, k: nat, floor: int)
      requires Valid() && Fine(s, floor) && s.silence == 0 && 0 < k <= s.buffered
      ensures Fine(AfterFrames(s, k), floor) && Shift(AfterFrames(s, k)) == Shift(s)
      ensures Ready(s, floor) <==> RightPiece(Played(Next(s), k), s.position, start, floor)
      ensures RightPiece(Played(Next(s), k), s.position, start, floor) ==> Sane(AfterFrames(s, k), floor) && Ready(AfterFrames(s, k), floor)
    {
      hide ReadFrames;
    }

    /** A read without a correction. */
    lemma ReadStep(s: Supply, floor: int)
      requires Valid() && canGrow && Fine(s, floor) && s.silence == 0 && s.buffered <= 0 && !ReadOne(s).1.Lost?
      requires !s.afterSeek || !ReadOne(s).1.At?
      ensures Pull(s) == if ReadOne(s).1.At? then (ReadOne(s).0, Enough) else Stopped(ReadOne(s).0, ReadOne(s).1)
      ensures Fine(ReadOne(s).0, floor) && Shift(ReadOne(s).0) == Shift(s)
      ensures Ready(ReadOne(s).0, floor) <==> Ready(s, floor) && (s.afterSeek ==> Keeps(s.turn, ReadOne(s).0.turn, Shift(s) == 0))
      ensures s.afterSeek ==> FirstReleased(s.turn) >= ReadOne(s).0.turn
    {
      ReadOneFine(s);
      var r := ReadOne(s).0;
      ReadsAscend(script, s.turn, r.turn, channels);
      hide ReadOne, ReadFrames;
    }

    /** The two reads after a seek. */
    lemma CorrectStep(s: Supply, floor: int)
      requires Valid() && canGrow && Fine(s, floor) && Sane(s, floor) && s.silence == 0 && s.buffered <= 0 && s.afterSeek
      requires ReadOne(s).1.At?
      ensures var (next, ending) := Pull(s);
              && FirstReleased(s.turn) == s.turn < next.turn && !ending.Torn? && !next.afterSeek && Fine(next, floor)
              && (s.turn + 1 < next.turn || next.turn == |script|)
              && (ending.Enough? ==> s.turn + 1 < next.turn && Released(script[s.turn + 1]))
              && (Ready(next, floor) <==> Ready(s, floor) && Keeps(s.turn, next.turn, Shift(s) == 0))
    {
      ReadOneFine(s);
      var first := ReadOne(s).0.(afterSeek := false);
      ReadOneFine(first);
      var second, later := ReadOne(first).0, ReadOne(first).1;
      UptoStep(s.turn);
      hide ReadOne, ReadFrames, TimestampFrames, BlockFrames;
    }

    lemma UptoStep(turn: nat)
      requires Valid() && turn < |script|
      ensures Upto(turn + 1) == Upto(turn) + BlockFrames(script[turn], channels)
    {
    }

    /** More reads change nothing once the correction has been made. */
    lemma KeepsStays(turn: nat, end: nat, later: nat, aligned: bool)
      requires Valid() && turn <= end <= later <= |script| && FirstReleased(turn) + 1 < end
      ensures Keeps(turn, later, aligned) <==> Keeps(turn, end, aligned)
    {
      hide ReadFrames, FirstReleased;
    }

    lemma NothingRead(turn: nat, aligned: bool)
      requires Valid() && turn <= |script|
      ensures Keeps(turn, turn, aligned)
    {
    }

    /** The branch of the loop that reads, as far as the place of the frames is concerned. */
    lemma PullStep(s: Supply, floor: int)
      requires Valid() && canGrow && Fine(s, floor) && Sane(s, floor) && s.silence == 0 && s.buffered <= 0 && !Pull(s).1.Torn?
      ensures var (next, ending) := Pull(s);
              && Fine(next, floor) && next.position == s.position
              && (ending.Enough? ==> !next.afterSeek && (s.afterSeek ==> FirstReleased(s.turn) + 1 < next.turn))
              && (next.afterSeek ==> s.afterSeek && Shift(next) == Shift(s) && FirstReleased(s.turn) >= next.turn)
              && (s.afterSeek && !next.afterSeek ==> FirstReleased(s.turn) < next.turn && (FirstReleased(s.turn) + 1 < next.turn || next.turn == |script|))
              && (Ready(next, floor) <==> Ready(s, floor) && (s.afterSeek ==> Keeps(s.turn, next.turn, Shift(s) == 0)))
    {
      PullKeeps(s);
      ReadOneFine(s);
      if s.afterSeek && ReadOne(s).1.At? {
        CorrectStep(s, floor);
      } else {
        ReadStep(s, floor);
      }
    }

    /** Between calls the counters stay fine. */
    lemma {:induction false} RunFine(s: Supply, framesRead: nat, n: nat, floor: int)
      requires Valid() && canGrow && Fine(s, floor) && framesRead <= n && !Run(s, framesRead, n).ending.Torn?
      ensures Fine(Run(s, framesRead, n).supply, floor)
      decreases |script| - s.turn, n - framesRead
    {
      hide Setting.Run, Pull, ReadFrames;
      RunStops(s, framesRead, n);
      if 2 * framesRead >= n || (s.silence == 0 && s.buffered <= 0 && s.eof) {
      } else if s.silence > 0 {
        var k := Min(s.silence, n - framesRead);
        RunSilence(s, framesRead, n, k);
        RunFine(AfterSilence(s, k), framesRead + k, n, floor);
      } else if s.buffered > 0 {
        var k := Min(s.buffered, n - framesRead);
        RunFrames(s, framesRead, n, k);
        RunFine(AfterFrames(s, k), framesRead + k, n, floor);
      } else {
        RunPull(s, framesRead, n);
        PullFine(s, floor);
        if Pull(s).1.Enough? {
          RunFine(Pull(s).0, framesRead, n, floor);
        }
      }
    }

    lemma PullFine(s: Supply, floor: int)
      requires Valid() && canGrow && Fine(s, floor) && s.silence == 0 && s.buffered <= 0
      ensures Pull(s).1.Torn? || Fine(Pull(s).0, floor)
    {
      ReadOneFine(s);
      if ReadOne(s).1.At? && s.afterSeek {
        ReadOneFine(ReadOne(s).0.(afterSeek := false));
      }
      hide ReadOne, ReadFrames;
    }

    /**
     * What a call hands out is right, and what comes next is, if and only if what comes next was
     * right before the call and the reads of the call keep it so.
     */
    lemma {:induction false} RunKeeps(s: Supply, framesRead: nat, n: nat, floor: int)
      requires Valid() && canGrow && Fine(s, floor) && Sane(s, floor) && framesRead <= n
      requires !Run(s, framesRead, n).ending.Torn?
      ensures var h := Run(s, framesRead, n);
              Right(h.pieces, s.position, start, floor) && Ready(h.supply, floor)
              <==> Ready(s, floor) && (s.afterSeek ==> Keeps(s.turn, h.supply.turn, Shift(s) == 0))
      decreases |script| - s.turn, n - framesRead
    {
      hide Setting.Ready, Setting.Sane, Setting.Keeps, Setting.Shift, Right, RightPiece, Setting.FirstReleased, Setting.Run, Pull;
      var h := Run(s, framesRead, n);
      RunStops(s, framesRead, n);
      NoPieces(s.position, start, floor);
      if 2 * framesRead >= n || (s.silence == 0 && s.buffered <= 0 && s.eof) {
        NothingRead(s.turn, Shift(s) == 0);
      } else if s.silence > 0 {
        var k := Min(s.silence, n - framesRead);
        RunSilence(s, framesRead, n, k);
        SilenceStep(s, k, floor);
        RunKeeps(AfterSilence(s, k), framesRead + k, n, floor);
        FirstPiece(Silent(k), Run(AfterSilence(s, k), framesRead + k, n).pieces, s.position, start, floor);
      } else if s.buffered > 0 {
        var k := Min(s.buffered, n - framesRead);
        RunFrames(s, framesRead, n, k);
        FramesStep(s, k, floor);
        FirstPiece(Played(Next(s), k), Run(AfterFrames(s, k), framesRead + k, n).pieces, s.position, start, floor);
        if RightPiece(Played(Next(s), k), s.position, start, floor) {
          RunKeeps(AfterFrames(s, k), framesRead + k, n, floor);
        }
      } else {
        RunPull(s, framesRead, n);
        PullStep(s, floor);
        var (next, ending) := Pull(s);
        if ending.Enough? {
          NotWaiting(next, floor);
          RunKeeps(next, framesRead, n, floor);
          if s.afterSeek {
            KeepsStays(s.turn, next.turn, h.supply.turn, Shift(s) == 0);
          }
        }
      }
    }

    lemma NotWaiting(s: Supply, floor: int)
      requires Valid() && s.turn <= |script| && !s.afterSeek
      ensures Sane(s, floor)
    {
    }

    /**
     * As long as no block has been read well, the correction is still to come and the frames
     * stay as far from their positions as they were; once one has, it has been made, or the
     * reads ended with that block.
     */
    lemma {:induction false} RunWaits(s: Supply, framesRead: nat, n: nat, floor: int)
      requires Valid() && canGrow && Fine(s, floor) && framesRead <= n && !Run(s, framesRead, n).ending.Torn?
      ensures var h := Run(s, framesRead, n);
              && (h.supply.afterSeek ==>
                    s.afterSeek && Shift(h.supply) == Shift(s) && FirstReleased(s.turn) >= h.supply.turn)
              && (s.afterSeek && !h.supply.afterSeek ==>
                    FirstReleased(s.turn) < h.supply.turn && (FirstReleased(s.turn) + 1 < h.supply.turn || h.supply.turn == |script|))
      decreases |script| - s.turn, n - framesRead
    {
      hide Setting.Run, Pull, ReadFrames, Setting.FirstReleased;
      RunStops(s, framesRead, n);
      if 2 * framesRead >= n || (s.silence == 0 && s.buffered <= 0 && s.eof) {
        LastLook(s.turn);
      } else if s.silence > 0 {
        var k := Min(s.silence, n - framesRead);
        RunSilence(s, framesRead, n, k);
        RunWaits(AfterSilence(s, k), framesRead + k, n, floor);
      } else if s.buffered > 0 {
        var k := Min(s.buffered, n - framesRead);
        RunFrames(s, framesRead, n, k);
        RunWaits(AfterFrames(s, k), framesRead + k, n, floor);
      } else {
        RunPull(s, framesRead, n);
        PullFine(s, floor);
        PullWaits(s, floor);
        if Pull(s).1.Enough? {
          RunWaits(Pull(s).0, framesRead, n, floor);
        }
      }
    }

    lemma LastLook(turn: nat)
      requires turn <= |script|
      ensures FirstReleased(turn) >= turn
    {
    }

    lemma PullWaits(s: Supply, floor: int)
      requires Valid() && canGrow && Fine(s, floor) && s.silence == 0 && s.buffered <= 0 && !Pull(s).1.Torn?
      ensures var (next, ending) := Pull(s);
              && (ending.Enough? ==> !next.afterSeek)
              && (next.afterSeek ==> s.afterSeek && Shift(next) == Shift(s) && FirstReleased(s.turn) >= next.turn)
              && (s.afterSeek && !next.afterSeek ==>
                    FirstReleased(s.turn) < next.turn && (FirstReleased(s.turn) + 1 < next.turn || next.turn == |script|))
    {
      ReadOneFine(s);
      if s.afterSeek && ReadOne(s).1.At? {
        ReadOneFine(ReadOne(s).0.(afterSeek := false));
      }
      hide ReadOne, ReadFrames;
    }

    /** A call that hands out only what is right leaves the decoder sane. */
    lemma {:induction false} RunSane(s: Supply, framesRead: nat, n: nat, floor: int)
      requires Valid() && canGrow && Fine(s, floor) && Sane(s, floor) && framesRead <= n && !Run(s, framesRead, n).ending.Torn?
      requires Right(Run(s, framesRead, n).pieces, s.position, start, floor)
      ensures Sane(Run(s, framesRead, n).supply, floor)
      decreases |script| - s.turn, n - framesRead
    {
      hide Setting.Run, Pull, ReadFrames, Right, RightPiece, Setting.Ready, Setting.Keeps, Setting.FirstReleased;
      RunStops(s, framesRead, n);
      if 2 * framesRead >= n || (s.silence == 0 && s.buffered <= 0 && s.eof) {
      } else if s.silence > 0 {
        var k := Min(s.silence, n - framesRead);
        RunSilence(s, framesRead, n, k);
        SilenceStep(s, k, floor);
        FirstPiece(Silent(k), Run(AfterSilence(s, k), framesRead + k, n).pieces, s.position, start, floor);
        RunSane(AfterSilence(s, k), framesRead + k, n, floor);
      } else if s.buffered > 0 {
        var k := Min(s.buffered, n - framesRead);
        RunFrames(s, framesRead, n, k);
        FramesStep(s, k, floor);
        FirstPiece(Played(Next(s), k), Run(AfterFrames(s, k), framesRead + k, n).pieces, s.position, start, floor);
        RunSane(AfterFrames(s, k), framesRead + k, n, floor);
      } else {
        RunPull(s, framesRead, n);
        PullFine(s, floor);
        PullKeeps(s);
        PullSane(s, floor);
        if Pull(s).1.Enough? {
          RunSane(Pull(s).0, framesRead, n, floor);
        }
      }
    }

    lemma PullSane(s: Supply, floor: int)
      requires Valid() && canGrow && Fine(s, floor) && Sane(s, floor) && s.silence == 0 && s.buffered <= 0 && !Pull(s).1.Torn?
      ensures Sane(Pull(s).0, floor)
    {
      ReadOneFine(s);
      ReadsAscend(script, s.turn, ReadOne(s).0.turn, channels);
      if s.afterSeek && ReadOne(s).1.At? {
        ReadOneFine(ReadOne(s).0.(afterSeek := false));
      }
      hide ReadOne, ReadFrames;
    }

    /** Past `floor` right pieces hold no silence. */
    lemma {:induction false} RunPlays(s: Supply, framesRead: nat, n: nat, floor: int)
      requires Valid() && s.turn <= |script| && framesRead <= n
      requires s.position >= floor || (!s.afterSeek && s.silence == 0)
      requires Right(Run(s, framesRead, n).pieces, s.position, start, floor)
      ensures NoSilence(Run(s, framesRead, n).pieces)
      decreases |script| - s.turn, n - framesRead
    {
      hide Setting.Run, Pull, ReadFrames, Right;
      RunStops(s, framesRead, n);
      if 2 * framesRead >= n || (s.silence == 0 && s.buffered <= 0 && s.eof) {
      } else if s.silence > 0 {
        var k := Min(s.silence, n - framesRead);
        RunSilence(s, framesRead, n, k);
        FirstPiece(Silent(k), Run(AfterSilence(s, k), framesRead + k, n).pieces, s.position, start, floor);
      } else if s.buffered > 0 {
        var k := Min(s.buffered, n - framesRead);
        RunFrames(s, framesRead, n, k);
        FirstPiece(Played(Next(s), k), Run(AfterFrames(s, k), framesRead + k, n).pieces, s.position, start, floor);
        RunPlays(AfterFrames(s, k), framesRead + k, n, floor);
      } else {
        RunPull(s, framesRead, n);
        PullKeeps(s);
        if Pull(s).1.Enough? {
          RunPlays(Pull(s).0, framesRead, n, floor);
        }
      }
    }

    /** Where a call hands out only what is right, silence comes first if at all. */
    lemma {:induction false} RunTidy(s: Supply, n: nat, floor: int)
      requires Valid() && canGrow && Fine(s, floor)
      requires Right(Run(s, 0, n).pieces, s.position, start, floor)
      ensures Tidy(Run(s, 0, n).pieces)
      decreases |script| - s.turn
    {
      hide Setting.Run, Pull, ReadFrames, Right;
      RunStops(s, 0, n);
      if n == 0 || (s.silence == 0 && s.buffered <= 0 && s.eof) {
      } else if s.silence > 0 {
        var k := Min(s.silence, n);
        RunSilence(s, 0, n, k);
        var rest := Run(AfterSilence(s, k), k, n).pieces;
        FirstPiece(Silent(k), rest, s.position, start, floor);
        assert ([Silent(k)] + rest)[1..] == rest;
        if k == n {
          RunStops(AfterSilence(s, k), k, n);
        } else {
          RunPlays(AfterSilence(s, k), k, n, floor);
        }
      } else if s.buffered > 0 {
        var k := Min(s.buffered, n);
        RunFrames(s, 0, n, k);
        var rest := Run(AfterFrames(s, k), k, n).pieces;
        FirstPiece(Played(Next(s), k), rest, s.position, start, floor);
        assert ([Played(Next(s), k)] + rest)[1..] == rest;
        RunPlays(AfterFrames(s, k), k, n, floor);
      } else {
        RunPull(s, 0, n);
        PullFine(s, floor);
        PullKeeps(s);
        if Pull(s).1.Enough? {
          RunTidy(Pull(s).0, n, floor);
        }
      }
    }

    /** The pieces of a call are frames that the reader has yielded. */
    lemma {:induction false} RunBounded(s: Supply, framesRead: nat, n: nat, floor: int)
      requires Valid() && canGrow && Fine(s, floor) && start <= floor && framesRead <= n
      ensures Bounded(Run(s, framesRead, n).pieces, Upto(|script|))
      decreases |script| - s.turn, n - framesRead
    {
      ReadsAscend(script, s.turn, |script|, channels);
      hide Setting.Run, Pull, ReadFrames, Bounded, BoundedPiece;
      BoundedNone(Upto(|script|));
      RunStops(s, framesRead, n);
      if 2 * framesRead >= n || (s.silence == 0 && s.buffered <= 0 && s.eof) {
      } else if s.silence > 0 {
        var k := Min(s.silence, n - framesRead);
        RunSilence(s, framesRead, n, k);
        RunBounded(AfterSilence(s, k), framesRead + k, n, floor);
        BoundedSilent(k, Upto(|script|));
        BoundedFirst(Silent(k), Run(AfterSilence(s, k), framesRead + k, n).pieces, Upto(|script|));
      } else if s.buffered > 0 {
        var k := Min(s.buffered, n - framesRead);
        RunFrames(s, framesRead, n, k);
        RunBounded(AfterFrames(s, k), framesRead + k, n, floor);
        BoundedPlayed(Next(s), k, Upto(|script|));
        BoundedFirst(Played(Next(s), k), Run(AfterFrames(s, k), framesRead + k, n).pieces, Upto(|script|));
      } else {
        RunPull(s, framesRead, n);
        PullFine(s, floor);
        if Pull(s).1.Enough? {
          RunBounded(Pull(s).0, framesRead, n, floor);
        }
      }
    }

    /** If all that is still to be read fits behind what is written, no block is written in front of the array. */
    lemma {:induction false} NeverTorn(s: Supply, framesRead: nat, n: nat)
      requires Valid() && s.turn <= |script| && framesRead <= n
      requires Upto(s.turn) <= Upto(|script|) && s.room.Fits(Upto(|script|) - Upto(s.turn))
      ensures !Run(s, framesRead, n).ending.Torn?
      decreases |script| - s.turn, n - framesRead
    {
      hide Setting.Run, Pull, ReadFrames;
      RunStops(s, framesRead, n);
      if 2 * framesRead >= n || (s.silence == 0 && s.buffered <= 0 && s.eof) {
      } else if s.silence > 0 {
        var k := Min(s.silence, n - framesRead);
        RunSilence(s, framesRead, n, k);
        NeverTorn(AfterSilence(s, k), framesRead + k, n);
      } else if s.buffered > 0 {
        var k := Min(s.buffered, n - framesRead);
        RunFrames(s, framesRead, n, k);
        NeverTorn(AfterFrames(s, k), framesRead + k, n);
      } else {
        RunPull(s, framesRead, n);
        PullFits(s);
        if Pull(s).1.Enough? {
          NeverTorn(Pull(s).0, framesRead, n);
        }
      }
    }

    lemma ReadFits(s: Supply)
      requires Valid() && s.turn <= |script| && Upto(s.turn) <= Upto(|script|) && s.room.Fits(Upto(|script|) - Upto(s.turn))
      ensures var (r, time) := ReadOne(s);
              !time.Lost? && Upto(r.turn) <= Upto(|script|) && r.room.Fits(Upto(|script|) - Upto(r.turn))
    {
      if s.turn < |script| {
        UptoStep(s.turn);
        ReadsAscend(script, s.turn + 1, |script|, channels);
      }
      hide TimestampFrames, WholeIn, ReadFrames;
    }

    lemma PullFits(s: Supply)
      requires Valid() && s.turn <= |script| && Upto(s.turn) <= Upto(|script|) && s.room.Fits(Upto(|script|) - Upto(s.turn))
      ensures var (next, ending) := Pull(s);
              !ending.Torn? && Upto(next.turn) <= Upto(|script|) && next.room.Fits(Upto(|script|) - Upto(next.turn))
    {
      ReadFits(s);
      if s.afterSeek && ReadOne(s).1.At? {
        ReadFits(ReadOne(s).0.(afterSeek := false));
      }
      hide ReadOne, ReadFrames;
    }

    /** A call, given what was handed out before it since the seek. */
    lemma CallMeans(s: Supply, n: nat, floor: int, history: seq<Piece>, sought: int)
      requires Valid() && canGrow && Fine(s, floor) && s.position == sought + Extent(history)
      requires Right(history, sought, start, floor) ==> Sane(s, floor)
      requires !Run(s, 0, n).ending.Torn?
      ensures var h := Run(s, 0, n);
              var all := history + h.pieces;
              && Fine(h.supply, floor) && h.supply.position == sought + Extent(all)
              && (Right(all, sought, start, floor) ==>
                    Sane(h.supply, floor) && Tidy(h.pieces) && Right(h.pieces, s.position, start, floor))
              && (Right(all, sought, start, floor) && Ready(h.supply, floor)
                  <==> Right(history, sought, start, floor) && Ready(s, floor)
                       && (s.afterSeek ==> Keeps(s.turn, h.supply.turn, Shift(s) == 0)))
    {
      hide *;
      var h := Run(s, 0, n);
      RunFine(s, 0, n, floor);
      RunCounts(s, 0, n);
      ExtentJoin(history, h.pieces);
      RightJoin(history, h.pieces, sought, start, floor);
      if Right(history, sought, start, floor) {
        RunKeeps(s, 0, n, floor);
        if Right(h.pieces, s.position, start, floor) {
          RunSane(s, 0, n, floor);
          RunTidy(s, n, floor);
        }
      }
    }

    /** A call behind another: the reads of both keep a decoder in place exactly if those of each do. */
    lemma KeepsJoin(turn: nat, mid: nat, end: nat, aligned: bool)
      requires Valid() && turn <= mid <= end <= |script|
      requires FirstReleased(turn) < mid ==> FirstReleased(turn) + 1 < mid || mid == |script|
      ensures Keeps(turn, end, aligned) <==>
                Keeps(turn, mid, aligned) && (FirstReleased(turn) >= mid ==> Keeps(mid, end, aligned))
    {
      ReadsAscend(script, turn, mid, channels);
      ReadsAscend(script, mid, end, channels);
      if FirstReleased(turn) >= mid {
        SameReleased(turn, mid);
        ReadsAscend(script, mid, FirstReleased(turn), channels);
      }
      hide ReadFrames, FirstReleased;
    }

    lemma SameReleased(turn: nat, mid: nat)
      requires turn <= |script| && turn <= mid <= FirstReleased(turn)
      ensures FirstReleased(mid) == FirstReleased(turn)
    {
      hide FirstReleased, Released;
    }
  }

  ghost predicate NoSilence(pieces: seq<Piece>) {
    forall i :: 0 <= i < |pieces| ==> !pieces[i].Silent?
  }

  /** Silence comes first if at all. */
  ghost predicate Tidy(pieces: seq<Piece>) {
    |pieces| > 0 ==> NoSilence(pieces[1..])
  }

  /** The frames of the pieces lie among the first `limit`. */
  ghost predicate Bounded(pieces: seq<Piece>, limit: nat) {
    |pieces| > 0 ==> BoundedPiece(pieces[0], limit) && Bounded(pieces[1..], limit)
  }

  ghost predicate BoundedPiece(piece: Piece, limit: nat) {
    piece.Played? ==> 0 <= piece.first && piece.first + piece.count <= limit
  }

  lemma BoundedPlayed(first: int, count: nat, limit: nat)
    ensures BoundedPiece(Played(first, count), limit) <==> 0 <= first && first + count <= limit
  {
  }

  lemma BoundedSilent(count: nat, limit: nat)
    ensures BoundedPiece(Silent(count), limit)
  {
  }

  lemma BoundedNone(limit: nat)
    ensures Bounded([], limit)
  {
  }

  lemma BoundedFirst(piece: Piece, rest: seq<Piece>, limit: nat)
    ensures Bounded([piece] + rest, limit) <==> BoundedPiece(piece, limit) && Bounded(rest, limit)
  {
    assert ([piece] + rest)[1..] == rest;
  }
}
