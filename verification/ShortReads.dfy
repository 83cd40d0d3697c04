/**
 * The loop that the Android and Windows decoders share.  It raises `framesRead` and lowers
 * `frames` together, so it ends as soon as half of what was asked for has been read.
 */
module ShortReads {
  import opened Frames
  import opened Session
  import opened Truncation

  function Total(pieces: seq<nat>): nat {
    if |pieces| == 0 then 0 else pieces[0] + Total(pieces[1..])
  }

  /** What a call for `n` frames has read in the end, if frames become available in these pieces. */
  function FramesRead(pieces: seq<nat>, framesRead: nat, n: nat): (r: nat)
    requires framesRead <= n
    ensures framesRead <= r <= n
    decreases |pieces|
  {
    if 2 * framesRead >= n || |pieces| == 0 then framesRead
    else FramesRead(pieces[1..], Min(n, framesRead + pieces[0]), n)
  }

  lemma {:induction false} TotalGrows(pieces: seq<nat>, k: nat)
    requires k <= |pieces|
    ensures Total(pieces[..k]) <= Total(pieces)
    decreases |pieces|
  {
    if k > 0 {
      assert pieces[..k][1..] == pieces[1..][..k - 1];
      TotalGrows(pieces[1..], k - 1);
    }
  }

  /** Half of the request ends the loop, and otherwise everything there is has been read. */
  lemma {:induction false} ReadHalf(pieces: seq<nat>, framesRead: nat, n: nat)
    requires framesRead <= n
    ensures var r := FramesRead(pieces, framesRead, n);
            n <= 2 * r || r == framesRead + Total(pieces)
    decreases |pieces|
  {
    if 2 * framesRead < n && |pieces| > 0 {
      ReadHalf(pieces[1..], Min(n, framesRead + pieces[0]), n);
    }
  }

  /** Whether some of the pieces, taken in order, make up half of `n` but not all of it. */
  ghost predicate Stalls(pieces: seq<nat>, framesRead: nat, n: nat) {
    exists k: nat :: k <= |pieces| && n <= 2 * (framesRead + Total(pieces[..k])) && framesRead + Total(pieces[..k]) < n
  }

  lemma StallsStep(pieces: seq<nat>, framesRead: nat, n: nat)
    requires |pieces| > 0 && 2 * framesRead < n
    ensures Stalls(pieces, framesRead, n) <==> Stalls(pieces[1..], framesRead + pieces[0], n)
  {
    var first := framesRead + pieces[0];
    if Stalls(pieces, framesRead, n) {
      var k: nat :| k <= |pieces| && n <= 2 * (framesRead + Total(pieces[..k])) && framesRead + Total(pieces[..k]) < n;
      assert pieces[..k][1..] == pieces[1..][..k - 1];
    }
    if Stalls(pieces[1..], first, n) {
      var k: nat :| k <= |pieces| - 1 && n <= 2 * (first + Total(pieces[1..][..k])) && first + Total(pieces[1..][..k]) < n;
      assert pieces[..k + 1][1..] == pieces[1..][..k];
      assert framesRead + Total(pieces[..k + 1]) == first + Total(pieces[1..][..k]);
    }
  }

  /**
   * A call returns all `n` frames if and only if that many are available and no run of
   * pieces from the first on reaches half of `n` without reaching `n`.
   */
  lemma {:induction false} FullExactly(pieces: seq<nat>, framesRead: nat, n: nat)
    requires framesRead <= n
    ensures FramesRead(pieces, framesRead, n) == n <==>
              framesRead + Total(pieces) >= n && !Stalls(pieces, framesRead, n)
    decreases |pieces|
  {
    if 2 * framesRead >= n {
      assert pieces[..0] == [];
      assert framesRead < n ==> Stalls(pieces, framesRead, n);
      if framesRead == n {
        forall k: nat | k <= |pieces|
          ensures framesRead + Total(pieces[..k]) >= n
        {
        }
      }
    } else if |pieces| > 0 {
      StallsStep(pieces, framesRead, n);
      var first := framesRead + pieces[0];
      if first <= n {
        FullExactly(pieces[1..], first, n);
      } else {
        assert !Stalls(pieces[1..], first, n);
      }
    }
  }

  /** What a decode reports: the position behind the frames, and the frames. */
  datatype Callback = Callback(index: int, count: nat, samples: seq<real>)

  /** One decode for `n` frames at `position`: a slice of the stream, at least half of it unless the stream ends. */
  ghost predicate HeardOne(r: Reader, position: nat, n: nat, c: Callback)
    requires r.Valid()
  {
    && c.count <= n && position + c.count <= r.length && c.index == position + c.count
    && (position + c.count) * r.channels <= |r.stream|
    && c.samples == Span(r.stream, position, position + c.count, r.channels)
    && (n <= 2 * c.count || position + c.count == r.length)
  }

  /** One operation of a run: what it reports, and the position it leads to. */
  ghost predicate HeardStep(r: Reader, position: nat, op: Operation, reports: seq<Callback>, next: int)
    requires r.Valid()
  {
    match op
    case Seek(frame) => reports == [] && next == frame
    case Flush => reports == [] && next == position
    case Decode(n) => |reports| == 1 && HeardOne(r, position, n, reports[0]) && next == position + reports[0].count
  }

  lemma HeardPush(r: Reader, position: nat, ops: seq<Operation>, first: seq<Callback>, rest: seq<Callback>, next: nat)
    requires r.Valid() && |ops| > 0
    requires HeardStep(r, position, ops[0], first, next) && Heard(r, next, ops[1..], rest)
    ensures Heard(r, position, ops, first + rest)
  {
    assert (first + rest)[|first|..] == rest;
  }

  lemma HeardNothing(r: Reader, position: nat)
    requires r.Valid()
    ensures Heard(r, position, [], [])
  {
  }

  /** What the decodes of a run report, in order. */
  ghost predicate Heard(r: Reader, position: nat, ops: seq<Operation>, reports: seq<Callback>)
    requires r.Valid()
    decreases |ops|
  {
    if |ops| == 0 then reports == [] else
      match ops[0]
      case Seek(frame) => Heard(r, frame, ops[1..], reports)
      case Flush => Heard(r, position, ops[1..], reports)
      case Decode(n) =>
        |reports| > 0 && HeardOne(r, position, n, reports[0])
        && Heard(r, position + reports[0].count, ops[1..], reports[1..])
  }

  function Chunks(reports: seq<Callback>): seq<seq<real>> {
    if |reports| == 0 then [] else [reports[0].samples] + Chunks(reports[1..])
  }

  function Counts(reports: seq<Callback>): nat {
    if |reports| == 0 then 0 else reports[0].count + Counts(reports[1..])
  }

  /** However short the reads are, between two seeks they hand out one slice of the stream. */
  lemma {:induction false} HeardIsOneSlice(r: Reader, position: nat, ops: seq<Operation>, reports: seq<Callback>)
    requires r.Valid() && SeekFree(ops) && position <= r.length && Heard(r, position, ops, reports)
    ensures position + Counts(reports) <= r.length
    ensures (position + Counts(reports)) * r.channels <= |r.stream|
    ensures Flatten(Chunks(reports)) == Span(r.stream, position, position + Counts(reports), r.channels)
    decreases |ops|
  {
    Scale(position, r.length, r.channels);
    if |ops| > 0 {
      assert SeekFree(ops[1..]);
      if ops[0].Decode? {
        var next := position + reports[0].count;
        HeardIsOneSlice(r, next, ops[1..], reports[1..]);
        var last := next + Counts(reports[1..]);
        Scale(last, r.length, r.channels);
        SpanJoin(r.stream, position, next, last, r.channels);
        assert ([reports[0].samples] + Chunks(reports[1..]))[1..] == Chunks(reports[1..]);
      } else {
        HeardIsOneSlice(r, position, ops[1..], reports);
      }
    }
  }
}
