/**
 * The DASH to HLS decoder: a cache of decoded samples over a timeline of segments
 * that are fetched, converted and decoded whole.
 */
module DashTimeline {
  import opened Frames
  import opened Truncation

  datatype Segment = Segment(duration: nat, timescale: nat)

  /** Frames the encoder puts in front of the first real one. */
  const START_JUNK: nat := 1024

  datatype Timeline = Timeline(segments: seq<Segment>, sampleRate: real, channels: nat)
  {
    ghost predicate Valid() {
      && |segments| > 0
      && channels > 0
      && sampleRate >= 0.0
      && forall i :: 0 <= i < |segments| ==> segments[i].timescale > 0
    }

    function Time(i: nat): (t: real)
      requires Valid() && i < |segments|
      ensures t >= 0.0
    {
      segments[i].duration as real * (1.0 / segments[i].timescale as real)
    }

    /** Segment length in frames, before any truncation. */
    function ExactFrames(i: nat): (x: real)
      requires Valid() && i < |segments|
      ensures x >= 0.0
    {
      Time(i) * sampleRate
    }

    /** How many frames `exhaustDecoder` asks the inner decoder for. */
    function Requested(i: nat): (n: nat)
      requires Valid() && i < |segments|
    {
      ToLong(ExactFrames(i))
    }

    /** Value of `time_frame_index` once the search has passed segment `i`. */
    function Boundary(i: nat): int
      requires Valid() && i < |segments|
    {
      if i == 0 then ToLong(0.0 + ExactFrames(0)) - START_JUNK
      else ToLong(Boundary(i - 1) as real + ExactFrames(i))
    }

    function LastBoundary(): int
      requires Valid()
    {
      Boundary(|segments| - 1)
    }

    function TotalTime(n: nat): (t: real)
      requires Valid() && n <= |segments|
      ensures t >= 0.0
    {
      if n == 0 then 0.0 else TotalTime(n - 1) + Time(n - 1)
    }

    /** The untruncated position of the end of segment `i`. */
    function ExactEnd(i: nat): real
      requires Valid() && i < |segments|
    {
      TotalTime(i + 1) * sampleRate - START_JUNK as real
    }

    /** `frames()`. */
    function TotalFrames(): int
      requires Valid()
    {
      ToLong(ExactEnd(|segments| - 1))
    }

    /** The segment the search settles on. */
    function SegmentAt(current: int, from: nat): (i: nat)
      requires Valid() && from < |segments|
      ensures from <= i < |segments|
      decreases |segments| - from
    {
      if Boundary(from) > current || from == |segments| - 1 then from else SegmentAt(current, from + 1)
    }

    /** First frame of segment `i` as the search sees it, junk included for segment 0. */
    function FirstFrame(i: nat): int
      requires Valid() && i < |segments|
    {
      if i == 0 then 0 - START_JUNK else Boundary(i - 1)
    }
  }

  /** The request for a segment is its duration in frames, rounded down. */
  lemma RequestedIs(t: Timeline, i: nat)
    requires t.Valid() && i < |t.segments|
    ensures RoundedDown(t.segments[i], t.sampleRate, t.Requested(i))
  {
    var s := t.segments[i];
    var ts, d := s.timescale as real, s.duration as real;
    Fraction(d, ts, t.sampleRate);
    assert t.ExactFrames(i) * ts == d * t.sampleRate;
    Between(t.Requested(i) as real, t.ExactFrames(i), t.Requested(i) as real + 1.0, ts);
  }

  ghost predicate RoundedDown(s: Segment, sampleRate: real, frames: nat) {
    frames as real * s.timescale as real <= s.duration as real * sampleRate < (frames + 1) as real * s.timescale as real
  }

  lemma Fraction(d: real, ts: real, rate: real)
    requires ts > 0.0
    ensures d * (1.0 / ts) * rate * ts == d * rate
  {
    var inverse := 1.0 / ts;
    assert inverse * ts == 1.0;
    assert d * inverse * rate * ts == d * rate * (inverse * ts);
  }

  lemma Between(low: real, x: real, high: real, c: real)
    requires low <= x < high && c > 0.0
    ensures low * c <= x * c < high * c
  {
  }

  /** Whether every duration is a whole number of `ticks` per second. */
  ghost predicate CommonTimescale(segments: seq<Segment>, ticks: nat) {
    ticks > 0 && forall i :: 0 <= i < |segments| ==> segments[i].timescale > 0 && ticks % segments[i].timescale == 0
  }

  /** The duration of the first `n` segments in such ticks. */
  ghost function Ticks(segments: seq<Segment>, ticks: nat, n: nat): nat
    requires CommonTimescale(segments, ticks) && n <= |segments|
  {
    if n == 0 then 0 else Ticks(segments, ticks, n - 1) + segments[n - 1].duration * (ticks / segments[n - 1].timescale)
  }

  lemma {:induction false} TotalTimeIs(t: Timeline, ticks: nat, n: nat)
    requires t.Valid() && CommonTimescale(t.segments, ticks) && n <= |t.segments|
    ensures ticks > 0 && t.TotalTime(n) * ticks as real == Ticks(t.segments, ticks, n) as real
  {
    hide Timeline.Boundary, Timeline.Time;
    if n > 0 {
      var s := t.segments[n - 1];
      TotalTimeIs(t, ticks, n - 1);
      OneTime(t, n - 1, ticks);
      AddTicks(t.TotalTime(n - 1), t.Time(n - 1), ticks as real, Ticks(t.segments, ticks, n - 1), s.duration * (ticks / s.timescale));
    }
  }

  lemma AddTicks(a: real, b: real, ticks: real, m: int, n: int)
    requires a * ticks == m as real && b * ticks == n as real
    ensures (a + b) * ticks == (m + n) as real
  {
  }

  lemma OneTime(t: Timeline, i: nat, ticks: nat)
    requires t.Valid() && i < |t.segments| && CommonTimescale(t.segments, ticks)
    ensures t.Time(i) * ticks as real == (t.segments[i].duration * (ticks / t.segments[i].timescale)) as real
  {
    var d, ts := t.segments[i].duration, t.segments[i].timescale;
    var q := ticks / ts;
    assert ticks == q * ts;
    TimesQuotient(d as real, ts as real, q as real);
    WholeProduct(q, ts);
    WholeProduct(d, q);
  }

  lemma TimesQuotient(d: real, ts: real, q: real)
    requires ts > 0.0
    ensures d * (1.0 / ts) * (q * ts) == d * q
  {
    var inverse := 1.0 / ts;
    assert inverse * ts == 1.0;
    assert d * inverse * (q * ts) == d * q * (inverse * ts);
  }

  lemma WholeProduct(a: int, b: int)
    ensures a as real * b as real == (a * b) as real
  {
  }

  /** `frames()` is the whole duration in frames, rounded down, less 1024. */
  lemma TotalFramesIs(t: Timeline, ticks: nat)
    requires t.Valid() && t.Boundary(0) >= 0 && CommonTimescale(t.segments, ticks)
    ensures t.TotalFrames() >= 0
    ensures RoundedDown(Segment(Ticks(t.segments, ticks, |t.segments|), ticks), t.sampleRate, t.TotalFrames() + 1024)
  {
    hide *;
    var n, total, frames := |t.segments|, t.TotalTime(|t.segments|), t.TotalFrames();
    TotalFloor(t);
    TotalTimeIs(t, ticks, n);
    Between((frames + 1024) as real, total * t.sampleRate, (frames + 1025) as real, ticks as real);
    Exchange(total, t.sampleRate, ticks as real);
    FewerFrames(Ticks(t.segments, ticks, n), ticks, t.sampleRate, frames + 1024);
  }

  lemma TotalFloor(t: Timeline)
    requires t.Valid() && t.Boundary(0) >= 0
    ensures t.Valid() && |t.segments| > 0 && t.TotalFrames() >= 0
    ensures (t.TotalFrames() + 1024) as real <= t.TotalTime(|t.segments|) * t.sampleRate < (t.TotalFrames() + 1025) as real
  {
    hide Timeline.Boundary, Timeline.TotalTime;
    BoundaryDrift(t, |t.segments| - 1);
    BoundariesAscend(t, 0, |t.segments| - 1);
    assert t.ExactEnd(|t.segments| - 1) >= 0.0;
  }

  lemma Exchange(a: real, b: real, c: real)
    ensures a * b * c == a * c * b
  {
  }

  lemma FewerFrames(duration: nat, ticks: nat, sampleRate: real, frames: nat)
    requires frames as real * ticks as real <= duration as real * sampleRate < (frames + 1) as real * ticks as real
    ensures RoundedDown(Segment(duration, ticks), sampleRate, frames)
  {
  }

  /** Boundaries advance by exactly the number of frames that are requested. */
  lemma BoundaryStep(t: Timeline, i: nat)
    requires t.Valid() && i < |t.segments| && t.Boundary(0) >= 0
    ensures t.Boundary(i) >= 0
    ensures t.Boundary(i) - t.FirstFrame(i) == t.Requested(i)
  {
    if i > 0 {
      BoundaryStep(t, i - 1);
      AccumulateExact(t.Boundary(i - 1), t.ExactFrames(i));
    }
  }

  /**
   * When the first boundary is negative a step can drift: it is exact only if the
   * boundary does not stay below zero or the segment holds a whole number of frames.
   */
  lemma BoundaryStepExact(t: Timeline, i: nat)
    requires t.Valid() && 0 < i < |t.segments|
    ensures t.Boundary(i) - t.Boundary(i - 1) == t.Requested(i)
       <==> (t.Boundary(i - 1) + t.Requested(i) >= 0 || t.ExactFrames(i) == t.Requested(i) as real)
  {
    AccumulateExact(t.Boundary(i - 1), t.ExactFrames(i));
  }

  /** A timeline of sub-second segments whose boundaries do drift. */
  lemma ShortSegmentsDrift()
    ensures var t := Timeline([Segment(1, 2), Segment(1, 2)], 3.0, 2);
            t.Valid() && t.Boundary(1) - t.Boundary(0) == 2 && t.Requested(1) == 1
  {
    var t := Timeline([Segment(1, 2), Segment(1, 2)], 3.0, 2);
    assert t.ExactFrames(0) == 1.5 && t.ExactFrames(1) == 1.5;
    ToLongUnique(1.5, 1);
    assert t.Boundary(0) == -1023;
    assert t.Boundary(1) == ToLong(-1021.5);
  }

  lemma BoundariesAscend(t: Timeline, i: nat, j: nat)
    requires t.Valid() && i <= j < |t.segments| && t.Boundary(0) >= 0
    ensures 0 <= t.Boundary(i) <= t.Boundary(j)
  {
    BoundaryStep(t, j);
    if i < j {
      BoundariesAscend(t, i, j - 1);
    }
  }

  /** The frames requested for the first `n` segments. */
  ghost function RequestedBefore(t: Timeline, n: nat): nat
    requires t.Valid() && n <= |t.segments|
  {
    if n == 0 then 0 else RequestedBefore(t, n - 1) + t.Requested(n - 1)
  }

  /** A boundary is the frames requested up to it, less the start junk. */
  lemma {:induction false} BoundarySum(t: Timeline, i: nat)
    requires t.Valid() && i < |t.segments| && t.Boundary(0) >= 0
    ensures t.Boundary(i) == RequestedBefore(t, i + 1) - 1024
  {
    BoundaryStep(t, i);
    if i > 0 {
      BoundarySum(t, i - 1);
    } else {
      assert RequestedBefore(t, 0) == 0;
    }
  }

  lemma Distribute(a: real, b: real, c: real)
    ensures (a + b) * c == a * c + b * c
  {
  }

  lemma ExactEndStep(t: Timeline, i: nat)
    requires t.Valid() && 0 < i < |t.segments|
    ensures t.ExactEnd(i) == t.ExactEnd(i - 1) + t.ExactFrames(i)
  {
    Distribute(t.TotalTime(i), t.Time(i), t.sampleRate);
  }

  lemma ExactEndStart(t: Timeline)
    requires t.Valid()
    ensures t.ExactEnd(0) == t.ExactFrames(0) - START_JUNK as real
  {
    assert t.TotalTime(1) == t.TotalTime(0) + t.Time(0) == t.Time(0);
  }

  lemma {:induction false} BoundaryDrift(t: Timeline, i: nat)
    requires t.Valid() && i < |t.segments| && t.Boundary(0) >= 0
    ensures t.Boundary(i) as real <= t.ExactEnd(i) < (t.Boundary(i) + i + 1) as real
  {
    BoundaryStep(t, i);
    if i == 0 {
      ExactEndStart(t);
    } else {
      BoundaryDrift(t, i - 1);
      ExactEndStep(t, i);
    }
  }

  /** The searchable span falls short of `frames()` by less than one frame per segment. */
  lemma DriftBound(t: Timeline)
    requires t.Valid() && t.Boundary(0) >= 0
    ensures t.LastBoundary() <= t.TotalFrames() < t.LastBoundary() + |t.segments|
  {
    var last := |t.segments| - 1;
    BoundaryDrift(t, last);
    BoundariesAscend(t, 0, last);
    WholePart(t.ExactEnd(last), t.LastBoundary(), |t.segments|);
  }

  lemma WholePart(x: real, low: nat, width: nat)
    requires low as real <= x < (low + width) as real
    ensures low <= ToLong(x) < low + width
  {
  }

  lemma {:induction false} SegmentAtMeaning(t: Timeline, current: int, from: nat)
    requires t.Valid() && from < |t.segments|
    ensures forall j :: from <= j < t.SegmentAt(current, from) ==> t.Boundary(j) <= current
    ensures t.SegmentAt(current, from) < |t.segments| - 1 ==> t.Boundary(t.SegmentAt(current, from)) > current
    decreases |t.segments| - from
  {
    if t.Boundary(from) > current || from == |t.segments| - 1 {
    } else {
      SegmentAtMeaning(t, current, from + 1);
    }
  }

  /**
   * The search finds the only segment whose half-open range holds `current`, or the
   * last segment exactly when `current` lies past the last boundary.
   */
  lemma SearchIsUnique(t: Timeline, current: nat, i: nat)
    requires t.Valid() && i < |t.segments| && t.Boundary(0) >= 0
    ensures t.FirstFrame(i) <= current < t.Boundary(i)
       <==> (i == t.SegmentAt(current, 0) && current < t.LastBoundary())
    ensures current >= t.LastBoundary() ==> t.SegmentAt(current, 0) == |t.segments| - 1
  {
    hide Timeline.Boundary, Timeline.SegmentAt;
    SearchFinds(t, current);
    var k := t.SegmentAt(current, 0);
    if t.FirstFrame(i) <= current < t.Boundary(i) {
      BoundariesAscend(t, i, |t.segments| - 1);
      if k < i {
        BoundariesAscend(t, k, i - 1);
      } else if i < k {
        BoundariesAscend(t, i, k - 1);
      }
    }
  }

  /** The segment holds the frame by the requests before it, 1024 less; the first and the last hold all on their side. */
  ghost predicate Held(t: Timeline, current: nat, i: nat)
    requires t.Valid() && i < |t.segments|
  {
    && (i > 0 ==> RequestedBefore(t, i) - 1024 <= current)
    && (i < |t.segments| - 1 ==> current < RequestedBefore(t, i + 1) - 1024)
  }

  lemma SegmentHolds(t: Timeline, current: nat)
    requires t.Valid() && t.Boundary(0) >= 0
    ensures Held(t, current, t.SegmentAt(current, 0))
  {
    hide Timeline.Boundary, Timeline.SegmentAt, RequestedBefore;
    var i := t.SegmentAt(current, 0);
    SegmentAtMeaning(t, current, 0);
    BoundarySum(t, i);
    if i > 0 {
      BoundarySum(t, i - 1);
    }
  }

  lemma SearchFinds(t: Timeline, current: nat)
    requires t.Valid() && t.Boundary(0) >= 0
    ensures var k := t.SegmentAt(current, 0);
            if current < t.LastBoundary() then t.FirstFrame(k) <= current < t.Boundary(k)
            else k == |t.segments| - 1
  {
    var k := t.SegmentAt(current, 0);
    SegmentAtMeaning(t, current, 0);
    if k > 0 {
      assert t.Boundary(k - 1) <= current;
    }
    if k < |t.segments| - 1 {
      BoundariesAscend(t, k, |t.segments| - 1);
    }
  }
}

module DashToHls {
  import opened DashTimeline
  import opened Frames
  import opened Session
  import opened Truncation

  datatype Cached = Cached(samples: seq<real>) | Corrupt

  /** The first `n` chunks joined. */
  function Concat(chunks: seq<seq<real>>, n: nat): seq<real>
    requires n <= |chunks|
  {
    if n == 0 then [] else Concat(chunks, n - 1) + chunks[n - 1]
  }

  lemma {:induction false} ConcatExtends(chunks: seq<seq<real>>, n: nat, m: nat)
    requires n <= m <= |chunks|
    ensures Concat(chunks, n) <= Concat(chunks, m)
  {
    if n < m {
      ConcatExtends(chunks, n, m - 1);
    }
  }

  lemma ChunkInWhole(chunks: seq<seq<real>>, i: nat)
    requires i < |chunks|
    ensures Concat(chunks, i) + chunks[i] <= Concat(chunks, |chunks|)
  {
    ConcatExtends(chunks, i + 1, |chunks|);
  }

  /** `erase(begin, begin + frames * channels)`; `Corrupt` when that runs past the end. */
  function Erase(samples: seq<real>, frames: nat, ch: nat): Cached {
    Scale(0, frames, ch);
    if frames * ch > |samples| then Corrupt else Cached(samples[frames * ch..])
  }

  /** Append a segment, remove start junk, clip: one round of the loading loop. */
  function Refill(samples: seq<real>, segment: seq<real>, current: nat, start: int, ch: nat): Cached
    requires ch > 0
  {
    var grown := samples + segment;
    var junk := if current < START_JUNK then Min(START_JUNK - current, Count(grown, ch)) else 0;
    var trimmed := Erase(grown, junk, ch);
    if trimmed.Cached? && Count(samples, ch) == 0 && current > start then
      Erase(trimmed.samples, current - start, ch)
    else
      trimmed
  }

  lemma EraseFrames(samples: seq<real>, total: nat, frames: nat, ch: nat)
    requires ch > 0 && |samples| == total * ch
    ensures Erase(samples, frames, ch)
         == if frames > total then Corrupt else Cached(Span(samples, frames, total, ch))
  {
    if frames <= total {
      Scale(frames, total, ch);
    } else {
      Scale(total + 1, frames, ch);
    }
  }

  lemma EraseTwice(samples: seq<real>, total: nat, first: nat, second: nat, ch: nat)
    requires ch > 0 && |samples| == total * ch && first <= total
    ensures Erase(samples, first, ch) == Cached(Span(samples, first, total, ch))
    ensures Erase(Span(samples, first, total, ch), second, ch)
         == if first + second > total then Corrupt else Cached(Span(samples, first + second, total, ch))
  {
    EraseFrames(samples, total, first, ch);
    EraseFrames(Span(samples, first, total, ch), total - first, second, ch);
    if first + second <= total {
      SpanOfSpan(samples, first, total, second, total - first, ch);
    }
  }

  lemma Joined(a: seq<real>, b: seq<real>, m: nat, n: nat, ch: nat)
    requires ch > 0 && |a| == m * ch && |b| == n * ch
    ensures |a + b| == (m + n) * ch
    ensures Count(a, ch) == m && Count(b, ch) == n && Count(a + b, ch) == m + n
  {
    WholeFrames(m, ch);
    WholeFrames(n, ch);
    WholeFrames(m + n, ch);
  }

  /** One round in frames: what it removes comes off the front, junk and clip alike. */
  lemma RefillFrames(samples: seq<real>, segment: seq<real>, current: nat, start: int, ch: nat, buffered: nat, length: nat)
    requires ch > 0 && |samples| == buffered * ch && |segment| == length * ch
    ensures var junk := if current < START_JUNK then Min(START_JUNK - current, buffered + length) else 0;
            var skip := if buffered == 0 && current > start then current - start else 0;
            (buffered + length) * ch == |samples + segment|
            && Refill(samples, segment, current, start, ch)
            == if junk + skip > buffered + length then Corrupt
               else Cached(Span(samples + segment, junk + skip, buffered + length, ch))
  {
    Joined(samples, segment, buffered, length, ch);
    var junk := if current < START_JUNK then Min(START_JUNK - current, buffered + length) else 0;
    var skip := if buffered == 0 && current > start then current - start else 0;
    EraseTwice(samples + segment, buffered + length, junk, skip, ch);
  }

  /** A timeline with what the inner decoder yields for each segment, every request answered in full. */
  datatype Track = Track(timeline: Timeline, pcm: seq<seq<real>>)
  {
    ghost predicate Valid() {
      && timeline.Valid()
      && timeline.Boundary(0) >= 0
      && |pcm| == |timeline.segments|
      && forall i :: 0 <= i < |pcm| ==> |pcm[i]| == timeline.Requested(i) * timeline.channels
    }

    /** All decoded segments concatenated, minus the start junk. */
    function Stream(): (s: seq<real>)
      requires Valid()
      ensures |s| == timeline.LastBoundary() * timeline.channels
    {
      RawLength(this, |pcm|);
      BoundariesAscend(timeline, 0, |pcm| - 1);
      Scale(START_JUNK, timeline.LastBoundary() + START_JUNK, timeline.channels);
      Concat(pcm, |pcm|)[START_JUNK * timeline.channels..]
    }

    /** Value of `start_time_frame_index` when the search stops at segment `i`. */
    function SearchStart(i: nat, current: int): int
      requires timeline.Valid() && i < |timeline.segments|
    {
      if timeline.Boundary(i) <= current then timeline.Boundary(i)
      else if i == 0 then 0
      else timeline.Boundary(i - 1)
    }

    /** The cache after a round of the loading loop that loads segment `i`. */
    function AfterLoad(samples: seq<real>, current: nat, i: nat): Cached
      requires Valid() && i < |pcm|
    {
      Refill(samples, pcm[i], current, SearchStart(i, current), timeline.channels)
    }

    /** Whether a load at `current` keeps the cache aligned; see `LoadAlignsExactly`. */
    predicate Loadable(current: nat)
      requires timeline.Valid()
    {
      if current < timeline.Boundary(0) then current == 0 else current >= START_JUNK
    }
  }

  lemma {:induction false} RawLength(t: Track, n: nat)
    requires t.Valid() && n <= |t.pcm|
    ensures n > 0 ==> |Concat(t.pcm, n)| == (t.timeline.Boundary(n - 1) + START_JUNK) * t.timeline.channels
    ensures n < |t.pcm| ==> |Concat(t.pcm, n)| == (t.timeline.FirstFrame(n) + START_JUNK) * t.timeline.channels
  {
    if n > 0 {
      RawLength(t, n - 1);
      BoundaryStep(t.timeline, n - 1);
      var first, end := t.timeline.FirstFrame(n - 1) + START_JUNK, t.timeline.Boundary(n - 1) + START_JUNK;
      assert end - first == t.timeline.Requested(n - 1);
      Scale(first, end, t.timeline.channels);
    }
  }

  lemma FirstFrameOf(t: Timeline, i: nat)
    requires t.Valid() && i < |t.segments|
    ensures t.FirstFrame(i) == if i == 0 then 0 - START_JUNK else t.Boundary(i - 1)
  {
  }

  lemma SegmentRange(t: Timeline, i: nat)
    requires t.Valid() && t.Boundary(0) >= 0 && i < |t.segments|
    ensures t.FirstFrame(i) + START_JUNK >= 0
    ensures t.FirstFrame(i) <= t.Boundary(i) <= t.LastBoundary()
    ensures t.Boundary(i) - t.FirstFrame(i) == t.Requested(i)
  {
    var last := |t.segments| - 1;
    assert t.LastBoundary() == t.Boundary(last);
    hide *;
    BoundaryStep(t, i);
    BoundariesAscend(t, i, last);
    FirstFrameOf(t, i);
    if i > 0 {
      BoundariesAscend(t, 0, i - 1);
    }
  }

  /** Where segment `i` lies in the stream, from its `skip`-th frame on. */
  lemma SegmentInStream(t: Track, i: nat, skip: nat)
    requires t.Valid() && i < |t.pcm| && skip <= t.timeline.Requested(i)
    requires t.timeline.FirstFrame(i) + skip >= 0
    ensures t.timeline.FirstFrame(i) + skip <= t.timeline.Boundary(i) <= t.timeline.LastBoundary()
    ensures t.timeline.Boundary(i) * t.timeline.channels <= |t.Stream()|
    ensures 0 <= skip * t.timeline.channels <= |t.pcm[i]|
    ensures t.pcm[i][skip * t.timeline.channels..]
         == Span(t.Stream(), t.timeline.FirstFrame(i) + skip, t.timeline.Boundary(i), t.timeline.channels)
  {
    var ch, first, end := t.timeline.channels, t.timeline.FirstFrame(i), t.timeline.Boundary(i);
    SegmentRange(t.timeline, i);
    RawLength(t, i);
    ChunkInWhole(t.pcm, i);
    assert |t.pcm[i]| == (end - first) * ch;
    SegmentInRaw(Concat(t.pcm, i), t.pcm[i], Concat(t.pcm, |t.pcm|), first, end, skip, ch);
    assert t.Stream() == Concat(t.pcm, |t.pcm|)[START_JUNK * ch..];
  }

  lemma SegmentInRaw(before: seq<real>, segment: seq<real>, raw: seq<real>, first: int, end: nat, skip: nat, ch: nat)
    requires ch > 0 && 0 <= first + START_JUNK && 0 <= first + skip <= end
    requires |before| == (first + START_JUNK) * ch && |segment| == (end - first) * ch
    requires before + segment <= raw
    ensures 0 <= START_JUNK * ch <= |raw| && end * ch <= |raw| - START_JUNK * ch
    ensures 0 <= skip * ch <= |segment|
    ensures segment[skip * ch..] == Span(raw[START_JUNK * ch..], first + skip, end, ch)
  {
    Products(first, START_JUNK, end, skip, ch);
    Offsets(before, segment, raw, first * ch, START_JUNK * ch, end * ch, skip * ch);
  }

  lemma Products(first: int, junk: nat, end: nat, skip: nat, ch: nat)
    requires 0 <= first + junk && 0 <= first + skip <= end
    ensures (first + junk) * ch == first * ch + junk * ch
    ensures (end - first) * ch == end * ch - first * ch
    ensures (first + skip) * ch == first * ch + skip * ch
    ensures 0 <= junk * ch && 0 <= skip * ch && 0 <= first * ch + skip * ch <= end * ch
  {
    Scale(0, junk, ch);
    Scale(0, skip, ch);
    Scale(0, first + skip, ch);
    Scale(first + skip, end, ch);
  }

  lemma Offsets(before: seq<real>, segment: seq<real>, raw: seq<real>, first: int, junk: nat, end: nat, skip: nat)
    requires |before| == first + junk && |segment| == end - first
    requires 0 <= first + skip <= end && before + segment <= raw
    ensures end + junk <= |raw|
    ensures segment[skip..] == raw[junk..][first + skip..end]
  {
  }

  /** The cache holds the stream from `frame` to `end`, and stops at a boundary unless it is empty. */
  ghost predicate Aligned(t: Track, samples: seq<real>, frame: nat, end: nat)
    requires t.Valid()
  {
    && frame <= end
    && (samples == [] ==> frame == end)
    && (samples != [] ==>
        && (exists k: nat | k < |t.pcm| :: end == t.timeline.Boundary(k))
        && end * t.timeline.channels <= |t.Stream()|
        && samples == Span(t.Stream(), frame, end, t.timeline.channels))
  }

  /** A load that starts at a boundary starts with the first frame of the segment found. */
  lemma EdgeIsSegmentStart(t: Track, k: nat)
    requires t.Valid() && k < |t.pcm| && t.timeline.Boundary(k) < t.timeline.LastBoundary()
    ensures t.timeline.Boundary(k) >= 0
    ensures var i := t.timeline.SegmentAt(t.timeline.Boundary(k), 0);
            i > 0 && t.timeline.FirstFrame(i) == t.timeline.Boundary(k)
  {
    BoundariesAscend(t.timeline, 0, k);
    var current := t.timeline.Boundary(k);
    var i := t.timeline.SegmentAt(current, 0);
    SearchFinds(t.timeline, current);
    if i <= k {
      BoundariesAscend(t.timeline, i, k);
    } else {
      BoundariesAscend(t.timeline, k, i - 1);
    }
  }

  /** The frames one round takes off the front, and how many it should. */
  ghost function Taken(t: Track, frame: nat, end: nat, i: nat): int
    requires t.Valid() && frame <= end && i < |t.pcm|
  {
    var junk := if end < START_JUNK then Min(START_JUNK - end, end - frame + t.timeline.Requested(i)) else 0;
    var start := t.SearchStart(i, end);
    junk + (if frame == end && end > start then end - start else 0)
  }

  lemma TakenIsRight(t: Track, samples: seq<real>, frame: nat, end: nat)
    requires t.Valid() && Aligned(t, samples, frame, end) && end < t.timeline.LastBoundary()
    ensures var i := t.timeline.SegmentAt(end, 0);
            Taken(t, frame, end, i) == end - t.timeline.FirstFrame(i) <==> t.Loadable(end)
  {
    var i := t.timeline.SegmentAt(end, 0);
    SearchFinds(t.timeline, end);
    SegmentRange(t.timeline, i);
    if end < t.timeline.Boundary(0) {
      SearchIsUnique(t.timeline, end, 0);
    }
    if samples != [] {
      var k: nat :| k < |t.pcm| && end == t.timeline.Boundary(k);
      EdgeIsSegmentStart(t, k);
      BoundariesAscend(t.timeline, 0, k);
    }
  }

  lemma SpansDiffer(s: seq<real>, a: nat, m: nat, u: seq<real>, b: nat, n: nat, ch: nat)
    requires ch > 0 && a <= m && m * ch <= |s| && b <= n && n * ch <= |u| && m - a != n - b
    ensures Span(s, a, m, ch) != Span(u, b, n, ch)
  {
    WholeFrames(m - a, ch);
    WholeFrames(n - b, ch);
  }

  lemma LoadJoins(t: Track, samples: seq<real>, frame: nat, end: nat, i: nat)
    requires t.Valid() && Aligned(t, samples, frame, end)
    requires i < |t.pcm| && t.timeline.FirstFrame(i) <= end < t.timeline.Boundary(i) <= t.timeline.LastBoundary()
    requires samples != [] ==> t.timeline.FirstFrame(i) == end
    ensures t.timeline.Boundary(i) * t.timeline.channels <= |t.Stream()|
    ensures |samples| == (end - frame) * t.timeline.channels
    ensures |t.pcm[i]| == t.timeline.Requested(i) * t.timeline.channels
    ensures (end - frame + t.timeline.Requested(i)) * t.timeline.channels == |samples + t.pcm[i]|
    ensures var gap := end - t.timeline.FirstFrame(i);
            gap <= end - frame + t.timeline.Requested(i)
            && Span(samples + t.pcm[i], gap, end - frame + t.timeline.Requested(i), t.timeline.channels)
            == Span(t.Stream(), frame, t.timeline.Boundary(i), t.timeline.channels)
  {
    var ch, gap := t.timeline.channels, end - t.timeline.FirstFrame(i);
    SegmentRange(t.timeline, i);
    SegmentInStream(t, i, gap);
    assert |t.pcm[i]| == t.timeline.Requested(i) * ch;
    Joined(samples, t.pcm[i], end - frame, t.timeline.Requested(i), ch);
    EraseFrames(t.pcm[i], t.timeline.Requested(i), gap, ch);
    if samples == [] {
      assert samples + t.pcm[i] == t.pcm[i];
    } else {
      SpanJoin(t.Stream(), frame, end, t.timeline.Boundary(i), ch);
      WholeSpan(samples + t.pcm[i], end - frame + t.timeline.Requested(i), ch);
    }
  }

  lemma WholeSpan(s: seq<real>, n: nat, ch: nat)
    requires |s| == n * ch
    ensures Span(s, 0, n, ch) == s
  {
  }

  lemma LoadResult(t: Track, samples: seq<real>, frame: nat, end: nat, i: nat)
    requires t.Valid() && frame <= end && i < |t.pcm|
    requires |samples| == (end - frame) * t.timeline.channels
    requires (end - frame + t.timeline.Requested(i)) * t.timeline.channels == |samples + t.pcm[i]|
    ensures var total := end - frame + t.timeline.Requested(i);
            t.AfterLoad(samples, end, i)
            == if Taken(t, frame, end, i) > total then Corrupt
               else Cached(Span(samples + t.pcm[i], Taken(t, frame, end, i), total, t.timeline.channels))
  {
    RefillFrames(samples, t.pcm[i], end, t.SearchStart(i, end), t.timeline.channels, end - frame, t.timeline.Requested(i));
  }

  /** The segment the search finds is a sensible one to append. */
  lemma LoadIsInSpan(t: Track, samples: seq<real>, frame: nat, end: nat)
    requires t.Valid() && Aligned(t, samples, frame, end) && end < t.timeline.LastBoundary()
    ensures var i := t.timeline.SegmentAt(end, 0);
            && t.timeline.FirstFrame(i) <= end < t.timeline.Boundary(i) <= t.timeline.LastBoundary()
            && (samples != [] ==> t.timeline.FirstFrame(i) == end)
            && t.timeline.Boundary(i) - t.timeline.FirstFrame(i) == t.timeline.Requested(i)
  {
    var i := t.timeline.SegmentAt(end, 0);
    SearchFinds(t.timeline, end);
    SegmentRange(t.timeline, i);
    if samples != [] {
      var k: nat :| k < |t.pcm| && end == t.timeline.Boundary(k);
      EdgeIsSegmentStart(t, k);
    }
  }

  ghost predicate LoadsAligned(t: Track, samples: seq<real>, frame: nat, end: nat)
    requires t.Valid() && frame <= end
  {
    var i := t.timeline.SegmentAt(end, 0);
    && end < t.timeline.Boundary(i) <= t.timeline.LastBoundary()
    && t.timeline.Boundary(i) * t.timeline.channels <= |t.Stream()|
    && t.AfterLoad(samples, end, i) == Cached(Span(t.Stream(), frame, t.timeline.Boundary(i), t.timeline.channels))
  }

  /**
   * A load keeps the cache a window of the stream if and only if segment 0 is loaded at
   * frame 0 and every other segment at or past the start junk.  Anywhere else the junk
   * removal takes frames that are not junk, or leaves junk in.
   */
  lemma LoadAlignsExactly(t: Track, samples: seq<real>, frame: nat, end: nat)
    requires t.Valid() && Aligned(t, samples, frame, end) && end < t.timeline.LastBoundary()
    ensures LoadsAligned(t, samples, frame, end) <==> t.Loadable(end)
  {
    hide Track.AfterLoad, Track.Stream, Timeline.SegmentAt, Timeline.Boundary;
    var i := t.timeline.SegmentAt(end, 0);
    LoadIsInSpan(t, samples, frame, end);
    LoadJoins(t, samples, frame, end, i);
    LoadResult(t, samples, frame, end, i);
    TakenIsRight(t, samples, frame, end);
    var taken, total := Taken(t, frame, end, i), end - frame + t.timeline.Requested(i);
    if !t.Loadable(end) && taken <= total {
      SpansDiffer(samples + t.pcm[i], taken, total, t.Stream(), frame, t.timeline.Boundary(i), t.timeline.channels);
    }
  }

  /**
   * What an empty cache gets from loading segment 0 at a frame inside it: the stream from
   * frame 0 when `current` is within the junk length, and 1024 frames late otherwise.
   */
  lemma MidSegmentLoad(t: Track, current: nat)
    requires t.Valid() && 0 < current < t.timeline.Boundary(0)
    ensures !t.Loadable(current)
    ensures t.timeline.Boundary(0) * t.timeline.channels <= |t.Stream()|
    ensures t.AfterLoad([], current, 0)
         == Cached(Span(t.Stream(), if current < START_JUNK then 0 else current - START_JUNK,
                        t.timeline.Boundary(0), t.timeline.channels))
  {
    var taken := if current < START_JUNK then START_JUNK else current;
    SegmentRange(t.timeline, 0);
    assert |t.pcm[0]| == t.timeline.Requested(0) * t.timeline.channels;
    SegmentInStream(t, 0, taken);
    assert [] + t.pcm[0] == t.pcm[0];
    LoadResult(t, [], current, current, 0);
    EraseFrames(t.pcm[0], t.timeline.Requested(0), taken, t.timeline.channels);
  }

  /** At or past the last boundary the search settles on the last segment. */
  lemma PastTheEnd(t: Timeline, current: nat)
    requires t.Valid() && t.Boundary(0) >= 0 && t.LastBoundary() <= current
    ensures t.SegmentAt(current, 0) == |t.segments| - 1
  {
    SearchFinds(t, current);
    var i := t.SegmentAt(current, 0);
    BoundariesAscend(t, i, |t.segments| - 1);
  }

  /**
   * A load at or past the last boundary loads the last segment again.  Behind a cache that
   * is not empty the whole segment follows; an empty cache gets it from as many frames on as
   * `current` lies past the boundary: what was handed out one segment before.
   */
  lemma LastSegmentAgain(t: Track, samples: seq<real>, buffered: nat, current: nat)
    requires t.Valid() && |samples| == buffered * t.timeline.channels
    requires START_JUNK <= t.timeline.LastBoundary() <= current
    ensures var last := |t.pcm| - 1;
            var past := current - t.timeline.LastBoundary();
            && t.timeline.SegmentAt(current, 0) == last
            && (buffered > 0 ==> t.AfterLoad(samples, current, last) == Cached(samples + t.pcm[last]))
            && (buffered == 0 && past > t.timeline.Requested(last) ==> t.AfterLoad(samples, current, last) == Corrupt)
            && (buffered == 0 && past <= t.timeline.Requested(last) ==>
                  && 0 <= past * t.timeline.channels <= |t.pcm[last]|
                  && t.AfterLoad(samples, current, last) == Cached(t.pcm[last][past * t.timeline.channels..]))
            && (buffered == 0 && past <= t.timeline.Requested(last) && t.timeline.FirstFrame(last) + past >= 0 ==>
                  && t.timeline.LastBoundary() * t.timeline.channels <= |t.Stream()|
                  && t.timeline.FirstFrame(last) + past <= t.timeline.LastBoundary()
                  && t.AfterLoad(samples, current, last)
                  == Cached(Span(t.Stream(), t.timeline.FirstFrame(last) + past, t.timeline.LastBoundary(), t.timeline.channels)))
  {
    hide Refill, Track.Stream, Timeline.SegmentAt, Timeline.Boundary;
    var last, ch := |t.pcm| - 1, t.timeline.channels;
    var past, length := current - t.timeline.LastBoundary(), t.timeline.Requested(|t.pcm| - 1);
    PastTheEnd(t.timeline, current);
    assert |t.pcm[last]| == length * ch;
    RefillFrames(samples, t.pcm[last], current, t.SearchStart(last, current), ch, buffered, length);
    if buffered > 0 {
      WholeSpan(samples + t.pcm[last], buffered + length, ch);
    } else if past <= length {
      assert samples + t.pcm[last] == t.pcm[last];
      Scale(0, past, ch);
      Scale(past, length, ch);
      EraseFrames(t.pcm[last], length, past, ch);
      if t.timeline.FirstFrame(last) + past >= 0 {
        SegmentInStream(t, last, past);
      }
    }
  }

  function Repeat(segment: seq<real>, k: nat): seq<real> {
    if k == 0 then [] else Repeat(segment, k - 1) + segment
  }

  /** Whether a read past the last boundary ends: the last segment must have frames behind the position. */
  ghost predicate PastReadable(t: Track, frame: nat)
    requires t.Valid()
  {
    frame - t.timeline.LastBoundary() < t.timeline.Requested(|t.pcm| - 1) && t.timeline.Requested(|t.pcm| - 1) > 0
  }

  /** The stream from `frame` to its end, or the rest of the last segment behind it, and then the last segment `k` times. */
  ghost function Past(t: Track, frame: nat, k: nat): seq<real>
    requires t.Valid() && PastReadable(t, frame)
  {
    var ch, last, lb := t.timeline.channels, |t.pcm| - 1, t.timeline.LastBoundary();
    BoundariesAscend(t.timeline, 0, last);
    if frame <= lb then Span(t.Stream(), frame, lb, ch) + Repeat(t.pcm[last], k)
    else
      Scale(0, frame - lb, ch);
      Scale(frame - lb, t.timeline.Requested(last), ch);
      t.pcm[last][(frame - lb) * ch..] + Repeat(t.pcm[last], k)
  }

  /** The frames of it before the repetition. */
  ghost function PastHead(t: Track, frame: nat): nat
    requires t.Valid() && PastReadable(t, frame)
  {
    if frame <= t.timeline.LastBoundary() then t.timeline.LastBoundary() - frame
    else t.timeline.Requested(|t.pcm| - 1) - (frame - t.timeline.LastBoundary())
  }

  lemma {:induction false} RepeatLength(segment: seq<real>, k: nat, frames: nat, ch: nat)
    requires |segment| == frames * ch
    ensures |Repeat(segment, k)| == k * frames * ch && k * frames >= 0
  {
    Scale(0, k, frames);
    if k > 0 {
      RepeatLength(segment, k - 1, frames, ch);
      AddFrames(k - 1, 1, frames);
      AddFrames((k - 1) * frames, frames, ch);
    }
  }

  lemma {:induction false} RepeatPrefix(segment: seq<real>, k: nat, m: nat)
    requires k <= m
    ensures Repeat(segment, k) <= Repeat(segment, m)
  {
    if k < m {
      RepeatPrefix(segment, k, m - 1);
    }
  }

  lemma PastLength(t: Track, frame: nat, k: nat)
    requires t.Valid() && PastReadable(t, frame)
    ensures |Past(t, frame, k)| == PastHead(t, frame) * t.timeline.channels + |Repeat(t.pcm[|t.pcm| - 1], k)|
  {
    hide Track.Stream, Timeline.Boundary, Timeline.Requested, Repeat, Span;
    var ch, last, lb := t.timeline.channels, |t.pcm| - 1, t.timeline.LastBoundary();
    BoundariesAscend(t.timeline, 0, last);
    assert |t.pcm[last]| == t.timeline.Requested(last) * ch;
    if frame > lb {
      Scale(0, frame - lb, ch);
      Scale(frame - lb, t.timeline.Requested(last), ch);
    }
  }

  lemma PastCounts(t: Track, frame: nat, k: nat)
    requires t.Valid() && PastReadable(t, frame)
    ensures var length := PastHead(t, frame) + k * t.timeline.Requested(|t.pcm| - 1);
            && length >= k && |Past(t, frame, k)| == length * t.timeline.channels
            && Count(Past(t, frame, k), t.timeline.channels) == length
  {
    var ch, last := t.timeline.channels, |t.pcm| - 1;
    assert |t.pcm[last]| == t.timeline.Requested(last) * ch;
    hide Track.Stream, Timeline.Boundary, Timeline.Requested, Timeline.LastBoundary, Repeat, Past, PastHead, Count;
    PastLength(t, frame, k);
    RepeatLength(t.pcm[last], k, t.timeline.Requested(last), ch);
    LengthOf(Past(t, frame, k), PastHead(t, frame), t.timeline.Requested(last), k, ch);
  }

  lemma LengthOf(s: seq<real>, head: nat, frames: nat, k: nat, ch: nat)
    requires frames > 0 && ch > 0 && |s| == head * ch + k * frames * ch
    ensures head + k * frames >= k && |s| == (head + k * frames) * ch && Count(s, ch) == head + k * frames
  {
    Scale(1, frames, k);
    Scale(0, k, frames);
    AddFrames(head, k * frames, ch);
    WholeFrames(head + k * frames, ch);
  }

  lemma PastPrefix(t: Track, frame: nat, k: nat, m: nat)
    requires t.Valid() && PastReadable(t, frame) && k <= m
    ensures Past(t, frame, k) <= Past(t, frame, m)
  {
    hide Track.Stream, Timeline.Boundary, Timeline.Requested, Repeat;
    RepeatPrefix(t.pcm[|t.pcm| - 1], k, m);
  }

  /** How far the loop loads within the stream. */
  ghost function Goal(t: Track, frame: nat, possible: nat): nat
    requires t.Valid()
  {
    BoundariesAscend(t.timeline, 0, |t.pcm| - 1);
    Min(frame + possible, t.timeline.LastBoundary())
  }

  ghost predicate Beyond(t: Track, frame: nat, possible: nat)
    requires t.Valid()
  {
    possible > 0 && frame + possible > t.timeline.LastBoundary()
  }

  /** Whether the loads of a decode for `possible` frames are all sound, and end. */
  ghost predicate MayLoad(t: Track, frame: nat, end: nat, possible: nat)
    requires t.Valid()
  {
    && (end < Goal(t, frame, possible) ==> t.Loadable(end))
    && (Beyond(t, frame, possible) ==> PastReadable(t, frame))
  }

  /** What holds of the cache in the loading loop: a window of the stream, or the stream to its end and more. */
  ghost predicate Loading(t: Track, samples: seq<real>, frame: nat, end: nat, possible: nat, k: nat)
    requires t.Valid()
  {
    var current := frame + Count(samples, t.timeline.channels);
    && t.timeline.Boundary(0) >= START_JUNK && MayLoad(t, frame, end, possible)
    && if current < t.timeline.LastBoundary() || !Beyond(t, frame, possible) then
         && Aligned(t, samples, frame, current) && LoadedSoFar(t, end, Goal(t, frame, possible), current)
         && (current < Goal(t, frame, possible) ==> t.Loadable(current))
       else PastCache(t, samples, frame, k)
  }

  ghost predicate PastCache(t: Track, samples: seq<real>, frame: nat, k: nat)
    requires t.Valid()
  {
    PastReadable(t, frame) && (samples == Past(t, frame, k) || (frame > t.timeline.LastBoundary() && samples == []))
  }

  /** A cache that ends at the last boundary holds the rest of the stream. */
  lemma StreamLoaded(t: Track, samples: seq<real>, frame: nat, current: nat)
    requires t.Valid() && Aligned(t, samples, frame, current) && current >= t.timeline.LastBoundary() && PastReadable(t, frame)
    ensures PastCache(t, samples, frame, 0)
  {
    if samples != [] {
      var k: nat :| k < |t.pcm| && current == t.timeline.Boundary(k);
      BoundariesAscend(t.timeline, k, |t.pcm| - 1);
    }
  }

  lemma LoadingStarts(t: Track, samples: seq<real>, frame: nat, end: nat, possible: nat)
    requires t.Valid() && t.timeline.Boundary(0) >= START_JUNK && MayLoad(t, frame, end, possible)
    requires Aligned(t, samples, frame, end) && end == frame + Count(samples, t.timeline.channels)
    ensures Loading(t, samples, frame, end, possible, 0)
  {
    StartLoading(t, end, Goal(t, frame, possible));
    if end >= t.timeline.LastBoundary() && Beyond(t, frame, possible) {
      StreamLoaded(t, samples, frame, end);
    }
  }

  /** One round from here leaves `after`, which keeps the invariant and is longer. */
  ghost predicate LoadGoesOn(t: Track, samples: seq<real>, after: seq<real>, frame: nat, end: nat, possible: nat, next: nat)
    requires t.Valid()
  {
    var ch := t.timeline.channels;
    var current := frame + Count(samples, ch);
    && |samples| == Count(samples, ch) * ch && Count(after, ch) > Count(samples, ch)
    && t.AfterLoad(samples, current, t.timeline.SegmentAt(current, 0)) == Cached(after)
    && Loading(t, after, frame, end, possible, next)
  }

  /** A load short of the last boundary, as `LoadAlignsExactly` has it, keeps the invariant of the loop. */
  lemma StreamStep(t: Track, samples: seq<real>, frame: nat, end: nat, possible: nat, k: nat) returns (after: seq<real>)
    requires t.Valid() && Loading(t, samples, frame, end, possible, k)
    requires frame + Count(samples, t.timeline.channels) < Goal(t, frame, possible)
    ensures LoadGoesOn(t, samples, after, frame, end, possible, 0)
  {
    hide Track.AfterLoad, Track.Stream, Timeline.SegmentAt, Timeline.Boundary, LoadedSoFar, PastCache, Track.Loadable;
    var ch := t.timeline.channels;
    var current := frame + Count(samples, ch);
    var i := t.timeline.SegmentAt(current, 0);
    var next := t.timeline.Boundary(i);
    LoadIsInSpan(t, samples, frame, current);
    LoadJoins(t, samples, frame, current, i);
    LoadAlignsExactly(t, samples, frame, current);
    LoadReaches(t, end, Goal(t, frame, possible), current);
    BoundariesAscend(t.timeline, 0, i);
    StillLoadable(t, next);
    WholeFrames(next - frame, ch);
    Scale(1, next - frame, ch);
    after := Span(t.Stream(), frame, next, ch);
    assert Aligned(t, after, frame, next);
    if next >= t.timeline.LastBoundary() && Beyond(t, frame, possible) {
      StreamLoaded(t, after, frame, next);
    }
  }

  lemma PastNext(t: Track, frame: nat, k: nat)
    requires t.Valid() && PastReadable(t, frame)
    ensures Past(t, frame, k) + t.pcm[|t.pcm| - 1] == Past(t, frame, k + 1)
    ensures var past := frame - t.timeline.LastBoundary();
            past > 0 ==> 0 <= past * t.timeline.channels <= |t.pcm[|t.pcm| - 1]|
                         && Past(t, frame, 0) == t.pcm[|t.pcm| - 1][past * t.timeline.channels..]
  {
    hide Track.Stream, Timeline.Boundary, Timeline.Requested;
    var past := frame - t.timeline.LastBoundary();
    if past > 0 {
      Scale(0, past, t.timeline.channels);
      Scale(past, t.timeline.Requested(|t.pcm| - 1), t.timeline.channels);
    }
  }

  /** A load behind a cache that reaches the last boundary adds the last segment once more. */
  lemma PastAgain(t: Track, frame: nat, k: nat)
    requires t.Valid() && t.timeline.Boundary(0) >= START_JUNK && PastReadable(t, frame)
    ensures var s, ch := Past(t, frame, k), t.timeline.channels;
            var current := frame + Count(s, ch);
            && t.AfterLoad(s, current, t.timeline.SegmentAt(current, 0)) == Cached(Past(t, frame, k + 1))
            && |s| == Count(s, ch) * ch && Count(Past(t, frame, k + 1), ch) > Count(s, ch)
  {
    hide Track.AfterLoad, Track.Stream, Timeline.SegmentAt, Timeline.Boundary, Timeline.Requested, Past;
    var s, ch, last := Past(t, frame, k), t.timeline.channels, |t.pcm| - 1;
    BoundariesAscend(t.timeline, 0, last);
    PastCounts(t, frame, k);
    PastCounts(t, frame, k + 1);
    PastNext(t, frame, k);
    LengthGrows(PastHead(t, frame), k, t.timeline.Requested(last));
    LastSegmentAgain(t, s, Count(s, ch), frame + Count(s, ch));
    if s == [] {
      assert s + t.pcm[last] == t.pcm[last];
    }
  }

  lemma LengthGrows(head: nat, k: nat, frames: nat)
    requires frames > 0
    ensures head + k * frames < head + (k + 1) * frames
    ensures head + k * frames >= head
  {
    Scale(0, k, frames);
    AddFrames(k, 1, frames);
  }

  /** The first load at a position behind the last boundary. */
  lemma PastFirst(t: Track, frame: nat)
    requires t.Valid() && t.timeline.Boundary(0) >= START_JUNK && PastReadable(t, frame) && frame > t.timeline.LastBoundary()
    ensures t.AfterLoad([], frame, t.timeline.SegmentAt(frame, 0)) == Cached(Past(t, frame, 0))
    ensures Count(Past(t, frame, 0), t.timeline.channels) > 0
  {
    hide Track.AfterLoad, Track.Stream, Timeline.SegmentAt, Timeline.Boundary, Timeline.Requested, Past;
    BoundariesAscend(t.timeline, 0, |t.pcm| - 1);
    PastCounts(t, frame, 0);
    PastNext(t, frame, 0);
    LastSegmentAgain(t, [], 0, frame);
  }

  lemma PastStep(t: Track, samples: seq<real>, frame: nat, k: nat) returns (next: nat, after: seq<real>)
    requires t.Valid() && t.timeline.Boundary(0) >= START_JUNK && PastCache(t, samples, frame, k)
    ensures |samples| == Count(samples, t.timeline.channels) * t.timeline.channels
    ensures var current := frame + Count(samples, t.timeline.channels);
            t.AfterLoad(samples, current, t.timeline.SegmentAt(current, 0)) == Cached(after)
    ensures PastCache(t, after, frame, next) && Count(after, t.timeline.channels) > Count(samples, t.timeline.channels)
  {
    hide Track.AfterLoad, Timeline.SegmentAt, Timeline.Boundary, Past, PastReadable, Timeline.LastBoundary;
    if samples == [] && frame > t.timeline.LastBoundary() {
      PastFirst(t, frame);
      next := 0;
    } else {
      PastAgain(t, frame, k);
      next := k + 1;
    }
    after := Past(t, frame, next);
  }

  /**
   * A load at or past the last boundary makes the cache longer if and only if the last segment
   * has frames, and has frames behind the position when the cache is empty.  Otherwise `decode`
   * erases past the end of its cache, or loads for ever.
   */
  lemma PastLoadGrows(t: Track, samples: seq<real>, buffered: nat, current: nat)
    requires t.Valid() && |samples| == buffered * t.timeline.channels
    requires START_JUNK <= t.timeline.LastBoundary() <= current
    ensures var after := t.AfterLoad(samples, current, t.timeline.SegmentAt(current, 0));
            var length := t.timeline.Requested(|t.pcm| - 1);
            if (if buffered > 0 then 0 else current - t.timeline.LastBoundary()) < length
            then exists longer: seq<real> :: after == Cached(longer) && |longer| > |samples|
            else after == Corrupt || after == Cached(samples)
  {
    hide Track.AfterLoad, Track.Stream, Timeline.SegmentAt, Timeline.Boundary, Timeline.Requested;
    var ch, last := t.timeline.channels, |t.pcm| - 1;
    var past, length := current - t.timeline.LastBoundary(), t.timeline.Requested(last);
    LastSegmentAgain(t, samples, buffered, current);
    assert |t.pcm[last]| == length * ch;
    if length > 0 {
      Scale(1, length, ch);
    }
    if buffered == 0 && past < length {
      Scale(past + 1, length, ch);
    }
    if buffered > 0 {
      assert |samples + t.pcm[last]| == |samples| + length * ch;
      assert length == 0 ==> samples + t.pcm[last] == samples;
    }
  }

  lemma LoadStep(t: Track, samples: seq<real>, frame: nat, end: nat, possible: nat, k: nat)
    returns (next: nat, after: seq<real>)
    requires t.Valid() && Loading(t, samples, frame, end, possible, k) && possible > Count(samples, t.timeline.channels)
    ensures LoadGoesOn(t, samples, after, frame, end, possible, next)
  {
    hide Track.AfterLoad, Track.Stream, Timeline.SegmentAt, Timeline.Boundary, Aligned, LoadedSoFar, PastCache, PastReadable;
    next := 0;
    if frame + Count(samples, t.timeline.channels) < t.timeline.LastBoundary() {
      after := StreamStep(t, samples, frame, end, possible, k);
    } else {
      next, after := PastStep(t, samples, frame, k);
    }
  }

  lemma LoadingEnds(t: Track, samples: seq<real>, frame: nat, end: nat, possible: nat, k: nat)
    requires t.Valid() && Loading(t, samples, frame, end, possible, k) && possible <= Count(samples, t.timeline.channels)
    ensures frame + possible <= t.timeline.LastBoundary() ==>
              var current := frame + Count(samples, t.timeline.channels);
              Aligned(t, samples, frame, current) && LoadedSoFar(t, end, frame + possible, current)
    ensures Beyond(t, frame, possible) ==> PastReadable(t, frame) && samples == Past(t, frame, k)
  {
    hide Track.Stream, Timeline.SegmentAt, Timeline.Boundary, Aligned, LoadedSoFar, PastReadable;
  }

  /** The flat stream behind a track, as callers see it. */
  function FlatReader(t: Track): (r: Reader)
    requires t.Valid()
  {
    BoundariesAscend(t.timeline, 0, |t.timeline.segments| - 1);
    DriftBound(t.timeline);
    Reader(t.Stream(), t.timeline.channels, t.timeline.LastBoundary(),
           if t.timeline.TotalFrames() == 0 then 0 else t.timeline.TotalFrames() - 1)
  }

  /** Where the cache ends after an operation, given where it began and ended before. */
  ghost function NextEnd(t: Track, frame: nat, end: nat, op: Operation): nat
    requires t.Valid()
  {
    var r := FlatReader(t);
    match op
    case Flush => frame
    case Seek(to) =>
      var landed := r.Move(frame, op);
      if landed == frame || frame <= landed < end then end else landed
    case Decode(n) =>
      var target := r.Move(frame, op);
      if target <= end then end
      else
        BoundariesAscend(t.timeline, 0, t.timeline.SegmentAt(target - 1, 0));
        t.timeline.Boundary(t.timeline.SegmentAt(target - 1, 0))
  }

  /** A decode stays in the span the search covers and loads only where a load is sound. */
  ghost predicate Allowed(t: Track, frame: nat, end: nat, op: Operation)
    requires t.Valid()
  {
    op.Decode? ==>
      && frame + Min(op.frames, t.timeline.TotalFrames() - frame) <= t.timeline.LastBoundary()
      && (frame + op.frames <= end || t.Loadable(end))
  }

  ghost predicate AllowedRun(t: Track, frame: nat, end: nat, ops: seq<Operation>)
    requires t.Valid()
    decreases |ops|
  {
    |ops| > 0 ==>
      && Allowed(t, frame, end, ops[0])
      && AllowedRun(t, FlatReader(t).Move(frame, ops[0]), NextEnd(t, frame, end, ops[0]), ops[1..])
  }

  /** What a caller can see: no flush, seeks to the start or past segment 0, reads inside the span. */
  ghost predicate Careful(t: Track, frame: nat, ops: seq<Operation>)
    requires t.Valid()
    decreases |ops|
  {
    |ops| > 0 ==>
      && !ops[0].Flush?
      && (ops[0].Seek? ==> var to := FlatReader(t).Move(frame, ops[0]); to == 0 || to >= t.timeline.Boundary(0))
      && (ops[0].Decode? ==> frame + Min(ops[0].frames, t.timeline.TotalFrames() - frame) <= t.timeline.LastBoundary())
      && Careful(t, FlatReader(t).Move(frame, ops[0]), ops[1..])
  }

  lemma CarefulStep(t: Track, frame: nat, end: nat, op: Operation)
    requires t.Valid() && t.timeline.Boundary(0) >= START_JUNK
    requires frame <= end && t.Loadable(end) && Careful(t, frame, [op])
    ensures Allowed(t, frame, end, op)
    ensures FlatReader(t).Move(frame, op) <= NextEnd(t, frame, end, op) && t.Loadable(NextEnd(t, frame, end, op))
  {
    var target := FlatReader(t).Move(frame, op);
    if op.Decode? && target > end {
      var i := t.timeline.SegmentAt(target - 1, 0);
      assert target <= t.timeline.LastBoundary();
      SearchFinds(t.timeline, target - 1);
      BoundariesAscend(t.timeline, 0, i);
    }
  }

  /** Careful callers never reach the loads that lose alignment. */
  lemma {:induction false} CarefulRunsAreAllowed(t: Track, frame: nat, end: nat, ops: seq<Operation>)
    requires t.Valid() && t.timeline.Boundary(0) >= START_JUNK
    requires frame <= end && t.Loadable(end) && Careful(t, frame, ops)
    ensures AllowedRun(t, frame, end, ops)
    decreases |ops|
  {
    if |ops| > 0 {
      CarefulStep(t, frame, end, ops[0]);
      CarefulRunsAreAllowed(t, FlatReader(t).Move(frame, ops[0]), NextEnd(t, frame, end, ops[0]), ops[1..]);
    }
  }

  class DecoderDashToHLSTransmuxer {
    const track: Track
    var frameIndex: int
    var samples: seq<real>

    ghost predicate Positioned()
      reads this
    {
      && track.Valid()
      && track.timeline.Boundary(0) >= START_JUNK
      && 0 <= frameIndex <= track.timeline.TotalFrames()
    }

    ghost predicate Valid()
      reads this
    {
      && Positioned()
      && Aligned(track, samples, frameIndex, WindowEnd())
    }

    ghost function WindowEnd(): int
      requires track.timeline.channels > 0
      reads this
    {
      frameIndex + Count(samples, track.timeline.channels)
    }

    constructor (track: Track)
      requires track.Valid() && track.timeline.Boundary(0) >= START_JUNK
      ensures Valid() && this.track == track && frameIndex == 0 && samples == []
    {
      this.track := track;
      frameIndex := 0;
      samples := [];
      DriftBound(track.timeline);
      BoundariesAscend(track.timeline, 0, |track.timeline.segments| - 1);
    }

    method Frames() returns (frames: int)
      requires track.Valid()
      ensures frames == track.timeline.TotalFrames() && frames >= 0
      ensures forall ticks :: CommonTimescale(track.timeline.segments, ticks) ==>
                var total := Segment(Ticks(track.timeline.segments, ticks, |track.timeline.segments|), ticks);
                RoundedDown(total, track.timeline.sampleRate, frames + 1024)
    {
      var time := 0.0;
      var i := 0;
      while i < |track.timeline.segments|
        invariant i <= |track.timeline.segments|
        invariant time == track.timeline.TotalTime(i)
      {
        time := time + track.timeline.Time(i);
        i := i + 1;
      }
      ghost var last := |track.timeline.segments| - 1;
      assert time == track.timeline.TotalTime(last + 1);
      assert time * track.timeline.sampleRate - START_JUNK as real == track.timeline.ExactEnd(last);
      frames := ToLong(time * track.timeline.sampleRate - START_JUNK as real);
      DriftBound(track.timeline);
      BoundariesAscend(track.timeline, 0, last);
      forall ticks | CommonTimescale(track.timeline.segments, ticks)
        ensures var total := Segment(Ticks(track.timeline.segments, ticks, |track.timeline.segments|), ticks);
                RoundedDown(total, track.timeline.sampleRate, frames + 1024)
      {
        TotalFramesIs(track.timeline, ticks);
      }
    }

    method Flush()
      requires Positioned()
      modifies this`samples
      ensures Valid() && WindowEnd() == frameIndex
    {
      samples := [];
    }

    method Seek(frame: nat)
      requires Valid()
      modifies this
      ensures Valid()
      ensures frameIndex == Min(frame, track.timeline.TotalFrames() - 1)
      ensures frameIndex == FlatReader(track).Move(old(frameIndex), Operation.Seek(frame))
      ensures WindowEnd() == NextEnd(track, old(frameIndex), old(WindowEnd()), Operation.Seek(frame))
    {
      var ch := track.timeline.channels;
      var total := Frames();
      DriftBound(track.timeline);
      BoundariesAscend(track.timeline, 0, |track.timeline.segments| - 1);
      var safe := Min(frame, total - 1);
      var previous := frameIndex;
      ghost var end := WindowEnd();
      frameIndex := safe;
      if previous < safe {
        var sampleDiff := (safe - previous) * ch;
        Buffered(track, samples, previous, end, safe);
        if sampleDiff < |samples| {
          samples := samples[sampleDiff..];
          return;
        }
      } else if previous == safe {
        return;
      }
      samples := [];
    }

    /** `exhaustDecoder`: asks the inner decoder for one segment and appends what it yields. */
    method ExhaustDecoder(i: nat) returns (frames: nat)
      requires track.Valid() && i < |track.pcm|
      modifies this`samples
      ensures samples == old(samples) + track.pcm[i]
      ensures RoundedDown(track.timeline.segments[i], track.timeline.sampleRate, frames)
      ensures |samples| == |old(samples)| + frames * track.timeline.channels
    {
      frames := ToLong(track.timeline.Time(i) * track.timeline.sampleRate);
      assert frames == track.timeline.Requested(i);
      RequestedIs(track.timeline, i);
      samples := samples + track.pcm[i][..frames * track.timeline.channels];
    }

    /** The search loop of `decode`. */
    method FindSegment(current: nat) returns (i: nat, start: int)
      requires track.Valid()
      ensures i == track.timeline.SegmentAt(current, 0)
      ensures start == track.SearchStart(i, current)
      ensures i < |track.pcm| && Held(track.timeline, current, i)
    {
      hide Held;
      var t := track.timeline;
      i := 0;
      start := 0;
      var timeFrame := 0;
      while i < |t.segments|
        invariant i <= |t.segments|
        invariant if i < |t.segments| then t.SegmentAt(current, 0) == t.SegmentAt(current, i)
                  else t.SegmentAt(current, 0) == i - 1
        invariant timeFrame == start == if i == 0 then 0 else t.Boundary(i - 1)
        invariant i > 0 ==> start <= current
      {
        timeFrame := ToLong(timeFrame as real + t.ExactFrames(i));
        if i == 0 {
          timeFrame := timeFrame - START_JUNK;
        }
        assert timeFrame == t.Boundary(i);
        if timeFrame > current {
          break;
        }
        start := timeFrame;
        i := i + 1;
      }
      if i == |t.segments| {
        i := i - 1;
      }
      SegmentHolds(t, current);
    }

    /** One round of the loading loop of `decode`. */
    method LoadNext(current: nat)
      requires track.Valid() && frameIndex >= 0 && current == WindowEnd()
      requires |samples| == Count(samples, track.timeline.channels) * track.timeline.channels
      requires track.AfterLoad(samples, current, track.timeline.SegmentAt(current, 0)).Cached?
      modifies this`samples
      ensures Cached(samples) == track.AfterLoad(old(samples), current, track.timeline.SegmentAt(current, 0))
    {
      hide Timeline.SegmentAt, Timeline.Boundary, Timeline.LastBoundary, Track.Stream, Track.SearchStart;
      var ch := track.timeline.channels;
      var i, start := FindSegment(current);
      var currentFrames := Count(samples, ch);
      ghost var before := samples;
      RefillFrames(before, track.pcm[i], current, start, ch, currentFrames, track.timeline.Requested(i));
      var _ := ExhaustDecoder(i);
      if current < START_JUNK {
        var framesToRemove := Min(START_JUNK - current, Count(samples, ch));
        Scale(0, framesToRemove, ch);
        Scale(framesToRemove, Count(samples, ch), ch);
        samples := samples[framesToRemove * ch..];
      }
      if currentFrames == 0 && current > start {
        var framesToSkip := current - start;
        Scale(0, framesToSkip, ch);
        samples := samples[framesToSkip * ch..];
      }
    }

    /**
     * The loading loop of `decode`.  Up to the last boundary the cache stays a window of the
     * stream; past it the last segment is loaded again and again.
     */
    method LoadUntil(possible: nat)
      requires Valid() && MayLoad(track, frameIndex, WindowEnd(), possible)
      modifies this`samples
      ensures possible <= Count(samples, track.timeline.channels)
      ensures frameIndex + possible <= track.timeline.LastBoundary() ==>
                && Aligned(track, samples, frameIndex, WindowEnd())
                && LoadedSoFar(track, old(WindowEnd()), frameIndex + possible, WindowEnd())
      ensures possible == 0 ==> samples == old(samples)
      ensures Beyond(track, frameIndex, possible) ==>
                PastReadable(track, frameIndex) && exists k: nat :: samples == Past(track, frameIndex, k)
    {
      hide LoadedSoFar, Aligned, Timeline.Boundary, Timeline.SegmentAt, Timeline.LastBoundary, Past, PastReadable;
      hide Loading, MayLoad, Track.AfterLoad, Goal, Beyond;
      var ch := track.timeline.channels;
      var current := frameIndex + Count(samples, ch);
      ghost var end, k := WindowEnd(), 0;
      LoadingStarts(track, samples, frameIndex, end, possible);
      while possible > Count(samples, ch)
        invariant current == WindowEnd() && Loading(track, samples, frameIndex, end, possible, k)
        invariant possible == 0 ==> samples == old(samples)
        decreases possible - Count(samples, ch)
      {
        ghost var next, after := LoadStep(track, samples, frameIndex, end, possible, k);
        LoadNext(current);
        current := frameIndex + Count(samples, ch);
        k := next;
      }
      LoadingEnds(track, samples, frameIndex, end, possible, k);
    }

    /** The end of `decode`: hand out the front of the cache and advance past it. */
    method HandOut(possible: nat) returns (count: nat, out: seq<real>)
      requires track.Valid() && possible <= Count(samples, track.timeline.channels)
      modifies this
      ensures count == possible && frameIndex == old(frameIndex) + possible
      ensures 0 <= count * track.timeline.channels <= |old(samples)|
      ensures out == old(samples)[..count * track.timeline.channels]
      ensures samples == old(samples)[count * track.timeline.channels..]
    {
      var ch := track.timeline.channels;
      count := Min(possible, Count(samples, ch));
      FramesFit(samples, count, ch);
      frameIndex := frameIndex + count;
      out := samples[..count * ch];
      samples := samples[count * ch..];
    }

    /**
     * `decode`: load until enough is cached, hand out the front, advance.  Up to the last
     * boundary that is the stream.  A read past it, which `frames()` may ask for, gets the rest
     * of the stream and then the last segment again, and leaves no window of the stream behind.
     */
    method Decode(n: nat) returns (index: int, count: nat, out: seq<real>)
      requires Valid() && MayLoad(track, frameIndex, WindowEnd(), Min(n, track.timeline.TotalFrames() - frameIndex))
      modifies this
      ensures Positioned() && index == old(frameIndex) && frameIndex == index + count
      ensures count == Min(n, track.timeline.TotalFrames() - index)
      ensures frameIndex <= track.timeline.LastBoundary() ==>
                && Valid() && count == FlatReader(track).Available(old(frameIndex), n)
                && out == FlatReader(track).Delivered(old(frameIndex), n)
                && frameIndex == FlatReader(track).Move(old(frameIndex), Operation.Decode(n))
                && WindowEnd() == NextEnd(track, old(frameIndex), old(WindowEnd()), Operation.Decode(n))
      ensures count == 0 ==> out == [] && samples == old(samples)
      ensures count > 0 && frameIndex > track.timeline.LastBoundary() ==>
                && PastReadable(track, old(frameIndex))
                && 0 <= count * track.timeline.channels <= |Past(track, old(frameIndex), count)|
                && out == Past(track, old(frameIndex), count)[..count * track.timeline.channels]
    {
      hide Past, PastReadable, LoadedSoFar, Timeline.LastBoundary, Timeline.SegmentAt, Timeline.Boundary, Track.Stream;
      hide NextEnd, Goal, Aligned, FlatReader, MayLoad, Reader.Move, Reader.Available, Reader.Delivered, Count;
      var total := Frames();
      index := frameIndex;
      ghost var end := WindowEnd();
      var possible := Min(n, total - index);
      LoadUntil(possible);
      ghost var loaded := samples;
      count, out := HandOut(possible);
      if index + possible <= track.timeline.LastBoundary() {
        Delivers(track, loaded, index, end, n, count);
      } else if count > 0 {
        ghost var k: nat :| loaded == Past(track, index, k);
        FrontOfPast(track, index, k, count);
      }
    }

    /** Any allowed run hands out what the flat stream holds. */
    method Play(ops: seq<Operation>) returns (outputs: seq<seq<real>>)
      requires Valid() && AllowedRun(track, frameIndex, WindowEnd(), ops)
      modifies this
      ensures Valid()
      ensures outputs == FlatReader(track).Outputs(old(frameIndex), ops)
      decreases |ops|
    {
      if |ops| == 0 {
        return [];
      }
      var head := [];
      match ops[0] {
        case Seek(frame) => Seek(frame);
        case Flush => Flush();
        case Decode(n) =>
          var _, _, out := Decode(n);
          head := [out];
      }
      var rest := Play(ops[1..]);
      outputs := head + rest;
    }
  }

  /** A cache loaded far enough answers a decode within the stream, and the rest of it is a window again. */
  lemma Delivers(t: Track, loaded: seq<real>, frame: nat, before: nat, n: nat, count: nat)
    requires t.Valid() && frame <= t.timeline.TotalFrames() && count == Min(n, t.timeline.TotalFrames() - frame)
    requires frame + count <= t.timeline.LastBoundary() && count <= Count(loaded, t.timeline.channels)
    requires Aligned(t, loaded, frame, frame + Count(loaded, t.timeline.channels))
    requires LoadedSoFar(t, before, frame + count, frame + Count(loaded, t.timeline.channels))
    ensures var r, op, ch := FlatReader(t), Operation.Decode(n), t.timeline.channels;
            && r.Valid() && 0 <= count * ch <= |loaded|
            && count == r.Available(frame, n) && loaded[..count * ch] == r.Delivered(frame, n)
            && frame + count == r.Move(frame, op)
            && Aligned(t, loaded[count * ch..], frame + count, frame + count + Count(loaded[count * ch..], ch))
            && frame + count + Count(loaded[count * ch..], ch) == NextEnd(t, frame, before, op)
  {
    hide LoadedSoFar, NextEnd, Aligned, Timeline.LastBoundary, Timeline.SegmentAt, Timeline.Boundary, Track.Stream;
    DecodeTarget(t, frame, n);
    TakeFront(t, loaded, frame, before, frame + Count(loaded, t.timeline.channels), n);
  }

  lemma FramesFit(samples: seq<real>, count: nat, ch: nat)
    requires ch > 0 && count <= Count(samples, ch)
    ensures 0 <= count * ch <= |samples|
  {
    Scale(0, count, ch);
    Scale(count, Count(samples, ch), ch);
  }

  /** The front of what is cached past the last boundary does not depend on how often the segment was loaded. */
  lemma FrontOfPast(t: Track, frame: nat, k: nat, count: nat)
    requires t.Valid() && PastReadable(t, frame) && count <= Count(Past(t, frame, k), t.timeline.channels)
    ensures var size := count * t.timeline.channels;
            && 0 <= size <= |Past(t, frame, k)| && size <= |Past(t, frame, count)|
            && Past(t, frame, k)[..size] == Past(t, frame, count)[..size]
  {
    hide Past, PastReadable;
    PastCounts(t, frame, count);
    FramesFit(Past(t, frame, k), count, t.timeline.channels);
    FramesFit(Past(t, frame, count), count, t.timeline.channels);
    if k <= count {
      PastPrefix(t, frame, k, count);
    } else {
      PastPrefix(t, frame, count, k);
    }
  }

  /** Handing out the front of an aligned cache leaves an aligned cache. */
  lemma TakeFront(t: Track, samples: seq<real>, frame: nat, before: nat, end: nat, n: nat)
    requires t.Valid() && Aligned(t, samples, frame, end)
    requires LoadedSoFar(t, before, FlatReader(t).Move(frame, Operation.Decode(n)), end)
    requires FlatReader(t).Move(frame, Operation.Decode(n)) <= end
    ensures var count := FlatReader(t).Available(frame, n);
            && 0 <= count * t.timeline.channels <= |samples|
            && samples[..count * t.timeline.channels] == FlatReader(t).Delivered(frame, n)
            && Aligned(t, samples[count * t.timeline.channels..], frame + count, end)
            && Count(samples[count * t.timeline.channels..], t.timeline.channels) == end - frame - count
    ensures end == NextEnd(t, frame, before, Operation.Decode(n))
  {
    var ch, count := t.timeline.channels, FlatReader(t).Available(frame, n);
    assert samples == [] ==> end == frame && count == 0;
    FrontSpan(t.Stream(), samples, frame, count, end, ch);
  }

  lemma FrontSpan(stream: seq<real>, samples: seq<real>, frame: nat, count: nat, end: nat, ch: nat)
    requires ch > 0 && frame + count <= end
    requires if samples == [] then frame == end
             else end * ch <= |stream| && samples == Span(stream, frame, end, ch)
    ensures 0 <= count * ch <= |samples|
    ensures samples != [] ==> (frame + count) * ch <= |stream|
                              && samples[..count * ch] == Span(stream, frame, frame + count, ch)
                              && samples[count * ch..] == Span(stream, frame + count, end, ch)
    ensures Count(samples[count * ch..], ch) == end - frame - count
    ensures samples[count * ch..] == [] ==> frame + count == end
  {
    if samples != [] {
      Scale(count, end - frame, ch);
      Scale(frame + count, end, ch);
      EraseFrames(samples, end - frame, count, ch);
      SpanOfSpan(stream, frame, end, 0, count, ch);
      SpanOfSpan(stream, frame, end, count, end - frame, ch);
      if frame + count < end {
        Scale(1, end - frame - count, ch);
      }
    }
  }

  /** Where a decode that must deliver up to `target` has loaded to. */
  ghost predicate LoadedSoFar(t: Track, end: nat, target: nat, current: int)
    requires t.Valid()
  {
    && end <= current
    && (current == end || t.timeline.Boundary(0) <= current)
    && (target <= current ==> current == if target <= end then end
                                         else t.timeline.Boundary(t.timeline.SegmentAt(target - 1, 0)))
  }

  lemma StartLoading(t: Track, end: nat, target: nat)
    requires t.Valid()
    ensures LoadedSoFar(t, end, target, end)
  {
  }

  lemma StillLoadable(t: Track, current: nat)
    requires t.Valid() && t.timeline.Boundary(0) >= START_JUNK && current >= t.timeline.Boundary(0)
    ensures t.Loadable(current)
  {
  }

  lemma LoadReaches(t: Track, end: nat, target: nat, current: nat)
    requires t.Valid() && LoadedSoFar(t, end, target, current)
    requires current < target <= t.timeline.LastBoundary()
    ensures LoadedSoFar(t, end, target, t.timeline.Boundary(t.timeline.SegmentAt(current, 0)))
    ensures t.timeline.Boundary(t.timeline.SegmentAt(current, 0)) > current
  {
    var i := t.timeline.SegmentAt(current, 0);
    SearchFinds(t.timeline, current);
    BoundariesAscend(t.timeline, 0, i);
    if target <= t.timeline.Boundary(i) {
      SearchIsUnique(t.timeline, target - 1, i);
    }
  }

  lemma DecodeTarget(t: Track, frame: nat, n: nat)
    requires t.Valid() && frame <= t.timeline.TotalFrames()
    requires frame + Min(n, t.timeline.TotalFrames() - frame) <= t.timeline.LastBoundary()
    ensures FlatReader(t).Available(frame, n) == Min(n, t.timeline.TotalFrames() - frame)
    ensures FlatReader(t).Move(frame, Operation.Decode(n)) <= t.timeline.TotalFrames()
  {
    DriftBound(t.timeline);
  }

  /** A forward seek finds its frame in the cache exactly when the sample count says so. */
  lemma Buffered(t: Track, samples: seq<real>, frame: nat, end: nat, to: nat)
    requires t.Valid() && Aligned(t, samples, frame, end) && frame < to
    ensures 0 <= (to - frame) * t.timeline.channels
    ensures (to - frame) * t.timeline.channels < |samples| <==> to < end
    ensures to < end ==> samples[(to - frame) * t.timeline.channels..] == Span(t.Stream(), to, end, t.timeline.channels)
    ensures to < end ==> Aligned(t, samples[(to - frame) * t.timeline.channels..], to, end)
  {
    var ch := t.timeline.channels;
    Scale(1, to - frame, ch);
    if to < end {
      Scale(to - frame + 1, end - frame, ch);
      EraseFrames(samples, end - frame, to - frame, ch);
      SpanOfSpan(t.Stream(), frame, end, to - frame, end - frame, ch);
    } else {
      Scale(end - frame, to - frame, ch);
    }
  }
}
