/**
 * Interleaved PCM: frame `f` of a buffer with `channels` channels occupies the
 * samples `[f * channels, (f + 1) * channels)`.
 */
module Frames {

  lemma Scale(a: int, b: int, channels: nat)
    requires a <= b
    ensures a * channels <= b * channels
    ensures (b - a) * channels == b * channels - a * channels
  {
  }

  lemma AddFrames(a: int, b: int, channels: nat)
    ensures (a + b) * channels == a * channels + b * channels
  {
  }

  lemma WholeFrames(frames: nat, channels: nat)
    requires channels > 0
    ensures frames * channels / channels == frames
    ensures frames * channels % channels == 0
  {
    DivMul(frames * channels, frames, channels);
  }

  lemma DivMul(samples: int, frames: int, channels: nat)
    requires channels > 0 && samples == frames * channels
    ensures samples / channels == frames && samples % channels == 0
  {
    var q, r := samples / channels, samples % channels;
    assert samples == q * channels + r;
    assert (frames - q) * channels == r;
    if frames - q >= 1 {
      Scale(1, frames - q, channels);
    } else if frames - q <= -1 {
      Scale(frames - q, -1, channels);
    }
  }

  /** The number of frames buffered in an interleaved sequence. */
  function Count<T>(s: seq<T>, channels: nat): (n: nat)
    requires channels > 0
    ensures n * channels <= |s|
    ensures |s| % channels == 0 ==> n * channels == |s|
  {
    assert |s| == (|s| / channels) * channels + |s| % channels;
    |s| / channels
  }

  /** Frames `from` up to but not including `to`. */
  function Span<T>(s: seq<T>, from: nat, to: nat, channels: nat): (r: seq<T>)
    requires from <= to && to * channels <= |s|
    ensures |r| == (to - from) * channels
    ensures channels > 0 ==> |r| / channels == to - from && |r| % channels == 0
  {
    Scale(0, from, channels);
    Scale(from, to, channels);
    if channels > 0 then
      WholeFrames(to - from, channels);
      s[from * channels..to * channels]
    else
      s[from * channels..to * channels]
  }

  lemma SliceOfSlice<T>(s: seq<T>, a: nat, b: nat, c: nat, d: nat)
    requires c <= d && a + d <= b <= |s|
    ensures s[a..b][c..d] == s[a + c..a + d]
  {
    var inner, outer := s[a..b][c..d], s[a + c..a + d];
    assert |inner| == |outer|;
    forall i | 0 <= i < d - c
      ensures inner[i] == outer[i]
    {
      assert inner[i] == s[a..b][c + i] == s[a + c + i];
    }
  }

  lemma SpanOfSpan<T>(s: seq<T>, a: nat, b: nat, c: nat, d: nat, channels: nat)
    requires a <= b && b * channels <= |s| && c <= d <= b - a
    ensures d * channels <= |Span(s, a, b, channels)|
    ensures (a + d) * channels <= |s|
    ensures Span(Span(s, a, b, channels), c, d, channels) == Span(s, a + c, a + d, channels)
  {
    Scale(d, b - a, channels);
    Scale(a + d, b, channels);
    Scale(c, d, channels);
    Scale(0, a, channels);
    Scale(0, c, channels);
    AddFrames(a, c, channels);
    AddFrames(a, d, channels);
    SliceOfSlice(s, a * channels, b * channels, c * channels, d * channels);
  }

  lemma SpanJoin<T>(s: seq<T>, a: nat, b: nat, c: nat, channels: nat)
    requires a <= b <= c && c * channels <= |s|
    ensures b * channels <= |s|
    ensures Span(s, a, b, channels) + Span(s, b, c, channels) == Span(s, a, c, channels)
  {
    Scale(a, b, channels);
    Scale(b, c, channels);
  }

  /** Cutting a span at a frame: what `erase` drops and what it leaves. */
  lemma CutSpan<T>(s: seq<T>, from: nat, cut: nat, to: nat, channels: nat)
    requires from <= cut <= to && to * channels <= |s|
    ensures 0 <= (cut - from) * channels <= |Span(s, from, to, channels)|
    ensures cut * channels <= |s|
    ensures Span(s, from, to, channels)[..(cut - from) * channels] == Span(s, from, cut, channels)
    ensures Span(s, from, to, channels)[(cut - from) * channels..] == Span(s, cut, to, channels)
  {
    Scale(0, cut - from, channels);
    Scale(from, cut, channels);
    Scale(cut, to, channels);
    SpanJoin(s, from, cut, to, channels);
  }
}
