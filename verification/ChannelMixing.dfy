/** The normaliser's channel conversion: down-mixing, up-mixing and copying of interleaved frames. */
module ChannelMixing {
  import opened Frames

  /** Sum of the inputs of one frame that the inner loop adds to channel `c` in its first `n` rounds. */
  function Column(samples: seq<real>, at: nat, channels: nat, c: nat, n: nat): real
    requires channels > 0 && at + n <= |samples|
  {
    if n == 0 then 0.0
    else Column(samples, at, channels, c, n - 1) + if (n - 1) % channels == c then samples[at + n - 1] else 0.0
  }

  /** Every `channels`-th input from channel `c` on. */
  function Strided(samples: seq<real>, at: nat, channels: nat, c: nat, rounds: nat): real
    requires c < channels && at + rounds * channels <= |samples|
  {
    if rounds == 0 then 0.0
    else
      AddFrames(rounds - 1, 1, channels);
      Strided(samples, at, channels, c, rounds - 1) + samples[at + (rounds - 1) * channels + c]
  }

  function Total(samples: seq<real>, at: nat, n: nat): real
    requires at + n <= |samples|
  {
    if n == 0 then 0.0 else Total(samples, at, n - 1) + samples[at + n - 1]
  }

  /** A part of a block of channels adds the input of channel `c` once the loop is past it. */
  lemma {:induction false} PartialBlock(samples: seq<real>, at: nat, channels: nat, c: nat, rounds: nat, n: nat)
    requires c < channels && n <= channels && at + rounds * channels + n <= |samples|
    ensures at + rounds * channels + c < |samples| || n <= c
    ensures Column(samples, at, channels, c, rounds * channels + n)
         == Column(samples, at, channels, c, rounds * channels) +
            if n > c then samples[at + rounds * channels + c] else 0.0
  {
    if n > 0 {
      PartialBlock(samples, at, channels, c, rounds, n - 1);
      Remainder(rounds, n - 1, channels);
    }
  }

  lemma Remainder(q: nat, r: nat, d: nat)
    requires r < d
    ensures (q * d + r) / d == q && (q * d + r) % d == r
  {
    var n := q * d + r;
    assert n == n / d * d + n % d;
    if n / d > q {
      Scale(q + 1, n / d, d);
      AddFrames(q, 1, d);
    } else if n / d < q {
      Scale(n / d + 1, q, d);
      AddFrames(n / d, 1, d);
    }
  }

  /** The modular loop sums exactly the inputs congruent to `c`. */
  lemma {:induction false} ColumnIsStrided(samples: seq<real>, at: nat, channels: nat, c: nat, rounds: nat)
    requires c < channels && at + rounds * channels <= |samples|
    ensures Column(samples, at, channels, c, rounds * channels) == Strided(samples, at, channels, c, rounds)
  {
    if rounds > 0 {
      AddFrames(rounds - 1, 1, channels);
      ColumnIsStrided(samples, at, channels, c, rounds - 1);
      PartialBlock(samples, at, channels, c, rounds - 1, channels);
    }
  }

  /** Conversion of a frame of `from` channels to `to` channels. */
  datatype Mix = Mix(from: nat, to: nat)
  {
    ghost predicate Valid() {
      from > 0 && to > 0
    }

    /** The volume factor: an integer quotient. */
    function Volume(): nat
      requires Valid()
    {
      from / to
    }

    /** The inputs that fill whole rounds of output channels. */
    function Even(): (n: nat)
      requires Valid()
      ensures n <= from && n == Volume() * to
    {
      from - from % to
    }

    /** Output channel `c` of the frame that starts at `at`, on a down-mix. */
    function Down(samples: seq<real>, at: nat, c: nat): real
      requires Valid() && to < from && c < to && at + from <= |samples|
    {
      var leftover := if Even() != from then samples[at + from - 1] else 0.0;
      VolumeIsPositive();
      (Strided(samples, at, to, c, Volume()) + leftover) / Volume() as real
    }

    /** Output channel `c` of the frame that starts at `at`, on an up-mix. */
    function Up(samples: seq<real>, at: nat, c: nat): real
      requires Valid() && c < to && at + from <= |samples|
    {
      if c < from then samples[at + c] else Total(samples, at, from) / from as real
    }

    function Out(samples: seq<real>, at: nat, c: nat): real
      requires Valid() && c < to && at + from <= |samples|
    {
      if to < from then Down(samples, at, c) else Up(samples, at, c)
    }

    lemma VolumeIsPositive()
      requires Valid() && to < from
      ensures Volume() >= 1
    {
    }
  }

  /** Output sample `p` belongs to channel `p % to` of the frame that starts here in the input. */
  function Source(p: nat, m: Mix): nat
    requires m.Valid()
  {
    p / m.to * m.from
  }

  lemma SourceFits(p: nat, m: Mix, frames: nat)
    requires m.Valid() && p < frames * m.to
    ensures p / m.to < frames && Source(p, m) + m.from <= frames * m.from
  {
    var i := p / m.to;
    assert p == i * m.to + p % m.to;
    if i >= frames {
      Scale(frames, i, m.to);
    }
    Scale(i + 1, frames, m.from);
    AddFrames(i, 1, m.from);
  }

  /** The sample written for frame `i` and channel `c`. */
  lemma Placed(i: nat, c: nat, m: Mix, frames: nat)
    requires m.Valid() && i < frames && c < m.to
    ensures i * m.to + c < frames * m.to
    ensures (i * m.to + c) / m.to == i && (i * m.to + c) % m.to == c
    ensures Source(i * m.to + c, m) == i * m.from && i * m.from + m.from <= frames * m.from
  {
    Scale(i + 1, frames, m.to);
    AddFrames(i, 1, m.to);
    Remainder(i, c, m.to);
    SourceFits(i * m.to + c, m, frames);
  }

  /** The converted frames. */
  function Mixed(samples: seq<real>, m: Mix, frames: nat): (r: seq<real>)
    requires m.Valid() && frames * m.from <= |samples|
    ensures |r| == frames * m.to
  {
    Scale(0, frames, m.to);
    seq(frames * m.to, p requires 0 <= p < frames * m.to => (SourceFits(p, m, frames); m.Out(samples, Source(p, m), p % m.to)))
  }

  lemma MixedAt(samples: seq<real>, m: Mix, frames: nat, i: nat, c: nat)
    requires m.Valid() && frames * m.from <= |samples| && i < frames && c < m.to
    ensures i * m.to + c < frames * m.to && i * m.from + m.from <= |samples|
    ensures Mixed(samples, m, frames)[i * m.to + c] == m.Out(samples, i * m.from, c)
  {
    Placed(i, c, m, frames);
  }

  /** What the first loop has added to sample `p` after `n` rounds of its frame. */
  ghost function Added(samples: seq<real>, p: nat, m: Mix, n: nat): real
    requires m.Valid()
  {
    if Source(p, m) + n <= |samples| then Column(samples, Source(p, m), m.to, p % m.to, n) else 0.0
  }

  /** Adds each input of the whole rounds to its output channel. */
  method AddColumns(out: array<real>, samples: seq<real>, m: Mix, frames: nat)
    requires m.Valid() && |samples| == frames * m.from && out.Length == frames * m.to
    requires forall p :: 0 <= p < out.Length ==> out[p] == 0.0
    modifies out
    ensures forall p :: 0 <= p < out.Length ==> out[p] == Added(samples, p, m, m.Even())
  {
    hide Source, Mix.Even, Added;
    Scale(0, frames, m.to);
    var i := 0;
    while i < frames
      invariant i <= frames && 0 <= i * m.to <= out.Length
      invariant forall p :: 0 <= p < i * m.to ==> out[p] == Added(samples, p, m, m.Even())
      invariant forall p :: i * m.to <= p < out.Length ==> out[p] == 0.0
    {
      AddFrame(out, samples, m, frames, i);
      AddFrames(i, 1, m.to);
      Scale(i + 1, frames, m.to);
      i := i + 1;
    }
  }

  method AddFrame(out: array<real>, samples: seq<real>, m: Mix, frames: nat, i: nat)
    requires m.Valid() && i < frames && |samples| == frames * m.from && out.Length == frames * m.to
    requires 0 <= i * m.to <= out.Length
    requires forall p :: i * m.to <= p < out.Length ==> out[p] == 0.0
    modifies out
    ensures forall p :: 0 <= p < i * m.to ==> out[p] == old(out[p])
    ensures forall p :: i * m.to <= p < i * m.to + m.to && p < out.Length ==> out[p] == Added(samples, p, m, m.Even())
    ensures forall p :: i * m.to + m.to <= p < out.Length ==> out[p] == 0.0
  {
    hide Source, Mix.Even, Added;
    var base := i * m.to;
    AddedNothing(samples, m);
    var j := 0;
    while j < m.Even()
      invariant j <= m.Even()
      invariant forall p :: 0 <= p < base ==> out[p] == old(out[p])
      invariant forall p :: base <= p < base + m.to && p < out.Length ==> out[p] == Added(samples, p, m, j)
      invariant forall p :: base + m.to <= p < out.Length ==> out[p] == 0.0
    {
      var c := j % m.to;
      Placed(i, c, m, frames);
      assert i * m.from + j < |samples|;
      AddedStep(samples, m, frames, i, j);
      out[base + c] := out[base + c] + samples[i * m.from + j];
      j := j + 1;
    }
  }

  lemma AddedNothing(samples: seq<real>, m: Mix)
    requires m.Valid()
    ensures forall p: nat :: Added(samples, p, m, 0) == 0.0
  {
  }

  /** Round `j` of frame `i` touches one sample. */
  lemma AddedStep(samples: seq<real>, m: Mix, frames: nat, i: nat, j: nat)
    requires m.Valid() && i < frames && j < m.from && |samples| == frames * m.from
    ensures i * m.from + j < |samples|
    ensures forall p: nat :: i * m.to <= p < i * m.to + m.to ==>
              Added(samples, p, m, j + 1) == Added(samples, p, m, j) +
              if p == i * m.to + j % m.to then samples[i * m.from + j] else 0.0
  {
    Placed(i, j % m.to, m, frames);
    forall p: nat | i * m.to <= p < i * m.to + m.to
      ensures Added(samples, p, m, j + 1) == Added(samples, p, m, j) +
              if p == i * m.to + j % m.to then samples[i * m.from + j] else 0.0
    {
      Placed(i, p - i * m.to, m, frames);
    }
  }

  /** The last input of the frame that sample `p` comes from. */
  ghost function Last(samples: seq<real>, p: nat, m: Mix): real
    requires m.Valid()
  {
    if Source(p, m) + m.from <= |samples| then samples[Source(p, m) + m.from - 1] else 0.0
  }

  /** Mixes the uneven channel into every output channel. */
  method AddLeftover(out: array<real>, samples: seq<real>, m: Mix, frames: nat)
    requires m.Valid() && |samples| == frames * m.from && out.Length == frames * m.to
    modifies out
    ensures forall p :: 0 <= p < out.Length ==> out[p] == old(out[p]) + Last(samples, p, m)
  {
    hide Source;
    var i := 0;
    while i < frames
      invariant i <= frames && 0 <= i * m.to <= out.Length
      invariant forall p :: 0 <= p < i * m.to ==> out[p] == old(out[p]) + Last(samples, p, m)
      invariant forall p :: i * m.to <= p < out.Length ==> out[p] == old(out[p])
    {
      var base := i * m.to;
      AddFrames(i, 1, m.to);
      Scale(i + 1, frames, m.to);
      var j := 0;
      while j < m.to
        invariant j <= m.to
        invariant forall p :: 0 <= p < base + j ==> out[p] == old(out[p]) + Last(samples, p, m)
        invariant forall p :: base + j <= p < out.Length ==> out[p] == old(out[p])
      {
        Placed(i, j, m, frames);
        out[base + j] := out[base + j] + samples[i * m.from + (m.from - 1)];
        j := j + 1;
      }
      i := i + 1;
    }
  }

  /** Lowers the volume. */
  method Divide(out: array<real>, m: Mix, frames: nat)
    requires m.Valid() && m.Volume() > 0 && out.Length == frames * m.to
    modifies out
    ensures forall p :: 0 <= p < out.Length ==> out[p] == old(out[p]) / m.Volume() as real
  {
    hide Mix.Volume;
    var volumeFactor := m.Volume() as real;
    var i := 0;
    while i < frames
      invariant i <= frames && 0 <= i * m.to <= out.Length
      invariant forall p :: 0 <= p < i * m.to ==> out[p] == old(out[p]) / volumeFactor
      invariant forall p :: i * m.to <= p < out.Length ==> out[p] == old(out[p])
    {
      var base := i * m.to;
      AddFrames(i, 1, m.to);
      Scale(i + 1, frames, m.to);
      var j := 0;
      while j < m.to
        invariant j <= m.to
        invariant forall p :: 0 <= p < base + j ==> out[p] == old(out[p]) / volumeFactor
        invariant forall p :: base + j <= p < out.Length ==> out[p] == old(out[p])
      {
        out[base + j] := out[base + j] / volumeFactor;
        j := j + 1;
      }
      i := i + 1;
    }
  }

  /** The three passes together yield the strided mix. */
  lemma PassesAgree(samples: seq<real>, p: nat, m: Mix, frames: nat)
    requires m.Valid() && m.to < m.from && |samples| == frames * m.from && p < frames * m.to
    ensures m.Volume() > 0 && Source(p, m) + m.from <= |samples|
    ensures m.Out(samples, Source(p, m), p % m.to)
         == (Added(samples, p, m, m.Even()) + if m.Even() != m.from then Last(samples, p, m) else 0.0) / m.Volume() as real
  {
    m.VolumeIsPositive();
    SourceFits(p, m, frames);
    ColumnIsStrided(samples, Source(p, m), m.to, p % m.to, m.Volume());
  }

  /** The down-mix: the source's three nested loops. */
  method DownMix(samples: seq<real>, m: Mix, frames: nat) returns (out: array<real>)
    requires m.Valid() && m.to < m.from && |samples| == frames * m.from
    ensures fresh(out) && out[..] == Mixed(samples, m, frames)
  {
    hide Mix.Volume, Mix.Even, Mix.Out, Source, Added, Last;
    Scale(0, frames, m.to);
    out := new real[frames * m.to](_ => 0.0);
    AddColumns(out, samples, m, frames);
    if m.Even() != m.from {
      AddLeftover(out, samples, m, frames);
    }
    m.VolumeIsPositive();
    Divide(out, m, frames);
    forall p | 0 <= p < out.Length
      ensures out[p] == Mixed(samples, m, frames)[p]
    {
      PassesAgree(samples, p, m, frames);
    }
  }

  /** The sum that the innermost loop of the up-mix forms. */
  method Sum(samples: seq<real>, at: nat, n: nat) returns (sample: real)
    requires at + n <= |samples|
    ensures sample == Total(samples, at, n)
  {
    sample := 0.0;
    for k := 0 to n
      invariant sample == Total(samples, at, k)
    {
      sample := sample + samples[at + k];
    }
  }

  /** Sample `p` of the up-mix, wherever the frame lies. */
  ghost function Raised(samples: seq<real>, p: nat, m: Mix): real
    requires m.Valid()
  {
    if Source(p, m) + m.from <= |samples| then m.Up(samples, Source(p, m), p % m.to) else 0.0
  }

  /** Whether sample `p` belongs to channel `i` and to one of the first `j` frames. */
  ghost predicate Reached(m: Mix, i: nat, j: nat, p: nat)
    requires m.Valid()
  {
    p % m.to == i && p / m.to < j
  }

  lemma ReachedStep(m: Mix, i: nat, j: nat)
    requires m.Valid() && i < m.to
    ensures forall p: nat :: Reached(m, i, j + 1, p) <==> Reached(m, i, j, p) || p == j * m.to + i
    ensures forall p: nat :: !Reached(m, i, 0, p)
  {
    Remainder(j, i, m.to);
    forall p: nat | p % m.to == i && p / m.to == j
      ensures p == j * m.to + i
    {
      assert p == p / m.to * m.to + p % m.to;
    }
  }

  lemma AllReached(m: Mix, i: nat, frames: nat)
    requires m.Valid()
    ensures forall p: nat :: p < frames * m.to ==> (Reached(m, i, frames, p) <==> p % m.to == i)
  {
    forall p: nat | p < frames * m.to
      ensures p / m.to < frames
    {
      SourceFits(p, m, frames);
    }
  }

  /** One sample of the up-mix. */
  method RaiseSample(out: array<real>, samples: seq<real>, m: Mix, frames: nat, i: nat, j: nat)
    requires m.Valid() && m.from < m.to && i < m.to && j < frames
    requires |samples| == frames * m.from && out.Length == frames * m.to
    modifies out
    ensures 0 <= j * m.to + i < out.Length && out[j * m.to + i] == Raised(samples, j * m.to + i, m)
    ensures forall p :: 0 <= p < out.Length && p != j * m.to + i ==> out[p] == old(out[p])
  {
    hide Source, Total;
    Placed(j, i, m, frames);
    if i < m.from {
      out[j * m.to + i] := samples[j * m.from + i];
    } else {
      var sample := Sum(samples, j * m.from, m.from);
      out[j * m.to + i] := sample / m.from as real;
    }
  }

  /** One channel of the up-mix, over all frames. */
  method RaiseChannel(out: array<real>, samples: seq<real>, m: Mix, frames: nat, i: nat)
    requires m.Valid() && m.from < m.to && i < m.to
    requires |samples| == frames * m.from && out.Length == frames * m.to
    modifies out
    ensures forall p :: 0 <= p < out.Length ==> out[p] == if p % m.to == i then Raised(samples, p, m) else old(out[p])
  {
    hide Raised, Reached;
    ReachedStep(m, i, 0);
    var j := 0;
    while j < frames
      invariant j <= frames
      invariant forall p :: 0 <= p < out.Length ==>
                  out[p] == if Reached(m, i, j, p) then Raised(samples, p, m) else old(out[p])
    {
      ReachedStep(m, i, j);
      RaiseSample(out, samples, m, frames, i, j);
      j := j + 1;
    }
    AllReached(m, i, frames);
  }

  /** The up-mix. */
  method UpMix(samples: seq<real>, m: Mix, frames: nat) returns (out: array<real>)
    requires m.Valid() && m.from < m.to && |samples| == frames * m.from
    ensures fresh(out) && out[..] == Mixed(samples, m, frames)
  {
    hide Source, Mix.Up, Raised;
    Scale(0, frames, m.to);
    out := new real[frames * m.to](_ => 0.0);
    var i := 0;
    while i < m.to
      invariant i <= m.to
      invariant forall p :: 0 <= p < out.Length && p % m.to < i ==> out[p] == Raised(samples, p, m)
    {
      RaiseChannel(out, samples, m, frames, i);
      i := i + 1;
    }
    forall p | 0 <= p < out.Length
      ensures out[p] == Mixed(samples, m, frames)[p]
    {
      RaisedIs(samples, p, m, frames);
    }
  }

  lemma RaisedIs(samples: seq<real>, p: nat, m: Mix, frames: nat)
    requires m.Valid() && m.from < m.to && |samples| == frames * m.from && p < frames * m.to
    ensures Mixed(samples, m, frames)[p] == Raised(samples, p, m) && p % m.to < m.to
  {
    SourceFits(p, m, frames);
  }

  /** The channel conversion of the decode callback. */
  method Convert(samples: seq<real>, m: Mix, frames: nat) returns (out: seq<real>)
    requires m.Valid() && |samples| == frames * m.from
    ensures out == Mixed(samples, m, frames)
  {
    hide Mixed;
    if m.from > m.to {
      var mixed := DownMix(samples, m, frames);
      out := mixed[..];
    } else if m.from < m.to {
      var mixed := UpMix(samples, m, frames);
      out := mixed[..];
    } else {
      EqualIsCopy(samples, m, frames);
      out := samples;
    }
  }

  /** With as many channels out as in, nothing changes. */
  lemma EqualIsCopy(samples: seq<real>, m: Mix, frames: nat)
    requires m.Valid() && m.from == m.to && |samples| == frames * m.from
    ensures Mixed(samples, m, frames) == samples
  {
    forall p | 0 <= p < |samples|
      ensures Mixed(samples, m, frames)[p] == samples[p]
    {
      SourceFits(p, m, frames);
      assert Source(p, m) + p % m.to == p;
    }
  }

  /** Sum of the first `n` output channels of a frame. */
  function OutTotal(samples: seq<real>, m: Mix, at: nat, n: nat): real
    requires m.Valid() && n <= m.to && at + m.from <= |samples|
  {
    if n == 0 then 0.0 else OutTotal(samples, m, at, n - 1) + m.Out(samples, at, n - 1)
  }

  function StridedTotal(samples: seq<real>, at: nat, channels: nat, rounds: nat, n: nat): real
    requires n <= channels && at + rounds * channels <= |samples|
  {
    if n == 0 then 0.0
    else StridedTotal(samples, at, channels, rounds, n - 1) + Strided(samples, at, channels, n - 1, rounds)
  }

  lemma {:induction false} TotalJoin(samples: seq<real>, at: nat, a: nat, b: nat)
    requires at + a + b <= |samples|
    ensures Total(samples, at, a + b) == Total(samples, at, a) + Total(samples, at + a, b)
  {
    if b > 0 {
      TotalJoin(samples, at, a, b - 1);
    }
  }

  lemma {:induction false} AddRound(samples: seq<real>, at: nat, channels: nat, rounds: nat, n: nat)
    requires n <= channels && rounds > 0 && at + rounds * channels <= |samples|
    ensures 0 <= (rounds - 1) * channels && (rounds - 1) * channels + channels == rounds * channels
    ensures StridedTotal(samples, at, channels, rounds, n)
         == StridedTotal(samples, at, channels, rounds - 1, n) + Total(samples, at + (rounds - 1) * channels, n)
  {
    AddFrames(rounds - 1, 1, channels);
    if n > 0 {
      AddRound(samples, at, channels, rounds, n - 1);
    }
  }

  /** Dealing the inputs out to the channels loses none and counts none twice. */
  lemma {:induction false} StridesPartition(samples: seq<real>, at: nat, channels: nat, rounds: nat)
    requires at + rounds * channels <= |samples|
    ensures StridedTotal(samples, at, channels, rounds, channels) == Total(samples, at, rounds * channels)
  {
    if rounds > 0 {
      AddRound(samples, at, channels, rounds, channels);
      StridesPartition(samples, at, channels, rounds - 1);
      TotalJoin(samples, at, (rounds - 1) * channels, channels);
    } else {
      NoRounds(samples, at, channels, channels);
    }
  }

  lemma {:induction false} NoRounds(samples: seq<real>, at: nat, channels: nat, n: nat)
    requires n <= channels && at <= |samples|
    ensures StridedTotal(samples, at, channels, 0, n) == 0.0
  {
    if n > 0 {
      NoRounds(samples, at, channels, n - 1);
    }
  }

  function Leftover(samples: seq<real>, m: Mix, at: nat): real
    requires m.Valid() && at + m.from <= |samples|
  {
    if m.Even() != m.from then samples[at + m.from - 1] else 0.0
  }

  lemma {:induction false} DownTotal(samples: seq<real>, m: Mix, at: nat, n: nat)
    requires m.Valid() && m.to < m.from && n <= m.to && at + m.from <= |samples|
    ensures m.Volume() as real * OutTotal(samples, m, at, n)
         == StridedTotal(samples, at, m.to, m.Volume(), n) + n as real * Leftover(samples, m, at)
  {
    hide Strided, Mix.Volume, Mix.Even;
    m.VolumeIsPositive();
    if n > 0 {
      DownTotal(samples, m, at, n - 1);
    }
  }

  /** On a down-mix, what all output channels carry is what the inputs of the whole rounds carry, plus the leftover in each. */
  lemma DownConserves(samples: seq<real>, m: Mix, at: nat)
    requires m.Valid() && m.to < m.from && at + m.from <= |samples|
    ensures m.Volume() as real * OutTotal(samples, m, at, m.to)
         == Total(samples, at, m.Even()) + m.to as real * Leftover(samples, m, at)
  {
    DownTotal(samples, m, at, m.to);
    StridesPartition(samples, at, m.to, m.Volume());
  }

  lemma {:induction false} UpTotal(samples: seq<real>, m: Mix, at: nat, n: nat)
    requires m.Valid() && m.from <= m.to && n <= m.to && at + m.from <= |samples|
    ensures OutTotal(samples, m, at, n)
         == if n <= m.from then Total(samples, at, n)
            else Total(samples, at, m.from) + (n - m.from) as real * (Total(samples, at, m.from) / m.from as real)
  {
    if n > 0 {
      UpTotal(samples, m, at, n - 1);
    }
  }

  function Mean(total: real, channels: nat): real
    requires channels > 0
  {
    total / channels as real
  }

  /** The frame's mean is the same before and after the conversion. */
  ghost predicate KeepsMean(samples: seq<real>, m: Mix, at: nat)
    requires m.Valid() && at + m.from <= |samples|
  {
    Mean(OutTotal(samples, m, at, m.to), m.to) == Mean(Total(samples, at, m.from), m.from)
  }

  lemma EqualMeans(out: real, to: real, total: real, from: real, volume: real)
    requires to > 0.0 && from > 0.0 && volume * out == total && volume * to == from
    ensures out / to == total / from
  {
    assert out * from == out * (volume * to) == (volume * out) * to == total * to;
  }

  lemma UpMean(out: real, to: real, total: real, from: real)
    requires to > 0.0 && from > 0.0 && out == total + (to - from) * (total / from)
    ensures out / to == total / from
  {
    var mean := total / from;
    assert total == from * mean;
    assert out == from * mean + (to - from) * mean == to * mean;
  }

  /** An up-mix, and a down-mix to a divisor, keep the mean of every frame. */
  lemma MeanKept(samples: seq<real>, m: Mix, at: nat)
    requires m.Valid() && at + m.from <= |samples|
    requires m.from <= m.to || m.from % m.to == 0
    ensures KeepsMean(samples, m, at)
  {
    hide OutTotal, Total;
    if m.from <= m.to {
      UpTotal(samples, m, at, m.to);
      UpMean(OutTotal(samples, m, at, m.to), m.to as real, Total(samples, at, m.from), m.from as real);
    } else {
      DownConserves(samples, m, at);
      assert m.Volume() * m.to == m.from;
      assert m.Volume() as real * m.to as real == m.from as real;
      EqualMeans(OutTotal(samples, m, at, m.to), m.to as real, Total(samples, at, m.from), m.from as real,
                 m.Volume() as real);
    }
  }

  ghost predicate Within(samples: seq<real>) {
    forall i :: 0 <= i < |samples| ==> -1.0 <= samples[i] <= 1.0
  }

  lemma {:induction false} StridedBound(samples: seq<real>, at: nat, channels: nat, c: nat, rounds: nat)
    requires c < channels && at + rounds * channels <= |samples| && Within(samples)
    ensures -(rounds as real) <= Strided(samples, at, channels, c, rounds) <= rounds as real
  {
    if rounds > 0 {
      AddFrames(rounds - 1, 1, channels);
      StridedBound(samples, at, channels, c, rounds - 1);
    }
  }

  lemma Quotient(x: real, bound: real, q: real)
    requires q > 0.0 && -bound <= x <= bound
    ensures -(bound / q) <= x / q <= bound / q
  {
  }

  /** Inputs within [-1, 1] leave a down-mix within [-1, 1], or within (q + 1) / q with a leftover channel. */
  lemma DownBound(samples: seq<real>, m: Mix, at: nat, c: nat)
    requires m.Valid() && m.to < m.from && at + m.from <= |samples| && c < m.to && Within(samples)
    ensures m.Volume() > 0
    ensures var q := m.Volume() as real;
            var bound := if m.from % m.to == 0 then 1.0 else (q + 1.0) / q;
            -bound <= m.Out(samples, at, c) <= bound
  {
    m.VolumeIsPositive();
    var q := m.Volume() as real;
    StridedBound(samples, at, m.to, c, m.Volume());
    var x := Strided(samples, at, m.to, c, m.Volume()) + Leftover(samples, m, at);
    Quotient(x, if m.from % m.to == 0 then q else q + 1.0, q);
    assert q / q == 1.0;
  }

  function Ones(n: nat): (r: seq<real>)
    ensures |r| == n && Within(r)
  {
    seq(n, i => 1.0)
  }

  lemma {:induction false} StridedOnes(n: nat, channels: nat, c: nat, rounds: nat)
    requires c < channels && rounds * channels <= n
    ensures Strided(Ones(n), 0, channels, c, rounds) == rounds as real
  {
    if rounds > 0 {
      AddFrames(rounds - 1, 1, channels);
      StridedOnes(n, channels, c, rounds - 1);
    }
  }

  /** One frame of this size stays within [-1, 1] and keeps its mean. */
  ghost predicate Faithful(samples: seq<real>, m: Mix)
    requires m.Valid() && |samples| == m.from
  {
    KeepsMean(samples, m, 0) && forall c: nat :: c < m.to ==> -1.0 <= m.Out(samples, 0, c) <= 1.0
  }

  lemma {:induction false} TotalBound(samples: seq<real>, at: nat, n: nat)
    requires at + n <= |samples| && Within(samples)
    ensures -(n as real) <= Total(samples, at, n) <= n as real
  {
    if n > 0 {
      TotalBound(samples, at, n - 1);
    }
  }

  /** The conversion keeps every frame's mean and range if and only if it does not reduce to a non-divisor. */
  lemma FaithfulExactly(m: Mix)
    requires m.Valid()
    ensures (forall samples: seq<real> :: |samples| == m.from && Within(samples) ==> Faithful(samples, m))
       <==> (m.from <= m.to || m.from % m.to == 0)
  {
    hide Mix.Volume, Mix.Even, Mix.Out, KeepsMean;
    if m.from <= m.to || m.from % m.to == 0 {
      forall samples: seq<real> | |samples| == m.from && Within(samples)
        ensures Faithful(samples, m)
      {
        MeanKept(samples, m, 0);
        forall c: nat | c < m.to
          ensures -1.0 <= m.Out(samples, 0, c) <= 1.0
        {
          RangeKept(samples, m, c);
        }
      }
    } else {
      OnesClip(m);
      assert !Faithful(Ones(m.from), m);
    }
  }

  lemma RangeKept(samples: seq<real>, m: Mix, c: nat)
    requires m.Valid() && |samples| == m.from && Within(samples) && c < m.to
    requires m.from <= m.to || m.from % m.to == 0
    ensures -1.0 <= m.Out(samples, 0, c) <= 1.0
  {
    if m.to < m.from {
      DownBound(samples, m, 0, c);
    } else if c >= m.from {
      TotalBound(samples, 0, m.from);
      Quotient(Total(samples, 0, m.from), m.from as real, m.from as real);
      assert m.from as real / m.from as real == 1.0;
    }
  }

  /** Full-scale inputs in every channel clip when the last channel is left over. */
  lemma OnesClip(m: Mix)
    requires m.Valid() && m.to < m.from && m.from % m.to != 0
    ensures m.Out(Ones(m.from), 0, 0) > 1.0
  {
    m.VolumeIsPositive();
    StridedOnes(m.from, m.to, 0, m.Volume());
    var q := m.Volume() as real;
    assert (q + 1.0) / q == 1.0 + 1.0 / q;
  }

  lemma {:induction false} StridedIgnores(samples: seq<real>, at: nat, channels: nat, c: nat, rounds: nat, j: nat, x: real)
    requires c < channels && at + rounds * channels <= |samples| && rounds * channels <= j && at + j < |samples|
    ensures Strided(samples[at + j := x], at, channels, c, rounds) == Strided(samples, at, channels, c, rounds)
  {
    if rounds > 0 {
      AddFrames(rounds - 1, 1, channels);
      StridedIgnores(samples, at, channels, c, rounds - 1, j, x);
    }
  }

  /** Of the channels left over only the last is heard: the others reach no output. */
  lemma LeftoverIsDropped(samples: seq<real>, m: Mix, at: nat, j: nat, x: real, c: nat)
    requires m.Valid() && m.to < m.from && at + m.from <= |samples| && c < m.to
    requires m.Even() <= j < m.from - 1
    ensures m.Out(samples[at + j := x], at, c) == m.Out(samples, at, c)
  {
    StridedIgnores(samples, at, m.to, c, m.Volume(), j, x);
  }
}
