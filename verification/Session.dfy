/**
 * What every decoder of the library promises its callers: a reader with a
 * position over one fixed stream, whose `decode` hands out the frames at that
 * position and advances past them.  The concrete decoders are proved to refine
 * this reader, whatever they buffer behind it.
 */
module Session {
  import opened Frames
  import opened Truncation

  datatype Operation = Seek(frame: nat) | Decode(frames: nat) | Flush

  /**
   * The stream as a caller sees it: `length` frames, of which `last` is the highest
   * one a seek can land on.
   */
  datatype Reader = Reader(stream: seq<real>, channels: nat, length: nat, last: nat)
  {
    ghost predicate Valid() {
      channels > 0 && length * channels <= |stream|
    }

    /** How many frames `decode(n)` hands out at `position`. */
    function Available(position: nat, n: nat): nat {
      if position >= length then 0 else Min(n, length - position)
    }

    function Delivered(position: nat, n: nat): (r: seq<real>)
      requires Valid()
    {
      if position >= length then [] else
        Scale(position + Available(position, n), length, channels);
        Span(stream, position, position + Available(position, n), channels)
    }

    function Move(position: nat, op: Operation): nat {
      match op
      case Seek(frame) => Min(frame, last)
      case Decode(n) => position + Available(position, n)
      case Flush => position
    }

    /** The sequences of samples handed out by the decodes of a run, in order. */
    function Outputs(position: nat, ops: seq<Operation>): seq<seq<real>>
      requires Valid()
      decreases |ops|
    {
      if |ops| == 0 then [] else
        var rest := Outputs(Move(position, ops[0]), ops[1..]);
        if ops[0].Decode? then [Delivered(position, ops[0].frames)] + rest else rest
    }

    function Position(position: nat, ops: seq<Operation>): nat
      decreases |ops|
    {
      if |ops| == 0 then position else Position(Move(position, ops[0]), ops[1..])
    }
  }

  function Flatten(chunks: seq<seq<real>>): seq<real> {
    if |chunks| == 0 then [] else chunks[0] + Flatten(chunks[1..])
  }

  ghost predicate SeekFree(ops: seq<Operation>) {
    forall i :: 0 <= i < |ops| ==> !ops[i].Seek?
  }

  /** Between two seeks nothing is repeated, dropped or reordered, however the reads are cut. */
  lemma {:induction false} RunIsOneSlice(r: Reader, position: nat, ops: seq<Operation>)
    requires r.Valid() && SeekFree(ops) && position <= r.length
    ensures position <= r.Position(position, ops) <= r.length
    ensures r.Position(position, ops) * r.channels <= |r.stream|
    ensures Flatten(r.Outputs(position, ops))
         == Span(r.stream, position, r.Position(position, ops), r.channels)
    decreases |ops|
  {
    Scale(position, r.length, r.channels);
    if |ops| > 0 {
      var next := r.Move(position, ops[0]);
      assert SeekFree(ops[1..]);
      RunIsOneSlice(r, next, ops[1..]);
      var last := r.Position(position, ops);
      assert last == r.Position(next, ops[1..]);
      Scale(last, r.length, r.channels);
      if ops[0].Decode? {
        var head := r.Delivered(position, ops[0].frames);
        var rest := r.Outputs(next, ops[1..]);
        assert ([head] + rest)[1..] == rest;
        SpanJoin(r.stream, position, next, last, r.channels);
        Scale(next, r.length, r.channels);
      }
    }
  }

  /** A seek erases history: what follows depends only on where the seek landed. */
  lemma {:induction false} SeekForgets(r: Reader, p: nat, q: nat, before: seq<Operation>, frame: nat, after: seq<Operation>)
    requires r.Valid()
    ensures |r.Outputs(q, [Seek(frame)] + after)| <= |r.Outputs(p, before + [Seek(frame)] + after)|
    ensures r.Outputs(p, before + [Seek(frame)] + after)
              [|r.Outputs(p, before + [Seek(frame)] + after)| - |r.Outputs(q, [Seek(frame)] + after)|..]
         == r.Outputs(q, [Seek(frame)] + after)
    decreases |before|
  {
    var ops := before + [Seek(frame)] + after;
    if |before| == 0 {
      assert ops == [Seek(frame)] + after;
      assert ops[1..] == after && ([Seek(frame)] + after)[1..] == after;
    } else {
      assert ops[1..] == before[1..] + [Seek(frame)] + after;
      SeekForgets(r, r.Move(p, ops[0]), q, before[1..], frame, after);
    }
  }
}
