/**
 * The Java half of the Android decoder: packets come out of the platform codec, the
 * first bytes after a seek are cut, and the end of the stream travels in the sign of
 * the byte count.
 */
module JavaDecoder {
  import opened ByteOrder
  import opened Frames
  import opened Truncation

  /** What the codec does in one turn.  A failure may come without a message. */
  datatype Output = Pcm(bytes: seq<byte>, last: bool) | FormatChanged | Failed(message: bool)

  /** A turn of the codec; `inputEnds` if there was no packet left to feed it. */
  datatype Turn = Turn(inputEnds: bool, output: Output)

  const INT_MIN: int := -0x8000_0000

  /** Room in the receiving buffer: 512 kB. */
  const JAVA_BUFFER_BYTES: nat := 512 * 1024

  /** All PCM the codec has put out in its first `n` turns. */
  function PcmOf(script: seq<Turn>, n: nat): seq<byte>
    requires n <= |script|
  {
    if n == 0 then [] else
      PcmOf(script, n - 1) + if script[n - 1].output.Pcm? then script[n - 1].output.bytes else []
  }

  lemma PcmStep(script: seq<Turn>, n: nat)
    requires n < |script|
    ensures PcmOf(script, n + 1) == PcmOf(script, n) + if script[n].output.Pcm? then script[n].output.bytes else []
    ensures !script[n].output.Pcm? ==> PcmOf(script, n + 1) == PcmOf(script, n)
    ensures !script[n].output.Pcm? ==> forall cut :: ToCut(script, n + 1, cut) == ToCut(script, n, cut)
  {
  }

  /** A byte stream without its first `cut` bytes. */
  function AfterCut(stream: seq<byte>, cut: nat): (rest: seq<byte>)
    ensures |rest| == if |stream| <= cut then 0 else |stream| - cut
  {
    if |stream| <= cut then [] else stream[cut..]
  }

  /** How much of the cut is left after `n` turns. */
  ghost function ToCut(script: seq<Turn>, n: nat, cut: nat): nat
    requires n <= |script|
  {
    if |PcmOf(script, n)| >= cut then 0 else cut - |PcmOf(script, n)|
  }

  /** Cutting a stream chunk by chunk is cutting it once. */
  lemma CutJoins(a: seq<byte>, b: seq<byte>, cut: nat)
    ensures AfterCut(a + b, cut) == AfterCut(a, cut) + AfterCut(b, if |a| >= cut then 0 else cut - |a|)
  {
  }

  /** What one call of `decodeOnePacket` comes to. */
  datatype Packet = Error(message: bool) | End | Last(bytes: seq<byte>) | More(bytes: seq<byte>)

  /** A turn that hands out nothing and lets the call go on: a notification, or PCM that is cut off whole. */
  ghost predicate Passes(script: seq<Turn>, turn: nat, cut: nat)
    requires turn < |script|
  {
    match script[turn].output
    case Failed(_) => false
    case FormatChanged => true
    case Pcm(bytes, last) => !last && AfterCut(bytes, ToCut(script, turn, cut)) == []
  }

  /** The first turn from `turn` on that decides a call, or the end of the script. */
  ghost function Deciding(script: seq<Turn>, turn: nat, cut: nat): (t: nat)
    requires turn <= |script|
    ensures turn <= t <= |script| && (t < |script| ==> !Passes(script, t, cut))
    ensures forall i :: turn <= i < t ==> Passes(script, i, cut)
    decreases |script| - turn
  {
    if turn < |script| && Passes(script, turn, cut) then Deciding(script, turn + 1, cut) else turn
  }

  /** The packet of the next call.  A codec that does nothing more has failed. */
  ghost function Next(script: seq<Turn>, turn: nat, cut: nat): Packet
    requires turn <= |script|
  {
    var t := Deciding(script, turn, cut);
    if t == |script| then Error(true) else PacketAt(script, t, cut)
  }

  ghost function PacketAt(script: seq<Turn>, t: nat, cut: nat): Packet
    requires t < |script| && !Passes(script, t, cut)
  {
    match script[t].output
    case Failed(message) => Error(message)
    case Pcm(bytes, last) =>
      var out := AfterCut(bytes, ToCut(script, t, cut));
      if !last then More(out) else if out == [] then End else Last(out)
  }

  /** The turn after that call. */
  ghost function NextTurn(script: seq<Turn>, turn: nat, cut: nat): (t: nat)
    requires turn <= |script|
    ensures turn <= t <= |script| && (turn < |script| ==> turn < t)
  {
    var t := Deciding(script, turn, cut);
    if t == |script| then t else t + 1
  }

  /** Byte counts carry the end of the stream in their sign. */
  function Code(packet: Packet): (code: int)
    ensures packet.End? ==> code == -0x8000_0000
    ensures packet.Error? ==> code == 0
  {
    match packet
    case Error(_) => 0
    case End => INT_MIN
    case Last(bytes) => -|bytes|
    case More(bytes) => |bytes|
  }

  function Bytes(packet: Packet): seq<byte> {
    if packet.Last? || packet.More? then packet.bytes else []
  }

  /** Packets are not empty, and the code tells them apart. */
  lemma NextHasBytes(script: seq<Turn>, turn: nat, cut: nat)
    requires turn <= |script|
    ensures Next(script, turn, cut).Last? || Next(script, turn, cut).More? ==> Next(script, turn, cut).bytes != []
  {
  }

  /** Every packet holds whole frames and fits the receiving buffer. */
  ghost predicate WholePackets(script: seq<Turn>, bytesPerFrame: nat)
    requires bytesPerFrame > 0
  {
    forall i :: 0 <= i < |script| && script[i].output.Pcm? ==>
      |script[i].output.bytes| <= JAVA_BUFFER_BYTES && |script[i].output.bytes| % bytesPerFrame == 0
  }

  /** `bytesToCutAfterSeek` in frames, for an extractor that stopped at `sampleTimeUs`. */
  function FramesToCut(frame: int, samplerate: int, sampleTimeUs: int): (frames: nat)
    requires samplerate > 0
  {
    var timeToCutUs := Microseconds(frame as real, samplerate as real) - sampleTimeUs as real;
    if timeToCutUs <= 0.0 then 0 else ToLong(FramesIn(timeToCutUs, samplerate as real))
  }

  function Microseconds(frame: real, rate: real): (us: real)
    requires rate > 0.0
    ensures frame >= 0.0 ==> us >= 0.0
  {
    (frame / rate) * 1000000.0
  }

  function FramesIn(us: real, rate: real): (frames: real)
    requires rate > 0.0
    ensures frames <= 0.0 <==> us <= 0.0
  {
    (us / 1000000.0) * rate
  }

  /** Going from frames to microseconds and back, with part of a microsecond rounded away. */
  lemma RoundTripTime(frame: real, synced: real, rate: real, sampleTime: real)
    requires rate > 0.0
    ensures FramesIn(Microseconds(frame, rate) - sampleTime, rate)
         == frame - synced + FramesIn(Microseconds(synced, rate) - sampleTime, rate)
  {
    BackAndForth(frame, rate, sampleTime);
    BackAndForth(synced, rate, sampleTime);
  }

  lemma BackAndForth(frame: real, rate: real, sampleTime: real)
    requires rate > 0.0
    ensures FramesIn(Microseconds(frame, rate) - sampleTime, rate) == frame - sampleTime / 1000000.0 * rate
  {
    var x := frame / rate;
    assert x * rate == frame;
    assert ((x * 1000000.0 - sampleTime) / 1000000.0) * rate == x * rate - sampleTime / 1000000.0 * rate;
  }

  lemma LessThanOne(lost: real, rate: real)
    requires 0.0 <= lost < 1.0 && 0.0 < rate <= 1000000.0
    ensures 0.0 <= FramesIn(lost, rate) < 1.0
  {
    assert lost / 1000000.0 * rate <= lost / 1000000.0 * 1000000.0;
  }

  /**
   * When the extractor reports the sync frame's time in whole microseconds, the cut is
   * exactly the distance to the frame sought, at any sample rate up to one megahertz.
   */
  lemma CutReachesFrame(frame: int, synced: nat, samplerate: int, sampleTimeUs: int)
    requires 0 < samplerate <= 1000000 && synced <= frame
    requires sampleTimeUs == ToLong(Microseconds(synced as real, samplerate as real))
    ensures FramesToCut(frame, samplerate, sampleTimeUs) == frame - synced
  {
    hide FramesIn, Microseconds, ToLong;
    var rate, sampleTime := samplerate as real, sampleTimeUs as real;
    var lost := Microseconds(synced as real, rate) - sampleTime;
    LessThanOne(lost, rate);
    RoundTripTime(frame as real, synced as real, rate, sampleTime);
    var timeToCutUs := Microseconds(frame as real, rate) - sampleTime;
    var frames := FramesIn(timeToCutUs, rate);
    assert frames == (frame - synced) as real + FramesIn(lost, rate);
    ToLongUnique(frames, frame - synced);
  }

  /** A codec that resumes at frame `synced` delivers the stream from the frame sought. */
  lemma CutStream(stream: seq<byte>, synced: nat, frame: nat, bytesPerFrame: nat, length: nat)
    requires synced <= frame && synced * bytesPerFrame + length <= |stream|
    ensures 0 <= synced * bytesPerFrame <= frame * bytesPerFrame
    ensures AfterCut(stream[synced * bytesPerFrame..][..length], (frame - synced) * bytesPerFrame)
         == if synced * bytesPerFrame + length <= frame * bytesPerFrame then []
            else stream[frame * bytesPerFrame..synced * bytesPerFrame + length]
  {
    Scale(0, synced, bytesPerFrame);
    Scale(synced, frame, bytesPerFrame);
  }

  /** What the extractor and the codec answer to a seek: the frame they resume at, and what follows. */
  datatype Answer = Answer(synced: nat, script: seq<Turn>)

  /** A codec that does not fail and marks the end of the stream with its last buffer. */
  ghost predicate Clean(script: seq<Turn>) {
    && |script| > 0 && script[|script| - 1].output.Pcm? && script[|script| - 1].output.last
    && forall i :: 0 <= i < |script| - 1 ==> !script[i].output.Failed? && (script[i].output.Pcm? ==> !script[i].output.last)
  }

  /** An answer to a seek to `frame` of a stream: it resumes at or before the frame and plays to the end. */
  ghost predicate Faithful(a: Answer, stream: seq<byte>, frame: nat, bytesPerFrame: nat)
    requires bytesPerFrame > 0
  {
    && a.synced <= frame && 0 <= a.synced * bytesPerFrame <= |stream|
    && Clean(a.script) && WholePackets(a.script, bytesPerFrame)
    && PcmOf(a.script, |a.script|) == stream[a.synced * bytesPerFrame..]
  }

  /** The time an extractor reports for a frame: whole microseconds. */
  function SampleTime(frame: nat, samplerate: int): int
    requires samplerate > 0
  {
    ToLong(Microseconds(frame as real, samplerate as real))
  }

  /** A clean codec never fails before its end, and ends with its last turn. */
  lemma CleanNext(script: seq<Turn>, turn: nat, cut: nat)
    requires Clean(script) && turn < |script|
    ensures !Next(script, turn, cut).Error?
    ensures Next(script, turn, cut).More? <==> NextTurn(script, turn, cut) < |script|
  {
    assert !Passes(script, |script| - 1, cut);
  }

  lemma {:induction false} PcmPrefix(script: seq<Turn>, n: nat, m: nat)
    requires n <= m <= |script|
    ensures PcmOf(script, n) <= PcmOf(script, m)
  {
    if n < m {
      PcmPrefix(script, n, m - 1);
    }
  }

  /** Where in the stream the codec of an answer has got to, in bytes. */
  ghost function Reached(a: Answer, turn: nat, bytesPerFrame: nat): int
    requires turn <= |a.script|
  {
    a.synced * bytesPerFrame + |PcmOf(a.script, turn)|
  }

  /** What an answer to a seek produces, once cut, is the stream from the frame sought on. */
  lemma ProducedIsStream(a: Answer, stream: seq<byte>, frame: nat, bytesPerFrame: nat, turn: nat)
    requires bytesPerFrame > 0 && Faithful(a, stream, frame, bytesPerFrame) && turn <= |a.script|
    ensures 0 <= frame * bytesPerFrame && Reached(a, turn, bytesPerFrame) <= |stream|
    ensures turn == |a.script| ==> Reached(a, turn, bytesPerFrame) == |stream|
    ensures AfterCut(PcmOf(a.script, turn), (frame - a.synced) * bytesPerFrame)
         == if Reached(a, turn, bytesPerFrame) <= frame * bytesPerFrame then []
            else stream[frame * bytesPerFrame..Reached(a, turn, bytesPerFrame)]
  {
    hide AfterCut, PcmOf;
    var pcm := PcmOf(a.script, turn);
    PcmPrefix(a.script, turn, |a.script|);
    assert pcm == stream[a.synced * bytesPerFrame..][..|pcm|];
    CutStream(stream, a.synced, frame, bytesPerFrame, |pcm|);
  }

  lemma {:induction false} PacketsWhole(script: seq<Turn>, n: nat, unit: nat)
    requires unit > 0 && n <= |script| && WholePackets(script, unit)
    ensures |PcmOf(script, n)| % unit == 0
  {
    if n == 0 {
      WholeFrames(0, unit);
    } else {
      PacketsWhole(script, n - 1, unit);
      if script[n - 1].output.Pcm? {
        WholeSum(|PcmOf(script, n - 1)|, |script[n - 1].output.bytes|, unit);
      }
    }
  }

  /** What is left of whole packets after cutting whole frames is whole frames. */
  lemma ProducedWhole(script: seq<Turn>, n: nat, cut: nat, unit: nat)
    requires unit > 0 && n <= |script| && WholePackets(script, unit) && cut % unit == 0
    ensures |AfterCut(PcmOf(script, n), cut)| % unit == 0
  {
    PacketsWhole(script, n, unit);
    WholeFrames(0, unit);
    if |PcmOf(script, n)| > cut {
      WholeDifference(|PcmOf(script, n)|, cut, unit);
    }
  }

  lemma WholeSum(a: nat, b: nat, unit: nat)
    requires unit > 0 && a % unit == 0 && b % unit == 0
    ensures (a + b) % unit == 0
  {
    DivMul(a + b, a / unit + b / unit, unit);
  }

  lemma WholeDifference(a: nat, b: nat, unit: nat)
    requires unit > 0 && a % unit == 0 && b % unit == 0 && b <= a
    ensures (a - b) % unit == 0
  {
    DivMul(a - b, a / unit - b / unit, unit);
  }

  class Decoder {
    const samplerate: int
    const bytesPerFrame: nat
    var lastError: bool
    var endOfInput: bool
    var bytesToCutAfterSeek: nat
    /** The codec: what it does from the last seek on, and how far it has got. */
    var script: seq<Turn>
    var turn: nat
    /** The cut the last seek asked for. */
    ghost var cut: nat

    ghost predicate Valid()
      reads this
    {
      && bytesPerFrame > 0 && samplerate > 0
      && turn <= |script|
      && WholePackets(script, bytesPerFrame)
      && cut % bytesPerFrame == 0
      && bytesToCutAfterSeek == ToCut(script, turn, cut)
    }

    /** The codec's PCM since the last seek, without the bytes to be cut. */
    ghost function Produced(): seq<byte>
      requires turn <= |script|
      reads this
    {
      AfterCut(PcmOf(script, turn), cut)
    }

    constructor (samplerate: int, bytesPerFrame: nat, script: seq<Turn>)
      requires samplerate > 0 && bytesPerFrame > 0 && WholePackets(script, bytesPerFrame)
      ensures Valid() && this.samplerate == samplerate && this.bytesPerFrame == bytesPerFrame
      ensures this.script == script && turn == cut == 0 && !lastError
    {
      this.samplerate := samplerate;
      this.bytesPerFrame := bytesPerFrame;
      this.script := script;
      lastError, endOfInput, bytesToCutAfterSeek := false, false, 0;
      turn, cut := 0, 0;
      new;
      WholeFrames(0, bytesPerFrame);
    }

    /**
     * `seek`.  The extractor stops at a sync sample at `sampleTimeUs`; from there the codec
     * will do `next`.  Flushing the codec can fail, with or without a message.
     */
    method Seek(frame: int, sampleTimeUs: int, next: seq<Turn>, flushed: bool, message: bool) returns (ok: bool)
      requires Valid() && WholePackets(next, bytesPerFrame)
      modifies this
      ensures Valid() && script == next && turn == 0
      ensures cut == FramesToCut(frame, samplerate, sampleTimeUs) * bytesPerFrame
      ensures ok == !lastError
      ensures lastError == if flushed then old(lastError) else message
    {
      script, turn := next, 0;
      WholeFrames(FramesToCut(frame, samplerate, sampleTimeUs), bytesPerFrame);
      bytesToCutAfterSeek := FramesToCut(frame, samplerate, sampleTimeUs) * bytesPerFrame;
      cut := bytesToCutAfterSeek;
      if flushed {
        endOfInput := false;
      } else {
        lastError := message;
      }
      return !lastError;
    }

    method GetLastError() returns (e: bool)
      modifies this`lastError
      ensures e == old(lastError) && !lastError
    {
      e := lastError;
      lastError := false;
    }

    /** `decodeOnePacket`: the code and bytes of the next packet of the script, an error kept for later. */
    method DecodeOnePacket() returns (code: int, out: seq<byte>)
      requires Valid()
      modifies this`lastError, this`endOfInput, this`bytesToCutAfterSeek, this`turn
      ensures Valid() && turn == NextTurn(script, old(turn), cut)
      ensures var packet := Next(script, old(turn), cut);
              && code == Code(packet) && out == Bytes(packet) && |out| <= 512 * 1024
              && lastError == if packet.Error? then packet.message else old(lastError)
      ensures Produced() == old(Produced()) + out
      decreases |script| - turn
    {
      if turn == |script| {
        lastError := true;
        return 0, [];
      }
      hide Passes, PacketAt;
      var again;
      code, out, again := TakeTurn();
      if again {
        ghost var produced := Produced();
        code, out := DecodeOnePacket();
        assert produced + out == old(Produced()) + out;
      }
    }

    /** One turn of the codec; `again` if there is nothing to hand out yet. */
    method TakeTurn() returns (code: int, out: seq<byte>, again: bool)
      requires Valid() && turn < |script|
      modifies this`lastError, this`endOfInput, this`bytesToCutAfterSeek, this`turn
      ensures Valid() && turn == old(turn) + 1 && again == Passes(script, old(turn), cut)
      ensures if again then Produced() == old(Produced()) && lastError == old(lastError)
              else var packet := PacketAt(script, old(turn), cut);
                   && code == Code(packet) && out == Bytes(packet) && |out| <= JAVA_BUFFER_BYTES
                   && Produced() == old(Produced()) + out
                   && lastError == if packet.Error? then packet.message else old(lastError)
    {
      PcmStep(script, turn);
      var event := script[turn];
      assert event.output.Pcm? ==> |event.output.bytes| <= JAVA_BUFFER_BYTES;
      hide AfterCut, PcmOf, ToCut, WholePackets, Code, Bytes;
      if !endOfInput && event.inputEnds {
        endOfInput := true;
      }
      turn := turn + 1;
      match event.output {
        case Failed(message) =>
          lastError := message;
          return 0, [], false;
        case FormatChanged =>
          return 0, [], true;
        case Pcm(pcm, last) =>
          code, out, again := TakeBuffer(pcm, last);
      }
    }

    /** What the buffer of the turn just taken comes to; an empty one is passed over unless it is the last. */
    method TakeBuffer(pcm: seq<byte>, last: bool) returns (code: int, out: seq<byte>, again: bool)
      requires 0 < turn <= |script| && script[turn - 1].output == Pcm(pcm, last)
      requires bytesToCutAfterSeek == ToCut(script, turn - 1, cut)
      modifies this`bytesToCutAfterSeek
      ensures bytesToCutAfterSeek == ToCut(script, turn, cut) && |out| <= |pcm|
      ensures again == Passes(script, turn - 1, cut)
      ensures if again then out == [] else
                var packet := PacketAt(script, turn - 1, cut);
                !packet.Error? && code == Code(packet) && out == Bytes(packet)
      ensures AfterCut(PcmOf(script, turn), cut) == AfterCut(PcmOf(script, turn - 1), cut) + out
    {
      hide AfterCut, PcmOf, ToCut;
      out := TakePcm(pcm);
      if last {
        return if |out| < 1 then INT_MIN else -|out|, out, false;
      }
      return |out|, out, |out| < 1;
    }

    /** The PCM of the turn just taken, cut. */
    method TakePcm(pcm: seq<byte>) returns (out: seq<byte>)
      requires 0 < turn <= |script| && script[turn - 1].output.Pcm? && pcm == script[turn - 1].output.bytes
      requires bytesToCutAfterSeek == ToCut(script, turn - 1, cut)
      modifies this`bytesToCutAfterSeek
      ensures bytesToCutAfterSeek == ToCut(script, turn, cut) && |out| <= |pcm|
      ensures out == AfterCut(pcm, ToCut(script, turn - 1, cut))
      ensures AfterCut(PcmOf(script, turn), cut) == AfterCut(PcmOf(script, turn - 1), cut) + out
    {
      hide AfterCut;
      CutJoins(PcmOf(script, turn - 1), pcm, cut);
      out := CutPcm(pcm);
    }

    /** The cut after a seek, packet by packet. */
    method CutPcm(pcm: seq<byte>) returns (out: seq<byte>)
      requires bytesToCutAfterSeek <= cut
      modifies this`bytesToCutAfterSeek
      ensures out == AfterCut(pcm, old(bytesToCutAfterSeek))
      ensures bytesToCutAfterSeek == if |pcm| >= old(bytesToCutAfterSeek) then 0 else old(bytesToCutAfterSeek) - |pcm|
    {
      var bytesRead: int := |pcm|;
      if bytesToCutAfterSeek > 0 {
        bytesRead := bytesRead - bytesToCutAfterSeek;
        if bytesRead <= 0 {
          bytesToCutAfterSeek := bytesToCutAfterSeek - |pcm|;
          out := [];
        } else {
          out := pcm[bytesToCutAfterSeek..bytesToCutAfterSeek + bytesRead];
          bytesToCutAfterSeek := 0;
        }
      } else {
        out := pcm;
      }
    }
  }
}
