/** The C++ half of the Android decoder, over the Java half and the frame buffer. */
module AndroidDecoder {
  import opened ByteOrder
  import opened FrameBuffer
  import opened Frames
  import opened Session
  import opened ShortReads
  import opened Truncation
  import JavaDecoder

  /** A packet of whole frames goes into the buffer whole. */
  lemma PacketFrames(before: seq<byte>, out: seq<byte>, channels: nat)
    requires channels > 0
    requires |before| % (2 * channels) == 0 && |before + out| % (2 * channels) == 0
    ensures |out| % (2 * channels) == 0
    ensures Samples(out)[..WholeIn(|out|, channels) * channels] == Samples(out)
    ensures Samples(before + out) == Samples(before) + Samples(out)
    ensures out != [] ==> WholeIn(|out|, channels) > 0 && Samples(out) != []
  {
    JavaDecoder.WholeDifference(|before + out|, |before|, 2 * channels);
    WholeBytes(|out|, channels);
    WholeBytes(|before|, channels);
    SamplesJoin(before, out);
  }

  lemma WholeBytes(bytes: nat, channels: nat)
    requires channels > 0 && bytes % (2 * channels) == 0
    ensures WholeIn(bytes, channels) * channels == bytes / 2 && bytes % 2 == 0
    ensures bytes > 0 ==> WholeIn(bytes, channels) > 0
  {
    var unit := 2 * channels;
    assert bytes == bytes / unit * unit;
    assert bytes / unit * unit == 2 * (bytes / unit * channels);
  }

  /** A codec that has done nothing has produced nothing. */
  lemma NothingYet(script: seq<JavaDecoder.Turn>)
    ensures forall cut: nat {:trigger JavaDecoder.AfterCut(JavaDecoder.PcmOf(script, 0), cut)} ::
              Samples(JavaDecoder.AfterCut(JavaDecoder.PcmOf(script, 0), cut)) == []
  {
  }

  /** The code of a packet tells what it is. */
  lemma PacketTold(packet: JavaDecoder.Packet, code: int, bytes: seq<byte>)
    requires code == JavaDecoder.Code(packet) && bytes == JavaDecoder.Bytes(packet) && |bytes| <= JavaDecoder.JAVA_BUFFER_BYTES
    requires packet.Last? || packet.More? ==> bytes != []
    ensures code == 0 <==> packet.Error?
    ensures code == JavaDecoder.INT_MIN <==> packet.End?
    ensures code < 0 && code != JavaDecoder.INT_MIN <==> packet.Last?
    ensures packet.Last? || packet.More? ==> bytes == packet.bytes
    ensures packet.Error? || packet.End? ==> bytes == []
  {
  }

  /** Where frames can still come from: the buffer, then the turns of the codec. */
  datatype Supply = Supply(buffered: nat, turn: nat, eof: bool)

  /** Why the loop of `decode` ends. */
  datatype Ending = Enough | EndOfStream | Failed(message: bool) | Refused

  datatype Halt = Halt(supply: Supply, count: nat, ending: Ending)

  /** What stays the same during a call; without memory the buffer keeps its capacity. */
  datatype Setting = Setting(script: seq<JavaDecoder.Turn>, cut: nat, channels: nat, canGrow: bool, capacity: nat)
  {
    ghost predicate Valid() {
      channels > 0
    }

    function FramesIn(bytes: seq<byte>): nat
      requires Valid()
    {
      WholeIn(|bytes|, channels)
    }

    /** Whether a packet fits the buffer, which is empty when a packet is asked for. */
    predicate Fits(bytes: seq<byte>)
      requires Valid()
    {
      canGrow || FramesIn(bytes) <= capacity
    }

    /** The sizes, in frames, of the packets that reach the buffer from `turn` on. */
    ghost function Packets(turn: nat, eof: bool): seq<nat>
      requires Valid() && turn <= |script|
      decreases |script| - turn
    {
      if eof || turn == |script| then [] else
        match JavaDecoder.Next(script, turn, cut)
        case Last(bytes) => if Fits(bytes) then [FramesIn(bytes)] else []
        case More(bytes) =>
          if Fits(bytes) then [FramesIn(bytes)] + Packets(JavaDecoder.NextTurn(script, turn, cut), false) else []
        case _ => []
    }

    /** The pieces in which frames become available to a call: what is buffered, then packet by packet. */
    ghost function Arrivals(s: Supply): seq<nat>
      requires Valid() && s.turn <= |script|
    {
      [s.buffered] + Packets(s.turn, s.eof)
    }

    /** One packet: the supply behind it, and why the loop ends there unless it goes on. */
    ghost function Pull(s: Supply): (r: (Supply, Ending))
      requires Valid() && s.turn <= |script|
      ensures s.turn <= r.0.turn <= |script| && (r.1.Enough? ==> s.turn < r.0.turn)
    {
      var turn := JavaDecoder.NextTurn(script, s.turn, cut);
      match JavaDecoder.Next(script, s.turn, cut)
      case Error(message) => (Supply(0, turn, s.eof), Failed(message))
      case End => (Supply(0, turn, true), EndOfStream)
      case Last(bytes) => if Fits(bytes) then (Supply(FramesIn(bytes), turn, true), Enough) else (Supply(0, turn, true), Refused)
      case More(bytes) => if Fits(bytes) then (Supply(FramesIn(bytes), turn, false), Enough) else (Supply(0, turn, false), Refused)
    }

    lemma PullIs(s: Supply, packet: JavaDecoder.Packet)
      requires Valid() && s.turn <= |script| && packet == JavaDecoder.Next(script, s.turn, cut)
      ensures var turn := JavaDecoder.NextTurn(script, s.turn, cut);
              && (packet.Error? ==> Pull(s) == (Supply(0, turn, s.eof), Failed(packet.message)))
              && (packet.End? ==> Pull(s) == (Supply(0, turn, true), EndOfStream))
              && (packet.Last? || packet.More? ==>
                    var fits := Fits(packet.bytes);
                    Pull(s) == (Supply(if fits then FramesIn(packet.bytes) else 0, turn, packet.Last?), if fits then Enough else Refused))
    {
      hide JavaDecoder.Next, JavaDecoder.NextTurn;
    }

    /** The loop of `decode` on counters. */
    ghost function Run(s: Supply, framesRead: nat, n: nat): (h: Halt)
      requires Valid() && s.turn <= |script| && framesRead <= n
      ensures h.supply.turn <= |script| && framesRead <= h.count <= n
      decreases |script| - s.turn, n - framesRead
    {
      if 2 * framesRead >= n then Halt(s, framesRead, Enough)
      else if s.buffered > 0 then
        var k := Min(s.buffered, n - framesRead);
        Run(s.(buffered := s.buffered - k), framesRead + k, n)
      else if s.eof then Halt(s, framesRead, EndOfStream)
      else
        var (next, ending) := Pull(s);
        if ending.Enough? then Run(next, framesRead, n) else Halt(next, framesRead, ending)
    }

    lemma PacketsAfterPull(s: Supply)
      requires Valid() && s.turn <= |script| && !s.eof
      ensures Packets(s.turn, false) == if Pull(s).1.Enough? then Arrivals(Pull(s).0) else []
    {
    }

    lemma RunEnds(s: Supply, framesRead: nat, n: nat)
      requires Valid() && s.turn <= |script| && framesRead <= n <= 2 * framesRead
      ensures Run(s, framesRead, n) == Halt(s, framesRead, Enough)
    {
    }

    /** A call reads what the shared loop reads of the pieces that arrive, and ends early only when they run out. */
    lemma {:induction false} RunReads(s: Supply, framesRead: nat, n: nat)
      requires Valid() && s.turn <= |script| && framesRead <= n
      ensures Run(s, framesRead, n).count == FramesRead(Arrivals(s), framesRead, n)
      ensures Run(s, framesRead, n).ending.Enough? <==> n <= 2 * Run(s, framesRead, n).count
      decreases |script| - s.turn, n - framesRead
    {
      hide Pull, Packets;
      assert Arrivals(s)[1..] == Packets(s.turn, s.eof);
      if 2 * framesRead >= n {
      } else if s.buffered > 0 {
        var k := Min(s.buffered, n - framesRead);
        var left := s.(buffered := s.buffered - k);
        assert Arrivals(left)[1..] == Packets(s.turn, s.eof);
        RunReads(left, framesRead + k, n);
      } else if s.eof {
        NoPackets(s.turn);
      } else {
        PacketsAfterPull(s);
        if Pull(s).1.Enough? {
          RunReads(Pull(s).0, framesRead, n);
        }
      }
    }

    /** A call returns all it was asked for if and only if that much arrives and no arrival leaves it at half or more. */
    lemma FullReads(s: Supply, n: nat)
      requires Valid() && s.turn <= |script|
      ensures Run(s, 0, n).count == n <==> Total(Arrivals(s)) >= n && !Stalls(Arrivals(s), 0, n)
    {
      RunReads(s, 0, n);
      FullExactly(Arrivals(s), 0, n);
    }

    lemma NoPackets(turn: nat)
      requires Valid() && turn <= |script|
      ensures Packets(turn, true) == []
    {
    }

    /** The turn just taken failed, with or without a message, or the codec does nothing more, which counts as one with. */
    ghost predicate Fails(turn: nat, message: bool)
      requires turn <= |script|
    {
      (turn > 0 && script[turn - 1].output == JavaDecoder.Failed(message)) || (turn == |script| && message)
    }

    /** The turn just taken had PCM, which was the last or not. */
    ghost predicate LeftOut(turn: nat, eof: bool)
      requires turn <= |script|
    {
      turn > 0 && script[turn - 1].output.Pcm? && script[turn - 1].output.last == eof
    }

    lemma PullMeans(s: Supply)
      requires Valid() && s.turn <= |script|
      ensures var (next, ending) := Pull(s);
              && (ending.EndOfStream? ==> next.eof)
              && (ending.Failed? ==> Fails(next.turn, ending.message))
              && (ending.Refused? ==> !canGrow && LeftOut(next.turn, next.eof))
              && (!ending.Enough? ==> next.buffered == 0)
    {
    }

    /** What the endings mean: a call that ends early has met the end, a failure or refused memory. */
    lemma {:induction false} EndingMeans(s: Supply, framesRead: nat, n: nat)
      requires Valid() && s.turn <= |script| && framesRead <= n
      ensures var h := Run(s, framesRead, n);
              && (h.ending.EndOfStream? ==> h.supply.eof)
              && (h.ending.Failed? ==> Fails(h.supply.turn, h.ending.message))
              && (h.ending.Refused? ==> !canGrow && LeftOut(h.supply.turn, h.supply.eof))
              && (!h.ending.Enough? ==> h.supply.buffered == 0)
      decreases |script| - s.turn, n - framesRead
    {
      hide Pull, Fails, LeftOut;
      if 2 * framesRead < n {
        if s.buffered > 0 {
          var k := Min(s.buffered, n - framesRead);
          EndingMeans(s.(buffered := s.buffered - k), framesRead + k, n);
        } else if !s.eof {
          PullMeans(s);
          if Pull(s).1.Enough? {
            EndingMeans(Pull(s).0, framesRead, n);
          }
        }
      }
    }

    /** With memory and a clean codec a call ends early only at the end of the stream. */
    lemma {:induction false} CleanRun(s: Supply, framesRead: nat, n: nat)
      requires Valid() && canGrow && JavaDecoder.Clean(script) && s.turn <= |script| && framesRead <= n
      requires s.eof <==> s.turn == |script|
      ensures var h := Run(s, framesRead, n);
              && (h.ending.Enough? || h.ending.EndOfStream?)
              && (h.supply.eof <==> h.supply.turn == |script|)
      decreases |script| - s.turn, n - framesRead
    {
      hide JavaDecoder.Next, JavaDecoder.NextTurn, JavaDecoder.Clean;
      if 2 * framesRead < n {
        if s.buffered > 0 {
          var k := Min(s.buffered, n - framesRead);
          CleanRun(s.(buffered := s.buffered - k), framesRead + k, n);
        } else if !s.eof {
          JavaDecoder.CleanNext(script, s.turn, cut);
          if Pull(s).1.Enough? {
            CleanRun(Pull(s).0, framesRead, n);
          }
        }
      }
    }
  }

  /** One frame is buffered and the last packet holds another: a call for two returns one and stops there. */
  lemma OneOfTwo()
    ensures var st := Setting([JavaDecoder.Turn(true, JavaDecoder.Pcm([0, 0], true))], 0, 1, true, 4096);
            var s := Supply(1, 0, false);
            && st.Arrivals(s) == [1, 1] && st.Run(s, 0, 2) == Halt(Supply(0, 0, false), 1, Enough)
            && st.Run(Supply(0, 0, false), 0, 1) == Halt(Supply(0, 1, true), 1, Enough)
  {
    var st := Setting([JavaDecoder.Turn(true, JavaDecoder.Pcm([0, 0], true))], 0, 1, true, 4096);
    assert JavaDecoder.Next(st.script, 0, 0) == JavaDecoder.Last([0, 0]);
    assert JavaDecoder.NextTurn(st.script, 0, 0) == 1;
    assert st.FramesIn([0, 0]) == 1;
    assert st.Packets(0, false) == [1];
    assert st.Run(Supply(1, 0, true), 0, 1) == Halt(Supply(0, 0, true), 1, Enough);
  }

  /** What the caller of `decode` gets: on a Java error with a message, no callback at all. */
  datatype Outcome = NoCallback | Called(callback: Callback)

  class DecoderAndroid {
    const java: JavaDecoder.Decoder
    const buffer: FloatBuffer
    var currentFrameIndex: int
    var eof: bool
    /** Samples handed to callers since the last seek. */
    ghost var delivered: seq<real>

    ghost predicate Valid()
      reads this, java, buffer
    {
      && java.Valid() && buffer.Valid() && buffer.numFrames >= 0
      && java.bytesPerFrame == 2 * buffer.channels
    }

    ghost function Setup(canGrow: bool): Setting
      reads java, buffer
    {
      Setting(java.script, java.cut, buffer.channels, canGrow, buffer.capacityFrames)
    }

    ghost function Now(): Supply
      requires buffer.numFrames >= 0
      reads this, java, buffer
    {
      Supply(buffer.numFrames, java.turn, eof)
    }

    /** Whether `handed` followed by what is buffered is what the codec produced, cut and scaled. */
    ghost predicate Accounts(handed: seq<real>)
      requires java.turn <= |java.script| && buffer.Valid()
      reads java, buffer, buffer.data
    {
      handed + buffer.Queue() == Samples(java.Produced())
    }

    /** Whether nothing was lost since the last seek. */
    ghost predicate InPlace()
      requires java.turn <= |java.script| && buffer.Valid()
      reads this, java, buffer, buffer.data
    {
      Accounts(delivered)
    }

    constructor (samplerate: int, channels: nat, script: seq<JavaDecoder.Turn>)
      requires samplerate > 0 && channels > 0 && JavaDecoder.WholePackets(script, 2 * channels)
      ensures Valid() && fresh(java) && fresh(buffer) && fresh(buffer.data)
      ensures InPlace() && delivered == [] && currentFrameIndex == 0 && Now() == Supply(0, 0, false)
      ensures java.script == script && java.cut == 0 && !java.lastError && java.samplerate == samplerate
      ensures buffer.channels == channels && java.bytesPerFrame == 2 * channels
    {
      NothingYet(script);
      hide FloatBuffer.Queue, Samples, JavaDecoder.PcmOf, JavaDecoder.AfterCut, JavaDecoder.WholePackets, JavaDecoder.ToCut;
      java := new JavaDecoder.Decoder(samplerate, 2 * channels, script);
      buffer := new FloatBuffer(channels, 4096);
      currentFrameIndex, eof := 0, false;
      delivered := [];
    }

    method Seek(frame: int, sampleTimeUs: int, next: seq<JavaDecoder.Turn>, flushed: bool, message: bool)
      requires Valid() && JavaDecoder.WholePackets(next, 2 * buffer.channels)
      modifies this, java, buffer`readPos, buffer`writePos, buffer`numFrames
      ensures Valid()
      ensures old(currentFrameIndex) == frame ==> unchanged(this) && unchanged(java) && unchanged(buffer)
      ensures old(currentFrameIndex) != frame ==>
                java.lastError == (if flushed then old(java.lastError) else message) && java.script == next
                && java.cut == JavaDecoder.FramesToCut(frame, java.samplerate, sampleTimeUs) * java.bytesPerFrame
      ensures old(currentFrameIndex) != frame && !java.lastError ==>
                InPlace() && delivered == [] && currentFrameIndex == frame && Now() == Supply(0, 0, false)
      ensures old(currentFrameIndex) != frame && java.lastError ==>
                unchanged(buffer) && unchanged(this)
    {
      if currentFrameIndex == frame {
        return;
      }
      var ok := java.Seek(frame, sampleTimeUs, next, flushed, message);
      if ok {
        currentFrameIndex := frame;
        buffer.Clear();
        eof := false;
        delivered := [];
      }
    }

    method Flush(sampleTimeUs: int, next: seq<JavaDecoder.Turn>, flushed: bool, message: bool)
      requires Valid() && JavaDecoder.WholePackets(next, 2 * buffer.channels)
      modifies this, java, buffer`readPos, buffer`writePos, buffer`numFrames
      ensures Valid() && InPlace() && delivered == [] && Now() == Supply(0, 0, false)
      ensures currentFrameIndex == old(currentFrameIndex)
      ensures java.lastError == (if flushed then old(java.lastError) else message) && java.script == next
      ensures java.cut == JavaDecoder.FramesToCut(currentFrameIndex, java.samplerate, sampleTimeUs) * java.bytesPerFrame
    {
      var _ := java.Seek(currentFrameIndex, sampleTimeUs, next, flushed, message);
      buffer.Clear();
      eof := false;
      delivered := [];
    }

    /** One packet from Java, in terms of samples. */
    method NextPacket() returns (code: int, bytes: seq<byte>)
      requires java.Valid() && buffer.channels > 0 && java.bytesPerFrame == 2 * buffer.channels
      modifies java
      ensures java.Valid() && java.script == old(java.script) && java.cut == old(java.cut)
      ensures java.turn == JavaDecoder.NextTurn(java.script, old(java.turn), java.cut)
      ensures var packet := JavaDecoder.Next(java.script, old(java.turn), java.cut);
              && code == JavaDecoder.Code(packet) && bytes == JavaDecoder.Bytes(packet)
              && java.lastError == (if packet.Error? then packet.message else old(java.lastError))
              && (packet.Last? || packet.More? ==> bytes != []) && |bytes| <= JavaDecoder.JAVA_BUFFER_BYTES
      ensures Samples(java.Produced()) == old(Samples(java.Produced())) + Samples(bytes)
      ensures Samples(bytes)[..WholeIn(|bytes|, buffer.channels) * buffer.channels] == Samples(bytes)
      ensures bytes != [] ==> Samples(bytes) != []
    {
      ghost var produced := java.Produced();
      JavaDecoder.NextHasBytes(java.script, java.turn, java.cut);
      JavaDecoder.ProducedWhole(java.script, java.turn, java.cut, java.bytesPerFrame);
      hide JavaDecoder.Next, JavaDecoder.NextTurn, Samples, WholeIn;
      code, bytes := java.DecodeOnePacket();
      JavaDecoder.ProducedWhole(java.script, java.turn, java.cut, java.bytesPerFrame);
      PacketFrames(produced, bytes, buffer.channels);
    }

    /** Whether `st` describes the call in progress; a buffer that may grow has no capacity that matters. */
    ghost predicate Fixed(st: Setting)
      reads java, buffer
    {
      && st.script == java.script && st.cut == java.cut && st.channels == buffer.channels
      && (st.canGrow || st.capacity == buffer.capacityFrames)
    }

    /**
     * Asks Java for one packet and buffers it.  `ending` says why the loop of `decode` ends
     * here, unless it is `Enough`.
     */
    method Refill(ghost st: Setting, canGrow: bool, ghost handed: seq<real>) returns (ending: Ending)
      requires Valid() && buffer.numFrames == 0 && !eof && Fixed(st) && canGrow == st.canGrow
      modifies this`eof, java, buffer, buffer.data
      ensures Valid() && Fixed(st) && (fresh(buffer.data) || buffer.data == old(buffer.data))
      ensures (Now(), ending) == st.Pull(old(Now()))
      ensures java.lastError == (old(java.lastError) && !ending.Failed?)
      ensures old(Accounts(handed)) ==> (Accounts(handed) <==> !ending.Refused?)
    {
      assert Samples([]) == [];
      hide FloatBuffer.Queue, Samples, WholeIn, Setting.Pull, Setting.Fits, Setting.FramesIn, JavaDecoder.Decoder.Produced,
        JavaDecoder.WholePackets, JavaDecoder.ToCut, JavaDecoder.NextTurn;
      ghost var produced, queue := Samples(java.Produced()), buffer.Queue();
      var bytes;
      ending, bytes := Ask(st);
      if ending.Enough? {
        ending := Store(st, bytes, canGrow);
        Grown(handed, queue, produced, Samples(bytes));
      } else {
        assert produced + [] == produced;
      }
    }

    /** The call into Java, and what its code means. */
    method Ask(ghost st: Setting) returns (ending: Ending, bytes: seq<byte>)
      requires Valid() && buffer.numFrames == 0 && !eof && Fixed(st)
      modifies this`eof, java
      ensures Valid() && Fixed(st) && java.turn == JavaDecoder.NextTurn(st.script, old(java.turn), st.cut)
      ensures ending.Enough? || ending.Failed? || ending.EndOfStream?
      ensures !ending.Enough? ==> (Now(), ending) == st.Pull(old(Now())) && bytes == []
      ensures ending.Enough? ==>
                && st.Pull(old(Now())) == (Supply(if st.Fits(bytes) then st.FramesIn(bytes) else 0, java.turn, eof),
                                           if st.Fits(bytes) then Enough else Refused)
                && Samples(bytes) != []
      ensures java.lastError == (old(java.lastError) && !ending.Failed?)
      ensures Samples(java.Produced()) == old(Samples(java.Produced())) + Samples(bytes)
      ensures Samples(bytes)[..WholeIn(|bytes|, buffer.channels) * buffer.channels] == Samples(bytes)
    {
      hide Samples, WholeIn, Setting.Pull, Setting.Fits, Setting.FramesIn, JavaDecoder.Next, JavaDecoder.NextTurn,
        JavaDecoder.AfterCut, JavaDecoder.PcmOf, JavaDecoder.WholePackets, JavaDecoder.ToCut;
      ghost var packet := JavaDecoder.Next(java.script, java.turn, java.cut);
      st.PullIs(Now(), packet);
      var code;
      code, bytes := NextPacket();
      PacketTold(packet, code, bytes);
      hide JavaDecoder.Code, JavaDecoder.Bytes;
      if code == 0 {
        var error := java.GetLastError();
        return Failed(error), bytes;
      }
      if code == JavaDecoder.INT_MIN {
        eof := true;
        return EndOfStream, bytes;
      }
      eof := code < 0;
      return Enough, bytes;
    }

    /** Puts a packet of whole frames into the empty buffer. */
    method Store(ghost st: Setting, bytes: seq<byte>, canGrow: bool) returns (ending: Ending)
      requires buffer.Valid() && buffer.numFrames == 0 && Fixed(st) && canGrow == st.canGrow
      requires Samples(bytes)[..WholeIn(|bytes|, buffer.channels) * buffer.channels] == Samples(bytes)
      modifies buffer, buffer.data
      ensures buffer.Valid() && Fixed(st) && (fresh(buffer.data) || buffer.data == old(buffer.data))
      ensures ending == if st.Fits(bytes) then Enough else Refused
      ensures 0 <= buffer.numFrames == if st.Fits(bytes) then st.FramesIn(bytes) else 0
      ensures buffer.Queue() == old(buffer.Queue()) + if st.Fits(bytes) then Samples(bytes) else []
    {
      hide FloatBuffer.Queue, Samples, WholeIn;
      var ok := buffer.Put(bytes, canGrow);
      ending := if ok then Enough else Refused;
    }

    /** Hands buffered frames to the caller. */
    method Offer(frames: nat, ghost handed: seq<real>) returns (chunk: seq<real>)
      requires Valid() && frames <= buffer.numFrames
      modifies this`currentFrameIndex, buffer`readPos, buffer`numFrames
      ensures Valid() && |chunk| == frames * buffer.channels
      ensures currentFrameIndex == old(currentFrameIndex) + frames
      ensures Now() == old(Now()).(buffered := old(Now()).buffered - frames)
      ensures old(Accounts(handed)) ==> Accounts(handed + chunk)
    {
      hide Samples;
      ghost var queue := buffer.Queue();
      hide FloatBuffer.Queue;
      chunk := buffer.Drain(frames);
      Regroup(handed, chunk, buffer.Queue());
      currentFrameIndex := currentFrameIndex + frames;
    }

    /** One round of the loop of `decode`. */
    method Round(ghost st: Setting, framesRead: nat, n: nat, canGrow: bool, out: seq<real>, ghost handed: seq<real>)
      returns (ending: Ending, read: nat, more: seq<real>)
      requires Valid() && Fixed(st) && canGrow == st.canGrow && 2 * framesRead < n && |out| == framesRead * buffer.channels
      modifies this`currentFrameIndex, this`eof, java, buffer, buffer.data
      ensures Valid() && Fixed(st) && (fresh(buffer.data) || buffer.data == old(buffer.data))
      ensures framesRead <= read <= n && |more| == read * buffer.channels
      ensures currentFrameIndex - read == old(currentFrameIndex) - framesRead
      ensures old(java.turn) <= java.turn <= |st.script|
      ensures ending.Enough? ==> java.turn > old(java.turn) || (java.turn == old(java.turn) && read > framesRead)
      ensures st.Run(old(Now()), framesRead, n)
           == if ending.Enough? then st.Run(Now(), read, n) else Halt(Now(), read, ending)
      ensures java.lastError == (old(java.lastError) && !ending.Failed?)
      ensures old(Accounts(handed + out)) ==> (Accounts(handed + more) <==> !ending.Refused?)
    {
      hide Samples, WholeIn, Accounts, Setting.Pull;
      ending, read, more := Enough, framesRead, out;
      var framesFromBuffer := Min(buffer.numFrames, n - framesRead);
      if framesFromBuffer > 0 {
        var chunk := Offer(framesFromBuffer, handed + out);
        Regroup(handed, out, chunk);
        AddFrames(framesRead, framesFromBuffer, buffer.channels);
        read, more := framesRead + framesFromBuffer, out + chunk;
      } else if eof {
        ending := EndOfStream;
      } else {
        ending := Refill(st, canGrow, handed + out);
      }
    }

    /** The loop of `decode`. */
    method Fill(ghost st: Setting, n: nat, canGrow: bool, ghost handed: seq<real>)
      returns (framesRead: nat, out: seq<real>, ending: Ending)
      requires Valid() && Fixed(st) && canGrow == st.canGrow
      modifies this`currentFrameIndex, this`eof, java, buffer, buffer.data
      ensures Valid() && Fixed(st) && (fresh(buffer.data) || buffer.data == old(buffer.data))
      ensures Halt(Now(), framesRead, ending) == st.Run(old(Now()), 0, n)
      ensures currentFrameIndex == old(currentFrameIndex) + framesRead && |out| == framesRead * buffer.channels
      ensures java.lastError == (old(java.lastError) && !ending.Failed?)
      ensures old(Accounts(handed)) ==> (Accounts(handed + out) <==> !ending.Refused?)
    {
      assert handed + [] == handed;
      hide *;
      framesRead, out, ending := 0, [], Enough;
      var frames: nat := n;
      while ending.Enough? && framesRead < frames
        invariant Valid() && Fixed(st) && (fresh(buffer.data) || buffer.data == old(buffer.data))
        invariant framesRead + frames == n && |out| == framesRead * buffer.channels
        invariant currentFrameIndex == old(currentFrameIndex) + framesRead
        invariant java.turn <= |st.script|
        invariant st.Run(old(Now()), 0, n)
               == if ending.Enough? then st.Run(Now(), framesRead, n) else Halt(Now(), framesRead, ending)
        invariant java.lastError == (old(java.lastError) && !ending.Failed?)
        invariant old(Accounts(handed)) ==> (Accounts(handed + out) <==> !ending.Refused?)
        decreases ending.Enough?, |st.script| - java.turn, frames
      {
        ending, framesRead, out := Round(st, framesRead, n, canGrow, out, handed);
        frames := n - framesRead;
      }
      if ending.Enough? {
        st.RunEnds(Now(), framesRead, n);
      }
    }

    /** `decode`; `hasMemory` for the output, `canGrow` for the frame buffer. */
    method Decode(n: nat, hasMemory: bool, canGrow: bool) returns (r: Outcome)
      requires Valid()
      modifies this, java, buffer, buffer.data
      ensures Valid() && (fresh(buffer.data) || buffer.data == old(buffer.data))
      ensures java.script == old(java.script) && java.cut == old(java.cut)
      ensures !hasMemory ==>
                && r == Called(Callback(old(currentFrameIndex), 0, [])) && Now() == old(Now())
                && delivered == old(delivered) && currentFrameIndex == old(currentFrameIndex) && buffer.Queue() == old(buffer.Queue())
      ensures hasMemory ==>
                var h := old(Setup(canGrow)).Run(old(Now()), 0, n);
                && Now() == h.supply && currentFrameIndex == old(currentFrameIndex) + h.count
                && java.lastError == (old(java.lastError) && !h.ending.Failed?)
                && (if h.ending == Failed(true) then r == NoCallback && delivered == old(delivered)
                    else && r.Called? && r.callback.index == currentFrameIndex && r.callback.count == h.count
                         && |r.callback.samples| == h.count * buffer.channels
                         && delivered == old(delivered) + r.callback.samples)
                && (old(InPlace()) ==>
                      (InPlace() <==> !h.ending.Refused? && (h.ending == Failed(true) ==> h.count == 0)))
    {
      if !hasMemory {
        return Called(Callback(currentFrameIndex, 0, []));
      }
      ghost var st := Setup(canGrow);
      ghost var handed := delivered;
      hide Samples, WholeIn, Setting.Run;
      var framesRead, out, ending := Fill(st, n, canGrow, handed);
      if ending == Failed(true) {
        NotHanded(handed, out, buffer.Queue(), framesRead, buffer.channels);
        return NoCallback;
      }
      delivered := delivered + out;
      return Called(Callback(currentFrameIndex, framesRead, out));
    }

    /** Whether `a` answers a seek to frame `from` of a stream of `length` frames, with this script and cut. */
    ghost predicate Answers(stream: seq<byte>, length: nat, a: JavaDecoder.Answer, from: nat, script: seq<JavaDecoder.Turn>, cut: nat)
    {
      && java.bytesPerFrame > 0 && java.samplerate <= 1000000
      && |stream| == length * java.bytesPerFrame && from <= length
      && JavaDecoder.Faithful(a, stream, from, java.bytesPerFrame)
      && script == a.script && cut == (from - a.synced) * java.bytesPerFrame
    }

    /** A decoder that plays the answer `a` to a seek to frame `from`, and has lost nothing. */
    ghost predicate Tracks(stream: seq<byte>, length: nat, a: JavaDecoder.Answer, from: nat)
      reads this, java, buffer, buffer.data
    {
      && Valid() && InPlace() && !java.lastError && (eof <==> java.turn == |java.script|)
      && Answers(stream, length, a, from, java.script, java.cut)
      && from <= currentFrameIndex && |delivered| == (currentFrameIndex - from) * buffer.channels
    }

    /** What a tracking decoder has handed out is the stream from the frame sought on. */
    lemma TrackedSlice(stream: seq<byte>, length: nat, a: JavaDecoder.Answer, from: nat)
      requires Tracks(stream, length, a, from)
      ensures currentFrameIndex <= length && currentFrameIndex * buffer.channels <= |Samples(stream)|
      ensures delivered == Span(Samples(stream), from, currentFrameIndex, buffer.channels)
      ensures eof && buffer.Queue() == [] ==> currentFrameIndex == length
    {
      hide JavaDecoder.PcmOf, JavaDecoder.AfterCut, JavaDecoder.Faithful, Samples, FloatBuffer.Queue;
      PlayedSlice(stream, length, a, from, java.turn, delivered, buffer.Queue(), currentFrameIndex - from, buffer.channels);
    }

    /** What a call comes to on counters when the codec does not fail and memory is there. */
    lemma TrackedRun(stream: seq<byte>, length: nat, a: JavaDecoder.Answer, from: nat, n: nat)
      requires Tracks(stream, length, a, from)
      ensures var h := Setup(true).Run(Now(), 0, n);
              && !h.ending.Failed? && !h.ending.Refused?
              && (h.supply.eof <==> h.supply.turn == |java.script|)
              && (n <= 2 * h.count || (h.supply.eof && h.supply.buffered == 0))
    {
      hide Setting.Run, Samples, JavaDecoder.Clean, Accounts;
      Setup(true).CleanRun(Now(), 0, n);
      Setup(true).RunReads(Now(), 0, n);
      Setup(true).EndingMeans(Now(), 0, n);
    }

    /** A decode that meets no failure: nothing is lost, and it falls short only at the end. */
    method DecodeClean(n: nat) returns (c: Callback)
      requires Valid() && InPlace() && !java.lastError
      requires var h := Setup(true).Run(Now(), 0, n);
               && !h.ending.Failed? && !h.ending.Refused?
               && (h.supply.eof <==> h.supply.turn == |java.script|)
               && (n <= 2 * h.count || (h.supply.eof && h.supply.buffered == 0))
      modifies this, java, buffer, buffer.data
      ensures fresh(buffer.data) || buffer.data == old(buffer.data)
      ensures Valid() && InPlace() && !java.lastError && (eof <==> java.turn == |java.script|)
      ensures java.script == old(java.script) && java.cut == old(java.cut) && c.count <= n
      ensures currentFrameIndex == old(currentFrameIndex) + c.count == c.index
      ensures delivered == old(delivered) + c.samples && |c.samples| == c.count * buffer.channels
      ensures n <= 2 * c.count || (eof && buffer.Queue() == [])
    {
      hide Setting.Run, Samples, Accounts, FloatBuffer.Queue;
      var r := Decode(n, true, true);
      c := r.callback;
    }

    /** A decode of a tracking decoder keeps it tracking. */
    method DecodeTracked(n: nat, ghost stream: seq<byte>, ghost length: nat, ghost a: JavaDecoder.Answer, ghost from: nat)
      returns (c: Callback)
      requires Tracks(stream, length, a, from)
      modifies this, java, buffer, buffer.data
      ensures fresh(buffer.data) || buffer.data == old(buffer.data)
      ensures Tracks(stream, length, a, from) && c.count <= n
      ensures currentFrameIndex == old(currentFrameIndex) + c.count == c.index
      ensures delivered == old(delivered) + c.samples
      ensures n <= 2 * c.count || (eof && buffer.Queue() == [])
    {
      hide *;
      TrackedRun(stream, length, a, from, n);
      Tracked(stream, length, a, from);
      ghost var at, handed := currentFrameIndex, |delivered|;
      c := DecodeClean(n);
      Longer(handed, at - from, c.count, buffer.channels);
      Retrack(stream, length, a, from);
    }

    lemma Tracked(stream: seq<byte>, length: nat, a: JavaDecoder.Answer, from: nat)
      requires Tracks(stream, length, a, from)
      ensures Valid() && InPlace() && !java.lastError && (eof <==> java.turn == |java.script|)
      ensures Answers(stream, length, a, from, java.script, java.cut)
      ensures from <= currentFrameIndex && |delivered| == (currentFrameIndex - from) * buffer.channels
    {
    }

    lemma Retrack(stream: seq<byte>, length: nat, a: JavaDecoder.Answer, from: nat)
      requires Valid() && InPlace() && !java.lastError && (eof <==> java.turn == |java.script|)
      requires Answers(stream, length, a, from, java.script, java.cut)
      requires from <= currentFrameIndex && |delivered| == (currentFrameIndex - from) * buffer.channels
      ensures Tracks(stream, length, a, from)
    {
    }

    /** A decode of a tracking decoder, without an error: the next slice of the stream. */
    method DecodeOn(n: nat, ghost stream: seq<byte>, ghost length: nat, ghost a: JavaDecoder.Answer, ghost from: nat)
      returns (c: Callback)
      requires Tracks(stream, length, a, from)
      modifies this, java, buffer, buffer.data
      ensures fresh(buffer.data) || buffer.data == old(buffer.data)
      ensures Tracks(stream, length, a, from) && currentFrameIndex == old(currentFrameIndex) + c.count
      ensures HeardOne(Flat(stream, length, buffer.channels), old(currentFrameIndex), n, c)
    {
      assert |stream| == length * (2 * buffer.channels) && buffer.channels > 0 && from <= currentFrameIndex;
      ghost var before, at := delivered, currentFrameIndex;
      TrackedSlice(stream, length, a, from);
      hide DecoderAndroid.Tracks, Samples, Span, FloatBuffer.Queue;
      c := DecodeTracked(n, stream, length, a, from);
      TrackedSlice(stream, length, a, from);
      NextSlice(Samples(stream), from, at, currentFrameIndex, before, c.samples, buffer.channels);
    }

    /**
     * A run of seeks, decodes and flushes without an error.  Whatever the sync frames and the
     * packets of the codec, every decode hands out the stream at the position, at least half of
     * what it was asked for unless the stream ends.
     */
    method Play(extractor: nat -> JavaDecoder.Answer, ops: seq<Operation>,
                ghost stream: seq<byte>, ghost length: nat, ghost a: JavaDecoder.Answer, ghost from: nat)
      returns (reports: seq<Callback>)
      requires Tracks(stream, length, a, from)
      requires forall f: nat :: f <= length ==> JavaDecoder.Faithful(extractor(f), stream, f, java.bytesPerFrame)
      requires forall i :: 0 <= i < |ops| && ops[i].Seek? ==> ops[i].frame <= length
      modifies this, java, buffer, buffer.data
      ensures Heard(Flat(stream, length, buffer.channels), old(currentFrameIndex), ops, reports)
      decreases |ops|
    {
      ghost var position := currentFrameIndex;
      TrackedSlice(stream, length, a, from);
      hide DecoderAndroid.Tracks, Flat, Heard, HeardOne, JavaDecoder.Faithful;
      reports := [];
      if |ops| > 0 {
        ghost var b, start;
        reports, b, start := PlayOne(extractor, ops[0], stream, length, a, from);
        TrackedSlice(stream, length, b, start);
        ghost var next: nat := currentFrameIndex;
        var rest := Play(extractor, ops[1..], stream, length, b, start);
        HeardPush(Flat(stream, length, buffer.channels), position, ops, reports, rest, next);
        reports := reports + rest;
      } else {
        HeardNothing(Flat(stream, length, buffer.channels), position);
      }
    }

    /** One operation of a run. */
    method PlayOne(extractor: nat -> JavaDecoder.Answer, op: Operation,
                   ghost stream: seq<byte>, ghost length: nat, ghost a: JavaDecoder.Answer, ghost from: nat)
      returns (reports: seq<Callback>, ghost b: JavaDecoder.Answer, ghost start: nat)
      requires Tracks(stream, length, a, from)
      requires forall f: nat :: f <= length ==> JavaDecoder.Faithful(extractor(f), stream, f, java.bytesPerFrame)
      requires op.Seek? ==> op.frame <= length
      modifies this, java, buffer, buffer.data
      ensures fresh(buffer.data) || buffer.data == old(buffer.data)
      ensures Tracks(stream, length, b, start)
      ensures HeardStep(Flat(stream, length, buffer.channels), old(currentFrameIndex), op, reports, currentFrameIndex)
    {
      TrackedSlice(stream, length, a, from);
      hide Accounts, JavaDecoder.Faithful, Samples, HeardOne;
      reports, b, start := [], a, from;
      match op {
        case Seek(frame) =>
          if frame != currentFrameIndex {
            b, start := extractor(frame), frame;
            SeekOn(frame, extractor(frame), stream, length, a, from);
          }
        case Flush =>
          b, start := extractor(currentFrameIndex), currentFrameIndex;
          FlushOn(extractor(currentFrameIndex), stream, length, a, from);
        case Decode(n) =>
          var c := DecodeOn(n, stream, length, a, from);
          reports := [c];
      }
    }

    /** A seek to another frame, answered by `b`. */
    method SeekOn(frame: nat, b: JavaDecoder.Answer,
                  ghost stream: seq<byte>, ghost length: nat, ghost a: JavaDecoder.Answer, ghost from: nat)
      requires Tracks(stream, length, a, from) && frame != currentFrameIndex && frame <= length
      requires JavaDecoder.Faithful(b, stream, frame, java.bytesPerFrame)
      modifies this, java, buffer`readPos, buffer`writePos, buffer`numFrames
      ensures Tracks(stream, length, b, frame) && currentFrameIndex == frame
    {
      var time := JavaDecoder.SampleTime(b.synced, java.samplerate);
      JavaDecoder.CutReachesFrame(frame, b.synced, java.samplerate, time);
      assert 0 < |b.script|;
      hide JavaDecoder.Clean, JavaDecoder.WholePackets, JavaDecoder.PcmOf, JavaDecoder.FramesToCut, Accounts;
      Seek(frame, time, b.script, true, false);
      assert !eof && java.turn == 0;
      hide *;
      Answered(this, stream, length, b, frame);
      Retrack(stream, length, b, frame);
    }

    /** A flush, answered by `b`. */
    method FlushOn(b: JavaDecoder.Answer,
                   ghost stream: seq<byte>, ghost length: nat, ghost a: JavaDecoder.Answer, ghost from: nat)
      requires Tracks(stream, length, a, from) && currentFrameIndex <= length
      requires JavaDecoder.Faithful(b, stream, currentFrameIndex, java.bytesPerFrame)
      modifies this, java, buffer`readPos, buffer`writePos, buffer`numFrames
      ensures currentFrameIndex == old(currentFrameIndex) && Tracks(stream, length, b, currentFrameIndex)
    {
      var time := JavaDecoder.SampleTime(b.synced, java.samplerate);
      JavaDecoder.CutReachesFrame(currentFrameIndex, b.synced, java.samplerate, time);
      assert 0 < |b.script|;
      hide JavaDecoder.Clean, JavaDecoder.WholePackets, JavaDecoder.PcmOf, JavaDecoder.FramesToCut, Accounts;
      Flush(time, b.script, true, false);
      assert !eof && java.turn == 0;
      hide *;
      Answered(this, stream, length, b, currentFrameIndex);
      Retrack(stream, length, b, currentFrameIndex);
    }
  }

  /** A decoder just loaded plays the stream from its first frame. */
  method Load(samplerate: int, channels: nat, a: JavaDecoder.Answer, ghost stream: seq<byte>, ghost length: nat)
    returns (d: DecoderAndroid)
    requires 0 < samplerate <= 1000000 && channels > 0 && |stream| == length * (2 * channels)
    requires JavaDecoder.Faithful(a, stream, 0, 2 * channels)
    ensures fresh(d) && fresh(d.java) && fresh(d.buffer) && fresh(d.buffer.data)
    ensures d.Tracks(stream, length, a, 0) && d.currentFrameIndex == 0
    ensures d.buffer.channels == channels && d.java.bytesPerFrame == 2 * channels
  {
    assert 0 < |a.script| && a.synced == 0 && (0 - a.synced) * (2 * channels) == 0 && JavaDecoder.WholePackets(a.script, 2 * channels);
    hide JavaDecoder.Faithful, JavaDecoder.WholePackets, JavaDecoder.PcmOf, Samples, FloatBuffer.Queue, DecoderAndroid.Accounts;
    d := new DecoderAndroid(samplerate, channels, a.script);
    hide *;
    Answered(d, stream, length, a, 0);
    d.Retrack(stream, length, a, 0);
  }

  lemma Answered(d: DecoderAndroid, stream: seq<byte>, length: nat, a: JavaDecoder.Answer, from: nat)
    requires d.java.bytesPerFrame > 0 && d.java.samplerate <= 1000000 && |stream| == length * d.java.bytesPerFrame
    requires from <= length && JavaDecoder.Faithful(a, stream, from, d.java.bytesPerFrame)
    ensures d.Answers(stream, length, a, from, a.script, (from - a.synced) * d.java.bytesPerFrame)
  {
    hide JavaDecoder.Clean, JavaDecoder.WholePackets, JavaDecoder.PcmOf;
  }

  /** The shortest stream there is, from the codec to the caller. */
  method PlayOneFrame(low: byte, high: byte) returns (reports: seq<Callback>)
    ensures reports == [Callback(1, 1, [Scaled(low, high)])]
  {
    var a := JavaDecoder.Answer(0, [JavaDecoder.Turn(true, JavaDecoder.Pcm([low, high], true))]);
    ghost var stream := [low, high];
    assert JavaDecoder.PcmOf(a.script, 1) == stream == stream[0..];
    assert JavaDecoder.Faithful(a, stream, 0, 2);
    assert Samples(stream) == [Scaled(low, high)];
    hide JavaDecoder.Faithful, Samples, DecoderAndroid.Tracks;
    var d := Load(1, 1, a, stream, 1);
    reports := d.Play(_ => a, [Operation.Decode(1)], stream, 1, a, 0);
    OneFrameHeard(Flat(stream, 1, 1), Scaled(low, high), reports);
  }

  lemma OneFrameHeard(r: Reader, x: real, reports: seq<Callback>)
    requires r == Reader([x], 1, 1, 1) && Heard(r, 0, [Operation.Decode(1)], reports)
    ensures reports == [Callback(1, 1, [x])]
  {
    var ops := [Operation.Decode(1)];
    assert ops[1..] == [];
    assert HeardOne(r, 0, 1, reports[0]);
    assert Heard(r, reports[0].count, ops[1..], reports[1..]);
    assert reports[0].samples == [x];
    assert reports == [reports[0]] + reports[1..];
  }

  /** What has been handed out of an answer to a seek, given that nothing is missing. */
  lemma PlayedSlice(stream: seq<byte>, length: nat, a: JavaDecoder.Answer, from: nat, turn: nat,
                    handed: seq<real>, queue: seq<real>, count: nat, channels: nat)
    requires channels > 0 && |stream| == length * (2 * channels) && from <= length
    requires JavaDecoder.Faithful(a, stream, from, 2 * channels) && turn <= |a.script| && 0 <= (from - a.synced) * (2 * channels)
    requires handed + queue == Samples(JavaDecoder.AfterCut(JavaDecoder.PcmOf(a.script, turn), (from - a.synced) * (2 * channels)))
    requires |handed| == count * channels
    ensures from + count <= length && (from + count) * channels <= |Samples(stream)|
    ensures handed == Span(Samples(stream), from, from + count, channels)
    ensures turn == |a.script| && queue == [] ==> from + count == length
  {
    hide JavaDecoder.PcmOf, JavaDecoder.AfterCut, JavaDecoder.WholePackets, JavaDecoder.Clean, Samples, WholeIn;
    var unit, cut := 2 * channels, (from - a.synced) * (2 * channels);
    JavaDecoder.ProducedIsStream(a, stream, from, unit, turn);
    DivMul(cut, from - a.synced, unit);
    JavaDecoder.ProducedWhole(a.script, turn, cut, unit);
    Scale(from, length, unit);
    var produced := JavaDecoder.AfterCut(JavaDecoder.PcmOf(a.script, turn), cut);
    ProducedSamples(stream, length, from, produced, channels);
    var frames := WholeIn(|produced|, channels);
    HandedSlice(Samples(stream), from, frames, handed, count, queue, channels);
    if turn == |a.script| && queue == [] {
      WholeStream(length, from, frames, |produced|, unit);
    }
  }

  lemma Longer(handed: nat, frames: int, count: nat, channels: nat)
    requires handed == frames * channels
    ensures handed + count * channels == (frames + count) * channels
  {
    AddFrames(frames, count, channels);
  }

  lemma WholeStream(length: nat, from: nat, frames: nat, bytes: nat, unit: nat)
    requires unit > 0 && from <= length && bytes == frames * unit
    requires bytes == if length * unit <= from * unit then 0 else length * unit - from * unit
    ensures from + frames == length
  {
    Scale(from, length, unit);
    DivMul(bytes, frames, unit);
    DivMul((length - from) * unit, length - from, unit);
  }

  lemma Regroup(a: seq<real>, b: seq<real>, c: seq<real>)
    ensures (a + b) + c == a + (b + c)
  {
  }

  /** Frames that were read but never passed on are missing from the account. */
  lemma NotHanded(handed: seq<real>, out: seq<real>, queue: seq<real>, count: nat, channels: nat)
    requires channels > 0 && |out| == count * channels
    ensures handed + queue == handed + out + queue <==> count == 0
  {
    if count > 0 {
      Scale(1, count, channels);
      assert |handed + queue| != |handed + out + queue|;
    } else {
      assert handed + out == handed;
    }
  }

  /** The stream behind the decoder, as callers see it. */
  ghost function Flat(stream: seq<byte>, length: nat, channels: nat): (r: Reader)
    requires channels > 0 && |stream| == length * (2 * channels)
    ensures r.Valid()
  {
    HalfOf(length, channels);
    Reader(Samples(stream), channels, length, length)
  }

  lemma HalfOf(frames: nat, channels: nat)
    ensures frames * (2 * channels) / 2 == frames * channels && frames * (2 * channels) == 2 * (frames * channels)
  {
    assert frames * (2 * channels) == 2 * (frames * channels);
  }

  /** What has been produced of the stream from `from` on, in samples. */
  lemma ProducedSamples(stream: seq<byte>, length: nat, from: nat, produced: seq<byte>, channels: nat)
    requires channels > 0 && |stream| == length * (2 * channels) && from <= length
    requires |produced| % (2 * channels) == 0 && 0 <= from * (2 * channels) && from * (2 * channels) + |produced| <= |stream|
    requires produced == [] || produced == stream[from * (2 * channels)..from * (2 * channels) + |produced|]
    ensures var frames := WholeIn(|produced|, channels);
            && from + frames <= length && (from + frames) * channels <= |Samples(stream)|
            && |produced| == frames * (2 * channels)
            && Samples(produced) == Span(Samples(stream), from, from + frames, channels)
  {
    var frames := WholeIn(|produced|, channels);
    WholeBytes(|produced|, channels);
    HalfOf(from, channels);
    HalfOf(length, channels);
    HalfOf(frames, channels);
    AddFrames(from, frames, 2 * channels);
    AddFrames(from, frames, channels);
    if from + frames > length {
      Scale(length + 1, from + frames, 2 * channels);
      AddFrames(length, 1, 2 * channels);
    }
    assert stream[from * (2 * channels)..from * (2 * channels)] == [];
    SamplesCut(stream, from * channels, (from + frames) * channels);
  }

  /** What has been handed out of it is a slice of the stream. */
  lemma HandedSlice(all: seq<real>, from: nat, frames: nat, handed: seq<real>, count: nat, queue: seq<real>, channels: nat)
    requires channels > 0 && (from + frames) * channels <= |all|
    requires handed + queue == Span(all, from, from + frames, channels) && |handed| == count * channels
    ensures count <= frames && (from + count) * channels <= |all| && handed == Span(all, from, from + count, channels)
    ensures queue == [] ==> count == frames
  {
    if count > frames {
      Scale(frames + 1, count, channels);
      AddFrames(frames, 1, channels);
    }
    CutSpan(all, from, from + count, from + frames, channels);
    assert (handed + queue)[..count * channels] == handed;
    assert (handed + queue)[count * channels..] == queue;
    if count < frames {
      Scale(1, frames - count, channels);
    }
  }

  /** The next part of a slice. */
  lemma NextSlice(all: seq<real>, from: nat, mid: nat, to: nat, before: seq<real>, chunk: seq<real>, channels: nat)
    requires from <= mid <= to && to * channels <= |all| && mid * channels <= |all|
    requires before == Span(all, from, mid, channels) && before + chunk == Span(all, from, to, channels)
    ensures chunk == Span(all, mid, to, channels)
  {
    SpanJoin(all, from, mid, to, channels);
    assert (before + chunk)[|before|..] == chunk;
    assert (before + Span(all, mid, to, channels))[|before|..] == Span(all, mid, to, channels);
  }

  /** A packet keeps the account in order exactly if it is not lost. */
  lemma Grown(handed: seq<real>, queue: seq<real>, produced: seq<real>, packet: seq<real>)
    ensures handed + queue == produced ==> handed + (queue + packet) == produced + packet
    ensures handed + queue == produced && packet != [] ==> handed + queue != produced + packet
  {
    if handed + queue == produced {
      assert handed + (queue + packet) == (handed + queue) + packet;
      assert |produced + packet| == |produced| + |packet|;
    }
  }
}
