/** The WAV decoder, over the HTTP cursor, and the WAV writer of the command line tool. */
module WavDecoder {
  import opened ByteOrder
  import opened Frames
  import opened HttpProvider
  import opened Truncation
  import opened WavFormat

  datatype ErrorCode = NotEnoughDataForHeader | NotRiff | NotWav | ChunkError

  datatype Event = Failed(code: ErrorCode) | Loaded(success: bool)

  datatype Option<T> = None | Some(value: T)

  /** `Trapped` stands for the division by a zero `_frame_size`. */
  datatype Chunked = Taken | Refused | Trapped

  datatype Sample = Float(bits: seq<byte>) | Scaled(value: real)

  /** A read into a variable: bytes that did not arrive keep what was there. */
  function Overlay(data: seq<byte>, old_: seq<byte>): (r: seq<byte>)
    requires |data| <= |old_|
    ensures |r| == |old_|
    ensures |data| == |old_| ==> r == data
    ensures forall i :: 0 <= i < |old_| ==> r[i] == if i < |data| then data[i] else old_[i]
  {
    data + old_[|data|..]
  }

  /** What a load has set so far. */
  datatype Memory = Memory(chunkType: seq<byte>, fmt: seq<byte>, channels: nat, sampleRate: nat,
                           frameSize: int, frames: int, dataOffset: nat)
  {
    /** The fields as a format header at `at` sets them. */
    ghost predicate HasFormat(content: seq<byte>, at: nat)
      requires at + FMT_HEADER_BYTES <= |content|
    {
      var f := FormatAt(content, at);
      && fmt == content[at..at + FMT_HEADER_BYTES]
      && channels == f.channels && sampleRate == f.sampleRate && frameSize == f.FrameSize()
    }

    /** The fields as a data chunk whose payload starts at `at` sets them. */
    ghost predicate HasData(content: seq<byte>, at: nat)
      requires 4 <= at <= |content|
    {
      dataOffset == at && frameSize > 0 && frames == SizeAt(content, at - 4) / frameSize
    }
  }

  /** Where reading came to a stop, how, and what it left in memory. */
  datatype Stop = Stop(how: Chunked, at: nat, memory: Memory)

  /** A file that arrives in full, and what the stack holds where a size is read. */
  datatype File = File(content: seq<byte>, garbage: seq<byte>)
  {
    ghost predicate Holds(at: nat, m: Memory) {
      && at <= |content| && |garbage| == 4
      && |m.chunkType| == 4 && |m.fmt| == FMT_HEADER_BYTES && m.dataOffset <= |content|
    }

    /** The `fmt ` branch: the packed header, as much of it as there is, over the last one. */
    function Format(at: nat, m: Memory): (r: Stop)
      requires Holds(at, m)
      ensures Holds(r.at, r.memory) && r.how.Taken? && at <= r.at
    {
      var data := ReadAt(content, at, FMT_HEADER_BYTES);
      var fmt := Overlay(data, m.fmt);
      var f := ParseHeader(fmt);
      Stop(Taken, at + |data|, m.(fmt := fmt, channels := f.channels, sampleRate := f.sampleRate, frameSize := f.FrameSize()))
    }

    /** Every other branch. */
    function Other(at: nat, m: Memory): (r: Stop)
      requires Holds(at, m)
      ensures Holds(r.at, r.memory) && !r.how.Refused? && at <= r.at && r.memory.frameSize == m.frameSize
      ensures r.how.Trapped? <==> m.chunkType == DATA && m.frameSize == 0
    {
      var data := ReadAt(content, at, 4);
      var body := at + |data|;
      var bytes := LoadLE(Overlay(data, garbage));
      if m.chunkType == DATA && m.frameSize == 0 then Stop(Trapped, body, m)
      else
        var seen := if m.chunkType == DATA then m.(frames := TruncDiv(bytes, m.frameSize), dataOffset := body) else m;
        Stop(Taken, SkipBody(content, body, bytes), seen)
    }

    /** One chunk; a tag cut off by the end of the file is completed by the last one. */
    function Chunk(at: nat, m: Memory): (r: Stop)
      requires Holds(at, m)
      ensures Holds(r.at, r.memory) && (r.how.Refused? <==> at == |content|) && (!r.how.Refused? ==> at < r.at)
      ensures r.how.Refused? ==> r.at == at
    {
      if at == |content| then Stop(Refused, at, m) else
        var data := ReadAt(content, at, 4);
        var tagged := m.(chunkType := Overlay(data, m.chunkType));
        if tagged.chunkType == FMT then Format(at + |data|, tagged) else Other(at + |data|, tagged)
    }

    /** The search for both chunks; it gives up at the end of the file only. */
    function Scan(at: nat, m: Memory, fmtFound: bool, dataFound: bool): (r: Stop)
      requires Holds(at, m)
      ensures Holds(r.at, r.memory) && at <= r.at && (r.how.Refused? ==> r.at == |content|)
      decreases |content| - at
    {
      if fmtFound && dataFound then Stop(Taken, at, m) else
        var r := Chunk(at, m);
        if !r.how.Taken? then r
        else Scan(r.at, r.memory, fmtFound || r.memory.chunkType == FMT, dataFound || r.memory.chunkType == DATA)
    }

    lemma ScanStep(at: nat, m: Memory, fmtFound: bool, dataFound: bool)
      requires Holds(at, m) && !(fmtFound && dataFound)
      ensures var r := Chunk(at, m);
              Scan(at, m, fmtFound, dataFound)
              == if !r.how.Taken? then r
                 else Scan(r.at, r.memory, fmtFound || r.memory.chunkType == FMT, dataFound || r.memory.chunkType == DATA)
    {
    }

    /** A chunk whose header lies within the file. */
    lemma ChunkInFile(at: nat, m: Memory)
      requires Holds(at, m) && at + 8 <= |content| && (TagAt(content, at) == FMT ==> at + 24 <= |content|)
      ensures var r := Chunk(at, m);
              var tag := TagAt(content, at);
              && r.memory.chunkType == tag
              && (if tag == FMT then r.how.Taken? && r.at == at + 24 && r.memory.HasFormat(content, at + 4)
                  else if tag == DATA && m.frameSize == 0 then r.how.Trapped?
                  else
                    && r.how.Taken? && r.at == SkipBody(content, at + 8, SizeAt(content, at + 4))
                    && r.memory == (if tag == DATA
                                    then m.(chunkType := tag, frames := TruncDiv(SizeAt(content, at + 4), m.frameSize), dataOffset := at + 8)
                                    else m.(chunkType := tag)))
    {
      hide ParseHeader, LoadLE, WavFormat.Format.FrameSize;
    }

    /**
     * A file in which the search succeeds is loaded: the fields are those of the last format
     * header before the first data chunk, whatever memory held before.
     */
    lemma {:induction false} ScanFinds(at: nat, m: Memory, fmt: int)
      requires Holds(at, m) && (fmt == -1 || 0 <= fmt <= |content| - FMT_HEADER_BYTES)
      requires Locate(content, at, fmt).Found? && (fmt >= 0 ==> m.HasFormat(content, fmt))
      ensures var found := Locate(content, at, fmt);
              var r := Scan(at, m, fmt >= 0, false);
              r.how.Taken? && r.memory.HasFormat(content, found.fmt) && r.memory.HasData(content, found.data)
      decreases |content| - at
    {
      LocateStep(content, at, fmt);
      ChunkInFile(at, m);
      ScanStep(at, m, fmt >= 0, false);
      hide ParseHeader, LoadLE, WavFormat.Format.FrameSize, Locate, Chunk, Scan, SkipBody;
      var r := Chunk(at, m);
      var tag := TagAt(content, at);
      if tag == FMT {
        ScanFinds(r.at, r.memory, at + 4);
      } else if tag == DATA {
        ScanDone(r.at, r.memory);
      } else {
        ScanFinds(r.at, r.memory, fmt);
      }
    }

    lemma ScanDone(at: nat, m: Memory)
      requires Holds(at, m)
      ensures Scan(at, m, true, true) == Stop(Taken, at, m)
    {
    }

    /** Once a data chunk has been taken nothing divides by zero any more. */
    lemma {:induction false} NoTrapBehindData(at: nat, m: Memory)
      requires Holds(at, m) && m.frameSize != 0
      ensures !Scan(at, m, false, true).how.Trapped?
      decreases |content| - at
    {
      ScanStep(at, m, false, true);
      var r := Chunk(at, m);
      hide Scan, ParseHeader, LoadLE;
      if r.how.Taken? {
        if r.memory.chunkType == FMT {
          ScanDone(r.at, r.memory);
        } else {
          NoTrapBehindData(r.at, r.memory);
        }
      }
    }

    /**
     * The last format header before the first chunk that is taken for a data chunk, or -1 if
     * there is none, given the tag and the format header seen last.
     */
    function FirstData(at: nat, tag: seq<byte>, fmt: int): (met: Option<int>)
      requires at <= |content| && |tag| == |garbage| == 4 && (fmt == -1 || 0 <= fmt <= |content| - FMT_HEADER_BYTES)
      ensures met.Some? ==> met.value == -1 || 0 <= met.value <= |content| - FMT_HEADER_BYTES
      decreases |content| - at
    {
      if at == |content| then None else
        var read := ReadAt(content, at, 4);
        var now, next := Overlay(read, tag), at + |read|;
        if now == DATA then Some(fmt)
        else if now == FMT then
          FirstData(next + |ReadAt(content, next, FMT_HEADER_BYTES)|, now, if next + FMT_HEADER_BYTES <= |content| then next else fmt)
        else
          var size := ReadAt(content, next, 4);
          FirstData(SkipBody(content, next + |size|, LoadLE(Overlay(size, garbage))), now, fmt)
    }

    /** The frame size a data chunk meets: from the last format header, or what memory holds. */
    function FrameSizeMet(m: Memory, fmt: int): int
      requires fmt == -1 || 0 <= fmt <= |content| - FMT_HEADER_BYTES
    {
      if fmt == -1 then m.frameSize else FrameSizeAt(content, fmt)
    }

    lemma FormatRead(at: nat, m: Memory)
      requires Holds(at, m)
      ensures Format(at, m).at == at + |ReadAt(content, at, FMT_HEADER_BYTES)|
      ensures Format(at, m).memory.chunkType == m.chunkType
      ensures at + FMT_HEADER_BYTES <= |content| ==> Format(at, m).memory.frameSize == FrameSizeAt(content, at)
    {
      hide ParseHeader, WavFormat.Format.FrameSize;
    }

    lemma OtherRead(at: nat, m: Memory)
      requires Holds(at, m)
      ensures Other(at, m).memory.chunkType == m.chunkType
      ensures Other(at, m).how.Taken? ==>
                var size := ReadAt(content, at, 4);
                Other(at, m).at == SkipBody(content, at + |size|, LoadLE(Overlay(size, garbage)))
    {
      hide LoadLE;
    }

    lemma FirstDataIs(at: nat, tag: seq<byte>, fmt: int)
      requires at < |content| && |tag| == |garbage| == 4 && (fmt == -1 || 0 <= fmt <= |content| - FMT_HEADER_BYTES)
      ensures var read := ReadAt(content, at, 4);
              var now, next := Overlay(read, tag), at + |read|;
              && next == Min(at + 4, |content|)
              && FirstData(at, tag, fmt)
              == if now == DATA then Some(fmt)
                 else if now == FMT then
                   FirstData(next + |ReadAt(content, next, FMT_HEADER_BYTES)|, now, if next + FMT_HEADER_BYTES <= |content| then next else fmt)
                 else
                   var size := ReadAt(content, next, 4);
                   FirstData(SkipBody(content, next + |size|, LoadLE(Overlay(size, garbage))), now, fmt)
    {
      hide LoadLE, ReadAt, Overlay, SkipBody;
    }

    lemma FirstDataStep(at: nat, m: Memory, fmt: int)
      requires Holds(at, m) && at < |content| && (fmt == -1 || 0 <= fmt <= |content| - FMT_HEADER_BYTES)
      ensures var r := Chunk(at, m);
              if r.memory.chunkType == DATA then
                FirstData(at, m.chunkType, fmt) == Some(fmt) && (r.how.Trapped? <==> m.frameSize == 0)
                && r.memory.frameSize == m.frameSize
              else if r.memory.chunkType == FMT then
                var next := Min(at + 4, |content|);
                && r.how.Taken?
                && FirstData(at, m.chunkType, fmt)
                == FirstData(r.at, FMT, if next + FMT_HEADER_BYTES <= |content| then next else fmt)
                && (next + FMT_HEADER_BYTES <= |content| ==> r.memory.frameSize == FrameSizeAt(content, next))
                && (next + FMT_HEADER_BYTES > |content| ==> r.at == |content|)
              else
                && r.how.Taken? && r.memory.frameSize == m.frameSize
                && FirstData(at, m.chunkType, fmt) == FirstData(r.at, r.memory.chunkType, fmt)
    {
      hide LoadLE, File.FirstData, File.Format, File.Other, FrameSizeAt, SkipBody, Overlay, ReadAt;
      FirstDataIs(at, m.chunkType, fmt);
      var read := ReadAt(content, at, 4);
      var tagged := m.(chunkType := Overlay(read, m.chunkType));
      FormatRead(at + |read|, tagged);
      OtherRead(at + |read|, tagged);
    }

    lemma {:induction false} TrapsFrom(at: nat, m: Memory, fmt: int, fmtFound: bool, start: Memory)
      requires Holds(at, m) && (fmt == -1 || 0 <= fmt <= |content| - FMT_HEADER_BYTES)
      requires m.frameSize == FrameSizeMet(start, fmt) || at == |content|
      ensures var met := FirstData(at, m.chunkType, fmt);
              Scan(at, m, fmtFound, false).how.Trapped? <==> met.Some? && FrameSizeMet(start, met.value) == 0
      decreases |content| - at
    {
      ScanStep(at, m, fmtFound, false);
      if at < |content| {
        FirstDataStep(at, m, fmt);
        hide Scan, FirstData, Chunk, FrameSizeAt, LoadLE, ParseHeader;
        var r := Chunk(at, m);
        if r.memory.chunkType == DATA {
          if r.how.Taken? {
            if fmtFound {
              ScanDone(r.at, r.memory);
            } else {
              NoTrapBehindData(r.at, r.memory);
            }
          }
        } else if r.memory.chunkType == FMT {
          var next := Min(at + 4, |content|);
          TrapsFrom(r.at, r.memory, if next + FMT_HEADER_BYTES <= |content| then next else fmt, true, start);
        } else {
          TrapsFrom(r.at, r.memory, fmt, fmtFound, start);
        }
      }
    }

    /**
     * A load divides by zero if and only if the first chunk that is taken for a data chunk
     * finds a frame size of zero: that of the last format header before it, or what memory
     * holds if there is none.
     */
    lemma TrapsExactly(m: Memory)
      requires Holds(WAV_HEADER_BYTES, m)
      ensures var met := FirstData(WAV_HEADER_BYTES, m.chunkType, -1);
              Scan(WAV_HEADER_BYTES, m, false, false).how.Trapped? <==> met.Some? && FrameSizeMet(m, met.value) == 0
    {
      TrapsFrom(WAV_HEADER_BYTES, m, -1, false, m);
    }

    /** A data chunk before any format chunk: it divides by what memory holds. */
    lemma DataFirst(at: nat, m: Memory)
      requires Holds(at, m) && At(content, at, DATA) && at + 8 <= |content|
      ensures Scan(at, m, false, false).how.Trapped? <==> m.frameSize == 0
    {
      hide Scan, Chunk, SizeAt, SkipBody, Memory.HasFormat, TruncDiv;
      ScanStep(at, m, false, false);
      ChunkInFile(at, m);
      var r := Chunk(at, m);
      if m.frameSize != 0 {
        NoTrapBehindData(r.at, r.memory);
      }
    }

    /** A chunk of another kind is stepped over. */
    lemma ScanSkips(at: nat, c: WavFormat.Chunk, m: Memory)
      requires c.Skippable() && Holds(at, m) && At(content, at, PrintChunk(c))
      ensures Holds(at + |PrintChunk(c)|, m.(chunkType := c.tag))
      ensures Scan(at, m, false, false) == Scan(at + |PrintChunk(c)|, m.(chunkType := c.tag), false, false)
    {
      hide Scan, Chunk, PrintChunk, At, TagAt, SizeAt, FMT, DATA, Memory.HasFormat, TruncDiv;
      ScanStep(at, m, false, false);
      ChunkAt(content, at, c);
      ChunkInFile(at, m);
    }

    /** The same behind any number of other chunks. */
    lemma {:induction false} DataBeforeFormat(at: nat, before: seq<WavFormat.Chunk>, m: Memory)
      requires forall i :: 0 <= i < |before| ==> before[i].Skippable()
      requires Holds(at, m) && At(content, at, PrintChunks(before) + DATA)
      requires at + |PrintChunks(before)| + 8 <= |content|
      ensures Scan(at, m, false, false).how.Trapped? <==> m.frameSize == 0
      decreases |before|
    {
      hide Scan, PrintChunk, At, WavFormat.Chunk.Skippable;
      AtSplit(content, at, PrintChunks(before), DATA);
      if |before| == 0 {
        DataFirst(at, m);
      } else {
        var c, rest := before[0], PrintChunks(before[1..]) + DATA;
        assert PrintChunks(before) + DATA == PrintChunk(c) + rest;
        AtSplit(content, at, PrintChunk(c), rest);
        ScanSkips(at, c, m);
        DataBeforeFormat(at + |PrintChunk(c)|, before[1..], m.(chunkType := c.tag));
      }
    }
  }

  class Decoder {
    const provider: DataProviderHTTP
    var chunkType: seq<byte>
    var fmt: seq<byte>
    var channels: nat
    var sampleRate: nat
    var frameSize: int
    var frames: int
    var frameIndex: nat
    var dataOffset: nat
    /** What an integer on the stack holds before anything is read into it. */
    const garbage: seq<byte>

    ghost predicate Valid()
      reads this, provider
    {
      && provider.Valid()
      && |chunkType| == 4 && |fmt| == FMT_HEADER_BYTES && |garbage| == 4
      && dataOffset <= |provider.content|
    }

    ghost function InMemory(): Memory
      reads this
    {
      Memory(chunkType, fmt, channels, sampleRate, frameSize, frames, dataOffset)
    }

    /** The file, if the server sends it in full. */
    ghost function Whole(): File {
      File(provider.content, garbage)
    }

    constructor (provider: DataProviderHTTP, garbage: seq<byte>, memory: seq<byte>, frameSize: int)
      requires provider.Valid() && |garbage| == 4 && |memory| == 4 + FMT_HEADER_BYTES
      ensures Valid() && this.provider == provider && this.garbage == garbage && frames == frameIndex == 0
      ensures InMemory() == Memory(memory[..4], memory[4..], 0, 0, frameSize, 0, 0)
    {
      this.provider := provider;
      this.garbage := garbage;
      chunkType, fmt, this.frameSize := memory[..4], memory[4..], frameSize;
      channels, sampleRate, frames, frameIndex, dataOffset := 0, 0, 0, 0, 0;
    }

    /**
     * `readChunk`.  Whatever the server sends, a chunk taken moves the cursor on, even if the
     * seek over its body is refused.
     */
    method ReadChunk() returns (r: Chunked)
      requires Valid()
      modifies this, provider
      ensures Valid() && frameIndex == old(frameIndex)
      ensures r.Taken? ==> provider.offset > old(provider.offset)
      ensures provider.complete ==>
                Stop(r, provider.offset, InMemory()) == Whole().Chunk(old(provider.offset), old(InMemory()))
    {
      hide ParseHeader, LoadLE, File.Format, File.Other;
      var eof := provider.Eof();
      if eof {
        return Refused;
      }
      var data := provider.Read(1, 4);
      chunkType := Overlay(data, chunkType);
      eof := provider.Eof();
      if |data| < 4 && !eof {
        return Refused;
      }
      if chunkType == FMT {
        r := ReadFormat();
      } else {
        r := ReadOther();
      }
    }

    /** The `fmt ` branch: the packed header, read over whatever was there. */
    method ReadFormat() returns (r: Chunked)
      requires Valid()
      modifies this`fmt, this`frameSize, this`channels, this`sampleRate, provider
      ensures Valid() && provider.offset >= old(provider.offset) && !r.Trapped?
      ensures provider.complete ==>
                Stop(r, provider.offset, InMemory()) == Whole().Format(old(provider.offset), old(InMemory()))
    {
      hide ParseHeader;
      var data := provider.Read(FMT_HEADER_BYTES, 1);
      fmt := Overlay(data, fmt);
      var eof := provider.Eof();
      if |data| < FMT_HEADER_BYTES && !eof {
        return Refused;
      }
      var f := ParseHeader(fmt);
      frameSize, channels, sampleRate := f.FrameSize(), f.channels, f.sampleRate;
      return Taken;
    }

    /** Every other branch: the size, the data fields if it is a data chunk, and the skip. */
    method ReadOther() returns (r: Chunked)
      requires Valid()
      modifies this`frames, this`dataOffset, provider
      ensures Valid() && provider.offset >= old(provider.offset)
      ensures provider.complete ==>
                Stop(r, provider.offset, InMemory()) == Whole().Other(old(provider.offset), old(InMemory()))
    {
      hide LoadLE;
      var data := provider.Read(4, 1);
      var eof := provider.Eof();
      if |data| < 4 && !eof {
        return Refused;
      }
      var word := Overlay(data, garbage);
      LoadBound(word);
      assert Pow256(4) == 0x1_0000_0000;
      var bytes := LoadLE(word);
      if chunkType == DATA {
        if frameSize == 0 {
          return Trapped;
        }
        frames := TruncDiv(bytes, frameSize);
        dataOffset := provider.Tell();
      }
      if bytes != 0 {
        var _ := provider.Seek(bytes, SEEK_CUR);
      }
      return Taken;
    }

    function SampleSize(): nat
      requires |fmt| == FMT_HEADER_BYTES
      reads this
    {
      ParseHeader(fmt).bitDepth / 8
    }

    function FrameBytes(): nat
      requires |fmt| == FMT_HEADER_BYTES
      reads this
    {
      SampleSize() * channels
    }

    /** `load`, from the start of the file: what the caller hears about it, in order. */
    method Load() returns (events: seq<Event>, trapped: bool)
      requires Valid() && provider.offset == 0
      modifies this, provider
      ensures Valid()
      ensures provider.complete && |provider.content| < WAV_HEADER_BYTES ==>
                events == [Failed(NotEnoughDataForHeader), Loaded(false)] && !trapped
      ensures provider.complete && |provider.content| >= WAV_HEADER_BYTES ==>
                var end := Whole().Scan(WAV_HEADER_BYTES, old(InMemory()), false, false);
                && InMemory() == end.memory && (trapped <==> end.how.Trapped?)
                && events == HeaderEvents(provider.content) + LastEvents(end.how)
                && (end.how.Taken? ==> frameIndex == 0 && provider.offset == dataOffset)
      ensures provider.complete && |provider.content| >= WAV_HEADER_BYTES ==>
                var met := Whole().FirstData(WAV_HEADER_BYTES, old(chunkType), -1);
                trapped <==> met.Some? && Whole().FrameSizeMet(old(InMemory()), met.value) == 0
      ensures provider.complete && |provider.content| >= WAV_HEADER_BYTES
              && Locate(provider.content, WAV_HEADER_BYTES, -1).Found? ==>
                var found := Locate(provider.content, WAV_HEADER_BYTES, -1);
                && events == HeaderEvents(provider.content) + [Loaded(true)] && !trapped
                && InMemory().HasFormat(provider.content, found.fmt) && InMemory().HasData(provider.content, found.data)
                && frameIndex == 0 && provider.offset == dataOffset
    {
      hide ParseHeader, LoadLE, Locate, File.Scan, File.Chunk, File.FirstData, FrameSizeAt, Memory.HasFormat, Memory.HasData;
      ghost var before := InMemory();
      var header := provider.Read(WAV_HEADER_BYTES, 1);
      if |header| < WAV_HEADER_BYTES {
        return [Failed(NotEnoughDataForHeader), Loaded(false)], false;
      }
      events := if header[..4] != RIFF then [Failed(NotRiff), Loaded(false)]
                else if header[8..12] != WAVE then [Failed(NotWav), Loaded(false)] else [];
      if provider.complete && Locate(provider.content, WAV_HEADER_BYTES, -1).Found? {
        Whole().ScanFinds(WAV_HEADER_BYTES, before, -1);
      }
      if provider.complete {
        Whole().TrapsExactly(before);
      }
      var how := FindChunks();
      match how {
        case Taken => events := events + [Loaded(true)];
        case Refused => events := events + [Failed(ChunkError), Loaded(false)];
        case Trapped =>
      }
      trapped := how.Trapped?;
    }

    /** The loop of `load` and the seek behind it. */
    method FindChunks() returns (how: Chunked)
      requires Valid() && provider.offset <= |provider.content|
      modifies this, provider
      ensures Valid()
      ensures provider.complete ==>
                var end := Whole().Scan(old(provider.offset), old(InMemory()), false, false);
                && how == end.how && InMemory() == end.memory
                && (how.Taken? ==> frameIndex == 0 && provider.offset == dataOffset)
    {
      hide ParseHeader, LoadLE, File.Scan, File.Chunk;
      ghost var end := Whole().Scan(provider.offset, InMemory(), false, false);
      var fmtFound, dataFound := false, false;
      while !fmtFound || !dataFound
        invariant Valid()
        invariant provider.complete ==> end == Whole().Scan(provider.offset, InMemory(), fmtFound, dataFound)
        decreases |provider.content| - provider.offset
      {
        Whole().ScanStep(provider.offset, InMemory(), fmtFound, dataFound);
        var r := ReadChunk();
        if !r.Taken? {
          return r;
        }
        if chunkType == FMT {
          fmtFound := true;
        } else if chunkType == DATA {
          dataFound := true;
        }
      }
      Whole().ScanDone(provider.offset, InMemory());
      Seek(0);
      return Taken;
    }

    method Seek(frame: nat)
      requires Valid() && dataOffset + frame * FrameBytes() < TWO_63
      modifies this`frameIndex, provider
      ensures Valid() && frameIndex == frame
      ensures provider.offset == if dataOffset + frame * FrameBytes() <= |provider.content|
                                 then dataOffset + frame * FrameBytes() else old(provider.offset)
    {
      hide ParseHeader;
      var target := dataOffset + frame * (SampleSize() * channels);
      var _ := provider.Seek(target, SEEK_SET);
      frameIndex := frame;
    }

    /**
     * `decode`.  It reads where the cursor stands and reports `frameIndex`, which it leaves
     * alone.  A float sample fits the output buffer only if it has four bytes.
     */
    method Decode(n: nat) returns (index: nat, count: nat, samples: seq<Sample>)
      requires Valid() && FrameBytes() * n < TWO_63
      requires ParseHeader(fmt).audioFormat == FORMAT_IEEE_FLOAT ==> SampleSize() == 4
      modifies provider
      ensures Valid() && index == frameIndex
      ensures var f := ParseHeader(fmt);
              if frameIndex >= frames || n == 0 || !Decodable(f, channels)
              then count == 0 && samples == [] && provider.offset == old(provider.offset)
              else provider.complete ==>
                   var bytes := ReadAt(provider.content, old(provider.offset), FrameBytes() * n);
                   && provider.offset == old(provider.offset) + |bytes|
                   && count == WholeFramesIn(|bytes|, FrameBytes())
                   && samples == ToSamples(f.audioFormat, SampleSize(), bytes[..count * FrameBytes()])
                   && Converted(f.audioFormat, SampleSize(), bytes[..count * FrameBytes()], samples)
    {
      hide ParseHeader, ToSamples, ReadAt, Converted;
      var f := ParseHeader(fmt);
      if frameIndex >= frames || n == 0 || channels == 0 {
        return frameIndex, 0, [];
      }
      var sampleSize := SampleSize();
      if sampleSize == 0 || f.audioFormat == FORMAT_NONE {
        return frameIndex, 0, [];
      }
      if f.audioFormat != FORMAT_IEEE_FLOAT && sampleSize !in {1, 2, 4} {
        return frameIndex, 0, [];
      }
      Scale(1, channels, sampleSize);
      count, samples := Convert(n, f.audioFormat, sampleSize, FrameBytes());
      return frameIndex, count, samples;
    }

    /** One read of whole frames of `unit` bytes, turned into samples. */
    method Convert(n: nat, audioFormat: nat, sampleSize: nat, unit: nat) returns (count: nat, samples: seq<Sample>)
      requires provider.Valid() && 1 <= n && 1 <= unit && unit * n < TWO_63
      requires unit == sampleSize * channels && sampleSize > 0
      requires audioFormat == FORMAT_IEEE_FLOAT || sampleSize in {1, 2, 4}
      modifies provider
      ensures provider.Valid()
      ensures provider.complete ==>
                var bytes := ReadAt(provider.content, old(provider.offset), unit * n);
                && provider.offset == old(provider.offset) + |bytes|
                && count == WholeFramesIn(|bytes|, unit)
                && samples == ToSamples(audioFormat, sampleSize, bytes[..count * unit])
                && Converted(audioFormat, sampleSize, bytes[..count * unit], samples)
    {
      hide ToSamples, ReadAt, Converted;
      Scale(1, n, unit);
      var bytes := provider.Read(unit, n);
      count := WholeFramesIn(|bytes|, unit);
      Regroup(count, sampleSize, channels);
      ToSamplesConverts(audioFormat, sampleSize, count * channels, bytes[..count * unit]);
      if audioFormat == FORMAT_IEEE_FLOAT {
        samples := ToSamples(audioFormat, sampleSize, bytes[..count * unit]);
      } else {
        samples := TransferSamples(audioFormat, sampleSize, count * channels, bytes[..count * unit]);
      }
    }

    /** The conversion loop of `WavReader`. */
    method TransferSamples(ghost audioFormat: nat, sampleSize: nat, total: nat, inSamples: seq<byte>) returns (outSamples: seq<Sample>)
      requires audioFormat != FORMAT_IEEE_FLOAT && sampleSize in {1, 2, 4}
      requires |inSamples| == sampleSize * total
      ensures outSamples == ToSamples(audioFormat, sampleSize, inSamples)
    {
      hide PcmSample, ToSamples;
      outSamples := [];
      NoSamples(audioFormat, sampleSize);
      var i := 0;
      while i < total
        invariant 0 <= sampleSize * i <= |inSamples| && i <= total
        invariant outSamples == ToSamples(audioFormat, sampleSize, inSamples[..sampleSize * i])
      {
        var from, to := sampleSize * i, sampleSize * (i + 1);
        assert to == from + sampleSize <= |inSamples|;
        ToSamplesPush(audioFormat, sampleSize, i, inSamples[..from], inSamples[from..to]);
        assert inSamples[..from] + inSamples[from..to] == inSamples[..to];
        outSamples := outSamples + [PcmSample(inSamples[from..to])];
        i := i + 1;
      }
      assert inSamples[..sampleSize * i] == inSamples;
    }
  }

  lemma NoSamples(audioFormat: nat, size: nat)
    requires size > 0 && (audioFormat == FORMAT_IEEE_FLOAT || size in {1, 2, 4})
    ensures ToSamples(audioFormat, size, []) == []
  {
  }

  /** Whether a decode converts anything, and into what. */
  predicate Decodable(f: Format, channels: nat) {
    && channels > 0 && f.audioFormat != 0 && f.bitDepth / 8 > 0
    && (f.audioFormat == 3 || f.bitDepth / 8 in {1, 2, 4})
  }

  /** One PCM sample of 1, 2 or 4 bytes: unsigned around 127, or signed. */
  function PcmSample(bytes: seq<byte>): Sample
    requires |bytes| in {1, 2, 4}
  {
    LoadBound(bytes);
    assert Pow256(2) == 0x1_0000 && Pow256(4) == 0x1_0000_0000;
    match |bytes|
    case 1 => Scaled((LoadLE(bytes) - 127) as real / 255.0)
    case 2 => Scaled(Signed16(LoadLE(bytes)) as real / 32767.0)
    case _ => Scaled(Signed32(LoadLE(bytes)) as real / 2147483647.0)
  }

  /** The values of a sample of `size` bytes. */
  ghost predicate InWidth(x: int, size: nat) {
    match size
    case 1 => 0 <= x < 0x100
    case 2 => -0x8000 <= x < 0x8000
    case 4 => -0x8000_0000 <= x < 0x8000_0000
    case _ => false
  }

  lemma WrapSigned(x: int)
    ensures -0x8000 <= x < 0x8000 ==> Signed16(x % 0x1_0000) == x
    ensures -0x8000_0000 <= x < 0x8000_0000 ==> Signed32(x % 0x1_0000_0000) == x
    ensures 0 <= x < 0x100 ==> x % 0x100 == x
  {
  }

  /** The bytes of a sample, two's complement for the signed widths, become that sample over the greatest one. */
  lemma PcmSampleOf(x: int, size: nat)
    requires InWidth(x, size)
    ensures PcmSample(StoreLE(x % Pow256(size), size))
         == Scaled(if size == 1 then (x - 127) as real / 255.0
                   else x as real / (if size == 2 then 32767.0 else 2147483647.0))
  {
    assert Pow256(1) == 0x100 && Pow256(2) == 0x1_0000 && Pow256(4) == 0x1_0000_0000;
    hide LoadLE, StoreLE, Pow256, Signed16, Signed32;
    LoadStore(x % Pow256(size), size);
    WrapSigned(x);
  }

  /** The samples held by a stretch of audio data. */
  function ToSamples(audioFormat: nat, size: nat, bytes: seq<byte>): (s: seq<Sample>)
    requires size > 0 && (audioFormat == FORMAT_IEEE_FLOAT || size in {1, 2, 4})
    ensures size * |s| <= |bytes|
    decreases |bytes|
  {
    if |bytes| < size then []
    else [if audioFormat == FORMAT_IEEE_FLOAT then Float(bytes[..size]) else PcmSample(bytes[..size])]
         + ToSamples(audioFormat, size, bytes[size..])
  }

  /** Whether `sample` is the `j`-th one of the bytes: as they are for float, their value otherwise. */
  ghost predicate SampleAt(audioFormat: nat, size: nat, bytes: seq<byte>, j: int, sample: Sample) {
    var from := size * j;
    && 0 <= from && from + size <= |bytes|
    && if audioFormat == FORMAT_IEEE_FLOAT then sample == Float(bytes[from..from + size])
       else size in {1, 2, 4} && sample == PcmSample(bytes[from..from + size])
  }

  /** Whether the samples are those of the bytes, one after the other. */
  ghost predicate Converted(audioFormat: nat, size: nat, bytes: seq<byte>, samples: seq<Sample>) {
    size * |samples| == |bytes| && forall i :: 0 <= i < |samples| ==> SampleAt(audioFormat, size, bytes, i, samples[i])
  }

  lemma {:induction false} ToSamplesConverts(audioFormat: nat, size: nat, k: nat, bytes: seq<byte>)
    requires size > 0 && (audioFormat == FORMAT_IEEE_FLOAT || size in {1, 2, 4}) && |bytes| == size * k
    ensures Converted(audioFormat, size, bytes, ToSamples(audioFormat, size, bytes))
    decreases k
  {
    hide PcmSample, SampleAt;
    var samples := ToSamples(audioFormat, size, bytes);
    if k > 0 {
      assert |bytes| == size + size * (k - 1);
      ToSamplesConverts(audioFormat, size, k - 1, bytes[size..]);
      FirstSample(audioFormat, size, bytes);
      forall i | 0 < i < |samples|
        ensures SampleAt(audioFormat, size, bytes, i, samples[i])
      {
        LaterSample(audioFormat, size, bytes, i - 1, samples[i]);
      }
      assert size * |samples| == size + size * (|samples| - 1);
    }
  }

  lemma FirstSample(audioFormat: nat, size: nat, bytes: seq<byte>)
    requires 0 < size <= |bytes| && (audioFormat == FORMAT_IEEE_FLOAT || size in {1, 2, 4})
    ensures |ToSamples(audioFormat, size, bytes)| > 0
    ensures SampleAt(audioFormat, size, bytes, 0, ToSamples(audioFormat, size, bytes)[0])
  {
    hide PcmSample;
    assert size * 0 == 0;
  }

  lemma LaterSample(audioFormat: nat, size: nat, bytes: seq<byte>, j: nat, sample: Sample)
    requires size <= |bytes| && SampleAt(audioFormat, size, bytes[size..], j, sample)
    ensures SampleAt(audioFormat, size, bytes, j + 1, sample)
  {
    hide PcmSample;
    var from := size * j;
    assert size * (j + 1) == size + from;
    SliceOfSlice(bytes, size, |bytes|, from, from + size);
    assert bytes[size..] == bytes[size..|bytes|];
  }

  /** `bytes_read / (sample_size * channels)`. */
  function WholeFramesIn(bytes: nat, unit: nat): (count: nat)
    requires unit > 0
    ensures count * unit <= bytes < (count + 1) * unit
  {
    assert bytes == bytes / unit * unit + bytes % unit;
    bytes / unit
  }

  lemma Regroup(count: nat, size: nat, channels: nat)
    ensures count * (size * channels) == size * (count * channels)
    ensures count * channels >= 0
  {
    Scale(0, count, channels);
  }

  lemma {:induction false} ToSamplesPush(audioFormat: nat, size: nat, k: nat, bytes: seq<byte>, last: seq<byte>)
    requires audioFormat != FORMAT_IEEE_FLOAT && size in {1, 2, 4}
    requires |bytes| == size * k && |last| == size
    ensures ToSamples(audioFormat, size, bytes + last) == ToSamples(audioFormat, size, bytes) + [PcmSample(last)]
    decreases k
  {
    hide PcmSample;
    var whole := bytes + last;
    if k == 0 {
      assert whole[..size] == last && whole[size..] == [];
    } else {
      assert |bytes| == size + size * (k - 1);
      assert whole[..size] == bytes[..size] && whole[size..] == bytes[size..] + last;
      ToSamplesPush(audioFormat, size, k - 1, bytes[size..], last);
    }
  }

  /** What the caller hears about a bad master header; the search for chunks goes on regardless. */
  function HeaderEvents(content: seq<byte>): seq<Event>
    requires |content| >= WAV_HEADER_BYTES
  {
    if content[..4] != RIFF then [Failed(NotRiff), Loaded(false)]
    else if content[8..12] != WAVE then [Failed(NotWav), Loaded(false)]
    else []
  }

  /** What the caller hears when the search for chunks stops; a division by zero ends the process. */
  function LastEvents(how: Chunked): seq<Event> {
    match how
    case Taken => [Loaded(true)]
    case Refused => [Failed(ChunkError), Loaded(false)]
    case Trapped => []
  }

  /** One chunk of a file in which both chunks are found. */
  lemma LocateStep(content: seq<byte>, at: nat, fmt: int)
    requires fmt == -1 || 0 <= fmt <= |content| - FMT_HEADER_BYTES
    ensures Locate(content, at, fmt).Found? ==>
              && at + 8 <= |content|
              && if TagAt(content, at) == FMT then
                   at + 24 <= |content| && Locate(content, at, fmt) == Locate(content, at + 24, at + 4)
                 else if TagAt(content, at) == DATA then
                   fmt >= 0 && FrameSizeAt(content, fmt) > 0 && Locate(content, at, fmt) == Found(fmt, at + 8)
                 else Locate(content, at, fmt) == Locate(content, SkipBody(content, at + 8, SizeAt(content, at + 4)), fmt)
  {
    hide ParseHeader, LoadLE;
  }
}

/** The WAV writer of the command line tool, and what the decoder makes of its files. */
module WavWriter {
  import opened ByteOrder
  import opened Frames
  import opened HttpProvider
  import opened WavDecoder
  import opened WavFormat

  /** The format the tool declares: interleaved 32-bit floats. */
  function FloatFormat(channels: nat, sampleRate: nat): Format {
    Format(FORMAT_IEEE_FLOAT, channels, sampleRate, sampleRate * channels * 4, channels * 4, 32)
  }

  /**
   * The decode callback of the tool: a 44-byte header, then the samples.  The file is an
   * instance of the printed form, without any other chunk.
   */
  method WriteFile(channels: nat, sampleRate: nat, frameCount: nat, samples: seq<byte>) returns (file: seq<byte>)
    requires |samples| == frameCount * channels * 4
    ensures file == Print(|samples| + 36, [], FloatFormat(channels, sampleRate), [], samples, [])
    ensures |file| == 44 + |samples| && file[44..] == samples
    ensures Spelled(file, 0, "RIFF") && Spelled(file, 8, "WAVE") && Spelled(file, 12, "fmt ") && Spelled(file, 36, "data")
    ensures file[16..20] == [16, 0, 0, 0] && file[20..22] == [3, 0] && file[34..36] == [32, 0]
    ensures channels < 0x1_0000 ==> LoadLE(file[22..24]) == channels
    ensures sampleRate < 0x1_0000_0000 ==> LoadLE(file[24..28]) == sampleRate
    ensures 0 <= sampleRate * channels * 4 < 0x1_0000_0000 ==> LoadLE(file[28..32]) == sampleRate * channels * 4
    ensures channels * 4 < 0x1_0000 ==> LoadLE(file[32..34]) == channels * 4
    ensures |samples| < 0x1_0000_0000 ==> LoadLE(file[40..44]) == |samples|
  {
    hide StoreLE, Spelled, LoadLE, At;
    var byteSize := frameCount * channels * 4;
    var f := FloatFormat(channels, sampleRate);
    var riff := RIFF + StoreLE(byteSize + 44 - 4 - 4, 4) + WAVE;
    var format := FMT + StoreLE(16, 4) + StoreLE(FORMAT_IEEE_FLOAT, 2) + StoreLE(channels, 2)
      + StoreLE(sampleRate, 4) + StoreLE(sampleRate * channels * 4, 4) + StoreLE(channels * 4, 2) + StoreLE(4 * 8, 2);
    var data := DATA + StoreLE(byteSize, 4);
    assert format == FMT + f.Header();
    assert PrintPrefix([], f, []) == format;
    file := riff + format + data + samples;
    assert file == riff + format + data + samples + [];
    Flat(RIFF, StoreLE(byteSize + 44 - 4 - 4, 4), WAVE, FMT, StoreLE(16, 4), StoreLE(FORMAT_IEEE_FLOAT, 2),
         StoreLE(channels, 2), StoreLE(sampleRate, 4), StoreLE(sampleRate * channels * 4, 4), StoreLE(channels * 4, 2),
         StoreLE(4 * 8, 2), DATA, StoreLE(byteSize, 4));
    WholeAt(file);
    AtSplit(file, 0, riff + format + data, samples);
    HeaderBytes(channels, sampleRate, byteSize, file);
  }

  lemma Flat(a: seq<byte>, b: seq<byte>, c: seq<byte>, d: seq<byte>, e: seq<byte>, f: seq<byte>, g: seq<byte>,
             h: seq<byte>, i: seq<byte>, j: seq<byte>, k: seq<byte>, l: seq<byte>, m: seq<byte>)
    ensures (a + b + c) + (d + e + f + g + h + i + j + k) + (l + m) == a + b + c + d + e + f + g + h + i + j + k + l + m
  {
    Behind(a + b + c, d, e, f, g, h, i, j, k);
    assert a + b + c + d + e + f + g + h + i + j + k + (l + m) == a + b + c + d + e + f + g + h + i + j + k + l + m;
  }

  lemma Behind(a: seq<byte>, d: seq<byte>, e: seq<byte>, f: seq<byte>, g: seq<byte>, h: seq<byte>, i: seq<byte>, j: seq<byte>, k: seq<byte>)
    ensures a + (d + e + f + g + h + i + j + k) == a + d + e + f + g + h + i + j + k
  {
    assert a + (d + e) == a + d + e;
    assert a + (d + e + f) == a + (d + e) + f;
    assert a + (d + e + f + g) == a + (d + e + f) + g;
    assert a + (d + e + f + g + h) == a + (d + e + f + g) + h;
    assert a + (d + e + f + g + h + i) == a + (d + e + f + g + h) + i;
    assert a + (d + e + f + g + h + i + j) == a + (d + e + f + g + h + i) + j;
    assert a + (d + e + f + g + h + i + j + k) == a + (d + e + f + g + h + i + j) + k;
  }

  /** The places of the parts of a header. */
  lemma HeaderPlaces(file: seq<byte>, a: seq<byte>, b: seq<byte>, c: seq<byte>, d: seq<byte>, e: seq<byte>, f: seq<byte>,
                     g: seq<byte>, h: seq<byte>, i: seq<byte>, j: seq<byte>, k: seq<byte>, l: seq<byte>, m: seq<byte>)
    requires |a| == |b| == |c| == |d| == |e| == |h| == |i| == |l| == |m| == 4 && |f| == |g| == |j| == |k| == 2
    requires At(file, 0, a + b + c + d + e + f + g + h + i + j + k + l + m)
    ensures At(file, 0, a) && At(file, 8, c) && At(file, 12, d) && At(file, 16, e) && At(file, 20, f) && At(file, 22, g)
    ensures At(file, 24, h) && At(file, 28, i) && At(file, 32, j) && At(file, 34, k) && At(file, 36, l) && At(file, 40, m)
  {
    hide At;
    AtSplit(file, 0, a + b + c + d + e + f + g + h + i + j + k + l, m);
    AtSplit(file, 0, a + b + c + d + e + f + g + h + i + j + k, l);
    AtSplit(file, 0, a + b + c + d + e + f + g + h + i + j, k);
    AtSplit(file, 0, a + b + c + d + e + f + g + h + i, j);
    AtSplit(file, 0, a + b + c + d + e + f + g + h, i);
    AtSplit(file, 0, a + b + c + d + e + f + g, h);
    AtSplit(file, 0, a + b + c + d + e + f, g);
    AtSplit(file, 0, a + b + c + d + e, f);
    AtSplit(file, 0, a + b + c + d, e);
    AtSplit(file, 0, a + b + c, d);
    AtSplit(file, 0, a + b, c);
    AtSplit(file, 0, a, b);
  }

  /** The header, field by field. */
  lemma HeaderBytes(channels: nat, sampleRate: nat, byteSize: nat, file: seq<byte>)
    requires At(file, 0, RIFF + StoreLE(byteSize + 36, 4) + WAVE + FMT + StoreLE(16, 4) + StoreLE(FORMAT_IEEE_FLOAT, 2)
                         + StoreLE(channels, 2) + StoreLE(sampleRate, 4) + StoreLE(sampleRate * channels * 4, 4)
                         + StoreLE(channels * 4, 2) + StoreLE(32, 2) + DATA + StoreLE(byteSize, 4))
    ensures |file| >= 44
    ensures Spelled(file, 0, "RIFF") && Spelled(file, 8, "WAVE") && Spelled(file, 12, "fmt ") && Spelled(file, 36, "data")
    ensures file[16..20] == [16, 0, 0, 0] && file[20..22] == [3, 0] && file[34..36] == [32, 0]
    ensures channels < 0x1_0000 ==> LoadLE(file[22..24]) == channels
    ensures sampleRate < 0x1_0000_0000 ==> LoadLE(file[24..28]) == sampleRate
    ensures 0 <= sampleRate * channels * 4 < 0x1_0000_0000 ==> LoadLE(file[28..32]) == sampleRate * channels * 4
    ensures channels * 4 < 0x1_0000 ==> LoadLE(file[32..34]) == channels * 4
    ensures byteSize < 0x1_0000_0000 ==> LoadLE(file[40..44]) == byteSize
  {
    hide StoreLE, LoadLE, Pow256, Spelled, RIFF, WAVE, FMT, DATA;
    Tags();
    SmallStores();
    Scale(0, sampleRate * channels, 4);
    HeaderPlaces(file, RIFF, StoreLE(byteSize + 36, 4), WAVE, FMT, StoreLE(16, 4), StoreLE(FORMAT_IEEE_FLOAT, 2),
                 StoreLE(channels, 2), StoreLE(sampleRate, 4), StoreLE(sampleRate * channels * 4, 4),
                 StoreLE(channels * 4, 2), StoreLE(32, 2), DATA, StoreLE(byteSize, 4));
    Widths();
    if channels < 0x1_0000 {
      LoadStore(channels, 2);
    }
    if sampleRate < 0x1_0000_0000 {
      LoadStore(sampleRate, 4);
    }
    if byteSize < 0x1_0000_0000 {
      LoadStore(byteSize, 4);
    }
    if sampleRate * channels * 4 < 0x1_0000_0000 {
      LoadStore(sampleRate * channels * 4, 4);
    }
    if channels * 4 < 0x1_0000 {
      LoadStore(channels * 4, 2);
    }
    SpelledAt(file, 0, RIFF, "RIFF");
    SpelledAt(file, 8, WAVE, "WAVE");
    SpelledAt(file, 12, FMT, "fmt ");
    SpelledAt(file, 36, DATA, "data");
  }

  lemma Widths()
    ensures Pow256(2) == 0x1_0000 && Pow256(4) == 0x1_0000_0000
  {
  }

  lemma SpelledAt(bytes: seq<byte>, at: nat, tag: seq<byte>, text: string)
    requires At(bytes, at, tag) && Spelled(tag, 0, text) && |tag| == |text|
    ensures Spelled(bytes, at, text)
  {
    var part := bytes[at..at + |tag|];
    assert forall i :: 0 <= i < |tag| ==> part[i] == bytes[at + i];
  }

  lemma SmallStores()
    ensures StoreLE(16, 4) == [16, 0, 0, 0] && StoreLE(FORMAT_IEEE_FLOAT, 2) == [3, 0] && StoreLE(32, 2) == [32, 0]
  {
    assert StoreLE(0, 1) == [0] && StoreLE(0, 2) == [0, 0] && StoreLE(0, 3) == [0, 0, 0];
  }

  /** Reading printed frames: the payload bytes of frames `k` to `k + n`, and nothing else. */
  lemma PrintedFrames(file: seq<byte>, data: nat, payload: seq<byte>, k: nat, n: nat, unit: nat)
    requires At(file, data, payload) && (k + n) * unit <= |payload|
    ensures 0 <= k * unit <= (k + n) * unit
    ensures data + k * unit <= |file|
    ensures ReadAt(file, data + k * unit, unit * n) == payload[k * unit..(k + n) * unit]
    ensures |payload[k * unit..(k + n) * unit]| == unit * n
  {
    Scale(0, k, unit);
    Scale(k, k + n, unit);
    AddFrames(k, n, unit);
    SliceOfSlice(file, data, data + |payload|, k * unit, (k + n) * unit);
  }

  /** A decoder that has loaded a printed file knows its format, its length and where its data is. */
  method LoadPrinted(fileSize: nat, before: seq<Chunk>, f: Format, between: seq<Chunk>, payload: seq<byte>, rest: seq<byte>,
                     memory: seq<byte>, garbage: seq<byte>)
    returns (events: seq<Event>, decoder: Decoder)
    requires f.Valid() && f.FrameSize() > 0 && |payload| < 0x1_0000_0000
    requires forall i :: 0 <= i < |before| ==> before[i].Skippable()
    requires forall i :: 0 <= i < |between| ==> between[i].Skippable()
    requires |Print(fileSize, before, f, between, payload, rest)| < TWO_63 - 0x1_0000_0000
    requires |garbage| == 4 && |memory| == 4 + FMT_HEADER_BYTES
    ensures events == [Loaded(true)]
    ensures fresh(decoder) && fresh(decoder.provider) && decoder.Valid() && decoder.provider.complete
    ensures decoder.provider.content == Print(fileSize, before, f, between, payload, rest)
    ensures At(decoder.provider.content, decoder.dataOffset, payload)
    ensures decoder.provider.offset == decoder.dataOffset && decoder.frameIndex == 0
    ensures ParseHeader(decoder.fmt) == f && decoder.channels == f.channels && decoder.sampleRate == f.sampleRate
    ensures decoder.frames == |payload| / f.FrameSize()
  {
    hide Print, PrintPrefix, PrintChunks, ParseHeader, Locate, FormatAt, SizeAt, Format.Header, Format.FrameSize;
    hide Memory.HasFormat, Memory.HasData, File.Scan;
    var file := Print(fileSize, before, f, between, payload, rest);
    LocatePrinted(fileSize, before, f, between, payload, rest);
    PrintedIsRiff(file);
    var provider := new DataProviderHTTP(file, true);
    decoder := new Decoder(provider, garbage, memory, 0);
    var trapped;
    events, trapped := decoder.Load();
    ghost var found := Locate(file, WAV_HEADER_BYTES, -1);
    PrintedFields(file, found.fmt, found.data, decoder.InMemory(), f);
  }

  lemma PrintedIsRiff(file: seq<byte>)
    requires |file| >= WAV_HEADER_BYTES && At(file, 0, RIFF) && At(file, 8, WAVE)
    ensures HeaderEvents(file) == []
  {
    assert file[..4] == file[0..4];
  }

  /** Fields that a load has set, in terms of what the file declares. */
  lemma PrintedFields(file: seq<byte>, fmt: nat, data: nat, m: Memory, f: Format)
    requires fmt + FMT_HEADER_BYTES <= |file| && 4 <= data <= |file|
    requires m.HasFormat(file, fmt) && m.HasData(file, data) && FormatAt(file, fmt) == f
    ensures |m.fmt| == FMT_HEADER_BYTES && ParseHeader(m.fmt) == f
    ensures m.channels == f.channels && m.sampleRate == f.sampleRate && m.dataOffset == data
    ensures f.FrameSize() > 0 && m.frames == SizeAt(file, data - 4) / f.FrameSize()
  {
    hide ParseHeader, SizeAt, Format.FrameSize;
  }

  /**
   * Seeking to frame `k` of a loaded file and decoding `n` frames returns exactly the written
   * frames `k` to `k + n`, whatever chunks surround the format and the data.
   */
  method ReadFrames(decoder: Decoder, f: Format, payload: seq<byte>, k: nat, n: nat)
    returns (index: nat, count: nat, samples: seq<Sample>)
    requires decoder.Valid() && decoder.provider.complete && ParseHeader(decoder.fmt) == f && decoder.channels == f.channels
    requires At(decoder.provider.content, decoder.dataOffset, payload)
    requires f.FrameSize() > 0 && decoder.frames == |payload| / f.FrameSize()
    requires |payload| < 0x1_0000_0000 && |decoder.provider.content| < TWO_63 - 0x1_0000_0000
    requires Decodable(f, f.channels) && (f.audioFormat == FORMAT_IEEE_FLOAT ==> f.bitDepth / 8 == 4)
    requires 0 < n && (k + n) * f.FrameSize() <= |payload|
    modifies decoder, decoder.provider
    ensures index == k && count == n
    ensures 0 <= k * f.FrameSize() <= (k + n) * f.FrameSize()
    ensures samples == ToSamples(f.audioFormat, f.bitDepth / 8, payload[k * f.FrameSize()..(k + n) * f.FrameSize()])
    ensures |samples| == n * f.channels
    ensures forall i :: 0 <= i < |samples| ==>
              SampleAt(f.audioFormat, f.bitDepth / 8, payload, k * f.channels + i, samples[i])
  {
    ghost var unit := f.FrameSize();
    assert decoder.FrameBytes() == unit && decoder.SampleSize() == f.bitDepth / 8;
    assert decoder.dataOffset <= |decoder.provider.content|;
    hide ParseHeader, ToSamples, At, ReadAt, Format.FrameSize, Decoder.FrameBytes, Decoder.SampleSize, WholeFramesIn, Converted, SampleAt;
    PrintedFrames(decoder.provider.content, decoder.dataOffset, payload, k, n, unit);
    FrameCount(|payload|, k, n, unit);
    decoder.Seek(k);
    index, count, samples := decoder.Decode(n);
    AllWhole(payload[k * unit..(k + n) * unit], n, unit);
    SampleCount(f.bitDepth / 8, f.channels, k, n, |samples|);
    SamplesInPayload(f.audioFormat, f.bitDepth / 8, payload, k * unit, (k + n) * unit, k * f.channels, samples);
  }

  /** Converted frames, sample by sample in the payload. */
  lemma SamplesInPayload(audioFormat: nat, size: nat, payload: seq<byte>, a: nat, b: nat, first: int, samples: seq<Sample>)
    requires a <= b <= |payload| && a == size * first && Converted(audioFormat, size, payload[a..b], samples)
    ensures forall i :: 0 <= i < |samples| ==> SampleAt(audioFormat, size, payload, first + i, samples[i])
  {
    hide SampleAt;
    forall i | 0 <= i < |samples|
      ensures SampleAt(audioFormat, size, payload, first + i, samples[i])
    {
      SampleShifts(audioFormat, size, payload, a, b, first, i, samples[i]);
    }
  }

  lemma SampleShifts(audioFormat: nat, size: nat, payload: seq<byte>, a: nat, b: nat, first: int, i: int, sample: Sample)
    requires a <= b <= |payload| && a == size * first && SampleAt(audioFormat, size, payload[a..b], i, sample)
    ensures SampleAt(audioFormat, size, payload, first + i, sample)
  {
    hide PcmSample;
    AddFrames(first, i, size);
    var from := size * i;
    assert size * (first + i) == a + from;
    SliceOfSlice(payload, a, b, from, from + size);
  }

  lemma SampleCount(size: nat, ch: nat, k: nat, n: nat, count: nat)
    requires size > 0 && size * count == (k + n) * (size * ch) - k * (size * ch)
    ensures count == n * ch && k * (size * ch) == size * (k * ch)
  {
    AddFrames(k, n, size * ch);
    assert n * (size * ch) == size * (n * ch);
    DivMul(size * count, count, size);
    DivMul(size * (n * ch), n * ch, size);
  }

  /** The sample has the four bytes at `from` as they are. */
  ghost predicate FloatAt(bytes: seq<byte>, from: int, sample: Sample) {
    0 <= from <= from + 4 <= |bytes| && sample == Float(bytes[from..from + 4])
  }

  /**
   * A file that the tool has written, loaded into any memory and read at any of its frames:
   * every sample has the bytes that were written for it.
   */
  method WriteAndRead(channels: nat, sampleRate: nat, frameCount: nat, samples: seq<byte>, memory: seq<byte>, garbage: seq<byte>,
                      k: nat, n: nat)
    returns (events: seq<Event>, index: nat, count: nat, read: seq<Sample>)
    requires |samples| == frameCount * channels * 4 && |samples| < 0x1_0000_0000
    requires 0 < channels && channels * 4 < 0x1_0000 && sampleRate * channels * 4 < 0x1_0000_0000 && sampleRate < 0x1_0000_0000
    requires |garbage| == 4 && |memory| == 4 + FMT_HEADER_BYTES
    requires 0 < n && k + n <= frameCount
    ensures events == [Loaded(true)] && index == k && count == n
    ensures |read| == n * channels
    ensures forall i :: 0 <= i < |read| ==> FloatAt(samples, 4 * (k * channels + i), read[i])
  {
    hide Print, At, ParseHeader, FloatFormat, ToSamples, Decoder.Valid, SampleAt, FloatAt, Decodable, Format.FrameSize, Format.Valid,
      DataProviderHTTP.Valid;
    var f := FloatFormat(channels, sampleRate);
    Sizes(channels, sampleRate, frameCount, k, n);
    var file := WriteFile(channels, sampleRate, frameCount, samples);
    var decoder;
    events, decoder := LoadPrinted(|samples| + 36, [], f, [], samples, [], memory, garbage);
    index, count, read := ReadFrames(decoder, f, samples, k, n);
    FloatsAt(samples, k * channels, read);
  }

  lemma FloatsAt(bytes: seq<byte>, first: int, samples: seq<Sample>)
    requires forall i :: 0 <= i < |samples| ==> SampleAt(FORMAT_IEEE_FLOAT, 4, bytes, first + i, samples[i])
    ensures forall i :: 0 <= i < |samples| ==> FloatAt(bytes, 4 * (first + i), samples[i])
  {
    forall i | 0 <= i < |samples|
      ensures FloatAt(bytes, 4 * (first + i), samples[i])
    {
      assert SampleAt(FORMAT_IEEE_FLOAT, 4, bytes, first + i, samples[i]);
    }
  }

  lemma Sizes(channels: nat, sampleRate: nat, frameCount: nat, k: nat, n: nat)
    requires 0 < channels && channels * 4 < 0x1_0000 && sampleRate * channels * 4 < 0x1_0000_0000 && sampleRate < 0x1_0000_0000
    requires k + n <= frameCount
    ensures var f := FloatFormat(channels, sampleRate);
            && f.Valid() && f.FrameSize() == channels * 4 && f.audioFormat == FORMAT_IEEE_FLOAT && f.bitDepth == 32
            && f.channels == channels && Decodable(f, channels)
            && (k + n) * f.FrameSize() <= frameCount * channels * 4
  {
    Scale(0, sampleRate, channels);
    Scale(k + n, frameCount, channels * 4);
    assert frameCount * channels * 4 == frameCount * (channels * 4);
  }

  lemma AllWhole(bytes: seq<byte>, n: nat, unit: nat)
    requires unit > 0 && |bytes| == unit * n
    ensures WholeFramesIn(|bytes|, unit) == n && n * unit == |bytes| && bytes[..n * unit] == bytes
  {
    DivMul(unit * n, n, unit);
  }

  lemma FrameCount(bytes: nat, k: nat, n: nat, unit: nat)
    requires unit > 0 && n > 0 && (k + n) * unit <= bytes
    ensures k < bytes / unit && 0 <= k * unit && unit * n <= bytes && k * unit <= bytes
  {
    Scale(0, k, unit);
    AddFrames(k, n, unit);
    Scale(1, n, unit);
    assert bytes == bytes / unit * unit + bytes % unit;
    if k >= bytes / unit {
      Scale(bytes / unit + 1, k + n, unit);
      AddFrames(bytes / unit, 1, unit);
    }
  }
}
