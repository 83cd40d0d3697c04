/** WAVE files: how chunks are written, and where a reader finds them. */
module WavFormat {
  import opened ByteOrder

  const RIFF: seq<byte> := [0x52, 0x49, 0x46, 0x46]
  const WAVE: seq<byte> := [0x57, 0x41, 0x56, 0x45]
  const FMT: seq<byte> := [0x66, 0x6d, 0x74, 0x20]
  const DATA: seq<byte> := [0x64, 0x61, 0x74, 0x61]

  /** The characters of `text` stand in the bytes. */
  predicate Spelled(bytes: seq<byte>, at: nat, text: string) {
    at + |text| <= |bytes| && forall i :: 0 <= i < |text| ==> bytes[at + i] == text[i] as int
  }

  /** The tags are the characters they stand for. */
  lemma Tags()
    ensures Spelled(RIFF, 0, "RIFF") && Spelled(WAVE, 0, "WAVE") && Spelled(FMT, 0, "fmt ") && Spelled(DATA, 0, "data")
    ensures |RIFF| == |WAVE| == |FMT| == |DATA| == 4
  {
    var riff, wave, fmt, data := "RIFF", "WAVE", "fmt ", "data";
    assert riff[0] == 'R' && riff[1] == 'I' && riff[2] == 'F' && riff[3] == 'F';
    assert wave[0] == 'W' && wave[1] == 'A' && wave[2] == 'V' && wave[3] == 'E';
    assert fmt[0] == 'f' && fmt[1] == 'm' && fmt[2] == 't' && fmt[3] == ' ';
    assert data[0] == 'd' && data[1] == 'a' && data[2] == 't' && data[3] == 'a';
  }

  const FORMAT_NONE: int := 0
  const FORMAT_IEEE_FLOAT: int := 3

  const WAV_HEADER_BYTES: nat := 12
  const FMT_HEADER_BYTES: nat := 20

  /** A chunk other than `fmt ` and `data`. */
  datatype Chunk = Chunk(tag: seq<byte>, body: seq<byte>)
  {
    ghost predicate Skippable() {
      |tag| == 4 && tag != FMT && tag != DATA && |body| < 0x1_0000_0000
    }
  }

  datatype Format = Format(audioFormat: nat, channels: nat, sampleRate: nat, byteRate: nat, alignment: nat, bitDepth: nat)
  {
    ghost predicate Valid() {
      && audioFormat < 0x1_0000 && channels < 0x1_0000 && alignment < 0x1_0000 && bitDepth < 0x1_0000
      && sampleRate < 0x1_0000_0000 && byteRate < 0x1_0000_0000
    }

    function FrameSize(): nat {
      bitDepth / 8 * channels
    }

    /** The packed header that follows the `fmt ` tag, size included. */
    function Header(): (h: seq<byte>)
      ensures |h| == FMT_HEADER_BYTES
    {
      StoreLE(16, 4) + StoreLE(audioFormat, 2) + StoreLE(channels, 2) + StoreLE(sampleRate, 4)
      + StoreLE(byteRate, 4) + StoreLE(alignment, 2) + StoreLE(bitDepth, 2)
    }
  }

  /** The fields of a packed header in memory. */
  function ParseHeader(h: seq<byte>): Format
    requires |h| == FMT_HEADER_BYTES
  {
    Format(LoadLE(h[4..6]), LoadLE(h[6..8]), LoadLE(h[8..12]), LoadLE(h[12..16]), LoadLE(h[16..18]), LoadLE(h[18..20]))
  }

  /** The places of the header's fields. */
  lemma HeaderParts(a: seq<byte>, b: seq<byte>, c: seq<byte>, d: seq<byte>, e: seq<byte>, f: seq<byte>, g: seq<byte>)
    requires |a| == |d| == |e| == 4 && |b| == |c| == |f| == |g| == 2
    ensures var h := a + b + c + d + e + f + g;
            h[4..6] == b && h[6..8] == c && h[8..12] == d && h[12..16] == e && h[16..18] == f && h[18..20] == g
  {
    var h := a + b + c + d + e + f + g;
    WholeAt(h);
    AtSplit(h, 0, a + b + c + d + e + f, g);
    AtSplit(h, 0, a + b + c + d + e, f);
    AtSplit(h, 0, a + b + c + d, e);
    AtSplit(h, 0, a + b + c, d);
    AtSplit(h, 0, a + b, c);
    AtSplit(h, 0, a, b);
  }

  lemma HeaderRoundTrip(f: Format)
    requires f.Valid()
    ensures ParseHeader(f.Header()) == f
  {
    assert Pow256(2) == 0x1_0000 && Pow256(4) == 0x1_0000_0000;
    LoadStore(f.audioFormat, 2);
    LoadStore(f.channels, 2);
    LoadStore(f.sampleRate, 4);
    LoadStore(f.byteRate, 4);
    LoadStore(f.alignment, 2);
    LoadStore(f.bitDepth, 2);
    hide LoadLE, StoreLE, Pow256;
    HeaderParts(StoreLE(16, 4), StoreLE(f.audioFormat, 2), StoreLE(f.channels, 2), StoreLE(f.sampleRate, 4),
                StoreLE(f.byteRate, 4), StoreLE(f.alignment, 2), StoreLE(f.bitDepth, 2));
  }

  function PrintChunk(c: Chunk): seq<byte> {
    c.tag + StoreLE(|c.body|, 4) + c.body
  }

  function PrintChunks(chunks: seq<Chunk>): seq<byte> {
    if |chunks| == 0 then [] else PrintChunk(chunks[0]) + PrintChunks(chunks[1..])
  }

  function PrintPrefix(before: seq<Chunk>, f: Format, between: seq<Chunk>): seq<byte> {
    PrintChunks(before) + (FMT + f.Header()) + PrintChunks(between)
  }

  function Assemble(size: seq<byte>, prefix: seq<byte>, dataSize: seq<byte>, payload: seq<byte>, rest: seq<byte>): seq<byte> {
    RIFF + size + WAVE + prefix + (DATA + dataSize) + payload + rest
  }

  /** A whole file: header, chunks, format, chunks, data, and whatever follows. */
  function Print(fileSize: nat, before: seq<Chunk>, f: Format, between: seq<Chunk>, payload: seq<byte>, rest: seq<byte>): seq<byte> {
    Assemble(StoreLE(fileSize, 4), PrintPrefix(before, f, between), StoreLE(|payload|, 4), payload, rest)
  }

  /** Where the format header and the audio data lie in a file. */
  datatype Found = Found(fmt: nat, data: nat) | NotFound

  function TagAt(content: seq<byte>, offset: nat): (tag: seq<byte>)
    requires offset + 4 <= |content|
    ensures |tag| == 4
  {
    content[offset..offset + 4]
  }

  function SizeAt(content: seq<byte>, offset: nat): (n: nat)
    requires offset + 4 <= |content|
    ensures n < 0x1_0000_0000
  {
    LoadBound(content[offset..offset + 4]);
    assert Pow256(4) == 0x1_0000_0000;
    LoadLE(content[offset..offset + 4])
  }

  /** Past a chunk body of `size` bytes at `offset`, or still there if it would overrun the file. */
  function SkipBody(content: seq<byte>, offset: nat, size: nat): nat {
    if offset + size <= |content| then offset + size else offset
  }

  /**
   * The search for both chunks from `offset` on, given the last format header seen.  A data
   * chunk needs a format header with a non-zero frame size before it.
   */
  function Locate(content: seq<byte>, offset: nat, fmt: int): (found: Found)
    requires fmt == -1 || 0 <= fmt <= |content| - FMT_HEADER_BYTES
    ensures found.Found? ==> found.fmt + FMT_HEADER_BYTES <= |content| && 4 <= found.data <= |content|
    decreases |content| - offset
  {
    if offset + 8 > |content| then NotFound
    else if TagAt(content, offset) == FMT then
      if offset + 4 + FMT_HEADER_BYTES > |content| then NotFound
      else Locate(content, offset + 4 + FMT_HEADER_BYTES, offset + 4)
    else if TagAt(content, offset) == DATA then
      if fmt == -1 || FrameSizeAt(content, fmt) == 0 then NotFound else Found(fmt, offset + 8)
    else
      Locate(content, SkipBody(content, offset + 8, SizeAt(content, offset + 4)), fmt)
  }

  function FormatAt(content: seq<byte>, fmt: nat): Format
    requires fmt + FMT_HEADER_BYTES <= |content|
  {
    ParseHeader(content[fmt..fmt + FMT_HEADER_BYTES])
  }

  function FrameSizeAt(content: seq<byte>, fmt: nat): nat
    requires fmt + FMT_HEADER_BYTES <= |content|
  {
    FormatAt(content, fmt).FrameSize()
  }

  /** Whether `part` lies in `content` at `offset`. */
  ghost predicate At(content: seq<byte>, offset: nat, part: seq<byte>) {
    offset + |part| <= |content| && content[offset..offset + |part|] == part
  }

  lemma AtSplit(content: seq<byte>, offset: nat, a: seq<byte>, b: seq<byte>)
    requires At(content, offset, a + b)
    ensures At(content, offset, a) && At(content, offset + |a|, b)
  {
    var whole := content[offset..offset + |a + b|];
    assert content[offset..offset + |a|] == whole[..|a|] == a;
    assert content[offset + |a|..offset + |a| + |b|] == whole[|a|..] == b;
  }

  lemma ChunkAt(content: seq<byte>, offset: nat, c: Chunk)
    requires c.Skippable() && At(content, offset, PrintChunk(c))
    ensures offset + 8 + |c.body| <= |content| && |PrintChunk(c)| == 8 + |c.body|
    ensures TagAt(content, offset) == c.tag && SizeAt(content, offset + 4) == |c.body|
  {
    hide LoadLE, StoreLE;
    AtSplit(content, offset, c.tag + StoreLE(|c.body|, 4), c.body);
    AtSplit(content, offset, c.tag, StoreLE(|c.body|, 4));
    FourBytes(|c.body|);
  }

  lemma FourBytes(x: nat)
    requires x < 0x1_0000_0000
    ensures LoadLE(StoreLE(x, 4)) == x
  {
    assert Pow256(4) == 0x1_0000_0000;
    LoadStore(x, 4);
  }

  lemma LocateChunk(content: seq<byte>, offset: nat, fmt: int)
    requires fmt == -1 || 0 <= fmt <= |content| - FMT_HEADER_BYTES
    requires offset + 8 <= |content| && TagAt(content, offset) != FMT && TagAt(content, offset) != DATA
    ensures Locate(content, offset, fmt)
         == Locate(content, SkipBody(content, offset + 8, SizeAt(content, offset + 4)), fmt)
  {
  }

  /** Skippable chunks are skipped. */
  lemma {:induction false} LocateSkips(content: seq<byte>, offset: nat, fmt: int, chunks: seq<Chunk>)
    requires fmt == -1 || 0 <= fmt <= |content| - FMT_HEADER_BYTES
    requires forall i :: 0 <= i < |chunks| ==> chunks[i].Skippable()
    requires At(content, offset, PrintChunks(chunks))
    ensures Locate(content, offset, fmt) == Locate(content, offset + |PrintChunks(chunks)|, fmt)
    decreases |chunks|
  {
    hide Locate, TagAt, SizeAt, PrintChunk, At;
    if |chunks| > 0 {
      var c := chunks[0];
      assert c.Skippable();
      AtSplit(content, offset, PrintChunk(c), PrintChunks(chunks[1..]));
      ChunkAt(content, offset, c);
      LocateChunk(content, offset, fmt);
      LocateSkips(content, offset + |PrintChunk(c)|, fmt, chunks[1..]);
    }
  }

  lemma PrefixParts(file: seq<byte>, at: nat, before: seq<Chunk>, f: Format, between: seq<Chunk>)
    requires At(file, at, PrintPrefix(before, f, between))
    ensures var fmt := at + |PrintChunks(before)| + 4;
            && |PrintPrefix(before, f, between)| == |PrintChunks(before)| + 24 + |PrintChunks(between)|
            && At(file, at, PrintChunks(before)) && At(file, fmt - 4, FMT)
            && At(file, fmt, f.Header()) && At(file, fmt + 20, PrintChunks(between))
  {
    hide PrintChunks, Format.Header, At;
    AtSplit(file, at, PrintChunks(before) + (FMT + f.Header()), PrintChunks(between));
    AtSplit(file, at, PrintChunks(before), FMT + f.Header());
    AtSplit(file, at + |PrintChunks(before)|, FMT, f.Header());
  }

  /** The parts of a printed file, each where the printer put it. */
  lemma PrintedParts(fileSize: nat, before: seq<Chunk>, f: Format, between: seq<Chunk>, payload: seq<byte>, rest: seq<byte>)
    ensures var file := Print(fileSize, before, f, between, payload, rest);
            var fmt := 12 + |PrintChunks(before)| + 4;
            var data := 12 + |PrintPrefix(before, f, between)| + 8;
            && data == fmt + 20 + |PrintChunks(between)| + 8 && data + |payload| + |rest| == |file|
            && At(file, 0, RIFF) && At(file, 8, WAVE)
            && At(file, 12, PrintChunks(before))
            && At(file, fmt - 4, FMT) && At(file, fmt, f.Header())
            && At(file, fmt + 20, PrintChunks(between))
            && At(file, data - 8, DATA) && At(file, data - 4, StoreLE(|payload|, 4))
            && At(file, data, payload)
  {
    hide PrintChunks, PrintPrefix, Assemble, Format.Header, StoreLE, At;
    var file := Print(fileSize, before, f, between, payload, rest);
    FileParts(file, StoreLE(fileSize, 4), PrintPrefix(before, f, between), StoreLE(|payload|, 4), payload, rest);
    PrefixParts(file, 12, before, f, between);
  }

  lemma FileParts(file: seq<byte>, size: seq<byte>, prefix: seq<byte>, dataSize: seq<byte>, payload: seq<byte>, rest: seq<byte>)
    requires |size| == |dataSize| == 4 && file == Assemble(size, prefix, dataSize, payload, rest)
    ensures var data := 12 + |prefix| + 8;
            && data + |payload| + |rest| == |file|
            && At(file, 0, RIFF) && At(file, 8, WAVE) && At(file, 12, prefix)
            && At(file, data - 8, DATA) && At(file, data - 4, dataSize) && At(file, data, payload)
  {
    var head := RIFF + size + WAVE;
    var data := DATA + dataSize;
    WholeAt(file);
    hide At;
    AtSplit(file, 0, head + prefix + data + payload, rest);
    AtSplit(file, 0, head + prefix + data, payload);
    AtSplit(file, 0, head + prefix, data);
    AtSplit(file, 0, head, prefix);
    AtSplit(file, |head + prefix|, DATA, dataSize);
    AtSplit(file, 0, RIFF + size, WAVE);
    AtSplit(file, 0, RIFF, size);
  }

  lemma WholeAt(content: seq<byte>)
    ensures At(content, 0, content)
  {
    assert content[0..|content|] == content;
  }

  /** What is printed is found: the format header and the payload, wherever chunks put them. */
  lemma LocatePrinted(fileSize: nat, before: seq<Chunk>, f: Format, between: seq<Chunk>, payload: seq<byte>, rest: seq<byte>)
    requires f.Valid() && f.FrameSize() > 0 && |payload| < 0x1_0000_0000
    requires forall i :: 0 <= i < |before| ==> before[i].Skippable()
    requires forall i :: 0 <= i < |between| ==> between[i].Skippable()
    ensures var file := Print(fileSize, before, f, between, payload, rest);
            var fmt := WAV_HEADER_BYTES + |PrintChunks(before)| + 4;
            var data := WAV_HEADER_BYTES + |PrintPrefix(before, f, between)| + 8;
            && fmt + FMT_HEADER_BYTES <= data <= |file|
            && Locate(file, WAV_HEADER_BYTES, -1) == Found(fmt, data)
            && FormatAt(file, fmt) == f
            && SizeAt(file, data - 4) == |payload|
            && At(file, data, payload) && At(file, 0, RIFF) && At(file, 8, WAVE)
  {
    hide Locate, Print, PrintPrefix, PrintChunks, ParseHeader, LoadLE, StoreLE, Format.Header, Format.FrameSize;
    var file := Print(fileSize, before, f, between, payload, rest);
    var fmt := 12 + |PrintChunks(before)| + 4;
    var data := 12 + |PrintPrefix(before, f, between)| + 8;
    PrintedParts(fileSize, before, f, between, payload, rest);
    HeaderRoundTrip(f);
    FourBytes(|payload|);
    LocateSkips(file, 12, -1, before);
    LocateFormat(file, fmt - 4, -1);
    LocateSkips(file, fmt + 20, fmt, between);
    assert FormatAt(file, fmt) == f;
    LocateData(file, data - 8, fmt);
  }

  lemma LocateFormat(content: seq<byte>, offset: nat, fmt: int)
    requires fmt == -1 || 0 <= fmt <= |content| - FMT_HEADER_BYTES
    requires offset + 24 <= |content| && TagAt(content, offset) == FMT
    ensures Locate(content, offset, fmt) == Locate(content, offset + 24, offset + 4)
  {
  }

  lemma LocateData(content: seq<byte>, offset: nat, fmt: nat)
    requires fmt + FMT_HEADER_BYTES <= |content|
    requires offset + 8 <= |content| && TagAt(content, offset) == DATA && FrameSizeAt(content, fmt) > 0
    ensures Locate(content, offset, fmt) == Found(fmt, offset + 8)
  {
  }
}
