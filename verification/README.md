# Verified model of the NFDecoder bookkeeping

NFDecoder wraps third-party audio codecs behind one `Decoder` interface.  What it
implements itself is the bookkeeping around them: caches of decoded PCM, growable
frame buffers, the trimming after a seek, chunk and box parsing, byte order, channel
conversion.  This project models that bookkeeping in Dafny and proves that callers
get the audio they asked for.

A codec is modelled as a fixed stream that it hands out in pieces of any size, with
pauses, notifications, holes and errors where the library can produce them.  Classes
of the library are Dafny classes with the same fields; their loops are loops.  Samples
are real numbers, and conversions to `long` truncate toward zero as in C++.

| file | models |
|---|---|
| `Session.dfy` | the reader every decoder is meant to be: a position over one stream, and the runs of seeks and decodes on it |
| `DashToHls.dfy` | the segment search and segment cache of the DASH transmuxing decoder |
| `FrameBuffer.dfy` | the compacting, growing frame buffer shared by Android and Windows |
| `ShortReads.dfy` | the loop shared by Android and Windows that stops at half of a request |
| `JavaDecoder.dfy`, `AndroidDecoder.dfy` | the packet cutter in Java and the decode loop over it |
| `WindowsLoop.dfy`, `WindowsDecoder.dfy` | the decode loop with its correction of the position after a seek: on counters, and on samples |
| `HttpProvider.dfy` | the byte cursor with 64-bit unsigned arithmetic |
| `WavFormat.dfy`, `WavDecoder.dfy` | the WAV chunk parser, and the WAV writer of the command line tool |
| `ByteOrder.dfy`, `AvCodec.dfy` | the endian swap, the `sidx` table, the moof search, the table of initialisation vectors |
| `AudioConverter.dfy` | the packet and frame split of a seek, the fill, drop and dump loop |
| `ChannelMixing.dfy` | the normaliser's down-mix and up-mix |
| `Base64.dfy` | the base64 encoder and decoder |
| `Midi.dfy` | the block loop that dispatches messages between renderings |
| `Vorbis.dfy` | chunked interleaving with holes |
| `Frames.dfy`, `Truncation.dfy` | interleaved frames and truncating conversions |

`dafny verify dfyconfig.toml` checks everything.

Results that say where the code does *not* do what one would expect:

- A DASH load keeps the cache aligned if and only if segment 0 is loaded at frame 0
  and every other segment at or past frame 1024 (`LoadAlignsExactly`).  Loading
  segment 0 at a frame inside it, after a seek into it or after a flush, hands out
  the wrong frames (`MidSegmentLoad`).
- The Android and Windows decode loops raise `framesRead` and lower `frames`
  together, so a call may return as little as half of what was asked for although
  more is available.  It returns everything if and only if enough arrives and no run
  of arrivals reaches half of the request without reaching all of it (`FullExactly`,
  `FullReads`; `OneOfTwo` is an input on which it does not).
- After a seek on Windows the decoder corrects its position by the first block that
  is read well and the read behind it.  If both are read well, everything handed out
  and what comes next is in its place if and only if the second block carries the time
  at which it stands, and the reader stood at the frame sought or no frame came before
  the first of them; without the two, if and only if the reader stood at the frame
  sought or no frame has come at all (`PlayFrom`, `RunKeeps`; `UnreleasedBlock` is an
  input on which a failing read breaks it).  A cut of more than is buffered still
  reaches the frame (`CutBeyondTheBuffer`) as long as no block is written in front of
  the array; `NeverTorn` says when none is.  Times rounded down to 100 ns lose a frame
  if and only if the frame does not lie on such a time (`TimestampExactly`).
- `flush` on Windows forgets the frames buffered without correcting the position,
  which stays right if and only if a correction is pending or nothing was waiting
  (`Flush`; `FlushLosesItsPlace` is a run that reports the wrong frames).  `flush` on
  the AudioConverter decoder keeps the position right only if nothing was buffered.
- The AudioConverter decoder hands out frames from before the target if and only if
  the first fill of the call that fails to parse does so before the target is reached
  and brings frames (`EarlyExactly`).  Before the end of the start junk every dump
  takes junk off again: a call for no more frames than are left of it hands out nothing
  and uses up the whole file (`JunkEatsAll`), and a longer one, with enough buffered,
  loses nothing but the junk if and only if it asks for twice as many (`JunkExactly`).
- A DASH read past the last search boundary gets the rest of the stream, and then the
  last segment over and over (`Decode`); it never ends, or erases past the end of the
  cache, if and only if that segment has no frames behind the position
  (`PastLoadGrows`).
- A down-mix keeps mean and range of a frame if and only if the output count divides
  the input count (`FaithfulExactly`); of several leftover channels all but the last
  are dropped (`LeftoverIsDropped`).
- `moofIndex` converts between `int` and unsigned 32-bit sums; it finds the first byte
  of every non-empty moof if and only if all of them start within an `int` and end
  within 32 bits (`SearchIsExact`).
- WAV: a bad RIFF or WAVE tag is reported, but the search for chunks goes on; a load
  divides by zero if and only if the first data chunk it reaches is met with frame
  size zero, set by the last format header before it or left in memory where there is
  none (`TrapsExactly`).

## Model

| member | source | states |
|---|---|---|
| `Session.RunIsOneSlice` | source/DecoderDashToHLSTransmuxerImplementation.cpp:156-286 | for the reader that the DASH, AudioConverter and Vorbis decoders refine: between two seeks, any cutting of a run into reads hands out one contiguous slice of the stream, nothing repeated, dropped or reordered |
| `Session.SeekForgets` | source/DecoderVorbisImplementation.cpp:128-135 | what a reader hands out after a seek does not depend on anything done before it |
| `DashTimeline.RequestedIs` | source/DecoderDashToHLSTransmuxerImplementation.cpp:126-131 | the frames asked for are the duration over the timescale at the sample rate, rounded down |
| `DashTimeline.TotalFramesIs` | source/DecoderDashToHLSTransmuxerImplementation.cpp:179-186 | in any common timescale: `frames()` is the whole duration at the sample rate, rounded down, less 1024 |
| `DashTimeline.BoundarySum` | source/DecoderDashToHLSTransmuxerImplementation.cpp:199-215 | a boundary is the frames requested for the segments up to it, less 1024 |
| `DashTimeline.BoundaryStep` | source/DecoderDashToHLSTransmuxerImplementation.cpp:128-131 | consecutive search boundaries differ by exactly the frame count that `exhaustDecoder` requests, although one truncates a running sum and the other each segment |
| `DashTimeline.BoundaryStepExact` | source/DecoderDashToHLSTransmuxerImplementation.cpp:199-210 | with a negative first boundary a step is exact if and only if the boundary does not stay below zero or the segment holds whole frames |
| `DashTimeline.ShortSegmentsDrift` | source/DecoderDashToHLSTransmuxerImplementation.cpp:207-210 | a two-segment timeline whose step and request differ by one frame |
| `DashTimeline.BoundariesAscend` | source/DecoderDashToHLSTransmuxerImplementation.cpp:199-215 | boundaries never decrease |
| `DashTimeline.BoundaryDrift` | source/DecoderDashToHLSTransmuxerImplementation.cpp:199-215 | boundary i is below its exact time by less than i + 1 frames |
| `DashTimeline.DriftBound` | source/DecoderDashToHLSTransmuxerImplementation.cpp:179-186 | the last boundary is at most `frames()` and short of it by fewer frames than there are segments |
| `DashTimeline.SearchIsUnique` | source/DecoderDashToHLSTransmuxerImplementation.cpp:199-221 | segment i is the one found if and only if its half-open range holds the frame; past the last boundary the last segment is taken |
| `DashTimeline.SearchFinds` | source/DecoderDashToHLSTransmuxerImplementation.cpp:199-221 | the range of the segment found holds the frame sought |
| `DashToHls.SegmentInStream` | source/DecoderDashToHLSTransmuxerImplementation.cpp:126-142 | where a suffix of a decoded segment lies in the junk-free concatenation of all segments |
| `DashToHls.LoadAlignsExactly` | source/DecoderDashToHLSTransmuxerImplementation.cpp:223-269 | one load, junk removal and clip keep the cache a window of the stream if and only if segment 0 is loaded at frame 0 and any other segment at or past frame 1024 |
| `DashToHls.MidSegmentLoad` | source/DecoderDashToHLSTransmuxerImplementation.cpp:247-263 | what the cache holds after loading segment 0 at a frame inside it: the stream from frame 0, or 1024 frames late |
| `DashToHls.LastSegmentAgain` | source/DecoderDashToHLSTransmuxerImplementation.cpp:199-263 | what a load at or past the last boundary puts into the cache: the last segment once more, from as many frames on as the position lies past the boundary |
| `DashToHls.PastLoadGrows` | source/DecoderDashToHLSTransmuxerImplementation.cpp:198-270 | such a load makes the cache longer if and only if the last segment has frames, behind the position where the cache is empty; otherwise the erase runs past the end, or the loop repeats itself |
| `DashToHls.FrontOfPast` | source/DecoderDashToHLSTransmuxerImplementation.cpp:198-279 | the front of what is cached past the last boundary does not depend on how often the last segment was loaded |
| `DashToHls.CarefulRunsAreAllowed` | source/DecoderDashToHLSTransmuxerImplementation.cpp:156-286 | a caller that never flushes, seeks only to the start or past segment 0 and reads inside the searched span never reaches a load that loses alignment |
| `DashToHls.DecoderDashToHLSTransmuxer.Frames` | source/DecoderDashToHLSTransmuxerImplementation.cpp:179-186 | the summing loop computes the whole duration in frames less the start junk, rounded down, whatever timescales the segments have |
| `DashToHls.DecoderDashToHLSTransmuxer.Flush` | source/DecoderDashToHLSTransmuxerImplementation.cpp:364-368 | empties the cache and keeps the position |
| `DashToHls.DecoderDashToHLSTransmuxer.Seek` | source/DecoderDashToHLSTransmuxerImplementation.cpp:156-177 | the position is clamped to the last frame; the cache is kept exactly when it holds the target, and stays a window of the stream |
| `DashToHls.DecoderDashToHLSTransmuxer.ExhaustDecoder` | source/DecoderDashToHLSTransmuxerImplementation.cpp:126-142 | asks for the duration of the segment in frames, rounded down, and appends that many: the whole decoded segment |
| `DashToHls.DecoderDashToHLSTransmuxer.FindSegment` | source/DecoderDashToHLSTransmuxerImplementation.cpp:199-221 | the search loop finds the segment whose requested frames, summed from the first less 1024, hold the frame, or the last, and the start the clip uses |
| `DashToHls.DecoderDashToHLSTransmuxer.LoadNext` | source/DecoderDashToHLSTransmuxerImplementation.cpp:198-270 | each round of search, load, junk removal and clip leaves the cache whose alignment is characterised above, wherever it starts |
| `DashToHls.DecoderDashToHLSTransmuxer.LoadUntil` | source/DecoderDashToHLSTransmuxerImplementation.cpp:195-270 | the loop ends with enough frames cached: a window of the stream, never loaded past the segment that holds the last frame asked for, or past the last boundary the rest of the stream and the last segment again and again |
| `DashToHls.DecoderDashToHLSTransmuxer.HandOut` | source/DecoderDashToHLSTransmuxerImplementation.cpp:272-279 | drains the front of the cache and advances by what it handed out |
| `DashToHls.DecoderDashToHLSTransmuxer.Decode` | source/DecoderDashToHLSTransmuxerImplementation.cpp:188-286 | as many frames as asked for or available; up to the last boundary exactly those of the flat stream at `_frame_index`, and past it the rest of the stream, or of the last segment, followed by the last segment over and over |
| `DashToHls.DecoderDashToHLSTransmuxer.Play` | source/DecoderDashToHLSTransmuxerImplementation.cpp:156-286 | every allowed run of seeks, decodes and flushes hands out what the flat reader hands out |
| `FrameBuffer.FloatBuffer.Put` | source/DecoderAndroidImplementation.cpp:218-257 | appends whole scaled frames to the queue, less those still owed to a cut; fails exactly when queue plus input exceeds the capacity and memory is refused, and then leaves the queue intact; grows by twice the input and only when needed |
| `FrameBuffer.FloatBuffer.Compact` | source/DecoderAndroidImplementation.cpp:224-230 | moving the queue to the front changes no element |
| `FrameBuffer.FloatBuffer.Grow` | source/DecoderWindowsImplementation.cpp:342-353 | a larger buffer holds the same queue |
| `FrameBuffer.FloatBuffer.Append` | source/DecoderAndroidImplementation.cpp:246-256 | the copy loop puts the scaled samples behind the queue |
| `FrameBuffer.FloatBuffer.Drain` | source/DecoderAndroidImplementation.cpp:271-285 | takes frames off the front of the queue |
| `FrameBuffer.FloatBuffer.Skip` | source/DecoderWindowsImplementation.cpp:466-469 | drops frames off the front of the queue; those not there yet are dropped from what comes next |
| `FrameBuffer.FloatBuffer.Clear` | source/DecoderAndroidImplementation.cpp:334-335 | empties the queue |
| `FrameBuffer.ScaledOf` | source/DecoderAndroidImplementation.cpp:251-252 | the two bytes of a 16-bit sample become that sample over 32767 |
| `FrameBuffer.SamplesJoin` | source/DecoderAndroidImplementation.cpp:246-252 | scaling chunk by chunk is scaling the concatenation |
| `JavaDecoder.CutReachesFrame` | source/com/spotify/NFDecoder/Decoder.java:85-93 | when the extractor reports the sync frame in whole microseconds the cut is exactly the distance from it to the frame sought, at any rate up to one megahertz |
| `JavaDecoder.CutJoins` | source/com/spotify/NFDecoder/Decoder.java:184-195 | cutting packet by packet, carrying the rest of the cut over, is cutting the stream once |
| `JavaDecoder.CutStream` | source/com/spotify/NFDecoder/Decoder.java:184-195 | a codec that resumes at an earlier sync frame delivers the stream from the frame sought |
| `JavaDecoder.ProducedWhole` | source/com/spotify/NFDecoder/Decoder.java:184-204 | what is left of whole packets after the cut is whole frames |
| `JavaDecoder.Decoder.Seek` | source/com/spotify/NFDecoder/Decoder.java:85-102 | sets the cut, restarts the codec and reports the last error |
| `JavaDecoder.Decoder.GetLastError` | source/com/spotify/NFDecoder/Decoder.java:212-216 | hands the error over once |
| `JavaDecoder.NextHasBytes` | source/com/spotify/NFDecoder/Decoder.java:196-204 | a call that reports a byte count hands out at least one byte: buffers that are cut off whole are passed over |
| `JavaDecoder.CleanNext` | source/com/spotify/NFDecoder/Decoder.java:104-210 | a codec that does not fail never yields an error, and a call reports the end exactly when it has used up the last buffer |
| `JavaDecoder.ProducedIsStream` | source/com/spotify/NFDecoder/Decoder.java:85-93 | seek and cut composed: whatever sync frame the extractor resumes at, the cut codec PCM is the stream from the frame sought, up to where the codec has got to |
| `JavaDecoder.Decoder.DecodeOnePacket` | source/com/spotify/NFDecoder/Decoder.java:109-210 | each call takes the turns up to the first that decides it and reports exactly that outcome: 0 if and only if the turn failed or the codec does nothing more, negative at the end, `INT_MIN` if nothing was read there, the byte count otherwise; over all calls the output is the codec PCM without its first `bytesToCutAfterSeek` bytes |
| `JavaDecoder.Decoder.TakeTurn` | source/com/spotify/NFDecoder/Decoder.java:153-210 | one output buffer: error, notification, or cut PCM, and whether the call recurses |
| `JavaDecoder.Decoder.CutPcm` | source/com/spotify/NFDecoder/Decoder.java:184-195 | the three branches of the cut and what they leave to be cut |
| `ShortReads.ReadHalf` | source/DecoderAndroidImplementation.cpp:271-285 | the loop that raises `framesRead` and lowers `frames` together stops at half of the request, and before that only when everything there is has been read |
| `ShortReads.FullExactly` | source/DecoderAndroidImplementation.cpp:271-285 | a call reads all it was asked for if and only if that much arrives and no run of arrivals reaches half of the request without reaching all of it |
| `ShortReads.HeardIsOneSlice` | source/DecoderAndroidImplementation.cpp:259-326 | between two seeks the short reads of a run concatenate to one slice of the stream |
| `AndroidDecoder.Setting.RunReads` | source/DecoderAndroidImplementation.cpp:271-320 | a call reads exactly what the shared loop reads of the buffer and the packets that follow, and ends for want of them exactly when it has read less than half |
| `AndroidDecoder.Setting.FullReads` | source/DecoderAndroidImplementation.cpp:271-320 | the condition under which a call returns all that was asked for, on the buffer and the packets of the codec |
| `AndroidDecoder.Setting.EndingMeans` | source/DecoderAndroidImplementation.cpp:287-320 | a call ends early only at the end of the stream, at a failing turn, whose message or lack of one it reports, at an exhausted codec, or where memory for the buffer is refused, and then knows whether that packet was the last |
| `AndroidDecoder.OneOfTwo` | source/DecoderAndroidImplementation.cpp:259-326 | a decoder with one frame buffered and one in the next packet answers a request for two with one |
| `AndroidDecoder.DecoderAndroid.Seek` | source/DecoderAndroidImplementation.cpp:328-338 | a seek to another frame empties buffer and history and restarts the codec there; a seek in place changes nothing, one that the Java side reports as failed leaves position and buffer |
| `AndroidDecoder.DecoderAndroid.Flush` | source/DecoderAndroidImplementation.cpp:340-348 | restarts the codec at the current frame with an empty buffer |
| `AndroidDecoder.PacketFrames` | source/DecoderAndroidImplementation.cpp:246-256 | a packet of whole frames goes into the buffer whole |
| `AndroidDecoder.DecoderAndroid.NextPacket` | source/DecoderAndroidImplementation.cpp:287-300 | a packet extends the produced stream by its samples |
| `AndroidDecoder.DecoderAndroid.Refill` | source/DecoderAndroidImplementation.cpp:287-320 | end, error and refused memory are told apart; after a packet the frames delivered and buffered are the produced stream, unless memory was refused, and only then not |
| `AndroidDecoder.DecoderAndroid.Offer` | source/DecoderAndroidImplementation.cpp:271-285 | moves frames from the buffer to the caller and the position with them |
| `AndroidDecoder.DecoderAndroid.Decode` | source/DecoderAndroidImplementation.cpp:259-326 | the frames handed out, the position, the turn of the codec and the error are those of the loop on counters; what was delivered and is buffered stays the cut codec PCM if and only if no memory was refused and no read frames were withheld for an error with a message |
| `AndroidDecoder.DecoderAndroid.TrackedSlice` | source/DecoderAndroidImplementation.cpp:259-338 | what has been handed out since a seek to a frame is the scaled stream from that frame up to the position, and all of it once the end is reached and the buffer is empty |
| `AndroidDecoder.DecoderAndroid.DecodeOn` | source/DecoderAndroidImplementation.cpp:259-326 | a decode without an error hands out the next slice of the stream, at least half of what was asked for unless the stream ends |
| `AndroidDecoder.DecoderAndroid.Play` | source/DecoderAndroidImplementation.cpp:259-348 | every run of seeks, decodes and flushes without an error reports slices of the stream at the position, wherever the extractor resumes and however the codec cuts its packets |
| `AndroidDecoder.Load` | source/DecoderAndroidImplementation.cpp:208-214 | a decoder just loaded plays the stream from its first frame, which is where runs start |
| `AndroidDecoder.PlayOneFrame` | source/DecoderAndroidImplementation.cpp:259-326 | one frame of 16-bit PCM taken through codec, buffer and callback |
| `WindowsLoop.TimestampExactly` | source/DecoderWindowsImplementation.cpp:401-403 | where the reader rounds its times down to 100 ns, their conversion back finds the frame if and only if the frame lies on such a time, and otherwise the frame before |
| `WindowsLoop.Setting.RunReads` | source/DecoderWindowsImplementation.cpp:415-471 | a call reads exactly what the shared loop reads of silence, buffer and blocks |
| `WindowsLoop.Setting.FullReads` | source/DecoderWindowsImplementation.cpp:415-471 | the condition under which a call returns all that was asked for |
| `WindowsLoop.Setting.EndingMeans` | source/DecoderWindowsImplementation.cpp:444-461 | a call ends early only at the end of the stream, which it then knows, at a read that is no block or cannot be released, at the end of the reads, or at a block that would be written in front of the array |
| `WindowsLoop.Setting.RunKeeps` | source/DecoderWindowsImplementation.cpp:415-471 | for a call on counters: the frames it hands out are those of their positions and the next one will be, if and only if that was so of the next one before it and, where a correction is pending, the reads keep it so: with the first block read well and the read behind it both good, the second carries the time at which it stands, and the reader stood at the position or no frame came before; without these two, the reader stood at the position or no frame came |
| `WindowsLoop.Setting.KeepsJoin` | source/DecoderWindowsImplementation.cpp:415-471 | the reads of two calls keep a decoder in place if and only if those of each do |
| `WindowsLoop.Setting.NeverTorn` | source/DecoderWindowsImplementation.cpp:450-470 | as long as what is still to be read fits behind what is written, no cut of any size makes a block go in front of the array |
| `WindowsDecoder.RightSounds` | source/DecoderWindowsImplementation.cpp:407-476 | pieces in their places sound like the stream at their positions, with silence before the reader's start |
| `WindowsDecoder.OneOfTwo` | source/DecoderWindowsImplementation.cpp:407-476 | a decoder with one frame buffered and more in the next block answers a request for two with one |
| `WindowsDecoder.DecoderWindows.Seek` | source/DecoderWindowsImplementation.cpp:478-495 | an accepted seek to another frame empties the buffer, asks for a correction and has nothing out of place; any other changes nothing |
| `WindowsDecoder.DecoderWindows.Flush` | source/DecoderWindowsImplementation.cpp:497-502 | what comes next moves ahead of the position by exactly the frames and silence dropped; a decoder in place stays so if and only if a correction is still to come or neither frames nor silence were waiting |
| `WindowsDecoder.FlushLosesItsPlace` | source/DecoderWindowsImplementation.cpp:497-502 | a run in which the call after a flush reports frames 2 and 3 and hands out frames 4 and 5 |
| `WindowsDecoder.DecoderWindows.WinDecode` | source/DecoderWindowsImplementation.cpp:369-405 | the next read: its block goes into the queue, also one that then cannot be released; the block time in frames, or -1 |
| `WindowsDecoder.DecoderWindows.PutBlock` | source/DecoderWindowsImplementation.cpp:333-366 | the counters after a block, with a count below zero too; the buffer goes on holding the last frames read |
| `WindowsDecoder.DecoderWindows.Correct` | source/DecoderWindowsImplementation.cpp:463-469 | cuts frames, of blocks still to come if need be, or schedules silence; what is left is the stream from as many frames further on |
| `WindowsDecoder.DecoderWindows.Refill` | source/DecoderWindowsImplementation.cpp:444-470 | one or two reads and the correction have the outcome on counters of the loop, and keep the buffer the last frames read |
| `WindowsDecoder.DecoderWindows.OfferSilence` | source/DecoderWindowsImplementation.cpp:417-427 | silence is written at the start of the output, right where nothing has been read before it |
| `WindowsDecoder.DecoderWindows.OfferBuffered` | source/DecoderWindowsImplementation.cpp:429-442 | buffered frames go behind the frames already read |
| `WindowsDecoder.DecoderWindows.Round` | source/DecoderWindowsImplementation.cpp:415-471 | one round takes the loop on counters one step on, and the output is what the pieces so far sound like |
| `WindowsDecoder.DecoderWindows.Decode` | source/DecoderWindowsImplementation.cpp:407-476 | the frames handed out, the position and the pieces are those of the loop on counters; everything handed out since the seek is in its place and the next frame will be, if and only if both were so before and, with a correction pending, the reads of the call keep it so; then, if nothing was flushed, the samples are the stream at the position, after silence before the reader's start |
| `WindowsDecoder.DecoderWindows.Play` | source/DecoderWindowsImplementation.cpp:407-476 | any calls after a seek, however blocks are cut and whatever fails: everything is in its place if and only if the reads keep it so, and then the calls report the stream |
| `WindowsDecoder.DecoderWindows.PlayFrom` | source/DecoderWindowsImplementation.cpp:407-495 | the same from the seek on, for a reader that lands anywhere |
| `WindowsDecoder.UnreleasedBlock` | source/DecoderWindowsImplementation.cpp:393-400 | a first block that cannot be unlocked is handed out at the frame sought, which is right if and only if the reader stood there |
| `WindowsDecoder.CutBeyondTheBuffer` | source/DecoderWindowsImplementation.cpp:463-469 | a run whose cut exceeds what is buffered and whose first frame is the frame sought |
| `HttpProvider.SeekTarget` | source/DataProviderHTTPImplementation.cpp:91-111 | 64-bit unsigned arithmetic finds the signed target, or a value past any length |
| `HttpProvider.ReadsAreConsecutive` | source/DataProviderHTTPImplementation.cpp:71-89 | reads of any sizes in a row return one slice |
| `HttpProvider.DataProviderHTTP.Read` | source/DataProviderHTTPImplementation.cpp:71-89 | returns the bytes at the cursor and moves it past them; all that is asked for or left if the server answers in full |
| `HttpProvider.DataProviderHTTP.Seek` | source/DataProviderHTTPImplementation.cpp:91-111 | succeeds exactly when the target lies in [0, length], from all three origins, and otherwise moves nothing; an unknown origin goes to 0 |
| `HttpProvider.DataProviderHTTP.Eof` | source/DataProviderHTTPImplementation.cpp:122-125 | true exactly when `tell` is `size` |
| `WavFormat.HeaderRoundTrip` | source/DecoderWavImplementation.h:80-88 | parsing a printed format header gives back every field |
| `WavFormat.LocateSkips` | source/DecoderWavImplementation.cpp:224-246 | any number of skippable chunks is stepped over |
| `WavFormat.LocatePrinted` | source/DecoderWavImplementation.cpp:75-89 | in a file of header, chunks, format, chunks and data, the search finds the format header and the payload where they were written |
| `WavDecoder.LocateStep` | source/DecoderWavImplementation.cpp:203-247 | one chunk of the file, as the search sees it |
| `WavDecoder.File.ChunkInFile` | source/DecoderWavImplementation.cpp:203-247 | one chunk whose header lies in the file: the fields it sets, the skip over its body, and the division by zero exactly for a data chunk while the frame size is zero |
| `WavDecoder.File.ScanFinds` | source/DecoderWavImplementation.cpp:75-89 | where the search succeeds the load sets the fields of the last format header before the data chunk, whatever memory held before |
| `WavDecoder.File.NoTrapBehindData` | source/DecoderWavImplementation.cpp:233-237 | once a data chunk has been taken the load never divides by zero |
| `WavDecoder.File.DataBeforeFormat` | source/DecoderWavImplementation.cpp:233-237 | behind any number of other chunks, a data chunk before any format chunk divides by zero if and only if the frame size left in memory is zero |
| `WavDecoder.File.TrapsExactly` | source/DecoderWavImplementation.cpp:203-247 | a load divides by zero if and only if the search reaches a data chunk and meets the first one with frame size zero: that of the last format header before it, or what memory held where there is none |
| `WavDecoder.Decoder.ReadChunk` | source/DecoderWavImplementation.cpp:203-247 | a chunk taken moves the cursor on, whatever the server sends and even if the skip is refused; on a file that arrives in full, outcome, cursor and every field are determined, also where the file ends inside the chunk |
| `WavDecoder.Decoder.ReadFormat` | source/DecoderWavImplementation.cpp:212-222 | sets the format fields from the packed header, as much of it as there is |
| `WavDecoder.Decoder.ReadOther` | source/DecoderWavImplementation.cpp:223-245 | sets the data fields from a data chunk and steps over every body |
| `WavDecoder.Decoder.Load` | source/DecoderWavImplementation.cpp:58-94 | ends on every byte string; on every file that arrives in full, the events in order and the fields are exactly those of the scan, and it divides by zero if and only if the first data chunk reached is met with frame size zero; where both chunks are found, the fields they hold, and the cursor at the payload |
| `WavDecoder.Decoder.Seek` | source/DecoderWavImplementation.cpp:109-112 | the cursor goes to the frame's byte offset if that is in the file |
| `WavDecoder.Decoder.Decode` | source/DecoderWavImplementation.cpp:118-187 | reads at the cursor, converts the whole frames that arrived, sample by sample, and reports the frame index of the last seek |
| `WavDecoder.Decoder.TransferSamples` | source/DecoderWavImplementation.h:127-140 | the loop converts every sample of the stretch in order |
| `WavDecoder.PcmSampleOf` | source/DecoderWavImplementation.h:131-138 | the bytes of a 1, 2 or 4 byte sample become that sample, around 127 if unsigned, over the greatest one of its width |
| `WavDecoder.ToSamplesPush` | source/DecoderWavImplementation.h:134-138 | converting up to one more sample appends that sample |
| `WavDecoder.ToSamplesConverts` | source/DecoderWavImplementation.cpp:145-180 | the i-th sample is made of the i-th stretch of bytes: as they are for floats, their value otherwise |
| `WavWriter.WriteFile` | source/cli/NFDecoderCLI.cpp:161-195 | the tool's 44-byte header, field by field at its place, and the samples; the whole is an instance of the printed form |
| `WavWriter.LoadPrinted` | source/DecoderWavImplementation.cpp:58-94 | loading a printed file yields the written channels, rate and depth, the payload offset and payload size over frame size |
| `WavWriter.ReadFrames` | source/DecoderWavImplementation.cpp:109-187 | seeking to k and decoding n returns exactly the written frames k to k + n: as many samples, each made of its own bytes of the payload |
| `WavWriter.WriteAndRead` | source/cli/NFDecoderCLI.cpp:161-195 | a file the tool has written, loaded into any memory and read anywhere: every sample has the four bytes that were written for it |
| `WavWriter.PrintedFrames` | source/DecoderWavImplementation.cpp:109-112 | the bytes a read gets there are those of the written frames |
| `EndianSwap.XorSwap` | source/DecoderAVCodecImplementation.cpp:36-42 | exchanges two bytes, and keeps a byte exchanged with itself |
| `EndianSwap.SwapEndians` | source/DecoderAVCodecImplementation.cpp:44-48 | reverses a stretch of any length in place and nothing else |
| `EndianSwap.SwappedTwice` | source/DecoderAVCodecImplementation.cpp:44-48 | the swap is an involution |
| `EndianSwap.LoadSwapped` | source/DecoderAVCodecImplementation.cpp:604-605 | copying an integer out and swapping it reads a big-endian field |
| `ByteOrder.LittleEndian` | source/DecoderWavImplementation.h:80-88 | what an integer of one, two or four bytes in memory is worth |
| `ByteOrder.BigEndian` | source/DecoderAVCodecImplementation.cpp:533-534 | what a big-endian field of two or four bytes is worth |
| `ByteOrder.LoadReversed` | source/DecoderAVCodecImplementation.cpp:44-48 | a little-endian load of the reversed bytes is the big-endian value, at any width |
| `ByteOrder.StoreLoad` | source/DecoderWavImplementation.h:80-88 | storing a loaded integer restores its bytes |
| `ByteOrder.LoadStore` | source/DecoderWavImplementation.h:80-88 | loading a stored integer restores it, up to the width of the field |
| `AvCodec.ReversedRecord` | source/DecoderAVCodecImplementation.h:74-80 | reversing a whole 12-byte record and loading the struct yields all three big-endian fields, in the reversed order of the struct |
| `AvCodec.RecordFields` | source/DecoderAVCodecImplementation.h:74-80 | in the file a record is the size, the duration and a word the library ignores, four bytes each, the highest first |
| `AvCodec.SencBytes` | source/DecoderAVCodecImplementation.cpp:588-598 | a box is found by the characters of its tag, and its count stands eight bytes on, the highest byte first |
| `AvCodec.DecoderAVCodec.ReadRecord` | source/DecoderAVCodecImplementation.cpp:541-544 | the size is made of the first four bytes of the record, the duration of the next four, the rest of the last four; the following bytes are untouched |
| `AvCodec.DecoderAVCodec.ParseSidx` | source/DecoderAVCodecImplementation.cpp:526-546 | the count is that of bytes 26 and 27; every record from byte 28 on is added, in order, with size, duration and word from its own bytes |
| `AvCodec.SearchAgrees` | source/DecoderAVCodecImplementation.cpp:486-498 | the loop of `moofIndex` agrees with the prefix-sum lookup |
| `AvCodec.LookupIsUnique` | source/DecoderAVCodecImplementation.cpp:486-498 | an offset lies in range i if and only if the lookup returns i, also among empty entries |
| `AvCodec.SearchIsExact` | source/DecoderAVCodecImplementation.cpp:486-498 | with the conversions between `int` and 32-bit unsigned, the search equals the lookup for every offset if and only if every non-empty moof starts within an `int` and ends within 32 bits |
| `AvCodec.MisfitIsMissed` | source/DecoderAVCodecImplementation.cpp:486-498 | the first byte of the first moof that does not fit lies in that moof and is not found there |
| `AvCodec.DecoderAVCodec.MoofIndex` | source/DecoderAVCodecImplementation.cpp:486-498 | the loop returns what the search function returns, hence the lookup where all moofs fit |
| `AvCodec.PutIs` | source/DecoderAVCodecImplementation.cpp:601-607 | a `senc` box adds exactly the keys base + k and changes no other entry |
| `AvCodec.KeysApart` | source/DecoderAVCodecImplementation.cpp:591 | entries of different moofs have different keys |
| `AvCodec.TableKeys` | source/DecoderAVCodecImplementation.cpp:591-607 | after any run of boxes the table has their entries and no others |
| `AvCodec.TableKeeps` | source/DecoderAVCodecImplementation.cpp:591-607 | no box overwrites an entry of another |
| `AvCodec.ReversalsCancel` | source/DecoderAVCodecImplementation.cpp:330-338 | the reversal on reading and the one on use restore the bytes of the file |
| `AvCodec.VectorRoundTrip` | source/DecoderAVCodecImplementation.cpp:322-340 | after any run of boxes, a packet that starts in entry k of a moof is decrypted with the k-th eight bytes of its box followed by eight zeros |
| `AvCodec.VectorAbsent` | source/DecoderAVCodecImplementation.cpp:325-326 | a packet is left alone if and only if no box read so far covers its entry |
| `AvCodec.SingleBox` | source/DecoderAVCodecImplementation.cpp:585-610 | a moof with one `senc` tag adds that box and nothing else |
| `AvCodec.ScansAreTable` | source/DecoderAVCodecImplementation.cpp:585-610 | a run of searches through memory leaves the table of the boxes it meets, in order, however many tags a moof has |
| `AvCodec.FileVector` | source/DecoderAVCodecImplementation.cpp:322-340 | from file bytes to decrypter: after any run of searches, a packet that starts in entry k of a moof gets the eight bytes that stand 12 + 8k behind the characters `senc`, as they are, and eight zeros |
| `AvCodec.DecoderAVCodec.ScanMoofs` | source/DecoderAVCodecImplementation.cpp:560-614 | the loop of searches over moofs computes that table |
| `AvCodec.DecoderAVCodec.ParseSenc` | source/DecoderAVCodecImplementation.cpp:588-607 | the big-endian count and vectors of a box go into the table from the moof's first entry on |
| `AvCodec.DecoderAVCodec.ScanMoof` | source/DecoderAVCodecImplementation.cpp:585-610 | every box whose tag starts before the last four bytes of the moof is parsed, in order |
| `Truncation.TruncDivIs` | source/DecoderWavImplementation.cpp:231 | an integer quotient is rounded toward zero |
| `AvCodec.DecoderAVCodec.VectorOf` | source/DecoderAVCodecImplementation.cpp:323-338 | the lookup and the reversing loop build the vector the table stands for |
| `AudioConverter.Call.RunMeans` | source/DecoderAudioConverterImplementation.cpp:309-334 | past the start junk a call loses no frame, and without a failing fill among those it used it ends only with the request met or the file used up and the buffer empty |
| `AudioConverter.Call.RunExactly` | source/DecoderAudioConverterImplementation.cpp:309-334 | everything a call past the start junk computes, for every script: where the first fill that fails comes with frames and before the target is reached, its frames and no more, with the rest still to be dropped; otherwise the frames behind the target |
| `AudioConverter.Call.EarlyExactly` | source/DecoderAudioConverterImplementation.cpp:313-334 | a call that asks for frames hands out ones from before the target if and only if the first fill that fails does so before the target is reached and brings frames; it hands out as many of these as fit the request, from as far before the position as frames are left to drop |
| `AudioConverter.Call.JunkExactly` | source/DecoderAudioConverterImplementation.cpp:286-297 | a call from before the end of the start junk, with more buffered than it asks for and than is left of the junk, loses the junk and no more if and only if it asks for at least twice what is left of the junk |
| `AudioConverter.Call.JunkEatsAll` | source/DecoderAudioConverterImplementation.cpp:286-333 | a call for no more frames than are left of the start junk hands out nothing and uses up the file, or all of it up to a fill that fails |
| `AudioConverter.DecoderAudioConverter.Seek` | source/DecoderAudioConverterImplementation.cpp:221-254 | the position becomes the target, split into the start of its packet and fewer frames to drop than a packet holds; a refused seek changes nothing |
| `AudioConverter.DecoderAudioConverter.Flush` | source/DecoderAudioConverterImplementation.cpp:354-358 | keeps the position aligned exactly when nothing was buffered |
| `AudioConverter.DecoderAudioConverter.FillData` | source/DecoderAudioConverterImplementation.cpp:271-285 | the buffer grows by the frames of the next answer; fails exactly at the end of the file or where that answer does not parse |
| `AudioConverter.DecoderAudioConverter.HandOut` | source/DecoderAudioConverterImplementation.cpp:301-307 | the front of the buffer goes behind the frames read, and the output stays a slice of the stream |
| `AudioConverter.DecoderAudioConverter.DumpData` | source/DecoderAudioConverterImplementation.cpp:286-308 | hands out the front of the buffer, after the start junk is erased |
| `AudioConverter.DecoderAudioConverter.DropOffset` | source/DecoderAudioConverterImplementation.cpp:310-317 | erases what is buffered of the frames before the target |
| `AudioConverter.DecoderAudioConverter.Round` | source/DecoderAudioConverterImplementation.cpp:309-332 | each round shrinks the unread bytes, the frames to drop or the buffer, in this order of weight, and keeps the output a slice of the stream |
| `AudioConverter.DecoderAudioConverter.Decode` | source/DecoderAudioConverterImplementation.cpp:264-344 | at or past the start junk, hands out consecutive frames that begin as many frames before the position as are still to be dropped, which is any if and only if the first fill that fails brings frames before the target is reached; if no fill so far has failed, exactly the slice at `_frame_index`, in full unless the file ends |
| `AudioConverter.DecoderAudioConverter.Play` | source/DecoderAudioConverterImplementation.cpp:221-344 | every run of seeks and decodes of a file that parses hands out what the flat reader hands out, for any fill sizes and packets |
| `ChannelMixing.ColumnIsStrided` | source/DecoderNormalisationImplementation.cpp:151-157 | the modular inner loop sums exactly the inputs congruent to the output channel |
| `ChannelMixing.AddColumns` | source/DecoderNormalisationImplementation.cpp:142-157 | first pass of the down-mix, over all frames |
| `ChannelMixing.AddLeftover` | source/DecoderNormalisationImplementation.cpp:158-166 | adds the last input of each frame to every output channel |
| `ChannelMixing.Divide` | source/DecoderNormalisationImplementation.cpp:167-173 | divides every sample by the integer quotient of the channel counts |
| `ChannelMixing.DownMix` | source/DecoderNormalisationImplementation.cpp:148-173 | every output sample is the strided sum plus the leftover channel over the quotient |
| `ChannelMixing.RaiseChannel` | source/DecoderNormalisationImplementation.cpp:177-189 | one output channel of the up-mix, over all frames |
| `ChannelMixing.UpMix` | source/DecoderNormalisationImplementation.cpp:174-190 | copies the inputs and fills the other channels with their mean |
| `ChannelMixing.Convert` | source/DecoderNormalisationImplementation.cpp:139-193 | the three cases yield the converted frames |
| `ChannelMixing.MixedAt` | source/DecoderNormalisationImplementation.cpp:151-173 | channel c of frame i lies at i * channels + c and depends on that frame only |
| `ChannelMixing.EqualIsCopy` | source/DecoderNormalisationImplementation.cpp:191-193 | equal channel counts change nothing |
| `ChannelMixing.StridesPartition` | source/DecoderNormalisationImplementation.cpp:151-157 | dealing the inputs out to the channels loses none and counts none twice |
| `ChannelMixing.DownConserves` | source/DecoderNormalisationImplementation.cpp:148-173 | the output channels together carry the inputs of the whole rounds, plus the leftover in each |
| `ChannelMixing.MeanKept` | source/DecoderNormalisationImplementation.cpp:148-190 | an up-mix, and a down-mix to a divisor, keep the mean of every frame |
| `ChannelMixing.DownBound` | source/DecoderNormalisationImplementation.cpp:158-173 | inputs within [-1, 1] stay within it for a divisor, and within (q + 1) / q with a leftover channel |
| `ChannelMixing.FaithfulExactly` | source/DecoderNormalisationImplementation.cpp:147-193 | mean and range of every frame are kept if and only if the conversion does not reduce to a non-divisor |
| `ChannelMixing.OnesClip` | source/DecoderNormalisationImplementation.cpp:158-173 | full-scale inputs exceed 1 when a channel is left over |
| `ChannelMixing.LeftoverIsDropped` | source/DecoderNormalisationImplementation.cpp:150-166 | of several leftover channels only the last reaches any output |
| `Base64.GroupBits` | source/base64.cpp:50-53 | the four digits are the 24 bits of three bytes (section 4 of RFC 4648) |
| `Base64.LetterIs` | source/base64.cpp:31-34 | the characters are those of the string in the source, at their places |
| `Base64.EncodedSpells` | source/base64.cpp:40-74 | character k of an encoding is the one at the place given by the k-th six bits of the input, zero bits filling the last, and `=` behind them up to a multiple of four |
| `Base64.UnpackedSameBits` | source/base64.cpp:87-108 | the decoded bytes have the bits of the digits, one after the other, as many whole bytes as there are |
| `Base64.RoundTrip` | source/base64.cpp:40-112 | decoding an encoding gives back every byte string |
| `Base64.EncodedLength` | source/base64.cpp:40-74 | the length is 4 * ceil(n / 3) |
| `Base64.EncodedPadding` | source/base64.cpp:60-71 | the padding is exactly what the last group lacks, behind base64 characters only |
| `Base64.EncodedIsCanonical` | source/base64.cpp:40-74 | encodings are full groups, then padding behind clear filler bits |
| `Base64.DecodeEncode` | source/base64.cpp:40-112 | encoding restores a decoded text if and only if the text has that form |
| `Base64.Encode` | source/base64.cpp:40-74 | the loop over three-byte groups spells the bits of the input, six by six, in the characters of the string, and pads with `=` |
| `Base64.EncodeTail` | source/base64.cpp:60-71 | the padded last group |
| `Base64.Decode` | source/base64.cpp:76-112 | reads the leading characters that are in the string, no more and no fewer, and yields the bits of their places as whole bytes |
| `Base64.DecodeTail` | source/base64.cpp:99-109 | a tail of 1, 2 or 3 characters yields 0, 1 or 2 bytes that depend on those characters only, whatever fills the other lanes |
| `Midi.PlanBlocks` | source/DecoderMidiImplementation.cpp:172-176 | a request is cut into ceil(n / 64) adjacent blocks of 64 frames, the last of at most 64 |
| `Midi.PlanChains` | source/DecoderMidiImplementation.cpp:181-182 | each block goes on with the message at which the one before stopped |
| `Midi.PlanReaches` | source/DecoderMidiImplementation.cpp:181-182 | each block plays up to the first message due after its end |
| `Midi.MessageInBlock` | source/DecoderMidiImplementation.cpp:172-213 | in a sorted list a message is dispatched before block b if and only if b is the first block whose end reaches it: never late, less than a block early unless already overdue |
| `Midi.AllDuePlayed` | source/DecoderMidiImplementation.cpp:181-182 | a call plays exactly the messages due by its end if and only if no such message lies behind a later one |
| `Midi.NotesInOrder` | source/DecoderMidiImplementation.cpp:172-213 | between the renderings each message due by the end is dispatched once, in order, and no other |
| `Midi.DueInFrames` | source/DecoderMidiImplementation.cpp:164-181 | a message of t ms is due by a frame of the stream if and only if t times the sample rate is at most 1000 times the frame |
| `Midi.DispatchFollows` | source/DecoderMidiImplementation.cpp:183-208 | after the first messages a key sounds, at velocity / 127, if and only if the last of them that starts or stops it starts it; every controller, preset (drums on channel 9 only) and pitch wheel has the value of the last message for it |
| `Midi.BlocksRendered` | source/DecoderMidiImplementation.cpp:172-212 | the renderings are of 64 frames each, the last of what is left, every one at its place in the output |
| `Midi.DecoderMidi.Play` | source/DecoderMidiImplementation.cpp:181-209 | the dispatch loop makes the calls of the messages due |
| `Midi.DecoderMidi.PlayBlock` | source/DecoderMidiImplementation.cpp:176-212 | one round: the messages due by the block's end, then its rendering at the block's place in the output |
| `Midi.DecoderMidi.PlayBlocks` | source/DecoderMidiImplementation.cpp:166-213 | the loop makes the calls of the whole plan and leaves no frame over |
| `Midi.DecoderMidi.Decode` | source/DecoderMidiImplementation.cpp:141-221 | the callbacks and the calls: they leave the synthesizer in the state that the messages due by the end of the call ask for, each message is told, and the whole output is rendered block by block; an empty list calls back once with no frames and decodes all the same |
| `Vorbis.InterleavedAt` | source/DecoderVorbisImplementation.cpp:171-175 | sample j of frame i lies at i * channels + j |
| `Vorbis.InterleavedCut` | source/DecoderVorbisImplementation.cpp:171-175 | interleaving a cut of the planes is cutting the interleaved stream |
| `Vorbis.CopyChunk` | source/DecoderVorbisImplementation.cpp:171-175 | the nested copy puts the interleaved chunk behind the frames read so far |
| `Vorbis.Call.RunReads` | source/DecoderVorbisImplementation.cpp:156-177 | a decode reads what was asked for or all there is, however the codec cuts it and wherever the holes are, unless a read fails, and then that is the last one |
| `Vorbis.DecoderVorbis.AppendChunk` | source/DecoderVorbisImplementation.cpp:171-176 | the output stays a slice of the interleaved stream |
| `Vorbis.DecoderVorbis.Round` | source/DecoderVorbisImplementation.cpp:156-177 | a hole is skipped, an error or the end stops, a chunk is appended |
| `Vorbis.DecoderVorbis.Seek` | source/DecoderVorbisImplementation.cpp:128-135 | an accepted seek moves, a refused one leaves the position |
| `Vorbis.DecoderVorbis.Decode` | source/DecoderVorbisImplementation.cpp:141-189 | wherever the codec stood, hands out a slice of the stream at `_frame_index` and advances by it; the whole of what was asked for or is left, unless the last read of the call failed |
| `Vorbis.DecoderVorbis.Play` | source/DecoderVorbisImplementation.cpp:128-189 | every run whose reads do not fail hands out what the flat reader hands out of the run without the refused seeks |

## Left out

- Foreign code: FFmpeg, AudioToolbox, MediaCodec and its JNI bridge, Media Foundation, libvorbis, the TinySoundFont and TinyMidiLoader libraries, libresample and DashToHls appear only as streams, scripts of outcomes, or arbitrary choices.  That the AudioConverter yields its last frame once the last byte is parsed, and that MediaCodec and Media Foundation hand out whole frames, are assumptions about them.
- Threads, mutexes, futures and the timing of callbacks: the synchronous path is modelled.  Callbacks are results.
- Floating point: samples, times and durations are real numbers; only the conversion to integers truncates.
- Integer widths, except in `HttpProvider` (64-bit seeks), the `moofIndex` search (32-bit) and the base64 and endian arithmetic (8-bit): frame counts and positions do not overflow.
- Allocation failure of output buffers, except where the Android and Windows loops branch on it, and of `realloc` in the frame buffer.
- DashToHls.DecoderDashToHLSTransmuxer.Decode: does not cover loads that fail, requests the inner decoder answers short, or calls that load where the alignment result excludes it; the code keeps no alignment there, and `LoadAlignsExactly` and `MidSegmentLoad` say what single loads leave in the cache.  The first segment is at least 1024 frames longer than the start junk, because junk is removed at every load before frame 1024.
- DashToHls.DecoderDashToHLSTransmuxer.Play: runs stay within the last boundary, since a call past it leaves no window of the stream, and only a flush is modelled behind it.  The flush of the inner decoder and of its memory provider is not modelled; segments decode to the same PCM whenever they are loaded.
- AndroidDecoder.DecoderAndroid.Decode: a missing Java environment or byte buffer is not modelled; a failing codec is.
- JavaDecoder.Decoder.TakeTurn: the many failures of MediaCodec calls are one failure outcome, with or without a message.
- WindowsDecoder.DecoderWindows.Decode: promises nothing once a block would be written in front of the array (`torn`), where the original overwrites memory, and not the place of frames once memory for the frame buffer is refused, where the original drops a block and goes on.  Behind a flush that lost frames, a decoder in place is one in which every frame since the seek has its place and the next one will; the samples are then stated piece by piece.
- WindowsDecoder.DecoderWindows.Flush: flushing the source reader is taken to leave it where it stood.
- WindowsDecoder.DecoderWindows.Seek: where the reader lands is a parameter; the conversion of the target to 100 ns units, which only decides that, is left out.
- FrameBuffer.FloatBuffer.Put: a block that would be written in front of the array, with frames still owed to a cut, is excluded; the Windows decoder stops there.
- HttpProvider.DataProviderHTTP.Read: reads of no bytes are excluded, since their range wraps around; a server that sends more than it was asked for is too.
- WavDecoder.Decoder.Load: a server that answers with less than was asked for can end the load anywhere; then the contract says only that it ends.  Text printed to the standard error stream is left out, and with it `knownType`.
- WavDecoder.Decoder.Decode: float samples other than four bytes wide would overrun the output buffer and are excluded; consecutive decodes report the same frame index, as the code does.
- WavWriter.WriteFile: the header's integers are written for values that fit their fields; decoding and file handling of the tool are left out.
- AvCodec.DecoderAVCodec.ParseSidx: the box lies in memory whole; `ensure_data_required`, which reads more of the file when it does not, is left out, and so is the record pointer it can leave dangling.
- AvCodec.DecoderAVCodec.ScanMoof: the moof and its boxes lie in memory whole, and the moof index is given; an index of -1, with which the code indexes the table, is excluded, and so is a moof of fewer than four bytes.
- AvCodec.DecoderAVCodec.MoofIndex: offsets are relative to the stored `_moofs.offset`, which does not include the position of the box in the file.
- AvCodec.FileVector: boxes hold at most `_packets_per_moof` vectors and a moof parsed again has the same box; table keys are not narrowed to `int`.
- The decode thread of the AVCodec decoder around the decryption, its copy of clipped frames, the `tenc` box and the unused `trun` count.
- AudioConverter.DecoderAudioConverter.Decode: claims no slice for positions before the end of the start junk, where every dump erases frames again; `JunkExactly` and `JunkEatsAll` say what is lost there.  How many bytes a fill reads does not matter and is left out.  What the converter yields after a parse error is taken to go on in the stream.
- AudioConverter.DecoderAudioConverter.Seek: the three library calls are one outcome.
- The normaliser's resampled path and leftover buffer mix frame and sample counts; they and the frame index of the short-circuited path are left out.
- Midi.DecoderMidi.Decode: what the synthesizer makes of the calls is its last setting for each key, controller, preset and wheel; how the fields of a message share their bytes is the message library's affair.  `seek` and the state between calls, which `decode` does not advance, are left out; what the synthesizer renders is.
- Vorbis.DecoderVorbis.Decode: the codec answers by a script, behind which every read is full; a failing read leaves its position unchanged.
- Base64.Decode: `isalnum` is the one of the C locale.
- The Speex, Opus and FLAC decoders, factories, path and MIME dispatch, manifests, decrypters, the memory and file providers: plumbing, or behaviour that depends on their libraries.
