/** Byte order in the AVCodec decoder: the in-place swap and the records it reads with it. */
module EndianSwap {
  import opened ByteOrder

  /** Memory as numbers. */
  function ToBytes(memory: seq<bv8>): (bytes: seq<byte>)
    ensures |bytes| == |memory|
    ensures forall i :: 0 <= i < |memory| ==> bytes[i] == memory[i] as int
  {
    seq(|memory|, i requires 0 <= i < |memory| => memory[i] as int)
  }

  /** A memory whose stretch of `size` bytes at `from` is reversed. */
  function Swapped(memory: seq<bv8>, from: nat, size: nat): seq<bv8>
    requires from + size <= |memory|
  {
    memory[..from] + Reversed(memory[from..from + size]) + memory[from + size..]
  }

  lemma SwappedAt(memory: seq<bv8>, from: nat, size: nat, k: nat)
    requires from + size <= |memory| && k < |memory|
    ensures |Swapped(memory, from, size)| == |memory|
    ensures Swapped(memory, from, size)[k] == if from <= k < from + size then memory[2 * from + size - 1 - k] else memory[k]
  {
    var r := Reversed(memory[from..from + size]);
    if from <= k < from + size {
      assert Swapped(memory, from, size)[k] == r[k - from];
    }
  }

  /** The swap undoes itself. */
  lemma SwappedTwice(memory: seq<bv8>, from: nat, size: nat)
    requires from + size <= |memory|
    ensures |Swapped(memory, from, size)| == |memory|
    ensures Swapped(Swapped(memory, from, size), from, size) == memory
  {
    hide Reversed;
    var once := Swapped(memory, from, size);
    var twice := Swapped(once, from, size);
    forall k | 0 <= k < |memory|
      ensures |twice| == |memory| && twice[k] == memory[k]
    {
      SwappedAt(once, from, size, k);
      SwappedAt(memory, from, size, if from <= k < from + size then 2 * from + size - 1 - k else k);
    }
  }

  lemma ReversedBytes(memory: seq<bv8>)
    ensures ToBytes(Reversed(memory)) == Reversed(ToBytes(memory))
  {
  }

  function Xor(x: bv8, y: bv8): bv8 {
    x ^ y
  }

  lemma XorExchange(x: bv8, y: bv8)
    ensures Xor(y, Xor(x, y)) == x && Xor(Xor(x, y), Xor(y, Xor(x, y))) == y
  {
  }

  /** `xorSwap`; the guard keeps a byte from being swapped with itself, which would clear it. */
  method XorSwap(memory: array<bv8>, x: nat, y: nat)
    requires x < memory.Length && y < memory.Length
    modifies memory
    ensures memory[x] == old(memory[y]) && memory[y] == old(memory[x])
    ensures forall k :: 0 <= k < memory.Length && k != x && k != y ==> memory[k] == old(memory[k])
  {
    hide Xor;
    if x != y {
      XorExchange(memory[x], memory[y]);
      memory[x] := Xor(memory[x], memory[y]);
      memory[y] := Xor(memory[y], memory[x]);
      memory[x] := Xor(memory[x], memory[y]);
    }
  }

  /** `swap_endians` on the `size` bytes at `from`. */
  method SwapEndians(memory: array<bv8>, from: nat, size: nat)
    requires from + size <= memory.Length
    modifies memory
    ensures memory[..] == Swapped(old(memory[..]), from, size)
  {
    var i := 0;
    ghost var before := memory[..];
    while i < size / 2
      invariant 0 <= i <= size / 2
      invariant forall k {:trigger memory[k]} :: 0 <= k < memory.Length ==>
                  memory[k] == if from <= k < from + i || from + size - i <= k < from + size
                               then before[2 * from + size - 1 - k] else before[k]
    {
      var x, y := from + i, from + size - i - 1;
      XorSwap(memory, x, y);
      i := i + 1;
    }
    SwappedIs(before, memory[..], from, size);
  }

  lemma SwappedIs(before: seq<bv8>, after: seq<bv8>, from: nat, size: nat)
    requires from + size <= |before| == |after|
    requires forall k :: from <= k < from + size ==> after[k] == before[2 * from + size - 1 - k]
    requires forall k :: 0 <= k < from ==> after[k] == before[k]
    requires forall k :: from + size <= k < |before| ==> after[k] == before[k]
    ensures after == Swapped(before, from, size)
  {
    hide Reversed;
    forall k | 0 <= k < |after|
      ensures after[k] == Swapped(before, from, size)[k]
    {
      SwappedAt(before, from, size, k);
    }
  }

  /** An integer copied out of memory and swapped: `memcpy`, then `swap_endians`. */
  method LoadSwapped(memory: array<bv8>, at: nat, size: nat) returns (x: nat)
    requires at + size <= memory.Length
    ensures x == LoadBE(ToBytes(memory[at..at + size]))
  {
    hide LoadLE, LoadBE, ToBytes, Reversed, Swapped;
    ghost var bytes := memory[at..at + size];
    var copy := new bv8[size];
    forall i | 0 <= i < size {
      copy[i] := memory[at + i];
    }
    assert copy[..] == bytes;
    SwapEndians(copy, 0, size);
    SwappedWhole(bytes);
    ReversedBytes(bytes);
    LoadReversed(ToBytes(bytes));
    assert memory[at..at + size] == bytes;
    x := LoadLE(ToBytes(copy[..]));
  }

  lemma SwappedWhole(memory: seq<bv8>)
    ensures Swapped(memory, 0, |memory|) == Reversed(memory)
  {
    hide Reversed;
    assert memory[0..|memory|] == memory;
  }
}

module AvCodec {
  import opened ByteOrder
  import opened EndianSwap
  import opened Frames
  import opened Truncation

  /** `SIDX_FRAME`, in the order of the packed struct. */
  datatype SidxFrame = SidxFrame(junk: nat, subsegmentDuration: nat, referencedSize: nat)

  const SIDX_RECORD: nat := 12
  const SIDX_COUNT_OFFSET: nat := 26
  const SIDX_RECORDS_OFFSET: nat := 28

  /** The struct that a little-endian machine sees in twelve bytes. */
  function LoadStruct(bytes: seq<byte>): SidxFrame
    requires |bytes| == SIDX_RECORD
  {
    SidxFrame(LoadLE(bytes[0..4]), LoadLE(bytes[4..8]), LoadLE(bytes[8..12]))
  }

  /** The record as the file has it: three big-endian fields, the size first. */
  function FileRecord(bytes: seq<byte>): SidxFrame
    requires |bytes| == SIDX_RECORD
  {
    SidxFrame(LoadBE(bytes[8..12]), LoadBE(bytes[4..8]), LoadBE(bytes[0..4]))
  }

  /** Reversing a whole record swaps its fields and the bytes of each at once. */
  lemma ReversedRecord(bytes: seq<byte>)
    requires |bytes| == SIDX_RECORD
    ensures LoadStruct(Reversed(bytes)) == FileRecord(bytes)
  {
    hide LoadLE, LoadBE;
    var r := Reversed(bytes);
    assert r[0..4] == Reversed(bytes[8..12]);
    assert r[4..8] == Reversed(bytes[4..8]);
    assert r[8..12] == Reversed(bytes[0..4]);
    LoadReversed(bytes[8..12]);
    LoadReversed(bytes[4..8]);
    LoadReversed(bytes[0..4]);
  }

  /** A big-endian 32-bit field in memory. */
  function Field32(memory: seq<bv8>, at: nat): nat
    requires at + 4 <= |memory|
  {
    0x100_0000 * memory[at] as nat + 0x1_0000 * memory[at + 1] as nat + 0x100 * memory[at + 2] as nat + memory[at + 3] as nat
  }

  lemma FieldBytes(memory: seq<bv8>, at: nat, bytes: seq<byte>, k: nat)
    requires at + k + 4 <= |memory| && k + 4 <= |bytes|
    requires forall i :: k <= i < k + 4 ==> bytes[i] == memory[at + i] as int
    ensures LoadBE(bytes[k..k + 4]) == Field32(memory, at + k)
  {
    hide LoadBE;
    var field := bytes[k..k + 4];
    BigEndian(field);
    assert forall i :: 0 <= i < 4 ==> field[i] == bytes[k + i];
  }

  /** The order of the fields in the file: size, duration, and a word the library ignores. */
  lemma RecordFields(memory: seq<bv8>, at: nat)
    requires at + SIDX_RECORD <= |memory|
    ensures var frame := FileRecord(ToBytes(memory[at..at + SIDX_RECORD]));
            && frame.referencedSize == Field32(memory, at) && frame.subsegmentDuration == Field32(memory, at + 4)
            && frame.junk == Field32(memory, at + 8)
  {
    hide LoadBE, ToBytes;
    var bytes := ToBytes(memory[at..at + SIDX_RECORD]);
    FieldBytes(memory, at, bytes, 0);
    FieldBytes(memory, at, bytes, 4);
    FieldBytes(memory, at, bytes, 8);
  }

  /** The frames from `base` on are the records in memory: size, duration and a word, four bytes each, the highest first. */
  ghost predicate TableRead(memory: seq<bv8>, at: nat, frames: seq<SidxFrame>, base: nat, count: nat) {
    && at + 12 * count <= |memory| && base + count <= |frames|
    && forall j :: 0 <= j < count ==>
         && frames[base + j].referencedSize == Field32(memory, at + 12 * j)
         && frames[base + j].subsegmentDuration == Field32(memory, at + 12 * j + 4)
         && frames[base + j].junk == Field32(memory, at + 12 * j + 8)
  }

  lemma TableGrows(memory: seq<bv8>, now: seq<bv8>, at: nat, frames: seq<SidxFrame>, base: nat, count: nat, frame: SidxFrame)
    requires TableRead(memory, at, frames, base, count) && |frames| == base + count
    requires |now| == |memory| && at + 12 * count + 12 <= |memory| && now[at + 12 * count..] == memory[at + 12 * count..]
    requires frame.referencedSize == Field32(now, at + 12 * count)
    requires frame.subsegmentDuration == Field32(now, at + 12 * count + 4)
    requires frame.junk == Field32(now, at + 12 * count + 8)
    ensures TableRead(memory, at, frames + [frame], base, count + 1)
  {
    SameField(memory, now, at + 12 * count, 0);
    SameField(memory, now, at + 12 * count, 4);
    SameField(memory, now, at + 12 * count, 8);
    hide Field32;
  }

  lemma NoTable(memory: seq<bv8>, at: nat, frames: seq<SidxFrame>)
    requires at <= |memory|
    ensures TableRead(memory, at, frames, |frames|, 0)
  {
  }

  lemma SameField(a: seq<bv8>, b: seq<bv8>, from: nat, k: nat)
    requires |a| == |b| && from + k + 4 <= |a| && a[from..] == b[from..]
    ensures Field32(a, from + k) == Field32(b, from + k)
  {
    assert forall i :: from <= i < |a| ==> a[i] == a[from..][i - from] && b[i] == b[from..][i - from];
  }

  /** The number of records declared by the box at `at`. */
  function RecordCount(memory: seq<bv8>, at: nat): nat
    requires at + SIDX_RECORDS_OFFSET <= |memory|
  {
    LoadBE(ToBytes(memory[at + SIDX_COUNT_OFFSET..at + SIDX_COUNT_OFFSET + 2]))
  }

  lemma CountBytes(memory: seq<bv8>, at: nat)
    requires at + SIDX_RECORDS_OFFSET <= |memory|
    ensures RecordCount(memory, at) == 0x100 * memory[at + 26] as nat + memory[at + 27] as nat
  {
    hide LoadBE;
    BigEndian(ToBytes(memory[at + SIDX_COUNT_OFFSET..at + SIDX_COUNT_OFFSET + 2]));
  }

  /** Where the moofs start and how long each is: the `sidx` table. */
  datatype Moofs = Moofs(offset: nat, frames: seq<SidxFrame>)
  {
    ghost predicate Valid() {
      offset < 0x8000_0000 && forall i :: 0 <= i < |frames| ==> frames[i].referencedSize < 0x1_0000_0000
    }

    /** First byte of moof `i`. */
    function Start(i: nat): nat
      requires i <= |frames|
    {
      if i == 0 then offset else Start(i - 1) + frames[i - 1].referencedSize
    }

    predicate Holds(i: nat, byteOffset: nat)
      requires i < |frames|
    {
      Start(i) <= byteOffset < Start(i + 1)
    }
  }

  const INVALID_MOOF_INDEX: int := -1
  const TWO_32: nat := 0x1_0000_0000

  /** Conversion of an unsigned 32-bit value to `int`. */
  function ToInt32(x: nat): int
    requires x < TWO_32
  {
    Signed32(x)
  }

  /** An unsigned 32-bit sum of an `int` and an unsigned value. */
  function Sum32(x: int, y: nat): (z: nat)
    ensures z < TWO_32
  {
    (x + y) % TWO_32
  }

  lemma Sum32Tracks(start: nat, size: nat)
    requires start < TWO_32 && size < TWO_32
    ensures Sum32(ToInt32(start), size) == if start + size < TWO_32 then start + size else start + size - TWO_32
    ensures ToInt32(start) >= 0 <==> start < 0x8000_0000
    ensures start < 0x8000_0000 ==> ToInt32(start) == start
  {
    if start >= 0x8000_0000 {
      assert (start - TWO_32 + size) % TWO_32 == (start + size) % TWO_32;
    }
  }

  /** The loop of `moofIndex` from entry `i` on: `start` is an `int`, the end an unsigned sum. */
  function SearchFrom(frames: seq<SidxFrame>, i: nat, start: int, byteOffset: nat): (r: int)
    requires i <= |frames|
    ensures r == INVALID_MOOF_INDEX || i <= r < |frames|
    decreases |frames| - i
  {
    if i == |frames| then INVALID_MOOF_INDEX
    else
      var end := Sum32(start, frames[i].referencedSize);
      if start >= 0 && byteOffset >= start && byteOffset < end then i
      else SearchFrom(frames, i + 1, ToInt32(end), byteOffset)
  }

  /** The moof whose half-open range holds the offset, by the mathematical prefix sums. */
  function Lookup(m: Moofs, i: nat, byteOffset: nat): (r: int)
    requires i <= |m.frames|
    ensures r == INVALID_MOOF_INDEX || i <= r < |m.frames|
    decreases |m.frames| - i
  {
    if i == |m.frames| then INVALID_MOOF_INDEX
    else if m.Holds(i, byteOffset) then i
    else Lookup(m, i + 1, byteOffset)
  }

  lemma {:induction false} StartsAscend(m: Moofs, i: nat, j: nat)
    requires i <= j <= |m.frames|
    ensures m.Start(i) <= m.Start(j)
  {
    if i < j {
      StartsAscend(m, i, j - 1);
    }
  }

  lemma {:induction false} LookupFrom(m: Moofs, i: nat, byteOffset: nat)
    requires i <= |m.frames|
    ensures var r := Lookup(m, i, byteOffset);
            && (r != INVALID_MOOF_INDEX ==> m.Holds(r, byteOffset))
            && forall k: nat :: i <= k < (if r == INVALID_MOOF_INDEX then |m.frames| else r) ==> !m.Holds(k, byteOffset)
    decreases |m.frames| - i
  {
    if i < |m.frames| && !m.Holds(i, byteOffset) {
      LookupFrom(m, i + 1, byteOffset);
    }
  }

  /** The range that holds an offset is the only one, even among empty entries. */
  lemma LookupIsUnique(m: Moofs, byteOffset: nat, i: nat)
    requires i < |m.frames|
    ensures m.Holds(i, byteOffset) <==> Lookup(m, 0, byteOffset) == i
  {
    LookupFrom(m, 0, byteOffset);
    var r := Lookup(m, 0, byteOffset);
    if m.Holds(i, byteOffset) && r != i {
      assert 0 <= r < i;
      StartsAscend(m, r + 1, i);
    }
  }

  /** Whether moof `k` starts within an `int` and ends within 32 bits, or is empty. */
  ghost predicate FitsAt(m: Moofs, k: nat)
    requires k < |m.frames|
  {
    m.frames[k].referencedSize > 0 ==> m.Start(k) < 0x8000_0000 && m.Start(k + 1) < TWO_32
  }

  ghost predicate Fits(m: Moofs) {
    forall k: nat :: k < |m.frames| ==> FitsAt(m, k)
  }

  /** One round of the search at an entry that fits. */
  lemma SearchStep(m: Moofs, i: nat, byteOffset: nat)
    requires m.Valid() && i < |m.frames| && FitsAt(m, i) && m.Start(i) < TWO_32
    ensures m.Start(i + 1) < TWO_32
    ensures SearchFrom(m.frames, i, ToInt32(m.Start(i)), byteOffset)
         == if m.Holds(i, byteOffset) then i
            else SearchFrom(m.frames, i + 1, ToInt32(m.Start(i + 1)), byteOffset)
  {
    hide ToInt32, Sum32;
    Sum32Tracks(m.Start(i), m.frames[i].referencedSize);
    assert m.Start(i + 1) == m.Start(i) + m.frames[i].referencedSize;
  }

  lemma {:induction false} SearchAgrees(m: Moofs, i: nat, byteOffset: nat)
    requires m.Valid() && Fits(m) && i <= |m.frames| && m.Start(i) < TWO_32
    ensures SearchFrom(m.frames, i, ToInt32(m.Start(i)), byteOffset) == Lookup(m, i, byteOffset)
    decreases |m.frames| - i
  {
    hide ToInt32, Sum32, Moofs.Start, Moofs.Holds;
    if i < |m.frames| {
      assert FitsAt(m, i);
      SearchStep(m, i, byteOffset);
      SearchAgrees(m, i + 1, byteOffset);
    }
  }

  /** Up to the first entry that does not fit, the search tracks the prefix sums. */
  lemma {:induction false} SearchReaches(m: Moofs, i: nat, k: nat)
    requires m.Valid() && i <= k < |m.frames| && m.Start(i) < TWO_32
    requires forall j: nat :: i <= j < k ==> FitsAt(m, j)
    ensures m.Start(k) < TWO_32
    ensures SearchFrom(m.frames, i, ToInt32(m.Start(i)), m.Start(k))
         == SearchFrom(m.frames, k, ToInt32(m.Start(k)), m.Start(k))
    decreases k - i
  {
    hide ToInt32, Sum32;
    if i < k {
      SearchStep(m, i, m.Start(k));
      StartsAscend(m, i + 1, k);
      SearchReaches(m, i + 1, k);
    }
  }

  lemma FirstMisfit(m: Moofs, k: nat) returns (first: nat)
    requires k < |m.frames| && !FitsAt(m, k)
    ensures first <= k && !FitsAt(m, first)
    ensures forall j: nat :: j < first ==> FitsAt(m, j)
  {
    if j: nat :| j < k && !FitsAt(m, j) {
      first := FirstMisfit(m, j);
    } else {
      first := k;
    }
  }

  lemma Misfit(m: Moofs, k: nat)
    requires m.Valid() && k < |m.frames| && !FitsAt(m, k) && m.Start(k) < TWO_32
    ensures SearchFrom(m.frames, k, ToInt32(m.Start(k)), m.Start(k)) != k
  {
    hide ToInt32, Sum32;
    Sum32Tracks(m.Start(k), m.frames[k].referencedSize);
    assert m.Start(k + 1) == m.Start(k) + m.frames[k].referencedSize;
  }

  /**
   * The search equals the prefix-sum lookup for every offset if and only if every moof that
   * is not empty starts within an `int` and ends within 32 bits.
   */
  lemma SearchIsExact(m: Moofs)
    requires m.Valid()
    ensures (forall b: nat :: SearchFrom(m.frames, 0, m.offset, b) == Lookup(m, 0, b)) <==> Fits(m)
  {
    assert ToInt32(m.Start(0)) == m.offset;
    hide ToInt32, Sum32;
    if Fits(m) {
      forall b: nat
        ensures SearchFrom(m.frames, 0, m.offset, b) == Lookup(m, 0, b)
      {
        SearchAgrees(m, 0, b);
      }
    } else {
      var k: nat :| k < |m.frames| && !FitsAt(m, k);
      var first := FirstMisfit(m, k);
      MisfitIsMissed(m, first);
    }
  }

  /** The first byte of the first moof that does not fit is not found in it. */
  lemma MisfitIsMissed(m: Moofs, first: nat)
    requires m.Valid() && first < |m.frames| && !FitsAt(m, first)
    requires forall j: nat :: j < first ==> FitsAt(m, j)
    ensures Lookup(m, 0, m.Start(first)) == first
    ensures SearchFrom(m.frames, 0, m.offset, m.Start(first)) != first
  {
    assert ToInt32(m.Start(0)) == m.offset;
    hide ToInt32, Sum32, SearchFrom, Lookup;
    SearchReaches(m, 0, first);
    Misfit(m, first);
    assert m.Holds(first, m.Start(first));
    LookupIsUnique(m, m.Start(first), first);
  }

  /** A `senc` box: the moof it was found in and its initialisation vectors, as file bytes. */
  datatype Senc = Senc(moof: nat, ivs: seq<seq<byte>>)
  {
    ghost predicate Valid(packetsPerMoof: nat) {
      |ivs| <= packetsPerMoof && forall k :: 0 <= k < |ivs| ==> |ivs[k]| == IV_SIZE
    }
  }

  datatype Option<T> = None | Some(value: T)

  const IV_SIZE: nat := 8
  const CIPHER_IV_SIZE: nat := 16
  const SENC_COUNT_OFFSET: nat := 8
  const SENC_IVS_OFFSET: nat := 12
  const INVALID_ENTRY_INDEX: int := -1
  const SENC: seq<bv8> := [115, 101, 110, 99]

  /** The table with `values` written at the keys from `base` on. */
  function Put(table: map<int, nat>, base: int, values: seq<seq<byte>>): map<int, nat> {
    if |values| == 0 then table else
      var last := |values| - 1;
      Put(table, base, values[..last])[base + last := LoadBE(values[last])]
  }

  /** The table gains exactly the keys `base + k`; every other entry stays. */
  lemma {:induction false} PutIs(table: map<int, nat>, base: int, values: seq<seq<byte>>, key: int)
    ensures key in Put(table, base, values) <==> key in table || base <= key < base + |values|
    ensures base <= key < base + |values| ==> Put(table, base, values)[key] == LoadBE(values[key - base])
    ensures key in table && !(base <= key < base + |values|) ==>
              Put(table, base, values)[key] == table[key]
  {
    hide LoadBE;
    if |values| > 0 {
      var last := |values| - 1;
      PutIs(table, base, values[..last], key);
    }
  }

  /** The table after a run of `senc` boxes. */
  function TableOf(sencs: seq<Senc>, packetsPerMoof: nat): map<int, nat> {
    if |sencs| == 0 then map[] else
      var last := sencs[|sencs| - 1];
      Put(TableOf(sencs[..|sencs| - 1], packetsPerMoof), last.moof * packetsPerMoof, last.ivs)
  }

  /** Boxes fit their moof, and reading a moof again finds the same box. */
  ghost predicate Consistent(sencs: seq<Senc>, packetsPerMoof: nat) {
    && (forall i :: 0 <= i < |sencs| ==> sencs[i].Valid(packetsPerMoof))
    && (forall i, j :: 0 <= i < |sencs| && 0 <= j < |sencs| && sencs[i].moof == sencs[j].moof ==> sencs[i] == sencs[j])
  }

  /** Entries of different moofs have different keys. */
  lemma KeysApart(moof: nat, k: int, other: nat, l: int, packetsPerMoof: nat)
    requires 0 <= k < packetsPerMoof && 0 <= l < packetsPerMoof
    ensures moof * packetsPerMoof + k == other * packetsPerMoof + l <==> moof == other && k == l
  {
    if moof < other {
      Scale(moof + 1, other, packetsPerMoof);
    } else if other < moof {
      Scale(other + 1, moof, packetsPerMoof);
    }
  }

  /** Whether some box of the run holds the entry `key`. */
  ghost predicate Covers(senc: Senc, packetsPerMoof: nat, key: int) {
    senc.moof * packetsPerMoof <= key < senc.moof * packetsPerMoof + |senc.ivs|
  }

  /** The table has the entries of the boxes and no others. */
  lemma {:induction false} TableKeys(sencs: seq<Senc>, packetsPerMoof: nat, key: int)
    ensures key in TableOf(sencs, packetsPerMoof) <==>
              exists i :: 0 <= i < |sencs| && Covers(sencs[i], packetsPerMoof, key)
  {
    if |sencs| > 0 {
      var n := |sencs| - 1;
      TableKeys(sencs[..n], packetsPerMoof, key);
      PutIs(TableOf(sencs[..n], packetsPerMoof), sencs[n].moof * packetsPerMoof, sencs[n].ivs, key);
      assert Covers(sencs[n], packetsPerMoof, key) <==>
        sencs[n].moof * packetsPerMoof <= key < sencs[n].moof * packetsPerMoof + |sencs[n].ivs|;
      if i :| 0 <= i < n && Covers(sencs[i], packetsPerMoof, key) {
        assert sencs[..n][i] == sencs[i];
      }
    }
  }

  /** No box of the run overwrites an entry of another. */
  lemma {:induction false} TableKeeps(sencs: seq<Senc>, packetsPerMoof: nat, i: nat, k: nat)
    requires Consistent(sencs, packetsPerMoof) && i < |sencs| && k < |sencs[i].ivs|
    ensures sencs[i].moof * packetsPerMoof + k in TableOf(sencs, packetsPerMoof)
    ensures TableOf(sencs, packetsPerMoof)[sencs[i].moof * packetsPerMoof + k] == LoadBE(sencs[i].ivs[k])
    decreases |sencs|
  {
    hide LoadBE;
    var n := |sencs| - 1;
    var last := sencs[n];
    var key := sencs[i].moof * packetsPerMoof + k;
    PutIs(TableOf(sencs[..n], packetsPerMoof), last.moof * packetsPerMoof, last.ivs, key);
    if last.moof != sencs[i].moof {
      assert sencs[..n][i] == sencs[i];
      TableKeeps(sencs[..n], packetsPerMoof, i, k);
      if Covers(last, packetsPerMoof, key) {
        KeysApart(sencs[i].moof, k, last.moof, key - last.moof * packetsPerMoof, packetsPerMoof);
      }
    }
  }

  /** The entry of a packet: `pts / _frames_per_entry_index` in C++. */
  lemma EntryOf(pts: int, entry: nat, frames: nat)
    requires frames > 0 && entry * frames <= pts < (entry + 1) * frames
    ensures TruncDiv(pts, frames) == entry
  {
    AddFrames(entry, 1, frames);
    var q := pts / frames;
    assert q * frames <= pts < (q + 1) * frames by {
      assert pts == frames * q + pts % frames;
      AddFrames(q, 1, frames);
    }
    if q < entry {
      Scale(q + 1, entry, frames);
    } else if q > entry {
      Scale(entry + 1, q, frames);
    }
  }

  function Zeros(n: nat): (r: seq<byte>)
    ensures |r| == n
  {
    seq(n, i => 0)
  }

  /** The vector handed to the decrypter for a packet, if its entry is in the table. */
  function VectorFor(table: map<int, nat>, entry: int): Option<seq<byte>> {
    if entry != INVALID_ENTRY_INDEX && entry in table
    then Some(Reversed(StoreLE(table[entry], IV_SIZE)) + Zeros(CIPHER_IV_SIZE - IV_SIZE))
    else None
  }

  /** The reversal on reading and the one on use cancel. */
  lemma ReversalsCancel(bytes: seq<byte>)
    ensures Reversed(StoreLE(LoadBE(bytes), |bytes|)) == bytes
  {
    hide LoadBE, LoadLE, StoreLE;
    LoadReversed(bytes);
    StoreLoad(Reversed(bytes));
    ReversedTwice(bytes);
  }

  /**
   * After any run of `senc` boxes, the packets that start in entry k of a moof are decrypted
   * with the k-th vector of its box as the file has it, followed by zeros.
   */
  lemma VectorRoundTrip(sencs: seq<Senc>, packetsPerMoof: nat, frames: nat, i: nat, k: nat, pts: int)
    requires Consistent(sencs, packetsPerMoof) && i < |sencs| && k < |sencs[i].ivs| && frames > 0
    requires (sencs[i].moof * packetsPerMoof + k) * frames <= pts < (sencs[i].moof * packetsPerMoof + k + 1) * frames
    ensures VectorFor(TableOf(sencs, packetsPerMoof), TruncDiv(pts, frames))
         == Some(sencs[i].ivs[k] + Zeros(CIPHER_IV_SIZE - IV_SIZE))
  {
    hide TableOf, Reversed, StoreLE, LoadBE;
    EntryOf(pts, sencs[i].moof * packetsPerMoof + k, frames);
    TableKeeps(sencs, packetsPerMoof, i, k);
    assert sencs[i].Valid(packetsPerMoof);
    ReversalsCancel(sencs[i].ivs[k]);
  }

  /** A packet outside every entry read so far is not decrypted. */
  lemma VectorAbsent(sencs: seq<Senc>, packetsPerMoof: nat, frames: nat, pts: int)
    requires frames > 0
    ensures VectorFor(TableOf(sencs, packetsPerMoof), TruncDiv(pts, frames)) == None
       <==> forall i :: 0 <= i < |sencs| ==> !Covers(sencs[i], packetsPerMoof, TruncDiv(pts, frames))
  {
    hide TableOf, Reversed, StoreLE;
    TableKeys(sencs, packetsPerMoof, TruncDiv(pts, frames));
  }

  ghost predicate IsSenc(memory: seq<bv8>, at: nat) {
    at + |SENC| <= |memory| && memory[at..at + |SENC|] == SENC
  }

  function VectorCount(memory: seq<bv8>, at: nat): nat
    requires at + SENC_IVS_OFFSET <= |memory|
  {
    LoadBE(ToBytes(memory[at + SENC_COUNT_OFFSET..at + SENC_IVS_OFFSET]))
  }

  /** The characters of `tag` stand in memory. */
  predicate Spelled(memory: seq<bv8>, at: nat, tag: string) {
    at + |tag| <= |memory| && forall i :: 0 <= i < |tag| ==> memory[at + i] as int == tag[i] as int
  }

  /** The tag and the count of a box, as they stand in memory. */
  lemma SencBytes(memory: seq<bv8>, at: nat)
    ensures IsSenc(memory, at) <==> Spelled(memory, at, "senc")
    ensures at + 12 <= |memory| ==> VectorCount(memory, at) == Field32(memory, at + 8)
  {
    hide LoadBE;
    var tag := "senc";
    assert tag[0] == 's' && tag[1] == 'e' && tag[2] == 'n' && tag[3] == 'c';
    assert forall i :: 0 <= i < 4 ==> SENC[i] as int == tag[i] as int;
    if at + 12 <= |memory| {
      var bytes := ToBytes(memory[at + 8..at + 12]);
      assert bytes[0..4] == bytes;
      FieldBytes(memory, at + 8, bytes, 0);
    }
    if IsSenc(memory, at) {
      var here := memory[at..at + 4];
      assert forall i :: 0 <= i < 4 ==> here[i] == memory[at + i];
    }
    if Spelled(memory, at, tag) {
      forall i | 0 <= i < 4
        ensures memory[at + i] == SENC[i]
      {
        assert memory[at + i] as int == tag[i] as int;
        SameByte(memory[at + i], SENC[i]);
      }
    }
  }

  lemma SameByte(a: bv8, b: bv8)
    requires a as int == b as int
    ensures a == b
  {
    assert a as int as bv8 == a && b as int as bv8 == b;
  }

  lemma EightZeros()
    ensures Zeros(CIPHER_IV_SIZE - IV_SIZE) == [0, 0, 0, 0, 0, 0, 0, 0]
  {
  }

  /** The box at `at` lies in memory whole. */
  ghost predicate Whole(memory: seq<bv8>, at: nat) {
    && at + SENC_IVS_OFFSET <= |memory|
    && at + SENC_IVS_OFFSET + VectorCount(memory, at) * IV_SIZE <= |memory|
  }

  /** The first `n` vectors of the box at `at`. */
  function Vectors(memory: seq<bv8>, at: nat, n: nat): (r: seq<seq<byte>>)
    requires at + SENC_IVS_OFFSET + n * IV_SIZE <= |memory|
    ensures |r| == n && forall k :: 0 <= k < n ==> |r[k]| == IV_SIZE
  {
    if n == 0 then [] else
      var from := at + SENC_IVS_OFFSET + (n - 1) * IV_SIZE;
      Vectors(memory, at, n - 1) + [ToBytes(memory[from..from + IV_SIZE])]
  }

  lemma PutNothing(table: map<int, nat>, base: int, memory: seq<bv8>, at: nat)
    requires at + SENC_IVS_OFFSET <= |memory|
    ensures Put(table, base, Vectors(memory, at, 0)) == table
  {
  }

  lemma PutNext(table: map<int, nat>, base: int, memory: seq<bv8>, at: nat, k: nat)
    requires at + SENC_IVS_OFFSET + (k + 1) * IV_SIZE <= |memory|
    ensures var from := at + SENC_IVS_OFFSET + k * IV_SIZE;
            Put(table, base, Vectors(memory, at, k + 1))
            == Put(table, base, Vectors(memory, at, k))[base + k := LoadBE(ToBytes(memory[from..from + IV_SIZE]))]
  {
    hide LoadBE, ToBytes;
    assert Vectors(memory, at, k + 1)[..k] == Vectors(memory, at, k);
  }

  /** Every box that starts in `[at, to)` lies in memory whole. */
  ghost predicate AllWhole(memory: seq<bv8>, at: nat, to: nat) {
    forall p: nat :: at <= p < to && IsSenc(memory, p) ==> Whole(memory, p)
  }

  /** The table after the boxes that start in `[at, to)`, in order. */
  ghost function Scanned(table: map<int, nat>, memory: seq<bv8>, base: int, at: nat, to: nat): map<int, nat>
    requires at <= to && AllWhole(memory, at, to)
  {
    if at == to then table else
      var rest := Scanned(table, memory, base, at, to - 1);
      if IsSenc(memory, to - 1)
      then Put(rest, base, Vectors(memory, to - 1, VectorCount(memory, to - 1))) else rest
  }

  /** A moof with a single `senc` tag adds that box and nothing else. */
  lemma {:induction false} SingleBox(table: map<int, nat>, memory: seq<bv8>, base: int, at: nat, to: nat, only: nat)
    requires at <= to && AllWhole(memory, at, to) && at <= only
    requires IsSenc(memory, only) && forall p: nat :: at <= p < to && IsSenc(memory, p) ==> p == only
    ensures only >= to ==> Scanned(table, memory, base, at, to) == table
    ensures only < to ==>
              Scanned(table, memory, base, at, to) == Put(table, base, Vectors(memory, only, VectorCount(memory, only)))
  {
    hide Put, Vectors, VectorCount, IsSenc;
    if at < to {
      SingleBox(table, memory, base, at, to - 1, only);
    }
  }

  /** One search for boxes: the moof of `size` bytes at `at` of what is in memory. */
  datatype Scan = Scan(memory: seq<bv8>, at: nat, size: nat, moof: nat)
  {
    ghost predicate Valid() {
      |SENC| <= size && at + size <= |memory| && AllWhole(memory, at, at + size - |SENC|)
    }

    /** Behind the last place where a tag is looked for. */
    ghost function End(): nat
      requires Valid()
    {
      at + size - |SENC|
    }

    /** Whether a tag that the search meets stands at `p`. */
    ghost predicate Tagged(p: nat) {
      at <= p && p + |SENC| < at + size && IsSenc(memory, p)
    }

    ghost function Box(p: nat): (box: Senc)
      requires Whole(memory, p)
    {
      Senc(moof, Vectors(memory, p, VectorCount(memory, p)))
    }

    /** The boxes that start in `[at, to)`, in order. */
    ghost function Boxes(to: nat): seq<Senc>
      requires at <= to && AllWhole(memory, at, to)
    {
      if at == to then []
      else if IsSenc(memory, to - 1) then Boxes(to - 1) + [Box(to - 1)]
      else Boxes(to - 1)
    }
  }

  ghost predicate AllValid(scans: seq<Scan>) {
    forall i {:trigger scans[i]} :: 0 <= i < |scans| ==> scans[i].Valid()
  }

  /** The boxes of a run of searches. */
  ghost function AllBoxes(scans: seq<Scan>): seq<Senc>
    requires AllValid(scans)
  {
    if |scans| == 0 then [] else
      var n := |scans| - 1;
      AllBoxes(scans[..n]) + scans[n].Boxes(scans[n].End())
  }

  /** The table after a run of searches. */
  ghost function ScannedAll(scans: seq<Scan>, packetsPerMoof: nat): map<int, nat>
    requires AllValid(scans)
  {
    if |scans| == 0 then map[] else
      var n := |scans| - 1;
      Scanned(ScannedAll(scans[..n], packetsPerMoof), scans[n].memory, scans[n].moof * packetsPerMoof,
              scans[n].at, scans[n].End())
  }

  lemma TableOfPush(sencs: seq<Senc>, box: Senc, packetsPerMoof: nat)
    ensures TableOf(sencs + [box], packetsPerMoof)
         == Put(TableOf(sencs, packetsPerMoof), box.moof * packetsPerMoof, box.ivs)
  {
    hide Put;
    assert (sencs + [box])[..|sencs|] == sencs;
  }

  lemma {:induction false} ScanIsTable(before: seq<Senc>, s: Scan, end: nat, packetsPerMoof: nat)
    requires s.at <= end && AllWhole(s.memory, s.at, end)
    ensures Scanned(TableOf(before, packetsPerMoof), s.memory, s.moof * packetsPerMoof, s.at, end)
         == TableOf(before + s.Boxes(end), packetsPerMoof)
    decreases end
  {
    hide TableOf, Put, IsSenc, Vectors, VectorCount;
    if s.at == end {
      assert before + [] == before;
    } else {
      ScanIsTable(before, s, end - 1, packetsPerMoof);
      if IsSenc(s.memory, end - 1) {
        TableOfPush(before + s.Boxes(end - 1), s.Box(end - 1), packetsPerMoof);
        assert before + (s.Boxes(end - 1) + [s.Box(end - 1)]) == before + s.Boxes(end - 1) + [s.Box(end - 1)];
      }
    }
  }

  /** The searches leave the table of the boxes they meet. */
  lemma {:induction false} ScansAreTable(scans: seq<Scan>, packetsPerMoof: nat)
    requires AllValid(scans)
    ensures ScannedAll(scans, packetsPerMoof) == TableOf(AllBoxes(scans), packetsPerMoof)
    decreases |scans|
  {
    hide Scanned;
    if |scans| > 0 {
      var n := |scans| - 1;
      ScansAreTable(scans[..n], packetsPerMoof);
      ScanIsTable(AllBoxes(scans[..n]), scans[n], scans[n].End(), packetsPerMoof);
    }
  }

  lemma {:induction false} BoxInScan(s: Scan, end: nat, p: nat) returns (i: nat)
    requires s.at <= p < end && AllWhole(s.memory, s.at, end) && IsSenc(s.memory, p)
    ensures i < |s.Boxes(end)| && s.Boxes(end)[i] == s.Box(p)
    decreases end
  {
    hide IsSenc, Vectors, VectorCount;
    if p == end - 1 {
      i := |s.Boxes(end)| - 1;
    } else {
      i := BoxInScan(s, end - 1, p);
    }
  }

  /** Every tag met by some search of a run has its box among those of the run. */
  lemma {:induction false} BoxInAll(scans: seq<Scan>, n: nat, p: nat) returns (i: nat)
    requires AllValid(scans)
    requires n < |scans| && scans[n].Tagged(p)
    ensures i < |AllBoxes(scans)| && AllBoxes(scans)[i] == scans[n].Box(p)
    decreases |scans|
  {
    hide IsSenc, Vectors, VectorCount;
    var last := |scans| - 1;
    if n == last {
      i := BoxInScan(scans[n], scans[n].End(), p);
      i := |AllBoxes(scans[..last])| + i;
    } else {
      assert scans[..last][n] == scans[n];
      i := BoxInAll(scans[..last], n, p);
    }
  }

  lemma {:induction false} VectorsAt(memory: seq<bv8>, at: nat, n: nat, k: nat)
    requires at + SENC_IVS_OFFSET + n * IV_SIZE <= |memory| && k < n
    ensures Vectors(memory, at, n)[k]
         == ToBytes(memory[at + SENC_IVS_OFFSET + k * IV_SIZE..at + SENC_IVS_OFFSET + k * IV_SIZE + IV_SIZE])
    decreases n
  {
    if k < n - 1 {
      VectorsAt(memory, at, n - 1, k);
    }
  }

  /**
   * From the bytes of the file to the decrypter: after any run of searches that meet the same
   * box wherever they meet the same moof, a packet that starts in entry k of a moof gets the
   * k-th eight bytes behind the header of its `senc` box, followed by zeros.
   */
  lemma FileVector(scans: seq<Scan>, packetsPerMoof: nat, frames: nat, n: nat, p: nat, k: nat, pts: int)
    requires AllValid(scans)
    requires Consistent(AllBoxes(scans), packetsPerMoof)
    requires n < |scans| && frames > 0
    requires scans[n].at <= p && p + 4 < scans[n].at + scans[n].size && Spelled(scans[n].memory, p, "senc")
    requires p + 12 <= |scans[n].memory| && k < Field32(scans[n].memory, p + 8)
    requires var entry := scans[n].moof * packetsPerMoof + k; entry * frames <= pts < (entry + 1) * frames
    ensures var from := p + 12 + 8 * k;
            from + 8 <= |scans[n].memory|
            && VectorFor(ScannedAll(scans, packetsPerMoof), TruncDiv(pts, frames))
            == Some(ToBytes(scans[n].memory[from..from + 8]) + [0, 0, 0, 0, 0, 0, 0, 0])
  {
    hide IsSenc, VectorCount, Vectors, VectorFor, TableOf, ScannedAll, AllBoxes, ToBytes, Consistent, Field32, Spelled, Zeros;
    SencBytes(scans[n].memory, p);
    EightZeros();
    assert scans[n].Tagged(p);
    ScansAreTable(scans, packetsPerMoof);
    var i := BoxInAll(scans, n, p);
    VectorRoundTrip(AllBoxes(scans), packetsPerMoof, frames, i, k, pts);
    VectorsAt(scans[n].memory, p, VectorCount(scans[n].memory, p), k);
  }

  class DecoderAVCodec {
    var moofs: Moofs
    var ivs: map<int, nat>
    const packetsPerMoof: nat
    const framesPerEntryIndex: int

    constructor (packetsPerMoof: nat, framesPerEntryIndex: int)
      ensures this.packetsPerMoof == packetsPerMoof && this.framesPerEntryIndex == framesPerEntryIndex
      ensures moofs == Moofs(0, []) && ivs == map[]
    {
      this.packetsPerMoof := packetsPerMoof;
      this.framesPerEntryIndex := framesPerEntryIndex;
      moofs, ivs := Moofs(0, []), map[];
    }

    /** `moofIndex`. */
    method MoofIndex(byteOffset: nat) returns (r: int)
      requires moofs.Valid()
      ensures r == SearchFrom(moofs.frames, 0, moofs.offset, byteOffset)
      ensures Fits(moofs) ==> r == Lookup(moofs, 0, byteOffset)
    {
      SearchIsExact(moofs);
      hide ToInt32, Sum32, Fits;
      var startOffset: int := moofs.offset;
      var i := 0;
      while i < |moofs.frames|
        invariant i <= |moofs.frames|
        invariant SearchFrom(moofs.frames, 0, moofs.offset, byteOffset)
               == SearchFrom(moofs.frames, i, startOffset, byteOffset)
      {
        var endOffset := Sum32(startOffset, moofs.frames[i].referencedSize);
        if startOffset >= 0 && byteOffset >= startOffset && byteOffset < endOffset {
          return i;
        }
        startOffset := ToInt32(endOffset);
        i := i + 1;
      }
      return INVALID_MOOF_INDEX;
    }

    /** One record: swapped where it lies, then read as the packed struct. */
    method ReadRecord(data: array<bv8>, from: nat) returns (frame: SidxFrame)
      requires from + SIDX_RECORD <= data.Length
      modifies data
      ensures frame == FileRecord(ToBytes(old(data[from..from + SIDX_RECORD])))
      ensures frame.referencedSize == Field32(old(data[..]), from)
      ensures frame.subsegmentDuration == Field32(old(data[..]), from + 4)
      ensures frame.junk == Field32(old(data[..]), from + 8)
      ensures data[from + SIDX_RECORD..] == old(data[from + SIDX_RECORD..])
    {
      hide LoadStruct, FileRecord, LoadLE, LoadBE, Swapped, ToBytes, Field32;
      ghost var memory := data[..];
      ghost var record := memory[from..from + SIDX_RECORD];
      SwapEndians(data, from, SIDX_RECORD);
      SwappedParts(memory, from, SIDX_RECORD);
      ReversedBytes(record);
      ReversedRecord(ToBytes(record));
      RecordFields(memory, from);
      assert data[..][from..from + SIDX_RECORD] == data[from..from + SIDX_RECORD];
      assert data[..][from + SIDX_RECORD..] == data[from + SIDX_RECORD..];
      frame := LoadStruct(ToBytes(data[from..from + SIDX_RECORD]));
    }

    /** The `j`-th record joins the table. */
    method AddRecord(data: array<bv8>, base: nat, j: nat, ghost memory: seq<bv8>, ghost before: seq<SidxFrame>)
      requires base + 12 * j + 12 <= data.Length == |memory| && data[base + 12 * j..] == memory[base + 12 * j..]
      requires |moofs.frames| == |before| + j && before <= moofs.frames && TableRead(memory, base, moofs.frames, |before|, j)
      modifies this`moofs, data
      ensures moofs.offset == old(moofs.offset) && |moofs.frames| == |before| + j + 1 && before <= moofs.frames
      ensures TableRead(memory, base, moofs.frames, |before|, j + 1)
      ensures data[base + 12 * j + 12..] == memory[base + 12 * j + 12..]
    {
      hide TableRead, Field32, FileRecord, ToBytes;
      ghost var now := data[..];
      TailPart(now, memory, base + 12 * j, SIDX_RECORD);
      var frame := ReadRecord(data, base + j * SIDX_RECORD);
      TableGrows(memory, now, base, moofs.frames, |before|, j, frame);
      moofs := moofs.(frames := moofs.frames + [frame]);
    }

    /** The `sidx` branch of `avio_read`, for a box at `at` that is in memory whole. */
    method ParseSidx(data: array<bv8>, at: nat) returns (count: nat)
      requires at + SIDX_RECORDS_OFFSET <= data.Length
      requires at + SIDX_RECORDS_OFFSET + RecordCount(data[..], at) * SIDX_RECORD <= data.Length
      modifies this`moofs, data
      ensures count == RecordCount(old(data[..]), at)
      ensures count == 0x100 * old(data[at + 26]) as nat + old(data[at + 27]) as nat
      ensures moofs.offset == 28 + 12 * count
      ensures |moofs.frames| == |old(moofs.frames)| + count && old(moofs.frames) <= moofs.frames
      ensures TableRead(old(data[..]), at + 28, moofs.frames, |old(moofs.frames)|, count)
    {
      hide LoadStruct, FileRecord, LoadLE, LoadBE, ToBytes, Moofs.Start, Reversed, Field32, TableRead, Swapped;
      ghost var memory := data[..];
      assert memory[at + SIDX_COUNT_OFFSET..at + SIDX_COUNT_OFFSET + 2] == data[at + SIDX_COUNT_OFFSET..at + SIDX_COUNT_OFFSET + 2];
      count := LoadSwapped(data, at + SIDX_COUNT_OFFSET, 2);
      CountBytes(memory, at);
      var base := at + SIDX_RECORDS_OFFSET;
      ghost var before := moofs.frames;
      moofs := moofs.(offset := SIDX_RECORDS_OFFSET + count * SIDX_RECORD);
      NoTable(memory, base, moofs.frames);
      var j := 0;
      while j < count
        invariant j <= count && moofs.offset == SIDX_RECORDS_OFFSET + count * SIDX_RECORD
        invariant |moofs.frames| == |before| + j && before <= moofs.frames
        invariant data[base + j * SIDX_RECORD..] == memory[base + j * SIDX_RECORD..]
        invariant TableRead(memory, base, moofs.frames, |before|, j)
      {
        AddRecord(data, base, j, memory, before);
        j := j + 1;
      }
    }

    /** Reads the `senc` box at `at`, found in moof `moof`, into the table. */
    method ParseSenc(data: array<bv8>, at: nat, moof: nat)
      requires Whole(data[..], at)
      modifies this`ivs
      ensures ivs == Put(old(ivs), moof * packetsPerMoof, Vectors(data[..], at, VectorCount(data[..], at)))
    {
      hide LoadBE, ToBytes, Swapped, Put, Vectors;
      ghost var memory := data[..];
      var entryIndex := moof * packetsPerMoof;
      ghost var base := entryIndex;
      assert memory[at + SENC_COUNT_OFFSET..at + SENC_IVS_OFFSET] == data[at + SENC_COUNT_OFFSET..at + SENC_IVS_OFFSET];
      var count := LoadSwapped(data, at + SENC_COUNT_OFFSET, 4);
      PutNothing(ivs, base, memory, at);
      var k := 0;
      while k < count
        invariant k <= count && entryIndex == base + k
        invariant ivs == Put(old(ivs), base, Vectors(memory, at, k))
      {
        var from := at + SENC_IVS_OFFSET + k * IV_SIZE;
        assert memory[from..from + IV_SIZE] == data[from..from + IV_SIZE];
        var iv := LoadSwapped(data, from, IV_SIZE);
        PutNext(old(ivs), base, memory, at, k);
        ivs := ivs[entryIndex := iv];
        entryIndex := entryIndex + 1;
        k := k + 1;
      }
    }

    /** The search for `senc` tags in the moof of `size` bytes at `at`. */
    method ScanMoof(data: array<bv8>, at: nat, moof: nat, size: nat)
      requires |SENC| <= size && at + size <= data.Length
      requires AllWhole(data[..], at, at + size - |SENC|)
      modifies this`ivs
      ensures ivs == Scanned(old(ivs), data[..], moof * packetsPerMoof, at, at + size - |SENC|)
    {
      hide Put, Vectors, VectorCount, Whole;
      ghost var memory := data[..];
      var j := 0;
      while j < size - |SENC|
        invariant j <= size - |SENC|
        invariant ivs == Scanned(old(ivs), memory, moof * packetsPerMoof, at, at + j)
      {
        assert memory[at + j..at + j + |SENC|] == data[at + j..at + j + |SENC|];
        if data[at + j..at + j + |SENC|] == SENC {
          assert IsSenc(memory, at + j);
          ParseSenc(data, at + j, moof);
        }
        j := j + 1;
      }
    }

    /** Searches through moofs in memory, one after the other. */
    method ScanMoofs(buffers: seq<array<bv8>>, scans: seq<Scan>)
      requires |buffers| == |scans| && ivs == map[]
      requires AllValid(scans) && forall i :: 0 <= i < |scans| ==> buffers[i][..] == scans[i].memory
      modifies this`ivs
      ensures ivs == ScannedAll(scans, packetsPerMoof)
    {
      hide Scanned;
      for i := 0 to |scans|
        invariant ivs == ScannedAll(scans[..i], packetsPerMoof)
      {
        assert scans[..i + 1][..i] == scans[..i];
        ScanMoof(buffers[i], scans[i].at, scans[i].moof, scans[i].size);
      }
      assert scans[..|scans|] == scans;
    }

    /** The lookup in `runDecodeThread`, before a packet is decrypted. */
    method VectorOf(pts: int) returns (vector: Option<seq<byte>>)
      requires framesPerEntryIndex > 0
      ensures vector == VectorFor(ivs, TruncDiv(pts, framesPerEntryIndex))
    {
      hide StoreLE;
      var entryIndex := TruncDiv(pts, framesPerEntryIndex);
      if entryIndex == INVALID_ENTRY_INDEX || entryIndex !in ivs {
        return None;
      }
      var oldIv := StoreLE(ivs[entryIndex], IV_SIZE);
      var iv := new byte[CIPHER_IV_SIZE](i => 0);
      var i := 0;
      while i < IV_SIZE
        invariant i <= IV_SIZE
        invariant forall k :: 0 <= k < i ==> iv[k] == oldIv[IV_SIZE - k - 1]
        invariant forall k :: i <= k < CIPHER_IV_SIZE ==> iv[k] == 0
      {
        iv[i] := oldIv[IV_SIZE - i - 1];
        i := i + 1;
      }
      assert iv[..] == Reversed(oldIv) + Zeros(CIPHER_IV_SIZE - IV_SIZE);
      vector := Some(iv[..]);
    }
  }

  /** Two memories that agree from `from` on agree on what starts there and on what follows it. */
  lemma TailPart(a: seq<bv8>, b: seq<bv8>, from: nat, size: nat)
    requires from + size <= |a| == |b| && a[from..] == b[from..]
    ensures a[from..from + size] == b[from..from + size] && a[from + size..] == b[from + size..]
  {
    assert a[from..][..size] == a[from..from + size] && b[from..][..size] == b[from..from + size];
    assert a[from..][size..] == a[from + size..] && b[from..][size..] == b[from + size..];
  }

  /** The swap reverses its own stretch and leaves the rest alone. */
  lemma SwappedParts(memory: seq<bv8>, from: nat, size: nat)
    requires from + size <= |memory|
    ensures |Swapped(memory, from, size)| == |memory|
    ensures Swapped(memory, from, size)[from..from + size] == Reversed(memory[from..from + size])
    ensures Swapped(memory, from, size)[from + size..] == memory[from + size..]
  {
    hide Reversed;
  }
}
