/** The HTTP data provider: a cursor over a remote entity, read by range requests. */
module HttpProvider {
  import opened ByteOrder
  import opened Truncation

  const SEEK_SET: int := 0
  const SEEK_CUR: int := 1
  const SEEK_END: int := 2
  const EOF: int := -1

  const TWO_63: nat := 0x8000_0000_0000_0000
  const TWO_64: nat := 0x1_0000_0000_0000_0000

  /** Arithmetic on a 64-bit `size_t`. */
  function Wrap64(x: int): (r: nat)
    ensures r < TWO_64
  {
    x % TWO_64
  }

  lemma NoWrap(x: int)
    requires 0 <= x < 0x1_0000_0000_0000_0000
    ensures Wrap64(x) == x
  {
  }

  lemma WrapNegative(x: int)
    requires -0x1_0000_0000_0000_0000 <= x < 0
    ensures Wrap64(x) == x + 0x1_0000_0000_0000_0000
  {
  }

  /** Unsigned arithmetic finds the signed target, or something past any possible length. */
  lemma SeekTarget(origin: nat, k: int, length: nat)
    requires origin <= length < TWO_63 && 0 - TWO_63 <= k < TWO_63
    ensures if 0 <= origin + k <= length then Wrap64(origin + Wrap64(k)) == origin + k
            else Wrap64(origin + Wrap64(k)) > length
  {
    if k >= 0 {
      NoWrap(k);
      NoWrap(origin + k);
    } else {
      WrapNegative(k);
      if origin + k >= 0 {
        assert (origin + k + TWO_64) % TWO_64 == origin + k;
      } else {
        NoWrap(origin + k + TWO_64);
      }
    }
  }

  /**
   * What a server has for `Range: bytes=first-last` (section 14.1.2 of RFC 9110): both ends
   * inclusive, the last one clipped to the entity.
   */
  function RangeOf(entity: seq<byte>, first: nat, last: nat): seq<byte> {
    if first >= |entity| || last < first then []
    else entity[first..if last < |entity| then last + 1 else |entity|]
  }

  /** The bytes a full read of `n` bytes at `offset` yields. */
  function ReadAt(entity: seq<byte>, offset: nat, n: nat): (data: seq<byte>)
    requires offset <= |entity|
    ensures |data| == Min(n, |entity| - offset)
  {
    entity[offset..offset + Min(n, |entity| - offset)]
  }

  /** What successive reads of the given sizes yield. */
  function ReadAll(entity: seq<byte>, offset: nat, sizes: seq<nat>): (data: seq<byte>)
    requires offset <= |entity|
    ensures offset + |data| <= |entity|
    decreases |sizes|
  {
    if |sizes| == 0 then [] else
      var head := ReadAt(entity, offset, sizes[0]);
      head + ReadAll(entity, offset + |head|, sizes[1..])
  }

  function Sum(sizes: seq<nat>): nat {
    if |sizes| == 0 then 0 else sizes[0] + Sum(sizes[1..])
  }

  /** However they are cut, reads in a row return one slice, and stop only at the end. */
  lemma {:induction false} ReadsAreConsecutive(entity: seq<byte>, offset: nat, sizes: seq<nat>)
    requires offset <= |entity|
    ensures ReadAll(entity, offset, sizes) == ReadAt(entity, offset, Sum(sizes))
    decreases |sizes|
  {
    hide ReadAt;
    if |sizes| == 0 {
      ReadNothing(entity, offset);
    } else {
      var head := ReadAt(entity, offset, sizes[0]);
      ReadsAreConsecutive(entity, offset + |head|, sizes[1..]);
      ReadJoin(entity, offset, sizes[0], Sum(sizes[1..]));
    }
  }

  lemma ReadNothing(entity: seq<byte>, offset: nat)
    requires offset <= |entity|
    ensures ReadAt(entity, offset, 0) == []
  {
  }

  lemma ReadJoin(entity: seq<byte>, offset: nat, m: nat, n: nat)
    requires offset <= |entity|
    ensures ReadAt(entity, offset, m + n)
         == ReadAt(entity, offset, m) + ReadAt(entity, offset + |ReadAt(entity, offset, m)|, n)
  {
  }

  class DataProviderHTTP {
    const content: seq<byte>
    /** Whether the server always answers a range in full; otherwise it may send less, or nothing. */
    const complete: bool
    var offset: nat

    ghost predicate Valid()
      reads this
    {
      offset <= |content| < TWO_63
    }

    constructor (content: seq<byte>, complete: bool)
      requires |content| < TWO_63
      ensures Valid() && this.content == content && this.complete == complete && offset == 0
    {
      this.content := content;
      this.complete := complete;
      offset := 0;
    }

    /** `read(ptr, size, nmemb)`, for at least one byte: a range request cannot ask for less. */
    method Read(size: nat, nmemb: nat) returns (data: seq<byte>)
      requires Valid() && 1 <= size * nmemb < TWO_63
      modifies this
      ensures Valid() && offset == old(offset) + |data|
      ensures |data| <= size * nmemb && data == content[old(offset)..offset]
      ensures complete ==> data == ReadAt(content, old(offset), size * nmemb)
    {
      data := ReadBytes(size * nmemb);
    }

    method ReadBytes(wanted: nat) returns (data: seq<byte>)
      requires Valid() && 1 <= wanted < TWO_63
      modifies this
      ensures Valid() && offset == old(offset) + |data|
      ensures |data| <= wanted && data == content[old(offset)..offset]
      ensures complete ==> data == ReadAt(content, old(offset), wanted)
    {
      hide Wrap64;
      if offset >= |content| {
        return [];
      }
      NoWrap(wanted);
      NoWrap(offset + wanted);
      NoWrap(offset + wanted - 1);
      var newOffset := Wrap64(Wrap64(offset + Wrap64(wanted)) - 1);
      data := RangeOf(content, offset, newOffset);
      if !complete {
        var sent: nat :| sent <= |data|;
        data := data[..sent];
      }
      offset := offset + |data|;
    }

    /** In range the target is reached; out of range nothing moves; an unknown origin means 0. */
    method Seek(k: int, whence: int) returns (r: int)
      requires Valid() && 0 - TWO_63 <= k < TWO_63
      modifies this
      ensures Valid()
      ensures whence in {0, 1, 2} ==>
                var origin := if whence == 0 then 0 else if whence == 1 then old(offset) else |content|;
                if 0 <= origin + k <= |content| then r == 0 && offset == origin + k
                else r == -1 && offset == old(offset)
      ensures whence !in {0, 1, 2} ==> r == 0 && offset == 0
    {
      hide Wrap64;
      SeekTarget(0, k, |content|);
      NoWrap(Wrap64(k));
      SeekTarget(offset, k, |content|);
      SeekTarget(|content|, k, |content|);
      var newOffset := 0;
      if whence == SEEK_SET {
        newOffset := Wrap64(k);
      } else if whence == SEEK_CUR {
        newOffset := Wrap64(offset + Wrap64(k));
      } else if whence == SEEK_END {
        newOffset := Wrap64(|content| + Wrap64(k));
      }
      if newOffset > |content| {
        return EOF;
      }
      offset := newOffset;
      return 0;
    }

    method Tell() returns (position: nat)
      ensures position == offset
    {
      position := offset;
    }

    method Eof() returns (eof: bool)
      requires Valid()
      ensures eof <==> offset == |content|
    {
      eof := offset >= |content|;
    }
  }
}
