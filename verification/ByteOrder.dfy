/** Bytes in memory and the integers the little-endian platforms of the library load from them. */
module ByteOrder {

  type byte = b: int | 0 <= b < 256

  function Pow256(n: nat): (p: nat)
    ensures p >= 1
  {
    if n == 0 then 1 else 256 * Pow256(n - 1)
  }

  /** The unsigned integer that `memcpy` into an integer variable yields. */
  function LoadLE(bytes: seq<byte>): (x: nat) {
    if |bytes| == 0 then 0 else bytes[0] + 256 * LoadLE(bytes[1..])
  }

  /** The `n` low bytes of `x` as they lie in memory. */
  function StoreLE(x: nat, n: nat): (bytes: seq<byte>)
    ensures |bytes| == n
  {
    if n == 0 then [] else [x % 256] + StoreLE(x / 256, n - 1)
  }

  /** The integer a big-endian field denotes. */
  function LoadBE(bytes: seq<byte>): nat {
    if |bytes| == 0 then 0 else 256 * LoadBE(bytes[..|bytes| - 1]) + bytes[|bytes| - 1]
  }

  function Reversed<T>(s: seq<T>): (r: seq<T>)
    ensures |r| == |s|
    ensures forall i :: 0 <= i < |s| ==> r[i] == s[|s| - 1 - i]
  {
    if |s| == 0 then [] else Reversed(s[1..]) + [s[0]]
  }

  lemma {:induction false} LoadBound(bytes: seq<byte>)
    ensures LoadLE(bytes) < Pow256(|bytes|)
  {
    if |bytes| > 0 {
      LoadBound(bytes[1..]);
    }
  }

  /** Storing what was loaded restores every byte. */
  lemma {:induction false} StoreLoad(bytes: seq<byte>)
    ensures StoreLE(LoadLE(bytes), |bytes|) == bytes
  {
    if |bytes| > 0 {
      StoreLoad(bytes[1..]);
      var rest := LoadLE(bytes[1..]);
      assert (bytes[0] + 256 * rest) % 256 == bytes[0] && (bytes[0] + 256 * rest) / 256 == rest;
    }
  }

  /** Loading what was stored restores the integer, up to the width of the field. */
  lemma {:induction false} LoadStore(x: nat, n: nat)
    requires x < Pow256(n)
    ensures LoadLE(StoreLE(x, n)) == x
  {
    if n > 0 {
      LoadStore(x / 256, n - 1);
      assert StoreLE(x, n)[1..] == StoreLE(x / 256, n - 1);
    }
  }

  /** Reversing the bytes before a little-endian load reads a big-endian field. */
  lemma {:induction false} LoadReversed(bytes: seq<byte>)
    ensures LoadLE(Reversed(bytes)) == LoadBE(bytes)
  {
    if |bytes| > 0 {
      var last := |bytes| - 1;
      LoadReversed(bytes[..last]);
      assert Reversed(bytes)[1..] == Reversed(bytes[..last]);
    }
  }

  /** The value of a big-endian field of two or four bytes. */
  lemma BigEndian(bytes: seq<byte>)
    ensures |bytes| == 2 ==> LoadBE(bytes) == 0x100 * bytes[0] as int + bytes[1] as int
    ensures |bytes| == 4 ==>
              LoadBE(bytes) == 0x100_0000 * bytes[0] as int + 0x1_0000 * bytes[1] as int + 0x100 * bytes[2] as int + bytes[3] as int
  {
    if |bytes| == 2 {
      assert LoadBE(bytes[..1]) == 256 * LoadBE(bytes[..1][..0]) + bytes[0] && LoadBE([]) == 0;
    } else if |bytes| == 4 {
      BigEndian(bytes[..2]);
      assert LoadBE(bytes[..3]) == 256 * LoadBE(bytes[..2]) + bytes[2] by {
        assert bytes[..3][..2] == bytes[..2];
      }
    }
  }

  /** The value of a little-endian integer of one, two or four bytes. */
  lemma LittleEndian(bytes: seq<byte>)
    ensures |bytes| == 1 ==> LoadLE(bytes) == bytes[0] as int
    ensures |bytes| == 2 ==> LoadLE(bytes) == bytes[0] as int + 0x100 * bytes[1] as int
    ensures |bytes| == 4 ==>
              LoadLE(bytes) == bytes[0] as int + 0x100 * bytes[1] as int + 0x1_0000 * bytes[2] as int + 0x100_0000 * bytes[3] as int
  {
    if |bytes| == 2 {
      assert bytes[1..][1..] == [];
    } else if |bytes| == 4 {
      LittleEndian(bytes[2..]);
      assert bytes[1..][1..] == bytes[2..];
    }
  }

  lemma ReversedTwice<T>(s: seq<T>)
    ensures Reversed(Reversed(s)) == s
  {
  }

  /** Two's complement reading of an unsigned 16-bit value. */
  function Signed16(x: nat): int
    requires x < 0x1_0000
  {
    if x < 0x8000 then x else x - 0x1_0000
  }

  /** Two's complement reading of an unsigned 32-bit value. */
  function Signed32(x: nat): int
    requires x < 0x1_0000_0000
  {
    if x < 0x8000_0000 then x else x - 0x1_0000_0000
  }
}
