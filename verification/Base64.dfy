/** `base64_encode` and `base64_decode`; characters are ASCII bytes. */
module Base64 {

  const BASE64_CHARS: string :=
    "ABCDEFGHIJKLMNOPQRSTUVWXYZ" + "abcdefghijklmnopqrstuvwxyz" + "0123456789+/"

  const PAD: bv8 := 61

  /** `base64_chars[v]`: the letters, the digits, `+` and `/`. */
  function Letter(v: bv8): bv8
    requires v < 64
  {
    if v < 26 then v + 65
    else if v < 52 then v + 71
    else if v < 62 then v - 4
    else if v == 62 then 43
    else 47
  }

  predicate IsBase64(c: bv8) {
    65 <= c <= 90 || 97 <= c <= 122 || 48 <= c <= 57 || c == 43 || c == 47
  }

  /** `base64_chars.find(c)` in an `unsigned char`: 255 when there is none. */
  function Find(c: bv8): bv8 {
    if 65 <= c <= 90 then c - 65
    else if 97 <= c <= 122 then c - 71
    else if 48 <= c <= 57 then c + 4
    else if c == 43 then 62
    else if c == 47 then 63
    else 255
  }

  lemma FindLetter(v: bv8)
    requires v < 64
    ensures IsBase64(Letter(v)) && Letter(v) != PAD && Find(Letter(v)) == v
  {
  }

  lemma LetterFind(c: bv8)
    ensures IsBase64(c) <==> Find(c) < 64
    ensures IsBase64(c) ==> Letter(Find(c)) == c && c != PAD
  {
  }

  /** The characters are those of the string. */
  lemma LetterIs(v: bv8)
    requires v < 64
    ensures |BASE64_CHARS| == 64 && Letter(v) as int == BASE64_CHARS[v as int] as int
  {
  }

  /** Whether `c` is the character at place `v` of the string. */
  ghost predicate Stands(c: bv8, v: bv8) {
    v < 64 && |BASE64_CHARS| == 64 && BASE64_CHARS[v as int] as int == c as int
  }

  lemma LetterStands(v: bv8)
    requires v < 64
    ensures Stands(Letter(v), v)
  {
    LetterIs(v);
  }

  lemma FindIs(c: bv8)
    ensures IsBase64(c) ==> Stands(c, Find(c))
    ensures forall v :: Stands(c, v) ==> IsBase64(c) && c != PAD
  {
    hide Letter, Find, IsBase64;
    LetterFind(c);
    if IsBase64(c) {
      LetterIs(Find(c));
    }
    forall v | Stands(c, v)
      ensures IsBase64(c) && c != PAD
    {
      LetterIs(v);
      SameByte(Letter(v), c);
      FindLetter(v);
    }
  }

  lemma SameByte(a: bv8, b: bv8)
    requires a as int == b as int
    ensures a == b
  {
    assert a as int as bv8 == a && b as int as bv8 == b;
  }

  function First(a: bv8): (r: bv8)
    ensures r < 64
  {
    (a & 0xfc) >> 2
  }

  function Second(a: bv8, b: bv8): (r: bv8)
    ensures r < 64
  {
    ((a & 0x03) << 4) + ((b & 0xf0) >> 4)
  }

  function Third(b: bv8, c: bv8): (r: bv8)
    ensures r < 64
  {
    ((b & 0x0f) << 2) + ((c & 0xc0) >> 6)
  }

  function Fourth(c: bv8): (r: bv8)
    ensures r < 64
  {
    c & 0x3f
  }

  function Byte0(p: bv8, q: bv8): bv8 {
    (p << 2) + ((q & 0x30) >> 4)
  }

  function Byte1(q: bv8, r: bv8): bv8 {
    ((q & 0xf) << 4) + ((r & 0x3c) >> 2)
  }

  function Byte2(r: bv8, s: bv8): bv8 {
    ((r & 0x3) << 6) + s
  }

  /** The four six-bit digits are the 24 bits of the three bytes. */
  lemma GroupBits(a: bv8, b: bv8, c: bv8)
    ensures (a as bv24 << 16) | (b as bv24 << 8) | c as bv24
         == (First(a) as bv24 << 18) | (Second(a, b) as bv24 << 12) | (Third(b, c) as bv24 << 6) | Fourth(c) as bv24
  {
  }

  /** Bit `j` of a byte, and of a six-bit digit, the highest first. */
  function Bit8(b: bv8, j: nat): (r: bv8)
    requires j < 8
    ensures r < 2
  {
    (b >> (7 - j)) & 1
  }

  function Bit6(d: bv8, j: nat): (r: bv8)
    requires j < 6
    ensures r < 2
  {
    (d >> (5 - j)) & 1
  }

  /** Bit `n` of the bytes, zero behind the end, and of six-bit digits. */
  function BitOf(bytes: seq<bv8>, n: nat): (r: bv8)
    ensures r < 2
  {
    if n / 8 < |bytes| then Bit8(bytes[n / 8], n % 8) else 0
  }

  function DigitBit(digits: seq<bv8>, n: nat): (r: bv8)
    ensures r < 2
  {
    if n / 6 < |digits| then Bit6(digits[n / 6], n % 6) else 0
  }

  /** Six bits as a number. */
  function Six(a: bv8, b: bv8, c: bv8, d: bv8, e: bv8, f: bv8): (r: bv8)
    requires a < 2 && b < 2 && c < 2 && d < 2 && e < 2 && f < 2
    ensures r < 64
  {
    (a << 5) | (b << 4) | (c << 3) | (d << 2) | (e << 1) | f
  }

  /** The `k`-th six bits of the bytes. */
  function SixBits(bytes: seq<bv8>, k: nat): (r: bv8)
    ensures r < 64
  {
    Six(BitOf(bytes, 6 * k), BitOf(bytes, 6 * k + 1), BitOf(bytes, 6 * k + 2),
        BitOf(bytes, 6 * k + 3), BitOf(bytes, 6 * k + 4), BitOf(bytes, 6 * k + 5))
  }

  lemma GroupSix(a: bv8, b: bv8, c: bv8)
    ensures First(a) == Six(Bit8(a, 0), Bit8(a, 1), Bit8(a, 2), Bit8(a, 3), Bit8(a, 4), Bit8(a, 5))
    ensures Second(a, b) == Six(Bit8(a, 6), Bit8(a, 7), Bit8(b, 0), Bit8(b, 1), Bit8(b, 2), Bit8(b, 3))
    ensures Third(b, c) == Six(Bit8(b, 4), Bit8(b, 5), Bit8(b, 6), Bit8(b, 7), Bit8(c, 0), Bit8(c, 1))
    ensures Fourth(c) == Six(Bit8(c, 2), Bit8(c, 3), Bit8(c, 4), Bit8(c, 5), Bit8(c, 6), Bit8(c, 7))
  {
  }

  lemma NoBits()
    ensures forall j: nat :: j < 8 ==> Bit8(0, j) == 0
  {
    forall j: nat | j < 8
      ensures Bit8(0, j) == 0
    {
      if j == 0 {} else if j == 1 {} else if j == 2 {} else if j == 3 {} else if j == 4 {} else if j == 5 {} else if j == 6 {} else {}
    }
  }

  lemma UnpackPacked(a: bv8, b: bv8, c: bv8)
    ensures Byte0(First(a), Second(a, b)) == a
    ensures Byte1(Second(a, b), Third(b, c)) == b
    ensures Byte2(Third(b, c), Fourth(c)) == c
  {
  }

  lemma PackUnpacked(p: bv8, q: bv8, r: bv8, s: bv8)
    requires p < 64 && q < 64 && r < 64 && s < 64
    ensures First(Byte0(p, q)) == p
    ensures Second(Byte0(p, q), Byte1(q, r)) == q
    ensures Third(Byte1(q, r), Byte2(r, s)) == r
    ensures Fourth(Byte2(r, s)) == s
    ensures Second(Byte0(p, q), 0) == q <==> q & 0xf == 0
    ensures Third(Byte1(q, r), 0) == r <==> r & 0x3 == 0
  {
  }

  /** The encoding of section 4 of RFC 4648. */
  function Encoded(bytes: seq<bv8>): seq<bv8> {
    if |bytes| == 0 then []
    else if |bytes| == 1 then [Letter(First(bytes[0])), Letter(Second(bytes[0], 0)), PAD, PAD]
    else if |bytes| == 2 then
      [Letter(First(bytes[0])), Letter(Second(bytes[0], bytes[1])), Letter(Third(bytes[1], 0)), PAD]
    else Group(bytes[0], bytes[1], bytes[2]) + Encoded(bytes[3..])
  }

  function Group(a: bv8, b: bv8, c: bv8): seq<bv8> {
    [Letter(First(a)), Letter(Second(a, b)), Letter(Third(b, c)), Letter(Fourth(c))]
  }

  /** The characters that the decoder's loop goes on with. */
  predicate IsDigit(c: bv8) {
    c != PAD && IsBase64(c)
  }

  /** The leading characters that the decoder reads. */
  function Digits(text: seq<bv8>): (n: nat)
    ensures n <= |text|
    ensures forall k :: 0 <= k < n ==> IsDigit(text[k])
    ensures n < |text| ==> !IsDigit(text[n])
  {
    if |text| > 0 && IsDigit(text[0]) then 1 + Digits(text[1..]) else 0
  }

  /** The bytes of a run of base64 characters: a tail of one, two or three yields none, one or two. */
  function Unpacked(digits: seq<bv8>): seq<bv8> {
    if |digits| <= 1 then []
    else if |digits| == 2 then [Byte0(Find(digits[0]), Find(digits[1]))]
    else if |digits| == 3 then
      [Byte0(Find(digits[0]), Find(digits[1])), Byte1(Find(digits[1]), Find(digits[2]))]
    else Ungroup(digits[0], digits[1], digits[2], digits[3]) + Unpacked(digits[4..])
  }

  function Ungroup(p: bv8, q: bv8, r: bv8, s: bv8): seq<bv8> {
    [Byte0(Find(p), Find(q)), Byte1(Find(q), Find(r)), Byte2(Find(r), Find(s))]
  }

  function Decoded(text: seq<bv8>): seq<bv8> {
    Unpacked(text[..Digits(text)])
  }

  lemma DigitsNext(text: seq<bv8>, k: nat)
    requires k < |text| && IsDigit(text[k])
    ensures Digits(text[k..]) == 1 + Digits(text[k + 1..])
  {
    hide IsDigit;
    assert text[k..][1..] == text[k + 1..];
  }

  lemma SplitFront(text: seq<bv8>, k: nat, m: nat)
    requires k + m <= |text|
    ensures text[..k + m] == text[..k] + text[k..][..m]
  {
  }

  lemma DigitsSkip(text: seq<bv8>)
    requires |text| >= 4
    requires forall k :: 0 <= k < 4 ==> IsDigit(text[k])
    ensures Digits(text) == 4 + Digits(text[4..])
    ensures text[..Digits(text)] == text[..4] + text[4..][..Digits(text[4..])]
  {
    hide IsDigit, Digits;
    DigitsNext(text, 0);
    DigitsNext(text, 1);
    DigitsNext(text, 2);
    DigitsNext(text, 3);
    assert text[0..] == text;
    SplitFront(text, 4, Digits(text[4..]));
  }

  lemma DigitsStop(text: seq<bv8>, n: nat)
    requires n < |text| && n < 4 && text[n] == PAD
    requires forall k :: 0 <= k < n ==> IsDigit(text[k])
    ensures Digits(text) == n
    decreases n
  {
    hide IsBase64;
    if n > 0 {
      DigitsStop(text[1..], n - 1);
    }
  }

  lemma GroupDigits(a: bv8, b: bv8, c: bv8)
    ensures var g := Group(a, b, c);
            && (forall k :: 0 <= k < 4 ==> IsDigit(g[k]))
            && Ungroup(g[0], g[1], g[2], g[3]) == [a, b, c]
  {
    hide IsBase64, Find, Letter, First, Second, Third, Fourth, Byte0, Byte1, Byte2;
    FindLetter(First(a));
    FindLetter(Second(a, b));
    FindLetter(Third(b, c));
    FindLetter(Fourth(c));
    UnpackPacked(a, b, c);
  }

  /** A full group in front of an encoding. */
  lemma EncodedGroup(bytes: seq<bv8>)
    requires |bytes| >= 3
    ensures Encoded(bytes) == Group(bytes[0], bytes[1], bytes[2]) + Encoded(bytes[3..])
    ensures Encoded(bytes)[..4] == Group(bytes[0], bytes[1], bytes[2])
    ensures Encoded(bytes)[4..] == Encoded(bytes[3..])
    ensures Digits(Encoded(bytes)) == 4 + Digits(Encoded(bytes[3..]))
  {
    hide IsBase64, Letter, First, Second, Third, Fourth, Find, Byte0, Byte1, Byte2;
    GroupDigits(bytes[0], bytes[1], bytes[2]);
    var text := Encoded(bytes);
    assert text[..4] == Group(bytes[0], bytes[1], bytes[2]) && text[4..] == Encoded(bytes[3..]);
    DigitsSkip(text);
  }

  /** How many padding characters `n` bytes need. */
  function Padding(n: nat): nat {
    if n % 3 == 0 then 0 else 3 - n % 3
  }

  /** The length is four characters for every three bytes begun. */
  lemma {:induction false} EncodedLength(bytes: seq<bv8>)
    ensures |Encoded(bytes)| == 4 * ((|bytes| + 2) / 3)
  {
    hide Letter, First, Second, Third, Fourth;
    if |bytes| >= 3 {
      EncodedLength(bytes[3..]);
    }
  }

  lemma OnePadding(a: bv8)
    ensures Digits(Encoded([a])) == 2
  {
    hide IsBase64, Letter, First, Second, Third, Fourth, Ungroup;
    GroupDigits(a, 0, 0);
    hide Digits;
    DigitsStop(Encoded([a]), 2);
  }

  lemma TwoPadding(a: bv8, b: bv8)
    ensures Digits(Encoded([a, b])) == 3
  {
    hide IsBase64, Letter, First, Second, Third, Fourth, Ungroup;
    GroupDigits(a, b, 0);
    hide Digits;
    DigitsStop(Encoded([a, b]), 3);
  }

  lemma ShortPadding(bytes: seq<bv8>)
    requires |bytes| < 3
    ensures Digits(Encoded(bytes)) == |Encoded(bytes)| - Padding(|bytes|)
    ensures forall k :: Digits(Encoded(bytes)) <= k < |Encoded(bytes)| ==> Encoded(bytes)[k] == PAD
  {
    hide IsBase64, Letter, First, Second, Third, Fourth, Digits;
    if |bytes| == 1 {
      assert bytes == [bytes[0]];
      OnePadding(bytes[0]);
    } else if |bytes| == 2 {
      assert bytes == [bytes[0], bytes[1]];
      TwoPadding(bytes[0], bytes[1]);
    }
  }

  lemma PaddingGroup(n: nat)
    requires n >= 3
    ensures Padding(n) == Padding(n - 3)
  {
  }

  /** The padding fills the last group, behind base64 characters only. */
  lemma {:induction false} EncodedPadding(bytes: seq<bv8>)
    ensures Digits(Encoded(bytes)) == |Encoded(bytes)| - Padding(|bytes|)
    ensures forall k :: Digits(Encoded(bytes)) <= k < |Encoded(bytes)| ==> Encoded(bytes)[k] == PAD
  {
    hide IsBase64, Encoded, Digits, Group, Padding;
    if |bytes| < 3 {
      ShortPadding(bytes);
    } else {
      PaddingGroup(|bytes|);
      var text, rest := Encoded(bytes), Encoded(bytes[3..]);
      EncodedGroup(bytes);
      EncodedPadding(bytes[3..]);
      assert |text| == 4 + |rest|;
      forall k | Digits(text) <= k < |text|
        ensures text[k] == PAD
      {
        assert text[k] == text[4..][k - 4];
      }
    }
  }

  predicate AllDigits(text: seq<bv8>) {
    forall k :: 0 <= k < |text| ==> IsBase64(text[k])
  }

  /** Text in the form the encoder writes: full groups, then padding behind clear filler bits. */
  ghost predicate Canonical(text: seq<bv8>) {
    || text == []
    || (|text| == 4 && AllDigits(text[..2]) && text[2] == text[3] == PAD && Find(text[1]) & 0xf == 0)
    || (|text| == 4 && AllDigits(text[..3]) && text[3] == PAD && Find(text[2]) & 0x3 == 0)
    || (|text| >= 4 && AllDigits(text[..4]) && Canonical(text[4..]))
  }

  lemma Regroup(p: bv8, q: bv8, r: bv8, s: bv8)
    requires IsBase64(p) && IsBase64(q) && IsBase64(r) && IsBase64(s)
    ensures p != PAD && q != PAD && r != PAD && s != PAD
    ensures var u := Ungroup(p, q, r, s); Group(u[0], u[1], u[2]) == [p, q, r, s]
    ensures Letter(Second(Byte0(Find(p), Find(q)), 0)) == q <==> Find(q) & 0xf == 0
    ensures Letter(Third(Byte1(Find(q), Find(r)), 0)) == r <==> Find(r) & 0x3 == 0
  {
    hide IsBase64, Find, Letter, First, Second, Third, Fourth, Byte0, Byte1, Byte2;
    LetterFind(p);
    LetterFind(q);
    LetterFind(r);
    LetterFind(s);
    PackUnpacked(Find(p), Find(q), Find(r), Find(s));
    FindLetter(Second(Byte0(Find(p), Find(q)), 0));
    FindLetter(Third(Byte1(Find(q), Find(r)), 0));
  }

  lemma OneByte(a: bv8)
    ensures Decoded(Encoded([a])) == [a]
  {
    hide IsBase64, Find, Letter, First, Second, Third, Fourth, Byte0, Byte1, Byte2;
    var g := Group(a, 0, 0);
    GroupDigits(a, 0, 0);
    assert Ungroup(g[0], g[1], g[2], g[3])[0] == a;
    DigitsStop([g[0], g[1], PAD, PAD], 2);
    assert Encoded([a]) == [g[0], g[1], PAD, PAD];
  }

  lemma TwoBytes(a: bv8, b: bv8)
    ensures Decoded(Encoded([a, b])) == [a, b]
  {
    hide IsBase64, Find, Letter, First, Second, Third, Fourth, Byte0, Byte1, Byte2;
    var g := Group(a, b, 0);
    GroupDigits(a, b, 0);
    assert Ungroup(g[0], g[1], g[2], g[3])[..2] == [a, b];
    DigitsStop([g[0], g[1], g[2], PAD], 3);
    assert Encoded([a, b]) == [g[0], g[1], g[2], PAD];
  }

  /** Decoding gives back every byte string. */
  lemma {:induction false} RoundTrip(bytes: seq<bv8>)
    ensures Decoded(Encoded(bytes)) == bytes
  {
    hide IsBase64, Encoded, Decoded, Ungroup, Group;
    if |bytes| == 0 {
      NothingEncoded();
    } else if |bytes| == 1 {
      assert bytes == [bytes[0]];
      OneByte(bytes[0]);
    } else if |bytes| == 2 {
      assert bytes == [bytes[0], bytes[1]];
      TwoBytes(bytes[0], bytes[1]);
    } else {
      var g := Group(bytes[0], bytes[1], bytes[2]);
      var text := Encoded(bytes);
      EncodedGroup(bytes);
      GroupDigits(bytes[0], bytes[1], bytes[2]);
      assert forall k :: 0 <= k < 4 ==> text[k] == text[..4][k];
      DecodedGroup(text);
      RoundTrip(bytes[3..]);
      assert bytes == bytes[..3] + bytes[3..];
    }
  }

  lemma {:induction false} EncodedIsCanonical(bytes: seq<bv8>)
    ensures Canonical(Encoded(bytes))
  {
    hide IsBase64, Find, Letter, First, Second, Third, Fourth, Byte0, Byte1, Byte2;
    var text := Encoded(bytes);
    if |bytes| == 0 {
    } else if |bytes| == 1 {
      GroupDigits(bytes[0], 0, 0);
      FindLetter(Second(bytes[0], 0));
      PadClear(bytes[0]);
    } else if |bytes| == 2 {
      GroupDigits(bytes[0], bytes[1], 0);
      FindLetter(Third(bytes[1], 0));
      PadClear(bytes[1]);
    } else {
      GroupDigits(bytes[0], bytes[1], bytes[2]);
      assert text[..4] == Group(bytes[0], bytes[1], bytes[2]) && text[4..] == Encoded(bytes[3..]);
      EncodedIsCanonical(bytes[3..]);
    }
  }

  lemma PadClear(a: bv8)
    ensures Second(a, 0) & 0xf == 0 && Third(a, 0) & 0x3 == 0
  {
  }

  lemma NothingEncoded()
    ensures Encoded([]) == [] && Decoded([]) == []
  {
  }

  lemma PadIsNoDigit()
    ensures !IsBase64(PAD)
  {
  }

  lemma TwoDigits(p: bv8, q: bv8)
    requires IsBase64(p) && IsBase64(q) && Find(q) & 0xf == 0
    ensures Encoded(Decoded([p, q, PAD, PAD])) == [p, q, PAD, PAD]
  {
    hide IsBase64, Find, Letter, First, Second, Third, Fourth, Byte0, Byte1, Byte2;
    PadIsNoDigit();
    Regroup(p, q, p, p);
    DigitsStop([p, q, PAD, PAD], 2);
    assert Decoded([p, q, PAD, PAD]) == [Byte0(Find(p), Find(q))];
  }

  lemma ThreeDigits(p: bv8, q: bv8, r: bv8)
    requires IsBase64(p) && IsBase64(q) && IsBase64(r) && Find(r) & 0x3 == 0
    ensures Encoded(Decoded([p, q, r, PAD])) == [p, q, r, PAD]
  {
    hide IsBase64, Find, Letter, First, Second, Third, Fourth, Byte0, Byte1, Byte2;
    PadIsNoDigit();
    Regroup(p, q, r, p);
    DigitsStop([p, q, r, PAD], 3);
    assert Decoded([p, q, r, PAD]) == [Byte0(Find(p), Find(q)), Byte1(Find(q), Find(r))];
  }

  /** A full group in front of a text adds its bytes in front. */
  lemma DecodedGroup(text: seq<bv8>)
    requires |text| >= 4 && AllDigits(text[..4])
    ensures Decoded(text) == Ungroup(text[0], text[1], text[2], text[3]) + Decoded(text[4..])
  {
    hide IsBase64, Find, Digits, Ungroup;
    forall k | 0 <= k < 4
      ensures IsDigit(text[k])
    {
      assert IsBase64(text[..4][k]);
      PadIsNoDigit();
    }
    DigitsSkip(text);
    UnpackedGroup(text[..Digits(text)]);
    assert text[..Digits(text)][4..] == text[4..][..Digits(text[4..])];
  }

  lemma UnpackedGroup(digits: seq<bv8>)
    requires |digits| >= 4
    ensures Unpacked(digits) == Ungroup(digits[0], digits[1], digits[2], digits[3]) + Unpacked(digits[4..])
  {
    hide Find, Byte0, Byte1, Byte2, Ungroup;
  }

  lemma EncodedJoin(a: bv8, b: bv8, c: bv8, rest: seq<bv8>)
    ensures Encoded([a, b, c] + rest) == Group(a, b, c) + Encoded(rest)
  {
    hide Letter, First, Second, Third, Fourth;
    assert ([a, b, c] + rest)[3..] == rest;
  }

  lemma {:induction false} CanonicalDecodes(text: seq<bv8>)
    requires Canonical(text)
    ensures Encoded(Decoded(text)) == text
  {
    hide IsBase64, Find, Encoded, Decoded, Group;
    PadIsNoDigit();
    if text == [] {
      NothingEncoded();
    } else if text[3] == PAD {
      if text[2] == PAD {
        assert text == [text[0], text[1], PAD, PAD];
        TwoDigits(text[0], text[1]);
      } else {
        assert text == [text[0], text[1], text[2], PAD];
        ThreeDigits(text[0], text[1], text[2]);
      }
    } else {
      var u := Ungroup(text[0], text[1], text[2], text[3]);
      Regroup(text[0], text[1], text[2], text[3]);
      DecodedGroup(text);
      CanonicalDecodes(text[4..]);
      EncodedJoin(u[0], u[1], u[2], Decoded(text[4..]));
      assert text == text[..4] + text[4..];
    }
  }

  /** Encoding restores a decoded text exactly when the text is in the encoder's form. */
  lemma DecodeEncode(text: seq<bv8>)
    ensures Encoded(Decoded(text)) == text <==> Canonical(text)
  {
    hide Encoded, Decoded, Canonical;
    EncodedIsCanonical(Decoded(text));
    if Canonical(text) {
      CanonicalDecodes(text);
    }
  }

  /** A byte further on in the bits. */
  lemma BitSkip(bytes: seq<bv8>, skip: nat, n: nat)
    requires skip <= |bytes|
    ensures BitOf(bytes[skip..], n) == BitOf(bytes, 8 * skip + n)
  {
    hide Bit8;
    assert (8 * skip + n) / 8 == skip + n / 8 && (8 * skip + n) % 8 == n % 8;
  }

  lemma SixSkip(bytes: seq<bv8>, k: nat)
    requires |bytes| >= 3
    ensures SixBits(bytes[3..], k) == SixBits(bytes, k + 4)
  {
    hide BitOf, Six;
    BitSkip(bytes, 3, 6 * k);
    BitSkip(bytes, 3, 6 * k + 1);
    BitSkip(bytes, 3, 6 * k + 2);
    BitSkip(bytes, 3, 6 * k + 3);
    BitSkip(bytes, 3, 6 * k + 4);
    BitSkip(bytes, 3, 6 * k + 5);
  }

  /** The first digits, as the encoder has them. */
  lemma SixOfGroup(bytes: seq<bv8>)
    requires |bytes| > 0
    ensures var b, c := if |bytes| > 1 then bytes[1] else 0, if |bytes| > 2 then bytes[2] else 0;
            && SixBits(bytes, 0) == First(bytes[0]) && SixBits(bytes, 1) == Second(bytes[0], b)
            && SixBits(bytes, 2) == Third(b, c) && SixBits(bytes, 3) == Fourth(c)
  {
    hide First, Second, Third, Fourth, Bit8, Six;
    NoBits();
    GroupSix(bytes[0], if |bytes| > 1 then bytes[1] else 0, if |bytes| > 2 then bytes[2] else 0);
  }

  ghost predicate SpellsAt(c: bv8, bytes: seq<bv8>, k: nat) {
    if 6 * k < 8 * |bytes| then Stands(c, SixBits(bytes, k)) else c as int == '=' as int
  }

  /** Whether `text` spells the bits of the bytes six by six, with `=` behind them. */
  ghost predicate Spells(text: seq<bv8>, bytes: seq<bv8>) {
    && |text| == 4 * ((|bytes| + 2) / 3)
    && forall k :: 0 <= k < |text| ==> SpellsAt(text[k], bytes, k)
  }

  /** The first characters, up to four. */
  lemma GroupSpells(bytes: seq<bv8>, k: nat)
    requires k < 4 && k < |Encoded(bytes)|
    ensures SpellsAt(Encoded(bytes)[k], bytes, k)
  {
    hide Letter, First, Second, Third, Fourth, SixBits, Stands;
    SixOfGroup(bytes);
    LetterStands(SixBits(bytes, k));
  }

  lemma LaterCharacter(bytes: seq<bv8>, k: nat)
    requires 4 <= k < |Encoded(bytes)|
    ensures |bytes| >= 3 && |Encoded(bytes)| == 4 + |Encoded(bytes[3..])|
    ensures Encoded(bytes)[k] == Encoded(bytes[3..])[k - 4] && SixBits(bytes[3..], k - 4) == SixBits(bytes, k)
  {
    hide Letter, First, Second, Third, Fourth, SixBits;
    SixSkip(bytes, k - 4);
  }

  lemma {:induction false} CharacterSpells(bytes: seq<bv8>, k: nat)
    requires k < |Encoded(bytes)|
    ensures SpellsAt(Encoded(bytes)[k], bytes, k)
  {
    hide Encoded, SixBits, Stands;
    if k < 4 {
      GroupSpells(bytes, k);
    } else {
      LaterCharacter(bytes, k);
      CharacterSpells(bytes[3..], k - 4);
    }
  }

  lemma EncodedSpells(bytes: seq<bv8>)
    ensures Spells(Encoded(bytes), bytes)
  {
    hide Encoded, SixBits, SpellsAt;
    EncodedLength(bytes);
    forall k | 0 <= k < |Encoded(bytes)|
      ensures SpellsAt(Encoded(bytes)[k], bytes, k)
    {
      CharacterSpells(bytes, k);
    }
  }

  lemma Bits0(p: bv8, q: bv8, n: nat)
    requires n < 8 && p < 64 && q < 64
    ensures Bit8(Byte0(p, q), n) == if n < 6 then Bit6(p, n) else Bit6(q, n - 6)
  {
    if n == 0 {} else if n == 1 {} else if n == 2 {} else if n == 3 {} else if n == 4 {} else if n == 5 {} else if n == 6 {} else {}
  }

  lemma Bits1(q: bv8, r: bv8, n: nat)
    requires n < 8 && q < 64 && r < 64
    ensures Bit8(Byte1(q, r), n) == if n < 4 then Bit6(q, n + 2) else Bit6(r, n - 4)
  {
    if n == 0 {} else if n == 1 {} else if n == 2 {} else if n == 3 {} else if n == 4 {} else if n == 5 {} else if n == 6 {} else {}
  }

  lemma NoCarry(r: bv8, s: bv8)
    requires s < 64
    ensures Byte2(r, s) == (r << 6) | s
  {
  }

  lemma Bits2(r: bv8, s: bv8, n: nat)
    requires n < 8 && r < 64 && s < 64
    ensures Bit8(Byte2(r, s), n) == if n < 2 then Bit6(r, n + 4) else Bit6(s, n - 2)
  {
    hide Byte2;
    NoCarry(r, s);
    if n == 0 {} else if n == 1 {} else if n == 2 {} else if n == 3 {} else if n == 4 {} else if n == 5 {} else if n == 6 {} else {}
  }

  /** The digits of a run of characters. */
  ghost function Values(chars: seq<bv8>): seq<bv8> {
    seq(|chars|, i requires 0 <= i < |chars| => Find(chars[i]))
  }

  /** Whether the bytes have the bits of the digits, as many whole bytes as there are. */
  ghost predicate SameBits(bytes: seq<bv8>, digits: seq<bv8>) {
    && |bytes| == 6 * |digits| / 8
    && forall n :: 0 <= n < 8 * |bytes| ==> BitOf(bytes, n) == DigitBit(digits, n)
  }

  lemma GroupSameBits(bytes: seq<bv8>, digits: seq<bv8>, n: nat)
    requires forall i :: 0 <= i < |digits| ==> digits[i] < 64
    requires n < 24 && n / 8 < |bytes| && n / 8 + 1 < |digits|
    requires bytes[0] == Byte0(digits[0], digits[1])
    requires |bytes| > 1 && n >= 8 ==> bytes[1] == Byte1(digits[1], digits[2])
    requires |bytes| > 2 && n >= 16 ==> bytes[2] == Byte2(digits[2], digits[3])
    ensures BitOf(bytes, n) == DigitBit(digits, n)
  {
    hide Byte0, Byte1, Byte2, Bit8, Bit6;
    if n < 8 {
      Bits0(digits[0], digits[1], n);
    } else if n < 16 {
      Bits1(digits[1], digits[2], n - 8);
    } else {
      Bits2(digits[2], digits[3], n - 16);
    }
  }

  lemma DigitSkip(digits: seq<bv8>, n: nat)
    requires |digits| >= 4
    ensures DigitBit(digits[4..], n) == DigitBit(digits, 24 + n)
  {
    hide Bit6;
    assert (24 + n) / 6 == 4 + n / 6 && (24 + n) % 6 == n % 6;
  }

  lemma {:induction false} UnpackedSameBits(chars: seq<bv8>)
    requires forall k :: 0 <= k < |chars| ==> IsBase64(chars[k])
    ensures SameBits(Unpacked(chars), Values(chars))
  {
    hide IsBase64, Find, Byte0, Byte1, Byte2, BitOf, DigitBit;
    var bytes, digits := Unpacked(chars), Values(chars);
    forall i | 0 <= i < |chars|
      ensures digits[i] < 64
    {
      LetterFind(chars[i]);
    }
    if |chars| >= 4 {
      UnpackedSameBits(chars[4..]);
      assert Values(chars[4..]) == digits[4..];
      assert bytes[3..] == Unpacked(chars[4..]);
    }
    forall n | 0 <= n < 8 * |bytes|
      ensures BitOf(bytes, n) == DigitBit(digits, n)
    {
      if n < 24 {
        GroupSameBits(bytes, digits, n);
      } else {
        BitSkip(bytes, 3, n - 24);
        DigitSkip(digits, n - 24);
      }
    }
  }

  /** Whether `digits` are the places of the leading characters of `text` that are in the string, and no more. */
  ghost predicate Reads(text: seq<bv8>, digits: seq<bv8>) {
    && |digits| <= |text|
    && (forall k :: 0 <= k < |digits| ==> Stands(text[k], digits[k]))
    && (|digits| < |text| ==> forall v :: !Stands(text[|digits|], v))
  }

  lemma DecodedReads(text: seq<bv8>) returns (digits: seq<bv8>)
    ensures Reads(text, digits) && SameBits(Decoded(text), digits)
  {
    var n := Digits(text);
    hide IsBase64, Find, Digits, Unpacked, SameBits, Stands;
    digits := Values(text[..n]);
    UnpackedSameBits(text[..n]);
    forall k | 0 <= k <= n && k < |text|
      ensures k < n ==> Stands(text[k], digits[k])
      ensures k == n ==> forall v :: !Stands(text[n], v)
    {
      FindIs(text[k]);
    }
  }

  /** `char_array_4` from `char_array_3`. */
  method Split(three: array<bv8>, four: array<bv8>)
    requires three.Length == 3 && four.Length == 4 && three != four
    modifies four
    ensures four[0] == First(three[0]) && four[1] == Second(three[0], three[1])
    ensures four[2] == Third(three[1], three[2]) && four[3] == Fourth(three[2])
  {
    four[0] := (three[0] & 0xfc) >> 2;
    four[1] := ((three[0] & 0x03) << 4) + ((three[1] & 0xf0) >> 4);
    four[2] := ((three[1] & 0x0f) << 2) + ((three[2] & 0xc0) >> 6);
    four[3] := three[2] & 0x3f;
  }

  /** The first `n` digits as characters. */
  method Spell(four: array<bv8>, n: nat) returns (letters: seq<bv8>)
    requires n <= four.Length && forall k :: 0 <= k < n ==> four[k] < 64
    ensures |letters| == n && forall k :: 0 <= k < n ==> letters[k] == Letter(four[k])
  {
    hide Letter;
    letters := [];
    for j := 0 to n
      invariant |letters| == j && forall k :: 0 <= k < j ==> letters[k] == Letter(four[k])
    {
      letters := letters + [Letter(four[j])];
    }
  }

  /** The last group: zero bytes fill it, padding replaces the characters they alone would make. */
  method EncodeTail(three: array<bv8>, four: array<bv8>, count: nat) returns (tail: seq<bv8>)
    requires three.Length == 3 && four.Length == 4 && three != four && 0 < count < 3
    modifies three, four
    ensures tail == Encoded(old(three[..count]))
  {
    hide Letter, First, Second, Third, Fourth;
    var i := count;
    for j := i to 3
      invariant three[..count] == old(three[..count])
      invariant forall k :: count <= k < j ==> three[k] == 0
    {
      three[j] := 0;
    }
    Split(three, four);
    tail := Spell(four, i + 1);
    while i < 3
      invariant count <= i <= 3
      invariant |tail| == i + 1
      invariant forall k :: 0 <= k <= count ==> tail[k] == Letter(four[k])
      invariant forall k :: count < k < |tail| ==> tail[k] == PAD
    {
      tail := tail + [PAD];
      i := i + 1;
    }
  }

  /** The characters of three bytes. */
  method SpellGroup(three: array<bv8>, four: array<bv8>) returns (letters: seq<bv8>)
    requires three.Length == 3 && four.Length == 4 && three != four
    modifies four
    ensures letters == Group(three[0], three[1], three[2])
  {
    hide Letter, First, Second, Third, Fourth;
    Split(three, four);
    letters := Spell(four, 4);
    assert letters == [letters[0], letters[1], letters[2], letters[3]];
  }

  /** A full group in front of the rest. */
  method EncodeGroup(three: array<bv8>, four: array<bv8>, ghost rest: seq<bv8>) returns (letters: seq<bv8>)
    requires three.Length == 3 && four.Length == 4 && three != four
    requires |rest| >= 3 && three[0] == rest[0] && three[1] == rest[1] && three[2] == rest[2]
    modifies four
    ensures letters + Encoded(rest[3..]) == Encoded(rest)
  {
    hide Group, Encoded;
    EncodedGroup(rest);
    letters := SpellGroup(three, four);
  }

  /** `base64_encode`. */
  method Encode(bytes: seq<bv8>) returns (text: seq<bv8>)
    ensures text == Encoded(bytes) && Spells(text, bytes)
  {
    hide Encoded, Group, Spells;
    text := [];
    NothingEncoded();
    var three, four := new bv8[3], new bv8[4];
    var i, next := 0, 0;
    while next < |bytes|
      invariant i < 3 && i <= next <= |bytes|
      invariant forall k :: 0 <= k < i ==> three[k] == bytes[next - i + k]
      invariant Encoded(bytes) == text + Encoded(bytes[next - i..])
    {
      three[i] := bytes[next];
      i, next := i + 1, next + 1;
      if i == 3 {
        ghost var rest := bytes[next - 3..];
        assert rest[3..] == bytes[next..];
        var letters := EncodeGroup(three, four, rest);
        text := text + letters;
        i := 0;
      }
    }
    assert bytes[next - i..] == three[..i];
    if i > 0 {
      var tail := EncodeTail(three, four, i);
      text := text + tail;
    }
    EncodedSpells(bytes);
  }

  /** `char_array_3` from the characters of `char_array_4`. */
  method Join(four: array<bv8>, three: array<bv8>)
    requires three.Length == 3 && four.Length == 4 && three != four
    modifies three, four
    ensures three[..] == old(Ungroup(four[0], four[1], four[2], four[3]))
  {
    hide Find, Byte0, Byte1, Byte2;
    for i := 0 to 4
      invariant forall k :: 0 <= k < i ==> four[k] == Find(old(four[k]))
      invariant forall k :: i <= k < 4 ==> four[k] == old(four[k])
    {
      four[i] := Find(four[i]);
    }
    Shift(four, three);
  }

  /** The three bytes of four digits. */
  method Shift(four: array<bv8>, three: array<bv8>)
    requires three.Length == 3 && four.Length == 4 && three != four
    modifies three
    ensures three[..] == [Byte0(four[0], four[1]), Byte1(four[1], four[2]), Byte2(four[2], four[3])]
  {
    three[0] := (four[0] << 2) + ((four[1] & 0x30) >> 4);
    three[1] := ((four[1] & 0xf) << 4) + ((four[2] & 0x3c) >> 2);
    three[2] := ((four[2] & 0x3) << 6) + four[3];
  }

  /** The last characters: whatever fills the missing lanes reaches no byte that is kept. */
  method DecodeTail(four: array<bv8>, three: array<bv8>, count: nat) returns (tail: seq<bv8>)
    requires three.Length == 3 && four.Length == 4 && three != four && 0 < count < 4
    modifies three, four
    ensures tail == Unpacked(old(four[..count]))
  {
    hide Find, Byte0, Byte1, Byte2;
    for j := count to 4
      invariant four[..count] == old(four[..count])
    {
      four[j] := 0;
    }
    ghost var digits := four[..count];
    assert forall k :: 0 <= k < count ==> four[k] == digits[k];
    Join(four, three);
    tail := [];
    for j := 0 to count - 1
      invariant tail == three[..j]
    {
      tail := tail + [three[j]];
    }
  }

  lemma NothingUnpacked()
    ensures Unpacked([]) == []
  {
  }

  /** Whether the group in progress holds the last `count` characters before `next`. */
  ghost predicate Filled(four: seq<bv8>, digits: seq<bv8>, count: nat, next: nat) {
    count <= next <= |digits| && count <= |four| && four[..count] == digits[next - count..next]
  }

  /** What the characters from `from` on still yield. */
  ghost function Ahead(digits: seq<bv8>, from: nat): seq<bv8> {
    if from <= |digits| then Unpacked(digits[from..]) else []
  }

  /** `base64_decode`. */
  method Decode(text: seq<bv8>) returns (bytes: seq<bv8>, ghost values: seq<bv8>)
    ensures bytes == Decoded(text) && Reads(text, values) && SameBits(bytes, values)
  {
    DecodeStarts(text);
    hide *;
    bytes := [];
    var four, three := new bv8[4], new bv8[3];
    var i, next := 0, 0;
    ghost var n, digits := Digits(text), Leading(text);
    NothingFilled(four[..], digits);
    while next < |text| && IsDigit(text[next])
      invariant i < 4 && i <= next <= n && Filled(four[..], digits, i, next)
      invariant Decoded(text) == bytes + Ahead(digits, next - i)
    {
      GoesOn(text, next);
      var group, left := DecodeStep(four, three, i, text[next], digits, next);
      Together(bytes, group, Ahead(digits, next + 1 - left));
      bytes := bytes + group;
      i, next := left, next + 1;
    }
    GoesOn(text, next);
    var tail := DecodeRest(four, three, i, digits);
    bytes := bytes + tail;
    values := DecodedReads(text);
  }

  ghost function Leading(text: seq<bv8>): seq<bv8> {
    text[..Digits(text)]
  }

  lemma DecodeStarts(text: seq<bv8>)
    ensures |Leading(text)| == Digits(text) && Decoded(text) == [] + Ahead(Leading(text), 0)
  {
    hide Unpacked;
    assert Leading(text)[0..] == Leading(text);
  }

  lemma NothingFilled(four: seq<bv8>, digits: seq<bv8>)
    ensures Filled(four, digits, 0, 0)
  {
  }

  /** The loop goes on exactly while there are leading characters left. */
  lemma GoesOn(text: seq<bv8>, next: nat)
    requires next <= Digits(text)
    ensures Digits(text) <= |text| && |Leading(text)| == Digits(text)
    ensures next < |text| && IsDigit(text[next]) <==> next < Digits(text)
    ensures next < Digits(text) ==> Leading(text)[next] == text[next]
  {
    hide IsDigit;
  }

  lemma Together(a: seq<bv8>, b: seq<bv8>, c: seq<bv8>)
    ensures a + (b + c) == (a + b) + c
  {
  }

  /** One character: it is kept until its group is full. */
  method DecodeStep(four: array<bv8>, three: array<bv8>, count: nat, c: bv8, ghost digits: seq<bv8>, ghost next: nat)
    returns (group: seq<bv8>, left: nat)
    requires three.Length == 3 && four.Length == 4 && three != four && count < 4
    requires next < |digits| && digits[next] == c && Filled(four[..], digits, count, next)
    modifies three, four
    ensures left == (if count == 3 then 0 else count + 1) && left <= next + 1 && Filled(four[..], digits, left, next + 1)
    ensures Ahead(digits, next - count) == group + Ahead(digits, next + 1 - left)
  {
    hide Unpacked;
    ghost var before := four[..];
    four[count] := c;
    Fuller(before, four[..], digits, count, next);
    if count == 3 {
      GroupAhead(four[..], digits, next + 1);
      ghost var rest := digits[next - 3..];
      group := DecodeGroup(four, three, rest);
      left := 0;
    } else {
      group, left := [], count + 1;
    }
  }

  lemma Fuller(before: seq<bv8>, after: seq<bv8>, digits: seq<bv8>, count: nat, next: nat)
    requires next < |digits| && count < |before| == |after| && Filled(before, digits, count, next)
    requires after == before[count := digits[next]]
    ensures Filled(after, digits, count + 1, next + 1)
  {
    assert after[..count + 1] == before[..count] + [digits[next]];
    assert digits[next - count..next + 1] == digits[next - count..next] + [digits[next]];
  }

  lemma GroupAhead(four: seq<bv8>, digits: seq<bv8>, next: nat)
    requires 4 <= next <= |digits| && |four| == 4 && Filled(four, digits, 4, next)
    ensures four == digits[next - 4..][..4] && digits[next - 4..][4..] == digits[next..]
  {
    assert four == four[..4];
  }

  /** What is left over at the end. */
  method DecodeRest(four: array<bv8>, three: array<bv8>, count: nat, ghost digits: seq<bv8>) returns (tail: seq<bv8>)
    requires three.Length == 3 && four.Length == 4 && three != four && count < 4
    requires Filled(four[..], digits, count, |digits|)
    modifies three, four
    ensures tail == Ahead(digits, |digits| - count)
  {
    hide Unpacked;
    assert four[..][..count] == four[..count];
    assert digits[|digits| - count..|digits|] == digits[|digits| - count..];
    if count > 0 {
      tail := DecodeTail(four, three, count);
    } else {
      NothingUnpacked();
      tail := [];
    }
  }

  /** A full group of characters. */
  method DecodeGroup(four: array<bv8>, three: array<bv8>, ghost rest: seq<bv8>) returns (group: seq<bv8>)
    requires three.Length == 3 && four.Length == 4 && three != four
    requires |rest| >= 4 && four[..] == rest[..4]
    modifies three, four
    ensures group + Unpacked(rest[4..]) == Unpacked(rest)
  {
    hide Find, Byte0, Byte1, Byte2, Ungroup, Unpacked;
    assert forall k :: 0 <= k < 4 ==> four[..][k] == rest[..4][k];
    UnpackedGroup(rest);
    Join(four, three);
    group := three[..];
  }
}
