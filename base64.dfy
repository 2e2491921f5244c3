/** Base64 with the alphabet and padding of section 4 of RFC 4648, decoded
    the way Python's `base64.b64decode(s, validate=True)` decodes it in the
    CPython releases whose `binascii.a2b_base64(s, strict_mode=True)` also
    refuses `=` after complete quanta (3.12.13, for example): only alphabet
    characters, then exactly the `=` that complete the final quantum, and
    nothing after them. The unused low bits of a final group are not
    checked. */
module Base64 {
  import opened Wrappers

  type byte = b: int | 0 <= b < 256

  predicate IsBase64Char(c: char) {
    'A' <= c <= 'Z' || 'a' <= c <= 'z' || '0' <= c <= '9' || c == '+' || c == '/'
  }

  predicate AllBase64(s: string) {
    forall i :: 0 <= i < |s| ==> IsBase64Char(s[i])
  }

  /** The character that encodes the 6-bit value `i`. */
  function IndexToChar(i: nat): (c: char)
    requires i < 64
    ensures IsBase64Char(c)
  {
    if i < 26 then ('A' as int + i) as char
    else if i < 52 then ('a' as int + (i - 26)) as char
    else if i < 62 then ('0' as int + (i - 52)) as char
    else if i == 62 then '+'
    else '/'
  }

  /** The 6-bit value a character of the alphabet encodes. */
  function CharToIndex(c: char): (i: nat)
    requires IsBase64Char(c)
    ensures i < 64 && IndexToChar(i) == c
  {
    if 'A' <= c <= 'Z' then c as int - 'A' as int
    else if 'a' <= c <= 'z' then c as int - 'a' as int + 26
    else if '0' <= c <= '9' then c as int - '0' as int + 52
    else if c == '+' then 62
    else 63
  }

  lemma IndexRoundTrip(i: nat)
    requires i < 64
    ensures CharToIndex(IndexToChar(i)) == i
  {
  }

  // ---------------------------------------------------------------- encoding

  /** Three bytes as four characters. */
  function EncodeTriple(x: byte, y: byte, z: byte): (s: string)
    ensures |s| == 4 && AllBase64(s)
  {
    [IndexToChar(x / 4), IndexToChar((x % 4) * 16 + y / 16),
     IndexToChar((y % 16) * 4 + z / 64), IndexToChar(z % 64)]
  }

  /** A final pair of bytes as three characters, the low bits zero. */
  function EncodePair(x: byte, y: byte): (s: string)
    ensures |s| == 3 && AllBase64(s)
  {
    [IndexToChar(x / 4), IndexToChar((x % 4) * 16 + y / 16), IndexToChar((y % 16) * 4)]
  }

  /** A final single byte as two characters, the low bits zero. */
  function EncodeSingle(x: byte): (s: string)
    ensures |s| == 2 && AllBase64(s)
  {
    [IndexToChar(x / 4), IndexToChar((x % 4) * 16)]
  }

  /** The data characters of the encoding, without padding. */
  function EncodeData(b: seq<byte>): (s: string)
    ensures AllBase64(s)
    ensures |s| % 4 == (if |b| % 3 == 0 then 0 else |b| % 3 + 1)
    decreases |b|
  {
    if |b| == 0 then []
    else if |b| == 1 then EncodeSingle(b[0])
    else if |b| == 2 then EncodePair(b[0], b[1])
    else
      var q, rest := EncodeTriple(b[0], b[1], b[2]), EncodeData(b[3..]);
      assert forall i :: 0 <= i < |q + rest| ==> (q + rest)[i] == if i < 4 then q[i] else rest[i - 4];
      q + rest
  }

  /** The `=` characters that complete the final quantum. */
  function Padding(n: nat): string {
    if n % 3 == 1 then "==" else if n % 3 == 2 then "=" else ""
  }

  /** Standard base64 encoding with padding (`base64.b64encode`). */
  function Encode(b: seq<byte>): string {
    EncodeData(b) + Padding(|b|)
  }

  // ---------------------------------------------------------------- decoding

  /** The number of `=` characters that end `s`. */
  function TrailingPads(s: string): (n: nat)
    ensures n <= |s|
    ensures forall i :: |s| - n <= i < |s| ==> s[i] == '='
    ensures n < |s| ==> s[|s| - n - 1] != '='
    decreases |s|
  {
    if |s| > 0 && s[|s| - 1] == '=' then 1 + TrailingPads(s[..|s| - 1]) else 0
  }

  function DecodeQuad(q: string): seq<byte>
    requires |q| == 4 && AllBase64(q)
  {
    var c0, c1, c2, c3 := CharToIndex(q[0]), CharToIndex(q[1]), CharToIndex(q[2]), CharToIndex(q[3]);
    [c0 * 4 + c1 / 16, (c1 % 16) * 16 + c2 / 4, (c2 % 4) * 64 + c3]
  }

  /** Decodes data characters four at a time; a final group of two or three
      characters yields one or two bytes and its unused low bits are
      dropped, as `binascii.a2b_base64` drops them. */
  function DecodeData(d: string): (b: seq<byte>)
    requires AllBase64(d) && |d| % 4 != 1
    ensures |b| == |d| / 4 * 3 + (if |d| % 4 == 0 then 0 else |d| % 4 - 1)
    decreases |d|
  {
    if |d| == 0 then []
    else if |d| == 2 then [CharToIndex(d[0]) * 4 + CharToIndex(d[1]) / 16]
    else if |d| == 3 then
      [CharToIndex(d[0]) * 4 + CharToIndex(d[1]) / 16,
       (CharToIndex(d[1]) % 16) * 16 + CharToIndex(d[2]) / 4]
    else DecodeQuad(d[..4]) + DecodeData(d[4..])
  }

  /** How many `=` must follow `k` data characters: two after a final pair,
      one after a final triple, none after complete quanta. */
  function PadCount(k: nat): nat {
    if k % 4 == 2 then 2 else if k % 4 == 3 then 1 else 0
  }

  /** `base64.b64decode(s, validate=True)`: `None` where Python raises
      `binascii.Error`. The input is data characters followed by exactly
      `PadCount` of them in `=`, so it is a whole number of quanta and
      yields three bytes per quantum, less one per `=`. */
  function Decode(s: string): (r: Option<seq<byte>>)
    ensures r.Some? ==> |s| % 4 == 0 && TrailingPads(s) <= 2
    ensures r.Some? ==> |r.value| == |s| / 4 * 3 - TrailingPads(s)
  {
    var pads := TrailingPads(s);
    var d := s[..|s| - pads];
    if !AllBase64(d) || |d| % 4 == 1 || pads != PadCount(|d|) then None
    else Some(DecodeData(d))
  }

  // ---------------------------------------------------------------- properties

  /** The bit arithmetic of one quantum: the four 6-bit groups of three
      bytes give the bytes back. */
  lemma SextetArithmetic(x: byte, y: byte, z: byte)
    ensures (x / 4) * 4 + ((x % 4) * 16 + y / 16) / 16 == x
    ensures (((x % 4) * 16 + y / 16) % 16) * 16 + ((y % 16) * 4 + z / 64) / 4 == y
    ensures (((y % 16) * 4 + z / 64) % 4) * 64 + z % 64 == z
  {
    assert ((x % 4) * 16 + y / 16) / 16 == x % 4;
    assert ((x % 4) * 16 + y / 16) % 16 == y / 16;
    assert ((y % 16) * 4 + z / 64) / 4 == y % 16;
    assert ((y % 16) * 4 + z / 64) % 4 == z / 64;
  }

  lemma TripleRoundTrip(x: byte, y: byte, z: byte)
    ensures DecodeQuad(EncodeTriple(x, y, z)) == [x, y, z]
  {
    var i0, i1, i2, i3 := x / 4, (x % 4) * 16 + y / 16, (y % 16) * 4 + z / 64, z % 64;
    var q := EncodeTriple(x, y, z);
    assert q == [IndexToChar(i0), IndexToChar(i1), IndexToChar(i2), IndexToChar(i3)];
    IndexRoundTrip(i0);
    IndexRoundTrip(i1);
    IndexRoundTrip(i2);
    IndexRoundTrip(i3);
    SextetArithmetic(x, y, z);
  }

  lemma SingleRoundTrip(x: byte)
    ensures DecodeData(EncodeSingle(x)) == [x]
  {
    var i0, i1 := x / 4, (x % 4) * 16;
    assert EncodeSingle(x) == [IndexToChar(i0), IndexToChar(i1)];
    IndexRoundTrip(i0);
    IndexRoundTrip(i1);
    SextetArithmetic(x, 0, 0);
  }

  lemma PairRoundTrip(x: byte, y: byte)
    ensures DecodeData(EncodePair(x, y)) == [x, y]
  {
    var i0, i1, i2 := x / 4, (x % 4) * 16 + y / 16, (y % 16) * 4;
    assert EncodePair(x, y) == [IndexToChar(i0), IndexToChar(i1), IndexToChar(i2)];
    IndexRoundTrip(i0);
    IndexRoundTrip(i1);
    IndexRoundTrip(i2);
    SextetArithmetic(x, y, 0);
  }

  /** Decoding the data characters of an encoding gives the bytes back. */
  lemma {:induction false} DecodeEncodeData(b: seq<byte>)
    ensures DecodeData(EncodeData(b)) == b
    decreases |b|
  {
    if |b| == 1 {
      SingleRoundTrip(b[0]);
      assert b == [b[0]];
    } else if |b| == 2 {
      PairRoundTrip(b[0], b[1]);
      assert b == [b[0], b[1]];
    } else if |b| >= 3 {
      DecodeEncodeData(b[3..]);
      DecodeEncodeStep(b);
    }
  }

  /** One quantum of the round trip: if the rest decodes back, so does the
      whole. */
  lemma DecodeEncodeStep(b: seq<byte>)
    requires |b| >= 3 && DecodeData(EncodeData(b[3..])) == b[3..]
    ensures DecodeData(EncodeData(b)) == b
  {
    var q, rest := EncodeTriple(b[0], b[1], b[2]), EncodeData(b[3..]);
    assert EncodeData(b) == q + rest;
    DecodeDataStep(q, rest);
    TripleRoundTrip(b[0], b[1], b[2]);
    HeadThree(b);
  }

  lemma HeadThree<T>(b: seq<T>)
    requires |b| >= 3
    ensures [b[0], b[1], b[2]] + b[3..] == b
  {
  }

  /** Decoding proceeds one quantum at a time. */
  lemma DecodeDataStep(q: string, rest: string)
    requires |q| == 4 && AllBase64(q) && AllBase64(rest) && |rest| % 4 != 1
    ensures AllBase64(q + rest)
    ensures DecodeData(q + rest) == DecodeQuad(q) + DecodeData(rest)
  {
    var d := q + rest;
    assert d[..4] == q;
    assert d[4..] == rest;
  }

  /** Round trip: `b64decode(b64encode(b), validate=True) == b`. */
  lemma DecodeEncode(b: seq<byte>)
    ensures Decode(Encode(b)) == Some(b)
  {
    var d, p := EncodeData(b), Padding(|b|);
    assert |p| == PadCount(|d|);
    AcceptsExactPadding(d, p);
    DecodeEncodeData(b);
  }

  /** The padding that follows data characters is exactly what
      `TrailingPads` counts. */
  lemma {:induction false} TrailingPadsOf(d: string, p: string)
    requires AllBase64(d)
    requires forall i :: 0 <= i < |p| ==> p[i] == '='
    ensures TrailingPads(d + p) == |p|
    decreases |p|
  {
    var s := d + p;
    if |p| > 0 {
      assert s[..|s| - 1] == d + p[..|p| - 1];
      TrailingPadsOf(d, p[..|p| - 1]);
    } else {
      assert s == d;
      if |d| > 0 {
        assert IsBase64Char(d[|d| - 1]);
      }
    }
  }

  /** Any character outside the alphabet other than `=` is rejected
      (the `validate=True` check). */
  lemma RejectsForeignChar(s: string, i: nat)
    requires i < |s| && !IsBase64Char(s[i]) && s[i] != '='
    ensures Decode(s) == None
  {
    var pads := TrailingPads(s);
    var d := s[..|s| - pads];
    assert i < |s| - pads;
    assert d[i] == s[i];
  }

  /** An `=` followed by a data character is rejected: padding may only end
      the input. */
  lemma RejectsInnerPadding(s: string, i: nat, j: nat)
    requires i < j < |s| && s[i] == '=' && IsBase64Char(s[j])
    ensures Decode(s) == None
  {
    var pads := TrailingPads(s);
    var d := s[..|s| - pads];
    assert j < |s| - pads;
    assert d[i] == s[i];
  }

  /** A number of data characters one more than a multiple of four is
      rejected whatever padding follows. */
  lemma RejectsLoneSextet(d: string, p: string)
    requires AllBase64(d) && |d| % 4 == 1
    requires forall i :: 0 <= i < |p| ==> p[i] == '='
    ensures Decode(d + p) == None
  {
    TrailingPadsOf(d, p);
    assert (d + p)[..|d + p| - |p|] == d;
  }

  /** Padding other than the one the final group needs is rejected: missing
      `=`, `=` after complete quanta, and `=` beyond the final quantum. */
  lemma RejectsWrongPadding(d: string, p: string)
    requires AllBase64(d)
    requires forall i :: 0 <= i < |p| ==> p[i] == '='
    requires |p| != PadCount(|d|)
    ensures Decode(d + p) == None
  {
    TrailingPadsOf(d, p);
    assert (d + p)[..|d + p| - |p|] == d;
  }

  /** Data characters with exactly the padding they need are accepted,
      whatever the unused low bits of the final group. */
  lemma AcceptsExactPadding(d: string, p: string)
    requires AllBase64(d) && |d| % 4 != 1
    requires forall i :: 0 <= i < |p| ==> p[i] == '='
    requires |p| == PadCount(|d|)
    ensures Decode(d + p) == Some(DecodeData(d))
  {
    TrailingPadsOf(d, p);
    assert (d + p)[..|d + p| - |p|] == d;
  }

  /** Input that starts with `=` is rejected, including `=` and `==` on
      their own. */
  lemma RejectsLeadingPadding(s: string)
    requires |s| >= 1 && s[0] == '='
    ensures Decode(s) == None
  {
    var d := s[..|s| - TrailingPads(s)];
    if |d| > 0 {
      assert d[0] == '=';
    }
  }

  /** The unused low bits are not checked: `QR==` decodes like `QQ==`,
      although re-encoding the byte gives `QQ==` and not `QR==`. */
  lemma IgnoresLowBits()
    ensures Decode("QQ==") == Decode("QR==") == Some([65])
    ensures Encode([65]) == "QQ==" != "QR=="
  {
    AcceptsExactPadding("QQ", "==");
    AcceptsExactPadding("QR", "==");
    assert "QQ" + "==" == "QQ==" && "QR" + "==" == "QR==";
    assert IndexToChar(16) == 'Q';
    assert EncodeData([65]) == "QQ";
  }

  /** The unused low bits of a final group of two or three data characters
      are zero: four of them after a pair, two after a triple. */
  predicate ZeroLowBits(d: string)
    requires AllBase64(d)
  {
    (|d| % 4 == 2 ==> CharToIndex(d[|d| - 1]) % 16 == 0) &&
    (|d| % 4 == 3 ==> CharToIndex(d[|d| - 1]) % 4 == 0)
  }

  /** Every encoding has its unused low bits zero. */
  lemma {:induction false} EncodeDataZeroLowBits(b: seq<byte>)
    ensures ZeroLowBits(EncodeData(b))
    decreases |b|
  {
    if |b| == 1 {
      assert EncodeData(b) == EncodeSingle(b[0]);
      IndexRoundTrip((b[0] % 4) * 16);
    } else if |b| == 2 {
      assert EncodeData(b) == EncodePair(b[0], b[1]);
      IndexRoundTrip((b[1] % 16) * 4);
    } else if |b| >= 3 {
      EncodeDataZeroLowBits(b[3..]);
      LowBitsAfterQuad(EncodeTriple(b[0], b[1], b[2]), EncodeData(b[3..]));
    }
  }

  /** A quantum in front does not change the final group. */
  lemma LowBitsAfterQuad(q: string, rest: string)
    requires |q| == 4 && AllBase64(q) && AllBase64(rest) && ZeroLowBits(rest)
    ensures AllBase64(q + rest) && ZeroLowBits(q + rest)
  {
    if |rest| > 0 {
      assert (q + rest)[|q + rest| - 1] == rest[|rest| - 1];
    }
  }

  /** One quantum re-encodes to itself. */
  lemma QuadRoundTrip(q: string)
    requires |q| == 4 && AllBase64(q)
    ensures var b := DecodeQuad(q); EncodeTriple(b[0], b[1], b[2]) == q
  {
    var c0, c1, c2, c3 := CharToIndex(q[0]), CharToIndex(q[1]), CharToIndex(q[2]), CharToIndex(q[3]);
    var b := DecodeQuad(q);
    assert b[0] / 4 == c0 && (b[0] % 4) * 16 + b[1] / 16 == c1;
    assert (b[1] % 16) * 4 + b[2] / 64 == c2 && b[2] % 64 == c3;
  }

  /** A final group of two or three data characters with zero low bits
      re-encodes to itself. */
  lemma FinalGroupRoundTrip(d: string)
    requires AllBase64(d) && (|d| == 2 || |d| == 3) && ZeroLowBits(d)
    ensures EncodeData(DecodeData(d)) == d
  {
    var b := DecodeData(d);
    var c0, c1 := CharToIndex(d[0]), CharToIndex(d[1]);
    if |d| == 2 {
      assert b[0] / 4 == c0 && (b[0] % 4) * 16 == c1;
      assert EncodeData(b) == EncodeSingle(b[0]);
    } else {
      var c2 := CharToIndex(d[2]);
      assert b[0] / 4 == c0 && (b[0] % 4) * 16 + b[1] / 16 == c1 && (b[1] % 16) * 4 == c2;
      assert EncodeData(b) == EncodePair(b[0], b[1]);
    }
  }

  /** Data characters whose unused low bits are zero re-encode to
      themselves. */
  lemma {:induction false} EncodeDecodeData(d: string)
    requires AllBase64(d) && |d| % 4 != 1 && ZeroLowBits(d)
    ensures EncodeData(DecodeData(d)) == d
    decreases |d|
  {
    if |d| == 2 || |d| == 3 {
      FinalGroupRoundTrip(d);
    } else if |d| >= 4 {
      assert |d[4..]| > 0 ==> d[4..][|d[4..]| - 1] == d[|d| - 1];
      EncodeDecodeData(d[4..]);
      EncodeDecodeStep(d);
    }
  }

  /** One quantum of the reverse round trip: if the rest re-encodes to
      itself, so does the whole. */
  lemma EncodeDecodeStep(d: string)
    requires |d| >= 4 && AllBase64(d) && |d| % 4 != 1
    requires EncodeData(DecodeData(d[4..])) == d[4..]
    ensures EncodeData(DecodeData(d)) == d
  {
    var q, rest := d[..4], d[4..];
    QuadRoundTrip(q);
    var b := DecodeData(d);
    assert b == DecodeQuad(q) + DecodeData(rest);
    assert b[..3] == DecodeQuad(q) && b[3..] == DecodeData(rest);
    assert EncodeData(b) == EncodeTriple(b[0], b[1], b[2]) + EncodeData(b[3..]);
    assert d == q + rest;
  }

  /** What `Decode` accepted: data characters followed by the padding
      that `Encode` would give their decoding. */
  lemma AcceptedShape(s: string)
    requires Decode(s).Some?
    ensures var d := s[..|s| - TrailingPads(s)];
      AllBase64(d) && |d| % 4 != 1 && Decode(s).value == DecodeData(d) &&
      s == d + Padding(|DecodeData(d)|)
  {
    var pads := TrailingPads(s);
    var d, p := s[..|s| - pads], s[|s| - pads..];
    assert AllBase64(d) && |d| % 4 != 1 && pads == PadCount(|d|);
    PaddingIs(|d|, |DecodeData(d)|, p);
    assert s == d + p;
  }

  /** The `=` that `Decode` demanded after `k` data characters are the
      padding `Encode` appends to their decoding. */
  lemma PaddingIs(k: nat, n: nat, p: string)
    requires k % 4 != 1 && n == k / 4 * 3 + (if k % 4 == 0 then 0 else k % 4 - 1)
    requires forall i :: 0 <= i < |p| ==> p[i] == '='
    requires |p| == PadCount(k)
    ensures p == Padding(n)
  {
    var q := k / 4;
    assert n == 3 * q + (if k % 4 == 0 then 0 else k % 4 - 1);
  }

  /** The other round trip: re-encoding the bytes of an accepted input gives
      that input back exactly when the unused low bits of its data
      characters are zero. */
  lemma EncodeDecode(s: string)
    requires Decode(s).Some?
    ensures var d := s[..|s| - TrailingPads(s)];
      AllBase64(d) && (Encode(Decode(s).value) == s <==> ZeroLowBits(d))
  {
    AcceptedShape(s);
    var d := s[..|s| - TrailingPads(s)];
    var b := DecodeData(d);
    if ZeroLowBits(d) {
      EncodeDecodeData(d);
    }
    if Encode(b) == s {
      EncodedData(b, d);
    }
  }

  /** The data characters of an encoding have zero low bits. */
  lemma EncodedData(b: seq<byte>, d: string)
    requires AllBase64(d) && Encode(b) == d + Padding(|b|)
    ensures ZeroLowBits(d)
  {
    assert (EncodeData(b) + Padding(|b|))[..|d|] == EncodeData(b);
    assert (d + Padding(|b|))[..|d|] == d;
    EncodeDataZeroLowBits(b);
  }
}
