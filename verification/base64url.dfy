/** Base64 with the URL- and filename-safe alphabet of section 5 of RFC 4648, as
    ASP.NET Core's `Base64UrlTextEncoder` applies it: the encoder writes no `=` padding;
    the decoder restores the padding from the length, maps `-` and `_` back to `+` and
    `/`, and decodes the padded standard form. This is the decoder of
    `Microsoft.AspNetCore.WebUtilities.WebEncoders.Base64UrlDecode` that builds the padded
    text and calls `Convert.FromBase64CharArray`; so `+` and `/` are accepted as well. A
    runtime whose `WebEncoders` delegates to `System.Buffers.Text.Base64Url` may refuse
    those two characters instead; the encoder never writes them. */
module Base64Url {
  import opened Wrappers

  type byte = x: int | 0 <= x < 256

  /** The character for the 6-bit value `v` in the URL-safe alphabet. */
  function CharOf(v: int): (c: char)
    requires 0 <= v < 64
    ensures IsUrlChar(c)
  {
    if v < 26 then ('A' as int + v) as char
    else if v < 52 then ('a' as int + (v - 26)) as char
    else if v < 62 then ('0' as int + (v - 52)) as char
    else if v == 62 then '-'
    else '_'
  }

  /** The characters of the URL-safe alphabet; `=` is not among them. */
  predicate IsUrlChar(c: char) {
    ('A' <= c <= 'Z') || ('a' <= c <= 'z') || ('0' <= c <= '9') || c == '-' || c == '_'
  }

  /** The 6-bit value of a character the decoder accepts. Because `-` and `_` are
      rewritten to `+` and `/` before decoding, both spellings of 62 and 63 are accepted. */
  function ValueOf(c: char): (r: Option<int>)
    ensures r.Some? ==> 0 <= r.value < 64
    ensures r.Some? ==> c != '='
  {
    if 'A' <= c <= 'Z' then Some(c as int - 'A' as int)
    else if 'a' <= c <= 'z' then Some(c as int - 'a' as int + 26)
    else if '0' <= c <= '9' then Some(c as int - '0' as int + 52)
    else if c == '-' || c == '+' then Some(62)
    else if c == '_' || c == '/' then Some(63)
    else None
  }

  /** Every alphabet character decodes to the value it encodes. */
  lemma ValueOfCharOf(v: int)
    requires 0 <= v < 64
    ensures ValueOf(CharOf(v)) == Some(v)
  {
  }

  /** The length of the unpadded encoding of `n` bytes. */
  function EncodedLength(n: nat): nat {
    4 * (n / 3) + (if n % 3 == 0 then 0 else n % 3 + 1)
  }

  /** Three bytes as four characters. */
  function EncodeTriple(b0: byte, b1: byte, b2: byte): (s: string)
    ensures |s| == 4
    ensures forall i :: 0 <= i < |s| ==> IsUrlChar(s[i])
  {
    [CharOf(b0 / 4), CharOf((b0 % 4) * 16 + b1 / 16), CharOf((b1 % 16) * 4 + b2 / 64), CharOf(b2 % 64)]
  }

  /** A last single byte as two characters. */
  function EncodeOne(b0: byte): (s: string)
    ensures |s| == 2
    ensures forall i :: 0 <= i < |s| ==> IsUrlChar(s[i])
  {
    [CharOf(b0 / 4), CharOf((b0 % 4) * 16)]
  }

  /** A last pair of bytes as three characters. */
  function EncodeTwo(b0: byte, b1: byte): (s: string)
    ensures |s| == 3
    ensures forall i :: 0 <= i < |s| ==> IsUrlChar(s[i])
  {
    [CharOf(b0 / 4), CharOf((b0 % 4) * 16 + b1 / 16), CharOf((b1 % 16) * 4)]
  }

  /** `Base64UrlTextEncoder.Encode`: unpadded URL-safe base64. */
  function Encode(b: seq<byte>): (s: string)
    ensures |s| == EncodedLength(|b|)
    ensures |s| % 4 != 1
    ensures forall i :: 0 <= i < |s| ==> IsUrlChar(s[i])
    ensures |b| > 0 ==> |s| >= 2
    decreases |b|
  {
    if |b| == 0 then []
    else if |b| == 1 then EncodeOne(b[0])
    else if |b| == 2 then EncodeTwo(b[0], b[1])
    else
      EncodedLengthStep(|b|);
      EncodedLengthMod(|b|);
      EncodeTriple(b[0], b[1], b[2]) + Encode(b[3..])
  }

  /** No encoding is one character longer than a multiple of four. */
  lemma EncodedLengthMod(n: nat)
    ensures EncodedLength(n) % 4 != 1
  {
    var q, k := n / 3, if n % 3 == 0 then 0 else n % 3 + 1;
    assert EncodedLength(n) == 4 * q + k;
    assert (4 * q + k) % 4 == k;
  }

  /** Three more bytes add one group of four characters. */
  lemma EncodedLengthStep(n: nat)
    requires n >= 3
    ensures EncodedLength(n) == 4 + EncodedLength(n - 3)
  {
    assert n / 3 == (n - 3) / 3 + 1 && n % 3 == (n - 3) % 3;
  }

  /** The `=` characters the decoder appends to an input of length `n`. */
  function Padding(n: nat): (p: string)
    ensures n % 4 != 1 ==> (n + |p|) % 4 == 0
  {
    if n % 4 == 2 then "==" else if n % 4 == 3 then "=" else ""
  }

  /** Four non-padding characters as three bytes. */
  function DecodeQuad(c0: char, c1: char, c2: char, c3: char): Option<seq<byte>> {
    var v0, v1, v2, v3 := ValueOf(c0), ValueOf(c1), ValueOf(c2), ValueOf(c3);
    if v0.None? || v1.None? || v2.None? || v3.None? then None
    else
      Some([v0.value * 4 + v1.value / 16, (v1.value % 16) * 16 + v2.value / 4, (v2.value % 4) * 64 + v3.value])
  }

  /** The final group of a padded input: `xx==` holds one byte, `xxx=` two, `xxxx` three.
      Bits below the last whole byte are dropped without being checked. */
  function DecodeLast(c0: char, c1: char, c2: char, c3: char): Option<seq<byte>> {
    var v0, v1, v2 := ValueOf(c0), ValueOf(c1), ValueOf(c2);
    if c2 == '=' && c3 == '=' then
      if v0.None? || v1.None? then None else Some([v0.value * 4 + v1.value / 16])
    else if c3 == '=' then
      if v0.None? || v1.None? || v2.None? then None
      else Some([v0.value * 4 + v1.value / 16, (v1.value % 16) * 16 + v2.value / 4])
    else DecodeQuad(c0, c1, c2, c3)
  }

  /** Standard padded base64 decoding: groups of four, padding only in the last group. */
  function DecodePadded(t: string): (r: Option<seq<byte>>)
    requires |t| % 4 == 0
    decreases |t|
  {
    if |t| == 0 then Some([])
    else if |t| == 4 then DecodeLast(t[0], t[1], t[2], t[3])
    else
      match DecodeQuad(t[0], t[1], t[2], t[3])
      case None => None
      case Some(g) =>
        match DecodePadded(t[4..])
        case None => None
        case Some(rest) => Some(g + rest)
  }

  /** `Base64UrlTextEncoder.Decode`, with `None` standing for the `FormatException` it
      throws. An input whose length is 1 more than a multiple of 4 cannot be padded and
      is refused outright. */
  function Decode(s: string): (r: Option<seq<byte>>)
    ensures |s| % 4 == 1 ==> r.None?
    ensures |s| == 0 ==> r == Some([])
  {
    if |s| % 4 == 1 then None else DecodePadded(s + Padding(|s|))
  }

  /** The arithmetic of one group: the 6-bit pieces of three bytes put back together. */
  lemma TripleArithmetic(b0: byte, b1: byte, b2: byte)
    ensures (b0 / 4) * 4 + ((b0 % 4) * 16 + b1 / 16) / 16 == b0
    ensures (((b0 % 4) * 16 + b1 / 16) % 16) * 16 + ((b1 % 16) * 4 + b2 / 64) / 4 == b1
    ensures (((b1 % 16) * 4 + b2 / 64) % 4) * 64 + b2 % 64 == b2
  {
  }

  lemma DecodeTriple(b0: byte, b1: byte, b2: byte)
    ensures var e := EncodeTriple(b0, b1, b2); DecodeQuad(e[0], e[1], e[2], e[3]) == Some([b0, b1, b2])
    ensures var e := EncodeTriple(b0, b1, b2); DecodeLast(e[0], e[1], e[2], e[3]) == Some([b0, b1, b2])
  {
    var e := EncodeTriple(b0, b1, b2);
    DecodeQuadChars(b0, b1, b2, e[0], e[1], e[2], e[3]);
    assert IsUrlChar(e[2]) && IsUrlChar(e[3]);
  }

  /** The group spelling three bytes decodes to them. */
  lemma DecodeQuadChars(b0: byte, b1: byte, b2: byte, c0: char, c1: char, c2: char, c3: char)
    requires [c0, c1, c2, c3] == EncodeTriple(b0, b1, b2)
    ensures DecodeQuad(c0, c1, c2, c3) == Some([b0, b1, b2])
  {
    hide ValueOf, CharOf;
    var v0, v1, v2, v3 := b0 / 4, (b0 % 4) * 16 + b1 / 16, (b1 % 16) * 4 + b2 / 64, b2 % 64;
    ValueOfCharOf(v0);
    ValueOfCharOf(v1);
    ValueOfCharOf(v2);
    ValueOfCharOf(v3);
    assert c0 == CharOf(v0) && c1 == CharOf(v1) && c2 == CharOf(v2) && c3 == CharOf(v3);
    TripleArithmetic(b0, b1, b2);
  }

  lemma DecodeOneByte(b: seq<byte>)
    requires |b| == 1
    ensures Encode(b) + Padding(|Encode(b)|) == Encode(b) + "=="
    ensures DecodePadded(Encode(b) + "==") == Some(b)
  {
    hide ValueOf, CharOf;
    var e := Encode(b);
    ValueOfCharOf(b[0] / 4);
    ValueOfCharOf((b[0] % 4) * 16);
    var t := e + "==";
    assert t[0] == e[0] && t[1] == e[1] && t[2] == '=' && t[3] == '=';
    assert [b[0]] == b;
  }

  lemma DecodeTwoBytes(b: seq<byte>)
    requires |b| == 2
    ensures Encode(b) + Padding(|Encode(b)|) == Encode(b) + "="
    ensures DecodePadded(Encode(b) + "=") == Some(b)
  {
    var e := Encode(b);
    var t := e + "=";
    assert t[0] == e[0] && t[1] == e[1] && t[2] == e[2] && t[3] == '=';
    DecodePairChars(b[0], b[1], t[0], t[1], t[2], t[3]);
    assert [b[0], b[1]] == b;
  }

  /** The group `xxx=` spelling two bytes decodes to them. */
  lemma DecodePairChars(b0: byte, b1: byte, c0: char, c1: char, c2: char, c3: char)
    requires [c0, c1, c2] == EncodeTwo(b0, b1) && c3 == '='
    ensures DecodeLast(c0, c1, c2, c3) == Some([b0, b1])
  {
    hide ValueOf, CharOf, DecodeQuad;
    var v0, v1, v2 := b0 / 4, (b0 % 4) * 16 + b1 / 16, (b1 % 16) * 4;
    ValueOfCharOf(v0);
    ValueOfCharOf(v1);
    ValueOfCharOf(v2);
    assert c0 == CharOf(v0) && c1 == CharOf(v1) && c2 == CharOf(v2);
    TripleArithmetic(b0, b1, 0);
  }

  /** A full group in front of a non-empty padded input decodes to its three bytes in front. */
  lemma DecodeGroupThen(head: string, rest: string, g: seq<byte>, r: seq<byte>)
    requires |head| == 4 && |rest| % 4 == 0 && |rest| > 0
    requires DecodeQuad(head[0], head[1], head[2], head[3]) == Some(g)
    requires DecodePadded(rest) == Some(r)
    ensures DecodePadded(head + rest) == Some(g + r)
  {
    var t := head + rest;
    assert t[0] == head[0] && t[1] == head[1] && t[2] == head[2] && t[3] == head[3];
    assert t[4..] == rest;
  }

  /** The padded form of an encoding of at least three bytes: its first group, then the
      padded form of the encoding of the remaining bytes. */
  lemma EncodeSplit(b: seq<byte>)
    requires |b| >= 3
    ensures var tail := Encode(b[3..]);
      Encode(b) + Padding(|Encode(b)|) == EncodeTriple(b[0], b[1], b[2]) + (tail + Padding(|tail|))
  {
    var tail := Encode(b[3..]);
    var head := EncodeTriple(b[0], b[1], b[2]);
    assert Encode(b) == head + tail;
    PaddingShift(|tail|);
    assert (head + tail) + Padding(|tail|) == head + (tail + Padding(|tail|));
  }

  lemma PaddingShift(m: nat)
    ensures Padding(m + 4) == Padding(m)
  {
    assert (m + 4) % 4 == m % 4;
  }

  lemma DecodeThreeBytes(b: seq<byte>)
    requires |b| == 3
    ensures Encode(b) + Padding(|Encode(b)|) == EncodeTriple(b[0], b[1], b[2])
    ensures DecodePadded(EncodeTriple(b[0], b[1], b[2])) == Some(b)
  {
    hide Encode, EncodeTriple, DecodeQuad, DecodeLast, ValueOf, CharOf;
    EncodeSplit(b);
    DecodeTriple(b[0], b[1], b[2]);
    assert b[3..] == [];
    assert [b[0], b[1], b[2]] == b;
  }

  lemma DecodeLongerThanThree(b: seq<byte>)
    requires |b| > 3
    requires var tail := Encode(b[3..]); DecodePadded(tail + Padding(|tail|)) == Some(b[3..])
    ensures DecodePadded(Encode(b) + Padding(|Encode(b)|)) == Some(b)
  {
    hide *;
    var head := EncodeTriple(b[0], b[1], b[2]);
    var tail := Encode(b[3..]);
    EncodeSplit(b);
    DecodeTriple(b[0], b[1], b[2]);
    DecodeGroupThen(head, tail + Padding(|tail|), [b[0], b[1], b[2]], b[3..]);
    assert [b[0], b[1], b[2]] + b[3..] == b;
  }

  /** The decoder reads back the padded form of every encoding. */
  lemma {:induction false} DecodePaddedEncode(b: seq<byte>)
    ensures DecodePadded(Encode(b) + Padding(|Encode(b)|)) == Some(b)
    decreases |b|
  {
    if |b| == 1 {
      DecodeOneByte(b);
    } else if |b| == 2 {
      DecodeTwoBytes(b);
    } else if |b| == 3 {
      DecodeThreeBytes(b);
    } else if |b| > 3 {
      DecodePaddedEncode(b[3..]);
      DecodeLongerThanThree(b);
    }
  }

  /** Round trip: decoding an encoding gives back the bytes. */
  lemma RoundTrip(b: seq<byte>)
    ensures Decode(Encode(b)) == Some(b)
  {
    DecodePaddedEncode(b);
  }

  /** The decoder also accepts the padded spelling of an encoding. */
  lemma DecodeAcceptsPadding(b: seq<byte>)
    ensures Decode(Encode(b) + Padding(|Encode(b)|)) == Some(b)
  {
    DecodePaddedEncode(b);
    var t := Encode(b) + Padding(|Encode(b)|);
    assert Padding(|t|) == "";
    assert t + "" == t;
  }
}
