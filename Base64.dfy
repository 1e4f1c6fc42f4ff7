/** The generator's `base64ToHex`: base64 text decoded to bytes, the bytes
    written in hex. The decoder here is the standard base64 alphabet of section
    4 of RFC 4648, with '=' padding, and it accepts only canonical text (length
    a multiple of 4, padding only at the end, unused trailing bits zero), which
    makes it the exact inverse of `Encode`. */
module Base64 {
  import opened Wrappers
  import opened Hex

  /** The character for a 6-bit value, Table 1 of RFC 4648. */
  function CharOf(v: int): (c: char)
    requires 0 <= v < 64
  {
    if v < 26 then ('A' as int + v) as char
    else if v < 52 then ('a' as int + v - 26) as char
    else if v < 62 then ('0' as int + v - 52) as char
    else if v == 62 then '+'
    else '/'
  }

  /** The 6-bit value of an alphabet character; `None` for anything else,
      the padding character '=' included. */
  function ValueOf(c: char): (r: Option<int>)
    ensures r.Some? ==> 0 <= r.value < 64 && CharOf(r.value) == c
    ensures c == '=' ==> r.None?
  {
    if 'A' <= c <= 'Z' then Some(c as int - 'A' as int)
    else if 'a' <= c <= 'z' then Some(c as int - 'a' as int + 26)
    else if '0' <= c <= '9' then Some(c as int - '0' as int + 52)
    else if c == '+' then Some(62)
    else if c == '/' then Some(63)
    else None
  }

  /** Every alphabet character reads back as its value, and none is '='. */
  lemma CharRoundTrip(v: int)
    requires 0 <= v < 64
    ensures ValueOf(CharOf(v)) == Some(v) && CharOf(v) != '='
  {
  }

  /** Three bytes as four characters. */
  function EncodeGroup(b0: Byte, b1: Byte, b2: Byte): string
  {
    GroupArithmetic(b0 as int, b1 as int, b2 as int);
    [CharOf(b0 as int / 4), CharOf((b0 as int % 4) * 16 + b1 as int / 16),
     CharOf((b1 as int % 16) * 4 + b2 as int / 64), CharOf(b2 as int % 64)]
  }

  /** Base64 encoding: groups of three bytes, a final group of one or two
      bytes padded with "==" or "=". */
  function Encode(bytes: seq<Byte>): (r: string)
    ensures |r| % 4 == 0
    ensures |r| == 0 <==> bytes == []
    decreases |bytes|
  {
    if |bytes| == 0 then ""
    else if |bytes| == 1 then
      GroupArithmetic(bytes[0] as int, 0, 0);
      [CharOf(bytes[0] as int / 4), CharOf((bytes[0] as int % 4) * 16), '=', '=']
    else if |bytes| == 2 then
      GroupArithmetic(bytes[0] as int, bytes[1] as int, 0);
      [CharOf(bytes[0] as int / 4), CharOf((bytes[0] as int % 4) * 16 + bytes[1] as int / 16),
       CharOf((bytes[1] as int % 16) * 4), '=']
    else EncodeGroup(bytes[0], bytes[1], bytes[2]) + Encode(bytes[3..])
  }

  /** Four alphabet characters as three bytes. */
  function DecodeGroup(c0: char, c1: char, c2: char, c3: char): (r: Option<seq<Byte>>)
    ensures r.Some? ==> |r.value| == 3
  {
    match (ValueOf(c0), ValueOf(c1), ValueOf(c2), ValueOf(c3))
    case (Some(v0), Some(v1), Some(v2), Some(v3)) =>
      Some([(v0 * 4 + v1 / 16) as Byte, ((v1 % 16) * 16 + v2 / 4) as Byte, ((v2 % 4) * 64 + v3) as Byte])
    case _ => None
  }

  /** The last four characters: a full group, or one or two bytes followed by
      padding whose unused bits are zero. */
  function DecodeLast(c0: char, c1: char, c2: char, c3: char): (r: Option<seq<Byte>>)
    ensures r.Some? ==> 1 <= |r.value| <= 3
  {
    if c2 == '=' && c3 == '=' then
      match (ValueOf(c0), ValueOf(c1))
      case (Some(v0), Some(v1)) =>
        if v1 % 16 == 0 then Some([(v0 * 4 + v1 / 16) as Byte]) else None
      case _ => None
    else if c3 == '=' then
      match (ValueOf(c0), ValueOf(c1), ValueOf(c2))
      case (Some(v0), Some(v1), Some(v2)) =>
        if v2 % 4 == 0 then Some([(v0 * 4 + v1 / 16) as Byte, ((v1 % 16) * 16 + v2 / 4) as Byte]) else None
      case _ => None
    else DecodeGroup(c0, c1, c2, c3)
  }

  /** Base64 decoding; `None` for text that is not canonical base64. */
  function Decode(s: string): (r: Option<seq<Byte>>)
    ensures r.Some? && s != [] ==> r.value != []
    decreases |s|
  {
    if |s| == 0 then Some([])
    else if |s| < 4 then None
    else if |s| == 4 then DecodeLast(s[0], s[1], s[2], s[3])
    else
      match (DecodeGroup(s[0], s[1], s[2], s[3]), Decode(s[4..]))
      case (Some(group), Some(rest)) => Some(group + rest)
      case _ => None
  }

  /** Bit arithmetic of a full group: the four 6-bit values taken from three
      bytes give the three bytes back. */
  lemma GroupArithmetic(b0: int, b1: int, b2: int)
    requires 0 <= b0 < 256 && 0 <= b1 < 256 && 0 <= b2 < 256
    ensures var v0, v1, v2, v3 := b0 / 4, (b0 % 4) * 16 + b1 / 16, (b1 % 16) * 4 + b2 / 64, b2 % 64;
            0 <= v0 < 64 && 0 <= v1 < 64 && 0 <= v2 < 64 && 0 <= v3 < 64 &&
            v0 * 4 + v1 / 16 == b0 && (v1 % 16) * 16 + v2 / 4 == b1 && (v2 % 4) * 64 + v3 == b2
  {
  }

  /** Bit arithmetic of a full group: three bytes taken from four 6-bit values
      give the four values back. */
  lemma SextetArithmetic(v0: int, v1: int, v2: int, v3: int)
    requires 0 <= v0 < 64 && 0 <= v1 < 64 && 0 <= v2 < 64 && 0 <= v3 < 64
    ensures var b0, b1, b2 := v0 * 4 + v1 / 16, (v1 % 16) * 16 + v2 / 4, (v2 % 4) * 64 + v3;
            0 <= b0 < 256 && 0 <= b1 < 256 && 0 <= b2 < 256 &&
            b0 / 4 == v0 && (b0 % 4) * 16 + b1 / 16 == v1 && (b1 % 16) * 4 + b2 / 64 == v2 && b2 % 64 == v3
  {
  }

  lemma DecodeEncodeGroup(b0: Byte, b1: Byte, b2: Byte)
    ensures var g := EncodeGroup(b0, b1, b2);
            DecodeGroup(g[0], g[1], g[2], g[3]) == Some([b0, b1, b2]) &&
            DecodeLast(g[0], g[1], g[2], g[3]) == Some([b0, b1, b2])
  {
    var g := EncodeGroup(b0, b1, b2);
    GroupArithmetic(b0 as int, b1 as int, b2 as int);
    var v0, v1, v2, v3 := b0 as int / 4, (b0 as int % 4) * 16 + b1 as int / 16, (b1 as int % 16) * 4 + b2 as int / 64, b2 as int % 64;
    CharRoundTrip(v0);
    CharRoundTrip(v1);
    CharRoundTrip(v2);
    CharRoundTrip(v3);
    assert DecodeGroup(g[0], g[1], g[2], g[3]) == Some([b0, b1, b2]);
    DecodeLastFull(g[0], g[1], g[2], g[3]);
  }

  /** Without padding the last group decodes as a full group. */
  lemma DecodeLastFull(c0: char, c1: char, c2: char, c3: char)
    requires c3 != '='
    ensures DecodeLast(c0, c1, c2, c3) == DecodeGroup(c0, c1, c2, c3)
  {
  }

  lemma DecodeEncodeOne(b0: Byte)
    ensures Decode(Encode([b0])) == Some([b0])
  {
    var s := Encode([b0]);
    var v0, v1 := b0 as int / 4, (b0 as int % 4) * 16;
    CharRoundTrip(v0);
    CharRoundTrip(v1);
    assert v0 * 4 + v1 / 16 == b0 as int;
    assert DecodeLast(s[0], s[1], s[2], s[3]) == Some([b0]);
  }

  lemma DecodeEncodeTwo(b0: Byte, b1: Byte)
    ensures Decode(Encode([b0, b1])) == Some([b0, b1])
  {
    var s := Encode([b0, b1]);
    var v0, v1, v2 := b0 as int / 4, (b0 as int % 4) * 16 + b1 as int / 16, (b1 as int % 16) * 4;
    GroupArithmetic(b0 as int, b1 as int, 0);
    CharRoundTrip(v0);
    CharRoundTrip(v1);
    CharRoundTrip(v2);
    assert DecodeLast(s[0], s[1], s[2], s[3]) == Some([b0, b1]);
  }

  /** Encoding more than two bytes starts with the group of the first three. */
  lemma EncodeUnfold(bytes: seq<Byte>)
    requires |bytes| >= 3
    ensures Encode(bytes) == EncodeGroup(bytes[0], bytes[1], bytes[2]) + Encode(bytes[3..])
  {
  }

  /** Decoding text made of a full group followed by more text. */
  lemma DecodeConcat(g: string, t: string, group: seq<Byte>, rest: seq<Byte>)
    requires |g| == 4 && DecodeGroup(g[0], g[1], g[2], g[3]) == Some(group)
    requires t != [] && Decode(t) == Some(rest)
    ensures Decode(g + t) == Some(group + rest)
  {
    var s := g + t;
    assert s[4..] == t;
    assert s[0] == g[0] && s[1] == g[1] && s[2] == g[2] && s[3] == g[3];
  }

  lemma DecodeEncodeStep(bytes: seq<Byte>)
    requires |bytes| >= 3
    requires Decode(Encode(bytes[3..])) == Some(bytes[3..])
    ensures Decode(Encode(bytes)) == Some(bytes)
  {
    var g := EncodeGroup(bytes[0], bytes[1], bytes[2]);
    var t := Encode(bytes[3..]);
    EncodeUnfold(bytes);
    DecodeEncodeGroup(bytes[0], bytes[1], bytes[2]);
    FirstThree(bytes);
    if |bytes| == 3 {
      assert t == [];
      assert g + t == g;
    } else {
      DecodeConcat(g, t, [bytes[0], bytes[1], bytes[2]], bytes[3..]);
    }
  }

  lemma FirstThree<T>(s: seq<T>)
    requires |s| >= 3
    ensures s == [s[0], s[1], s[2]] + s[3..]
    ensures |s| == 3 ==> s == [s[0], s[1], s[2]]
  {
  }

  /** Decoding undoes encoding, for every byte sequence. */
  lemma {:induction false} DecodeEncode(bytes: seq<Byte>)
    ensures Decode(Encode(bytes)) == Some(bytes)
    decreases |bytes|
  {
    if |bytes| == 1 {
      assert bytes == [bytes[0]];
      DecodeEncodeOne(bytes[0]);
    } else if |bytes| == 2 {
      assert bytes == [bytes[0], bytes[1]];
      DecodeEncodeTwo(bytes[0], bytes[1]);
    } else if |bytes| >= 3 {
      DecodeEncode(bytes[3..]);
      DecodeEncodeStep(bytes);
    }
  }

  lemma EncodeDecodeGroup(c0: char, c1: char, c2: char, c3: char)
    requires DecodeGroup(c0, c1, c2, c3).Some?
    ensures var g := DecodeGroup(c0, c1, c2, c3).value;
            EncodeGroup(g[0], g[1], g[2]) == [c0, c1, c2, c3]
  {
    var v0, v1, v2, v3 := ValueOf(c0).value, ValueOf(c1).value, ValueOf(c2).value, ValueOf(c3).value;
    var b0, b1, b2 := v0 * 4 + v1 / 16, (v1 % 16) * 16 + v2 / 4, (v2 % 4) * 64 + v3;
    SextetArithmetic(v0, v1, v2, v3);
    var g := DecodeGroup(c0, c1, c2, c3).value;
    assert g == [b0 as Byte, b1 as Byte, b2 as Byte];
    assert EncodeGroup(g[0], g[1], g[2]) == [CharOf(v0), CharOf(v1), CharOf(v2), CharOf(v3)];
  }

  lemma EncodeDecodeLast(c0: char, c1: char, c2: char, c3: char)
    requires DecodeLast(c0, c1, c2, c3).Some?
    ensures Encode(DecodeLast(c0, c1, c2, c3).value) == [c0, c1, c2, c3]
  {
    if c2 == '=' && c3 == '=' {
      EncodeDecodeOneByte(c0, c1);
    } else if c3 == '=' {
      EncodeDecodeTwoBytes(c0, c1, c2);
    } else {
      DecodeLastFull(c0, c1, c2, c3);
      var bytes := DecodeGroup(c0, c1, c2, c3).value;
      EncodeDecodeGroup(c0, c1, c2, c3);
      assert bytes[3..] == [];
      assert Encode(bytes) == EncodeGroup(bytes[0], bytes[1], bytes[2]) + Encode(bytes[3..]);
    }
  }

  /** `xx==` that decodes is the encoding of its one byte. */
  lemma EncodeDecodeOneByte(c0: char, c1: char)
    requires DecodeLast(c0, c1, '=', '=').Some?
    ensures Encode(DecodeLast(c0, c1, '=', '=').value) == [c0, c1, '=', '=']
  {
    var v0, v1 := ValueOf(c0).value, ValueOf(c1).value;
    var b := v0 * 4 + v1 / 16;
    SextetArithmetic(v0, v1, 0, 0);
    assert DecodeLast(c0, c1, '=', '=').value == [b as Byte];
    assert (b % 4) * 16 == v1;
  }

  /** `xxx=` that decodes is the encoding of its two bytes. */
  lemma EncodeDecodeTwoBytes(c0: char, c1: char, c2: char)
    requires c2 != '=' && DecodeLast(c0, c1, c2, '=').Some?
    ensures Encode(DecodeLast(c0, c1, c2, '=').value) == [c0, c1, c2, '=']
  {
    var v0, v1, v2 := ValueOf(c0).value, ValueOf(c1).value, ValueOf(c2).value;
    var b0, b1 := v0 * 4 + v1 / 16, (v1 % 16) * 16 + v2 / 4;
    SextetArithmetic(v0, v1, v2, 0);
    assert DecodeLast(c0, c1, c2, '=').value == [b0 as Byte, b1 as Byte];
    assert (b1 % 16) * 4 == v2;
  }

  /** Encoding undoes decoding: whatever decodes is the encoding of its bytes. */
  lemma {:induction false} EncodeDecode(s: string, bytes: seq<Byte>)
    requires Decode(s) == Some(bytes)
    ensures Encode(bytes) == s
    decreases |s|
  {
    if |s| == 4 {
      EncodeDecodeLast(s[0], s[1], s[2], s[3]);
    } else if |s| > 4 {
      var group := DecodeGroup(s[0], s[1], s[2], s[3]).value;
      var rest := Decode(s[4..]).value;
      assert bytes == group + rest;
      EncodeDecode(s[4..], rest);
      EncodeDecodeSplit(s, group, rest);
    }
  }

  lemma EncodeDecodeSplit(s: string, group: seq<Byte>, rest: seq<Byte>)
    requires |s| > 4
    requires DecodeGroup(s[0], s[1], s[2], s[3]) == Some(group)
    requires rest != [] && Encode(rest) == s[4..]
    ensures Encode(group + rest) == s
  {
    var bytes := group + rest;
    EncodeDecodeGroup(s[0], s[1], s[2], s[3]);
    assert bytes[0] == group[0] && bytes[1] == group[1] && bytes[2] == group[2];
    assert bytes[3..] == rest;
    assert Encode(bytes) == EncodeGroup(bytes[0], bytes[1], bytes[2]) + Encode(bytes[3..]);
    assert s == [s[0], s[1], s[2], s[3]] + s[4..];
  }

  /** `base64ToHex(base64String)`: the decoded bytes in hex; `None` where the
      decoding fails. */
  function Base64ToHex(base64String: string): (r: Option<string>)
    ensures r.Some? <==> Decode(base64String).Some?
    ensures r.Some? ==> HexDecode(r.value) == Decode(base64String)
  {
    match Decode(base64String)
    case Some(bytes) => HexRoundTrip(bytes); Some(HexEncode(bytes))
    case None => None
  }

  /** Converting the base64 encoding of any bytes gives the hex encoding of
      those bytes: a re-encoding, never a re-hashing. */
  lemma Base64ToHexOfEncode(bytes: seq<Byte>)
    ensures Base64ToHex(Encode(bytes)) == Some(HexEncode(bytes))
  {
    DecodeEncode(bytes);
  }
}
