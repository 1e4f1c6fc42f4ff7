/** The hex step of the generator's `sha256` helper: each digest byte becomes
    `b.toString(16).padStart(2, "0")` and the pieces are joined. The digest
    itself is an input (see `Sha256`). */
module Hex {
  import opened Wrappers

  newtype Byte = x: int | 0 <= x < 256

  /** The digit for `d` in base 16, lower case, as `Number.prototype.toString(16)` writes it. */
  function HexDigit(d: int): (c: char)
    requires 0 <= d < 16
    ensures IsLowerHexDigit(c)
    ensures '0' <= c <= '9' <==> d < 10
  {
    if d < 10 then ('0' as int + d) as char else ('a' as int + d - 10) as char
  }

  predicate IsLowerHexDigit(c: char)
  {
    '0' <= c <= '9' || 'a' <= c <= 'f'
  }

  /** The value of a lower-case hex digit; `None` for any other character. */
  function DigitValue(c: char): (r: Option<int>)
    ensures r.Some? <==> IsLowerHexDigit(c)
    ensures r.Some? ==> 0 <= r.value < 16 && HexDigit(r.value) == c
  {
    if '0' <= c <= '9' then Some(c as int - '0' as int)
    else if 'a' <= c <= 'f' then Some(c as int - 'a' as int + 10)
    else None
  }

  lemma DigitRoundTrip(d: int)
    requires 0 <= d < 16
    ensures IsLowerHexDigit(HexDigit(d)) && DigitValue(HexDigit(d)) == Some(d)
  {
  }

  /** `n.toString(16)`: the base-16 numeral of `n`, without leading zeros. */
  function ToRadix16(n: nat): (r: string)
    decreases n
  {
    if n < 16 then [HexDigit(n)] else ToRadix16(n / 16) + [HexDigit(n % 16)]
  }

  /** `s.padStart(len, fill)` for a one-character fill: `fill` repeated in
      front of `s` up to length `len`; `s` unchanged when already that long. */
  function PadStart(s: string, len: nat, fill: char): (r: string)
    ensures |r| == if |s| >= len then |s| else len
    ensures r[|r| - |s|..] == s
    ensures forall k :: 0 <= k < |r| - |s| ==> r[k] == fill
    decreases len - |s|
  {
    if |s| >= len then s else PadStart([fill] + s, len, fill)
  }

  /** A number below 256 has one base-16 digit below 16 and two from 16 on. */
  lemma ToRadix16Byte(n: nat)
    requires n < 256
    ensures n < 16 ==> ToRadix16(n) == [HexDigit(n)]
    ensures n >= 16 ==> ToRadix16(n) == [HexDigit(n / 16), HexDigit(n % 16)]
  {
    if n >= 16 {
      assert ToRadix16(n / 16) == [HexDigit(n / 16)];
    }
  }

  /** `b.toString(16).padStart(2, "0")`, the text the generator makes of one
      digest byte. */
  function PaddedRadix16(b: Byte): string
  {
    PadStart(ToRadix16(b as nat), 2, '0')
  }

  /** One byte as two lower-case hex digits, high nibble first. */
  function ByteToHex(b: Byte): (r: string)
  {
    [HexDigit(b as int / 16), HexDigit(b as int % 16)]
  }

  /** The generator's padded base-16 text of a byte is exactly its two nibble
      digits: always two characters, and a leading '0' below 16. */
  lemma PaddedRadix16IsTwoDigits(b: Byte)
    ensures PaddedRadix16(b) == ByteToHex(b)
    ensures |PaddedRadix16(b)| == 2
    ensures b < 16 ==> PaddedRadix16(b)[0] == '0'
  {
    var n := b as nat;
    ToRadix16Byte(n);
    var digits := ToRadix16(n);
    if n < 16 {
      assert PadStart(digits, 2, '0') == PadStart(['0'] + digits, 2, '0') == ['0', HexDigit(n)];
      assert n / 16 == 0 && n % 16 == n;
    } else {
      assert PadStart(digits, 2, '0') == digits;
    }
  }

  /** The bytes of a digest, each as two hex digits, joined (the generator's
      `.map(...).join("")`; see `PaddedRadix16IsTwoDigits` for each piece). */
  function HexEncode(bytes: seq<Byte>): (r: string)
    ensures |r| == 2 * |bytes|
    decreases |bytes|
  {
    if bytes == [] then "" else ByteToHex(bytes[0]) + HexEncode(bytes[1..])
  }

  /** `Array.from(bytes).map((b) => b.toString(16).padStart(2, "0")).join("")`,
      piece by piece as the generator writes it. */
  function JoinedRadix16(bytes: seq<Byte>): string
    decreases |bytes|
  {
    if bytes == [] then "" else PaddedRadix16(bytes[0]) + JoinedRadix16(bytes[1..])
  }

  /** The generator's map-and-join is `HexEncode`. */
  lemma {:induction false} JoinedRadix16IsHexEncode(bytes: seq<Byte>)
    ensures JoinedRadix16(bytes) == HexEncode(bytes)
    decreases |bytes|
  {
    if bytes != [] {
      PaddedRadix16IsTwoDigits(bytes[0]);
      JoinedRadix16IsHexEncode(bytes[1..]);
    }
  }

  /** Byte `i` of the input is written at positions `2 * i` and `2 * i + 1`. */
  lemma {:induction false} HexEncodeAt(bytes: seq<Byte>, i: nat)
    requires i < |bytes|
    ensures HexEncode(bytes)[2 * i] == HexDigit(bytes[i] as int / 16)
    ensures HexEncode(bytes)[2 * i + 1] == HexDigit(bytes[i] as int % 16)
    decreases i
  {
    var head := ByteToHex(bytes[0]);
    var rest := HexEncode(bytes[1..]);
    assert HexEncode(bytes) == head + rest;
    if i > 0 {
      var j := i - 1;
      HexEncodeAt(bytes[1..], j);
      assert bytes[1..][j] == bytes[i];
      assert 2 * i == 2 * j + 2;
      ConcatAt(head, rest, 2 * j);
      ConcatAt(head, rest, 2 * j + 1);
      assert HexEncode(bytes)[2 * i] == rest[2 * j];
      assert HexEncode(bytes)[2 * i + 1] == rest[2 * j + 1];
    }
  }

  /** Indexing past a two-element prefix. */
  lemma ConcatAt<T>(head: seq<T>, rest: seq<T>, k: nat)
    requires |head| == 2 && k < |rest|
    ensures (head + rest)[k + 2] == rest[k]
  {
  }

  /** Every character of an encoding is a lower-case hex digit. */
  lemma HexEncodeIsLowerHex(bytes: seq<Byte>)
    ensures forall k :: 0 <= k < |HexEncode(bytes)| ==> IsLowerHexDigit(HexEncode(bytes)[k])
  {
    var r := HexEncode(bytes);
    forall k | 0 <= k < |r| ensures IsLowerHexDigit(r[k]) {
      var i := k / 2;
      HexEncodeAt(bytes, i);
      if k % 2 == 0 {
        assert k == 2 * i;
        DigitRoundTrip(bytes[i] as int / 16);
      } else {
        assert k == 2 * i + 1;
        DigitRoundTrip(bytes[i] as int % 16);
      }
    }
  }

  /** Reads back an even-length string of lower-case hex digit pairs. */
  function HexDecode(s: string): (r: Option<seq<Byte>>)
    decreases |s|
  {
    if |s| == 0 then Some([])
    else if |s| == 1 then None
    else
      match (DigitValue(s[0]), DigitValue(s[1]), HexDecode(s[2..]))
      case (Some(hi), Some(lo), Some(rest)) => Some([(hi * 16 + lo) as Byte] + rest)
      case _ => None
  }

  /** Decoding undoes encoding: the hex text determines the digest bytes. */
  lemma {:induction false} HexRoundTrip(bytes: seq<Byte>)
    ensures HexDecode(HexEncode(bytes)) == Some(bytes)
    decreases |bytes|
  {
    if bytes != [] {
      var b := bytes[0] as int;
      var r := HexEncode(bytes);
      DigitRoundTrip(b / 16);
      DigitRoundTrip(b % 16);
      HexRoundTrip(bytes[1..]);
      assert r == ByteToHex(bytes[0]) + HexEncode(bytes[1..]);
      assert r[2..] == HexEncode(bytes[1..]);
      assert DigitValue(r[0]) == Some(b / 16) && DigitValue(r[1]) == Some(b % 16);
      assert (b / 16 * 16 + b % 16) as Byte == bytes[0];
      assert HexDecode(r) == Some([bytes[0]] + bytes[1..]);
      assert [bytes[0]] + bytes[1..] == bytes;
    }
  }

  /** Encoding undoes decoding: whatever decodes was an encoding. */
  lemma {:induction false} HexDecodeInverse(s: string, bytes: seq<Byte>)
    requires HexDecode(s) == Some(bytes)
    ensures HexEncode(bytes) == s
    decreases |s|
  {
    if |s| >= 2 {
      var hi := DigitValue(s[0]).value;
      var lo := DigitValue(s[1]).value;
      var rest := HexDecode(s[2..]).value;
      assert bytes == [(hi * 16 + lo) as Byte] + rest;
      HexDecodeInverse(s[2..], rest);
      assert bytes[1..] == rest;
      assert ((hi * 16 + lo) / 16) == hi && (hi * 16 + lo) % 16 == lo;
      assert HexEncode(bytes) == ByteToHex(bytes[0]) + HexEncode(rest);
      assert s == [s[0], s[1]] + s[2..];
    }
  }

  /** The generator's `sha256(text)`: the SHA-256 digest of the UTF-8 bytes of
      `text`, written in hex. The digest is the parameter `digest`. */
  function Sha256(digest: string -> seq<Byte>, text: string): (r: string)
    ensures r == JoinedRadix16(digest(text))
    ensures |r| == 2 * |digest(text)|
    ensures forall k :: 0 <= k < |r| ==> IsLowerHexDigit(r[k])
    ensures HexDecode(r) == Some(digest(text))
  {
    HexEncodeIsLowerHex(digest(text));
    HexRoundTrip(digest(text));
    JoinedRadix16IsHexEncode(digest(text));
    HexEncode(digest(text))
  }
}
