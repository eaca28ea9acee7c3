/** The Node.js string encodings the class passes to `Buffer.from`, `Buffer.byteLength` and
    `buf.write`, and the hex rendering behind `toHex`. A string is split into "units": the
    bytes of one character (utf-8), of one UTF-16 code unit (ascii, latin1, utf16le) or of one
    pair of hex digits (hex). `buf.write` stores whole units only. */
module TextCodec {
  import opened Common
  import Numerals

  /** The `BufferEncoding` values modelled: `'utf-8'`/`'utf8'`, `'ascii'`,
      `'latin1'`/`'binary'`, `'utf16le'`/`'ucs2'` and `'hex'`. */
  datatype Encoding = Utf8 | Ascii | Latin1 | Utf16le | Hex

  /** A UTF-16 code unit: JavaScript strings are sequences of these. */
  type CodeUnit = u: int | 0 <= u < 0x10000

  /** The code units of one character: itself below U+10000, a surrogate pair above. */
  function CharCodeUnits(c: char): (r: seq<CodeUnit>)
    ensures 1 <= |r| <= 2
    ensures |r| == 1 <==> (c as int) < 0x10000
  {
    var v := c as int;
    if v < 0x10000 then [v]
    else [0xD800 + (v - 0x10000) / 0x400, 0xDC00 + (v - 0x10000) % 0x400]
  }

  /** The code units of a string: what JavaScript's `length` counts. */
  function CodeUnits(s: string): (r: seq<CodeUnit>)
    ensures |r| >= |s|
  {
    if s == [] then [] else CharCodeUnits(s[0]) + CodeUnits(s[1..])
  }

  /** The UTF-8 bytes of one Unicode scalar value. */
  function Utf8OfChar(c: char): (r: seq<Byte>)
    ensures 1 <= |r| <= 4
    ensures |r| == 1 <==> (c as int) < 0x80
  {
    var v := c as int;
    if v < 0x80 then [v]
    else if v < 0x800 then [0xC0 + v / 0x40, 0x80 + v % 0x40]
    else if v < 0x10000 then [0xE0 + v / 0x1000, 0x80 + v / 0x40 % 0x40, 0x80 + v % 0x40]
    else [0xF0 + v / 0x40000, 0x80 + v / 0x1000 % 0x40, 0x80 + v / 0x40 % 0x40, 0x80 + v % 0x40]
  }

  /** The units one character becomes in a text encoding (every encoding but hex). */
  function CharUnits(c: char, enc: Encoding): (r: seq<seq<Byte>>)
    requires enc != Hex
  {
    var cu := CharCodeUnits(c);
    match enc
    case Utf8 => [Utf8OfChar(c)]
    case Ascii | Latin1 => if |cu| == 1 then [[cu[0] % 256]] else [[cu[0] % 256], [cu[1] % 256]]
    case Utf16le =>
      if |cu| == 1 then [[cu[0] % 256, cu[0] / 256]]
      else [[cu[0] % 256, cu[0] / 256], [cu[1] % 256, cu[1] / 256]]
  }

  predicate IsHexDigit(c: char)
  {
    Numerals.IsDigit(c, 16)
  }

  /** Node's hex decoder: one byte per pair of hex digits (either case), stopping at the
      first pair that is not two hex digits and dropping a lone trailing digit. */
  function HexUnits(s: string): seq<seq<Byte>>
  {
    if |s| >= 2 && IsHexDigit(s[0]) && IsHexDigit(s[1])
    then [[Numerals.DigitValue(s[0]) * 16 + Numerals.DigitValue(s[1])]] + HexUnits(s[2..])
    else []
  }

  /** The units `content` becomes in `enc`. */
  function Units(content: string, enc: Encoding): seq<seq<Byte>>
  {
    if enc == Hex then HexUnits(content)
    else if content == [] then []
    else CharUnits(content[0], enc) + Units(content[1..], enc)
  }

  function Flatten(units: seq<seq<Byte>>): seq<Byte>
  {
    if units == [] then [] else units[0] + Flatten(units[1..])
  }

  /** `Buffer.from(content, enc)`: all the bytes of `content` in `enc`. */
  function Encoded(content: string, enc: Encoding): seq<Byte>
  {
    Flatten(Units(content, enc))
  }

  /** The UTF-8 length Node counts over UTF-16 code units: one byte below U+0080, two below
      U+0800, four for a surrogate pair and three for any other unit. */
  function Utf8Count(units: seq<CodeUnit>): nat
  {
    if units == [] then 0
    else if units[0] < 0x80 then 1 + Utf8Count(units[1..])
    else if units[0] < 0x800 then 2 + Utf8Count(units[1..])
    else if 0xD800 <= units[0] < 0xDC00 && |units| >= 2 && 0xDC00 <= units[1] < 0xE000 then 4 + Utf8Count(units[2..])
    else 3 + Utf8Count(units[1..])
  }

  /** `Buffer.byteLength(content, enc)`, counted over the code units of `content`. For hex it
      is half the string's length, whether or not the characters are hex digits. */
  function ByteLength(content: string, enc: Encoding): nat
  {
    match enc
    case Utf8 => Utf8Count(CodeUnits(content))
    case Ascii | Latin1 => |CodeUnits(content)|
    case Utf16le => 2 * |CodeUnits(content)|
    case Hex => |CodeUnits(content)| / 2
  }

  /** `buf.toString('hex')`: two lower-case digits per byte. */
  function HexEncode(bytes: seq<Byte>): (s: string)
    ensures |s| == 2 * |bytes|
    ensures forall k :: 0 <= k < |s| ==> IsHexDigit(s[k]) && Numerals.IsLowerDigit(s[k])
  {
    if bytes == [] then ""
    else [Numerals.DigitChar(bytes[0] / 16), Numerals.DigitChar(bytes[0] % 16)] + HexEncode(bytes[1..])
  }

  /** A string `toString('hex')` can produce: an even number of lower-case hex digits. */
  predicate IsCanonicalHex(s: string)
  {
    |s| % 2 == 0 && forall k :: 0 <= k < |s| ==> IsHexDigit(s[k]) && Numerals.IsLowerDigit(s[k])
  }

  lemma {:induction false} FlattenAppend(a: seq<seq<Byte>>, b: seq<seq<Byte>>)
    ensures Flatten(a + b) == Flatten(a) + Flatten(b)
  {
    if a == [] {
      assert a + b == b;
    } else {
      assert (a + b)[0] == a[0];
      assert (a + b)[1..] == a[1..] + b;
      FlattenAppend(a[1..], b);
    }
  }

  /** Decoding the hex rendering of a byte sequence gives the bytes back. */
  lemma {:induction false} HexRoundTrip(bytes: seq<Byte>)
    ensures Encoded(HexEncode(bytes), Hex) == bytes
  {
    if bytes != [] {
      var s := HexEncode(bytes);
      var b := bytes[0];
      assert s[2..] == HexEncode(bytes[1..]);
      assert Numerals.DigitValue(s[0]) * 16 + Numerals.DigitValue(s[1]) == b;
      HexRoundTrip(bytes[1..]);
    }
  }

  /** Rendering the bytes of a canonical hex string gives the string back. */
  lemma {:induction false} HexDecodeCanonical(s: string)
    requires IsCanonicalHex(s)
    ensures |Encoded(s, Hex)| == |s| / 2
    ensures HexEncode(Encoded(s, Hex)) == s
  {
    if s != [] {
      assert IsCanonicalHex(s[2..]) by {
        forall k | 0 <= k < |s[2..]|
          ensures IsHexDigit(s[2..][k]) && Numerals.IsLowerDigit(s[2..][k])
        {
          assert s[2..][k] == s[k + 2];
        }
      }
      HexDecodeCanonical(s[2..]);
      var b := Numerals.DigitValue(s[0]) * 16 + Numerals.DigitValue(s[1]);
      assert Encoded(s, Hex) == [b] + Encoded(s[2..], Hex);
      HexPair(Numerals.DigitValue(s[0]), Numerals.DigitValue(s[1]));
      LowerDigitIsDigitChar(s[0]);
      LowerDigitIsDigitChar(s[1]);
    }
  }

  lemma HexPair(hi: nat, lo: nat)
    requires hi < 16 && lo < 16
    ensures (hi * 16 + lo) / 16 == hi && (hi * 16 + lo) % 16 == lo
  {
  }

  lemma LowerDigitIsDigitChar(c: char)
    requires IsHexDigit(c) && Numerals.IsLowerDigit(c)
    ensures Numerals.DigitChar(Numerals.DigitValue(c)) == c
  {
  }

  /** `Buffer.byteLength` is exactly the number of bytes `Buffer.from` produces in every
      encoding but hex, where it only bounds it from above. */
  lemma {:induction false} ByteLengthCountsEncodedBytes(content: string, enc: Encoding)
    ensures enc != Hex ==> ByteLength(content, enc) == |Encoded(content, enc)|
    ensures enc == Hex ==> |Encoded(content, enc)| <= ByteLength(content, enc)
  {
    if enc == Hex {
      HexBytesBound(content);
    } else if content != [] {
      var c, rest := content[0], content[1..];
      ByteLengthCountsEncodedBytes(rest, enc);
      assert Encoded(content, enc) == Flatten(CharUnits(c, enc)) + Encoded(rest, enc) by {
        FlattenAppend(CharUnits(c, enc), Units(rest, enc));
      }
      assert CodeUnits(content) == CharCodeUnits(c) + CodeUnits(rest);
      CharByteLength(c, CodeUnits(rest), enc);
    }
  }

  /** One character adds as many bytes to `Buffer.byteLength` as `Buffer.from` makes of it. */
  lemma CharByteLength(c: char, rest: seq<CodeUnit>, enc: Encoding)
    requires enc != Hex
    ensures enc == Utf8 ==>
      Utf8Count(CharCodeUnits(c) + rest) == |Flatten(CharUnits(c, enc))| + Utf8Count(rest)
    ensures enc == Ascii || enc == Latin1 ==> |CharCodeUnits(c)| == |Flatten(CharUnits(c, enc))|
    ensures enc == Utf16le ==> 2 * |CharCodeUnits(c)| == |Flatten(CharUnits(c, enc))|
  {
    var units := CharUnits(c, enc);
    assert Flatten(units) == units[0] + Flatten(units[1..]);
    if |units| == 2 {
      assert Flatten(units[1..]) == units[1] + Flatten([]);
    }
    if enc == Utf8 {
      Utf8CountOfChar(c, rest);
    }
  }

  /** The code units of one character count as many bytes as its UTF-8 encoding has. */
  lemma Utf8CountOfChar(c: char, rest: seq<CodeUnit>)
    ensures Utf8Count(CharCodeUnits(c) + rest) == |Utf8OfChar(c)| + Utf8Count(rest)
  {
    var cu := CharCodeUnits(c);
    if (c as int) < 0x10000 {
      assert (cu + rest)[0] == cu[0] && (cu + rest)[1..] == rest;
    } else {
      assert (cu + rest)[0] == cu[0] && (cu + rest)[1] == cu[1] && (cu + rest)[2..] == rest;
    }
  }

  lemma {:induction false} HexBytesBound(s: string)
    ensures |Encoded(s, Hex)| <= |s| / 2
  {
    if |s| >= 2 && IsHexDigit(s[0]) && IsHexDigit(s[1]) {
      HexBytesBound(s[2..]);
    }
  }
}
