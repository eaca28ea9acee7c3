/** Numeral conversion of `src/index.ts`: the static `decimalTo`, `binaryTo`, `hexTo` and
    `octalTo` of class `Bufferlo`, together with the two JavaScript built-ins they are made of,
    `parseInt(string, radix)` (section 19.2.5 of ECMA-262) and `Number.prototype.toString(radix)`
    restricted to integers. */
module Numerals {
  import opened Common

  /** A JavaScript number as this code produces it: an integer, or NaN when `parseInt`
      finds no digit. */
  datatype Num = NaN | Int(i: int)

  /** The `format`/`target` strings `'binary' | 'octal' | 'decimal' | 'hex'`. */
  datatype Format = Binary | Octal | Decimal | Hex

  /** The targets `decimalTo` accepts. */
  type Radix = f: Format | f != Decimal witness Binary

  /** What a conversion returns: a number (target `'decimal'`) or a digit string. */
  datatype Converted = Number(n: Num) | Text(s: string)

  function Base(f: Format): nat
  {
    match f
    case Binary => 2
    case Octal => 8
    case Decimal => 10
    case Hex => 16
  }

  /** The value `parseInt` gives the character `c` as a digit: `0`-`9`, then `a`-`z` and
      `A`-`Z` alike for 10-35; 36 for a character that is a digit in no radix. */
  function DigitValue(c: char): nat
  {
    if '0' <= c <= '9' then c as int - '0' as int
    else if 'a' <= c <= 'z' then c as int - 'a' as int + 10
    else if 'A' <= c <= 'Z' then c as int - 'A' as int + 10
    else 36
  }

  predicate IsDigit(c: char, base: nat)
  {
    DigitValue(c) < base
  }

  /** The characters `toString(radix)` writes: `0`-`9` and lower-case `a`-`f`. */
  predicate IsLowerDigit(c: char)
  {
    '0' <= c <= '9' || 'a' <= c <= 'f'
  }

  /** The digit `toString(radix)` writes for `d`. */
  function DigitChar(d: nat): (c: char)
    requires d < 16
    ensures DigitValue(c) == d
    ensures IsLowerDigit(c)
  {
    if d < 10 then ('0' as int + d) as char else ('a' as int + d - 10) as char
  }

  /** `Number.prototype.toString(base)` of a non-negative integer: lower-case digits of
      `base`, with no leading zero except for 0 itself. */
  function Digits(n: nat, base: nat): (s: string)
    requires 2 <= base <= 16
    ensures |s| >= 1
    ensures forall k :: 0 <= k < |s| ==> IsDigit(s[k], base) && IsLowerDigit(s[k])
    ensures s[0] == '0' ==> n == 0 && s == "0"
    decreases n
  {
    if n < base then [DigitChar(n)]
    else
      DivMod(n, base);
      Digits(n / base, base) + [DigitChar(n % base)]
  }

  /** Reading `Digits(n, base)` back in `base` gives `n`. */
  lemma {:induction false} DigitsValue(n: nat, base: nat)
    requires 2 <= base <= 16
    ensures Value(Digits(n, base), base) == n
    decreases n
  {
    if n >= base {
      var q, d := n / base, n % base;
      DivMod(n, base);
      DigitsValue(q, base);
      var p := Digits(q, base);
      assert Digits(n, base) == p + [DigitChar(d)];
      ValueOfSnoc(p, DigitChar(d), base);
      assert Value(Digits(n, base), base) == q * base + d;
    }
  }

  /** The mathematical value of the digit string `z` read in `base`, most significant first. */
  function Value(z: string, base: nat): nat
  {
    if z == [] then 0 else Value(z[..|z| - 1], base) * base + DigitValue(z[|z| - 1])
  }

  lemma ValueOfSnoc(z: string, c: char, base: nat)
    ensures Value(z + [c], base) == Value(z, base) * base + DigitValue(c)
  {
    assert (z + [c])[..|z|] == z;
  }

  lemma DivMod(n: nat, base: nat)
    requires base >= 2
    ensures (n / base) * base + n % base == n
    ensures 0 <= n % base < base
    ensures n >= base ==> 1 <= n / base < n
  {
  }

  /** `StrWhiteSpaceChar` of ECMA-262: white space (tab, vertical tab, form feed, the
      byte-order mark and every space separator) and the four line terminators. */
  predicate IsWhiteSpace(c: char)
  {
    c == '\t' || c == '\U{B}' || c == '\U{C}' || c == '\U{FEFF}' ||
    c == ' ' || c == '\U{A0}' || c == '\U{1680}' || '\U{2000}' <= c <= '\U{200A}' ||
    c == '\U{202F}' || c == '\U{205F}' || c == '\U{3000}' ||
    c == '\n' || c == '\r' || c == '\U{2028}' || c == '\U{2029}'
  }

  /** `s` with its leading white space removed. */
  function TrimStart(s: string): string
  {
    if s != [] && IsWhiteSpace(s[0]) then TrimStart(s[1..]) else s
  }

  /** Trimming drops leading white space only: what is left is a suffix of `s` that does
      not start with white space, and everything dropped is white space. */
  lemma {:induction false} TrimStartDropsWhiteSpace(s: string)
    ensures |TrimStart(s)| <= |s| && TrimStart(s) == s[|s| - |TrimStart(s)|..]
    ensures TrimStart(s) == [] || !IsWhiteSpace(TrimStart(s)[0])
    ensures forall k :: 0 <= k < |s| - |TrimStart(s)| ==> IsWhiteSpace(s[k])
  {
    if s != [] && IsWhiteSpace(s[0]) {
      var t := TrimStart(s[1..]);
      TrimStartDropsWhiteSpace(s[1..]);
      assert TrimStart(s) == t;
      assert s[1..][|s| - 1 - |t|..] == s[|s| - |t|..];
      forall k | 0 <= k < |s| - |t|
        ensures IsWhiteSpace(s[k])
      {
        if k > 0 {
          assert s[k] == s[1..][k - 1];
        }
      }
    }
  }

  /** The longest prefix of `s` made of digits of `base`. */
  function DigitPrefix(s: string, base: nat): string
  {
    if s != [] && IsDigit(s[0], base) then [s[0]] + DigitPrefix(s[1..], base) else []
  }

  /** `DigitPrefix` is the longest run of digits `s` starts with. */
  lemma {:induction false} DigitPrefixIsLongestRun(s: string, base: nat)
    ensures |DigitPrefix(s, base)| <= |s| && DigitPrefix(s, base) == s[..|DigitPrefix(s, base)|]
    ensures forall k :: 0 <= k < |DigitPrefix(s, base)| ==> IsDigit(s[k], base)
    ensures |DigitPrefix(s, base)| < |s| ==> !IsDigit(s[|DigitPrefix(s, base)|], base)
  {
    if s != [] && IsDigit(s[0], base) {
      DigitPrefixIsLongestRun(s[1..], base);
    }
  }

  /** `parseInt(s, radix)` for the radixes the class passes: skip leading white space, read
      one sign, drop a `0x`/`0X` prefix in radix 16, then read the longest run of digits;
      NaN when that run is empty. Blank input is NaN, a negative number needs a `-` after the
      white space, and a number needs at least one digit of the radix somewhere in `s`. */
  function ParseInt(s: string, radix: Radix): (n: Num)
    ensures TrimStart(s) == [] ==> n == NaN
    ensures n.Int? && n.i < 0 ==> TrimStart(s) != [] && TrimStart(s)[0] == '-'
    ensures n.Int? ==> exists k :: 0 <= k < |s| && IsDigit(s[k], Base(radix))
  {
    var t := TrimStart(s);
    var negative := t != [] && t[0] == '-';
    var v := StripHexPrefix(StripSign(t), radix);
    TrimStartDropsWhiteSpace(s);
    assert v != [] ==> v[0] == s[|s| - |v|];
    ParseDigits(v, Base(radix), negative)
  }

  /** `t` without one leading `-` or `+`. */
  function StripSign(t: string): string
  {
    if t != [] && (t[0] == '-' || t[0] == '+') then t[1..] else t
  }

  /** `u` without a leading `0x` or `0X` when the radix is 16. */
  function StripHexPrefix(u: string, radix: Radix): string
  {
    if radix == Hex && |u| >= 2 && u[0] == '0' && (u[1] == 'x' || u[1] == 'X') then u[2..] else u
  }

  /** The signed value of the digits `v` starts with, or NaN when it starts with none. */
  function ParseDigits(v: string, base: nat, negative: bool): Num
  {
    var z := DigitPrefix(v, base);
    if z == [] then NaN
    else if negative then Int(-(Value(z, base) as int))
    else Int(Value(z, base))
  }

  /** A numeral as `toString(base)` writes one: lower-case digits of `base` with no leading
      zero, except for 0 itself. */
  predicate IsNumeral(d: string, base: nat)
  {
    d != [] && (forall k :: 0 <= k < |d| ==> IsDigit(d[k], base) && IsLowerDigit(d[k])) &&
    (d[0] == '0' ==> d == "0")
  }

  /** `s` is how `toString(base)` writes the integer `i`: a `-` exactly when `i` is negative,
      then the numeral whose value is the magnitude of `i`. */
  predicate SignedNumeral(s: string, i: int, base: nat)
  {
    s != [] && (s[0] == '-' <==> i < 0) &&
    if i < 0 then IsNumeral(s[1..], base) && Value(s[1..], base) == -i
    else IsNumeral(s, base) && Value(s, base) == i
  }

  /** `Bufferlo.decimalTo(decimal, target)`: `decimal.toString(2 | 8 | 16)`. "NaN" exactly for
      NaN, the signed numeral of an integer otherwise. */
  function DecimalTo(decimal: Num, target: Radix): (s: string)
    ensures decimal == NaN <==> s == "NaN"
    ensures decimal.Int? ==> SignedNumeral(s, decimal.i, Base(target))
  {
    match decimal
    case NaN => "NaN"
    case Int(i) =>
      var s := if i < 0 then "-" + Digits(-i, Base(target)) else Digits(i, Base(target));
      RenderingIsSignedNumeral(s, i, Base(target));
      s
  }

  lemma RenderingIsSignedNumeral(s: string, i: int, base: nat)
    requires 2 <= base <= 16
    requires s == if i < 0 then "-" + Digits(-i, base) else Digits(i, base)
    ensures SignedNumeral(s, i, base) && s != "NaN"
  {
    if i < 0 {
      assert s[1..] == Digits(-i, base);
      DigitsValue(-i, base);
    } else {
      DigitsValue(i, base);
      assert IsLowerDigit(s[0]);
    }
  }

  /** A number as `at` hands it out in `format`: the number itself for `'decimal'`,
      otherwise its `decimalTo` rendering, which `parseInt` in that radix reads back as `n`. */
  function Render(n: Num, format: Format): (c: Converted)
    ensures c.Number? <==> format == Decimal
    ensures c.Number? ==> c.n == n
    ensures format != Decimal ==> c.Text? && ParseInt(c.s, format) == n
  {
    if format == Decimal then Number(n)
    else
      ParseIntInvertsDecimalTo(n, format);
      Text(DecimalTo(n, format))
  }

  /** `Bufferlo.binaryTo(binary, target)`; target `'binary'` reaches the `default` branch,
      which hands the string back unchanged. Any other target gets the parsed number rendered
      again; a string result denotes the same number in the target radix. */
  function BinaryTo(binary: string, target: Format): (c: Converted)
    ensures c.Number? <==> target == Decimal
    ensures target == Binary ==> c == Text(binary)
    ensures target != Binary ==> c == Render(ParseInt(binary, Binary), target)
    ensures target != Decimal ==> c.Text? && ParseInt(c.s, target) == ParseInt(binary, Binary)
  {
    match target
    case Decimal => Number(ParseInt(binary, Binary))
    case Octal => Text(DecimalTo(ParseInt(binary, Binary), Octal))
    case Hex => Text(DecimalTo(ParseInt(binary, Binary), Hex))
    case Binary => Text(binary)
  }

  /** `Bufferlo.hexTo(hex, target)`: the parsed number rendered again in `target`; a string
      result denotes the same number in the target radix. */
  function HexTo(hex: string, target: Format): (c: Converted)
    ensures c == Render(ParseInt(hex, Hex), target)
    ensures target != Decimal ==> c.Text? && ParseInt(c.s, target) == ParseInt(hex, Hex)
  {
    if target == Decimal then Number(ParseInt(hex, Hex)) else Text(DecimalTo(ParseInt(hex, Hex), target))
  }

  /** `Bufferlo.octalTo(octal, target)`: the parsed number rendered again in `target`; a
      string result denotes the same number in the target radix. */
  function OctalTo(octal: string, target: Format): (c: Converted)
    ensures c == Render(ParseInt(octal, Octal), target)
    ensures target != Decimal ==> c.Text? && ParseInt(c.s, target) == ParseInt(octal, Octal)
  {
    if target == Decimal then Number(ParseInt(octal, Octal)) else Text(DecimalTo(ParseInt(octal, Octal), target))
  }

  /** The ToUint8 conversion a store into a `Uint8Array` applies: NaN becomes 0, an integer
      is reduced modulo 256. */
  function Uint8(n: Num): (b: Byte)
    ensures n.Int? && 0 <= n.i < 256 ==> b == n.i
    ensures n.Int? ==> (b - n.i) % 256 == 0
    ensures n.NaN? ==> b == 0
  {
    match n
    case NaN => 0
    case Int(i) => i % 256
  }

  lemma {:induction false} DigitPrefixOfDigits(s: string, base: nat)
    requires forall k :: 0 <= k < |s| ==> IsDigit(s[k], base)
    ensures DigitPrefix(s, base) == s
  {
    if s != [] {
      DigitPrefixOfDigits(s[1..], base);
    }
  }

  /** A run of digits, with or without a leading `-`, has no white space to skip. */
  lemma SignedDigitsUntrimmed(d: string)
    requires d != [] && IsLowerDigit(d[0])
    ensures TrimStart(d) == d && StripSign(d) == d
    ensures TrimStart("-" + d) == "-" + d && StripSign("-" + d) == d
  {
    var s := "-" + d;
    assert s[0] == '-' && s[1..] == d;
    Untrimmed(s);
    Untrimmed(d);
  }

  lemma Untrimmed(s: string)
    requires s != [] && !IsWhiteSpace(s[0])
    ensures TrimStart(s) == s
  {
  }

  /** `toString(radix)` writes no `0x` prefix: its digits are never `x` or `X`. */
  lemma NoHexPrefix(d: string, r: Radix)
    requires forall k :: 0 <= k < |d| ==> IsLowerDigit(d[k])
    ensures StripHexPrefix(d, r) == d
  {
    if |d| >= 2 {
      assert IsLowerDigit(d[1]);
    }
  }

  lemma ParseIntOfNegativeDigits(d: string, r: Radix)
    requires d != [] && IsLowerDigit(d[0]) && StripHexPrefix(d, r) == d
    requires forall k :: 0 <= k < |d| ==> IsDigit(d[k], Base(r))
    ensures ParseInt("-" + d, r) == Int(-(Value(d, Base(r)) as int))
  {
    SignedDigitsUntrimmed(d);
    ParseIntOfClean("-" + d, d, r);
    ParseDigitsOfDigits(d, Base(r), true);
  }

  lemma ParseIntOfPlainDigits(d: string, r: Radix)
    requires d != [] && IsLowerDigit(d[0]) && StripHexPrefix(d, r) == d
    requires forall k :: 0 <= k < |d| ==> IsDigit(d[k], Base(r))
    ensures ParseInt(d, r) == Int(Value(d, Base(r)))
  {
    SignedDigitsUntrimmed(d);
    ParseIntOfClean(d, d, r);
    ParseDigitsOfDigits(d, Base(r), false);
  }

  /** With no white space to skip and no `0x` to drop, `parseInt` reads the digits after
      the sign. */
  lemma ParseIntOfClean(s: string, u: string, r: Radix)
    requires TrimStart(s) == s && StripSign(s) == u && StripHexPrefix(u, r) == u
    ensures ParseInt(s, r) == ParseDigits(u, Base(r), s != [] && s[0] == '-')
  {
  }

  lemma ParseDigitsOfDigits(d: string, base: nat, negative: bool)
    requires d != []
    requires forall k :: 0 <= k < |d| ==> IsDigit(d[k], base)
    ensures ParseDigits(d, base, negative) == Int(if negative then -(Value(d, base) as int) else Value(d, base))
  {
    DigitPrefixOfDigits(d, base);
  }

  /** `parseInt` reads back what `decimalTo` writes, for every integer and for NaN. */
  lemma ParseIntInvertsDecimalTo(n: Num, r: Radix)
    ensures ParseInt(DecimalTo(n, r), r) == n
  {
    match n
    case NaN =>
      ParseIntOfNaN(r);
    case Int(i) =>
      ParseIntOfRendering(i, r);
  }

  /** The rendering "NaN" has no digits in radix 2, 8 or 16, so it parses to NaN. */
  lemma ParseIntOfNaN(r: Radix)
    ensures ParseInt("NaN", r) == NaN
  {
    var s := "NaN";
    assert s[0] == 'N' && !IsDigit(s[0], Base(r));
    Untrimmed(s);
    assert StripHexPrefix(StripSign(s), r) == s;
    ParseIntOfClean(s, s, r);
  }

  lemma ParseIntOfRendering(i: int, r: Radix)
    ensures ParseInt(DecimalTo(Int(i), r), r) == Int(i)
  {
    if i < 0 {
      ParseIntOfNegative(i, r);
    } else {
      ParseIntOfNatural(i, r);
    }
  }

  lemma ParseIntOfNegative(i: int, r: Radix)
    requires i < 0
    ensures ParseInt(DecimalTo(Int(i), r), r) == Int(i)
  {
    NegativeRendering(i, r);
    ParseIntOfNegatedDigits(DecimalTo(Int(i), r), -i, r);
  }

  lemma ParseIntOfNatural(i: nat, r: Radix)
    ensures ParseInt(DecimalTo(Int(i), r), r) == Int(i)
  {
    ParseIntOfDigitsOf(DecimalTo(Int(i), r), i, r);
  }

  lemma NegativeRendering(i: int, r: Radix)
    requires i < 0
    ensures DecimalTo(Int(i), r) == "-" + Digits(-i, Base(r))
  {
  }

  /** `parseInt` reads `-` followed by the digits of `n` as `-n`. */
  lemma ParseIntOfNegatedDigits(s: string, n: nat, r: Radix)
    requires s == "-" + Digits(n, Base(r))
    ensures ParseInt(s, r) == Int(-(n as int))
  {
    var d := Digits(n, Base(r));
    DigitsValue(n, Base(r));
    NoHexPrefix(d, r);
    ParseIntOfNegativeDigits(d, r);
  }

  /** `parseInt` reads the digits of `n` as `n`. */
  lemma ParseIntOfDigitsOf(s: string, n: nat, r: Radix)
    requires s == Digits(n, Base(r))
    ensures ParseInt(s, r) == Int(n)
  {
    DigitsValue(n, Base(r));
    NoHexPrefix(s, r);
    ParseIntOfPlainDigits(s, r);
  }

  /** The three parsers invert `decimalTo` when asked for `'decimal'`, and re-render in any
      other format exactly as `decimalTo` would have rendered the number directly. */
  lemma CrossConversionsRerender(n: Num, target: Format)
    ensures BinaryTo(DecimalTo(n, Binary), target) == Render(n, target)
    ensures OctalTo(DecimalTo(n, Octal), target) == Render(n, target)
    ensures HexTo(DecimalTo(n, Hex), target) == Render(n, target)
  {
    ParseIntInvertsDecimalTo(n, Binary);
    ParseIntInvertsDecimalTo(n, Octal);
    ParseIntInvertsDecimalTo(n, Hex);
  }

  /** A byte written with `decimalTo` and parsed back is stored as that same byte. */
  lemma StoredRenderingIsByte(b: Byte, r: Radix)
    ensures Uint8(ParseInt(DecimalTo(Int(b), r), r)) == b
  {
    ParseIntInvertsDecimalTo(Int(b), r);
  }

  /** 97, the letter `a`, in binary: the rendering the test suite's `at` scenario reads. */
  lemma BinaryOf97()
    ensures DecimalTo(Int(97), Binary) == "1100001"
  {
  }

  /** 97 in octal. */
  lemma OctalOf97()
    ensures DecimalTo(Int(97), Octal) == "141"
  {
  }

  /** 97 in hex. */
  lemma HexOf97()
    ensures DecimalTo(Int(97), Hex) == "61"
  {
  }
}
