/**
 * The colour values of the theme configuration (`Color` in
 * src/config.rs): parsed from `#RGB`, `#RGBA`, `#RRGGBB`, `#AARRGGBB` or
 * `rgb(r,g,b)`, printed as `#rrggbb`.
 */
module Config {
  import opened Wrappers
  import opened Utf8
  import opened Arith

  newtype u8 = x: int | 0 <= x < 0x100

  /** A colour: red, green and blue channels. */
  datatype Color = Color(r: u8, g: u8, b: u8)

  /** The ways parsing a colour fails; `Message` gives each one's text. */
  datatype ColorError =
    | InvalidSyntax
    | InvalidDigit
    | InvalidRed
    | InvalidBlue
    | InvalidGreen
    | InvalidColor

  /** The error text the source reports. */
  function Message(e: ColorError): string {
    match e
    case InvalidSyntax => "invalid syntax for color. rgb(r,g,b) or #RRGGBB or #RGB"
    case InvalidDigit => "invalid digit found in string"
    case InvalidRed => "invalid red channel"
    case InvalidBlue => "invalid blue channel"
    case InvalidGreen => "invalid green channel"
    case InvalidColor => "invalid color"
  }

  /** The punctuation of the colour syntax. */
  const HASH: Bytes := "#"
  const RGB_OPEN: Bytes := "rgb("
  const CLOSE: Bytes := ")"
  const COMMA: Bytes := ","

  // ---------------------------------------------------------------------
  // Digits
  // ---------------------------------------------------------------------

  /** A digit in the given radix (10 or 16); hex letters in either case. */
  predicate IsDigit(c: Byte, radix: nat) {
    '0' <= c <= '9' || (radix == 16 && ('a' <= c <= 'f' || 'A' <= c <= 'F'))
  }

  /** The value of a digit byte. */
  function DigitOf(c: Byte): (n: nat)
    ensures IsDigit(c, 10) ==> n < 10
    ensures n < 16
  {
    if '0' <= c <= '9' then c as int - '0' as int
    else if 'a' <= c <= 'f' then c as int - 'a' as int + 10
    else if 'A' <= c <= 'F' then c as int - 'A' as int + 10
    else 0
  }

  predicate AllDigits(s: Bytes, radix: nat) {
    forall i :: 0 <= i < |s| ==> IsDigit(s[i], radix)
  }

  /** The value of a string of digits, most significant first. */
  function Value(s: Bytes, radix: nat): nat
    decreases |s|
  {
    if s == [] then 0 else Value(s[..|s| - 1], radix) * radix + DigitOf(s[|s| - 1])
  }

  /** The digits `from_str_radix` reads: the text after an optional leading `+`. */
  function Magnitude(s: Bytes): (d: Bytes)
    ensures s != [] && s[0] == '+' ==> d == s[1..]
    ensures !(s != [] && s[0] == '+') ==> d == s
  {
    if s != [] && s[0] == '+' then s[1..] else s
  }

  /**
   * `from_str_radix` for an unsigned type: an optional leading `+`, then
   * at least one digit. `None` stands for every error; the caller checks
   * the width.
   */
  function FromStrRadix(s: Bytes, radix: nat): (r: Option<nat>)
    requires radix == 10 || radix == 16
    ensures s == [] || s == "+" ==> r.None?
    ensures r.Some? <==> Magnitude(s) != [] && AllDigits(Magnitude(s), radix)
    ensures r.Some? ==> r.value == Value(Magnitude(s), radix)
    ensures r.Some? ==> r.value < Pow(radix, |Magnitude(s)|)
  {
    var d := Magnitude(s);
    if d != [] && AllDigits(d, radix) then
      ValueBound(d, radix);
      Some(Value(d, radix))
    else None
  }

  /** n digits are worth less than radix^n. */
  lemma {:induction false} ValueBound(s: Bytes, radix: nat)
    requires radix == 10 || radix == 16
    requires AllDigits(s, radix)
    ensures Value(s, radix) < Pow(radix, |s|)
    decreases |s|
  {
    if s != [] {
      var s' := s[..|s| - 1];
      ValueBound(s', radix);
      assert IsDigit(s[|s| - 1], radix);
      BoundStep(Value(s', radix), Pow(radix, |s'|), radix, DigitOf(s[|s| - 1]));
    }
  }

  lemma BoundStep(high: nat, p: nat, radix: nat, low: nat)
    requires high < p && low < radix
    ensures high * radix + low < radix * p
  {
    assert (high + 1) * radix <= p * radix;
  }

  /** `u8::from_str`: a decimal number that fits in a byte. */
  function ParseU8(s: Bytes): (r: Option<u8>)
    ensures r.Some? <==> FromStrRadix(s, 10).Some? && FromStrRadix(s, 10).value < 0x100
    ensures r.Some? ==> r.value as nat == Value(Magnitude(s), 10)
  {
    match FromStrRadix(s, 10)
    case Some(v) => if v < 0x100 then Some(v as u8) else None
    case None => None
  }

  // ---------------------------------------------------------------------
  // from_u16
  // ---------------------------------------------------------------------

  /** Nibble `k` of `x`, counting from the least significant. */
  function Nibble(x: nat, k: nat): (n: nat)
    ensures n < 16
  {
    x / Pow(16, k) % 16
  }

  /**
   * `Color::from_u16`: the three nibbles below the top one when the top
   * one is zero (`#RGB`), else the top three (`#RGBA`). Red and green
   * have their nibble doubled; blue is its nibble followed by the green
   * nibble, as the source writes it.
   */
  function FromU16(color: nat): (c: Color)
    requires color < 0x10000
    ensures Nibble(color, 3) == 0 ==>
      c == Color((17 * Nibble(color, 2)) as u8, (17 * Nibble(color, 1)) as u8, (16 * Nibble(color, 0) + Nibble(color, 1)) as u8)
    ensures Nibble(color, 3) != 0 ==>
      c == Color((17 * Nibble(color, 3)) as u8, (17 * Nibble(color, 2)) as u8, (16 * Nibble(color, 1) + Nibble(color, 2)) as u8)
  {
    var offset := if color / 0x1000 % 0x10 == 0 then 4 else 0;
    var r := color / Pow(2, 12 - offset) % 0x10;
    var g := color / Pow(2, 8 - offset) % 0x10;
    var b := color / Pow(2, 4 - offset) % 0x10;
    assert Pow(2, 12) == Pow(16, 3) && Pow(2, 8) == Pow(16, 2) && Pow(2, 4) == Pow(16, 1) && Pow(2, 0) == Pow(16, 0);
    Color((r * 0x10 + r) as u8, (g * 0x10 + g) as u8, (b * 0x10 + g) as u8)
  }

  /** `u32::to_be_bytes` without its first byte: the low three bytes, most significant first. */
  function LowBytes(num: nat): (c: Color) {
    Color((num / 0x10000 % 0x100) as u8, (num / 0x100 % 0x100) as u8, (num % 0x100) as u8)
  }

  // ---------------------------------------------------------------------
  // Display
  // ---------------------------------------------------------------------

  /** A lowercase hex digit. */
  function HexChar(n: nat): (c: Byte)
    requires n < 16
    ensures IsDigit(c, 16) && DigitOf(c) == n
    ensures c != '+' && !('A' <= c <= 'Z')
  {
    if n < 10 then ('0' as int + n) as char else ('a' as int + n - 10) as char
  }

  /** `{:02x}`: two lowercase hex digits. */
  function Hex2(x: u8): (s: Bytes)
    ensures |s| == 2 && AllDigits(s, 16) && Value(s, 16) == x as nat
  {
    var s := [HexChar(x as nat / 16), HexChar(x as nat % 16)];
    assert s[..1] == [s[0]] && s[..1][..0] == [];
    assert Value(s[..1], 16) == x as nat / 16;
    s
  }

  /** `Display for Color`: `#` and the channels as two lowercase hex digits each. */
  function ToString(c: Color): (s: Bytes)
    ensures |s| == 7 && s[0] == '#'
    ensures forall i :: 1 <= i < 7 ==> IsDigit(s[i], 16) && !('A' <= s[i] <= 'Z')
  {
    var s := HASH + (Hex2(c.r) + Hex2(c.g) + Hex2(c.b));
    assert forall i :: 1 <= i < 7 ==> s[i] in Hex2(c.r) || s[i] in Hex2(c.g) || s[i] in Hex2(c.b);
    s
  }

  // ---------------------------------------------------------------------
  // FromStr
  // ---------------------------------------------------------------------

  /** The position of the first `sep` in `s`. */
  function Find(s: Bytes, sep: Byte): (r: Option<nat>)
    ensures r.Some? ==> r.value < |s| && s[r.value] == sep && sep !in s[..r.value]
    ensures r.None? <==> sep !in s
    decreases |s|
  {
    if s == [] then None
    else if s[0] == sep then Some(0)
    else
      match Find(s[1..], sep)
      case None => None
      case Some(i) =>
        assert s[..i + 1] == [s[0]] + s[1..][..i];
        Some(i + 1)
  }

  /** `str::split`: the pieces between the separators, at least one. */
  function Split(s: Bytes, sep: Byte): (pieces: seq<Bytes>)
    ensures |pieces| >= 1
    ensures forall i :: 0 <= i < |pieces| ==> sep !in pieces[i]
    decreases |s|
  {
    match Find(s, sep)
    case None => [s]
    case Some(i) => [s[..i]] + Split(s[i + 1..], sep)
  }

  /** `str::split_terminator`: `split` without its last piece when that one is empty. */
  function SplitTerminator(s: Bytes, sep: Byte): (pieces: seq<Bytes>)
    ensures forall i :: 0 <= i < |pieces| ==> sep !in pieces[i]
  {
    DropEmptyLast(Split(s, sep))
  }

  /** The pieces without the empty one a trailing terminator leaves at the end. */
  function DropEmptyLast(all: seq<Bytes>): (r: seq<Bytes>)
    requires |all| >= 1
    ensures all[|all| - 1] == [] ==> r == all[..|all| - 1]
    ensures all[|all| - 1] != [] ==> r == all
  {
    if all[|all| - 1] == [] then all[..|all| - 1] else all
  }

  /** The channel at position `i` of `rgb(...)`, trimmed and parsed; `None` when absent or invalid. */
  function Channel(parts: seq<Bytes>, i: nat): Option<u8> {
    if i < |parts| then ParseU8(Trim(parts[i])) else None
  }

  /** The `#...` forms: three or four hex digits, or six or eight. */
  function ParseHex(rest: Bytes): (r: Result<Color, ColorError>)
    ensures |rest| !in {3, 4, 6, 8} ==> r == Err(InvalidSyntax)
    ensures |rest| in {3, 4, 6, 8} ==> (r.Err? <==> FromStrRadix(rest, 16).None?)
    ensures r.Err? ==> r.error == InvalidSyntax || r.error == InvalidDigit
    ensures (|rest| == 3 || |rest| == 4) && r.Ok? ==>
      FromStrRadix(rest, 16).Some? && FromStrRadix(rest, 16).value < 0x10000 &&
      r.value == FromU16(FromStrRadix(rest, 16).value)
    ensures (|rest| == 6 || |rest| == 8) && r.Ok? ==>
      FromStrRadix(rest, 16).Some? && r.value == LowBytes(FromStrRadix(rest, 16).value)
  {
    if |rest| == 3 || |rest| == 4 then
      match FromStrRadix(rest, 16)
      case None => Err(InvalidDigit)
      case Some(v) =>
        ShortValueFits(rest);
        Ok(FromU16(v))
    else if |rest| == 6 || |rest| == 8 then
      match FromStrRadix(rest, 16)
      case None => Err(InvalidDigit)
      case Some(v) => Ok(LowBytes(v))
    else Err(InvalidSyntax)
  }

  /**
   * The `rgb(...)` form: comma-separated decimal channels, each trimmed.
   * Note the order in which they are read: the second is stored as blue
   * and the third as green; channels after the third are ignored. The
   * first channel missing or invalid is the one reported.
   */
  function ParseRgb(inner: Bytes): (r: Result<Color, ColorError>)
    ensures var parts := SplitTerminator(inner, ',');
      r == Err(InvalidRed) <==> Channel(parts, 0).None?
    ensures var parts := SplitTerminator(inner, ',');
      r == Err(InvalidBlue) <==> Channel(parts, 0).Some? && Channel(parts, 1).None?
    ensures var parts := SplitTerminator(inner, ',');
      r == Err(InvalidGreen) <==>
        Channel(parts, 0).Some? && Channel(parts, 1).Some? && Channel(parts, 2).None?
    ensures var parts := SplitTerminator(inner, ',');
      r.Ok? <==> Channel(parts, 0).Some? && Channel(parts, 1).Some? && Channel(parts, 2).Some?
    ensures var parts := SplitTerminator(inner, ',');
      r.Ok? ==> r.value == Color(Channel(parts, 0).value, Channel(parts, 2).value, Channel(parts, 1).value)
  {
    var parts := SplitTerminator(inner, ',');
    match Channel(parts, 0)
    case None => Err(InvalidRed)
    case Some(r) =>
      match Channel(parts, 1)
      case None => Err(InvalidBlue)
      case Some(b) =>
        match Channel(parts, 2)
        case None => Err(InvalidGreen)
        case Some(g) => Ok(Color(r, g, b))
  }

  /** `FromStr for Color`: the `#` forms, the `rgb(...)` form, or an error. */
  function ParseColor(input: Bytes): (r: Result<Color, ColorError>)
    ensures !StartsWith(input, HASH) && !(StartsWith(input, RGB_OPEN) && EndsWith(input, CLOSE)) ==>
      r == Err(InvalidColor)
    ensures StartsWith(input, HASH) && |input| - 1 !in {3, 4, 6, 8} ==> r == Err(InvalidSyntax)
  {
    if StartsWith(input, HASH) then ParseHex(input[1..])
    else if StartsWith(input, RGB_OPEN) && EndsWith(input, CLOSE) then
      EndsWithSlice(input, CLOSE);
      ParseRgb(input[4..|input| - 1])
    else Err(InvalidColor)
  }

  /** Text after `#` is parsed by the hex forms. */
  lemma ParseHash(rest: Bytes)
    ensures ParseColor(HASH + rest) == ParseHex(rest)
  {
    var input := HASH + rest;
    assert StartsWith(input, HASH) by { assert input[..1] == HASH; }
    assert input[1..] == rest;
  }

  /** Text in `rgb(` and `)` is parsed as channels. */
  lemma ParseRgbForm(inner: Bytes)
    ensures ParseColor(RGB_OPEN + inner + CLOSE) == ParseRgb(inner)
  {
    var input := RGB_OPEN + inner + CLOSE;
    assert StartsWith(input, RGB_OPEN) by { assert input[..4] == RGB_OPEN; }
    EndsWithAppend(RGB_OPEN + inner, CLOSE);
    assert input[4..|input| - 1] == inner;
    assert !StartsWith(input, HASH) by { assert input[0] == 'r'; }
  }

  /** Three or four hex digits, with or without a `+`, fit in a `u16`. */
  lemma ShortValueFits(s: Bytes)
    requires |s| <= 4 && FromStrRadix(s, 16).Some?
    ensures FromStrRadix(s, 16).value < 0x10000
  {
    PowGrows(16, |Magnitude(s)|, 4);
    assert Pow(16, 4) == 0x10000;
  }

  // ---------------------------------------------------------------------
  // Properties
  // ---------------------------------------------------------------------

  /** Digits written one after another: the first group is shifted by the second's length. */
  lemma {:induction false} ValueConcat(a: Bytes, b: Bytes)
    ensures Value(a + b, 16) == Value(a, 16) * Pow(16, |b|) + Value(b, 16)
    decreases |b|
  {
    if b == [] {
      assert a + b == a;
    } else {
      var b' := b[..|b| - 1];
      var ab := a + b;
      assert ab[..|ab| - 1] == a + b';
      assert ab[|ab| - 1] == b[|b| - 1];
      ValueConcat(a, b');
      ShiftDigit(Value(a, 16), Pow(16, |b'|), Value(b', 16), 16, DigitOf(b[|b| - 1]));
    }
  }

  /** Appending a digit to the low part scales the high part once more. */
  lemma ShiftDigit(high: nat, p: nat, mid: nat, radix: nat, low: nat)
    ensures (high * p + mid) * radix + low == high * (radix * p) + (mid * radix + low)
  {
  }

  lemma AllDigitsConcat(a: Bytes, b: Bytes, radix: nat)
    ensures AllDigits(a + b, radix) <==> AllDigits(a, radix) && AllDigits(b, radix)
  {
    if AllDigits(a, radix) && AllDigits(b, radix) {
      forall i | 0 <= i < |a + b| ensures IsDigit((a + b)[i], radix) {
        if i >= |a| { assert (a + b)[i] == b[i - |a|]; }
      }
    }
    if AllDigits(a + b, radix) {
      forall i | 0 <= i < |b| ensures IsDigit(b[i], radix) {
        assert (a + b)[|a| + i] == b[i];
      }
      forall i | 0 <= i < |a| ensures IsDigit(a[i], radix) {
        assert (a + b)[i] == a[i];
      }
    }
  }

  /** Division by the radix undoes appending a low digit. */
  lemma DivMod(q: nat, rem: nat, d: nat)
    requires d == 0x100 || d == 0x10000
    requires rem < d
    ensures (q * d + rem) / d == q && (q * d + rem) % d == rem
  {
    if d == 0x100 {
      assert (q * 0x100 + rem) / 0x100 == q;
    } else {
      assert (q * 0x10000 + rem) / 0x10000 == q;
    }
  }

  /** The low three bytes of a number ending in three given bytes are those bytes. */
  lemma LowBytesOf(high: nat, c: Color)
    ensures LowBytes(((high * 0x100 + c.r as nat) * 0x100 + c.g as nat) * 0x100 + c.b as nat) == c
  {
    var r, g, b := c.r as nat, c.g as nat, c.b as nat;
    var top := high * 0x100 + r;
    var v := (top * 0x100 + g) * 0x100 + b;
    DivMod(top * 0x100 + g, b, 0x100);
    DivMod(top, g, 0x100);
    assert v == top * 0x10000 + (g * 0x100 + b);
    DivMod(top, g * 0x100 + b, 0x10000);
    DivMod(high, r, 0x100);
  }

  /** Whatever lies above the low three bytes does not change them. */
  lemma LowBytesHigh(high: nat, low: nat)
    requires low < 0x100_0000
    ensures LowBytes(high * 0x100_0000 + low) == LowBytes(low)
  {
    var t, b := low / 0x100, low % 0x100;
    var r, g := t / 0x100, t % 0x100;
    assert low == t * 0x100 + b;
    assert t == r * 0x100 + g;
    var c := Color(r as u8, g as u8, b as u8);
    assert high * 0x100_0000 + low == ((high * 0x100 + r) * 0x100 + g) * 0x100 + b;
    LowBytesOf(high, c);
    LowBytesOf(0, c);
  }

  /**
   * `#RRGGBB`, in either case: each pair of hex digits is one channel,
   * red first.
   */
  lemma SixDigits(rr: Bytes, gg: Bytes, bb: Bytes)
    requires |rr| == 2 && |gg| == 2 && |bb| == 2 && rr[0] != '+'
    requires AllDigits(rr, 16) && AllDigits(gg, 16) && AllDigits(bb, 16)
    ensures ParseColor(HASH + (rr + gg + bb)).Ok?
    ensures var c := ParseColor(HASH + (rr + gg + bb)).value;
      c.r as nat == Value(rr, 16) && c.g as nat == Value(gg, 16) && c.b as nat == Value(bb, 16)
  {
    ValueBound(rr, 16);
    ValueBound(gg, 16);
    ValueBound(bb, 16);
    assert Pow(16, 2) == 0x100;
    var r, g, b := Value(rr, 16) as u8, Value(gg, 16) as u8, Value(bb, 16) as u8;
    assert r as nat == Value(rr, 16) && g as nat == Value(gg, 16) && b as nat == Value(bb, 16);
    SixDigitsHex(rr, gg, bb, Color(r, g, b));
    ParseHash(rr + gg + bb);
  }

  /** The hex form of six digits whose pairs are the channels of `c` is `c`. */
  lemma SixDigitsHex(rr: Bytes, gg: Bytes, bb: Bytes, c: Color)
    requires |rr| == 2 && |gg| == 2 && |bb| == 2 && rr[0] != '+'
    requires AllDigits(rr, 16) && AllDigits(gg, 16) && AllDigits(bb, 16)
    requires c.r as nat == Value(rr, 16) && c.g as nat == Value(gg, 16) && c.b as nat == Value(bb, 16)
    ensures ParseHex(rr + gg + bb) == Ok(c)
  {
    var rest := rr + gg + bb;
    assert FromStrRadix(rest, 16) == Some((c.r as nat * 0x100 + c.g as nat) * 0x100 + c.b as nat) by {
      SixDigitValue(rr, gg, bb);
      assert rest[0] == rr[0];
      assert Magnitude(rest) == rest;
    }
    SixDigitsOf(rest, c);
  }

  /** Six digits worth the three bytes of `c` read as `c`. */
  lemma SixDigitsOf(rest: Bytes, c: Color)
    requires |rest| == 6
    requires FromStrRadix(rest, 16) == Some((c.r as nat * 0x100 + c.g as nat) * 0x100 + c.b as nat)
    ensures ParseHex(rest) == Ok(c)
  {
    ThreeBytes(c);
  }

  /** Six hex digits read as one number: three bytes, the first pair most significant. */
  lemma SixDigitValue(rr: Bytes, gg: Bytes, bb: Bytes)
    requires |rr| == 2 && |gg| == 2 && |bb| == 2
    requires AllDigits(rr, 16) && AllDigits(gg, 16) && AllDigits(bb, 16)
    ensures AllDigits(rr + gg + bb, 16)
    ensures Value(rr + gg + bb, 16) == (Value(rr, 16) * 0x100 + Value(gg, 16)) * 0x100 + Value(bb, 16)
  {
    assert Pow(16, 2) == 0x100;
    ValueConcat(rr, gg);
    ValueConcat(rr + gg, bb);
    AllDigitsConcat(rr, gg, 16);
    AllDigitsConcat(rr + gg, bb, 16);
  }

  /** The printed form of a colour parses back to that colour. */
  lemma DisplayRoundTrip(c: Color)
    ensures ParseColor(ToString(c)) == Ok(c)
  {
    SixDigits(Hex2(c.r), Hex2(c.g), Hex2(c.b));
  }

  /** A number made of three bytes has those bytes as its low three. */
  lemma ThreeBytes(c: Color)
    ensures LowBytes((c.r as nat * 0x100 + c.g as nat) * 0x100 + c.b as nat) == c
  {
    LowBytesOf(0, c);
    assert 0 * 0x100 + c.r as nat == c.r as nat;
  }

  /**
   * Of eight hex digits only the last six count: the first byte is
   * dropped, and the text is refused exactly when the last six are.
   */
  lemma EightDigitsDropFirstByte(digits: Bytes)
    requires |digits| == 8 && AllDigits(digits[..2], 16) && digits[2] != '+'
    ensures ParseColor(HASH + digits) == ParseColor(HASH + digits[2..])
  {
    var high, low := digits[..2], digits[2..];
    assert digits == high + low;
    AllDigitsConcat(high, low, 16);
    ValueConcat(high, low);
    assert IsDigit(digits[0], 16);
    assert Magnitude(digits) == digits && Magnitude(low) == low;
    ParseHash(digits);
    ParseHash(low);
    if AllDigits(low, 16) {
      ValueBound(low, 16);
      assert Pow(16, 6) == 0x100_0000;
      LowBytesHigh(Value(high, 16), Value(low, 16));
    }
  }

  /** `#0RGB` is the same colour as `#RGB`, and refused exactly when it is. */
  lemma LeadingZeroNibble(digits: Bytes)
    requires |digits| == 3 && digits[0] != '+'
    ensures ParseColor(HASH + ['0'] + digits) == ParseColor(HASH + digits)
  {
    var zero: Bytes := ['0'];
    var zd := zero + digits;
    assert zero[..0] == [];
    ValueConcat(zero, digits);
    AllDigitsConcat(zero, digits, 16);
    assert IsDigit('0', 16);
    assert Magnitude(zd) == zd && Magnitude(digits) == digits;
    assert Value(zero, 16) == 0;
    assert FromStrRadix(zd, 16) == FromStrRadix(digits, 16);
    assert HASH + zero + digits == HASH + zd;
    ParseHash(zd);
    ParseHash(digits);
  }

  /** The blue channel of `#RGB` takes the green nibble as its low half. */
  lemma ShortFormBlue()
    ensures ParseColor(HASH + "abc") == Ok(Color(0xaa, 0xbb, 0xcb))
  {
    var digits: Bytes := "abc";
    assert digits[..2] == "ab" && digits[..2][..1] == "a" && digits[..2][..1][..0] == [];
    assert DigitOf('a') == 0xa && DigitOf('b') == 0xb && DigitOf('c') == 0xc;
    assert Value("a", 16) == 0xa;
    assert Value("ab", 16) == 0xab;
    assert Value(digits, 16) == 0xabc;
    assert AllDigits(digits, 16);
    assert FromStrRadix(digits, 16) == Some(0xabc);
    ParseHash(digits);
    FromU16Abc();
  }

  lemma FromU16Abc()
    ensures FromU16(0xabc) == Color(0xaa, 0xbb, 0xcb)
  {
    assert Pow(16, 3) == 0x1000 && Pow(16, 2) == 0x100 && Pow(16, 1) == 0x10 && Pow(16, 0) == 1;
    assert Nibble(0xabc, 3) == 0 && Nibble(0xabc, 2) == 0xa && Nibble(0xabc, 1) == 0xb && Nibble(0xabc, 0) == 0xc;
  }

  /** Splitting at the first separator. */
  lemma SplitFirst(a: Bytes, rest: Bytes)
    requires ',' !in a
    ensures Split(a + COMMA + rest, ',') == [a] + Split(rest, ',')
  {
    var s := a + COMMA + rest;
    assert s[|a|] == ',';
    assert s[..|a|] == a && s[|a| + 1..] == rest;
  }

  /** A channel that parses is not empty: `Trim` of the empty text is empty. */
  lemma ChannelNotEmpty(s: Bytes)
    requires ParseU8(Trim(s)).Some?
    ensures s != []
  {
  }

  /** Text up to the first comma is the first piece; the rest splits on its own. */
  lemma SplitTerminatorFirst(a: Bytes, rest: Bytes)
    requires ',' !in a
    ensures SplitTerminator(a + COMMA + rest, ',') == [a] + SplitTerminator(rest, ',')
  {
    var all := Split(rest, ',');
    calc {
      SplitTerminator(a + COMMA + rest, ',');
    == { SplitFirst(a, rest); }
      DropEmptyLast([a] + all);
    == { DropEmptyLastCons(a, all); }
      [a] + DropEmptyLast(all);
    }
  }

  /** Dropping a trailing empty piece does not touch the pieces in front of it. */
  lemma DropEmptyLastCons(a: Bytes, all: seq<Bytes>)
    requires |all| >= 1
    ensures DropEmptyLast([a] + all) == [a] + DropEmptyLast(all)
  {
    var whole := [a] + all;
    assert whole[|whole| - 1] == all[|all| - 1];
    if all[|all| - 1] == [] {
      assert whole[..|whole| - 1] == [a] + all[..|all| - 1];
    }
  }

  /** Non-empty text without a comma is a single piece. */
  lemma SplitTerminatorOne(a: Bytes)
    requires ',' !in a && a != []
    ensures SplitTerminator(a, ',') == [a]
  {
  }

  /** Three comma-free pieces and whatever follows: the three pieces come first. */
  lemma SplitThreeRest(a: Bytes, b: Bytes, c: Bytes, rest: Bytes)
    requires ',' !in a && ',' !in b && ',' !in c
    ensures SplitTerminator(a + COMMA + (b + COMMA + (c + COMMA + rest)), ',') ==
      [a, b, c] + SplitTerminator(rest, ',')
  {
    var t1 := c + COMMA + rest;
    var t2 := b + COMMA + t1;
    SplitTerminatorFirst(c, rest);
    SplitTerminatorFirst(b, t1);
    SplitTerminatorFirst(a, t2);
    Cons3(a, b, c, SplitTerminator(rest, ','));
  }

  lemma Cons3<T>(a: T, b: T, c: T, tail: seq<T>)
    ensures [a] + ([b] + ([c] + tail)) == [a, b, c] + tail
  {
  }

  /** Three comma-free pieces, the last one non-empty: split into those three. */
  lemma SplitThree(a: Bytes, b: Bytes, c: Bytes)
    requires ',' !in a && ',' !in b && ',' !in c && c != []
    ensures SplitTerminator(a + COMMA + (b + COMMA + c), ',') == [a, b, c]
  {
    SplitTerminatorOne(c);
    SplitTerminatorFirst(b, c);
    SplitTerminatorFirst(a, b + COMMA + c);
    assert [a] + ([b] + [c]) == [a, b, c];
  }

  /** The `rgb(...)` form whose first three pieces are valid channels x, y and z. */
  lemma RgbOfChannels(inner: Bytes, x: u8, y: u8, z: u8)
    requires var parts := SplitTerminator(inner, ',');
      Channel(parts, 0) == Some(x) && Channel(parts, 1) == Some(y) && Channel(parts, 2) == Some(z)
    ensures ParseColor(RGB_OPEN + inner + CLOSE) == Ok(Color(x, z, y))
  {
    ParseRgbForm(inner);
  }

  /**
   * `rgb(x,y,z)` with three valid channels is the colour with red x,
   * green z and blue y: the second value is stored as blue.
   */
  lemma RgbChannelOrder(a: Bytes, b: Bytes, c: Bytes, x: u8, y: u8, z: u8)
    requires ',' !in a && ',' !in b && ',' !in c
    requires ParseU8(Trim(a)) == Some(x) && ParseU8(Trim(b)) == Some(y) && ParseU8(Trim(c)) == Some(z)
    ensures ParseColor(RGB_OPEN + (a + COMMA + (b + COMMA + c)) + CLOSE) == Ok(Color(x, z, y))
  {
    ChannelNotEmpty(c);
    SplitThree(a, b, c);
    var parts := [a, b, c];
    assert Channel(parts, 0) == Some(x) && Channel(parts, 1) == Some(y) && Channel(parts, 2) == Some(z);
    RgbOfChannels(a + COMMA + (b + COMMA + c), x, y, z);
  }

  /**
   * `rgb(x, y, z)` with a space after each comma: `trim` drops the spaces,
   * so it reads like `rgb(x,y,z)`.
   */
  lemma RgbSpaced(a: Bytes, b: Bytes, c: Bytes, x: u8, y: u8, z: u8)
    requires ParseU8(a) == Some(x) && ParseU8(b) == Some(y) && ParseU8(c) == Some(z)
    ensures ParseColor(RGB_OPEN + (a + COMMA + (SPACE + b + COMMA + (SPACE + c))) + CLOSE) == Ok(Color(x, z, y))
  {
    ChannelText(a);
    ChannelText(b);
    ChannelText(c);
    TrimUntouched(a);
    TrimLeadingSpace(b);
    TrimLeadingSpace(c);
    assert ',' !in SPACE + b && ',' !in SPACE + c;
    RgbChannelOrder(a, SPACE + b, SPACE + c, x, y, z);
  }

  /** Text that parses as a channel is non-empty, has no comma and no whitespace at either end. */
  lemma ChannelText(a: Bytes)
    requires ParseU8(a).Some?
    ensures a != [] && ',' !in a && WhitespaceAtFront(a) == 0 && WhitespaceAtBack(a) == 0
  {
    var d := Magnitude(a);
    assert d != [] && AllDigits(d, 10);
    assert a[|a| - 1] == d[|d| - 1];
    assert IsDigit(a[0], 10) || a[0] == '+';
    assert forall i :: 0 <= i < |a| ==> IsDigit(a[i], 10) || a[i] == '+' by {
      forall i | 0 <= i < |a| ensures IsDigit(a[i], 10) || a[i] == '+' {
        if a != d && i > 0 { assert a[i] == d[i - 1]; }
      }
    }
  }

  /** Whatever follows the third channel is ignored. */
  lemma RgbIgnoresRest(a: Bytes, b: Bytes, c: Bytes, rest: Bytes, x: u8, y: u8, z: u8)
    requires ',' !in a && ',' !in b && ',' !in c
    requires ParseU8(Trim(a)) == Some(x) && ParseU8(Trim(b)) == Some(y) && ParseU8(Trim(c)) == Some(z)
    ensures ParseColor(RGB_OPEN + (a + COMMA + (b + COMMA + (c + COMMA + rest))) + CLOSE) == Ok(Color(x, z, y))
  {
    SplitThreeRest(a, b, c, rest);
    var parts := [a, b, c] + SplitTerminator(rest, ',');
    assert parts[0] == a && parts[1] == b && parts[2] == c;
    assert Channel(parts, 0) == Some(x) && Channel(parts, 1) == Some(y) && Channel(parts, 2) == Some(z);
    RgbOfChannels(a + COMMA + (b + COMMA + (c + COMMA + rest)), x, y, z);
  }

  /** Two valid channels are not enough: the missing third is reported as green. */
  lemma RgbMissingGreen(a: Bytes, b: Bytes, x: u8, y: u8)
    requires ',' !in a && ',' !in b
    requires ParseU8(Trim(a)) == Some(x) && ParseU8(Trim(b)) == Some(y)
    ensures ParseColor(RGB_OPEN + (a + COMMA + b) + CLOSE) == Err(InvalidGreen)
  {
    ChannelNotEmpty(b);
    SplitTerminatorOne(b);
    SplitTerminatorFirst(a, b);
    var parts := [a] + [b];
    assert parts[0] == a && parts[1] == b && |parts| == 2;
    assert Channel(parts, 0) == Some(x) && Channel(parts, 1) == Some(y) && Channel(parts, 2) == None;
    ParseRgbForm(a + COMMA + b);
  }

  /** A valid red channel alone: the missing second is reported as blue. */
  lemma RgbOnlyRed(a: Bytes, x: u8)
    requires ',' !in a && ParseU8(Trim(a)) == Some(x)
    ensures ParseColor(RGB_OPEN + a + CLOSE) == Err(InvalidBlue)
  {
    ChannelNotEmpty(a);
    SplitTerminatorOne(a);
    var parts := [a];
    assert Channel(parts, 0) == Some(x) && Channel(parts, 1) == None;
    ParseRgbForm(a);
  }

  /** A bad second channel is reported as blue, whatever follows. */
  lemma RgbBadBlue(a: Bytes, b: Bytes, rest: Bytes, x: u8)
    requires ',' !in a && ',' !in b
    requires ParseU8(Trim(a)) == Some(x) && ParseU8(Trim(b)).None?
    ensures ParseColor(RGB_OPEN + (a + COMMA + (b + COMMA + rest)) + CLOSE) == Err(InvalidBlue)
  {
    SplitTerminatorFirst(b, rest);
    SplitTerminatorFirst(a, b + COMMA + rest);
    var parts := [a] + ([b] + SplitTerminator(rest, ','));
    assert parts[0] == a && parts[1] == b;
    assert Channel(parts, 0) == Some(x) && Channel(parts, 1).None?;
    ParseRgbForm(a + COMMA + (b + COMMA + rest));
  }

  /** A bad first channel is reported as red, whatever follows. */
  lemma RgbBadRed(a: Bytes, rest: Bytes)
    requires ',' !in a && ParseU8(Trim(a)).None?
    ensures ParseColor(RGB_OPEN + (a + COMMA + rest) + CLOSE) == Err(InvalidRed)
  {
    var inner := a + COMMA + rest;
    ParseRgbForm(inner);
    SplitTerminatorFirst(a, rest);
    assert SplitTerminator(inner, ',')[0] == a;
  }
}
