/** The six-digit hex colour codec of `Utils` (the `#rrggbb` form of the CSS hex colour
    notation, CSS Color Module Level 4, section 5.2). */
module Colour {
  import opened Chars

  datatype Rgb = Rgb(r: int, g: int, b: int)

  predicate InChannel(v: int) { 0 <= v <= 255 }

  predicate AllHex(s: string) { forall i :: 0 <= i < |s| ==> IsHexDigit(s[i]) }

  predicate IsLowerHex(c: char) { IsDigit(c) || 'a' <= c <= 'f' }

  /** The digit `Number.prototype.toString(16)` writes for a value below 16. */
  function HexChar(v: nat): (c: char)
    requires v < 16
    ensures IsLowerHex(c) && IsHexDigit(c) && HexValue(c) == v
  {
    if v < 10 then ('0' as int + v) as char else ('a' as int + v - 10) as char
  }

  /** A hex digit folded to lower case. */
  function LowerHex(c: char): char
    requires IsHexDigit(c)
  {
    if 'A' <= c <= 'F' then (c as int + 32) as char else c
  }

  function LowerAll(s: string): (t: string)
    requires AllHex(s)
    ensures |t| == |s| && forall i :: 0 <= i < |s| ==> t[i] == LowerHex(s[i])
  {
    if s == [] then [] else [LowerHex(s[0])] + LowerAll(s[1..])
  }

  /** The strings `/^#?([a-f\d]{2})([a-f\d]{2})([a-f\d]{2})$/i` matches. */
  predicate IsHexColour(s: string)
  {
    (|s| == 6 && AllHex(s)) || (|s| == 7 && s[0] == '#' && AllHex(s[1..]))
  }

  /** The six digits of an accepted colour, without the optional `#`. */
  function Digits(s: string): (d: string)
    requires IsHexColour(s)
    ensures |d| == 6 && AllHex(d)
  {
    if |s| == 7 then s[1..] else s
  }

  /** `parseInt(p, 16)` of one two-digit group. */
  function PairValue(hi: char, lo: char): (v: int)
    requires IsHexDigit(hi) && IsHexDigit(lo)
    ensures InChannel(v)
  {
    16 * HexValue(hi) + HexValue(lo)
  }

  /** `Utils.hexToRgb`: an optional `#`, then exactly three two-digit groups, or null. */
  function HexToRgb(s: string): (r: Option<Rgb>)
    ensures r.Some? <==> IsHexColour(s)
    ensures r.Some? ==> InChannel(r.value.r) && InChannel(r.value.g) && InChannel(r.value.b)
    ensures r.Some? ==> var d := Digits(s);
      r.value == Rgb(PairValue(d[0], d[1]), PairValue(d[2], d[3]), PairValue(d[4], d[5]))
  {
    var body := if |s| > 0 && s[0] == '#' then s[1..] else s;
    if |body| == 6 && AllHex(body) then
      Some(Rgb(PairValue(body[0], body[1]), PairValue(body[2], body[3]), PairValue(body[4], body[5])))
    else
      None
  }

  /** `ToInt32`: the 32-bit two's complement wrap that `<<` applies to its result. */
  function Wrap32(x: int): (w: int)
    ensures -0x8000_0000 <= w < 0x8000_0000
    ensures -0x8000_0000 <= x < 0x8000_0000 ==> w == x
  {
    (x + 0x8000_0000) % 0x1_0000_0000 - 0x8000_0000
  }

  /** The lower-case hex digits of a natural number, no leading zero. */
  function HexDigits(n: nat): (s: string)
    ensures 1 <= |s|
  {
    if n < 16 then [HexChar(n)] else HexDigits(n / 16) + [HexChar(n % 16)]
  }

  /** `Number.prototype.toString(16)` on an integer. */
  function HexString(n: int): (s: string)
    ensures 1 <= |s|
  {
    if n < 0 then "-" + HexDigits(-n) else HexDigits(n)
  }

  /** `Utils.rgbToHex` for any integer arguments: `(1 << 24) + (r << 16) + (g << 8) + b`
      written in base 16, with its first character replaced by `#`. */
  function RgbToHex(r: int, g: int, b: int): (s: string)
    ensures |s| >= 1 && s[0] == '#'
  {
    var packed := 0x100_0000 + Wrap32(r * 0x1_0000) + Wrap32(g * 0x100) + b;
    "#" + HexString(packed)[1..]
  }

  /** Exactly two lower-case hex digits of a byte, high nibble first. */
  function Hex2(v: nat): (s: string)
    requires v < 256
    ensures |s| == 2 && IsLowerHex(s[0]) && IsLowerHex(s[1]) && IsHexDigit(s[0]) && IsHexDigit(s[1])
  {
    [HexChar(v / 16), HexChar(v % 16)]
  }

  lemma DivMod16(q: nat, d: nat)
    requires d < 16
    ensures (16 * q + d) / 16 == q && (16 * q + d) % 16 == d
  {
  }

  /** Past the first digit, `toString(16)` of `16q + d` is that of `q` and then `d`. */
  lemma HexDigitsStep(q: nat, d: nat)
    requires 1 <= q && d < 16
    ensures HexDigits(16 * q + d) == HexDigits(q) + [HexChar(d)]
  {
    DivMod16(q, d);
  }

  /** Past the first digit, `toString(16)` of `256q + c` is that of `q` and then two of `c`. */
  lemma HexDigitsByte(q: nat, c: nat)
    requires 1 <= q && c < 256
    ensures HexDigits(256 * q + c) == HexDigits(q) + Hex2(c)
  {
    var hi, lo := c / 16, c % 16;
    assert 256 * q + c == 16 * (16 * q + hi) + lo;
    HexDigitsStep(16 * q + hi, lo);
    HexDigitsStep(q, hi);
  }

  /** In range, the shifts do not wrap and `(1 << 24) + (r << 16) + (g << 8) + b` is
      `256 * (256 * (256 + r) + g) + b`. */
  lemma PackedChannels(r: int, g: int, b: int)
    requires InChannel(r) && InChannel(g) && InChannel(b)
    ensures 0x100_0000 + Wrap32(r * 0x1_0000) + Wrap32(g * 0x100) + b
            == 256 * (256 * (256 * 1 + r) + g) + b
  {
    assert r * 0x1_0000 <= 255 * 0x1_0000;
    assert g * 0x100 <= 255 * 0x100;
  }

  /** Three bytes appended to a positive prefix add two base-16 digits each. */
  lemma HexDigitsThreeBytes(q: nat, r: nat, g: nat, b: nat)
    requires 1 <= q && r < 256 && g < 256 && b < 256
    ensures HexDigits(256 * (256 * (256 * q + r) + g) + b) == HexDigits(q) + Hex2(r) + Hex2(g) + Hex2(b)
  {
    var one := 256 * q + r;
    var two := 256 * one + g;
    HexDigitsByte(q, r);
    HexDigitsByte(one, g);
    HexDigitsByte(two, b);
  }

  /** The packed channels in base 16: a leading `1`, then two digits per channel. */
  lemma PackedHex(r: nat, g: nat, b: nat)
    requires r < 256 && g < 256 && b < 256
    ensures HexDigits(256 * (256 * (256 * 1 + r) + g) + b) == "1" + Hex2(r) + Hex2(g) + Hex2(b)
  {
    assert HexDigits(1) == "1";
    HexDigitsThreeBytes(1, r, g, b);
  }

  /** In range, `rgbToHex` writes `#` and two lower-case digits per channel, in r, g, b order. */
  lemma {:induction false} RgbToHexDigits(r: int, g: int, b: int)
    requires InChannel(r) && InChannel(g) && InChannel(b)
    ensures RgbToHex(r, g, b) == "#" + Hex2(r) + Hex2(g) + Hex2(b)
    ensures |RgbToHex(r, g, b)| == 7
    ensures forall i :: 1 <= i < 7 ==> IsLowerHex(RgbToHex(r, g, b)[i])
  {
    var six := Hex2(r) + Hex2(g) + Hex2(b);
    PackedChannels(r, g, b);
    PackedHex(r, g, b);
    var digits := HexString(256 * (256 * (256 * 1 + r) + g) + b);
    assert digits == "1" + six;
    assert digits[1..] == six;
    var s := "#" + six;
    assert forall i :: 1 <= i < 7 ==> IsLowerHex(s[i]);
    assert s == "#" + Hex2(r) + Hex2(g) + Hex2(b);
  }

  /** Writing a digit's value back gives the digit in lower case. */
  lemma HexCharOfValue(c: char)
    requires IsHexDigit(c)
    ensures HexChar(HexValue(c)) == LowerHex(c)
  {
  }

  /** Reading back the two digits of a channel gives the channel. */
  lemma PairOfHex2(v: int)
    requires InChannel(v)
    ensures var p := Hex2(v); PairValue(p[0], p[1]) == v
  {
    assert 16 * (v / 16) + v % 16 == v;
  }

  /** Writing the value of a digit pair gives the pair in lower case. */
  lemma Hex2OfPair(hi: char, lo: char)
    requires IsHexDigit(hi) && IsHexDigit(lo)
    ensures Hex2(PairValue(hi, lo)) == [LowerHex(hi), LowerHex(lo)]
  {
    DivMod16(HexValue(hi), HexValue(lo));
    HexCharOfValue(hi);
    HexCharOfValue(lo);
  }

  /** Three two-character pieces sit at indices 0, 2 and 4 of their concatenation. */
  lemma SixSlices(x: string, y: string, z: string)
    requires |x| == 2 && |y| == 2 && |z| == 2
    ensures var d := x + y + z; d[0..2] == x && d[2..4] == y && d[4..6] == z
  {
  }

  /** Round trip from channels: reading back what `rgbToHex` wrote gives the same channels. */
  lemma {:induction false} HexOfRgbRoundTrip(r: int, g: int, b: int)
    requires InChannel(r) && InChannel(g) && InChannel(b)
    ensures HexToRgb(RgbToHex(r, g, b)) == Some(Rgb(r, g, b))
  {
    RgbToHexDigits(r, g, b);
    var s := RgbToHex(r, g, b);
    assert IsHexColour(s);
    var d := Digits(s);
    SixSlices(Hex2(r), Hex2(g), Hex2(b));
    assert d == Hex2(r) + Hex2(g) + Hex2(b) by {
      assert s == "#" + (Hex2(r) + Hex2(g) + Hex2(b));
    }
    PairOfHex2(r);
    PairOfHex2(g);
    PairOfHex2(b);
  }

  /** Round trip from text: re-encoding an accepted colour gives `#` and its digits in lower case. */
  lemma {:induction false} RgbOfHexRoundTrip(s: string)
    requires IsHexColour(s)
    ensures HexToRgb(s).Some?
    ensures var c := HexToRgb(s).value; RgbToHex(c.r, c.g, c.b) == "#" + LowerAll(Digits(s))
  {
    var d := Digits(s);
    var c := HexToRgb(s).value;
    RgbToHexDigits(c.r, c.g, c.b);
    Hex2OfPair(d[0], d[1]);
    Hex2OfPair(d[2], d[3]);
    Hex2OfPair(d[4], d[5]);
    LowerAllSix(d);
  }

  lemma LowerAllSix(d: string)
    requires |d| == 6 && AllHex(d)
    ensures LowerAll(d) == [LowerHex(d[0]), LowerHex(d[1])] + [LowerHex(d[2]), LowerHex(d[3])]
                           + [LowerHex(d[4]), LowerHex(d[5])]
  {
  }

  /** Three-digit shorthand such as `#fff` is not accepted. */
  lemma ShorthandRejected(s: string)
    requires |s| == 3 || (|s| == 4 && s[0] == '#')
    ensures HexToRgb(s) == None
  {
  }
}
