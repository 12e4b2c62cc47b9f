/**
 The `#RRGGBB` rendering of a pixel (`pixel_to_hex`): each of the three 8-bit
 channels, in R, G, B order, as two upper-case hexadecimal digits padded with a
 leading zero (the `{:02X}` format). Alongside the encoder, a decoder that
 inverts it, so that the encoding is shown to lose no information.
 */
module Hex {

  datatype Option<T> = None | Some(value: T)

  /** An unsigned 8-bit channel value (`u8`). */
  type Byte = x: int | 0 <= x < 256

  /** A pixel of an `Rgb<u8>` image: `r`, `g`, `b` are its channels 0, 1 and 2. */
  datatype Rgb = Rgb(r: Byte, g: Byte, b: Byte)

  /** The characters the `X` format specifier may print: `0-9` and `A-F`. */
  predicate IsUpperHexDigit(c: char)
  {
    ('0' <= c <= '9') || ('A' <= c <= 'F')
  }

  /** The value of one upper-case hexadecimal digit; anything else is rejected. */
  function DigitValue(c: char): (r: Option<nat>)
    ensures r.Some? <==> IsUpperHexDigit(c)
    ensures r.Some? ==> r.value < 16
    ensures r.Some? ==> (r.value < 10 <==> '0' <= c <= '9')
  {
    if '0' <= c <= '9' then Some(c as int - '0' as int)
    else if 'A' <= c <= 'F' then Some(c as int - 'A' as int + 10)
    else None
  }

  /** The upper-case hexadecimal digit for a value below 16. */
  function HexDigit(d: nat): (c: char)
    requires d < 16
    ensures IsUpperHexDigit(c)
    ensures DigitValue(c) == Some(d)
  {
    if d < 10 then ('0' as int + d) as char else ('A' as int + (d - 10)) as char
  }

  /** `{:02X}` of one channel: exactly two digits, high nibble first. */
  function FormatByte(v: Byte): (s: string)
    ensures |s| == 2 && IsUpperHexDigit(s[0]) && IsUpperHexDigit(s[1])
    ensures s[0] == '0' <==> v < 16
  {
    [HexDigit(v / 16), HexDigit(v % 16)]
  }

  /** Reads back two hexadecimal digits written by `FormatByte`. */
  function ParseByte(s: string): (r: Option<Byte>)
    ensures r.Some? <==> |s| == 2 && IsUpperHexDigit(s[0]) && IsUpperHexDigit(s[1])
  {
    if |s| == 2 && DigitValue(s[0]).Some? && DigitValue(s[1]).Some? then
      Some(16 * DigitValue(s[0]).value + DigitValue(s[1]).value)
    else
      None
  }

  /** `pixel_to_hex`: `#` followed by `{:02X}` of channels 0, 1 and 2, written
      out digit by digit (`PixelToHexFields` shows the fields are `FormatByte`'s). */
  function PixelToHex(p: Rgb): (s: string)
    ensures |s| == 7 && s[0] == '#'
    ensures forall i :: 1 <= i < 7 ==> IsUpperHexDigit(s[i])
  {
    ['#', HexDigit(p.r / 16), HexDigit(p.r % 16), HexDigit(p.g / 16), HexDigit(p.g % 16), HexDigit(p.b / 16), HexDigit(p.b % 16)]
  }

  /** The inverse of `PixelToHex`: `None` for any string it cannot produce. */
  function HexToPixel(s: string): (r: Option<Rgb>)
    ensures r.Some? ==> |s| == 7 && s[0] == '#'
  {
    if |s| == 7 && s[0] == '#' then
      match (ParseByte(s[1..3]), ParseByte(s[3..5]), ParseByte(s[5..7]))
      case (Some(r), Some(g), Some(b)) => Some(Rgb(r, g, b))
      case _ => None
    else
      None
  }

  /** Every digit decodes to the value `HexDigit` was given for it. */
  lemma HexDigitOfDigitValue(c: char)
    requires IsUpperHexDigit(c)
    ensures HexDigit(DigitValue(c).value) == c
  {
  }

  /** Zero padding and digit order: digits 1-2, 3-4 and 5-6 hold the high and
      low nibble of channels 0, 1 and 2 respectively. */
  lemma PixelToHexDigits(p: Rgb)
    ensures var s := PixelToHex(p);
      && DigitValue(s[1]) == Some(p.r / 16) && DigitValue(s[2]) == Some(p.r % 16)
      && DigitValue(s[3]) == Some(p.g / 16) && DigitValue(s[4]) == Some(p.g % 16)
      && DigitValue(s[5]) == Some(p.b / 16) && DigitValue(s[6]) == Some(p.b % 16)
  {
  }

  /** Reading back the two digits of `{:02X}` gives the channel value. */
  lemma ParseFormatByte(v: Byte)
    ensures ParseByte(FormatByte(v)) == Some(v)
  {
    var s := FormatByte(v);
    assert DigitValue(s[0]) == Some(v / 16);
    assert DigitValue(s[1]) == Some(v % 16);
  }

  /** Any two accepted digits are exactly `{:02X}` of the value they denote. */
  lemma FormatParseByte(s: string)
    requires ParseByte(s).Some?
    ensures FormatByte(ParseByte(s).value) == s
  {
    var hi, lo := DigitValue(s[0]).value, DigitValue(s[1]).value;
    var v := 16 * hi + lo;
    assert v / 16 == hi && v % 16 == lo;
    HexDigitOfDigitValue(s[0]);
    HexDigitOfDigitValue(s[1]);
  }

  /** The three two-digit fields of the encoding, as written by `FormatByte`. */
  lemma PixelToHexFields(p: Rgb)
    ensures var s := PixelToHex(p);
      s[1..3] == FormatByte(p.r) && s[3..5] == FormatByte(p.g) && s[5..7] == FormatByte(p.b)
  {
    var s, r, g, b := PixelToHex(p), FormatByte(p.r), FormatByte(p.g), FormatByte(p.b);
    assert s == "#" + r + g + b;
    assert s[1..3] == [s[1], s[2]] == r;
    assert s[3..5] == [s[3], s[4]] == g;
    assert s[5..7] == [s[5], s[6]] == b;
  }

  /** Decoding an encoded pixel gives the pixel back. */
  lemma HexToPixelOfPixelToHex(p: Rgb)
    ensures HexToPixel(PixelToHex(p)) == Some(p)
  {
    PixelToHexFields(p);
    ParseFormatByte(p.r);
    ParseFormatByte(p.g);
    ParseFormatByte(p.b);
  }

  /** Whatever the decoder accepts is exactly the encoding of what it returns. */
  lemma PixelToHexOfHexToPixel(s: string)
    requires HexToPixel(s).Some?
    ensures PixelToHex(HexToPixel(s).value) == s
  {
    var p := HexToPixel(s).value;
    FormatParseByte(s[1..3]);
    FormatParseByte(s[3..5]);
    FormatParseByte(s[5..7]);
    assert s == s[..1] + s[1..3] + s[3..5] + s[5..7];
  }

  /** Distinct pixels have distinct hex strings, and the strings `pixel_to_hex`
      can produce are exactly those the decoder accepts. */
  lemma PixelToHexInjective(p: Rgb, q: Rgb, s: string)
    ensures PixelToHex(p) == PixelToHex(q) ==> p == q
    ensures HexToPixel(s).Some? <==> exists t: Rgb :: PixelToHex(t) == s
  {
    HexToPixelOfPixelToHex(p);
    HexToPixelOfPixelToHex(q);
    if HexToPixel(s).Some? {
      PixelToHexOfHexToPixel(s);
    }
    if t: Rgb :| PixelToHex(t) == s {
      HexToPixelOfPixelToHex(t);
    }
  }
}
