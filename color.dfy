/** Colours and their CSS text (`impl Display for Color`). */
module Colors {
  import opened Prelude

  /** A colour as the style state holds it. The eight named hues are listed in
      ordinal order: SGR 30+i and 40+i select the hue with ordinal i. */
  datatype Color =
    | None
    | Byte(n: U8)
    | Full(r: U8, g: U8, b: U8)
    | Black | Red | Green | Yellow | Blue | Magenta | Cyan | White

  predicate IsNamed(c: Color) {
    !(c.None? || c.Byte? || c.Full?)
  }

  /** The named hue with ordinal `i`. */
  function Named(i: nat): (c: Color)
    requires i < 8
    ensures IsNamed(c)
  {
    [Black, Red, Green, Yellow, Blue, Magenta, Cyan, White][i]
  }

  /** A red, green, blue triple. */
  type Rgb = (U8, U8, U8)

  /** One digit of `{:X}`: upper-case hexadecimal. */
  function HexDigit(d: nat): (ch: char)
    requires d < 16
    ensures IsUpperHex(ch)
  {
    if d < 10 then (48 + d) as char else (55 + d) as char
  }

  /** `{:02X}`: two upper-case hexadecimal digits, zero-padded. */
  function Hex2(b: U8): (h: string)
    ensures |h| == 2 && IsUpperHex(h[0]) && IsUpperHex(h[1])
  {
    [HexDigit(b / 16), HexDigit(b % 16)]
  }

  /** `#{:02X}{:02X}{:02X}`. */
  function HexTriplet(r: U8, g: U8, b: U8): (t: string)
    ensures |t| == 7 && t[0] == '#'
    ensures forall i :: 1 <= i < 7 ==> IsUpperHex(t[i])
  {
    "#" + Hex2(r) + Hex2(g) + Hex2(b)
  }

  /** The CSS text of a colour. `palette` is the external 256-entry lookup
      table `rgb_from_ansi256`, which this model does not define. */
  function Render(c: Color, palette: U8 -> Rgb): (out: string)
    ensures c.Byte? || c.Full? ==> |out| == 7 && out[0] == '#'
    ensures IsNamed(c) ==> 0 < |out| && forall i :: 0 <= i < |out| ==> 'a' <= out[i] <= 'z'
  {
    match c
    case None => ""
    case Byte(n) => HexTriplet(palette(n).0, palette(n).1, palette(n).2)
    case Full(r, g, b) => HexTriplet(r, g, b)
    case Black => "black"
    case Red => "red"
    case Green => "green"
    case Yellow => "yellow"
    case Blue => "blue"
    case Magenta => "magenta"
    case Cyan => "cyan"
    case White => "white"
  }

  predicate IsUpperHex(c: char) {
    '0' <= c <= '9' || 'A' <= c <= 'F'
  }

  /** The value of one upper-case hexadecimal digit: the decoder `Render`'s
      hex output is checked against. */
  function HexValue(c: char): (v: nat)
    requires IsUpperHex(c)
    ensures v < 16
  {
    if c <= '9' then c as int - '0' as int else c as int - 'A' as int + 10
  }

  lemma HexDigitRoundTrip(d: nat)
    requires d < 16
    ensures IsUpperHex(HexDigit(d)) && HexValue(HexDigit(d)) == d
  {
    if d < 10 {
      assert HexDigit(d) as int == 48 + d;
    } else {
      assert HexDigit(d) as int == 55 + d;
    }
  }

  /** Only the unset colour renders as the empty string. */
  lemma RenderEmptyIffNone(c: Color, palette: U8 -> Rgb)
    ensures Render(c, palette) == "" <==> c == None
  {
    if c.Byte? || c.Full? {
      assert Render(c, palette)[0] == '#';
    }
  }

  /** `Full(r, g, b)` renders as `#` and exactly two upper-case hex digits per
      component, and decoding each pair gives the component back. */
  lemma FullRendersAsHex(r: U8, g: U8, b: U8, palette: U8 -> Rgb)
    ensures var out := Render(Full(r, g, b), palette);
      && |out| == 7
      && out[0] == '#'
      && (forall i :: 1 <= i < 7 ==> IsUpperHex(out[i]))
      && 16 * HexValue(out[1]) + HexValue(out[2]) == r
      && 16 * HexValue(out[3]) + HexValue(out[4]) == g
      && 16 * HexValue(out[5]) + HexValue(out[6]) == b
  {
    var out := Render(Full(r, g, b), palette);
    assert out == ['#', HexDigit(r / 16), HexDigit(r % 16), HexDigit(g / 16), HexDigit(g % 16),
                   HexDigit(b / 16), HexDigit(b % 16)];
    HexDigitRoundTrip(r / 16);
    HexDigitRoundTrip(r % 16);
    HexDigitRoundTrip(g / 16);
    HexDigitRoundTrip(g % 16);
    HexDigitRoundTrip(b / 16);
    HexDigitRoundTrip(b % 16);
  }

  /** A palette colour renders exactly as the truecolor its table entry gives. */
  lemma ByteRendersAsItsPaletteEntry(n: U8, palette: U8 -> Rgb)
    ensures Render(Byte(n), palette) == Render(Full(palette(n).0, palette(n).1, palette(n).2), palette)
  {
  }

  /** The CSS keyword of each named hue, in ordinal order. */
  const Keywords: seq<string> := ["black", "red", "green", "yellow", "blue", "magenta", "cyan", "white"]

  /** The named hue with ordinal `i` renders as the `i`-th keyword. */
  lemma NamedKeywords(i: nat, palette: U8 -> Rgb)
    requires i < 8
    ensures Render(Named(i), palette) == Keywords[i]
  {
  }

  /** The eight named hues render as lower-case keywords, pairwise distinct. */
  lemma NamedRenderAsDistinctKeywords(c: Color, d: Color, palette: U8 -> Rgb)
    requires IsNamed(c) && IsNamed(d)
    ensures 0 < |Render(c, palette)| && forall i :: 0 <= i < |Render(c, palette)| ==> 'a' <= Render(c, palette)[i] <= 'z'
    ensures c != d ==> Render(c, palette) != Render(d, palette)
  {
  }
}
