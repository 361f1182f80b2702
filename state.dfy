/** The style state and `parse_ansi_code`, which reads one SGR code after an
    escape character and applies it to the state. */
module State {
  import opened Prelude
  import opened Colors
  import opened SubParsers

  datatype Intensity = Normal | Bold | Faint
  datatype Blink = NoBlink | Slow | Fast
  datatype Underline = NoUnderline | Single | Double
  datatype Spacing = Proportional | Monospace

  /** The ten attributes of the text style. The yes/no attributes (italic,
      inverted colours, strikethrough) are booleans. */
  datatype AnsiState = AnsiState(
    backgroundColor: Color,
    textColor: Color,
    underlineColor: Color,
    intensity: Intensity,
    italic: bool,
    underline: Underline,
    blink: Blink,
    invertColors: bool,
    strikethrough: bool,
    spacing: Spacing)

  /** `AnsiState::default()`: nothing set, proportional spacing. The
      default is the state code 0 leads to when the underline colour and the
      spacing are at their defaults too (`ResetLaw`). */
  const Default := AnsiState(None, None, None, Normal, false, NoUnderline, NoBlink, false, false, Proportional)

  /** One attribute with its value: what a single-attribute code writes. */
  datatype Attr =
    | BackgroundIs(c: Color)
    | TextIs(c: Color)
    | UnderlineColorIs(c: Color)
    | IntensityIs(i: Intensity)
    | ItalicIs(on: bool)
    | UnderlineIs(u: Underline)
    | BlinkIs(b: Blink)
    | InvertIs(on: bool)
    | StrikethroughIs(on: bool)
    | SpacingIs(s: Spacing)

  /** The number of attributes in a state. */
  const Slots := 10

  /** The position of the attribute `a` writes, in field order. */
  function Slot(a: Attr): (i: nat)
    ensures i < Slots
  {
    match a
    case BackgroundIs(_) => 0
    case TextIs(_) => 1
    case UnderlineColorIs(_) => 2
    case IntensityIs(_) => 3
    case ItalicIs(_) => 4
    case UnderlineIs(_) => 5
    case BlinkIs(_) => 6
    case InvertIs(_) => 7
    case StrikethroughIs(_) => 8
    case SpacingIs(_) => 9
  }

  /** The attribute in position `i` of a state, with its value. */
  function Get(st: AnsiState, i: nat): (a: Attr)
    requires i < Slots
    ensures Slot(a) == i
  {
    if i == 0 then BackgroundIs(st.backgroundColor)
    else if i == 1 then TextIs(st.textColor)
    else if i == 2 then UnderlineColorIs(st.underlineColor)
    else if i == 3 then IntensityIs(st.intensity)
    else if i == 4 then ItalicIs(st.italic)
    else if i == 5 then UnderlineIs(st.underline)
    else if i == 6 then BlinkIs(st.blink)
    else if i == 7 then InvertIs(st.invertColors)
    else if i == 8 then StrikethroughIs(st.strikethrough)
    else SpacingIs(st.spacing)
  }

  /** The state with the one field `a` names set to `a`'s value. */
  function Set(st: AnsiState, a: Attr): (r: AnsiState)
    ensures Get(r, Slot(a)) == a
  {
    match a
    case BackgroundIs(c) => st.(backgroundColor := c)
    case TextIs(c) => st.(textColor := c)
    case UnderlineColorIs(c) => st.(underlineColor := c)
    case IntensityIs(i) => st.(intensity := i)
    case ItalicIs(on) => st.(italic := on)
    case UnderlineIs(u) => st.(underline := u)
    case BlinkIs(b) => st.(blink := b)
    case InvertIs(on) => st.(invertColors := on)
    case StrikethroughIs(on) => st.(strikethrough := on)
    case SpacingIs(s) => st.(spacing := s)
  }

  /** Two states that agree on every position are equal: the positions cover
      the whole state. */
  lemma SlotsCoverState(x: AnsiState, y: AnsiState)
    requires forall i :: 0 <= i < Slots ==> Get(x, i) == Get(y, i)
    ensures x == y
  {
    assert Get(x, 0) == Get(y, 0) && Get(x, 1) == Get(y, 1) && Get(x, 2) == Get(y, 2);
    assert Get(x, 3) == Get(y, 3) && Get(x, 4) == Get(y, 4) && Get(x, 5) == Get(y, 5);
    assert Get(x, 6) == Get(y, 6) && Get(x, 7) == Get(y, 7) && Get(x, 8) == Get(y, 8);
    assert Get(x, 9) == Get(y, 9);
  }

  /** `Set` writes its attribute and changes no other position. */
  lemma SetFrame(st: AnsiState, a: Attr)
    ensures Get(Set(st, a), Slot(a)) == a
    ensures forall i :: 0 <= i < Slots && i != Slot(a) ==> Get(Set(st, a), i) == Get(st, i)
  {
  }

  /** The extended-colour codes, whose value is read by `parse_color_code`. */
  predicate IsColorCode(code: U8) {
    code == 38 || code == 48 || code == 58
  }

  /** The attribute an extended-colour code sets to colour `c`. */
  function ColorAttr(code: U8, c: Color): (a: Attr)
    requires IsColorCode(code)
    ensures a.BackgroundIs? || a.TextIs? || a.UnderlineColorIs?
    ensures a.c == c
    ensures (a.TextIs? <==> code == 38) && (a.BackgroundIs? <==> code == 48) && (a.UnderlineColorIs? <==> code == 58)
  {
    if code == 38 then TextIs(c) else if code == 48 then BackgroundIs(c) else UnderlineColorIs(c)
  }

  /** Codes whose arm is `todo!()`. */
  predicate IsTodo(code: U8) {
    code == 8 || 10 <= code <= 20 || code == 28 || 51 <= code <= 55 || 60 <= code <= 65 || 73 <= code <= 75
  }

  /** The codes that set one attribute, and the attribute each one sets:
      the reference table for the dispatch in `parse_ansi_code`. */
  function Effect(code: U8): (e: Option<Attr>)
    ensures e.Some? <==> IsSingleAttributeCode(code)
    ensures e.Some? ==> !IsTodo(code) && !IsColorCode(code) && code != 0
  {
    if code == 1 then Some(IntensityIs(Bold))
    else if code == 2 then Some(IntensityIs(Faint))
    else if code == 3 then Some(ItalicIs(true))
    else if code == 4 then Some(UnderlineIs(Single))
    else if code == 5 then Some(BlinkIs(Slow))
    else if code == 6 then Some(BlinkIs(Fast))
    else if code == 7 then Some(InvertIs(true))
    else if code == 9 then Some(StrikethroughIs(true))
    else if code == 21 then Some(UnderlineIs(Double))
    else if code == 22 then Some(IntensityIs(Normal))
    else if code == 23 then Some(ItalicIs(false))
    else if code == 24 then Some(UnderlineIs(NoUnderline))
    else if code == 25 then Some(BlinkIs(NoBlink))
    else if code == 26 then Some(SpacingIs(Proportional))
    else if code == 27 then Some(InvertIs(false))
    else if code == 29 then Some(StrikethroughIs(false))
    else if 30 <= code <= 37 then Some(TextIs(Named(code - 30)))
    else if code == 39 then Some(TextIs(None))
    else if 40 <= code <= 47 then Some(BackgroundIs(Named(code - 40)))
    else if code == 49 then Some(BackgroundIs(None))
    else if code == 50 then Some(SpacingIs(Monospace))
    else if code == 59 then Some(UnderlineColorIs(None))
    else Nothing
  }

  /** Code 0: every attribute back to its default except the underline
      colour and the spacing. */
  function Reset(st: AnsiState): (r: AnsiState)
    ensures r == Default.(underlineColor := st.underlineColor, spacing := st.spacing)
  {
    st.(backgroundColor := None, textColor := None, intensity := Normal, italic := false,
        underline := NoUnderline, blink := NoBlink, invertColors := false, strikethrough := false)
  }

  /** The effect of a code that takes no argument. */
  function ApplySimple(st: AnsiState, code: U8): (r: Outcome<AnsiState>)
    requires !IsColorCode(code)
    ensures r.Ok? <==> code == 0 || Effect(code).Some?
    ensures r.Unimplemented? <==> IsTodo(code)
  {
    if code == 0 then Ok(Reset(st))
    else if IsTodo(code) then Unimplemented
    else if Effect(code).Some? then Ok(Set(st, Effect(code).value))
    else Err
  }

  predicate IsAsciiDigit(c: char) {
    '0' <= c <= '9'
  }

  /** The end of the run of ASCII digits starting at `from`: where
      `take_while_ref(is_ascii_digit)` stops, without consuming the
      character that stops it. */
  function DigitRunEnd(s: seq<char>, from: nat): (e: nat)
    requires from <= |s|
    ensures from <= e <= |s|
    ensures e < |s| ==> !IsAsciiDigit(s[e])
    ensures forall k :: from <= k < e ==> IsAsciiDigit(s[k])
    decreases |s| - from
  {
    if from == |s| || !IsAsciiDigit(s[from]) then from else DigitRunEnd(s, from + 1)
  }

  /** `parse_ansi_code` from position `pos`: `[`, a decimal code, and for the
      extended-colour codes the colour argument. On success the new state. */
  function AnsiCode(st: AnsiState, s: seq<char>, pos: nat): (r: Parsed<AnsiState>)
    requires pos <= |s|
    ensures pos <= r.next <= |s|
    ensures r.res.Ok? ==> pos < r.next
  {
    if pos == |s| || s[pos] != '[' then Parsed(Err, Advance(s, pos))
    else
      var e := DigitRunEnd(s, pos + 1);
      match ParseNumber(Bytes(s[pos + 1..e])).0
      case Ok(code) =>
        if IsColorCode(code) then
          var arg := ColorArg(s, e);
          match arg.res
          case Ok(c) => Parsed(Ok(Set(st, ColorAttr(code, c))), arg.next)
          case Err => Parsed(Err, arg.next)
          case Unimplemented => Parsed(Unimplemented, arg.next)
        else Parsed(ApplySimple(st, code), e)
      case _ => Parsed(Err, e)
  }

  /** The dispatch on a code without argument, assigning fields one by one.
      Code 0 is handled here; the style codes 1-29, the text colours 30-39,
      the background colours 40-49 and the codes from 50 on are dispatched by
      the four methods below. */
  method ApplyCode(st: AnsiState, code: U8) returns (res: Outcome<()>, st': AnsiState)
    requires !IsColorCode(code)
    ensures res == Status(ApplySimple(st, code))
    ensures st' == if res.Ok? then ApplySimple(st, code).value else st
  {
    if code == 0 {
      st' := st;
      st' := st'.(backgroundColor := None);
      st' := st'.(textColor := None);
      st' := st'.(intensity := Normal);
      st' := st'.(italic := false);
      st' := st'.(underline := NoUnderline);
      st' := st'.(blink := NoBlink);
      st' := st'.(invertColors := false);
      st' := st'.(strikethrough := false);
      res := Ok(());
    } else if code < 30 {
      res, st' := ApplyStyleCode(st, code);
    } else if code < 40 {
      res, st' := ApplyTextColorCode(st, code);
    } else if code < 50 {
      res, st' := ApplyBackgroundCode(st, code);
    } else {
      res, st' := ApplyHighCode(st, code);
    }
  }

  /** The arms for codes 1 to 29: intensity, italic, underline, blink,
      inversion, strikethrough and spacing, and their todo arms. */
  method ApplyStyleCode(st: AnsiState, code: U8) returns (res: Outcome<()>, st': AnsiState)
    requires 1 <= code < 30
    ensures res == Status(ApplySimple(st, code))
    ensures st' == if res.Ok? then ApplySimple(st, code).value else st
  {
    st' := st;
    res := Ok(());
    if code == 1 { st' := st'.(intensity := Bold); }
    else if code == 2 { st' := st'.(intensity := Faint); }
    else if code == 3 { st' := st'.(italic := true); }
    else if code == 4 { st' := st'.(underline := Single); }
    else if code == 5 { st' := st'.(blink := Slow); }
    else if code == 6 { st' := st'.(blink := Fast); }
    else if code == 7 { st' := st'.(invertColors := true); }
    else if code == 8 { res := Unimplemented; }
    else if code == 9 { st' := st'.(strikethrough := true); }
    else if 10 <= code < 20 { res := Unimplemented; }
    else if code == 20 { res := Unimplemented; }
    else if code == 21 { st' := st'.(underline := Double); }
    else if code == 22 { st' := st'.(intensity := Normal); }
    else if code == 23 { st' := st'.(italic := false); }
    else if code == 24 { st' := st'.(underline := NoUnderline); }
    else if code == 25 { st' := st'.(blink := NoBlink); }
    else if code == 26 { st' := st'.(spacing := Proportional); }
    else if code == 27 { st' := st'.(invertColors := false); }
    else if code == 28 { res := Unimplemented; }
    else { st' := st'.(strikethrough := false); }
  }

  /** The arms for codes 30 to 39: the named and default text colours. */
  method ApplyTextColorCode(st: AnsiState, code: U8) returns (res: Outcome<()>, st': AnsiState)
    requires 30 <= code < 40 && !IsColorCode(code)
    ensures res == Status(ApplySimple(st, code))
    ensures st' == if res.Ok? then ApplySimple(st, code).value else st
  {
    st' := st;
    res := Ok(());
    if code == 30 { st' := st'.(textColor := Black); }
    else if code == 31 { st' := st'.(textColor := Red); }
    else if code == 32 { st' := st'.(textColor := Green); }
    else if code == 33 { st' := st'.(textColor := Yellow); }
    else if code == 34 { st' := st'.(textColor := Blue); }
    else if code == 35 { st' := st'.(textColor := Magenta); }
    else if code == 36 { st' := st'.(textColor := Cyan); }
    else if code == 37 { st' := st'.(textColor := White); }
    else { st' := st'.(textColor := None); }
  }

  /** The arms for codes 40 to 49: the named and default background colours. */
  method ApplyBackgroundCode(st: AnsiState, code: U8) returns (res: Outcome<()>, st': AnsiState)
    requires 40 <= code < 50 && !IsColorCode(code)
    ensures res == Status(ApplySimple(st, code))
    ensures st' == if res.Ok? then ApplySimple(st, code).value else st
  {
    st' := st;
    res := Ok(());
    if code == 40 { st' := st'.(backgroundColor := Black); }
    else if code == 41 { st' := st'.(backgroundColor := Red); }
    else if code == 42 { st' := st'.(backgroundColor := Green); }
    else if code == 43 { st' := st'.(backgroundColor := Yellow); }
    else if code == 44 { st' := st'.(backgroundColor := Blue); }
    else if code == 45 { st' := st'.(backgroundColor := Magenta); }
    else if code == 46 { st' := st'.(backgroundColor := Cyan); }
    else if code == 47 { st' := st'.(backgroundColor := White); }
    else { st' := st'.(backgroundColor := None); }
  }

  /** The arms for codes from 50 on: monospace, the default underline colour,
      their todo arms, and the catch-all error. */
  method ApplyHighCode(st: AnsiState, code: U8) returns (res: Outcome<()>, st': AnsiState)
    requires 50 <= code && !IsColorCode(code)
    ensures res == Status(ApplySimple(st, code))
    ensures st' == if res.Ok? then ApplySimple(st, code).value else st
  {
    st' := st;
    res := Ok(());
    if code == 50 { st' := st'.(spacing := Monospace); }
    else if 51 <= code <= 55 { res := Unimplemented; }
    else if code == 59 { st' := st'.(underlineColor := None); }
    else if 60 <= code <= 65 { res := Unimplemented; }
    else if 73 <= code <= 75 { res := Unimplemented; }
    else { res := Err; }
  }

  /** `parse_ansi_code`: the cursor starts at `pos`; the state is passed in and
      the updated state handed back, unchanged unless the call succeeds. */
  method ParseAnsiCode(st: AnsiState, s: seq<char>, pos: nat) returns (res: Outcome<()>, st': AnsiState, next: nat)
    requires pos <= |s|
    ensures res == Status(AnsiCode(st, s, pos).res) && next == AnsiCode(st, s, pos).next
    ensures st' == if res.Ok? then AnsiCode(st, s, pos).res.value else st
  {
    st' := st;
    if pos == |s| || s[pos] != '[' {
      return Err, st, Advance(s, pos);
    }
    next := pos + 1;
    var digits: seq<U8> := [];
    while next < |s| && IsAsciiDigit(s[next])
      invariant pos + 1 <= next <= |s|
      invariant |digits| == next - (pos + 1)
      invariant forall k :: 0 <= k < |digits| ==> digits[k] == ByteOf(s[pos + 1 + k])
      invariant forall k :: pos + 1 <= k < next ==> IsAsciiDigit(s[k])
    {
      digits := digits + [ByteOf(s[next])];
      next := next + 1;
    }
    assert next == DigitRunEnd(s, pos + 1) by {
      DigitRunEndUnique(s, pos + 1, next);
    }
    assert digits == Bytes(s[pos + 1..next]);
    var (number, _) := ParseNumber(digits);
    if !number.Ok? {
      return Err, st, next;
    }
    var code := number.value;
    if IsColorCode(code) {
      var c, after := ParseColorCode(s, next);
      next := after;
      if !c.Ok? {
        return Status(c), st, next;
      }
      if code == 38 {
        st' := st.(textColor := c.value);
      } else if code == 48 {
        st' := st.(backgroundColor := c.value);
      } else {
        st' := st.(underlineColor := c.value);
      }
      res := Ok(());
    } else {
      res, st' := ApplyCode(st, code);
    }
  }

  lemma DigitRunEndUnique(s: seq<char>, from: nat, e: nat)
    requires from <= e <= |s|
    requires e < |s| ==> !IsAsciiDigit(s[e])
    requires forall k :: from <= k < e ==> IsAsciiDigit(s[k])
    ensures DigitRunEnd(s, from) == e
  {
  }

  /** The codes that set exactly one attribute. */
  predicate IsSingleAttributeCode(code: U8) {
    1 <= code <= 7 || code == 9 || 21 <= code <= 27 || 29 <= code <= 37 || 39 <= code <= 47
    || code == 49 || code == 50 || code == 59
  }

  /** Which codes succeed, which fail and which reach `todo!()`: the codes
      with no arm (56, 57, 66 to 72, 76 and above) fail. */
  lemma SimpleCodeClassification(st: AnsiState, code: U8)
    requires !IsColorCode(code)
    ensures ApplySimple(st, code).Ok? <==> code == 0 || IsSingleAttributeCode(code)
    ensures ApplySimple(st, code).Err? <==> code == 56 || code == 57 || 66 <= code <= 72 || 76 <= code
    ensures ApplySimple(st, code).Unimplemented? <==> IsTodo(code)
  {
  }

  /** The codes that switch one attribute off, or back to its default
      (code 0 switches them all off). */
  predicate IsOffCode(code: U8) {
    code == 0 || 22 <= code <= 27 || code == 29 || code == 39 || code == 49 || code == 59
  }

  /** The default state has every attribute off: no code that switches an
      attribute off changes it. */
  lemma DefaultIsAllOff(code: U8)
    requires IsOffCode(code)
    ensures !IsColorCode(code) && ApplySimple(Default, code) == Ok(Default)
  {
  }

  /** A single-attribute code writes one attribute, whatever the state was,
      and leaves every other attribute as it was. */
  lemma SingleAttributeFrame(st: AnsiState, code: U8)
    requires IsSingleAttributeCode(code)
    ensures ApplySimple(st, code).Ok? && Effect(code).Some?
    ensures var after := ApplySimple(st, code).value;
      var i := Slot(Effect(code).value);
      && Get(after, i) == Effect(code).value
      && forall j :: 0 <= j < Slots && j != i ==> Get(after, j) == Get(st, j)
  {
    SetFrame(st, Effect(code).value);
  }

  /** Code 0 gives the default state except for the underline colour and the
      spacing, which it keeps; so it gives exactly the default state only when
      those two were already at their defaults. */
  lemma ResetLaw(st: AnsiState)
    ensures ApplySimple(st, 0) == Ok(Default.(underlineColor := st.underlineColor, spacing := st.spacing))
    ensures ApplySimple(st, 0) == Ok(Default) <==> st.underlineColor == None && st.spacing == Proportional
  {
  }

  /** Applying a code without argument twice is the same as applying it once. */
  lemma SimpleCodeIdempotent(st: AnsiState, code: U8)
    requires !IsColorCode(code) && ApplySimple(st, code).Ok?
    ensures ApplySimple(ApplySimple(st, code).value, code) == ApplySimple(st, code)
  {
  }

  /** 30 + i and 40 + i select the named hue with ordinal i for the text and
      the background. */
  lemma NamedColorCodes(st: AnsiState, i: nat)
    requires i < 8
    ensures ApplySimple(st, 30 + i) == Ok(st.(textColor := Named(i)))
    ensures ApplySimple(st, 40 + i) == Ok(st.(backgroundColor := Named(i)))
  {
  }

  /** SGR 30+i and 40+i make the text or background print as the `i`-th CSS
      keyword, whatever the palette. */
  lemma NamedColorKeywords(st: AnsiState, i: nat, palette: U8 -> Rgb)
    requires i < 8
    ensures ApplySimple(st, 30 + i).Ok? && Render(ApplySimple(st, 30 + i).value.textColor, palette) == Keywords[i]
    ensures ApplySimple(st, 40 + i).Ok? && Render(ApplySimple(st, 40 + i).value.backgroundColor, palette) == Keywords[i]
  {
    NamedColorCodes(st, i);
    NamedKeywords(i, palette);
  }

  /** Codes 38, 48 and 58 write the colour their argument gives to the text,
      background and underline colour, and leave every other field alone. */
  lemma ColorAttrWrites(st: AnsiState, code: U8, c: Color)
    requires IsColorCode(code)
    ensures code == 38 ==> Set(st, ColorAttr(code, c)) == st.(textColor := c)
    ensures code == 48 ==> Set(st, ColorAttr(code, c)) == st.(backgroundColor := c)
    ensures code == 58 ==> Set(st, ColorAttr(code, c)) == st.(underlineColor := c)
  {
  }

  /** Nothing but `[` starts a code. */
  lemma AnsiCodeNeedsBracket(st: AnsiState, s: seq<char>, pos: nat)
    requires pos <= |s|
    ensures AnsiCode(st, s, pos).res != Err ==> pos < |s| && s[pos] == '['
    ensures pos == |s| || s[pos] != '[' ==> AnsiCode(st, s, pos).next == Advance(s, pos)
  {
  }

  /** A digit run read as bytes is all digits. */
  lemma DigitRunIsDigits(s: seq<char>, from: nat)
    requires from <= |s|
    ensures AllDigits(Bytes(s[from..DigitRunEnd(s, from)]))
  {
    var e := DigitRunEnd(s, from);
    forall i | 0 <= i < e - from ensures IsDigit(Bytes(s[from..e])[i]) {
      assert s[from..e][i] == s[from + i];
    }
  }

  /** How the leading code is read: the whole digit run and nothing after it
      is consumed for a code without argument; a value above 255 fails; an
      empty run is code 0. */
  lemma LeadingCode(st: AnsiState, s: seq<char>, pos: nat)
    requires pos < |s| && s[pos] == '['
    ensures var e := DigitRunEnd(s, pos + 1);
      AllDigits(Bytes(s[pos + 1..e])) &&
      var v := DecimalValue(Bytes(s[pos + 1..e]));
      && (v > 255 ==> AnsiCode(st, s, pos) == Parsed(Err, e))
      && (v <= 255 && !IsColorCode(v) ==> AnsiCode(st, s, pos) == Parsed(ApplySimple(st, v), e))
      && (e == pos + 1 ==> AnsiCode(st, s, pos) == Parsed(ApplySimple(st, 0), pos + 1))
  {
    var e := DigitRunEnd(s, pos + 1);
    DigitRunIsDigits(s, pos + 1);
    ParseNumberMeaning(Bytes(s[pos + 1..e]));
  }

  /** An extended-colour code followed by a plain decimal truecolor argument
      sets the code's colour attribute, and nothing else, to `Full(r, g, b)`. */
  lemma TruecolorCode(st: AnsiState, code: U8, r: U8, g: U8, b: U8, rest: string)
    requires IsColorCode(code)
    ensures var field := Decimal(r) + ";" + Decimal(g) + ";" + Decimal(b);
      var s := "[" + Decimal(code) + ";2;" + field + "m" + rest;
      AnsiCode(st, s, 0)
        == Parsed(Ok(Set(st, ColorAttr(code, Full(r, g, b)))),
                  4 + |Decimal(code)| + |field| + (if |field| < Lookahead then 1 else 0))
  {
    var field := Decimal(r) + ";" + Decimal(g) + ";" + Decimal(b);
    var d := Decimal(code);
    var s := "[" + d + ";2;" + field + "m" + rest;
    TruecolorRoundTrip("[" + d, r, g, b, rest);
    ArgumentLayout("[" + d, field, rest);
    DecimalParses(code);
    ColorCodeApplied(st, s, d, code);
  }

  /** An extended-colour code written in decimal, followed by an argument
      that parses, sets the code's attribute to the argument's colour; the
      cursor ends where the argument ends. */
  lemma ColorCodeApplied(st: AnsiState, s: seq<char>, d: seq<char>, code: U8)
    requires 1 + |d| < |s| && s[..1 + |d|] == "[" + d && s[1 + |d|] == ';'
    requires forall i :: 0 <= i < |d| ==> '0' <= d[i] <= '9'
    requires ParseNumber(Bytes(d)).0 == Ok(code) && IsColorCode(code)
    requires ColorArg(s, 1 + |d|).res.Ok?
    ensures var arg := ColorArg(s, 1 + |d|);
      AnsiCode(st, s, 0) == Parsed(Ok(Set(st, ColorAttr(code, arg.res.value))), arg.next)
  {
    assert s[0] == s[..1 + |d|][0] == '[';
    assert s[1..1 + |d|] == d;
    forall k | 1 <= k < 1 + |d| ensures IsAsciiDigit(s[k]) {
      assert s[k] == d[k - 1];
    }
    DigitRunEndUnique(s, 1, 1 + |d|);
  }

  /** An extended-colour code hands the rest of the input to the colour
      argument parser and passes on what that parser returns, with the
      cursor where it stops: a colour sets the code's attribute, and an
      error or an unimplemented form is passed on through `?`. */
  lemma ColorCodeOutcome(st: AnsiState, s: seq<char>, pos: nat)
    requires pos < |s| && s[pos] == '['
    requires var n := ParseNumber(Bytes(s[pos + 1..DigitRunEnd(s, pos + 1)])).0;
      n.Ok? && IsColorCode(n.value)
    ensures var e := DigitRunEnd(s, pos + 1);
      var code := ParseNumber(Bytes(s[pos + 1..e])).0.value;
      var arg := ColorArg(s, e);
      && (arg.res.Ok? ==> AnsiCode(st, s, pos) == Parsed(Ok(Set(st, ColorAttr(code, arg.res.value))), arg.next))
      && (arg.res.Err? ==> AnsiCode(st, s, pos) == Parsed(Err, arg.next))
      && (arg.res.Unimplemented? ==> AnsiCode(st, s, pos) == Parsed(Unimplemented, arg.next))
  {
  }
}
