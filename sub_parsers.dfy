/** The number scanner `parse_number` and the extended-colour argument parser
    `parse_color_code` that follows SGR 38, 48 and 58. */
module SubParsers {
  import opened Prelude
  import opened Colors

  /** An ASCII decimal digit byte, `0x30..0x39`. */
  predicate IsDigit(b: U8) {
    0x30 <= b < 0x3a
  }

  predicate AllDigits(s: seq<U8>) {
    forall i :: 0 <= i < |s| ==> IsDigit(s[i])
  }

  /** The decimal value of a run of digit bytes; leading zeros are allowed and
      the empty run is 0. This is the reference `ParseNumber` is proved against. */
  function DecimalValue(s: seq<U8>): (v: nat)
    requires AllDigits(s)
    ensures s == [] ==> v == 0
  {
    if s == [] then 0 else 10 * DecimalValue(s[..|s| - 1]) + (s[|s| - 1] - 0x30)
  }

  /** `parse_number`: a left fold over every element of the input, carrying the
      running total and the number of elements seen. A digit is accepted only
      when `total * 10 + digit` stays within 255, so the `u8` total never wraps;
      once the total is an error it stays one, but the count keeps growing. */
  function ParseNumber(s: seq<U8>): (r: (Outcome<U8>, nat))
    ensures r.1 == |s|
    ensures !r.0.Unimplemented?
  {
    if s == [] then (Ok(0), 0)
    else
      var (total, length) := ParseNumber(s[..|s| - 1]);
      var c := s[|s| - 1];
      match total
      case Ok(t) =>
        if IsDigit(c) && (t < 25 || (t == 25 && c <= 0x35)) then (Ok(t * 10 + (c - 0x30)), length + 1)
        else (Err, length + 1)
      case _ => (Err, length + 1)
  }

  /** `parse_number` succeeds exactly on digit runs whose value is at most 255,
      and then yields that value. */
  lemma {:induction false} ParseNumberMeaning(s: seq<U8>)
    ensures ParseNumber(s).0.Ok? <==> AllDigits(s) && DecimalValue(s) <= 255
    ensures ParseNumber(s).0.Ok? ==> ParseNumber(s).0.value == DecimalValue(s)
  {
    if s != [] {
      var init := s[..|s| - 1];
      ParseNumberMeaning(init);
      if AllDigits(s) {
        assert AllDigits(init) by {
          forall i | 0 <= i < |init| ensures IsDigit(init[i]) {
            assert init[i] == s[i];
          }
        }
      }
    }
  }

  /** Once the fold has met a bad element, no further input brings it back. */
  lemma {:induction false} ParseNumberErrorSticks(s: seq<U8>, t: seq<U8>)
    requires ParseNumber(s).0.Err?
    ensures ParseNumber(s + t).0.Err?
  {
    if t == [] {
      assert s + t == s;
    } else {
      var t' := t[..|t| - 1];
      ParseNumberErrorSticks(s, t');
      var st := s + t;
      assert st[..|st| - 1] == s + t';
      assert ParseNumber(st[..|st| - 1]).0.Err?;
      assert ParseNumber(st).0 == Err;
    }
  }

  /** Leading zeros are accepted: "0255" reads as 255 and counts 4 elements. */
  lemma LeadingZerosAccepted()
    ensures ParseNumber([0x30, 0x32, 0x35, 0x35]) == (Ok(255), 4)
  {
    var s: seq<U8> := [0x30, 0x32, 0x35, 0x35];
    assert s[..3] == [0x30, 0x32, 0x35];
    assert s[..3][..2] == [0x30, 0x32];
    assert s[..3][..2][..1] == [0x30];
    assert DecimalValue([0x30]) == 0;
    assert DecimalValue([0x30, 0x32]) == 2;
    assert DecimalValue([0x30, 0x32, 0x35]) == 25;
    assert DecimalValue(s) == 255;
    ParseNumberMeaning(s);
  }

  /** The plain decimal text of `n`, without leading zeros, as `format!("{n}")`
      writes it. */
  function Decimal(n: nat): (d: string)
    ensures 0 < |d|
    ensures forall i :: 0 <= i < |d| ==> '0' <= d[i] <= '9'
  {
    if n < 10 then [(48 + n) as char] else Decimal(n / 10) + [(48 + n % 10) as char]
  }

  lemma {:induction false} DecimalValueOfDecimal(n: nat)
    ensures AllDigits(Bytes(Decimal(n))) && DecimalValue(Bytes(Decimal(n))) == n
    ensures n < 10 ==> |Decimal(n)| == 1
    ensures n < 100 ==> |Decimal(n)| <= 2
    ensures n < 1000 ==> |Decimal(n)| <= 3
  {
    var bs := Bytes(Decimal(n));
    if n >= 10 {
      DecimalValueOfDecimal(n / 10);
      assert bs[..|bs| - 1] == Bytes(Decimal(n / 10));
    }
  }

  /** The decimal text of any byte value scans back to that value. */
  lemma DecimalParses(n: U8)
    ensures |Decimal(n)| <= 3
    ensures ParseNumber(Bytes(Decimal(n))) == (Ok(n), |Decimal(n)|)
  {
    DecimalValueOfDecimal(n);
    ParseNumberMeaning(Bytes(Decimal(n)));
  }

  /** One step of `split(|&c| c == ';')`: a separator opens a new part, any
      other character extends the last one. */
  function SplitStep(parts: seq<seq<char>>, c: char): (r: seq<seq<char>>)
    requires |parts| >= 1
    ensures |r| >= 1
  {
    if c == ';' then parts + [[]] else parts[..|parts| - 1] + [parts[|parts| - 1] + [c]]
  }

  /** `split(|&c| c == ';')` on a slice: k separators give k + 1 parts, empty
      parts included (the empty slice gives one empty part). */
  function Split(s: seq<char>): (parts: seq<seq<char>>)
    ensures |parts| >= 1
  {
    if s == [] then [[]] else SplitStep(Split(s[..|s| - 1]), s[|s| - 1])
  }

  /** Text without a separator is a single part. */
  lemma {:induction false} SplitWithoutSeparator(s: seq<char>)
    requires forall i :: 0 <= i < |s| ==> s[i] != ';'
    ensures Split(s) == [s]
  {
    if s != [] {
      SplitWithoutSeparator(s[..|s| - 1]);
      assert s[..|s| - 1] + [s[|s| - 1]] == s;
    }
  }

  lemma SplitStepAppend(a: seq<seq<char>>, b: seq<seq<char>>, c: char)
    requires |b| >= 1
    ensures SplitStep(a + b, c) == a + SplitStep(b, c)
  {
    if c != ';' {
      assert (a + b)[..|a + b| - 1] == a + b[..|b| - 1];
    }
  }

  /** Splitting at a separator splits the two sides independently. */
  lemma {:induction false} SplitAtSeparator(x: seq<char>, y: seq<char>)
    ensures Split(x + [';'] + y) == Split(x) + Split(y)
  {
    var s := x + [';'] + y;
    if y == [] {
      assert s[..|s| - 1] == x;
      assert Split(s) == SplitStep(Split(x), ';');
    } else {
      var y' := y[..|y| - 1];
      SplitAtSeparator(x, y');
      assert s[..|s| - 1] == x + [';'] + y';
      assert Split(s) == SplitStep(Split(x) + Split(y'), y[|y| - 1]);
      SplitStepAppend(Split(x), Split(y'), y[|y| - 1]);
    }
  }

  /** Three separator-free pieces joined by two separators split back into
      exactly those pieces. */
  lemma SplitThree(a: seq<char>, b: seq<char>, c: seq<char>)
    requires forall i :: 0 <= i < |a| ==> a[i] != ';'
    requires forall i :: 0 <= i < |b| ==> b[i] != ';'
    requires forall i :: 0 <= i < |c| ==> c[i] != ';'
    ensures Split(a + [';'] + b + [';'] + c) == [a, b, c]
  {
    SplitWithoutSeparator(a);
    SplitWithoutSeparator(b);
    SplitWithoutSeparator(c);
    SplitAtSeparator(a + [';'] + b, c);
    SplitAtSeparator(a, b);
  }

  /** The parts joined back with `;` between them: the inverse of `Split`. */
  function Join(parts: seq<seq<char>>): (s: seq<char>)
    requires |parts| >= 1
    ensures |s| >= |parts| - 1
  {
    if |parts| == 1 then parts[0] else Join(parts[..|parts| - 1]) + [';'] + parts[|parts| - 1]
  }

  lemma JoinSplitStep(ps: seq<seq<char>>, c: char)
    requires |ps| >= 1
    ensures Join(SplitStep(ps, c)) == Join(ps) + [c]
  {
    var n := |ps|;
    if c == ';' {
      assert (ps + [[]])[..n] == ps;
    } else if n > 1 {
      var qs := SplitStep(ps, c);
      assert qs[..n - 1] == ps[..n - 1];
    }
  }

  /** Joining the parts with `;` gives the text back. */
  lemma {:induction false} SplitJoinRoundTrip(s: seq<char>)
    ensures Join(Split(s)) == s
  {
    if s != [] {
      var init, last := s[..|s| - 1], s[|s| - 1];
      calc {
        Join(Split(s));
        Join(SplitStep(Split(init), last));
        { JoinSplitStep(Split(init), last); }
        Join(Split(init)) + [last];
        { SplitJoinRoundTrip(init); }
        init + [last];
        s;
      }
    }
  }

  /** No part contains a separator, and there is one part more than there are
      separators. */
  lemma {:induction false} SplitParts(s: seq<char>)
    ensures forall j, i :: 0 <= j < |Split(s)| && 0 <= i < |Split(s)[j]| ==> Split(s)[j][i] != ';'
    ensures |Split(s)| == 1 + Separators(s)
  {
    if s != [] {
      SplitParts(s[..|s| - 1]);
    }
  }

  /** The number of `;` in `s`. */
  function Separators(s: seq<char>): (n: nat)
    ensures n <= |s|
  {
    if s == [] then 0 else Separators(s[..|s| - 1]) + if s[|s| - 1] == ';' then 1 else 0
  }

  /** One truecolor component: `parse_number` over the part, refused when the
      part has more than three characters. */
  function Component(part: seq<char>): (r: Outcome<U8>)
    ensures !r.Unimplemented?
    ensures r.Ok? ==> |part| <= FieldWidth
  {
    var (total, length) := ParseNumber(Bytes(part));
    if length > FieldWidth then Err else total
  }

  /** A component the truecolor form accepts: at most three characters, all
      digits, value at most 255. The empty part is 0. */
  predicate ValidComponent(part: seq<char>) {
    |part| <= 3 && AllDigits(Bytes(part)) && DecimalValue(Bytes(part)) <= 255
  }

  lemma ComponentMeaning(part: seq<char>)
    ensures Component(part).Ok? <==> ValidComponent(part)
    ensures Component(part).Ok? ==> Component(part).value == DecimalValue(Bytes(part))
    ensures !Component(part).Unimplemented?
  {
    ParseNumberMeaning(Bytes(part));
  }

  /** Lookahead of the truecolor form, in characters after `;2;`. */
  const Lookahead := 11

  /** The most characters a numeric field may have. */
  const FieldWidth := 3

  /** The characters `take_while(|&p| p != 'm').take(11)` collects from `start`. */
  function TruecolorField(s: seq<char>, start: nat): (field: seq<char>)
    requires start <= |s|
    ensures |field| <= Lookahead
    ensures forall i :: 0 <= i < |field| ==> field[i] != 'm'
  {
    var e := StopAt(s, start, 'm');
    var field := s[start..if e - start < Lookahead then e else start + Lookahead];
    assert forall i :: 0 <= i < |field| ==> field[i] == s[start + i];
    field
  }

  /** `parse_color_code`, step by step: `;`, a selector, `;`, then the palette
      form `5;<n>` or the truecolor form `2;<r>;<g>;<b>`. The result and the
      position the cursor is left at. */
  function ColorArg(s: seq<char>, pos: nat): (r: Parsed<Color>)
    requires pos <= |s|
    ensures pos <= r.next <= |s|
  {
    if pos == |s| || s[pos] != ';' then Parsed(Err, Advance(s, pos))
    else
      // the selector, if there is one, is taken before the separator is checked
      var p := Advance(s, pos + 1);
      if p == |s| || s[p] != ';' then Parsed(Err, Advance(s, p))
      else if s[pos + 1] == '5' then PaletteArg(s, p + 1)
      else if s[pos + 1] == '2' then TruecolorArg(s, p + 1)
      else Parsed(Err, p + 1)
  }

  /** The palette form after `;5;`, from `start`. `take_while` also consumes
      the 'm' that stops it. */
  function PaletteArg(s: seq<char>, start: nat): (r: Parsed<Color>)
    requires start <= |s|
    ensures start <= r.next <= |s|
  {
    var e := StopAt(s, start, 'm');
    var next := Advance(s, e);
    var (n, length) := ParseNumber(Bytes(s[start..e]));
    if length > FieldWidth then Parsed(Err, next)
    else
      match n
      case Ok(0) => Parsed(Ok(Named(0)), next)
      case Err => Parsed(Err, next)
      case _ => Parsed(Unimplemented, next)
  }

  /** The truecolor form after `;2;`, from `start`. `take(11)` pulls once
      more, consuming the 'm', only while it has collected fewer than 11
      characters. */
  function TruecolorArg(s: seq<char>, start: nat): (r: Parsed<Color>)
    requires start <= |s|
    ensures start <= r.next <= |s| && r.next <= start + Lookahead
  {
    var field := TruecolorField(s, start);
    var next := if |field| < Lookahead then Advance(s, StopAt(s, start, 'm')) else start + Lookahead;
    var parts := Split(field);
    if |parts| != 3 then Parsed(Err, next)
    else
      match (Component(parts[0]), Component(parts[1]), Component(parts[2]))
      case (Ok(r), Ok(g), Ok(b)) => Parsed(Ok(Full(r, g, b)), next)
      case _ => Parsed(Err, next)
  }

  /** `parse_color_code`, advancing a cursor over `s` from `pos`. */
  method ParseColorCode(s: seq<char>, pos: nat) returns (res: Outcome<Color>, next: nat)
    requires pos <= |s|
    ensures Parsed(res, next) == ColorArg(s, pos)
  {
    next := pos;
    // match `;(2|5);`
    if next == |s| || s[next] != ';' {
      return Err, Advance(s, next);
    }
    var selectorAt := next + 1;
    next := Advance(s, selectorAt);
    if next == |s| || s[next] != ';' {
      return Err, Advance(s, next);
    }
    var selector := s[selectorAt];
    next := next + 1;
    if selector == '5' {
      res, next := ParsePalette(s, next);
    } else if selector == '2' {
      res, next := ParseTruecolor(s, next);
    } else {
      res := Err;
    }
  }

  /** The palette arm: digits up to an 'm', at most three of them. */
  method ParsePalette(s: seq<char>, start: nat) returns (res: Outcome<Color>, next: nat)
    requires start <= |s|
    ensures Parsed(res, next) == PaletteArg(s, start)
  {
    next := start;
    var field: seq<U8> := [];
    while next < |s| && s[next] != 'm'
      invariant start <= next <= |s|
      invariant |field| == next - start
      invariant forall k :: 0 <= k < |field| ==> field[k] == ByteOf(s[start + k])
      invariant forall k :: start <= k < next ==> s[k] != 'm'
    {
      field := field + [ByteOf(s[next])];
      next := next + 1;
    }
    StopAtUnique(s, start, 'm', next);
    assert field == Bytes(s[start..next]);
    next := Advance(s, next);
    var (n, length) := ParseNumber(field);
    if length > FieldWidth {
      return Err, next;
    }
    match n
    case Ok(0) => res := Ok(Named(0));
    case Err => res := Err;
    case _ => res := Unimplemented;
  }

  /** The truecolor arm: at most 11 characters up to an 'm', split at `;`
      into exactly three numbers. */
  method ParseTruecolor(s: seq<char>, start: nat) returns (res: Outcome<Color>, next: nat)
    requires start <= |s|
    ensures Parsed(res, next) == TruecolorArg(s, start)
  {
    next := start;
    var color: seq<char> := [];
    while |color| < Lookahead && next < |s| && s[next] != 'm'
      invariant start <= next <= |s|
      invariant color == s[start..next] && |color| <= Lookahead
      invariant forall k :: start <= k < next ==> s[k] != 'm'
    {
      color := color + [s[next]];
      next := next + 1;
    }
    assert color == TruecolorField(s, start) by {
      if |color| < Lookahead {
        StopAtUnique(s, start, 'm', next);
      } else {
        StopAtAtLeast(s, start, 'm', next);
      }
    }
    if |color| < Lookahead {
      next := Advance(s, next);
    }
    var splits := SplitOnSemicolons(color);
    if |splits| != 3 {
      return Err, next;
    }
    var r, g, b := Component(splits[0]), Component(splits[1]), Component(splits[2]);
    if r.Ok? && g.Ok? && b.Ok? {
      res := Ok(Full(r.value, g.value, b.value));
    } else {
      res := Err;
    }
  }

  /** `split(|&byte| byte == ';')` over the collected field. */
  method SplitOnSemicolons(color: seq<char>) returns (splits: seq<seq<char>>)
    ensures splits == Split(color)
  {
    splits := [];
    var part: seq<char> := [];
    var i := 0;
    while i < |color|
      invariant 0 <= i <= |color|
      invariant Split(color[..i]) == splits + [part]
    {
      assert color[..i + 1][..i] == color[..i];
      if color[i] == ';' {
        splits := splits + [part];
        part := [];
      } else {
        part := part + [color[i]];
      }
      i := i + 1;
    }
    assert color[..i] == color;
    splits := splits + [part];
  }

  /** Nothing but `;`, a selector `5` or `2`, and `;` gets past the prefix;
      after it, the selector picks the form. */
  lemma ColorArgNeedsPrefix(s: seq<char>, pos: nat)
    requires pos <= |s|
    ensures ColorArg(s, pos).res != Err ==>
      pos + 3 <= |s| && s[pos] == ';' && s[pos + 2] == ';' && (s[pos + 1] == '5' || s[pos + 1] == '2')
    ensures pos + 3 <= |s| && s[pos] == ';' && s[pos + 2] == ';' && s[pos + 1] == '5' ==>
      ColorArg(s, pos) == PaletteArg(s, pos + 3)
    ensures pos + 3 <= |s| && s[pos] == ';' && s[pos + 2] == ';' && s[pos + 1] == '2' ==>
      ColorArg(s, pos) == TruecolorArg(s, pos + 3)
  {
  }

  /** For every r, g, b, the plain decimal truecolor argument `;2;r;g;bm`
      parses to `Full(r, g, b)`, wherever it stands in the input. The 'm' is
      consumed only when the field before it is shorter than 11 characters. */
  lemma {:induction false} TruecolorRoundTrip(head: string, r: U8, g: U8, b: U8, rest: string)
    ensures var field := Decimal(r) + ";" + Decimal(g) + ";" + Decimal(b);
      ColorArg(head + ";2;" + field + "m" + rest, |head|)
        == Parsed(Ok(Full(r, g, b)), |head| + 3 + |field| + (if |field| < Lookahead then 1 else 0))
  {
    var dr, dg, db := Decimal(r), Decimal(g), Decimal(b);
    var field := dr + ";" + dg + ";" + db;
    var s := head + ";2;" + field + "m" + rest;
    var p := |head|;
    ArgumentLayout(head, field, rest);
    DecimalIsValidComponent(r);
    DecimalIsValidComponent(g);
    DecimalIsValidComponent(b);
    assert TruecolorArg(s, p + 3) == Parsed(Ok(Full(r, g, b)), p + 3 + |field| + (if |field| < Lookahead then 1 else 0)) by {
      DecimalField(dr, dg, db);
      TruecolorOfText(s, p + 3, field, dr, dg, db);
    }
    ColorArgTruecolor(s, p);
  }

  /** Three digit texts of at most three digits each, joined by `;`, make a
      field of at most 11 characters, without 'm', that splits back into the
      three texts. */
  lemma DecimalField(dr: string, dg: string, db: string)
    requires |dr| <= 3 && forall i :: 0 <= i < |dr| ==> '0' <= dr[i] <= '9'
    requires |dg| <= 3 && forall i :: 0 <= i < |dg| ==> '0' <= dg[i] <= '9'
    requires |db| <= 3 && forall i :: 0 <= i < |db| ==> '0' <= db[i] <= '9'
    ensures |dr + ";" + dg + ";" + db| <= Lookahead
    ensures forall i :: 0 <= i < |dr + ";" + dg + ";" + db| ==> (dr + ";" + dg + ";" + db)[i] != 'm'
    ensures Split(dr + ";" + dg + ";" + db) == [dr, dg, db]
  {
    DecimalFieldHasNoM(dr, dg, db);
    assert dr + ";" + dg + ";" + db == dr + [';'] + dg + [';'] + db;
    SplitThree(dr, dg, db);
  }

  /** Where the pieces of `head`, `;2;`, a field, `m` and the rest stand. */
  lemma ArgumentLayout(head: seq<char>, field: seq<char>, rest: seq<char>)
    ensures var s := head + ";2;" + field + "m" + rest;
      var p := |head|;
      && p + 3 + |field| < |s|
      && s[..p] == head
      && s[p] == ';' && s[p + 1] == '2' && s[p + 2] == ';'
      && s[p + 3..p + 3 + |field|] == field
      && s[p + 3 + |field|] == 'm'
  {
    var s := head + ";2;" + field + "m" + rest;
    var p := |head|;
    assert s[p + 3..p + 3 + |field|] == field;
  }

  /** After `;2;` the truecolor form is read. */
  lemma ColorArgTruecolor(s: seq<char>, p: nat)
    requires p + 3 <= |s| && s[p] == ';' && s[p + 1] == '2' && s[p + 2] == ';'
    ensures ColorArg(s, p) == TruecolorArg(s, p + 3)
  {
  }

  /** A truecolor field at `start`, ended by an 'm', that splits into three
      valid components. */
  lemma TruecolorOfText(s: seq<char>, start: nat, field: seq<char>, a: seq<char>, b: seq<char>, c: seq<char>)
    requires start + |field| < |s| && s[start..start + |field|] == field && s[start + |field|] == 'm'
    requires |field| <= Lookahead && forall i :: 0 <= i < |field| ==> field[i] != 'm'
    requires Split(field) == [a, b, c]
    requires ValidComponent(a) && ValidComponent(b) && ValidComponent(c)
    ensures TruecolorArg(s, start)
      == Parsed(Ok(Full(DecimalValue(Bytes(a)), DecimalValue(Bytes(b)), DecimalValue(Bytes(c)))),
                start + |field| + (if |field| < Lookahead then 1 else 0))
  {
    FieldBeforeM(s, start, field);
    TruecolorOutcome(s, start);
  }

  /** A field without 'm' followed by an 'm' is where the scan for 'm' stops. */
  lemma FieldBeforeM(s: seq<char>, start: nat, field: seq<char>)
    requires start + |field| < |s| && s[start..start + |field|] == field && s[start + |field|] == 'm'
    requires |field| <= Lookahead && forall i :: 0 <= i < |field| ==> field[i] != 'm'
    ensures StopAt(s, start, 'm') == start + |field| && TruecolorField(s, start) == field
  {
    forall k | start <= k < start + |field| ensures s[k] != 'm' {
      assert s[k] == field[k - start];
    }
    StopAtUnique(s, start, 'm', start + |field|);
  }

  /** The decimal text of a byte value is a valid component of that value. */
  lemma DecimalIsValidComponent(n: U8)
    ensures ValidComponent(Decimal(n)) && DecimalValue(Bytes(Decimal(n))) == n
  {
    DecimalValueOfDecimal(n);
  }

  lemma DecimalFieldHasNoM(dr: string, dg: string, db: string)
    requires forall i :: 0 <= i < |dr| ==> '0' <= dr[i] <= '9'
    requires forall i :: 0 <= i < |dg| ==> '0' <= dg[i] <= '9'
    requires forall i :: 0 <= i < |db| ==> '0' <= db[i] <= '9'
    ensures forall i :: 0 <= i < |dr + ";" + dg + ";" + db| ==> (dr + ";" + dg + ";" + db)[i] != 'm'
  {
    var field := dr + ";" + dg + ";" + db;
    forall i | 0 <= i < |field| ensures field[i] != 'm' {
      if i < |dr| {
        assert field[i] == dr[i];
      } else if i < |dr| + 1 + |dg| && i != |dr| {
        assert field[i] == dg[i - |dr| - 1];
      } else if i > |dr| + 1 + |dg| {
        assert field[i] == db[i - |dr| - |dg| - 2];
      }
    }
  }

  /** The truecolor form succeeds exactly when the field (cut at 11
      characters or at 'm') splits into three valid components, and then
      yields their values. It never reaches `todo!()`. */
  lemma TruecolorOutcome(s: seq<char>, start: nat)
    requires start <= |s|
    ensures var parts := Split(TruecolorField(s, start));
      TruecolorArg(s, start).res.Ok? <==>
        |parts| == 3 && ValidComponent(parts[0]) && ValidComponent(parts[1]) && ValidComponent(parts[2])
    ensures var parts := Split(TruecolorField(s, start));
      TruecolorArg(s, start).res.Ok? ==>
        TruecolorArg(s, start).res.value
          == Full(DecimalValue(Bytes(parts[0])), DecimalValue(Bytes(parts[1])), DecimalValue(Bytes(parts[2])))
    ensures !TruecolorArg(s, start).res.Unimplemented?
  {
    var parts := Split(TruecolorField(s, start));
    if |parts| == 3 {
      ComponentMeaning(parts[0]);
      ComponentMeaning(parts[1]);
      ComponentMeaning(parts[2]);
    }
  }

  /** When no 'm' comes within 11 characters, the character after the 11th
      is left for the caller; a shorter field has its 'm' consumed. */
  lemma TruecolorLookahead(s: seq<char>, start: nat)
    requires start <= |s|
    ensures StopAt(s, start, 'm') >= start + Lookahead ==> TruecolorArg(s, start).next == start + Lookahead
    ensures StopAt(s, start, 'm') < start + Lookahead && StopAt(s, start, 'm') < |s| ==>
      TruecolorArg(s, start).next == StopAt(s, start, 'm') + 1
    ensures StopAt(s, start, 'm') == |s| < start + Lookahead ==> TruecolorArg(s, start).next == |s|
  {
  }

  /** Empty components read as 0. */
  lemma EmptyComponentsAreZero()
    ensures ColorArg(";2;;;m", 0) == Parsed(Ok(Full(0, 0, 0)), 6)
  {
    var s := ";2;;;m";
    StopAtUnique(s, 3, 'm', 5);
    assert TruecolorField(s, 3) == ";;";
    assert ";;"[..1] == ";";
    assert Split(";;") == [[], [], []];
  }

  /** The palette form: a field of more than three characters, a non-digit
      or a value above 255 fails; 0 is the first named hue; any other value
      reaches `todo!()`. The 'm' that ends the field is consumed. */
  lemma PaletteOutcome(s: seq<char>, start: nat)
    requires start <= |s|
    ensures var e := StopAt(s, start, 'm');
      var f := Bytes(s[start..e]);
      && PaletteArg(s, start).res
           == (if |f| > FieldWidth || !AllDigits(f) || DecimalValue(f) > 255 then Err
               else if DecimalValue(f) == 0 then Ok(Black)
               else Unimplemented)
      && PaletteArg(s, start).next == (if e < |s| then e + 1 else e)
  {
    ParseNumberMeaning(Bytes(s[start..StopAt(s, start, 'm')]));
  }

  /** A selector other than `5` or `2` fails. */
  lemma WrongSelectorFails()
    ensures ColorArg(";3;0;0;0m", 0).res == Err
  {
  }

  /** A palette field of four characters fails, even with leading zeros. */
  lemma PaletteTooLongFails()
    ensures ColorArg(";5;0112m", 0).res == Err
  {
    var s := ";5;0112m";
    ColorArgNeedsPrefix(s, 0);
    StopAtUnique(s, 3, 'm', 7);
    PaletteOutcome(s, 3);
  }

  /** A separator inside the palette field fails. */
  lemma PaletteNonDigitFails()
    ensures ColorArg(";5;1;1m", 0).res == Err
  {
    var s := ";5;1;1m";
    ColorArgNeedsPrefix(s, 0);
    StopAtUnique(s, 3, 'm', 6);
    PaletteOutcome(s, 3);
    assert Bytes(s[3..6])[1] == ';' as int;
  }

  /** A truecolor field with two parts fails. */
  lemma TruecolorTwoPartsFails()
    ensures ColorArg(";2;011;300m", 0).res == Err
  {
    var s := ";2;011;300m";
    assert TruecolorField(s, 3) == "011;300" by {
      assert forall k :: 3 <= k < 10 ==> s[k] != 'm';
      StopAtUnique(s, 3, 'm', 10);
      assert s[3..10] == "011;300";
    }
    assert |Split("011;300")| == 2 by {
      SplitWithoutSeparator("011");
      SplitWithoutSeparator("300");
      assert "011" + [';'] + "300" == "011;300";
      SplitAtSeparator("011", "300");
    }
    TruecolorOutcome(s, 3);
    ColorArgTruecolor(s, 0);
  }

  /** A truecolor component above 255 fails. */
  lemma TruecolorOutOfRangeFails()
    ensures ColorArg(";2;256;0;0m", 0).res == Err
  {
    var s := ";2;256;0;0m";
    var f := "256;0;0";
    assert TruecolorField(s, 3) == f by {
      StopAtUnique(s, 3, 'm', 10);
    }
    Above255IsNoComponent();
    TruecolorOutcome(s, 3);
    ColorArgTruecolor(s, 0);
  }

  /** Three components of which one is not valid make the argument fail. */
  lemma ComponentsRejected(s: seq<char>, start: nat, a: seq<char>, b: seq<char>, c: seq<char>)
    requires start <= |s|
    requires Split(TruecolorField(s, start)) == [a, b, c]
    requires !(ValidComponent(a) && ValidComponent(b) && ValidComponent(c))
    ensures TruecolorArg(s, start).res == Err
  {
    TruecolorOutcome(s, start);
  }

  /** A four-digit component is refused, even when its value is in range. */
  lemma FourDigitComponentFails()
    ensures ColorArg(";2;000;0000;128m", 0).res == Err
  {
    ColorArgTruecolor(";2;000;0000;128m", 0);
    assert TruecolorArg(";2;000;0000;128m", 3).res == Err by {
      FourDigitField();
      assert !ValidComponent("0000");
      ComponentsRejected(";2;000;0000;128m", 3, "000", "0000", "12");
    }
  }

  /** The field `FourDigitComponentFails` reads, and its three parts. */
  lemma FourDigitField()
    ensures TruecolorField(";2;000;0000;128m", 3) == "000;0000;12"
    ensures Split("000;0000;12") == ["000", "0000", "12"]
  {
    StopAtUnique(";2;000;0000;128m", 3, 'm', 15);
    assert "000" + [';'] + "0000" + [';'] + "12" == "000;0000;12";
    SplitThree("000", "0000", "12");
  }

  /** Only the first eleven characters of the field are read: here they end in
      the middle of the third component, and the first component is already
      too long. */
  lemma TruncatedFieldFails()
    ensures ColorArg(";2;0255;0128;0001m", 0).res == Err
  {
    ColorArgTruecolor(";2;0255;0128;0001m", 0);
    assert TruecolorArg(";2;0255;0128;0001m", 3).res == Err by {
      TruncatedField();
      assert !ValidComponent("0255");
      ComponentsRejected(";2;0255;0128;0001m", 3, "0255", "0128", "0");
    }
  }

  /** The field `TruncatedFieldFails` reads, and its three parts. */
  lemma TruncatedField()
    ensures TruecolorField(";2;0255;0128;0001m", 3) == "0255;0128;0"
    ensures Split("0255;0128;0") == ["0255", "0128", "0"]
  {
    StopAtUnique(";2;0255;0128;0001m", 3, 'm', 17);
    assert "0255" + [';'] + "0128" + [';'] + "0" == "0255;0128;0";
    SplitThree("0255", "0128", "0");
  }

  /** A field with four components is refused. */
  lemma TruecolorFourPartsFails()
    ensures ColorArg(";2;1;128;1;100m", 0).res == Err
  {
    ColorArgTruecolor(";2;1;128;1;100m", 0);
    assert TruecolorArg(";2;1;128;1;100m", 3).res == Err by {
      FourPartsField();
      FourPartsCount();
      TruecolorOutcome(";2;1;128;1;100m", 3);
    }
  }

  /** The field `TruecolorFourPartsFails` reads: eleven characters, which end
      just before the `m`. */
  lemma FourPartsField()
    ensures TruecolorField(";2;1;128;1;100m", 3) == "1;128;1;100"
  {
    var s := ";2;1;128;1;100m";
    assert forall k :: 3 <= k < 14 ==> s[k] != 'm';
    StopAtUnique(s, 3, 'm', 14);
    assert s[3..14] == "1;128;1;100";
  }

  /** `1;128;1;100` has four parts. */
  lemma FourPartsCount()
    ensures |Split("1;128;1;100")| == 4
  {
    assert Split("1;128;1") == ["1", "128", "1"] by {
      assert "1" + [';'] + "128" + [';'] + "1" == "1;128;1";
      SplitThree("1", "128", "1");
    }
    assert Split("100") == ["100"] by {
      SplitWithoutSeparator("100");
    }
    assert "1;128;1" + [';'] + "100" == "1;128;1;100";
    SplitAtSeparator("1;128;1", "100");
  }

  lemma Above255IsNoComponent()
    ensures Split("256;0;0") == ["256", "0", "0"]
    ensures !ValidComponent("256")
  {
    assert "256" + [';'] + "0" + [';'] + "0" == "256;0;0";
    SplitThree("256", "0", "0");
    var bs := Bytes("256");
    assert bs == [0x32, 0x35, 0x36];
    assert bs[..2] == [0x32, 0x35] && bs[..2][..1] == [0x32] && bs[..2][..1][..0] == [];
    assert DecimalValue([0x32]) == 2;
    assert DecimalValue([0x32, 0x35]) == 25;
  }
}
