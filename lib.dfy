/** The converter's front end: `Parser::parse_ansi_text` cuts the input at
    escape characters into runs of text, each paired with the style in force
    while it was read, and merges neighbouring runs of the same style. */
module Lib {
  import opened Prelude
  import opened SubParsers
  import opened State

  /** The escape character that starts every control sequence. */
  const Esc: char := '\U{1B}'

  /** A piece of text and the style it is shown in (one `AnsiChain` entry). */
  datatype Run = Run(state: AnsiState, text: string)

  /** Every run has some text, and none contains an escape character. */
  predicate WellFormed(runs: seq<Run>) {
    forall i :: 0 <= i < |runs| ==> runs[i].text != [] && Esc !in runs[i].text
  }

  /** No two neighbouring runs have the same style. */
  predicate NoAdjacentEqual(runs: seq<Run>) {
    forall i :: 0 < i < |runs| ==> runs[i - 1].state != runs[i].state
  }

  /** All the text of the runs, in order. */
  function Texts(runs: seq<Run>): (t: string)
    ensures runs == [] ==> t == []
  {
    if runs == [] then [] else runs[0].text + Texts(runs[1..])
  }

  /** The styles of the runs, in order. */
  function States(runs: seq<Run>): (r: seq<AnsiState>)
    ensures |r| == |runs|
    ensures forall i :: 0 <= i < |runs| ==> r[i] == runs[i].state
  {
    if runs == [] then [] else [runs[0].state] + States(runs[1..])
  }

  /** A sequence with each block of equal neighbours reduced to one element:
      the reference the merged styles are checked against. */
  function Collapse(xs: seq<AnsiState>): (r: seq<AnsiState>)
    ensures |r| <= |xs|
    ensures |xs| > 0 ==> |r| > 0 && r[0] == xs[0]
  {
    if |xs| <= 1 then xs
    else if xs[0] == xs[1] then Collapse(xs[1..])
    else [xs[0]] + Collapse(xs[1..])
  }

  /** `coalesce` with the merge of equal styles, once the pending run `last`
      has been pulled: each following run either joins `last` or, when its
      style differs, releases `last` and becomes pending itself. */
  function CoalesceFrom(last: Run, rest: seq<Run>): (r: seq<Run>)
    ensures 1 <= |r| <= 1 + |rest| && r[0].state == last.state
    decreases |rest|
  {
    if rest == [] then [last]
    else if last.state == rest[0].state then CoalesceFrom(Run(last.state, last.text + rest[0].text), rest[1..])
    else [last] + CoalesceFrom(rest[0], rest[1..])
  }

  function Coalesce(runs: seq<Run>): (r: seq<Run>)
    ensures |r| <= |runs|
    ensures r == [] <==> runs == []
    ensures runs != [] ==> r[0].state == runs[0].state
  {
    if runs == [] then [] else CoalesceFrom(runs[0], runs[1..])
  }

  lemma {:induction false} CoalesceFromNoAdjacentEqual(last: Run, rest: seq<Run>)
    ensures NoAdjacentEqual(CoalesceFrom(last, rest))
    decreases |rest|
  {
    if rest != [] {
      if last.state == rest[0].state {
        CoalesceFromNoAdjacentEqual(Run(last.state, last.text + rest[0].text), rest[1..]);
      } else {
        CoalesceFromNoAdjacentEqual(rest[0], rest[1..]);
        var tail := CoalesceFrom(rest[0], rest[1..]);
        assert CoalesceFrom(last, rest) == [last] + tail;
        forall i | 0 < i < |[last] + tail| ensures ([last] + tail)[i - 1].state != ([last] + tail)[i].state {
          if i > 1 {
            assert ([last] + tail)[i - 1] == tail[i - 2] && ([last] + tail)[i] == tail[i - 1];
          }
        }
      }
    }
  }

  /** After merging, no two neighbouring runs share a style. */
  lemma CoalesceNoAdjacentEqual(runs: seq<Run>)
    ensures NoAdjacentEqual(Coalesce(runs))
  {
    if runs != [] {
      CoalesceFromNoAdjacentEqual(runs[0], runs[1..]);
    }
  }

  lemma {:induction false} CoalesceFromTexts(last: Run, rest: seq<Run>)
    ensures Texts(CoalesceFrom(last, rest)) == last.text + Texts(rest)
    decreases |rest|
  {
    if rest == [] {
      assert Texts([last]) == last.text + Texts([]);
    } else if last.state == rest[0].state {
      CoalesceFromTexts(Run(last.state, last.text + rest[0].text), rest[1..]);
      assert last.text + rest[0].text + Texts(rest[1..]) == last.text + (rest[0].text + Texts(rest[1..]));
    } else {
      CoalesceFromTexts(rest[0], rest[1..]);
      var out := [last] + CoalesceFrom(rest[0], rest[1..]);
      assert out[1..] == CoalesceFrom(rest[0], rest[1..]);
    }
  }

  /** Merging keeps all the text, in order. */
  lemma CoalesceTexts(runs: seq<Run>)
    ensures Texts(Coalesce(runs)) == Texts(runs)
  {
    if runs != [] {
      CoalesceFromTexts(runs[0], runs[1..]);
    }
  }

  lemma {:induction false} CoalesceFromStates(last: Run, rest: seq<Run>)
    ensures States(CoalesceFrom(last, rest)) == Collapse([last.state] + States(rest))
    decreases |rest|
  {
    var xs := [last.state] + States(rest);
    if rest == [] {
      assert States([last]) == [last.state] + States([]);
    } else {
      assert xs[1..] == States(rest) == [rest[0].state] + States(rest[1..]);
      if last.state == rest[0].state {
        CoalesceFromStates(Run(last.state, last.text + rest[0].text), rest[1..]);
      } else {
        CoalesceFromStates(rest[0], rest[1..]);
        var out := [last] + CoalesceFrom(rest[0], rest[1..]);
        assert out[1..] == CoalesceFrom(rest[0], rest[1..]);
      }
    }
  }

  /** The merged styles are the original styles with neighbouring repeats
      collapsed. */
  lemma CoalesceStates(runs: seq<Run>)
    ensures States(Coalesce(runs)) == Collapse(States(runs))
  {
    if runs != [] {
      CoalesceFromStates(runs[0], runs[1..]);
    }
  }

  lemma {:induction false} CoalesceFromWellFormed(last: Run, rest: seq<Run>)
    requires WellFormed([last] + rest)
    ensures WellFormed(CoalesceFrom(last, rest))
    decreases |rest|
  {
    var all := [last] + rest;
    assert all[0] == last;
    if rest != [] {
      assert WellFormed(rest) by {
        forall i | 0 <= i < |rest| ensures rest[i].text != [] && Esc !in rest[i].text {
          assert rest[i] == all[i + 1];
        }
      }
      assert [rest[0]] + rest[1..] == rest;
      if last.state == rest[0].state {
        var merged := Run(last.state, last.text + rest[0].text);
        assert WellFormed([merged] + rest[1..]) by {
          forall i | 0 <= i < 1 + |rest[1..]|
            ensures ([merged] + rest[1..])[i].text != [] && Esc !in ([merged] + rest[1..])[i].text
          {
            if i > 0 {
              assert ([merged] + rest[1..])[i] == rest[i];
            }
          }
        }
        CoalesceFromWellFormed(merged, rest[1..]);
      } else {
        CoalesceFromWellFormed(rest[0], rest[1..]);
        var tail := CoalesceFrom(rest[0], rest[1..]);
        forall i | 0 <= i < 1 + |tail| ensures ([last] + tail)[i].text != [] && Esc !in ([last] + tail)[i].text {
          if i > 0 {
            assert ([last] + tail)[i] == tail[i - 1];
          }
        }
      }
    }
  }

  /** Merging keeps every run non-empty and free of escape characters. */
  lemma CoalesceWellFormed(runs: seq<Run>)
    requires WellFormed(runs)
    ensures WellFormed(Coalesce(runs))
  {
    if runs != [] {
      assert [runs[0]] + runs[1..] == runs;
      CoalesceFromWellFormed(runs[0], runs[1..]);
    }
  }

  lemma {:induction false} CoalesceFromIdentity(last: Run, rest: seq<Run>)
    requires NoAdjacentEqual([last] + rest)
    ensures CoalesceFrom(last, rest) == [last] + rest
    decreases |rest|
  {
    if rest != [] {
      assert ([last] + rest)[0] == last && ([last] + rest)[1] == rest[0];
      forall i | 0 < i < |rest| ensures rest[i - 1].state != rest[i].state {
        assert rest[i - 1] == ([last] + rest)[i] && rest[i] == ([last] + rest)[i + 1];
      }
      assert [rest[0]] + rest[1..] == rest;
      CoalesceFromIdentity(rest[0], rest[1..]);
    }
  }

  /** Runs that already differ from their neighbours are left as they are;
      so merging twice is merging once. */
  lemma CoalesceIdempotent(runs: seq<Run>)
    ensures NoAdjacentEqual(runs) ==> Coalesce(runs) == runs
    ensures Coalesce(Coalesce(runs)) == Coalesce(runs)
  {
    if runs != [] && NoAdjacentEqual(runs) {
      assert [runs[0]] + runs[1..] == runs;
      CoalesceFromIdentity(runs[0], runs[1..]);
    }
    CoalesceNoAdjacentEqual(runs);
    var c := Coalesce(runs);
    if c != [] {
      assert [c[0]] + c[1..] == c;
      CoalesceFromIdentity(c[0], c[1..]);
    }
  }

  /** What a scan ends with: the runs collected (before merging) or how it
      failed, and the style in force at the end. */
  datatype ScanResult = ScanResult(res: Outcome<seq<Run>>, state: AnsiState)

  /** The loop of `parse_ansi_text` from position `pos`, with style `st` and
      the runs `chain` collected so far. The text up to the next escape
      becomes a run (when not empty) in the current style; then the escape
      code is read. A code that fails ends the scan: with an error when
      input remains after the failure point, normally otherwise. */
  function Scan(st: AnsiState, s: seq<char>, pos: nat, chain: seq<Run>): (r: ScanResult)
    requires pos <= |s|
    ensures r.res.Ok? ==> chain <= r.res.value
    decreases |s| - pos
  {
    var e := StopAt(s, pos, Esc);
    var chain' := if pos < e then chain + [Run(st, s[pos..e])] else chain;
    var code := AnsiCode(st, s, Advance(s, e));
    match code.res
    case Ok(st') => Scan(st', s, code.next, chain')
    case Err => if code.next < |s| then ScanResult(Err, st) else ScanResult(Ok(chain'), st)
    case Unimplemented => ScanResult(Unimplemented, st)
  }

  /** Every run the scan adds has some text and no escape character. */
  lemma {:induction false} ScanWellFormed(st: AnsiState, s: seq<char>, pos: nat, chain: seq<Run>)
    requires pos <= |s| && WellFormed(chain)
    ensures Scan(st, s, pos, chain).res.Ok? ==> WellFormed(Scan(st, s, pos, chain).res.value)
    decreases |s| - pos
  {
    var e := StopAt(s, pos, Esc);
    var chain' := if pos < e then chain + [Run(st, s[pos..e])] else chain;
    assert WellFormed(chain') by {
      if pos < e {
        assert Esc !in s[pos..e] by {
          forall k | 0 <= k < e - pos ensures s[pos..e][k] != Esc {
            assert s[pos..e][k] == s[pos + k];
          }
        }
      }
    }
    var code := AnsiCode(st, s, Advance(s, e));
    if code.res.Ok? {
      ScanWellFormed(code.res.value, s, code.next, chain');
    }
  }

  /** Text without escape characters becomes one run in the current style,
      or none when it is empty. */
  lemma ScanPlainText(st: AnsiState, s: seq<char>, pos: nat, chain: seq<Run>)
    requires pos <= |s|
    requires forall k :: pos <= k < |s| ==> s[k] != Esc
    ensures Scan(st, s, pos, chain)
      == ScanResult(Ok(if pos < |s| then chain + [Run(st, s[pos..])] else chain), st)
  {
    StopAtUnique(s, pos, Esc, |s|);
    assert AnsiCode(st, s, Advance(s, |s|)) == Parsed(Err, |s|);
    assert s[pos..|s|] == s[pos..];
  }

  /** The first escape code fails, whatever the reason: the scan ends with
      an error when input remains after the point the failing code left the
      cursor at, and otherwise ends normally with the text before the escape
      as its only run. */
  lemma FailingEscape(st: AnsiState, t: string, u: string)
    requires Esc !in t
    requires AnsiCode(st, t + [Esc] + u, |t| + 1).res.Err?
    ensures var s := t + [Esc] + u;
      var n := AnsiCode(st, s, |t| + 1).next;
      Scan(st, s, 0, [])
        == if n < |s| then ScanResult(Err, st)
           else ScanResult(Ok(if t == [] then [] else [Run(st, t)]), st)
  {
    var s := t + [Esc] + u;
    assert forall k :: 0 <= k < |t| ==> s[k] == t[k];
    assert s[|t|] == Esc;
    StopAtUnique(s, 0, Esc, |t|);
    assert s[0..|t|] == t;
    assert [] + [Run(st, t)] == [Run(st, t)];
  }

  /** The first escape code reaches an unimplemented arm: the scan stops
      there, whatever follows. */
  lemma UnimplementedEscape(st: AnsiState, t: string, u: string)
    requires Esc !in t
    requires AnsiCode(st, t + [Esc] + u, |t| + 1).res.Unimplemented?
    ensures Scan(st, t + [Esc] + u, 0, []) == ScanResult(Unimplemented, st)
  {
    var s := t + [Esc] + u;
    assert forall k :: 0 <= k < |t| ==> s[k] == t[k];
    assert s[|t|] == Esc;
    StopAtUnique(s, 0, Esc, |t|);
  }

  /** A malformed escape with nothing after its failure point is tolerated:
      text, an escape and one character that is not `[` end normally. */
  lemma TrailingEscapeTolerated(st: AnsiState, t: string, c: char)
    requires t != [] && Esc !in t && c != '['
    ensures Scan(st, t + [Esc, c], 0, []) == ScanResult(Ok([Run(st, t)]), st)
  {
    assert t + [Esc] + [c] == t + [Esc, c];
    FailingEscape(st, t, [c]);
  }

  /** A malformed escape followed by more input is an error. */
  lemma MalformedEscapeFails(st: AnsiState, t: string, c: char, d: char)
    requires Esc !in t && c != '['
    ensures Scan(st, t + [Esc, c, d], 0, []).res == Err
  {
    assert t + [Esc] + [c, d] == t + [Esc, c, d];
    FailingEscape(st, t, [c, d]);
  }

  /** A truecolor code cut short by the end of the input is tolerated: the
      argument parser fails with the cursor at the end, and the text before
      the escape is kept. */
  lemma TruncatedColorTolerated()
    ensures Scan(Default, "A" + [Esc] + "[38;2;1", 0, []) == ScanResult(Ok([Run(Default, "A")]), Default)
  {
    var s := "A" + [Esc] + "[38;2;1";
    assert AnsiCode(Default, s, 2) == Parsed(Err, 9) by {
      TruncatedColorCode(s);
    }
    FailingEscape(Default, "A", "[38;2;1");
  }

  /** How `ESC [38;2;1` is read: code 38, then a truecolor field `1` that has
      one part only, with the cursor at the end of the input. */
  lemma TruncatedColorCode(s: string)
    requires s == "A" + [Esc] + "[38;2;1"
    ensures AnsiCode(Default, s, 2) == Parsed(Err, 9)
  {
    assert DigitRunEnd(s, 3) == 5 by {
      DigitRunEndUnique(s, 3, 5);
    }
    assert s[3..5] == "38";
    assert ParseNumber(Bytes("38")).0 == Ok(38);
    assert TruecolorArg(s, 8) == Parsed(Err, 9) by {
      StopAtUnique(s, 8, 'm', 9);
      assert TruecolorField(s, 8) == "1";
      SplitWithoutSeparator("1");
    }
    ColorArgTruecolor(s, 5);
    ColorCodeOutcome(Default, s, 2);
  }

  /** A code above 255 followed by more input makes the scan fail. */
  lemma CodeAbove255Fails()
    ensures Scan(Default, [Esc] + "[300x", 0, []).res == Err
  {
    var s := [Esc] + "[300x";
    assert AnsiCode(Default, s, 1) == Parsed(Err, 5) by {
      DigitRunEndUnique(s, 2, 5);
      assert s[2..5] == "300";
      assert Bytes("300") == [0x33, 0x30, 0x30];
      assert [0x33, 0x30, 0x30][..2] == [0x33, 0x30];
      assert [0x33, 0x30][..1] == [0x33];
      assert ParseNumber([0x33, 0x30]).0 == Ok(30);
    }
    assert [] + [Esc] + "[300x" == s;
    FailingEscape(Default, [], "[300x");
  }

  /** One step of `Scan`: the text up to the next escape, then the code after
      it, decide whether the scan goes on, fails or stops. */
  lemma ScanStep(st: AnsiState, s: seq<char>, pos: nat, chain: seq<Run>)
    requires pos <= |s|
    ensures var e := StopAt(s, pos, Esc);
      var chain' := if pos < e then chain + [Run(st, s[pos..e])] else chain;
      var code := AnsiCode(st, s, Advance(s, e));
      && (code.res.Ok? ==> pos < code.next <= |s| && Scan(st, s, pos, chain) == Scan(code.res.value, s, code.next, chain'))
      && (code.res.Err? ==> Scan(st, s, pos, chain) == ScanResult(if code.next < |s| then Err else Ok(chain'), st))
      && (code.res.Unimplemented? ==> Scan(st, s, pos, chain) == ScanResult(Unimplemented, st))
  {
  }

  /** `take_while(|&c| c != '\x1b')` from `pos`: the text up to the next
      escape, and the position of that escape (or the end of the input). The
      caller steps past the escape itself, as `take_while` consumes it. */
  method TakeText(s: seq<char>, pos: nat) returns (part: string, e: nat)
    requires pos <= |s|
    ensures e == StopAt(s, pos, Esc)
    ensures part == s[pos..e] && Esc !in part
  {
    e := pos;
    part := [];
    while e < |s| && s[e] != Esc
      invariant pos <= e <= |s|
      invariant part == s[pos..e]
      invariant forall k :: pos <= k < e ==> s[k] != Esc
    {
      part := part + [s[e]];
      e := e + 1;
    }
    StopAtUnique(s, pos, Esc, e);
    assert Esc !in part by {
      forall k | 0 <= k < |part| ensures part[k] != Esc {
        assert part[k] == s[pos + k];
      }
    }
  }

  /** The 'm' that ends a code without argument is not consumed: it becomes
      text. Bold set twice, each time by `ESC [ 1 m`, before `X` gives two
      bold runs "m" and "mX", which merge into one run "mmX". */
  lemma BoldTwiceMerges()
    ensures var s := [Esc, '[', '1', 'm', Esc, '[', '1', 'm', 'X'];
      var bold := Default.(intensity := Bold);
      && Scan(Default, s, 0, []) == ScanResult(Ok([Run(bold, "m"), Run(bold, "mX")]), bold)
      && Coalesce(Scan(Default, s, 0, []).res.value) == [Run(bold, "mmX")]
  {
    var bold := Default.(intensity := Bold);
    BoldTwiceScan([Esc, '[', '1', 'm', Esc, '[', '1', 'm', 'X']);
    var runs := [Run(bold, "m"), Run(bold, "mX")];
    assert runs[1..] == [Run(bold, "mX")] && [Run(bold, "mX")][1..] == [];
    assert "m" + "mX" == "mmX";
    assert Coalesce(runs) == CoalesceFrom(Run(bold, "mmX"), []);
  }

  /** The scan of `BoldTwiceMerges`, escape by escape. */
  lemma BoldTwiceScan(s: seq<char>)
    requires s == [Esc, '[', '1', 'm', Esc, '[', '1', 'm', 'X']
    ensures var bold := Default.(intensity := Bold);
      Scan(Default, s, 0, []) == ScanResult(Ok([Run(bold, "m"), Run(bold, "mX")]), bold)
  {
    BoldTwiceFirst(s);
    BoldTwiceSecond(s);
    BoldTwiceLast(s);
  }

  /** The first `ESC [1m` sets bold; no text precedes it. */
  lemma BoldTwiceFirst(s: seq<char>)
    requires s == [Esc, '[', '1', 'm', Esc, '[', '1', 'm', 'X']
    ensures Scan(Default, s, 0, []) == Scan(Default.(intensity := Bold), s, 3, [])
  {
    StopAtUnique(s, 0, Esc, 0);
    BoldCode(Default, s, 1);
    ScanStep(Default, s, 0, []);
  }

  /** The unread `m` becomes the run "m"; the second `ESC [1m` keeps bold. */
  lemma BoldTwiceSecond(s: seq<char>)
    requires s == [Esc, '[', '1', 'm', Esc, '[', '1', 'm', 'X']
    ensures var bold := Default.(intensity := Bold);
      Scan(bold, s, 3, []) == Scan(bold, s, 7, [Run(bold, "m")])
  {
    var bold := Default.(intensity := Bold);
    StopAtUnique(s, 3, Esc, 4);
    assert s[3..4] == "m";
    assert [] + [Run(bold, s[3..4])] == [Run(bold, "m")];
    BoldCode(bold, s, 5);
    ScanStep(bold, s, 3, []);
  }

  /** The text "mX" becomes the last run and the input ends. */
  lemma BoldTwiceLast(s: seq<char>)
    requires s == [Esc, '[', '1', 'm', Esc, '[', '1', 'm', 'X']
    ensures var bold := Default.(intensity := Bold);
      Scan(bold, s, 7, [Run(bold, "m")]) == ScanResult(Ok([Run(bold, "m"), Run(bold, "mX")]), bold)
  {
    var bold := Default.(intensity := Bold);
    StopAtUnique(s, 7, Esc, 9);
    assert s[7..9] == "mX";
    assert [Run(bold, "m")] + [Run(bold, s[7..9])] == [Run(bold, "m"), Run(bold, "mX")];
    ScanStep(bold, s, 7, [Run(bold, "m")]);
  }

  /** `[1m` at `pos` sets bold and leaves the cursor on the `m`. */
  lemma BoldCode(st: AnsiState, s: seq<char>, pos: nat)
    requires pos + 2 < |s| && s[pos] == '[' && s[pos + 1] == '1' && s[pos + 2] == 'm'
    ensures AnsiCode(st, s, pos) == Parsed(Ok(st.(intensity := Bold)), pos + 2)
  {
    DigitRunEndUnique(s, pos + 1, pos + 2);
    LeadingCode(st, s, pos);
    assert Bytes(s[pos + 1..pos + 2]) == [0x31];
    assert DecimalValue([0x31]) == 1 by {
      assert [0x31 as U8][..0] == [];
    }
  }

  /** The converter's state: the merged runs of the last successful call and
      the style in force, which carries over from one call to the next. */
  class Parser {
    var ansiChain: seq<Run>
    var current: AnsiState

    /** `Parser::default()`: no runs, default style. */
    constructor()
      ensures ansiChain == [] && current == Default
    {
      ansiChain := [];
      current := Default;
    }

    /** `parse_ansi_text` over the whole of `s`. On success the merged runs
        replace `ansiChain`; on failure `ansiChain` is left as it was. The
        style reached is kept in `current` either way. */
    method ParseAnsiText(s: seq<char>) returns (res: Outcome<()>)
      modifies this
      ensures var r := Scan(old(current), s, 0, []);
        && res == Status(r.res)
        && current == r.state
        && ansiChain == (if r.res.Ok? then Coalesce(r.res.value) else old(ansiChain))
      ensures res.Ok? ==> WellFormed(ansiChain) && NoAdjacentEqual(ansiChain)
    {
      ghost var target := Scan(current, s, 0, []);
      ScanWellFormed(current, s, 0, []);
      var chain: seq<Run> := [];
      var pos := 0;
      while true
        invariant pos <= |s|
        invariant target == Scan(current, s, pos, chain)
        invariant ansiChain == old(ansiChain)
        decreases |s| - pos
      {
        ScanStep(current, s, pos, chain);
        var part, e := TakeText(s, pos);
        if |part| > 0 {
          chain := chain + [Run(current, part)];
        }
        var r, st', next := ParseAnsiCode(current, s, Advance(s, e));
        current := st';
        if r.Ok? {
          pos := next;
        } else if r.Err? {
          if next < |s| {
            return Err;
          }
          break;
        } else {
          return Unimplemented;
        }
      }
      CoalesceWellFormed(chain);
      CoalesceNoAdjacentEqual(chain);
      ansiChain := Coalesce(chain);
      res := Ok(());
    }
  }
}
