# anstml core, modelled in Dafny

anstml turns terminal text carrying ANSI SGR escape sequences (`ESC [ n m`,
`ESC [ 38;2;r;g;b m`, …) into styled runs that are later rendered as HTML.
This project models the part of anstml that reads that text:

- **Number scanning** (`parse_number`). A left fold over bytes builds a value
  of at most 255 and counts every byte it sees. The first non-digit, or a
  step past 255, turns the value into an error that then sticks.
- **Colour arguments** (`parse_color_code`). After `38`, `48` or `58` comes a
  prefix `;5;` or `;2;`. With `;5;`, a palette index follows, read up to the
  `m`. With `;2;`, three `;`-separated components follow, read from at most
  eleven characters before the `m`.
- **The style state** (`AnsiState` and its `Default`). Applying one SGR code
  (`parse_ansi_code`) either changes one attribute, resets the state, fails,
  or reaches an unimplemented arm.
- **The parser** (`Parser::parse_ansi_text`). It splits the input at each
  ESC into literal text and escape codes. It records each non-empty text
  together with the state in force. Finally it merges neighbouring runs that
  carry the same state.
- **Colour text** (`Display for Color`). An unset colour (`None`) prints as
  the empty string, named hues print as CSS keywords, and palette and
  truecolor colours print as `#RRGGBB`.

Modules follow the source files. `Prelude` holds the shared vocabulary:
`U8`, an `Outcome` that is `Ok`, `Err` or `Unimplemented`, and the cursor
moves `Advance` and `StopAt`. `Colors` models `src/color.rs`, `SubParsers`
models `src/sub_parsers.rs`, `State` models `src/state.rs`, and `Lib` models
`src/lib.rs`.

The character iterator is a sequence with a position. Each parsing step
returns its outcome together with the position it leaves the cursor at.
- Code that loops is a `method`. It is proved equal to a specification
  function: `ParseColorCode` equals `ColorArg`, `ParseAnsiCode` equals
  `AnsiCode`, and `Parser.ParseAnsiText` equals `Scan` followed by
  `Coalesce`.
- The properties are lemmas about those functions.
- `Parser` is a class whose two fields the method updates.
- `AnsiState` is a value. `ParseAnsiCode` takes the state and returns the
  new one, which is exactly what the `&mut self` receiver observes.

Code `0` keeps the underline colour and the spacing (`ResetLaw`). The test
at src/state.rs:423-428 reaches the default state only because those two are
still at their defaults there, and so do the `ESC[0m` steps of
src/lib.rs:111-112.

Where the code and the expectations written in its tests disagree, the
model follows the code:

- After a code that takes no argument, the terminating `m` is not consumed.
  `take_while_ref` stops in front of it, so the `m` becomes the first
  character of the next text run (`BoldTwiceMerges`). The test
  `parse_text_with_ansi` (src/lib.rs:107-171) expects the runs without that
  `m`, for example `piece of text…` after `ESC[32m`.

## Model

| member | source | states |
|---|---|---|
| Prelude.ByteOf | src/state.rs:132 | the cast `c as u8` keeps the low eight bits: the byte agrees with the code point modulo 256, and equals it below 256 (also at src/sub_parsers.rs:27 and src/sub_parsers.rs:48) |
| Prelude.Advance | src/state.rs:126 | `Iterator::next` moves the cursor one step, and does not move it at the end of the input |
| Prelude.StopAt | src/lib.rs:38 | where `take_while` with the test `c != stop` stops: the first `stop` at or after the cursor, or the end of the input; callers add `Advance` to consume the stopping character (also at src/sub_parsers.rs:27 and src/sub_parsers.rs:38) |
| SubParsers.ParseNumber | src/sub_parsers.rs:3-14 | the fold counts every byte it is given, digits or not, and never panics |
| SubParsers.ParseNumberMeaning | src/sub_parsers.rs:3-14 | the fold yields `Ok` exactly when every byte is an ASCII digit and the decimal value is at most 255, and then the value is that decimal value |
| SubParsers.ParseNumberErrorSticks | src/sub_parsers.rs:9-12 | once the fold has failed on a prefix, it fails on every extension of that prefix |
| SubParsers.LeadingZerosAccepted | src/sub_parsers.rs:6-7 | leading zeros are digits like any other: `0255` gives 255 with a length of 4 |
| SubParsers.DecimalParses | src/sub_parsers.rs:3-14 | the decimal text of every byte value has at most three digits and parses back to that value with its own length |
| SubParsers.ColorArg | src/sub_parsers.rs:16-59 | the specification of a colour argument: the cursor only moves forward and stays inside the input |
| SubParsers.ParseColorCode | src/sub_parsers.rs:16-59 | the imperative parser returns the outcome and cursor position `ColorArg` specifies |
| SubParsers.PaletteArg | src/sub_parsers.rs:26-35 | the specification of the palette form: the cursor stays between the start of the index and the end of the input |
| SubParsers.TruecolorArg | src/sub_parsers.rs:37-55 | the specification of the truecolor form: the cursor moves at most eleven characters past `;2;` |
| SubParsers.TruecolorField | src/sub_parsers.rs:38 | the collected field has at most eleven characters and no `m` |
| SubParsers.Split | src/sub_parsers.rs:40 | splitting always yields at least one part, even for an empty field |
| SubParsers.Component | src/sub_parsers.rs:45-54 | a component never panics, and a component longer than three characters is refused |
| SubParsers.ParsePalette | src/sub_parsers.rs:26-35 | the palette loop returns what `PaletteArg` specifies |
| SubParsers.ParseTruecolor | src/sub_parsers.rs:37-55 | the lookahead loop and the split return what `TruecolorArg` specifies |
| SubParsers.SplitOnSemicolons | src/sub_parsers.rs:40 | the splitting loop yields the parts `Split` specifies |
| SubParsers.ColorArgNeedsPrefix | src/sub_parsers.rs:18-25 | only input that starts with `;`, then `5` or `2`, then `;` can avoid `Err`; after that prefix, `5` selects the palette form and `2` the truecolor form |
| SubParsers.TruecolorRoundTrip | src/sub_parsers.rs:84-87 | for any bytes r, g, b and any surrounding text, `;2;r;g;bm` parses to `Full(r, g, b)`; the cursor ends after the `m`, or on it when the field is exactly eleven characters |
| SubParsers.TruecolorOutcome | src/sub_parsers.rs:38-55 | a truecolor argument succeeds exactly when the field splits into three valid components, its colour is their three values, and it never panics |
| SubParsers.TruecolorLookahead | src/sub_parsers.rs:38 | the cursor stops eleven characters in, or just past the `m`, or at the end of the input |
| SubParsers.PaletteOutcome | src/sub_parsers.rs:26-35 | a palette index longer than three characters, not all digits, or above 255 fails; index 0 is the first named hue; any other index reaches the unimplemented arm; the `m` is consumed |
| SubParsers.ComponentMeaning | src/sub_parsers.rs:45-54 | a component is `Ok` exactly when it has at most three digits and a value of at most 255, and then it is that value; it never panics |
| SubParsers.SplitJoinRoundTrip | src/sub_parsers.rs:40 | joining the parts with `;` gives back the field |
| SubParsers.SplitParts | src/sub_parsers.rs:40 | no part contains `;`, and there is one part more than there are separators |
| SubParsers.EmptyComponentsAreZero | src/sub_parsers.rs:45-55 | empty components count as zero: `;2;;;m` is `Full(0, 0, 0)` |
| SubParsers.WrongSelectorFails | src/sub_parsers.rs:90 | `;3;0;0;0m` fails |
| SubParsers.TruecolorOutOfRangeFails | src/sub_parsers.rs:91 | `;2;256;0;0m` fails |
| SubParsers.FourDigitComponentFails | src/sub_parsers.rs:92 | `;2;000;0000;128m` fails |
| SubParsers.TruncatedFieldFails | src/sub_parsers.rs:93 | `;2;0255;0128;0001m` fails |
| SubParsers.TruecolorFourPartsFails | src/sub_parsers.rs:94 | `;2;1;128;1;100m` fails |
| SubParsers.TruecolorTwoPartsFails | src/sub_parsers.rs:95 | `;2;011;300m` fails |
| SubParsers.PaletteTooLongFails | src/sub_parsers.rs:96 | `;5;0112m` fails |
| SubParsers.PaletteNonDigitFails | src/sub_parsers.rs:97 | `;5;1;1m` fails |
| Colors.Render | src/color.rs:20-39 | palette and truecolor colours print as `#` and six characters; the named hues print as non-empty lower-case words |
| Colors.HexTriplet | src/color.rs:26-28 | `#{:02X}{:02X}{:02X}` is `#` and six upper-case hex digits |
| Colors.RenderEmptyIffNone | src/color.rs:20-39 | a colour prints as the empty string exactly when it is unset |
| Colors.FullRendersAsHex | src/color.rs:28 | a truecolor prints as `#` and six upper-case hex digits, and each pair decodes back to its component |
| Colors.ByteRendersAsItsPaletteEntry | src/color.rs:24-27 | a palette colour prints exactly as the truecolor its table entry names |
| Colors.NamedRenderAsDistinctKeywords | src/color.rs:29-36 | the eight named hues print as non-empty lower-case words, pairwise distinct |
| Colors.NamedKeywords | src/color.rs:29-36 | the hue with ordinal i prints as the i-th of `black`, `red`, `green`, `yellow`, `blue`, `magenta`, `cyan`, `white` |
| State.DefaultIsAllOff | src/state.rs:78-93 | the default state has every attribute off: code 0 and every code that switches one attribute off (22-27, 29, 39, 49, 59) leave it unchanged |
| State.Reset | src/state.rs:136-145 | code 0 gives the default state, except that the underline colour and the spacing are kept |
| State.Effect | src/state.rs:146-202 | the table of single-attribute codes: a code has an entry exactly when it sets one attribute, and no entry belongs to code 0, a colour code or a `todo!()` code |
| State.ApplySimple | src/state.rs:136-203 | a code without argument succeeds exactly when it is 0 or has a table entry, and panics exactly for the `todo!()` codes |
| State.ColorAttr | src/state.rs:174-192 | codes 38, 48 and 58 name the text, background and underline colour attribute, carrying the parsed colour |
| State.ColorAttrWrites | src/state.rs:174-192 | code 38 writes the parsed colour to the text colour, 48 to the background colour and 58 to the underline colour, leaving every other field alone |
| State.Set | src/state.rs:146-202 | setting an attribute makes the state hold exactly that attribute value |
| State.SlotsCoverState | src/state.rs:64-76 | two states that agree on all ten attributes are equal |
| State.SetFrame | src/state.rs:146-202 | setting one attribute changes that attribute and leaves the other nine alone |
| State.AnsiCode | src/state.rs:122-206 | the specification of one escape code: the cursor only moves forward, and any success consumes at least the `[` |
| State.ParseAnsiCode | src/state.rs:122-206 | the imperative parser returns the status, new state and cursor position that `AnsiCode` specifies, and on failure leaves the state unchanged |
| State.ApplyCode | src/state.rs:136-203 | the match over the code agrees with `ApplySimple`, and on anything but success leaves the state unchanged |
| State.ApplyStyleCode | src/state.rs:146-165 | the arms for codes 1-29 agree with `ApplySimple`; a todo arm leaves the state unchanged |
| State.ApplyTextColorCode | src/state.rs:166-175 | the arms for codes 30-37 and 39 agree with `ApplySimple` |
| State.ApplyBackgroundCode | src/state.rs:176-185 | the arms for codes 40-47 and 49 agree with `ApplySimple` |
| State.ApplyHighCode | src/state.rs:186-203 | the arms from code 50 on, and the catch-all error, agree with `ApplySimple`, and anything but success leaves the state unchanged |
| State.SimpleCodeClassification | src/state.rs:136-203 | codes other than 38, 48 and 58 succeed exactly when they are 0 or change a single attribute; they fail exactly for 56, 57, 66-72 and 76 upwards; they reach `todo!()` exactly for 8, 10-20, 28, 51-55, 60-65 and 73-75 |
| State.SingleAttributeFrame | src/state.rs:146-193 | a single-attribute code sets its attribute to the value the code table gives and changes nothing else |
| State.ResetLaw | src/state.rs:78-93 | code 0 gives the default state with the old underline colour and spacing kept, so it equals the default exactly when those two were already at their defaults |
| State.SimpleCodeIdempotent | src/state.rs:136-203 | applying the same successful code twice is the same as applying it once |
| State.NamedColorCodes | src/state.rs:166-183 | codes 30+i and 40+i set the text and background colour to the named hue with ordinal i |
| State.NamedColorKeywords | src/state.rs:166-183 | after code 30+i the text colour, and after 40+i the background colour, prints as the i-th CSS keyword (`black` for 30 and 40, …, `white` for 37 and 47), whatever the palette |
| State.AnsiCodeNeedsBracket | src/state.rs:126-128 | without a leading `[` the code fails, and the cursor is one past the character it read, or stays put at the end of the input |
| State.DigitRunEnd | src/state.rs:131 | where `take_while_ref(is_ascii_digit)` stops: every character before it is a digit and the character there, if any, is not; that character is left unread |
| State.DigitRunIsDigits | src/state.rs:129-133 | the run the code is read from consists of ASCII digits only |
| State.LeadingCode | src/state.rs:129-135 | a digit run above 255 fails with the cursor after the digits; a simple code applies with the cursor after the digits, leaving the `m` unread; an empty run counts as code 0 |
| State.ColorCodeApplied | src/state.rs:174-192 | a colour code sets the attribute it names to the colour the argument parser returns, and the cursor ends where that parser ends |
| State.ColorCodeOutcome | src/state.rs:174-192 | after `[38`, `[48` or `[58`, whatever the colour argument parser returns is passed on with its cursor: a colour sets the code's attribute, an error stays an error through `?`, and an unimplemented form stays unimplemented |
| State.TruecolorCode | src/state.rs:174-192 | `[38;2;r;g;bm`, `[48;…` and `[58;…` set the text, background or underline colour to `Full(r, g, b)` and consume it up to the `m`, which is left unread when the field is eleven characters |
| Lib.Parser.constructor | src/lib.rs:21-28 | a new parser has an empty chain and the default state |
| Lib.TakeText | src/lib.rs:38 | the text taken is everything up to the next ESC, and it contains no ESC |
| Lib.Scan | src/lib.rs:35-56 | the specification of the scan loop: a successful scan only appends to the chain it was given |
| Lib.Parser.ParseAnsiText | src/lib.rs:31-69 | the loop returns the status of `Scan`; the current state becomes the state `Scan` reaches; on success the chain becomes the coalesced runs, with no empty text, no ESC and no two neighbours sharing a state; on failure the chain is left as it was |
| Lib.FailingEscape | src/lib.rs:44-54 | when the first escape code fails, for any reason, the scan fails if input remains after the failure point and otherwise ends normally with the text before the escape as its only run |
| Lib.UnimplementedEscape | src/lib.rs:44 | when the first escape code reaches a `todo!()` arm, the scan stops there whatever follows |
| Lib.TruncatedColorTolerated | src/lib.rs:48-53 | `A ESC[38;2;1`, a truecolor code cut short by the end of the input, ends normally with the run `A` |
| Lib.CodeAbove255Fails | src/lib.rs:48-51 | `ESC[300x`, a code above 255 followed by more input, makes the scan fail |
| Lib.ScanWellFormed | src/lib.rs:38-41 | every recorded run has non-empty text without ESC |
| Lib.ScanPlainText | src/lib.rs:38-41 | text without ESC becomes a single run in the current state, or no run at all when empty |
| Lib.TrailingEscapeTolerated | src/lib.rs:48-53 | the missing-`[` instance of `FailingEscape` at the end of the input: `t ESC c` with `c` not `[` ends normally with the single run `t` |
| Lib.MalformedEscapeFails | src/lib.rs:48-51 | the missing-`[` instance of `FailingEscape` with input left: `t ESC c d` with `c` not `[` makes the whole scan fail |
| Lib.CoalesceFrom | src/lib.rs:58-67 | merging from a pending run keeps that run's state first and yields at most one run more than follow it |
| Lib.Coalesce | src/lib.rs:58-67 | merging never adds runs, yields nothing only from nothing, and keeps the first run's state first |
| Lib.States | src/lib.rs:19 | the states of the runs, one per run, in order |
| Lib.Collapse | src/lib.rs:60-65 | collapsing repeated neighbours never lengthens a sequence and keeps its first element |
| Lib.CoalesceNoAdjacentEqual | src/lib.rs:57-67 | after merging, no two neighbouring runs carry the same state |
| Lib.CoalesceTexts | src/lib.rs:57-67 | merging keeps the concatenated text unchanged |
| Lib.CoalesceStates | src/lib.rs:57-67 | the merged states are the run states with repeated neighbours collapsed |
| Lib.CoalesceWellFormed | src/lib.rs:57-67 | merging keeps every run non-empty and free of ESC |
| Lib.CoalesceIdempotent | src/lib.rs:57-67 | merging leaves a chain without equal neighbours unchanged, so merging twice is merging once |
| Lib.BoldTwiceMerges | src/lib.rs:36-67 | `ESC[1mESC[1mX` scans to runs `m` and `mX`, both bold, which merge into one bold run `mmX` |

## Left out

- Reading standard input and writing standard output (`src/bin/anstml.rs`) are I/O and are not modelled.
- `Formatter::format_chain`, `convert`, `to_style` and the `html` crate turn runs into markup. They are outside the modelled core.
- The debug `println!` after each successful code is output only and is not modelled.
- `rgb_from_ansi256` belongs to the `ansi_colours` crate. It is the `palette` parameter of `Colors.Render`, and its table is not modelled.
- The typed `AnsiError` values of `src/error.rs` are not modelled. Every failure is the single `Err`, which matches the `Result<(), ()>` that `parse_ansi_code` returns.
- `todo!()` arms panic. The model makes them an `Unimplemented` outcome, which stops the scan and leaves the chain untouched.
- SubParsers.ParseNumber: the `u32` length counter is an unbounded `nat`, so its wrap-around after 2^32 bytes is not modelled.
- The colour type appears twice in the source, with hues `Zero..Seven` in `src/state.rs` and `Black..White` in `src/color.rs`. The model has one `Color`, in which hue i of one list is hue i of the other.
- `AnsiState::new` only builds a state from its arguments in a permuted order, and it is not modelled.
- The `Italics`, `InvertColors` and `StrikeThrough` enums (`Yes`/`No`) are booleans in the model.
- `AnsiState` is passed and returned as a value instead of being mutated through `&mut self`. Nothing else holds a reference to it, so no aliasing is lost.
- The expectations of the `src/lib.rs` tests, which show the runs without the `m` that follows a simple code, are not asserted. The code as written keeps that `m` (`Lib.BoldTwiceMerges`).
