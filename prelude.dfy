/** Vocabulary shared by the parsers: unsigned bytes, the outcomes a parsing
    step can have, and the two primitive moves on a character cursor. */
module Prelude {

  /** An unsigned 8-bit value (`u8`). */
  type U8 = b: int | 0 <= b < 256

  /** What a parsing step produces. Every failure in the parsers is the same
      unit error `Err(())`, so `Err` carries nothing. `Unimplemented` stands
      for an arm that reaches `todo!()`: a panic, not an error value. */
  datatype Outcome<+T> = Ok(value: T) | Err | Unimplemented

  /** An optional value. (`None` is taken by the unset colour.) */
  datatype Option<+T> = Nothing | Some(value: T)

  /** A step's outcome together with the cursor position it leaves behind.
      The position matters even on failure: the caller looks at what is left. */
  datatype Parsed<+T> = Parsed(res: Outcome<T>, next: nat)

  /** The outcome with its value dropped, as `Result<(), ()>` reports it. */
  function Status<T>(o: Outcome<T>): (r: Outcome<()>)
    ensures r.Ok? == o.Ok? && r.Err? == o.Err?
  {
    match o
    case Ok(_) => Ok(())
    case Err => Err
    case Unimplemented => Unimplemented
  }

  /** The cast `c as u8`: keeps the low eight bits of the code point, so a
      non-ASCII character can read as an ASCII byte. */
  function ByteOf(c: char): (b: U8)
    ensures (c as int) < 256 ==> b == c as int
    ensures ((c as int) - b) % 256 == 0
  {
    (c as int) % 256
  }

  /** `map(|p| p as u8)` over a run of characters. */
  function Bytes(s: seq<char>): (bs: seq<U8>)
    ensures |bs| == |s|
    ensures forall i :: 0 <= i < |s| ==> bs[i] == ByteOf(s[i])
  {
    seq(|s|, i requires 0 <= i < |s| => ByteOf(s[i]))
  }

  /** The position after `Iterator::next`: one step on, unless the input is
      already exhausted, in which case `next` yields `None` and stays put. */
  function Advance(s: seq<char>, pos: nat): (p: nat)
    requires pos <= |s|
    ensures p <= |s|
    ensures pos < |s| ==> p == pos + 1
    ensures pos == |s| ==> p == pos
  {
    if pos < |s| then pos + 1 else pos
  }

  /** The index of the first `stop` at or after `from`, or `|s|` when there is
      none: where a `take_while(|&c| c != stop)` over the cursor ends. */
  function StopAt(s: seq<char>, from: nat, stop: char): (e: nat)
    requires from <= |s|
    ensures from <= e <= |s|
    ensures e < |s| ==> s[e] == stop
    ensures forall k :: from <= k < e ==> s[k] != stop
    decreases |s| - from
  {
    if from == |s| || s[from] == stop then from else StopAt(s, from + 1, stop)
  }

  /** Two positions with the properties `StopAt` promises are the same. */
  lemma StopAtUnique(s: seq<char>, from: nat, stop: char, e: nat)
    requires from <= e <= |s|
    requires e < |s| ==> s[e] == stop
    requires forall k :: from <= k < e ==> s[k] != stop
    ensures StopAt(s, from, stop) == e
  {
  }

  /** When no `stop` occurs in `from..k`, the first `stop` is at `k` or later. */
  lemma {:induction false} StopAtAtLeast(s: seq<char>, from: nat, stop: char, k: nat)
    requires from <= k <= |s|
    requires forall j :: from <= j < k ==> s[j] != stop
    ensures k <= StopAt(s, from, stop)
    decreases k - from
  {
    if from < k {
      StopAtAtLeast(s, from + 1, stop, k);
    }
  }
}
