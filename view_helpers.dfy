/**
 * The pure parts of the curses view (view_handler.h, view_handler.cpp): the
 * string replacement that escapes `%` in command output, the width of the
 * prompt column, and the check whether a field fits the terminal, with the
 * terminal size given as parameters.
 */
module ViewHelpers {
  import opened Wrappers

  // ---------------------------------------------------------------------------
  // std::string primitives

  /** `what` occurs in `s` starting at index `k`. */
  predicate OccursAt(s: string, what: string, k: nat)
  {
    k + |what| <= |s| && s[k..k + |what|] == what
  }

  /** `s.find(what, from)`: the first occurrence at or after `from`, `None` for
      `npos`. */
  function Find(s: string, what: string, from: nat): (r: Option<nat>)
    ensures r.Some? ==> from <= r.value && r.value + |what| <= |s|
    decreases |s| + 1 - from
  {
    if from + |what| > |s| then None
    else if s[from..from + |what|] == what then Some(from)
    else Find(s, what, from + 1)
  }

  /** `find` gives the first occurrence at or after `from`, and `npos` exactly
      when there is none. */
  lemma {:induction false} FindIsFirstOccurrence(s: string, what: string, from: nat)
    ensures var r := Find(s, what, from);
      && (r.Some? ==> OccursAt(s, what, r.value))
      && (r.Some? ==> forall k :: from <= k < r.value ==> !OccursAt(s, what, k))
      && (r.None? ==> forall k :: from <= k ==> !OccursAt(s, what, k))
    decreases |s| + 1 - from
  {
    if from + |what| <= |s| && s[from..from + |what|] != what {
      FindIsFirstOccurrence(s, what, from + 1);
    }
  }

  /** `r.replace(pos, count, repl)`: `count` is cut to what is left after `pos`;
      a `pos` past the end throws `std::out_of_range`, here `None`. */
  function StrReplace(r: string, pos: nat, count: nat, repl: string): (res: Option<string>)
    ensures res.None? <==> pos > |r|
    ensures res.Some? && pos + count <= |r| ==> res.value == r[..pos] + repl + r[pos + count..]
  {
    if pos > |r| then None
    else Some(r[..pos] + repl + r[pos + (if count <= |r| - pos then count else |r| - pos)..])
  }

  // ---------------------------------------------------------------------------
  // replace, as written

  /** The loop of `replace` from the state `(result, index)`: the next
      occurrence is looked for in the ORIGINAL `str`, but spliced into `result`
      at that index; `index` then moves past the inserted text. With an empty
      `repl` and an occurrence the loop never ends, hence the precondition. */
  function ReplaceLoop(str: string, what: string, repl: string, result: string, index: nat): (r: Option<string>)
    requires |repl| > 0 || Find(str, what, index).None?
    ensures r.Some? && |repl| >= |what| ==> |r.value| >= |result|
    decreases |str| + 1 - index
  {
    match Find(str, what, index)
    case None => Some(result)
    case Some(i) =>
      match StrReplace(result, i, |what|, repl)
      case None => None
      case Some(next) => ReplaceLoop(str, what, repl, next, i + |repl|)
  }

  /** `replace(str, what, repl)`: the `while (true)` loop of the source. The
      result is the loop's outcome from `(str, 0)`. */
  method Replace(str: string, what: string, repl: string) returns (res: Option<string>)
    requires |repl| > 0 || Find(str, what, 0).None?
    ensures res == ReplaceLoop(str, what, repl, str, 0)
  {
    var result := str;
    var index: nat := 0;
    while true
      invariant |repl| > 0 || index == 0
      invariant ReplaceLoop(str, what, repl, result, index) == ReplaceLoop(str, what, repl, str, 0)
      decreases |str| + 1 - index
    {
      var found := Find(str, what, index);
      if found.None? {
        return Some(result);
      }
      var i := found.value;
      var next := StrReplace(result, i, |what|, repl);
      if next.None? {
        return None;
      }
      result := next.value;
      index := i + |repl|;
    }
  }

  /** Without an occurrence of `what`, `replace` returns `str` unchanged. */
  lemma ReplaceWithoutOccurrence(str: string, what: string, repl: string)
    requires forall k :: !OccursAt(str, what, k)
    ensures Find(str, what, 0).None?
    ensures ReplaceLoop(str, what, repl, str, 0) == Some(str)
  {
    FindIsFirstOccurrence(str, what, 0);
  }

  /** With exactly one occurrence, at `i`, `replace` splices `repl` in there. */
  lemma {:induction false} ReplaceSingleOccurrence(str: string, what: string, repl: string, i: nat)
    requires |repl| > 0 && OccursAt(str, what, i)
    requires forall k :: OccursAt(str, what, k) ==> k == i
    ensures ReplaceLoop(str, what, repl, str, 0) == Some(str[..i] + repl + str[i + |what|..])
  {
    FindIsFirstOccurrence(str, what, 0);
    FindIsFirstOccurrence(str, what, i + |repl|);
    assert Find(str, what, 0) == Some(i);
    var next := str[..i] + repl + str[i + |what|..];
    assert StrReplace(str, i, |what|, repl) == Some(next);
    assert Find(str, what, i + |repl|).None?;
  }

  /** The escape of `updateCommandLine` as written turns "%%" into "%%%": the
      second `%` is found at index 1 of the original, after the loop has moved
      past index 2 of the result, so it is never doubled. */
  lemma EscapeTwoPercentsAsWritten()
    ensures ReplaceLoop("%%", "%", "%%", "%%", 0) == Some("%%%")
  {
    assert Find("%%", "%", 0) == Some(0);
    assert "%%"[..0] == "" && "%%"[1..] == "%";
    assert "" + "%%" + "%" == "%%%";
    assert StrReplace("%%", 0, 1, "%%") == Some("%%%");
    assert Find("%%", "%", 2) == None;
  }

  // ---------------------------------------------------------------------------
  // replace, as intended

  /** Every occurrence of `what` in `s`, left to right without overlap, replaced
      by `repl`. */
  function ReplaceAll(s: string, what: string, repl: string): (r: string)
    requires |what| > 0
    decreases |s|
  {
    if |s| < |what| then s
    else if s[..|what|] == what then repl + ReplaceAll(s[|what|..], what, repl)
    else [s[0]] + ReplaceAll(s[1..], what, repl)
  }

  /** The text the command line shows for `output`: every `%` doubled, so that
      the curses `printw` format prints it literally. */
  function CommandLineText(output: string): (r: string)
  {
    ReplaceAll(output, "%", "%%")
  }

  /** What `printw` makes of a format string without conversions: `%%` prints
      one `%`. */
  function Unescape(t: string): (r: string)
    decreases |t|
  {
    if |t| >= 2 && t[0] == '%' && t[1] == '%' then "%" + Unescape(t[2..])
    else if |t| > 0 then [t[0]] + Unescape(t[1..])
    else ""
  }

  /** The intended escape round-trips: the command line prints exactly the
      command's output. */
  lemma {:induction false} UnescapeCommandLineText(s: string)
    ensures Unescape(CommandLineText(s)) == s
    decreases |s|
  {
    if |s| >= 1 {
      UnescapeCommandLineText(s[1..]);
      if s[..1] == "%" {
        assert s[0] == '%';
        var t := CommandLineText(s);
        assert t == "%%" + CommandLineText(s[1..]);
        assert t[2..] == CommandLineText(s[1..]);
        assert Unescape(t) == "%" + s[1..];
      } else {
        var t := CommandLineText(s);
        assert t == [s[0]] + CommandLineText(s[1..]);
        assert t[1..] == CommandLineText(s[1..]);
        assert Unescape(t) == [s[0]] + s[1..];
      }
      assert s == [s[0]] + s[1..];
    }
  }

  /** On the failing input the intended escape gives "%%%%". */
  lemma EscapeTwoPercents()
    ensures CommandLineText("%%") == "%%%%"
  {
    assert CommandLineText("%") == "%%";
    assert "%%"[1..] == "%";
  }

  // ---------------------------------------------------------------------------
  // The prompt column

  /** The hot-key prompts drawn beside the field. */
  const PROMPTS: seq<string> := ["Q Exit", "N Next turn", "B Step Back", "R Reset", "C Command mode"]

  /** The length of the longest of `prompts`, 0 for none. */
  function LongestPrompt(prompts: seq<string>): (n: nat)
    ensures forall k :: 0 <= k < |prompts| ==> |prompts[k]| <= n
    ensures |prompts| > 0 ==> exists k :: 0 <= k < |prompts| && |prompts[k]| == n
    ensures |prompts| == 0 ==> n == 0
  {
    if |prompts| == 0 then 0
    else
      var rest := LongestPrompt(prompts[..|prompts| - 1]);
      var last := |prompts[|prompts| - 1]|;
      if last > rest then last else rest
  }

  /** `getMaxPromptWidth()`: the longest prompt plus the two spaces framing its
      hot key. */
  method MaxPromptWidth() returns (width: nat)
    ensures width == LongestPrompt(PROMPTS) + 2
    ensures forall k :: 0 <= k < |PROMPTS| ==> |PROMPTS[k]| + 2 <= width
    ensures exists k :: 0 <= k < |PROMPTS| && |PROMPTS[k]| + 2 == width
  {
    var max: nat := 0;
    for i := 0 to |PROMPTS|
      invariant max == LongestPrompt(PROMPTS[..i])
    {
      assert PROMPTS[..i + 1][..i] == PROMPTS[..i];
      if |PROMPTS[i]| > max {
        max := |PROMPTS[i]|;
      }
    }
    assert PROMPTS[..|PROMPTS|] == PROMPTS;
    width := max + 2;
  }

  /** "C Command mode" is the longest prompt, so the column is 16 wide. */
  lemma PromptColumnWidth()
    ensures LongestPrompt(PROMPTS) + 2 == 16
  {
    assert |PROMPTS[4]| == 14;
    assert forall k :: 0 <= k < 4 ==> |PROMPTS[k]| < 14;
    var n := LongestPrompt(PROMPTS);
    assert |PROMPTS[4]| <= n;
  }

  // ---------------------------------------------------------------------------
  // Whether a field fits the terminal

  /** `canCrateFieldWithSizes(fieldWidth, fieldHeight)` on a terminal of
      `maxWidth x maxHeight`: no zero dimension; the field, the prompt column
      and the two border columns side by side; the taller of the field and the
      prompts with the step counter line and its spacer, plus two lines for the
      command line and two for the border, one above the other. */
  function CanCreateFieldWithSizes(fieldWidth: nat, fieldHeight: nat, maxWidth: nat, maxHeight: nat): (r: bool)
    ensures r ==> 0 < fieldWidth && fieldWidth + 4 <= maxWidth && 0 < fieldHeight && fieldHeight + 4 <= maxHeight
  {
    if fieldWidth == 0 || fieldHeight == 0 then false
    else
      var width := fieldWidth + LongestPrompt(PROMPTS) + 2;
      var promptsHeight := |PROMPTS| + 2;
      var height := if fieldHeight > promptsHeight then fieldHeight else promptsHeight;
      var height := height + 2 + 2;
      var width := width + 2;
      maxWidth >= width && maxHeight >= height
  }

  /** The check in numbers: no zero dimension, 18 more columns than the field,
      and 4 more lines than the field or than the 7 lines of the prompt column,
      whichever is taller. */
  lemma {:induction false} CanCreateFieldWithSizesIff(fieldWidth: nat, fieldHeight: nat, maxWidth: nat, maxHeight: nat)
    ensures CanCreateFieldWithSizes(fieldWidth, fieldHeight, maxWidth, maxHeight) <==>
      && fieldWidth > 0 && fieldHeight > 0
      && maxWidth >= fieldWidth + 18
      && maxHeight >= (if fieldHeight > 7 then fieldHeight else 7) + 4
  {
    PromptColumnWidth();
  }

  /** For a fixed terminal, a field that fits still fits with fewer columns or
      lines, as long as neither becomes zero. */
  lemma {:induction false} CanCreateFieldWithSizesMonotone(w: nat, h: nat, w2: nat, h2: nat, maxWidth: nat, maxHeight: nat)
    requires CanCreateFieldWithSizes(w, h, maxWidth, maxHeight)
    requires 0 < w2 <= w && 0 < h2 <= h
    ensures CanCreateFieldWithSizes(w2, h2, maxWidth, maxHeight)
  {
    CanCreateFieldWithSizesIff(w, h, maxWidth, maxHeight);
    CanCreateFieldWithSizesIff(w2, h2, maxWidth, maxHeight);
  }
}
