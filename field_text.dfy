/**
 * The text form of a field (game_field.h: the parsing constructor and
 * `operator<<`). `#` is a live cell, `.` a dead one, `\n` ends a line; spaces and
 * carriage returns are skipped. Line `x` of the text holds column `x` of the
 * field, so a `w x h` field is written as `w` lines of `h` characters with no
 * newline after the last line. The empty text is the 0 x 0 field.
 */
module FieldText {
  import opened Wrappers
  import opened Field

  /** Why a text was refused. */
  datatype Reason = UnknownSymbol(symbol: char) | RowSizeMismatch(expected: nat, found: nat)

  /** `BadGameFieldException(line, pos, reason)`. */
  datatype BadGameField = BadGameField(line: nat, pos: nat, reason: Reason)

  predicate IsCellChar(c: char) { c == '#' || c == '.' }

  predicate IsSkipped(c: char) { c == ' ' || c == '\r' }

  /** Characters a line may hold. */
  predicate LineChar(c: char) { IsCellChar(c) || IsSkipped(c) }

  /** Characters a text may hold. */
  predicate TextChar(c: char) { LineChar(c) || c == '\n' }

  predicate AllLineChars(line: string) { forall i :: 0 <= i < |line| ==> LineChar(line[i]) }

  /** The number of cells a line describes. */
  function CellCount(line: string): (r: nat)
  {
    if line == [] then 0 else (if IsCellChar(line[0]) then 1 else 0) + CellCount(line[1..])
  }

  // ---------------------------------------------------------------- lines

  /** The pieces of `s` between newlines (always at least one). */
  function SplitLines(s: string): (r: seq<string>)
    ensures |r| >= 1
    ensures forall i :: 0 <= i < |r| ==> '\n' !in r[i]
  {
    if s == [] then [""]
    else
      var rest := SplitLines(s[1..]);
      if s[0] == '\n' then [""] + rest else [[s[0]] + rest[0]] + rest[1..]
  }

  /** The lines joined with a newline between neighbours. */
  function JoinLines(ls: seq<string>): (r: string)
    ensures forall c :: c in r ==> c == '\n' || exists k :: 0 <= k < |ls| && c in ls[k]
  {
    if |ls| == 0 then "" else if |ls| == 1 then ls[0] else ls[0] + "\n" + JoinLines(ls[1..])
  }

  /** The lines of a text: a final empty piece (after a trailing newline, or of
      the empty text) is not a line. */
  function Lines(s: string): (r: seq<string>)
    ensures forall i :: 0 <= i < |r| ==> '\n' !in r[i]
  {
    var ls := SplitLines(s);
    if ls[|ls| - 1] == "" then ls[..|ls| - 1] else ls
  }

  // ---------------------------------------------------------------- parsing

  /** The cells of one line; `col` is the position in the line of `line[0]`. */
  function ParseRow(line: string, lineNo: nat, col: nat): (r: Result<seq<bool>, BadGameField>)
    ensures r.Success? ==> |r.value| == CellCount(line)
    ensures r.Failure? ==> r.error.line == lineNo && col <= r.error.pos < col + |line|
    ensures r.Failure? ==> r.error.reason == UnknownSymbol(line[r.error.pos - col]) && !LineChar(line[r.error.pos - col])
  {
    if line == [] then Success([])
    else if IsSkipped(line[0]) then ParseRow(line[1..], lineNo, col + 1)
    else if IsCellChar(line[0]) then
      match ParseRow(line[1..], lineNo, col + 1)
      case Success(rest) => Success([line[0] == '#'] + rest)
      case Failure(e) => Failure(e)
    else Failure(BadGameField(lineNo, col, UnknownSymbol(line[0])))
  }

  /** The columns of a field, one per line, each as long as the first. */
  function ParseRows(lines: seq<string>, lineNo: nat, expected: Option<nat>): (r: Result<Matrix, BadGameField>)
    ensures r.Failure? ==> lineNo <= r.error.line < lineNo + |lines|
    ensures r.Failure? && r.error.reason.UnknownSymbol? ==>
      !LineChar(r.error.reason.symbol) && r.error.reason.symbol in lines[r.error.line - lineNo]
    ensures r.Failure? && r.error.reason.RowSizeMismatch? ==>
      r.error.reason.expected != r.error.reason.found && r.error.pos == r.error.reason.found
  {
    if lines == [] then Success([])
    else
      match ParseRow(lines[0], lineNo, 0)
      case Failure(e) => Failure(e)
      case Success(row) =>
        if expected.Some? && |row| != expected.value then
          Failure(BadGameField(lineNo, |row|, RowSizeMismatch(expected.value, |row|)))
        else
          match ParseRows(lines[1..], lineNo + 1, Some(|row|))
          case Success(rest) => Success([row] + rest)
          case Failure(e) => Failure(e)
  }

  /** `GameField(const std::string str)`: the cells the text describes, or the
      exception it throws. */
  function Parse(s: string): (r: Result<Matrix, BadGameField>)
    ensures r.Failure? ==> r.error.line < |Lines(s)|
    ensures r.Failure? && r.error.reason.UnknownSymbol? ==> !TextChar(r.error.reason.symbol)
  {
    ParseRows(Lines(s), 0, None)
  }

  /** The height of a parsed field: the length of its first column. */
  function HeightOf(m: Matrix): (r: nat)
  {
    if m == [] then 0 else |m[0]|
  }

  // ---------------------------------------------------------------- printing

  function RowText(column: seq<bool>): (t: string)
    ensures |t| == |column|
    ensures forall c :: c in t ==> IsCellChar(c)
  {
    seq(|column|, j requires 0 <= j < |column| => if column[j] then '#' else '.')
  }

  /** `operator<<`: one line per column, no trailing newline. */
  function Serialize(m: Matrix): (r: string)
    ensures forall c :: c in r ==> IsCellChar(c) || c == '\n'
  {
    JoinLines(seq(|m|, i requires 0 <= i < |m| => RowText(m[i])))
  }

  /** A text as the printer writes it: empty, or non-empty lines of `#` and `.`
      of equal length separated by single newlines. */
  predicate Canonical(s: string)
  {
    var ls := SplitLines(s);
    s == "" ||
    ((forall i :: 0 <= i < |ls| ==> ls[i] != "" && AllCellChars(ls[i])) &&
     (forall i :: 0 <= i < |ls| ==> |ls[i]| == |ls[0]|))
  }

  predicate AllCellChars(line: string) { forall k :: 0 <= k < |line| ==> IsCellChar(line[k]) }

  predicate AllTextChars(s: string) { forall i :: 0 <= i < |s| ==> TextChar(s[i]) }

  /** Every line describes as many cells as the first. */
  predicate UniformRows(ls: seq<string>)
  {
    forall i :: 0 <= i < |ls| ==> CellCount(ls[i]) == CellCount(ls[0])
  }

  // ---------------------------------------------------------------- lemmas: lines

  /** Splitting at newlines loses nothing. */
  lemma {:induction false} JoinSplit(s: string)
    ensures JoinLines(SplitLines(s)) == s
  {
    if s != [] {
      var rest := SplitLines(s[1..]);
      JoinSplit(s[1..]);
      if s[0] != '\n' {
        var ls := SplitLines(s);
        assert ls[1..] == rest[1..];
        if |rest| > 1 {
          assert JoinLines(ls) == ls[0] + "\n" + JoinLines(ls[1..]);
          assert JoinLines(rest) == rest[0] + "\n" + JoinLines(rest[1..]);
        }
      }
    }
  }

  /** Joining newline-free lines and splitting again gives the same lines. */
  lemma {:induction false} SplitJoin(ls: seq<string>)
    requires |ls| >= 1 && forall i :: 0 <= i < |ls| ==> '\n' !in ls[i]
    ensures SplitLines(JoinLines(ls)) == ls
  {
    if |ls| == 1 {
      SplitNoNewline(ls[0]);
    } else {
      SplitJoin(ls[1..]);
      SplitPrefix(ls[0], JoinLines(ls[1..]));
    }
  }

  /** A newline-free text is a single line. */
  lemma {:induction false} SplitNoNewline(line: string)
    requires '\n' !in line
    ensures SplitLines(line) == [line]
  {
    if line != [] {
      assert line[0] in line;
      assert forall k :: 1 <= k < |line| ==> line[1..][k - 1] == line[k];
      SplitNoNewline(line[1..]);
      assert [line[0]] + line[1..] == line;
    }
  }

  /** Splitting `line + "\n" + rest` puts `line` in front of the lines of `rest`. */
  lemma {:induction false} SplitPrefix(line: string, rest: string)
    requires '\n' !in line
    ensures SplitLines(line + "\n" + rest) == [line] + SplitLines(rest)
  {
    if line == [] {
      assert line + "\n" + rest == "\n" + rest;
      assert ("\n" + rest)[1..] == rest;
    } else {
      var t := line + "\n" + rest;
      assert t[1..] == line[1..] + "\n" + rest;
      SplitPrefix(line[1..], rest);
      assert t[0] == line[0];
      assert [line[0]] + line[1..] == line;
    }
  }

  /** Every line holds only characters permitted within a line. */
  predicate AllLinesOk(ls: seq<string>)
  {
    forall i :: 0 <= i < |ls| ==> AllLineChars(ls[i])
  }

  /** A text holds only permitted characters exactly when each of its pieces holds
      only characters permitted within a line. */
  lemma {:induction false} SplitLinesChars(s: string)
    ensures AllTextChars(s) <==> AllLinesOk(SplitLines(s))
  {
    if s != [] {
      SplitLinesChars(s[1..]);
      var rest := SplitLines(s[1..]);
      var ls := SplitLines(s);
      TextCharsCons(s);
      if s[0] != '\n' {
        assert ls == [[s[0]] + rest[0]] + rest[1..];
        LineCharsCons(s[0], rest[0]);
        LinesOkCons(rest);
        assert ls[1..] == rest[1..];
        LinesOkCons(ls);
      } else {
        assert ls == [""] + rest;
        LinesOkCons(ls);
        assert ls[1..] == rest;
      }
    }
  }

  lemma LinesOkCons(ls: seq<string>)
    requires ls != []
    ensures AllLinesOk(ls) <==> AllLineChars(ls[0]) && AllLinesOk(ls[1..])
  {
    if AllLineChars(ls[0]) && AllLinesOk(ls[1..]) {
      forall i | 0 <= i < |ls| ensures AllLineChars(ls[i]) {
        if i > 0 { assert ls[i] == ls[1..][i - 1]; }
      }
    }
  }

  lemma TextCharsCons(s: string)
    requires s != []
    ensures AllTextChars(s) <==> TextChar(s[0]) && AllTextChars(s[1..])
  {
    assert forall k :: 0 <= k < |s[1..]| ==> s[1..][k] == s[k + 1];
    if TextChar(s[0]) && AllTextChars(s[1..]) {
      forall k | 0 <= k < |s| ensures TextChar(s[k]) {
        if k > 0 { assert s[k] == s[1..][k - 1]; }
      }
    }
  }

  lemma LineCharsCons(c: char, line: string)
    ensures AllLineChars([c] + line) <==> LineChar(c) && AllLineChars(line)
  {
    var t := [c] + line;
    assert t[0] == c;
    assert forall k :: 0 <= k < |line| ==> t[k + 1] == line[k];
    if LineChar(c) && AllLineChars(line) {
      forall k | 0 <= k < |t| ensures LineChar(t[k]) {
        if k > 0 { assert t[k] == line[k - 1]; }
      }
    }
  }

  // ---------------------------------------------------------------- lemmas: parsing

  /** A line parses exactly when all its characters are permitted. */
  lemma {:induction false} ParseRowAccepts(line: string, lineNo: nat, col: nat)
    ensures ParseRow(line, lineNo, col).Success? <==> AllLineChars(line)
  {
    if line != [] {
      ParseRowAccepts(line[1..], lineNo, col + 1);
      assert AllLineChars(line) <==> LineChar(line[0]) && AllLineChars(line[1..]);
    }
  }

  /** The lines parse exactly when every line holds only permitted characters and
      describes as many cells as expected (as the first line, if nothing is
      expected); the columns then form a `|lines| x h` matrix. */
  lemma {:induction false} ParseRowsAccepts(lines: seq<string>, lineNo: nat, expected: Option<nat>)
    ensures ParseRows(lines, lineNo, expected).Success? <==>
      AllLinesOk(lines) &&
      (forall i :: 0 <= i < |lines| ==> CellCount(lines[i]) == expected.GetOr(CellCount(lines[0])))
    ensures ParseRows(lines, lineNo, expected).Success? ==>
      var m := ParseRows(lines, lineNo, expected).value;
      IsMatrix(m, |lines|, HeightOf(m)) && (lines != [] ==> HeightOf(m) == CellCount(lines[0]))
  {
    if lines != [] {
      ParseRowAccepts(lines[0], lineNo, 0);
      var row := ParseRow(lines[0], lineNo, 0);
      if row.Success? {
        var n := |row.value|;
        ParseRowsAccepts(lines[1..], lineNo + 1, Some(n));
        assert forall i :: 1 <= i < |lines| ==> lines[i] == lines[1..][i - 1];
      }
    }
  }

  /** A text parses exactly when it holds only `#`, `.`, newlines, spaces and
      carriage returns, and all its lines describe the same number of cells.
      The result is then a matrix with one column per line. */
  lemma {:induction false} ParseAccepts(s: string)
    ensures Parse(s).Success? <==> AllTextChars(s) && UniformRows(Lines(s))
    ensures Parse(s).Success? ==> IsMatrix(Parse(s).value, |Lines(s)|, HeightOf(Parse(s).value))
  {
    var ls := SplitLines(s);
    SplitLinesChars(s);
    ParseRowsAccepts(Lines(s), 0, None);
    if ls[|ls| - 1] == "" {
      assert AllLinesOk(ls) <==> AllLinesOk(Lines(s));
    }
  }

  /** The columns of a successful parse are the parsed lines, in order. */
  lemma {:induction false} ParseRowsColumns(lines: seq<string>, lineNo: nat, expected: Option<nat>)
    requires ParseRows(lines, lineNo, expected).Success?
    ensures |ParseRows(lines, lineNo, expected).value| == |lines|
    ensures forall i :: 0 <= i < |lines| ==>
      ParseRow(lines[i], lineNo + i, 0).Success? &&
      ParseRows(lines, lineNo, expected).value[i] == ParseRow(lines[i], lineNo + i, 0).value
  {
    if lines != [] {
      var row := ParseRow(lines[0], lineNo, 0).value;
      ParseRowsColumns(lines[1..], lineNo + 1, Some(|row|));
      assert forall i :: 1 <= i < |lines| ==> lines[i] == lines[1..][i - 1];
    }
  }

  // ---------------------------------------------------------------- lemmas: round trips

  /** Parsing a printed column gives the column back. */
  lemma {:induction false} ParseRowText(column: seq<bool>, lineNo: nat, col: nat)
    ensures ParseRow(RowText(column), lineNo, col) == Success(column)
  {
    if column != [] {
      assert RowText(column)[1..] == RowText(column[1..]);
      ParseRowText(column[1..], lineNo, col + 1);
      assert [column[0]] + column[1..] == column;
    }
  }

  /** A line of `#` and `.` parses, and printing the result gives the line back. */
  lemma {:induction false} RowTextOfParse(line: string, lineNo: nat, col: nat)
    requires AllCellChars(line)
    ensures ParseRow(line, lineNo, col).Success? && RowText(ParseRow(line, lineNo, col).value) == line
  {
    if line != [] {
      assert AllCellChars(line[1..]) by {
        assert forall k :: 0 <= k < |line[1..]| ==> line[1..][k] == line[k + 1];
      }
      RowTextOfParse(line[1..], lineNo, col + 1);
      var t := RowText(ParseRow(line, lineNo, col).value);
      assert t[0] == line[0];
      assert t[1..] == RowText(ParseRow(line[1..], lineNo, col + 1).value);
      assert t == [t[0]] + t[1..];
    }
  }

  /** The printed lines of a matrix's columns. */
  function ColumnTexts(m: Matrix): (ts: seq<string>)
    ensures |ts| == |m|
  {
    seq(|m|, i requires 0 <= i < |m| => RowText(m[i]))
  }

  lemma {:induction false} ParseColumnTexts(m: Matrix, w: nat, h: nat, lineNo: nat, expected: Option<nat>)
    requires IsMatrix(m, w, h) && (expected.Some? ==> expected.value == h)
    ensures ParseRows(ColumnTexts(m), lineNo, expected) == Success(m)
  {
    if w > 0 {
      var ts := ColumnTexts(m);
      assert ts[1..] == ColumnTexts(m[1..]);
      ParseRowText(m[0], lineNo, 0);
      ParseColumnTexts(m[1..], w - 1, h, lineNo + 1, Some(h));
      assert [m[0]] + m[1..] == m;
    }
  }

  /** Printing a field and parsing the text gives the field back, for every field
      whose text is unambiguous: one with at least one cell per column, or with
      no columns at all. */
  lemma {:induction false} SerializeThenParse(m: Matrix, w: nat, h: nat)
    requires IsMatrix(m, w, h) && (h > 0 || w == 0)
    ensures Parse(Serialize(m)) == Success(m)
  {
    var ts := ColumnTexts(m);
    assert Serialize(m) == JoinLines(ts);
    if w == 0 {
      assert Lines("") == [];
    } else {
      forall i | 0 <= i < w ensures '\n' !in ts[i] {
        assert forall k :: 0 <= k < |ts[i]| ==> ts[i][k] != '\n';
      }
      SplitJoin(ts);
      assert ts[w - 1] != "";
      assert Lines(Serialize(m)) == ts;
      ParseColumnTexts(m, w, h, 0, None);
    }
  }

  /** A text in printed form parses, and printing the result gives the text back
      (the empty text, single lines and single columns included). */
  lemma {:induction false} ParseThenSerialize(s: string)
    requires Canonical(s)
    ensures Parse(s).Success? && Serialize(Parse(s).value) == s
  {
    if s == "" {
      assert Lines(s) == [];
    } else {
      var ls := SplitLines(s);
      assert Lines(s) == ls;
      SplitLinesChars(s);
      forall i | 0 <= i < |ls| ensures AllLineChars(ls[i]) && CellCount(ls[i]) == |ls[i]| {
        RowTextOfParse(ls[i], 0, 0);
      }
      ParseRowsAccepts(ls, 0, None);
      ParseRowsColumns(ls, 0, None);
      var m := Parse(s).value;
      forall i | 0 <= i < |ls| ensures ColumnTexts(m)[i] == ls[i] {
        RowTextOfParse(ls[i], i, 0);
        RowTextOfParse(ls[i], 0 + i, 0);
      }
      assert ColumnTexts(m) == ls;
      JoinSplit(s);
    }
  }
}
