/**
 * The scenarios of the repository's tests (tests/test_game_field.cpp,
 * tests/test_game_handler.cpp, assignment4-tests/testCommandSet.cpp), stated
 * about the model.
 */
module Scenarios {
  import opened Torus
  import opened Field
  import opened Life
  import opened Manager
  import opened Wrappers
  import opened FieldText

  /** The overflow test of the field: on a 10 x 10 field every cell read at
      -1, 0, 9 or 10 starts dead, and after the six writes at -1 and 10 each
      cell is read back alive both there and at 9 or 0. */
  method FieldOverflow() returns (startsDead: bool, wrapsAround: bool)
    ensures startsDead && wrapsAround
  {
    var field := new GameField(10, 10);
    startsDead :=
      !field.IsLife(-1, 0) && !field.IsLife(9, 0) &&
      !field.IsLife(0, -1) && !field.IsLife(0, 9) &&
      !field.IsLife(10, 0) && !field.IsLife(0, 0) &&
      !field.IsLife(0, 10) &&
      !field.IsLife(-1, -1) && !field.IsLife(9, 9) &&
      !field.IsLife(10, 10);
    field.BornLife(-1, 0);
    field.BornLife(0, -1);
    field.BornLife(10, 0);
    field.BornLife(0, 10);
    field.BornLife(-1, -1);
    field.BornLife(10, 10);
    wrapsAround :=
      field.IsLife(-1, 0) && field.IsLife(9, 0) &&
      field.IsLife(0, -1) && field.IsLife(0, 9) &&
      field.IsLife(10, 0) && field.IsLife(0, 0) &&
      field.IsLife(0, 10) &&
      field.IsLife(-1, -1) && field.IsLife(9, 9) &&
      field.IsLife(10, 10);
  }

  /** The blinker of the step test in the orientation whose live cells are
      (1,0), (1,1), (1,2): one text line of three live cells. */
  predicate IsVertical(m: Matrix, w: nat, h: nat)
  {
    IsMatrix(m, w, h) && forall i, j | 0 <= i < w && 0 <= j < h :: m[i][j] == (i == 1 && j <= 2)
  }

  /** The other orientation: live cells (0,1), (1,1), (2,1). */
  predicate IsHorizontal(m: Matrix, w: nat, h: nat)
  {
    IsMatrix(m, w, h) && forall i, j | 0 <= i < w && 0 <= j < h :: m[i][j] == (j == 1 && i <= 2)
  }

  function Vertical(w: nat, h: nat): (m: Matrix)
    ensures IsVertical(m, w, h)
  {
    seq(w, i => seq(h, j => i == 1 && j <= 2))
  }

  function Horizontal(w: nat, h: nat): (m: Matrix)
    ensures IsHorizontal(m, w, h)
  {
    seq(w, i => seq(h, j => j == 1 && i <= 2))
  }

  /** The neighbour count around the vertical blinker, by column. */
  function VerticalCount(h: nat, x: nat, y: nat): (r: nat)
    requires y < h
  {
    if x == 1 then Bit(Prev(y, h) <= 2) + Bit(Next(y, h) <= 2)
    else if x == 0 || x == 2 then Bit(Prev(y, h) <= 2) + Bit(y <= 2) + Bit(Next(y, h) <= 2)
    else 0
  }

  /** The neighbour count around the horizontal blinker, by row. */
  function HorizontalCount(w: nat, x: nat, y: nat): (r: nat)
    requires x < w
  {
    if y == 1 then Bit(Prev(x, w) <= 2) + Bit(Next(x, w) <= 2)
    else if y == 0 || y == 2 then Bit(Prev(x, w) <= 2) + Bit(x <= 2) + Bit(Next(x, w) <= 2)
    else 0
  }

  lemma {:induction false} VerticalCountAt(m: Matrix, w: nat, h: nat, x: nat, y: nat)
    requires w >= 5 && h >= 5 && x < w && y < h && IsVertical(m, w, h)
    ensures CountAround(m, w, h, x, y) == VerticalCount(h, x, y)
  {
    CountAroundIndices(m, w, h, x, y);
  }

  lemma {:induction false} HorizontalCountAt(m: Matrix, w: nat, h: nat, x: nat, y: nat)
    requires w >= 5 && h >= 5 && x < w && y < h && IsHorizontal(m, w, h)
    ensures CountAround(m, w, h, x, y) == HorizontalCount(w, x, y)
  {
    CountAroundIndices(m, w, h, x, y);
  }

  lemma VerticalRule(w: nat, h: nat, x: nat, y: nat)
    requires w >= 5 && h >= 5 && x < w && y < h
    ensures NextState(x == 1 && y <= 2, VerticalCount(h, x, y)) <==> y == 1 && x <= 2
  {
  }

  lemma HorizontalRule(w: nat, h: nat, x: nat, y: nat)
    requires w >= 5 && h >= 5 && x < w && y < h
    ensures NextState(y == 1 && x <= 2, HorizontalCount(w, x, y)) <==> x == 1 && y <= 2
  {
  }

  lemma {:induction false} VerticalStepAt(m: Matrix, w: nat, h: nat, x: nat, y: nat)
    requires w >= 5 && h >= 5 && x < w && y < h && IsVertical(m, w, h)
    ensures Step(m, w, h)[x][y] <==> y == 1 && x <= 2
  {
    VerticalCountAt(m, w, h, x, y);
    StepAt(m, w, h, x, y);
    VerticalRule(w, h, x, y);
  }

  lemma {:induction false} HorizontalStepAt(m: Matrix, w: nat, h: nat, x: nat, y: nat)
    requires w >= 5 && h >= 5 && x < w && y < h && IsHorizontal(m, w, h)
    ensures Step(m, w, h)[x][y] <==> x == 1 && y <= 2
  {
    HorizontalCountAt(m, w, h, x, y);
    StepAt(m, w, h, x, y);
    HorizontalRule(w, h, x, y);
  }

  /** The step test's blinker on any field at least 5 x 5 (the test uses
      10 x 10): the horizontal row of three becomes the vertical one. */
  lemma {:induction false} HorizontalBecomesVertical(w: nat, h: nat)
    requires w >= 5 && h >= 5
    ensures Step(Horizontal(w, h), w, h) == Vertical(w, h)
  {
    var v, hz := Vertical(w, h), Horizontal(w, h);
    var r := Step(hz, w, h);
    forall x | 0 <= x < w ensures r[x] == v[x] {
      forall y | 0 <= y < h ensures r[x][y] == v[x][y] {
        HorizontalStepAt(hz, w, h, x, y);
      }
    }
  }

  /** And back. */
  lemma {:induction false} VerticalBecomesHorizontal(w: nat, h: nat)
    requires w >= 5 && h >= 5
    ensures Step(Vertical(w, h), w, h) == Horizontal(w, h)
  {
    var v, hz := Vertical(w, h), Horizontal(w, h);
    var r := Step(v, w, h);
    forall x | 0 <= x < w ensures r[x] == hz[x] {
      forall y | 0 <= y < h ensures r[x][y] == hz[x][y] {
        VerticalStepAt(v, w, h, x, y);
      }
    }
  }

  /** So the blinker is an oscillator of period 2. */
  lemma {:induction false} BlinkerOscillates(w: nat, h: nat)
    requires w >= 5 && h >= 5
    ensures Generations(Horizontal(w, h), w, h, 2) == Horizontal(w, h)
    ensures Generations(Horizontal(w, h), w, h, 1) != Horizontal(w, h)
  {
    var hz := Horizontal(w, h);
    HorizontalBecomesVertical(w, h);
    VerticalBecomesHorizontal(w, h);
    assert Generations(hz, w, h, 1) == Step(Generations(hz, w, h, 0), w, h);
    assert Generations(hz, w, h, 2) == Step(Generations(hz, w, h, 1), w, h);
    assert Vertical(w, h)[0][1] != hz[0][1];
  }

  /** The lone cell of the step test ("#" placed on a 10 x 10 field): `nextMove`
      as written leaves it alive, although the rule kills it. */
  method LoneCellUnderNextMoveAsWritten() returns (before: Matrix, after: Matrix)
    ensures after == before && before != Blank(10, 10)
    ensures IsMatrix(before, 10, 10) && Step(before, 10, 10) == Blank(10, 10)
  {
    var game := new GameManager(10, 10);
    var alive := game.SetCellAt(0, 0);
    before := game.gameField.cells;
    assert Alive(before, 10, 10, 0, 0);
    game.NextMoveAsWritten();
    after := game.gameField.cells;
    LoneCellDies(10, 10, 0, 0);
  }

  /** With the draft applied the same move clears the field, as the test
      expects. */
  method LoneCellUnderNextMove() returns (after: Matrix)
    ensures after == Blank(10, 10)
  {
    var game := new GameManager(10, 10);
    var alive := game.SetCellAt(0, 0);
    game.NextMove();
    after := game.gameField.cells;
    LoneCellDies(10, 10, 0, 0);
  }

  /** The undo test: a fresh manager cannot step back; after one toggle it can,
      exactly once, and the field is blank again. */
  method UndoOneLevel() returns (first: bool, second: bool, third: bool, restored: Matrix)
    ensures !first && second && !third
    ensures restored == Blank(10, 10)
  {
    var game := new GameManager(10, 10);
    first := game.StepBack();
    var alive := game.SetCellAt(5, 5);
    second := game.StepBack();
    restored := game.gameField.cells;
    third := game.StepBack();
  }

  /** The reset test: after toggles, `reset` to the same size gives back the
      field the manager started with, and nothing to undo. */
  method ResetAfterToggles() returns (cells: Matrix, canUndo: bool)
    ensures cells == Blank(10, 10) && !canUndo
  {
    var game := new GameManager(10, 10);
    var a := game.SetCellAt(1, 1);
    var b := game.SetCellAt(2, 2);
    game.Reset(game.width, game.height);
    cells := game.gameField.cells;
    canUndo := game.StepBack();
  }

  /** The `set` tests: `{"3","3"}` brings (3,3) to life, and a step back after
      it restores the blank field with the counter at 0; `{"2","6"}` brings
      column 2, row 6 to life and not column 6, row 2; three arguments or one
      change nothing. */
  method CommandSetScenarios() returns (square: bool, undoesSet: bool, nonsquare: bool, transposed: bool, three: Matrix, one: Matrix)
    ensures square && undoesSet && nonsquare && !transposed
    ensures three == Blank(10, 10) && one == Blank(10, 10)
  {
    AtoiDecimal(2);
    AtoiDecimal(3);
    AtoiDecimal(6);
    var game := new GameManager(10, 10);
    var out := CommandSet(["3", "3"], game);
    square := game.gameField.IsLife(3, 3);
    var undone := game.StepBack();
    undoesSet := undone && game.gameField.cells == Blank(10, 10) && game.stepsCounter == 0;

    game := new GameManager(10, 10);
    out := CommandSet(["2", "6"], game);
    nonsquare := game.gameField.IsLife(2, 6);
    WrapInRange(2, 10);
    WrapInRange(6, 10);
    transposed := game.gameField.IsLife(6, 2);

    game := new GameManager(10, 10);
    out := CommandSet(["3", "3", "3"], game);
    three := game.gameField.cells;

    game := new GameManager(10, 10);
    out := CommandSet(["3"], game);
    one := game.gameField.cells;
  }

  /** The lines of a text of three newline-free lines. */
  lemma {:induction false} LinesOfThree(a: string, b: string, c: string)
    requires '\n' !in a && '\n' !in b && '\n' !in c && c != ""
    ensures Lines(a + "\n" + b + "\n" + c) == [a, b, c]
  {
    SplitNoNewline(c);
    SplitPrefix(b, c);
    SplitPrefix(a, b + "\n" + c);
    assert a + "\n" + b + "\n" + c == a + "\n" + (b + "\n" + c);
  }

  /** The lines of a text of two newline-free lines. */
  lemma {:induction false} LinesOfTwo(a: string, b: string)
    requires '\n' !in a && '\n' !in b && b != ""
    ensures Lines(a + "\n" + b) == [a, b]
  {
    SplitNoNewline(b);
    SplitPrefix(a, b);
  }

  /** The lines of three newline-terminated lines: the final newline adds no
      line, while empty lines before it count. */
  lemma {:induction false} LinesOfThreeTerminated(a: string, b: string, c: string)
    requires '\n' !in a && '\n' !in b && '\n' !in c
    ensures Lines(a + "\n" + b + "\n" + c + "\n") == [a, b, c]
  {
    SplitNoNewline("");
    SplitPrefix(c, "");
    assert c + "\n" == c + "\n" + "";
    SplitPrefix(b, c + "\n");
    SplitPrefix(a, b + "\n" + (c + "\n"));
    assert a + "\n" + b + "\n" + c + "\n" == a + "\n" + (b + "\n" + (c + "\n"));
  }

  /** A second line that does not parse is reported as it is. */
  lemma ParseRowsSecondFails(first: string, second: string, rest: seq<string>)
    requires ParseRow(first, 0, 0).Success? && ParseRow(second, 1, 0).Failure?
    ensures ParseRows([first, second] + rest, 0, None) == Failure(ParseRow(second, 1, 0).error)
  {
    assert ([first, second] + rest)[1..] == [second] + rest;
  }

  /** A second line with a different cell count from the first is reported at
      line 1, position its own count. */
  lemma ParseRowsSecondMismatch(first: string, second: string, rest: seq<string>)
    requires ParseRow(first, 0, 0).Success? && ParseRow(second, 1, 0).Success?
    requires |ParseRow(first, 0, 0).value| != |ParseRow(second, 1, 0).value|
    ensures var n, k := |ParseRow(first, 0, 0).value|, |ParseRow(second, 1, 0).value|;
      ParseRows([first, second] + rest, 0, None) == Failure(BadGameField(1, k, RowSizeMismatch(n, k)))
  {
    assert ([first, second] + rest)[1..] == [second] + rest;
  }

  /** The parse tests with foreign symbols: the first foreign character is
      reported with its line and its position in the line. */
  lemma ParseForeignSymbol()
    ensures Parse("a") == Failure(BadGameField(0, 0, UnknownSymbol('a')))
  {
    SplitNoNewline("a");
  }

  lemma ParseForeignSymbolInSecondLine()
    ensures Parse("##\nbc\n##") == Failure(BadGameField(1, 0, UnknownSymbol('b')))
  {
    LinesOfThree("##", "bc", "##");
    assert "##\nbc\n##" == "##" + "\n" + "bc" + "\n" + "##";
    assert ParseRow("##", 0, 0).Success?;
    assert ParseRow("bc", 1, 0) == Failure(BadGameField(1, 0, UnknownSymbol('b')));
    ParseRowsSecondFails("##", "bc", ["##"]);
    assert ["##", "bc"] + ["##"] == ["##", "bc", "##"];
  }

  /** The parse tests with rows of different sizes: the first line whose cell
      count differs from the first line's is reported, empty lines included. */
  lemma ParseUnevenRows()
    ensures Parse("##\n#") == Failure(BadGameField(1, 1, RowSizeMismatch(2, 1)))
  {
    LinesOfTwo("##", "#");
    assert "##\n#" == "##" + "\n" + "#";
    RowTextOfParse("##", 0, 0);
    RowTextOfParse("#", 1, 0);
    ParseRowsSecondMismatch("##", "#", []);
    assert ["##", "#"] + [] == ["##", "#"];
  }

  lemma ParseEmptySecondLine()
    ensures Parse(".\n\n\n") == Failure(BadGameField(1, 0, RowSizeMismatch(1, 0)))
  {
    LinesOfThreeTerminated(".", "", "");
    assert ".\n\n\n" == "." + "\n" + "" + "\n" + "" + "\n";
    RowTextOfParse(".", 0, 0);
    assert ParseRow("", 1, 0) == Success([]);
    ParseRowsSecondMismatch(".", "", [""]);
    assert [".", ""] + [""] == [".", "", ""];
  }
}
