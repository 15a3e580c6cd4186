/**
 * The game manager (game_handler.h, game_handler.cpp): the current field, the
 * snapshot taken before the last change (one level of undo), the step counter
 * and the table of text commands.
 */
module Manager {
  import opened Torus
  import opened Field
  import opened Life

  /** The command handlers a manager can hold. `set` (`commandSet`) is the one
      whose body this model has; the others are not part of it. */
  datatype Handler = SetCell

  /** The live cells among `(lo, y) .. (hi - 1, y)`, wrapped: one row of the
      neighbourhood as `countLifeAround` walks it. */
  ghost function RowRun(m: Matrix, w: nat, h: nat, lo: int, hi: int, y: int): (r: nat)
    requires IsMatrix(m, w, h) && w > 0 && h > 0
    decreases hi - lo
  {
    if hi <= lo then 0 else RowRun(m, w, h, lo, hi - 1, y) + Bit(Alive(m, w, h, hi - 1, y))
  }

  /** A row of three is the sum of its cells. */
  lemma RowRunThree(m: Matrix, w: nat, h: nat, x: int, y: int)
    requires IsMatrix(m, w, h) && w > 0 && h > 0
    ensures RowRun(m, w, h, x - 1, x + 2, y) ==
      Bit(Alive(m, w, h, x - 1, y)) + Bit(Alive(m, w, h, x, y)) + Bit(Alive(m, w, h, x + 1, y))
  {
    assert RowRun(m, w, h, x - 1, x, y) == Bit(Alive(m, w, h, x - 1, y));
  }

  /** The draft of `nextMove` on its way from `m` to `n`: the cells before
      `(i, j)`, column by column, hold their value in `n`, the rest their value
      in `m`. */
  ghost function Partial(m: Matrix, n: Matrix, w: nat, h: nat, i: nat, j: nat): (r: Matrix)
    requires IsMatrix(m, w, h) && IsMatrix(n, w, h)
    ensures IsMatrix(r, w, h)
  {
    seq(w, c requires 0 <= c < w =>
      seq(h, y requires 0 <= y < h => if c < i || (c == i && y < j) then n[c][y] else m[c][y]))
  }

  lemma PartialStart(m: Matrix, n: Matrix, w: nat, h: nat)
    requires IsMatrix(m, w, h) && IsMatrix(n, w, h)
    ensures Partial(m, n, w, h, 0, 0) == m
  {
    var p := Partial(m, n, w, h, 0, 0);
    forall c | 0 <= c < w ensures p[c] == m[c] {
      assert forall y :: 0 <= y < h ==> p[c][y] == m[c][y];
    }
  }

  /** Visiting `(i, j)` reads the cell's value in `m` and writes its value in
      `n`, and nothing else. */
  lemma PartialAdvance(m: Matrix, n: Matrix, w: nat, h: nat, i: nat, j: nat)
    requires IsMatrix(m, w, h) && IsMatrix(n, w, h) && i < w && j < h
    ensures Alive(Partial(m, n, w, h, i, j), w, h, i, j) == m[i][j]
    ensures Partial(m, n, w, h, i, j + 1) == Put(Partial(m, n, w, h, i, j), w, h, i, j, n[i][j])
  {
    WrapInRange(i, w);
    WrapInRange(j, h);
    var p, q := Partial(m, n, w, h, i, j + 1), Put(Partial(m, n, w, h, i, j), w, h, i, j, n[i][j]);
    forall c | 0 <= c < w ensures p[c] == q[c] {
      assert forall y :: 0 <= y < h ==> p[c][y] == q[c][y];
    }
  }

  lemma PartialNextColumn(m: Matrix, n: Matrix, w: nat, h: nat, i: nat)
    requires IsMatrix(m, w, h) && IsMatrix(n, w, h) && i < w
    ensures Partial(m, n, w, h, i, h) == Partial(m, n, w, h, i + 1, 0)
  {
    var p, q := Partial(m, n, w, h, i, h), Partial(m, n, w, h, i + 1, 0);
    forall c | 0 <= c < w ensures p[c] == q[c] {
      assert forall y :: 0 <= y < h ==> p[c][y] == q[c][y];
    }
  }

  lemma PartialEnd(m: Matrix, n: Matrix, w: nat, h: nat)
    requires IsMatrix(m, w, h) && IsMatrix(n, w, h)
    ensures Partial(m, n, w, h, w, 0) == n
  {
    var p := Partial(m, n, w, h, w, 0);
    forall c | 0 <= c < w ensures p[c] == n[c] {
      assert forall y :: 0 <= y < h ==> p[c][y] == n[c][y];
    }
  }

  class GameManager {
    var width: nat
    var height: nat
    var commands: map<string, Handler>
    /** The current field and the snapshot for undo. They are members of the
        manager, not shared: each is its own object, updated by copying. */
    const gameField: GameField
    const previousStep: GameField
    var stepsCounter: nat
    /** Whether `previousStep` holds a snapshot that `StepBack` may restore. */
    var hasUndo: bool

    ghost predicate Valid()
      reads this, gameField, previousStep
    {
      && gameField != previousStep
      && gameField.Valid() && previousStep.Valid()
      && gameField.width == width && gameField.height == height
      && (hasUndo ==> previousStep.width == width && previousStep.height == height)
    }

    /** `GameManager(width, height, ...)`: a blank field, no undo, step 0. */
    constructor (w: nat, h: nat)
      ensures Valid() && fresh(gameField) && fresh(previousStep)
      ensures width == w && height == h && gameField.cells == Blank(w, h)
      ensures stepsCounter == 0 && !hasUndo && commands == map[]
    {
      width, height := w, h;
      gameField := new GameField(w, h);
      previousStep := new GameField(0, 0);
      commands := map[];
      stepsCounter, hasUndo := 0, false;
    }

    /** `GameManager(field, ...)`: a copy of `field`, its dimensions, no undo,
        step 0, and an empty snapshot `GameField(0, 0)`. */
    constructor FromField(field: GameField)
      requires field.Valid()
      ensures Valid() && fresh(gameField) && fresh(previousStep)
      ensures width == field.width && height == field.height && gameField.cells == field.cells
      ensures previousStep.width == 0 && previousStep.height == 0
      ensures stepsCounter == 0 && !hasUndo && commands == map[]
    {
      width, height := field.width, field.height;
      gameField := new GameField.Copy(field);
      previousStep := new GameField(0, 0);
      commands := map[];
      stepsCounter, hasUndo := 0, false;
    }

    /** `countLifeAround`: the left and right neighbours, then the row above and
        the row below from left to right. The total is the neighbour count of
        the rule. */
    method CountLifeAround(x: int, y: int) returns (lifes: nat)
      requires Valid() && width > 0 && height > 0
      ensures lifes == CountAround(gameField.cells, width, height, x, y)
    {
      ghost var m := gameField.cells;
      lifes := 0;
      lifes := lifes + (if gameField.IsLife(x - 1, y) then 1 else 0);
      lifes := lifes + (if gameField.IsLife(x + 1, y) then 1 else 0);
      ghost var sides := lifes;
      var i := x - 1;
      while i <= x + 1
        invariant x - 1 <= i <= x + 2
        invariant lifes == sides + RowRun(m, width, height, x - 1, i, y - 1)
      {
        lifes := lifes + (if gameField.IsLife(i, y - 1) then 1 else 0);
        i := i + 1;
      }
      ghost var above := lifes;
      i := x - 1;
      while i <= x + 1
        invariant x - 1 <= i <= x + 2
        invariant lifes == above + RowRun(m, width, height, x - 1, i, y + 1)
      {
        lifes := lifes + (if gameField.IsLife(i, y + 1) then 1 else 0);
        i := i + 1;
      }
      RowRunThree(m, width, height, x, y - 1);
      RowRunThree(m, width, height, x, y + 1);
    }

    /** The loops of `nextMove`: every count and every current state is read
        from `gameField`, every write goes to a draft from `edit()`. The draft
        ends up holding the next generation; the field itself is not touched. */
    method ComputeDraft() returns (draft: MutableGameField)
      requires Valid()
      ensures fresh(draft) && draft.Valid() && draft.original == gameField
      ensures draft.cells == Step(gameField.cells, width, height)
    {
      ghost var m := gameField.cells;
      ghost var next := Step(m, width, height);
      draft := gameField.Edit();
      PartialStart(m, next, width, height);
      for i := 0 to width
        invariant fresh(draft) && draft.Valid() && draft.original == gameField
        invariant draft.cells == Partial(m, next, width, height, i, 0)
      {
        VisitColumn(draft, next, i);
        PartialNextColumn(m, next, width, height, i);
      }
      PartialEnd(m, next, width, height);
    }

    /** The inner loop of `nextMove` over column `i`: the draft moves from the
        start of the column to its end on the way to `next`, the next
        generation. */
    method VisitColumn(draft: MutableGameField, ghost next: Matrix, i: nat)
      requires Valid() && i < width
      requires next == Step(gameField.cells, width, height)
      requires draft.Valid() && draft.original == gameField
      requires draft.cells == Partial(gameField.cells, next, width, height, i, 0)
      modifies draft
      ensures draft.Valid() && draft.original == gameField
      ensures draft.cells == Partial(gameField.cells, next, width, height, i, height)
    {
      for j := 0 to height
        invariant draft.Valid() && draft.original == gameField
        invariant draft.cells == Partial(gameField.cells, next, width, height, i, j)
      {
        StepAt(gameField.cells, width, height, i, j);
        VisitCell(draft, next, i, j);
      }
    }

    /** One round of the inner loop of `nextMove`: the rule applied to the cell
        `(i, j)` of the field, written into the draft, which moves on by one
        cell towards `next`, a matrix holding the rule's value at `(i, j)`. */
    method VisitCell(draft: MutableGameField, ghost next: Matrix, i: nat, j: nat)
      requires Valid() && i < width && j < height
      requires IsMatrix(next, width, height)
      requires next[i][j] == NextState(gameField.cells[i][j], CountAround(gameField.cells, width, height, i, j))
      requires draft.Valid() && draft.original == gameField
      requires draft.cells == Partial(gameField.cells, next, width, height, i, j)
      modifies draft
      ensures draft.Valid() && draft.original == gameField
      ensures draft.cells == Partial(gameField.cells, next, width, height, i, j + 1)
    {
      PartialAdvance(gameField.cells, next, width, height, i, j);
      var life := CountLifeAround(i, j);
      var hasLife := gameField.IsLife(i, j);
      AliveOnTorus(gameField.cells, width, height, i, j, 0, 0);
      if hasLife && (life < DEATH_LONELINESS || life > DEATH_OVERPOPULATION) {
        draft.Kill(i, j);
      } else if !hasLife && life == BORN_LIFE {
        draft.BornLife(i, j);
      } else {
        PutIdempotent(draft.cells, width, height, i, j, hasLife);
      }
    }

    /** `nextMove` as written: the draft is computed and dropped, `apply()` is
        never called, so the field does not change. */
    method NextMoveAsWritten()
      requires Valid()
      ensures Valid() && unchanged(this) && unchanged(gameField) && unchanged(previousStep)
    {
      var draft := ComputeDraft();
    }

    /** `nextMove` with the draft applied: the field becomes the next generation
        of what it was; nothing else changes. */
    method NextMove()
      requires Valid()
      modifies gameField
      ensures Valid() && unchanged(this) && unchanged(previousStep)
      ensures gameField.width == width && gameField.height == height
      ensures gameField.cells == Step(old(gameField.cells), width, height)
    {
      var draft := ComputeDraft();
      draft.Apply();
    }

    /** `manyMoves(count)`: `count` moves one after the other. */
    method ManyMoves(count: nat)
      requires Valid()
      modifies gameField
      ensures Valid() && unchanged(this) && unchanged(previousStep)
      ensures gameField.cells == Generations(old(gameField.cells), width, height, count)
    {
      ghost var start := gameField.cells;
      for i := 0 to count
        invariant Valid() && unchanged(this) && unchanged(previousStep)
        invariant gameField.cells == Generations(start, width, height, i)
      {
        NextMove();
      }
    }

    /** `nextStep`: snapshot the field for undo, move, count the step. */
    method NextStep()
      requires Valid()
      modifies this, gameField, previousStep
      ensures Valid() && width == old(width) && height == old(height) && commands == old(commands)
      ensures gameField.cells == Step(old(gameField.cells), width, height)
      ensures previousStep.cells == old(gameField.cells)
      ensures stepsCounter == old(stepsCounter) + 1 && hasUndo
    {
      previousStep.CopyFrom(gameField);
      NextMove();
      stepsCounter := stepsCounter + 1;
      hasUndo := true;
    }

    /** `setCellAt`: snapshot the field for undo, flip the wrapped cell through a
        draft and apply it. Returns whether the cell is alive afterwards. */
    method SetCellAt(x: int, y: int) returns (alive: bool)
      requires Valid() && width > 0 && height > 0
      modifies this, gameField, previousStep
      ensures Valid() && width == old(width) && height == old(height) && commands == old(commands)
      ensures gameField.cells == Toggle(old(gameField.cells), width, height, x, y)
      ensures alive == gameField.IsLife(x, y) && alive == !Alive(old(gameField.cells), width, height, x, y)
      ensures previousStep.cells == old(gameField.cells)
      ensures stepsCounter == old(stepsCounter) && hasUndo
    {
      previousStep.CopyFrom(gameField);
      var draft := gameField.Edit();
      var wasAlive := draft.IsLife(x, y);
      if wasAlive {
        draft.Kill(x, y);
      } else {
        draft.BornLife(x, y);
      }
      draft.Apply();
      hasUndo := true;
      alive := !wasAlive;
    }

    /** `stepBack`: with a snapshot, restore it, use it up and take one off the
        step counter (if any); without one, refuse and change nothing. */
    method StepBack() returns (ok: bool)
      requires Valid()
      modifies this, gameField
      ensures Valid() && ok == old(hasUndo) && !hasUndo
      ensures width == old(width) && height == old(height) && commands == old(commands)
      ensures ok ==> gameField.cells == old(previousStep.cells)
      ensures ok ==> stepsCounter == if old(stepsCounter) > 0 then old(stepsCounter) - 1 else 0
      ensures !ok ==> unchanged(this) && unchanged(gameField)
    {
      if !hasUndo {
        return false;
      }
      gameField.CopyFrom(previousStep);
      hasUndo := false;
      if stepsCounter > 0 {
        stepsCounter := stepsCounter - 1;
      }
      ok := true;
    }

    /** `reset(width, height)`: a blank field of the new size, step 0, no undo. */
    method Reset(w: nat, h: nat)
      requires Valid()
      modifies this, gameField
      ensures Valid() && width == w && height == h && commands == old(commands)
      ensures gameField.cells == Blank(w, h)
      ensures stepsCounter == 0 && !hasUndo
    {
      var blank := new GameField(w, h);
      gameField.CopyFrom(blank);
      width, height := w, h;
      stepsCounter, hasUndo := 0, false;
    }

    /** `reset(field)`: the given field with its dimensions, step 0, no undo. */
    method ResetTo(field: GameField)
      requires Valid() && field.Valid()
      modifies this, gameField
      ensures Valid() && width == old(field.width) && height == old(field.height) && commands == old(commands)
      ensures gameField.cells == old(field.cells)
      ensures stepsCounter == 0 && !hasUndo
    {
      width, height := field.width, field.height;
      gameField.CopyFrom(field);
      stepsCounter, hasUndo := 0, false;
    }

    /** `registerCommand(name, cmd)`: `name` now runs `cmd`, replacing any
        earlier registration of that name. */
    method RegisterCommand(name: string, cmd: Handler)
      modifies this
      ensures commands == old(commands)[name := cmd]
      ensures width == old(width) && height == old(height) && stepsCounter == old(stepsCounter) && hasUndo == old(hasUndo)
    {
      commands := commands[name := cmd];
    }

    /** `executeCommand(name, args, output)`: run the handler registered under
        `name` and report true, or report false and change nothing when there is
        none. */
    method ExecuteCommand(name: string, args: seq<string>) returns (found: bool, output: string)
      requires Valid() && (|args| == 2 && name in commands ==> width > 0 && height > 0)
      modifies this, gameField, previousStep
      ensures Valid() && found == (name in old(commands)) && commands == old(commands)
      ensures !found ==> output == "" && unchanged(this) && unchanged(gameField) && unchanged(previousStep)
      ensures found && old(commands)[name] == SetCell ==>
        output == old(SetOutput(args, gameField.cells, width, height)) &&
        gameField.cells == old(SetEffect(args, gameField.cells, width, height))
      ensures found && old(commands)[name] == SetCell && |args| == 2 ==>
        hasUndo && previousStep.cells == old(gameField.cells) && stepsCounter == old(stepsCounter)
      ensures found && old(commands)[name] == SetCell && |args| != 2 ==>
        unchanged(this) && unchanged(gameField) && unchanged(previousStep)
    {
      if name !in commands {
        return false, "";
      }
      match commands[name]
      case SetCell =>
        output := CommandSet(args, this);
      found := true;
    }
  }

  /** `atoi`: optional leading white space, an optional sign, then the longest
      run of decimal digits; 0 when there are no digits. */
  function Atoi(s: string): (r: int)
    ensures (forall i :: 0 <= i < |s| ==> !IsDigit(s[i])) ==> r == 0
  {
    if |s| > 0 && IsSpace(s[0]) then Atoi(s[1..])
    else if |s| > 0 && s[0] == '-' then -(DigitsValue(s[1..], 0) as int)
    else if |s| > 0 && s[0] == '+' then DigitsValue(s[1..], 0)
    else DigitsValue(s, 0)
  }

  predicate IsSpace(c: char)
  {
    c == ' ' || c == '\t' || c == '\n' || c as int == 11 || c as int == 12 || c == '\r'
  }

  predicate IsDigit(c: char)
  {
    '0' <= c <= '9'
  }

  /** The value of the leading digits of `s`, accumulated onto `acc`. */
  function DigitsValue(s: string, acc: nat): (r: nat)
  {
    if |s| > 0 && IsDigit(s[0]) then DigitsValue(s[1..], acc * 10 + (s[0] as int - '0' as int)) else acc
  }

  /** The decimal numeral of `n`, without sign or leading zeros. */
  function Decimal(n: nat): (s: string)
    ensures |s| > 0 && forall i :: 0 <= i < |s| ==> IsDigit(s[i])
    decreases n
  {
    if n < 10 then [('0' as int + n) as char] else Decimal(n / 10) + [('0' as int + n % 10) as char]
  }

  /** Reading digits continues the accumulation digit by digit. */
  lemma {:induction false} DigitsValueAppend(s: string, d: nat, acc: nat)
    requires d < 10 && forall i :: 0 <= i < |s| ==> IsDigit(s[i])
    ensures DigitsValue(s + [('0' as int + d) as char], acc) == DigitsValue(s, acc) * 10 + d
  {
    var c := ('0' as int + d) as char;
    if |s| == 0 {
      assert (s + [c])[1..] == [];
    } else {
      var next := acc * 10 + (s[0] as int - '0' as int);
      assert (s + [c])[1..] == s[1..] + [c];
      DigitsValueAppend(s[1..], d, next);
    }
  }

  /** `atoi` reads back every numeral it could be given, with or without a
      minus sign. */
  lemma {:induction false} AtoiDecimal(n: nat)
    ensures Atoi(Decimal(n)) == n
    ensures Atoi("-" + Decimal(n)) == -(n as int)
    decreases n
  {
    DigitsOfDecimal(n);
    assert ("-" + Decimal(n))[1..] == Decimal(n);
  }

  lemma {:induction false} DigitsOfDecimal(n: nat)
    ensures DigitsValue(Decimal(n), 0) == n
    decreases n
  {
    if n >= 10 {
      DigitsOfDecimal(n / 10);
      DigitsValueAppend(Decimal(n / 10), n % 10, 0);
    }
  }

  /** The field `commandSet` leaves behind: with two arguments the cell at
      `(atoi(args[0]), atoi(args[1]))` is flipped, otherwise nothing changes. */
  function SetEffect(args: seq<string>, m: Matrix, w: nat, h: nat): (r: Matrix)
    requires IsMatrix(m, w, h) && (|args| == 2 ==> w > 0 && h > 0)
    ensures IsMatrix(r, w, h)
    ensures |args| != 2 ==> r == m
    ensures |args| == 2 ==> Alive(r, w, h, Atoi(args[0]), Atoi(args[1])) != Alive(m, w, h, Atoi(args[0]), Atoi(args[1]))
  {
    if |args| != 2 then m else Toggle(m, w, h, Atoi(args[0]), Atoi(args[1]))
  }

  /** What `commandSet` prints. */
  function SetOutput(args: seq<string>, m: Matrix, w: nat, h: nat): (r: string)
    requires IsMatrix(m, w, h) && (|args| == 2 ==> w > 0 && h > 0)
  {
    if |args| != 2 then "Need args: <pos X> <pos Y>\n"
    else if Alive(SetEffect(args, m, w, h), w, h, Atoi(args[0]), Atoi(args[1])) then "Cell spawned.\n"
    else "Cell killed.\n"
  }

  /** `commandSet(args, game, out)`: with exactly two arguments, flip the cell
      they name (first argument the column, second the row) and say whether it
      is now alive; otherwise print the usage line and leave the game alone. */
  method CommandSet(args: seq<string>, game: GameManager) returns (output: string)
    requires game.Valid() && (|args| == 2 ==> game.width > 0 && game.height > 0)
    modifies game, game.gameField, game.previousStep
    ensures game.Valid() && game.width == old(game.width) && game.height == old(game.height)
    ensures game.commands == old(game.commands)
    ensures output == SetOutput(args, old(game.gameField.cells), game.width, game.height)
    ensures game.gameField.cells == SetEffect(args, old(game.gameField.cells), game.width, game.height)
    ensures |args| == 2 ==> game.hasUndo && game.previousStep.cells == old(game.gameField.cells)
    ensures |args| == 2 ==> game.stepsCounter == old(game.stepsCounter)
    ensures |args| != 2 ==> unchanged(game) && unchanged(game.gameField) && unchanged(game.previousStep)
  {
    if |args| != 2 {
      return "Need args: <pos X> <pos Y>\n";
    }
    var posX := Atoi(args[0]);
    var posY := Atoi(args[1]);
    var alive := game.SetCellAt(posX, posY);
    output := "Cell " + (if alive then "spawned." else "killed.") + "\n";
  }
}
