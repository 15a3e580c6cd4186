# Game of Life on a torus: a verified model

This project models the core of a terminal Game of Life (C++, curses). The
modelled parts are:

- **The game field** (`GameField`). It is a `width x height` boolean matrix
  stored as columns (`cells[x][y]`). Every coordinate is reduced cyclically,
  so the field is a torus.
- **Two ways to write a field.**
  - Directly, through one cell (`field[x][y].bornLife()` / `kill()`).
  - Through a draft (`MutableGameField`). `edit()` creates the draft. Writes
    go to the draft's private copy and become visible only on `apply()`.
- **The text form of a field.** `#` is a live cell and `.` a dead one. There
  is one line per column. The parsing constructor reports the first bad
  symbol or the first line of the wrong size as
  `BadGameFieldException(line, pos, reason)`.
- **The game manager** (`GameManager`). It holds:
  - the current field;
  - a snapshot for one level of undo;
  - a step counter;
  - a table of text commands.

  Its operations are the neighbour count, the move (Conway's B3/S23 rule
  applied to all cells at once), several moves, the step, toggling a cell,
  undo, the two resets, and registering and executing commands.
- **The `set` command** (`commandSet`). It takes the column and the row as
  decimal arguments (`atoi`).
- **The input event value `InputResult`**: a timeout, a mouse click or a key
  press.
- **Three pure pieces of the curses view.**
  - The `%` escape of the command line (`replace`).
  - The width of the prompt column (`getMaxPromptWidth`).
  - The check whether a field fits the terminal (`canCrateFieldWithSizes`).
    The terminal size is passed as a parameter here.

Modules, one per file:

- `Torus` (torus.dfy): coordinate wrapping.
- `Field` (field.dfy): the matrix, `GameField` and `MutableGameField`.
- `FieldText` (field_text.dfy): the parser and the printer.
- `Life` (life.dfy): the neighbour count, the rule, one step and `n` steps.
- `Manager` (manager.dfy): `GameManager`, `commandSet` and `atoi`.
- `Input` (input_result.dfy): `InputResult`.
- `ViewHelpers` (view_helpers.dfy): the view's pure pieces.
- `Scenarios` (scenarios.dfy): the repository's test cases, stated as lemmas
  and methods over the model.
- `Wrappers` (wrappers.dfy): `Option` and `Result`.

Where the code and its design disagree, the model follows the code as written
and also gives the corrected behaviour (see "## Findings"). In particular,
`Torus.RoundPos` and `Manager.GameManager.NextMoveAsWritten` are what the code
does. `Torus.Wrap` and `Manager.GameManager.NextMove` are what it evidently
means, and the rest of the model uses those.

Some members appear in two revisions of the code. `game_handler.h` declares
`bool setCellAt` and `nextStep`, and records `previousStep`/`hasUndo` for
undo. `game_handler.cpp` shows a `void setCellAt` without the snapshot. The
model follows the header's interface: `SetCellAt` takes the snapshot and
returns whether the cell is now alive, which is what `commandSet` prints. The
bodies of `nextStep`, `stepBack` and both `reset`s are not part of the shown
source. The header documents only part of what they do: `stepBack` cancels
one step and reports whether it could, and both `reset`s reset the step
counter. `nextStep` has no comment at all. The rest of their contracts is the
model's own reading of the members the header declares (`previousStep`,
`hasUndo`, `stepsCounter`), and "## Left out" lists it member by member:

- `nextStep` takes the snapshot, moves and counts the step.
- `stepBack` restores the snapshot once, clears it and takes one off the
  counter when it is non-zero.
- `reset` clears the undo as well as the counter.

## Model

| member | source | states |
|---|---|---|
| Torus.Wrap | game_field.cpp:13-20 | the cyclic position the documentation of `roundPos` promises always lies in `0 .. m-1` |
| Torus.RoundPos | game_field.cpp:21-25 | `roundPos` as written: never negative and at most the modulus, one more than the last index |
| Torus.WrapInRange | game_field.cpp:13-20 | a position already inside the field wraps to itself |
| Torus.WrapPeriodic | game_field.cpp:13-20 | whole turns around the torus in either direction are forgotten |
| Torus.WrapNeighbourSteps | game_field.cpp:13-20 | under the corrected wrap, one left of column 0 is the last column and one right of the last column is column 0; inside the field the neighbours are the adjacent indices |
| Torus.RoundPosNonNegative | game_field.cpp:24 | for `pos >= 0`, `roundPos` is the cyclic position and in range |
| Torus.RoundPosSmallNegative | game_field.cpp:22-23 | for `-m < pos < 0`, `roundPos` is `m + pos`, e.g. -1 is the last index |
| Torus.RoundPosCharacterised | game_field.cpp:21-25 | `roundPos` equals the cyclic position except at negative multiples of `m`, where it is `m` |
| Torus.RoundPosInRangeIff | game_field.cpp:21-25 | `0 <= roundPos(pos, m) < m` holds exactly when `pos` is not a negative multiple of `m` (both directions) |
| Torus.RoundPosOutOfRange | game_field.cpp:21-25 | `roundPos(-10, 10) == 10` and `roundPos(-1, 1) == 1`, one past the last index, where the cyclic position is 0 |
| Field.Blank | game_field.cpp:27-31 | a new field is a `w x h` matrix with every cell dead |
| Field.BlankUnique | game_field.cpp:27-31 | any `w x h` matrix without a live cell is the new field |
| Field.AliveOnTorus | game_field.h:76-84 | reads through `[x][y]` see a torus: shifting by whole turns reaches the same cell, and in-range coordinates address the cell directly |
| Field.Put | game_field.cpp:76-82 | writing a wrapped cell sets that cell to the value and leaves every other cell as it was |
| Field.PutIdempotent | game_field.cpp:76-82 | `bornLife`/`kill` twice is once; writing the value a cell already has changes nothing |
| Field.Toggle | game_handler.cpp:61-67 | the flip of `setCellAt` inverts the wrapped cell and leaves every other cell as it was |
| Field.ToggleInvolution | game_handler.h:127-131 | flipping the same cell twice restores the field |
| Field.GameField.constructor | game_field.cpp:27-31 | `GameField(width, height)`: the given dimensions and all cells dead |
| Field.GameField.Copy | game_field.h:32-33 | the copy constructor: the same dimensions and cells, equal under `operator==` |
| Field.GameField.CopyFrom | game_field.h:52 | `operator=`: takes over the other field's dimensions and cells, itself included |
| Field.GameField.IsLife | game_field.cpp:46-52 | `field[x][y].isLife()` reads the wrapped cell; an in-range position reads its own cell |
| Field.GameField.Equals | game_field.h:54 | `operator==`: fields of the same dimensions and cells are equal (the converse is `EqualsIffSameContents`) |
| Field.GameField.EqualsIffSameContents | game_field.h:54 | `operator==` holds exactly for equal dimensions and equal matrices (both directions), and every field equals itself |
| Field.GameField.BornLife | game_field.h:107 | `field[x][y].bornLife()` makes the wrapped cell alive and changes nothing else |
| Field.GameField.Kill | game_field.h:109 | `field[x][y].kill()` makes the wrapped cell dead and changes nothing else |
| Field.GameField.Edit | game_field.cpp:42-44 | `edit()` gives a new draft holding the field's cells and referring back to the field |
| Field.MutableGameField.constructor | game_field.cpp:42-44 | a draft starts as a copy of its original's cells |
| Field.MutableGameField.IsLife | game_field.cpp:66-74 | a read through the draft sees the draft's own cells, wrapped by the original's dimensions; an in-range position reads its own cell |
| Field.MutableGameField.BornLife | game_field.cpp:66-78 | a draft write makes the wrapped cell alive in the draft only; the original is untouched |
| Field.MutableGameField.Kill | game_field.cpp:66-82 | a draft write makes the wrapped cell dead in the draft only; the original is untouched |
| Field.MutableGameField.Apply | game_field.cpp:62-64 | `apply()` copies the draft's cells over the original's; dimensions and the draft are unchanged |
| FieldText.ParseRow | game_field.h:35-42 | a line that parses yields one cell per `#` or `.`; a line that does not is refused at its own line number, at the position of a character that is neither a cell, a space nor a carriage return, and that character is the reported symbol |
| FieldText.ParseRows | game_field.h:35-42 | a refusal names one of the given lines; an unknown symbol is a forbidden character of that line; a size mismatch reports two different sizes, at the position of the row's length |
| FieldText.Parse | game_field.h:35-42 | `GameField(text)` refuses at a line of the text, and an unknown symbol is never `#`, `.`, a newline, a space or a carriage return |
| FieldText.Serialize | game_field.h:65-70 | `operator<<` writes nothing but `#`, `.` and newlines |
| FieldText.ParseAccepts | game_field.h:35-42 | a text parses exactly when it holds only `#`, `.`, newlines, spaces and carriage returns and all lines have the same cell count; the result has one column per line |
| FieldText.ParseRowsAccepts | game_field.h:35-42 | the lines parse exactly when every line holds permitted characters and has the expected cell count; the result is a matrix |
| FieldText.ParseRowsColumns | game_field.h:35-42 | column `i` of a parsed field is the parse of line `i` |
| FieldText.ParseRowText | game_field.h:65-70 | parsing a printed column gives the column back |
| FieldText.RowTextOfParse | game_field.h:65-70 | a line of `#` and `.` parses, and printing the result gives the line back |
| FieldText.JoinSplit | game_field.h:35-42 | cutting a text at newlines loses nothing |
| FieldText.SplitJoin | game_field.h:65-70 | newline-free lines printed with newlines between them are cut back into the same lines |
| FieldText.SerializeThenParse | game_field.h:65-70 | `GameField(text of field)` gives the field back, for every field with no empty column or no columns at all |
| FieldText.ParseThenSerialize | game_field.h:35-42 | a text in printed form parses, and printing the field gives the text back |
| Life.CountAround | game_handler.h:162-167 | the number of live cells around a cell is at most 8 |
| Life.NextState | game_handler.cpp:11-18 | the rule's branches: a cell alive after the move has 2 or 3 neighbours, and a cell born has 3 |
| Life.NextStateIsB3S23 | game_handler.cpp:11-18 | the branches of the move are the B3/S23 rule: alive next exactly with 3 neighbours, or with 2 when alive now |
| Life.Step | game_handler.cpp:42-54 | one move keeps the dimensions of the field |
| Life.StepAt | game_handler.cpp:46-51 | each new cell is the rule applied to the old cell and its count in the old field |
| Life.CountAroundIndices | game_handler.cpp:20-40 | for a cell in the field, the count is over the neighbour columns and rows, with the opposite edge standing in at an edge |
| Life.CountAroundSurrounded | assignment4-tests/testCountLife.cpp:6-19 | any cell of the torus, on a field of any size, whose eight wrapped neighbour positions are alive has count 8 |
| Life.CountAroundSurroundedInside | assignment4-tests/testCountLife.cpp:6-19 | a cell inside the field whose eight stored neighbours are alive has count 8 |
| Life.Generations | game_handler.cpp:56-59 | `n` moves keep the dimensions of the field |
| Life.GenerationsAdd | game_handler.cpp:56-59 | `a` moves followed by `b` moves are `a + b` moves |
| Life.LoneCellDies | tests/test_game_handler.cpp:124 | a lone live cell on a field at least 3 x 3 dies, and nothing is born |
| Life.BlankIsStill | game_handler.cpp:42-54 | the empty field stays empty |
| Input.Timeout | game_handler.h:24 | `InputResult()` is timed out, not a key event and has key 0, whatever its unset members hold |
| Input.Mouse | game_handler.h:29-30 | `InputResult(x, y)` is a click: not timed out, not a key event, position `(x, y)`, key 0 |
| Input.Key | game_handler.h:35 | `InputResult(key)` is a key event with that key, at position `(0, 0)` |
| Input.InputResult.GetKey | game_handler.h:37 | a non-zero key comes only from a key event, and is its key |
| Input.InputResult.GetPosX | game_handler.h:39 | a non-zero column comes only from an event that is not a key press, and is its column |
| Input.InputResult.GetPosY | game_handler.h:41 | a non-zero row comes only from an event that is not a key press, and is its row |
| Input.InputResult.IsTimedOut | game_handler.h:43 | a timed-out event is never a key event |
| Input.InputResult.IsKeyboard | game_handler.h:45 | a key event has not timed out |
| Input.ConstructedEventsAreDetermined | game_handler.h:37-45 | the getters of a click or key press depend only on the constructor's arguments, and the three kinds are told apart |
| Manager.GameManager.constructor | game_handler.h:114 | `GameManager(width, height)`: a blank field of that size, step 0, no undo, no commands |
| Manager.GameManager.FromField | game_handler.h:116-121 | `GameManager(field)`: a copy of the field with its dimensions and an empty `0 x 0` snapshot |
| Manager.GameManager.CountLifeAround | game_handler.cpp:20-40 | the two side cells and the rows above and below add up to the rule's neighbour count in the current field |
| Manager.GameManager.ComputeDraft | game_handler.cpp:42-53 | after the loops of `nextMove` the draft holds the next generation of the field, computed from the field alone |
| Manager.GameManager.VisitColumn | game_handler.cpp:45-52 | the inner loop over column `i` brings that whole column of the draft to the next generation and leaves the other columns alone |
| Manager.GameManager.VisitCell | game_handler.cpp:46-51 | one pass of the inner loop writes the rule's value for that cell into the draft and nothing else |
| Manager.GameManager.NextMoveAsWritten | game_handler.cpp:42-54 | `nextMove` as written leaves the field, the snapshot and the manager unchanged |
| Manager.GameManager.NextMove | game_handler.cpp:42-54 | the corrected `nextMove` replaces the field by its next generation and changes nothing else |
| Manager.GameManager.ManyMoves | game_handler.cpp:56-59 | `manyMoves(count)` leaves the `count`-th generation of the field |
| Manager.GameManager.NextStep | game_handler.h:125 | `nextStep` snapshots the field, moves it to the next generation, adds one step and allows one undo |
| Manager.GameManager.SetCellAt | game_handler.h:127-131 | `setCellAt` snapshots the field and flips the wrapped cell. It returns the new state of the cell, allows one undo and keeps the step counter |
| Manager.GameManager.StepBack | game_handler.h:144-150 | with a snapshot, `stepBack` restores it, uses it up, takes one step off the counter and returns true; without one it returns false and changes nothing |
| Manager.GameManager.Reset | game_handler.h:133-137 | `reset(width, height)`: a blank field of the new size, step 0, no undo |
| Manager.GameManager.ResetTo | game_handler.h:139-142 | `reset(field)`: the given field and its dimensions, step 0, no undo |
| Manager.GameManager.RegisterCommand | game_handler.h:152-160 | `registerCommand(name, cmd)` maps `name` to `cmd` and changes nothing else; in the model a later registration replaces an earlier one |
| Manager.GameManager.ExecuteCommand | game_handler.h:216-225 | `executeCommand` returns true exactly when a handler is registered under `name`; it then has that handler's effect, output and undo snapshot, and otherwise changes nothing |
| Manager.Atoi | assignment4-tests/testCommandSet.cpp:15-16 | `atoi` of a string without any digit is 0 |
| Manager.AtoiDecimal | assignment4-tests/testCommandSet.cpp:15-16 | `atoi` reads back every decimal numeral, with or without a minus sign |
| Manager.SetEffect | assignment4-tests/testCommandSet.cpp:11-18 | `set` with two arguments flips the cell they name, and with any other number of arguments leaves the field alone |
| Manager.CommandSet | assignment4-tests/testCommandSet.cpp:8-20 | `commandSet` prints the usage line and changes nothing unless it has exactly two arguments; with two it flips the cell, prints `Cell spawned.` or `Cell killed.` by the cell's new state, keeps the step counter and snapshots the old field for one undo |
| ViewHelpers.Find | view_handler.cpp:110-112 | an occurrence `find` reports lies at or after the start and fits inside the string |
| ViewHelpers.FindIsFirstOccurrence | view_handler.cpp:110-112 | `find` reports an occurrence, the first one at or after the start, and `npos` exactly when there is none |
| ViewHelpers.StrReplace | view_handler.cpp:113 | `std::string::replace` fails exactly for a position past the end, and otherwise splices in the replacement |
| ViewHelpers.Replace | view_handler.cpp:104-117 | the `while (true)` loop of `replace` ends with the result of searching the original string and splicing into the result |
| ViewHelpers.ReplaceLoop | view_handler.cpp:104-117 | the as-written loop never shortens the text when the replacement is at least as long as what it replaces |
| ViewHelpers.ReplaceWithoutOccurrence | view_handler.cpp:104-117 | with no occurrence, `replace` returns its input |
| ViewHelpers.ReplaceSingleOccurrence | view_handler.cpp:104-117 | with exactly one occurrence, `replace` splices the replacement in there |
| ViewHelpers.EscapeTwoPercentsAsWritten | view_handler.cpp:104-122 | the command-line escape as written turns `%%` into `%%%` |
| ViewHelpers.UnescapeCommandLineText | view_handler.cpp:119-122 | the corrected escape doubles every `%`, so the command line prints exactly the command's output |
| ViewHelpers.EscapeTwoPercents | view_handler.cpp:119-122 | the corrected escape turns `%%` into `%%%%` |
| ViewHelpers.LongestPrompt | view_handler.cpp:179-183 | the longest prompt's length bounds every prompt and is attained by one, 0 for none |
| ViewHelpers.MaxPromptWidth | view_handler.cpp:179-186 | `getMaxPromptWidth()` is the longest prompt plus 2: at least every prompt plus 2 and equal to one of them plus 2 |
| ViewHelpers.PromptColumnWidth | view_handler.h:14-15 | with the five prompts of the view the prompt column is 16 wide |
| ViewHelpers.CanCreateFieldWithSizes | view_handler.cpp:188-202 | a field that fits has no zero dimension and, with its border, is no larger than the terminal |
| ViewHelpers.CanCreateFieldWithSizesIff | view_handler.cpp:188-202 | a field fits exactly when neither dimension is 0, the terminal is at least 18 columns wider, and 4 lines taller than the field or than the 7-line prompt column, whichever is taller |
| ViewHelpers.CanCreateFieldWithSizesMonotone | view_handler.cpp:188-202 | a field that fits still fits with fewer columns or lines, none of them zero |
| Scenarios.FieldOverflow | tests/test_game_field.cpp:32-77 | on a new 10 x 10 field all ten cells the test reads at -1, 0, 9 and 10 are dead; after its six writes at -1 and 10 all ten read alive, at -1 and 10 as at 9 and 0 |
| Scenarios.HorizontalBecomesVertical | tests/test_game_handler.cpp:123 | the step test's blinker `.#..`/`.#..`/`.#..` turns into `....`/`###.`/`....` on any field at least 5 x 5 |
| Scenarios.VerticalBecomesHorizontal | tests/test_game_handler.cpp:123 | and back |
| Scenarios.BlinkerOscillates | tests/test_game_handler.cpp:123 | the blinker returns after two moves and differs after one |
| Scenarios.LoneCellUnderNextMoveAsWritten | tests/test_game_handler.cpp:124 | `nextMove` as written leaves a lone cell alive although the rule clears the field |
| Scenarios.LoneCellUnderNextMove | tests/test_game_handler.cpp:124 | with the draft applied a lone cell's move gives the empty field, as the test expects |
| Scenarios.UndoOneLevel | tests/test_game_handler.cpp:151-173 | a new manager cannot step back; after a toggle it can exactly once, and the field is blank again |
| Scenarios.ResetAfterToggles | tests/test_game_handler.cpp:134-149 | after toggles, `reset` to the same size gives the blank field and nothing to undo |
| Scenarios.CommandSetScenarios | assignment4-tests/testCommandSet.cpp:57-95 | `set 3 3` brings (3,3) to life, and a step back after it restores the blank field with the counter at 0; `set 2 6` brings column 2, row 6 to life and not (6,2); three or one argument change nothing |
| Scenarios.ParseForeignSymbol | tests/test_game_handler.cpp:108-113 | the model refuses `a` at line 0, position 0, as an unknown symbol; the test requires only a refusal |
| Scenarios.ParseForeignSymbolInSecondLine | tests/test_game_handler.cpp:108-113 | the model refuses `##\nbc\n##` at line 1, position 0, for the symbol `b`; the test requires only a refusal |
| Scenarios.ParseUnevenRows | tests/test_game_handler.cpp:115-120 | the model refuses `##\n#` at line 1, position 1, as a row of 1 cell where 2 were expected; the test requires only a refusal |
| Scenarios.ParseEmptySecondLine | tests/test_game_handler.cpp:115-120 | the model refuses `.\n\n\n` at line 1 as an empty row where 1 cell was expected, since in the model empty lines count and the final newline does not; the test requires only a refusal |

## Left out

- Curses drawing, keyboard and mouse input, `waitForInput` and its timeout, the cursor, `runGame`, `main` and the command mode loop are I/O and are not modelled.
- Listener and view notifications (`onUpdate`, `updateCommandLine` drawing) are calls into the view and are not modelled.
- The `reset`, `step`, `back`, `save` and `load` command handlers are not modelled. Their bodies are not part of the shown source. The handler table holds the one handler whose body is shown, `set`. Registration in the constructor is not modelled either.
- File saving and loading are I/O and are not modelled.
- `GameManager::canCreateFieldWithSizes` is not modelled as a member. It asks the view, and the view's check is modelled as `ViewHelpers.CanCreateFieldWithSizes`, with the terminal size as parameters.
- Integer widths are not modelled: `size_t` and `int` overflow, and the `int` cast of the width in `roundPos`. Coordinates are unbounded integers and dimensions are naturals.
- A zero dimension is excluded by `requires` only where the source reduces a coordinate modulo it: `Torus.RoundPos`, `Torus.Wrap`, cell reads and writes, `CountLifeAround`, `SetCellAt`, and `set` with two arguments (`Manager.CommandSet`, and `ExecuteCommand` for a registered name). The move (`ComputeDraft`, `NextMove`, `ManyMoves`, `NextStep`) accepts a zero dimension, on which its loops do not run.
- Manager.GameManager.NextStep: the header gives `nextStep` no comment. That it snapshots the field, allows one undo and adds one to `stepsCounter` is the model's reading of the declared members, not documented behaviour.
- Manager.GameManager.StepBack: the header promises one cancelled step and the result. Taking one off `stepsCounter` and using up the snapshot are the model's reading, not documented behaviour.
- Manager.GameManager.Reset: the header promises a cleared field of the new size and a reset counter. Clearing the undo is the model's reading, not documented behaviour.
- Manager.GameManager.ResetTo: the header promises the new field and a reset counter. Clearing the undo is the model's reading, not documented behaviour.
- Heap ownership of the field's vector (`new`/`delete`) is not modelled: a field owns its matrix as a value.
- `InputResult::operator=` is not modelled as a member: the datatype is copied by value.
- The members that `InputResult`'s constructors leave uninitialised are taken as parameters of `Input.Timeout`, `Input.Mouse` and `Input.Key`.
- `BadGameFieldException::what()` message text is not modelled. The exception carries the line, the position and a structured reason.
- The bodies of the parsing constructor and of `operator<<` are not part of the shown source. Their documentation fixes only `#` for a live cell and `.` for a dead one, and the parse tests require only that a foreign symbol or a row of the wrong size is refused. Everything else in `FieldText` is the model's own reading of the missing bodies, listed on the next two lines.
- FieldText.ParseRow: the model skips spaces and carriage returns (so `# #` is a row of two cells), reports a foreign symbol at its raw character index in the line, and carries the symbol in the reason. A parser that refuses every other character, or counts positions differently, is not excluded by the source.
- FieldText.ParseRows: the model takes one line per column, drops a final empty piece after the last newline, refuses a row whose cell count differs from the first row's at the position equal to that row's cell count, and numbers lines from 0. These conventions are the model's reading, not documented behaviour.
- Manager.GameManager.RegisterCommand: the body is not part of the shown source. A later registration of the same name replaces the earlier one, as `std::map::operator[]` would; an `insert` would keep the first handler instead.
- FieldText.SerializeThenParse: does not cover a field of `w > 0` columns of height 0. Its text is `w - 1` newlines, which parses to fewer columns.
- Life.CountAroundSurrounded: the test in assignment4-tests/testCountLife.cpp flips `(2,2)` a second time before counting and still expects 8. That holds only for a revision whose `countLifeAround` reads the snapshot. `countLifeAround` in game_handler.cpp:20-40 reads the current field, where that cell is dead again. So the model states the count-8 property for a full ring, at every cell of every field, instead of replaying that test.
- Manager.GameManager.ManyMoves: repeats the corrected `NextMove`. With the as-written move it would change nothing.
- ViewHelpers.Replace: requires a non-empty replacement whenever the searched text occurs. With an empty replacement the source loops for ever. `std::out_of_range` from `std::string::replace` is modelled as `None`.
- The test assignment4-tests/testSetCellAt.cpp calls `setCellAt` as a static function and compares with undeclared `True`/`False`. It expresses no property that can be stated, beyond the flip `SetCellAt` states.

## Findings

| source | as written | input that shows it | evidently intended | confidence | as-written member | corrected member |
|---|---|---|---|---|---|---|
| game_field.cpp:21-25 | for `pos < 0`, `roundPos` returns `module - (-pos) % module` | `roundPos(-10, 10) == 10` (and `roundPos(-1, 1) == 1`), one past the last index, so `field[-10][0]` reads outside the vector | the cyclic position `0 <= r < module`, documented as the position "considering loop" | high; not executed | Torus.RoundPosOutOfRange | Torus.Wrap |
| game_handler.cpp:42-54 | `nextMove` writes the next generation into a draft from `edit()` and never calls `apply()`, so the draft is dropped | a 10 x 10 field with one live cell: after `nextMove` the cell is still alive, while the rule (and the step test `#` to `.`) clears it | call `modifiable.apply()` after the loops, as `setCellAt` does | high; not executed | Scenarios.LoneCellUnderNextMoveAsWritten | Manager.GameManager.NextMove |
| view_handler.cpp:104-117 | `replace` looks for the next occurrence in the original `str` but splices into `result` at that index, then skips `repl.size()` | `replace("%%", "%", "%%")` gives `%%%`, which `printw` does not print as `%%` | every `%` doubled (`%%%%`), so that the output prints literally | high; not executed | ViewHelpers.EscapeTwoPercentsAsWritten | ViewHelpers.UnescapeCommandLineText |
