/**
 * Conway's rule on the toroidal field (game_handler.cpp): the neighbour count
 * and the synchronous step, as functions of the field before the step.
 */
module Life {
  import opened Torus
  import opened Field

  /** Live neighbours a dead cell needs to come alive. */
  const BORN_LIFE: nat := 3
  /** Fewest live neighbours a live cell needs to stay alive. */
  const DEATH_LONELINESS: nat := 2
  /** Most live neighbours a live cell may have to stay alive. */
  const DEATH_OVERPOPULATION: nat := 3

  function Bit(b: bool): (r: nat) { if b then 1 else 0 }

  /** The live cells among the eight wrapped positions around `(x, y)`, the
      centre excluded. On a field narrower or lower than 3 one cell can occupy
      several of those positions and is counted once per position. */
  function CountAround(m: Matrix, w: nat, h: nat, x: int, y: int): (n: nat)
    requires IsMatrix(m, w, h) && w > 0 && h > 0
    ensures n <= 8
  {
    Bit(Alive(m, w, h, x - 1, y - 1)) + Bit(Alive(m, w, h, x, y - 1)) + Bit(Alive(m, w, h, x + 1, y - 1)) +
    Bit(Alive(m, w, h, x - 1, y))                                     + Bit(Alive(m, w, h, x + 1, y)) +
    Bit(Alive(m, w, h, x - 1, y + 1)) + Bit(Alive(m, w, h, x, y + 1)) + Bit(Alive(m, w, h, x + 1, y + 1))
  }

  /** The state of a cell after one step, from its state and its count, written
      as the source's branches: a live cell with too few or too many neighbours
      dies, a dead cell with exactly `BORN_LIFE` is born, any other keeps its
      state. */
  function NextState(alive: bool, n: nat): (r: bool)
    ensures r ==> n == 2 || n == 3
    ensures r && !alive ==> n == 3
  {
    if alive && (n < DEATH_LONELINESS || n > DEATH_OVERPOPULATION) then false
    else if !alive && n == BORN_LIFE then true
    else alive
  }

  /** The branches amount to the B3/S23 rule: alive next exactly with three
      neighbours, or with two when alive now. */
  lemma NextStateIsB3S23(alive: bool, n: nat)
    ensures NextState(alive, n) <==> n == 3 || (alive && n == 2)
  {
  }

  /** One synchronous step: every new cell is computed from the old field only. */
  function Step(m: Matrix, w: nat, h: nat): (r: Matrix)
    requires IsMatrix(m, w, h)
    ensures IsMatrix(r, w, h)
  {
    seq(w, x requires 0 <= x < w => StepColumn(m, w, h, x))
  }

  /** Column `x` after the step. */
  function StepColumn(m: Matrix, w: nat, h: nat, x: nat): (c: seq<bool>)
    requires IsMatrix(m, w, h) && x < w
    ensures |c| == h
  {
    seq(h, y requires 0 <= y < h => NextState(m[x][y], CountAround(m, w, h, x, y)))
  }

  /** The count with the wrap spelled out for a position inside the field: the
      neighbour columns and rows of an edge cell are those of the opposite edge. */
  lemma CountAroundIndices(m: Matrix, w: nat, h: nat, x: nat, y: nat)
    requires IsMatrix(m, w, h) && x < w && y < h
    ensures var xl, xr := Prev(x, w), Next(x, w);
            var yl, yr := Prev(y, h), Next(y, h);
            CountAround(m, w, h, x, y) ==
              Bit(m[xl][yl]) + Bit(m[x][yl]) + Bit(m[xr][yl]) +
              Bit(m[xl][y])                  + Bit(m[xr][y]) +
              Bit(m[xl][yr]) + Bit(m[x][yr]) + Bit(m[xr][yr])
  {
    WrapNeighbourSteps(x, w);
    WrapNeighbourSteps(y, h);
    WrapInRange(x, w);
    WrapInRange(y, h);
  }

  /** Any cell of the torus whose eight wrapped neighbour positions are all
      alive has count 8, whatever the size of the field and wherever the cell. */
  lemma {:induction false} CountAroundSurrounded(m: Matrix, w: nat, h: nat, x: int, y: int)
    requires IsMatrix(m, w, h) && w > 0 && h > 0
    requires forall i, j | x - 1 <= i <= x + 1 && y - 1 <= j <= y + 1 && (i != x || j != y) :: Alive(m, w, h, i, j)
    ensures CountAround(m, w, h, x, y) == 8
  {
    assert Alive(m, w, h, x - 1, y - 1) && Alive(m, w, h, x, y - 1) && Alive(m, w, h, x + 1, y - 1);
    assert Alive(m, w, h, x - 1, y) && Alive(m, w, h, x + 1, y);
    assert Alive(m, w, h, x - 1, y + 1) && Alive(m, w, h, x, y + 1) && Alive(m, w, h, x + 1, y + 1);
  }

  /** The same for a cell inside the field, with its neighbours given as stored
      cells, as the count test sets them. */
  lemma {:induction false} CountAroundSurroundedInside(m: Matrix, w: nat, h: nat, x: nat, y: nat)
    requires IsMatrix(m, w, h) && 0 < x < w - 1 && 0 < y < h - 1
    requires forall i, j :: x - 1 <= i <= x + 1 && y - 1 <= j <= y + 1 && (i != x || j != y) ==> m[i][j]
    ensures CountAround(m, w, h, x, y) == 8
  {
    forall i, j | x - 1 <= i <= x + 1 && y - 1 <= j <= y + 1 && (i != x || j != y)
      ensures Alive(m, w, h, i, j)
    {
      AliveOnTorus(m, w, h, i, j, 0, 0);
    }
    CountAroundSurrounded(m, w, h, x, y);
  }

  /** The new state of one cell. */
  lemma StepAt(m: Matrix, w: nat, h: nat, x: nat, y: nat)
    requires IsMatrix(m, w, h) && x < w && y < h
    ensures Step(m, w, h)[x][y] == NextState(m[x][y], CountAround(m, w, h, x, y))
  {
    assert Step(m, w, h)[x] == StepColumn(m, w, h, x);
  }

  /** `n` steps in a row. */
  function Generations(m: Matrix, w: nat, h: nat, n: nat): (r: Matrix)
    requires IsMatrix(m, w, h)
    ensures IsMatrix(r, w, h)
  {
    if n == 0 then m else Step(Generations(m, w, h, n - 1), w, h)
  }

  /** Running `a` steps and then `b` more is running `a + b` steps. */
  lemma {:induction false} GenerationsAdd(m: Matrix, w: nat, h: nat, a: nat, b: nat)
    requires IsMatrix(m, w, h)
    ensures Generations(Generations(m, w, h, a), w, h, b) == Generations(m, w, h, a + b)
  {
    if b > 0 {
      GenerationsAdd(m, w, h, a, b - 1);
    }
  }

  // ---------------------------------------------------------------- neighbour positions

  /** On a torus at least 3 wide, positions one or two steps apart differ. */
  lemma {:induction false} NearbyDistinct(p: int, d1: int, d2: int, m: nat)
    requires m >= 3 && -1 <= d1 < d2 <= 1
    ensures Wrap(p + d1, m) != Wrap(p + d2, m)
  {
    var q1, q2 := (p + d1) / m, (p + d2) / m;
    assert p + d1 == m * q1 + Wrap(p + d1, m);
    assert p + d2 == m * q2 + Wrap(p + d2, m);
    MulSign(m, q2 - q1);
    assert m * q2 - m * q1 == m * (q2 - q1);
  }

  lemma MulSign(m: nat, d: int)
    ensures d >= 1 ==> m * d >= m
    ensures d <= 0 ==> m * d <= 0
  {
  }

  /** The count at a dead-field cell next to at most one live cell: a field
      whose only live cell is `(a, b)` gives count 0 at `(a, b)` itself and at
      most 1 anywhere else (on a field at least 3 x 3). */
  lemma {:induction false} CountAroundLoneCell(w: nat, h: nat, a: nat, b: nat, x: nat, y: nat)
    requires w >= 3 && h >= 3 && a < w && b < h && x < w && y < h
    ensures var m := Put(Blank(w, h), w, h, a, b, true);
      CountAround(m, w, h, x, y) <= 1 && (x == a && y == b ==> CountAround(m, w, h, x, y) == 0)
  {
    var m := Put(Blank(w, h), w, h, a, b, true);
    WrapInRange(a, w);
    WrapInRange(b, h);
    forall i, j | 0 <= i < w && 0 <= j < h ensures m[i][j] <==> i == a && j == b {
    }
    WrapInRange(x, w);
    WrapInRange(y, h);
    NearbyDistinct(x, -1, 0, w);
    NearbyDistinct(x, 0, 1, w);
    NearbyDistinct(x, -1, 1, w);
    NearbyDistinct(y, -1, 0, h);
    NearbyDistinct(y, 0, 1, h);
    NearbyDistinct(y, -1, 1, h);
  }

  /** The cell `(x, y)` of the field whose only live cell is `(a, b)` is dead
      after one step. */
  lemma {:induction false} LoneCellNeighbourhoodDies(w: nat, h: nat, a: nat, b: nat, x: nat, y: nat)
    requires w >= 3 && h >= 3 && a < w && b < h && x < w && y < h
    ensures !Step(Put(Blank(w, h), w, h, a, b, true), w, h)[x][y]
  {
    var m := Put(Blank(w, h), w, h, a, b, true);
    CountAroundLoneCell(w, h, a, b, x, y);
    StepAt(m, w, h, x, y);
  }

  /** A single live cell on a field at least 3 x 3 dies, and nothing is born:
      one step later the field is blank. */
  lemma {:induction false} LoneCellDies(w: nat, h: nat, a: nat, b: nat)
    requires w >= 3 && h >= 3 && a < w && b < h
    ensures Step(Put(Blank(w, h), w, h, a, b, true), w, h) == Blank(w, h)
  {
    var r := Step(Put(Blank(w, h), w, h, a, b, true), w, h);
    assert AllDead(r) by {
      forall x, y | 0 <= x < |r| && 0 <= y < |r[x]| ensures !r[x][y] {
        LoneCellNeighbourhoodDies(w, h, a, b, x, y);
      }
    }
    BlankUnique(r, w, h);
  }

  lemma CountAroundBlank(w: nat, h: nat, x: nat, y: nat)
    requires x < w && y < h
    ensures CountAround(Blank(w, h), w, h, x, y) == 0
  {
  }

  lemma BlankCellStaysDead(w: nat, h: nat, x: nat, y: nat)
    requires x < w && y < h
    ensures !Step(Blank(w, h), w, h)[x][y]
  {
    StepAt(Blank(w, h), w, h, x, y);
    CountAroundBlank(w, h, x, y);
  }

  /** The blank field stays blank. */
  lemma BlankIsStill(w: nat, h: nat)
    ensures Step(Blank(w, h), w, h) == Blank(w, h)
  {
    var r := Step(Blank(w, h), w, h);
    assert AllDead(r) by {
      forall x, y | 0 <= x < |r| && 0 <= y < |r[x]| ensures !r[x][y] {
        BlankCellStaysDead(w, h, x, y);
      }
    }
    BlankUnique(r, w, h);
  }
}
