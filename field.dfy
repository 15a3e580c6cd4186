/**
 * The game field (game_field.h, game_field.cpp): a `width x height` boolean
 * matrix stored as `width` columns of `height` cells, `cells[x][y]`, with every
 * coordinate reduced cyclically so that the field is a torus.
 *
 * Writes reach a field in two ways: directly through a cell of the field
 * (`GameField.BornLife`/`Kill`), or through a draft copy obtained from `Edit`
 * (`MutableGameField`), whose writes become visible only on `Apply`.
 */
module Field {
  import opened Torus

  type Matrix = seq<seq<bool>>

  /** `m` has `w` columns of `h` cells each. */
  predicate IsMatrix(m: Matrix, w: nat, h: nat)
  {
    |m| == w && forall x :: 0 <= x < w ==> |m[x]| == h
  }

  /** Every cell of `m` is dead. */
  predicate AllDead(m: Matrix)
  {
    forall x, y :: 0 <= x < |m| && 0 <= y < |m[x]| ==> !m[x][y]
  }

  /** The contents of a freshly constructed `w x h` field. */
  function Blank(w: nat, h: nat): (m: Matrix)
    ensures IsMatrix(m, w, h) && AllDead(m)
  {
    seq(w, _ => seq(h, _ => false))
  }

  /** A `w x h` matrix with no live cell is the blank one. */
  lemma BlankUnique(m: Matrix, w: nat, h: nat)
    requires IsMatrix(m, w, h) && AllDead(m)
    ensures m == Blank(w, h)
  {
    var b := Blank(w, h);
    forall x | 0 <= x < w ensures m[x] == b[x] {
      assert forall y :: 0 <= y < h ==> m[x][y] == b[x][y];
    }
  }

  /** The state of the cell at `(x, y)`, both coordinates wrapped. */
  function Alive(m: Matrix, w: nat, h: nat, x: int, y: int): (r: bool)
    requires IsMatrix(m, w, h) && w > 0 && h > 0
  {
    m[Wrap(x, w)][Wrap(y, h)]
  }

  /** Reads see a torus: whole turns in either direction reach the same cell, and
      a coordinate already in range addresses that cell directly. */
  lemma {:induction false} AliveOnTorus(m: Matrix, w: nat, h: nat, x: int, y: int, kx: int, ky: int)
    requires IsMatrix(m, w, h) && w > 0 && h > 0
    ensures Alive(m, w, h, x + kx * w, y + ky * h) == Alive(m, w, h, x, y)
    ensures 0 <= x < w && 0 <= y < h ==> Alive(m, w, h, x, y) == m[x][y]
  {
    WrapPeriodic(x, kx, w);
    WrapPeriodic(y, ky, h);
    assert Wrap(x + kx * w, w) == Wrap(x, w) && Wrap(y + ky * h, h) == Wrap(y, h);
    if 0 <= x < w && 0 <= y < h {
      WrapInRange(x, w);
      WrapInRange(y, h);
    }
  }

  /** `m` with the wrapped cell `(x, y)` set to `v`. */
  function Put(m: Matrix, w: nat, h: nat, x: int, y: int, v: bool): (r: Matrix)
    requires IsMatrix(m, w, h) && w > 0 && h > 0
    ensures IsMatrix(r, w, h)
    ensures Alive(r, w, h, x, y) == v
    ensures forall i, j :: 0 <= i < w && 0 <= j < h && (i != Wrap(x, w) || j != Wrap(y, h)) ==> r[i][j] == m[i][j]
  {
    var wx, wy := Wrap(x, w), Wrap(y, h);
    m[wx := m[wx][wy := v]]
  }

  /** Writing the same value twice is writing it once; writing the value a cell
      already has changes nothing. */
  lemma PutIdempotent(m: Matrix, w: nat, h: nat, x: int, y: int, v: bool)
    requires IsMatrix(m, w, h) && w > 0 && h > 0
    ensures Put(Put(m, w, h, x, y, v), w, h, x, y, v) == Put(m, w, h, x, y, v)
    ensures Alive(m, w, h, x, y) == v ==> Put(m, w, h, x, y, v) == m
  {
    var wx, wy := Wrap(x, w), Wrap(y, h);
    var once := Put(m, w, h, x, y, v);
    assert once[wx][wy := v] == once[wx];
    assert m[wx][wy := m[wx][wy]] == m[wx];
  }

  /** `m` with the wrapped cell `(x, y)` flipped. */
  function Toggle(m: Matrix, w: nat, h: nat, x: int, y: int): (r: Matrix)
    requires IsMatrix(m, w, h) && w > 0 && h > 0
    ensures IsMatrix(r, w, h)
    ensures Alive(r, w, h, x, y) == !Alive(m, w, h, x, y)
    ensures forall i, j :: 0 <= i < w && 0 <= j < h && (i != Wrap(x, w) || j != Wrap(y, h)) ==> r[i][j] == m[i][j]
  {
    Put(m, w, h, x, y, !Alive(m, w, h, x, y))
  }

  /** Toggling the same cell twice restores the field. */
  lemma {:induction false} ToggleInvolution(m: Matrix, w: nat, h: nat, x: int, y: int)
    requires IsMatrix(m, w, h) && w > 0 && h > 0
    ensures Toggle(Toggle(m, w, h, x, y), w, h, x, y) == m
  {
    var t := Toggle(Toggle(m, w, h, x, y), w, h, x, y);
    forall i | 0 <= i < w ensures t[i] == m[i] {
      assert forall j :: 0 <= j < h ==> t[i][j] == m[i][j];
    }
  }

  /** A game field. `width` and `height` are `var`s because assignment
      (`operator=`, `CopyFrom`) replaces them together with the cells. */
  class GameField {
    var width: nat
    var height: nat
    var cells: Matrix

    ghost predicate Valid()
      reads this
    {
      IsMatrix(cells, width, height)
    }

    /** `GameField(width, height)`: `width` columns of `height` dead cells,
        built column by column. */
    constructor (w: nat, h: nat)
      ensures Valid() && width == w && height == h && cells == Blank(w, h)
    {
      width, height := w, h;
      var columns: Matrix := [];
      for i := 0 to w
        invariant IsMatrix(columns, i, h) && AllDead(columns)
      {
        columns := columns + [seq(h, _ => false)];
      }
      BlankUnique(columns, w, h);
      cells := columns;
    }

    /** The copy constructor: same dimensions, same cells, and a separate object,
        so later writes to either leave the other alone. */
    constructor Copy(other: GameField)
      requires other.Valid()
      ensures Valid() && Equals(other) && cells == other.cells
    {
      width, height, cells := other.width, other.height, other.cells;
    }

    /** `operator=`: take over the other field's dimensions and cells. */
    method CopyFrom(other: GameField)
      requires other.Valid()
      modifies this
      ensures Valid() && width == old(other.width) && height == old(other.height) && cells == old(other.cells)
    {
      width, height, cells := other.width, other.height, other.cells;
    }

    /** `operator==`: same dimensions and every cell equal. */
    predicate Equals(other: GameField)
      reads this, other
      requires Valid() && other.Valid()
      ensures width == other.width && height == other.height && cells == other.cells ==> Equals(other)
    {
      && width == other.width && height == other.height
      && forall x, y :: 0 <= x < width && 0 <= y < height ==> cells[x][y] == other.cells[x][y]
    }

    /** For valid fields, `operator==` compares exactly the dimensions and the
        stored matrix; in particular every field equals itself. */
    lemma EqualsIffSameContents(other: GameField)
      requires Valid() && other.Valid()
      ensures Equals(other) <==> width == other.width && height == other.height && cells == other.cells
      ensures Equals(this)
    {
      if Equals(other) {
        forall x | 0 <= x < width ensures cells[x] == other.cells[x] {
          assert forall y :: 0 <= y < height ==> cells[x][y] == other.cells[x][y];
        }
      }
    }

    /** `field[x][y].isLife()`: the wrapped cell. A zero dimension divides by zero
        in the source, so it is excluded. */
    function IsLife(x: int, y: int): (r: bool)
      reads this
      requires Valid() && width > 0 && height > 0
      ensures 0 <= x < width && 0 <= y < height ==> r == cells[x][y]
    {
      AliveOnTorus(cells, width, height, x, y, 0, 0);
      Alive(cells, width, height, x, y)
    }

    /** `field[x][y].bornLife()`: writes the wrapped cell in place. */
    method BornLife(x: int, y: int)
      requires Valid() && width > 0 && height > 0
      modifies this
      ensures Valid() && width == old(width) && height == old(height)
      ensures cells == Put(old(cells), width, height, x, y, true)
    {
      var wx, wy := Wrap(x, width), Wrap(y, height);
      cells := cells[wx := cells[wx][wy := true]];
    }

    /** `field[x][y].kill()`: clears the wrapped cell in place. */
    method Kill(x: int, y: int)
      requires Valid() && width > 0 && height > 0
      modifies this
      ensures Valid() && width == old(width) && height == old(height)
      ensures cells == Put(old(cells), width, height, x, y, false)
    {
      var wx, wy := Wrap(x, width), Wrap(y, height);
      cells := cells[wx := cells[wx][wy := false]];
    }

    /** `edit()`: a draft holding a private copy of the cells and a reference back
        to this field. */
    method Edit() returns (draft: MutableGameField)
      requires Valid()
      ensures fresh(draft) && draft.Valid() && draft.original == this && draft.cells == cells
    {
      draft := new MutableGameField(this);
    }
  }

  /** `MutableGameField`: a draft copy of a field's cells. Writes go to the draft;
      `Apply` copies the draft's matrix over the original's. */
  class MutableGameField {
    const original: GameField
    var cells: Matrix

    /** The draft has the shape of its original (whose dimensions drive wrapping). */
    ghost predicate Valid()
      reads this, original
    {
      original.Valid() && IsMatrix(cells, original.width, original.height)
    }

    constructor (field: GameField)
      requires field.Valid()
      ensures Valid() && original == field && cells == field.cells
    {
      original := field;
      cells := field.cells;
    }

    /** A read through the draft, wrapped by the original's dimensions. */
    function IsLife(x: int, y: int): (r: bool)
      reads this, original
      requires Valid() && original.width > 0 && original.height > 0
      ensures 0 <= x < original.width && 0 <= y < original.height ==> r == cells[x][y]
    {
      AliveOnTorus(cells, original.width, original.height, x, y, 0, 0);
      Alive(cells, original.width, original.height, x, y)
    }

    /** `modifiable[x][y].bornLife()`: changes the draft only. */
    method BornLife(x: int, y: int)
      requires Valid() && original.width > 0 && original.height > 0
      modifies this
      ensures Valid() && unchanged(original)
      ensures cells == Put(old(cells), original.width, original.height, x, y, true)
    {
      var wx, wy := Wrap(x, original.width), Wrap(y, original.height);
      cells := cells[wx := cells[wx][wy := true]];
    }

    /** `modifiable[x][y].kill()`: changes the draft only. */
    method Kill(x: int, y: int)
      requires Valid() && original.width > 0 && original.height > 0
      modifies this
      ensures Valid() && unchanged(original)
      ensures cells == Put(old(cells), original.width, original.height, x, y, false)
    {
      var wx, wy := Wrap(x, original.width), Wrap(y, original.height);
      cells := cells[wx := cells[wx][wy := false]];
    }

    /** `apply()`: the original's cells become the draft's; its dimensions and the
        draft stay as they were, so applying again changes nothing more. */
    method Apply()
      requires Valid()
      modifies original
      ensures Valid() && unchanged(this)
      ensures original.cells == cells
      ensures original.width == old(original.width) && original.height == old(original.height)
    {
      original.cells := cells;
    }
  }
}
