/**
 * Coordinate wrapping of the toroidal field (game_field.cpp, `roundPos`).
 *
 * `RoundPos` is the function exactly as written; `Wrap` is the cyclic index the
 * documentation of `roundPos` promises, and is what the rest of the model uses.
 */
module Torus {

  /** `roundPos(pos, module)` as written: `module - (-pos) % module` for a negative
      position, `pos % module` otherwise. A zero modulus divides by zero in the
      source, so it is excluded. */
  function RoundPos(pos: int, m: nat): (r: int)
    requires m > 0
    ensures 0 <= r <= m
  {
    if pos < 0 then m - (-pos) % m else pos % m
  }

  /** The cyclic position the field's coordinates are meant to be reduced to. */
  function Wrap(pos: int, m: nat): (r: nat)
    requires m > 0
    ensures r < m
  {
    pos % m
  }

  /** Euclidean division is determined by quotient and remainder. */
  lemma {:induction false} ModUnique(a: int, m: nat, k: int, r: int)
    requires m > 0 && 0 <= r < m && a == m * k + r
    ensures a % m == r
  {
    var q, s := a / m, a % m;
    assert a == m * q + s && 0 <= s < m;
    MulCancel(m, k, q, r, s);
  }

  /** Two quotient/remainder decompositions of one number agree. */
  lemma {:induction false} MulCancel(m: nat, k: int, q: int, r: int, s: int)
    requires m > 0 && 0 <= r < m && 0 <= s < m && m * k + r == m * q + s
    ensures r == s
  {
    var d := k - q;
    assert m * d == s - r by {
      assert m * k - m * q == m * (k - q);
    }
  }

  /** A position already in range is its own wrapped position. */
  lemma WrapInRange(pos: int, m: nat)
    requires 0 <= pos < m
    ensures Wrap(pos, m) == pos
  {
  }

  /** Wrapping forgets whole turns around the torus. */
  lemma {:induction false} WrapPeriodic(pos: int, k: int, m: nat)
    requires m > 0
    ensures Wrap(pos + k * m, m) == Wrap(pos, m)
  {
    var q := pos / m;
    assert pos == m * q + pos % m;
    assert pos + k * m == m * (q + k) + pos % m;
    ModUnique(pos + k * m, m, q + k, pos % m);
  }

  /** One step to the left of column 0 is the last column; one step past the last
      column is column 0. */
  /** The neighbour indices of a position inside a dimension of size `n`, with
      the opposite edge beyond either end. */
  function Prev(p: nat, n: nat): (r: nat)
    requires p < n
    ensures r < n
  {
    if p == 0 then n - 1 else p - 1
  }

  function Next(p: nat, n: nat): (r: nat)
    requires p < n
    ensures r < n
  {
    if p == n - 1 then 0 else p + 1
  }

  lemma {:induction false} WrapNeighbourSteps(pos: int, m: nat)
    requires 0 <= pos < m
    ensures Wrap(pos - 1, m) == Prev(pos, m)
    ensures Wrap(pos + 1, m) == Next(pos, m)
  {
    if pos == 0 {
      ModUnique(pos - 1, m, -1, m - 1);
    } else {
      ModUnique(pos - 1, m, 0, pos - 1);
    }
    if pos == m - 1 {
      ModUnique(pos + 1, m, 1, 0);
    } else {
      ModUnique(pos + 1, m, 0, pos + 1);
    }
  }

  /** For a non-negative position `roundPos` is the plain remainder, in range. */
  lemma RoundPosNonNegative(pos: int, m: nat)
    requires m > 0 && pos >= 0
    ensures RoundPos(pos, m) == Wrap(pos, m) && 0 <= RoundPos(pos, m) < m
  {
  }

  /** For a position less than one turn below zero, `roundPos` adds the modulus:
      -1 maps to the last index. */
  lemma {:induction false} RoundPosSmallNegative(pos: int, m: nat)
    requires m > 0 && 0 < -pos < m
    ensures RoundPos(pos, m) == m + pos && RoundPos(pos, m) == Wrap(pos, m)
  {
    ModUnique(-pos, m, 0, -pos);
    ModUnique(pos, m, -1, m + pos);
  }

  /** What `roundPos` computes for every position: the cyclic index, except at
      negative multiples of the modulus, where it yields the modulus itself. */
  lemma {:induction false} RoundPosCharacterised(pos: int, m: nat)
    requires m > 0
    ensures RoundPos(pos, m) == if pos < 0 && pos % m == 0 then m else Wrap(pos, m)
  {
    if pos < 0 {
      var d := (-pos) / m;
      var r0 := (-pos) % m;
      assert -pos == m * d + r0;
      if r0 == 0 {
        ModUnique(pos, m, -d, 0);
      } else {
        assert pos == m * (-d - 1) + (m - r0);
        ModUnique(pos, m, -d - 1, m - r0);
      }
    }
  }

  /** The promised range `0 <= roundPos(pos, m) < m` holds exactly when `pos` is
      not a negative multiple of `m`. */
  lemma {:induction false} RoundPosInRangeIff(pos: int, m: nat)
    requires m > 0
    ensures 0 <= RoundPos(pos, m) < m <==> !(pos < 0 && pos % m == 0)
  {
    RoundPosCharacterised(pos, m);
  }

  /** The defect, on concrete inputs: on a 10-wide field -10 maps to 10, and on a
      1-wide field -1 maps to 1; both are one past the last index. */
  lemma RoundPosOutOfRange()
    ensures RoundPos(-10, 10) == 10 && Wrap(-10, 10) == 0
    ensures RoundPos(-1, 1) == 1 && Wrap(-1, 1) == 0
  {
  }
}
