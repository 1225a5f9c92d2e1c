/** Win detection: does the stone at (row, col) complete a run of WinCount? */
module WinCheck {
  import opened GomokuBoard

  /** Number of consecutive cells holding p met when stepping (dr, dc) away
      from (r, c), stopping at the first other or off-board cell and after
      at most `steps` steps. */
  function Run(b: Grid, r: int, c: int, dr: int, dc: int, p: int, steps: nat): (n: nat)
    requires WellFormed(b)
    ensures n <= steps
    decreases steps, b  // b keeps calls with a literal step count from unfolding
  {
    if steps == 0 then 0
    else if InBounds(r + dr, c + dc) && b[r + dr][c + dc] == p then
      1 + Run(b, r + dr, c + dc, dr, dc, p, steps - 1)
    else 0
  }

  /** The origin stone (counted without being looked at) plus the runs on
      both sides of it along direction d. */
  function LineCount(b: Grid, row: int, col: int, d: (int, int), p: int): int
    requires WellFormed(b)
  {
    1 + Run(b, row, col, d.0, d.1, p, WinCount) + Run(b, row, col, -d.0, -d.1, p, WinCount)
  }

  /** The win rule: some direction's line count reaches WinCount. */
  predicate Wins(b: Grid, row: int, col: int, p: int)
    requires WellFormed(b)
  {
    exists k :: 0 <= k < |Directions| && LineCount(b, row, col, Directions[k], p) >= WinCount
  }

  /** The cell j steps along d from (row, col) is on the board and holds p. */
  predicate Holds(b: Grid, row: int, col: int, d: (int, int), j: int, p: int)
    requires WellFormed(b)
  {
    InBounds(row + j * d.0, col + j * d.1) && b[row + j * d.0][col + j * d.1] == p
  }

  /** The WinCount cells at steps s .. s + WinCount - 1 along d, the origin
      (step 0) excepted, all hold p. */
  predicate Segment(b: Grid, row: int, col: int, d: (int, int), s: int, p: int)
    requires WellFormed(b)
  {
    forall j :: s <= j < s + WinCount && j != 0 ==> Holds(b, row, col, d, j, p)
  }

  /** Some segment of WinCount cells through (row, col), along one of the
      four directions, holds p everywhere except possibly at the origin. */
  predicate FiveThrough(b: Grid, row: int, col: int, p: int)
    requires WellFormed(b)
  {
    exists k, s :: 0 <= k < |Directions| && -(WinCount - 1) <= s <= 0 && Segment(b, row, col, Directions[k], s, p)
  }

  /** A run reaches m exactly when the first m cells along the ray hold p. */
  lemma {:induction false} RunCovers(b: Grid, r: int, c: int, d: (int, int), p: int, steps: nat, m: nat)
    requires WellFormed(b) && m <= steps
    ensures Run(b, r, c, d.0, d.1, p, steps) >= m <==> forall j :: 1 <= j <= m ==> Holds(b, r, c, d, j, p)
    decreases m
  {
    if m > 0 {
      var (r', c') := (r + d.0, c + d.1);
      RunCovers(b, r', c', d, p, steps - 1, m - 1);
      forall j | 1 <= j <= m - 1
        ensures Holds(b, r', c', d, j, p) <==> Holds(b, r, c, d, j + 1, p)
      {
        assert r' + j * d.0 == r + (j + 1) * d.0;
        assert c' + j * d.1 == c + (j + 1) * d.1;
      }
      if Run(b, r, c, d.0, d.1, p, steps) >= m {
        assert Holds(b, r, c, d, 1, p);
        forall j | 1 <= j <= m
          ensures Holds(b, r, c, d, j, p)
        {
          if j > 1 {
            assert Holds(b, r', c', d, j - 1, p);
          }
        }
      }
      if forall j :: 1 <= j <= m ==> Holds(b, r, c, d, j, p) {
        assert Holds(b, r, c, d, 1, p);
      }
    }
  }

  /** Stepping along -d is stepping backwards along d. */
  lemma Backwards(b: Grid, row: int, col: int, d: (int, int), p: int, j: int)
    requires WellFormed(b)
    ensures Holds(b, row, col, (-d.0, -d.1), j, p) <==> Holds(b, row, col, d, -j, p)
  {
    assert j * -d.0 == -j * d.0;
    assert j * -d.1 == -j * d.1;
  }

  /** One direction's line count reaches WinCount exactly when a segment of
      WinCount cells along it through the origin holds p. */
  lemma {:induction false} LineCountIffSegment(b: Grid, row: int, col: int, d: (int, int), p: int)
    requires WellFormed(b)
    ensures LineCount(b, row, col, d, p) >= WinCount <==>
            exists s :: -(WinCount - 1) <= s <= 0 && Segment(b, row, col, d, s, p)
  {
    var back := (-d.0, -d.1);
    var fwd := Run(b, row, col, d.0, d.1, p, WinCount);
    var bwd := Run(b, row, col, back.0, back.1, p, WinCount);
    if LineCount(b, row, col, d, p) >= WinCount {
      var a := if bwd >= WinCount - 1 then WinCount - 1 else bwd;
      RunCovers(b, row, col, back, p, WinCount, a);
      RunCovers(b, row, col, d, p, WinCount, WinCount - 1 - a);
      forall j | -a <= j < -a + WinCount && j != 0
        ensures Holds(b, row, col, d, j, p)
      {
        if j < 0 {
          Backwards(b, row, col, d, p, -j);
        }
      }
      assert Segment(b, row, col, d, -a, p);
    } else if exists s :: -(WinCount - 1) <= s <= 0 && Segment(b, row, col, d, s, p) {
      var s :| -(WinCount - 1) <= s <= 0 && Segment(b, row, col, d, s, p);
      forall j | 1 <= j <= -s
        ensures Holds(b, row, col, back, j, p)
      {
        Backwards(b, row, col, d, p, j);
      }
      RunCovers(b, row, col, back, p, WinCount, -s);
      RunCovers(b, row, col, d, p, WinCount, s + WinCount - 1);
      assert false;
    }
  }

  /** check_win holds exactly when WinCount cells in a row through the
      origin hold p (the origin itself is not inspected). */
  lemma WinsIffFive(b: Grid, row: int, col: int, p: int)
    requires WellFormed(b)
    ensures Wins(b, row, col, p) <==> FiveThrough(b, row, col, p)
  {
    forall k | 0 <= k < |Directions|
      ensures LineCount(b, row, col, Directions[k], p) >= WinCount <==>
              exists s :: -(WinCount - 1) <= s <= 0 && Segment(b, row, col, Directions[k], s, p)
    {
      LineCountIffSegment(b, row, col, Directions[k], p);
    }
  }
}
