/** Pattern-based position scoring: per stone (evaluate_point) and for the
    whole board from one player's side (evaluate_board). */
module Evaluation {
  import opened GomokuBoard
  import opened WinCheck

  /** The token standing for an off-board cell in a window. */
  const OffBoard: int := -1
  /** Cells on each side of the centre of a window. */
  const Reach: int := 4
  /** Length of a window: Reach cells each side of the centre. */
  const WindowLength: int := 2 * Reach + 1

  /** The cell's value, or OffBoard outside the board. */
  function CellOr(b: Grid, r: int, c: int): int
    requires WellFormed(b)
  {
    if InBounds(r, c) then b[r][c] else OffBoard
  }

  /** The 9 cells along d centred on (row, col); index i is step i - 4. */
  function Window(b: Grid, row: int, col: int, d: (int, int)): (w: seq<int>)
    requires WellFormed(b)
    ensures |w| == WindowLength
  {
    seq(WindowLength, i => CellOr(b, row + (i - Reach) * d.0, col + (i - Reach) * d.1))
  }

  /** The weighted pattern catalogue for player p. */
  function Patterns(p: int): (ps: seq<(seq<int>, nat)>)
    ensures |ps| == 8
    ensures forall k :: 0 <= k < |ps| ==> 4 <= |ps[k].0| <= 6
  {
    [ ([p, p, p, p, p], 10000),
      ([Empty, p, p, p, p, Empty], 5000),
      ([Empty, p, p, p, Empty], 500),
      ([Empty, p, p, Empty], 50),
      ([p, p, p, p, Empty], 1000),
      ([Empty, p, p, p, p], 1000),
      ([p, p, p, Empty, Empty], 50),
      ([Empty, Empty, p, p, p], 50) ]
  }

  /** The number of offsets i < n at which pat occurs in line. */
  function Occurrences(line: seq<int>, pat: seq<int>, n: nat): nat
    requires n + |pat| <= |line| + 1
  {
    if n == 0 then 0
    else Occurrences(line, pat, n - 1) + (if line[n - 1..n - 1 + |pat|] == pat then 1 else 0)
  }

  /** Offsets at which a pattern can start in a line. */
  function Offsets(line: seq<int>, pat: seq<int>): nat
    requires |pat| <= |line| + 1
  {
    |line| - |pat| + 1
  }

  /** Weight times occurrences, summed over the first k patterns of p. */
  function PatternsScore(line: seq<int>, p: int, k: nat): nat
    requires |line| == WindowLength && k <= |Patterns(p)|
  {
    if k == 0 then 0
    else
      var (pat, weight) := Patterns(p)[k - 1];
      PatternsScore(line, p, k - 1) + weight * Occurrences(line, pat, Offsets(line, pat))
  }

  /** The pattern score of the windows along the first k directions. */
  function DirectionsScore(b: Grid, row: int, col: int, p: int, k: nat): nat
    requires WellFormed(b) && k <= |Directions|
  {
    if k == 0 then 0
    else DirectionsScore(b, row, col, p, k - 1) + PatternsScore(Window(b, row, col, Directions[k - 1]), p, |Patterns(p)|)
  }

  /** evaluate_point: the pattern score of p's stone at (row, col). */
  function PointScore(b: Grid, row: int, col: int, p: int): nat
    requires WellFormed(b)
  {
    DirectionsScore(b, row, col, p, |Directions|)
  }

  /** A cell's share of evaluate_board from player's side: its owner's point
      score, added for player's own stones and weighted by -0.8 otherwise. */
  function CellScore(b: Grid, r: int, c: int, player: int): real
    requires WellFormed(b) && InBounds(r, c)
  {
    var p := b[r][c];
    if p == Empty then 0.0
    else if p == player then PointScore(b, r, c, p) as real
    else -(0.8 * PointScore(b, r, c, p) as real)
  }

  /** Cell scores of row r, columns < n. */
  function RowScore(b: Grid, player: int, r: int, n: nat): real
    requires WellFormed(b) && 0 <= r < BoardSize && n <= BoardSize
  {
    if n == 0 then 0.0 else RowScore(b, player, r, n - 1) + CellScore(b, r, n - 1, player)
  }

  /** Cell scores of the rows < n. */
  function RowsScore(b: Grid, player: int, n: nat): real
    requires WellFormed(b) && n <= BoardSize
  {
    if n == 0 then 0.0 else RowsScore(b, player, n - 1) + RowScore(b, player, n - 1, |b[n - 1]|)
  }

  /** evaluate_board: the whole board scored from player's side. */
  function BoardScore(b: Grid, player: int): real
    requires WellFormed(b)
  {
    RowsScore(b, player, |b|)
  }

  // ---------------------------------------------------------------------
  // Properties

  /** An occurrence at an offset below n is counted. */
  lemma {:induction false} OccurrenceCounted(line: seq<int>, pat: seq<int>, n: nat, i: nat)
    requires n + |pat| <= |line| + 1 && i < n && line[i..i + |pat|] == pat
    ensures Occurrences(line, pat, n) >= 1
    decreases n
  {
    if i < n - 1 {
      OccurrenceCounted(line, pat, n - 1, i);
    }
  }

  /** Every pattern's contribution is part of the direction's score. */
  lemma {:induction false} PatternsScoreCovers(line: seq<int>, p: int, k: nat, j: nat)
    requires |line| == WindowLength && j < k <= |Patterns(p)|
    ensures PatternsScore(line, p, k) >= Patterns(p)[j].1 * Occurrences(line, Patterns(p)[j].0, Offsets(line, Patterns(p)[j].0))
    decreases k
  {
    if j < k - 1 {
      PatternsScoreCovers(line, p, k - 1, j);
    }
  }

  /** Every direction's score is part of the point score. */
  lemma {:induction false} DirectionsScoreCovers(b: Grid, row: int, col: int, p: int, k: nat, j: nat)
    requires WellFormed(b) && j < k <= |Directions|
    ensures DirectionsScore(b, row, col, p, k) >= PatternsScore(Window(b, row, col, Directions[j]), p, |Patterns(p)|)
    decreases k
  {
    if j < k - 1 {
      DirectionsScoreCovers(b, row, col, p, k - 1, j);
    }
  }

  /** The segment a win rests on, origin included, is the five-in-a-row
      pattern at offset s + Reach of the window along d. */
  lemma FiveInWindow(b: Grid, row: int, col: int, p: int, d: (int, int), s: int)
    requires WellFormed(b) && InBounds(row, col) && b[row][col] == p
    requires -(WinCount - 1) <= s <= 0 && Segment(b, row, col, d, s, p)
    ensures Window(b, row, col, d)[s + Reach..s + Reach + WinCount] == Patterns(p)[0].0
  {
    var w := Window(b, row, col, d);
    var five := Patterns(p)[0].0;
    forall i | 0 <= i < WinCount
      ensures w[s + Reach + i] == five[i]
    {
      var j := s + i;
      assert w[s + Reach + i] == CellOr(b, row + j * d.0, col + j * d.1);
      if j == 0 {
        assert row + j * d.0 == row && col + j * d.1 == col;
      } else {
        assert Holds(b, row, col, d, j, p);
      }
    }
  }

  /** A winning stone scores at least the five-in-a-row weight: the
      WinCount cells that check_win finds lie inside one of its windows,
      where the first pattern matches them. */
  lemma WinScoresFive(b: Grid, row: int, col: int, p: int)
    requires WellFormed(b) && InBounds(row, col) && b[row][col] == p
    requires Wins(b, row, col, p)
    ensures PointScore(b, row, col, p) >= 10000
  {
    WinsIffFive(b, row, col, p);
    var k, s :| 0 <= k < |Directions| && -(WinCount - 1) <= s <= 0 && Segment(b, row, col, Directions[k], s, p);
    var w := Window(b, row, col, Directions[k]);
    var five := Patterns(p)[0].0;
    FiveInWindow(b, row, col, p, Directions[k], s);
    OccurrenceCounted(w, five, Offsets(w, five), s + Reach);
    PatternsScoreCovers(w, p, |Patterns(p)|, 0);
    DirectionsScoreCovers(b, row, col, p, |Directions|, k);
  }

  /** Sum of the point scores of all stones, whoever owns them, over the
      cells (r, 0 .. n-1). */
  function RowStoneScore(b: Grid, r: int, n: nat): (s: real)
    requires WellFormed(b) && 0 <= r < BoardSize && n <= BoardSize
    ensures s >= 0.0
  {
    if n == 0 then 0.0
    else RowStoneScore(b, r, n - 1) + (if b[r][n - 1] == Empty then 0.0 else PointScore(b, r, n - 1, b[r][n - 1]) as real)
  }

  function RowsStoneScore(b: Grid, n: nat): (s: real)
    requires WellFormed(b) && n <= BoardSize
    ensures s >= 0.0
  {
    if n == 0 then 0.0 else RowsStoneScore(b, n - 1) + RowStoneScore(b, n - 1, |b[n - 1]|)
  }

  /** The point scores of all stones on the board. */
  function StoneScore(b: Grid): (s: real)
    requires WellFormed(b)
    ensures s >= 0.0
  {
    RowsStoneScore(b, |b|)
  }

  lemma {:induction false} RowSymmetry(b: Grid, r: int, n: nat)
    requires Proper(b) && 0 <= r < BoardSize && n <= BoardSize
    ensures RowScore(b, Player, r, n) + RowScore(b, Ai, r, n) == 0.2 * RowStoneScore(b, r, n)
    decreases n
  {
    if n > 0 {
      RowSymmetry(b, r, n - 1);
    }
  }

  lemma {:induction false} RowsSymmetry(b: Grid, n: nat)
    requires Proper(b) && n <= BoardSize
    ensures RowsScore(b, Player, n) + RowsScore(b, Ai, n) == 0.2 * RowsStoneScore(b, n)
    decreases n
  {
    if n > 0 {
      RowsSymmetry(b, n - 1);
      RowSymmetry(b, n - 1, |b[n - 1]|);
    }
  }

  /** The evaluation is not antisymmetric: scoring the same board from the
      two sides and adding gives 0.2 of the stones' total point score, a
      non-negative amount that is zero only when no stone scores. */
  lemma Asymmetry(b: Grid)
    requires Proper(b)
    ensures BoardScore(b, Player) + BoardScore(b, Ai) == 0.2 * StoneScore(b)
    ensures StoneScore(b) >= 0.0
  {
    RowsSymmetry(b, |b|);
  }

  lemma {:induction false} EmptyRowScoresZero(b: Grid, player: int, r: int, n: nat)
    requires WellFormed(b) && 0 <= r < BoardSize && n <= BoardSize
    requires forall c :: 0 <= c < BoardSize ==> b[r][c] == Empty
    ensures RowScore(b, player, r, n) == 0.0
    decreases n
  {
    if n > 0 {
      EmptyRowScoresZero(b, player, r, n - 1);
    }
  }

  lemma {:induction false} EmptyRowsScoreZero(b: Grid, player: int, n: nat)
    requires WellFormed(b) && n <= BoardSize
    requires forall r, c :: InBounds(r, c) ==> b[r][c] == Empty
    ensures RowsScore(b, player, n) == 0.0
    decreases n
  {
    if n > 0 {
      EmptyRowsScoreZero(b, player, n - 1);
      EmptyRowScoresZero(b, player, n - 1, |b[n - 1]|);
    }
  }

  /** The all-empty board scores 0 from either side. */
  lemma EmptyBoardScoresZero(b: Grid, player: int)
    requires WellFormed(b)
    requires forall r, c :: InBounds(r, c) ==> b[r][c] == Empty
    ensures BoardScore(b, player) == 0.0
  {
    EmptyRowsScoreZero(b, player, |b|);
  }
}
