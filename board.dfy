/** The Gomoku board: its fixed size, the cell values and the moves on it. */
module GomokuBoard {

  /** Side of the square board. */
  const BoardSize: int := 20
  /** Length of a winning run. */
  const WinCount: int := 5
  /** Depth handed to the search below the machine's first ply. */
  const MaxDepth: nat := 2

  /** The three cell values. */
  const Empty: int := 0
  const Player: int := 1
  const Ai: int := 2

  /** The four line directions, as (row step, column step). */
  const Directions: seq<(int, int)> := [(1, 0), (0, 1), (1, 1), (1, -1)]

  /** A cell coordinate (row, column). */
  type Move = (int, int)

  /** A board value: BoardSize rows of BoardSize cells. */
  type Grid = seq<seq<int>>

  /** The fallback move when no stone has an empty neighbour. */
  const Centre: Move := (BoardSize / 2, BoardSize / 2)

  predicate InBounds(r: int, c: int) {
    0 <= r < BoardSize && 0 <= c < BoardSize
  }

  /** Every move of the list is on the board. */
  predicate AllInBounds(ms: seq<Move>) {
    forall i :: 0 <= i < |ms| ==> InBounds(ms[i].0, ms[i].1)
  }

  predicate WellFormed(b: Grid) {
    |b| == BoardSize && forall r :: 0 <= r < BoardSize ==> |b[r]| == BoardSize
  }

  /** A well-formed board every cell of which is Empty, Player or Ai. */
  predicate Proper(b: Grid) {
    WellFormed(b) && forall r, c :: 0 <= r < BoardSize && 0 <= c < BoardSize ==> Empty <= b[r][c] <= Ai
  }

  predicate IsEmptyAt(b: Grid, m: Move)
    requires WellFormed(b)
  {
    InBounds(m.0, m.1) && b[m.0][m.1] == Empty
  }

  /** The board with cell m set to v and every other cell as in b. */
  function Place(b: Grid, m: Move, v: int): (b': Grid)
    requires WellFormed(b) && InBounds(m.0, m.1)
    ensures WellFormed(b')
    ensures b'[m.0][m.1] == v
    ensures forall r, c :: InBounds(r, c) && (r, c) != m ==> b'[r][c] == b[r][c]
  {
    b[m.0 := b[m.0][m.1 := v]]
  }

  /** Putting back what a cell held undoes a placement on it. */
  lemma PlaceUndo(b: Grid, m: Move, v: int)
    requires WellFormed(b) && InBounds(m.0, m.1)
    ensures Place(Place(b, m, v), m, b[m.0][m.1]) == b
  {
    var b' := Place(Place(b, m, v), m, b[m.0][m.1]);
    assert b'[m.0] == b[m.0];
    assert forall r :: 0 <= r < BoardSize ==> b'[r] == b[r];
  }

  /** The all-empty board. */
  function EmptyGrid(): (b: Grid)
    ensures Proper(b)
    ensures forall r, c :: InBounds(r, c) ==> b[r][c] == Empty
  {
    seq(BoardSize, r => seq(BoardSize, c => Empty))
  }

  /** The set of empty cells. */
  function EmptyCells(b: Grid): set<Move>
    requires WellFormed(b)
  {
    set r, c | 0 <= r < BoardSize && 0 <= c < BoardSize && b[r][c] == Empty :: (r, c)
  }

  lemma InEmptyCells(b: Grid, m: Move)
    requires WellFormed(b)
    ensures m in EmptyCells(b) <==> IsEmptyAt(b, m)
  {
    if IsEmptyAt(b, m) {
      var (r, c) := m;
      assert (r, c) in EmptyCells(b);
    }
  }

  /** Filling an empty cell removes exactly that cell from the empty ones. */
  lemma {:induction false} PlaceFillsOne(b: Grid, m: Move, v: int)
    requires WellFormed(b) && IsEmptyAt(b, m) && v != Empty
    ensures EmptyCells(Place(b, m, v)) == EmptyCells(b) - {m}
    ensures |EmptyCells(Place(b, m, v))| == |EmptyCells(b)| - 1
  {
    var b' := Place(b, m, v);
    forall x: Move
      ensures x in EmptyCells(b') <==> x in EmptyCells(b) - {m}
    {
      InEmptyCells(b', x);
      InEmptyCells(b, x);
    }
    InEmptyCells(b, m);
  }

  /** A board with an empty cell names one. */
  lemma SomeEmptyCell(b: Grid) returns (m: Move)
    requires WellFormed(b) && |EmptyCells(b)| > 0
    ensures IsEmptyAt(b, m)
  {
    m :| m in EmptyCells(b);
    InEmptyCells(b, m);
  }
}
