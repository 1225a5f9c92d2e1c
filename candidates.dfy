/** Candidate moves: the empty 8-neighbours of the stones on the board, or
    the centre when there are none. */
module CandidateGen {
  import opened GomokuBoard

  // ---------------------------------------------------------------------
  // The set, as the scan over stones and their neighbours builds it

  /** The empty on-board cells (r + dr, c + dc) for dc in [-1, dcEnd). */
  function NeighboursInRow(b: Grid, r: int, c: int, dr: int, dcEnd: int): set<Move>
    requires WellFormed(b) && -1 <= dcEnd <= 2
  {
    if dcEnd == -1 then {}
    else
      var m := (r + dr, c + dcEnd - 1);
      NeighboursInRow(b, r, c, dr, dcEnd - 1) + (if IsEmptyAt(b, m) then {m} else {})
  }

  /** The empty on-board cells (r + dr, c + dc) for dr in [-1, drEnd) and
      dc in [-1, 1]. */
  function Neighbours(b: Grid, r: int, c: int, drEnd: int): set<Move>
    requires WellFormed(b) && -1 <= drEnd <= 2
  {
    if drEnd == -1 then {} else Neighbours(b, r, c, drEnd - 1) + NeighboursInRow(b, r, c, drEnd - 1, 2)
  }

  /** What the cell (r, c) adds to the set: its empty neighbours if it
      holds a stone. */
  function Contribution(b: Grid, r: int, c: int): set<Move>
    requires WellFormed(b) && InBounds(r, c)
  {
    if b[r][c] != Empty then Neighbours(b, r, c, 2) else {}
  }

  /** Contributions of the cells (r, 0 .. cEnd-1). */
  function ScanRow(b: Grid, r: int, cEnd: int): set<Move>
    requires WellFormed(b) && 0 <= r < BoardSize && 0 <= cEnd <= BoardSize
  {
    if cEnd == 0 then {} else ScanRow(b, r, cEnd - 1) + Contribution(b, r, cEnd - 1)
  }

  /** Contributions of the rows 0 .. rEnd-1. */
  function ScanRows(b: Grid, rEnd: int): set<Move>
    requires WellFormed(b) && 0 <= rEnd <= BoardSize
  {
    if rEnd == 0 then {} else ScanRows(b, rEnd - 1) + ScanRow(b, rEnd - 1, BoardSize)
  }

  /** The set the scan builds. */
  function CandidateSet(b: Grid): set<Move>
    requires WellFormed(b)
  {
    ScanRows(b, |b|)
  }

  // ---------------------------------------------------------------------
  // The fixed iteration order: the set's cells in row-major order

  /** The cells (r, 0 .. cEnd-1) that are in s, left to right. */
  function ListRow(s: set<Move>, r: int, cEnd: int): seq<Move>
    requires 0 <= cEnd <= BoardSize
  {
    if cEnd == 0 then [] else ListRow(s, r, cEnd - 1) + (if (r, cEnd - 1) in s then [(r, cEnd - 1)] else [])
  }

  /** The cells of rows 0 .. rEnd-1 that are in s, in row-major order. */
  function ListRows(s: set<Move>, rEnd: int): seq<Move>
    requires 0 <= rEnd <= BoardSize
  {
    if rEnd == 0 then [] else ListRows(s, rEnd - 1) + ListRow(s, rEnd - 1, BoardSize)
  }

  /** generate_candidates: the set listed in row-major order, or the centre
      alone when the set is empty. */
  function Candidates(b: Grid): (cs: seq<Move>)
    requires WellFormed(b)
    ensures cs != []
    ensures AllInBounds(cs)
  {
    var s := CandidateSet(b);
    ListRowsInRange(s, BoardSize);
    if s == {} then [Centre]
    else
      SetListed(b);
      ListRows(s, BoardSize)
  }

  // ---------------------------------------------------------------------
  // What the candidates are

  /** (r, c) is one of the 8 neighbours of m, or m itself. */
  predicate Adjacent(r: int, c: int, m: Move) {
    -1 <= m.0 - r <= 1 && -1 <= m.1 - c <= 1
  }

  /** Some stone among the rows < rEnd is adjacent to m. */
  predicate StoneNear(b: Grid, m: Move, rEnd: int)
    requires WellFormed(b)
  {
    exists r, c :: 0 <= r < rEnd && 0 <= c < BoardSize && r < BoardSize && b[r][c] != Empty && Adjacent(r, c, m)
  }

  /** An empty on-board cell 8-adjacent to a stone. */
  predicate IsCandidate(b: Grid, m: Move)
    requires WellFormed(b)
  {
    IsEmptyAt(b, m) && StoneNear(b, m, BoardSize)
  }

  /** Some cell is a candidate. */
  ghost predicate AnyCandidate(b: Grid)
    requires WellFormed(b)
  {
    exists r, c :: IsCandidate(b, (r, c))
  }

  /** Strict row-major order of cells. */
  predicate Before(m: Move, n: Move) {
    m.0 < n.0 || (m.0 == n.0 && m.1 < n.1)
  }

  /** Strictly increasing in row-major order; in particular no duplicates. */
  predicate RowMajorSorted(cs: seq<Move>) {
    forall i, j :: 0 <= i < j < |cs| ==> Before(cs[i], cs[j])
  }

  lemma {:induction false} InNeighboursInRow(b: Grid, r: int, c: int, dr: int, dcEnd: int, m: Move)
    requires WellFormed(b) && -1 <= dcEnd <= 2
    ensures m in NeighboursInRow(b, r, c, dr, dcEnd) <==>
            IsEmptyAt(b, m) && m.0 == r + dr && -1 <= m.1 - c < dcEnd
    decreases dcEnd + 1
  {
    if dcEnd > -1 {
      InNeighboursInRow(b, r, c, dr, dcEnd - 1, m);
    }
  }

  lemma {:induction false} InNeighbours(b: Grid, r: int, c: int, drEnd: int, m: Move)
    requires WellFormed(b) && -1 <= drEnd <= 2
    ensures m in Neighbours(b, r, c, drEnd) <==>
            IsEmptyAt(b, m) && -1 <= m.0 - r < drEnd && -1 <= m.1 - c <= 1
    decreases drEnd + 1
  {
    if drEnd > -1 {
      InNeighbours(b, r, c, drEnd - 1, m);
      InNeighboursInRow(b, r, c, drEnd - 1, 2, m);
    }
  }

  lemma {:induction false} InScanRow(b: Grid, r: int, cEnd: int, m: Move)
    requires WellFormed(b) && 0 <= r < BoardSize && 0 <= cEnd <= BoardSize
    ensures m in ScanRow(b, r, cEnd) <==>
            IsEmptyAt(b, m) && exists c :: 0 <= c < cEnd && b[r][c] != Empty && Adjacent(r, c, m)
    decreases cEnd
  {
    if cEnd > 0 {
      InScanRow(b, r, cEnd - 1, m);
      InNeighbours(b, r, cEnd - 1, 2, m);
    }
  }

  lemma {:induction false} InScanRows(b: Grid, rEnd: int, m: Move)
    requires WellFormed(b) && 0 <= rEnd <= BoardSize
    ensures m in ScanRows(b, rEnd) <==> IsEmptyAt(b, m) && StoneNear(b, m, rEnd)
    decreases rEnd
  {
    if rEnd > 0 {
      InScanRows(b, rEnd - 1, m);
      InScanRow(b, rEnd - 1, BoardSize, m);
      if IsEmptyAt(b, m) && StoneNear(b, m, rEnd) && !StoneNear(b, m, rEnd - 1) {
        var r, c :| 0 <= r < rEnd && 0 <= c < BoardSize && r < BoardSize && b[r][c] != Empty && Adjacent(r, c, m);
        assert r == rEnd - 1;
      }
    }
  }

  /** The scan finds exactly the empty cells next to a stone. */
  lemma InCandidateSet(b: Grid, m: Move)
    requires WellFormed(b)
    ensures m in CandidateSet(b) <==> IsCandidate(b, m)
  {
    InScanRows(b, |b|, m);
  }

  lemma {:induction false} InListRow(s: set<Move>, r: int, cEnd: int, m: Move)
    requires 0 <= cEnd <= BoardSize
    ensures m in ListRow(s, r, cEnd) <==> m in s && m.0 == r && 0 <= m.1 < cEnd
    decreases cEnd
  {
    if cEnd > 0 {
      InListRow(s, r, cEnd - 1, m);
    }
  }

  lemma {:induction false} InListRows(s: set<Move>, rEnd: int, m: Move)
    requires 0 <= rEnd <= BoardSize
    ensures m in ListRows(s, rEnd) <==> m in s && 0 <= m.0 < rEnd && 0 <= m.1 < BoardSize
    decreases rEnd
  {
    if rEnd > 0 {
      var prefix, row := ListRows(s, rEnd - 1), ListRow(s, rEnd - 1, BoardSize);
      assert ListRows(s, rEnd) == prefix + row;
      InListRows(s, rEnd - 1, m);
      InListRow(s, rEnd - 1, BoardSize, m);
      if m.0 == rEnd - 1 {
        assert m !in prefix;
        assert m in prefix + row <==> m in row;
      } else {
        assert m !in row;
        assert m in prefix + row <==> m in prefix;
      }
    }
  }

  lemma ListRowsInRange(s: set<Move>, rEnd: int)
    requires 0 <= rEnd <= BoardSize
    ensures AllInBounds(ListRows(s, rEnd))
  {
    forall i | 0 <= i < |ListRows(s, rEnd)|
      ensures InBounds(ListRows(s, rEnd)[i].0, ListRows(s, rEnd)[i].1)
    {
      InListRows(s, rEnd, ListRows(s, rEnd)[i]);
    }
  }

  lemma {:induction false} ListRowSorted(s: set<Move>, r: int, cEnd: int)
    requires 0 <= cEnd <= BoardSize
    ensures RowMajorSorted(ListRow(s, r, cEnd))
    decreases cEnd
  {
    if cEnd > 0 {
      ListRowSorted(s, r, cEnd - 1);
      var prefix := ListRow(s, r, cEnd - 1);
      forall i | 0 <= i < |prefix|
        ensures prefix[i].0 == r && prefix[i].1 < cEnd - 1
      {
        InListRow(s, r, cEnd - 1, prefix[i]);
      }
    }
  }

  lemma {:induction false} ListRowsSorted(s: set<Move>, rEnd: int)
    requires 0 <= rEnd <= BoardSize
    ensures RowMajorSorted(ListRows(s, rEnd))
    decreases rEnd
  {
    if rEnd > 0 {
      ListRowsSorted(s, rEnd - 1);
      ListRowSorted(s, rEnd - 1, BoardSize);
      var prefix, row := ListRows(s, rEnd - 1), ListRow(s, rEnd - 1, BoardSize);
      forall i | 0 <= i < |prefix|
        ensures prefix[i].0 < rEnd - 1
      {
        InListRows(s, rEnd - 1, prefix[i]);
      }
      forall j | 0 <= j < |row|
        ensures row[j].0 == rEnd - 1
      {
        InListRow(s, rEnd - 1, BoardSize, row[j]);
      }
    }
  }

  /** Every cell of the scanned set is listed. */
  lemma SetListed(b: Grid)
    requires WellFormed(b)
    ensures forall m :: m in CandidateSet(b) ==> m in ListRows(CandidateSet(b), BoardSize)
  {
    forall m | m in CandidateSet(b)
      ensures m in ListRows(CandidateSet(b), BoardSize)
    {
      InCandidateSet(b, m);
      InListRows(CandidateSet(b), BoardSize, m);
    }
  }

  /** generate_candidates is sound and complete: when some empty cell lies
      next to a stone, the candidates are exactly those cells, each once,
      in row-major order; otherwise they are the centre alone. */
  lemma CandidatesExact(b: Grid)
    requires WellFormed(b)
    ensures AnyCandidate(b) ==>
              (forall m :: m in Candidates(b) <==> IsCandidate(b, m)) && RowMajorSorted(Candidates(b))
    ensures !AnyCandidate(b) ==> Candidates(b) == [Centre]
  {
    var s := CandidateSet(b);
    var list := ListRows(s, BoardSize);
    forall m
      ensures m in list <==> IsCandidate(b, m)
    {
      InListRows(s, BoardSize, m);
      InCandidateSet(b, m);
    }
    ListRowsSorted(s, BoardSize);
    forall m | m in s
      ensures IsCandidate(b, (m.0, m.1))
    {
      InCandidateSet(b, m);
    }
    if AnyCandidate(b) {
      var r, c :| IsCandidate(b, (r, c));
      InCandidateSet(b, (r, c));
    }
  }

  // ---------------------------------------------------------------------
  // When the centre fallback is taken

  ghost predicate AllEmpty(b: Grid)
    requires WellFormed(b)
  {
    forall r, c :: InBounds(r, c) ==> b[r][c] == Empty
  }

  ghost predicate Full(b: Grid)
    requires WellFormed(b)
  {
    forall r, c :: InBounds(r, c) ==> b[r][c] != Empty
  }

  function Sign(x: int): int {
    if x > 0 then 1 else if x < 0 then -1 else 0
  }

  function Abs(x: int): nat {
    if x < 0 then -x else x
  }

  /** Walking from a stone towards an empty cell meets an empty cell next
      to a stone. */
  lemma {:induction false} WalkToEmpty(b: Grid, s: Move, e: Move)
    requires WellFormed(b) && InBounds(s.0, s.1) && b[s.0][s.1] != Empty && IsEmptyAt(b, e)
    ensures AnyCandidate(b)
    decreases Abs(e.0 - s.0) + Abs(e.1 - s.1)
  {
    var next := (s.0 + Sign(e.0 - s.0), s.1 + Sign(e.1 - s.1));
    assert Adjacent(s.0, s.1, next);
    if b[next.0][next.1] == Empty {
      assert IsCandidate(b, next);
      assert IsCandidate(b, (next.0, next.1));
    } else {
      WalkToEmpty(b, next, e);
    }
  }

  /** The centre fallback is taken exactly on the all-empty and on the
      full board. */
  lemma FallbackIffEmptyOrFull(b: Grid)
    requires WellFormed(b)
    ensures !AnyCandidate(b) <==> AllEmpty(b) || Full(b)
  {
    if !AllEmpty(b) && !Full(b) {
      var r, c :| InBounds(r, c) && b[r][c] != Empty;
      var r', c' :| InBounds(r', c') && b[r'][c'] == Empty;
      WalkToEmpty(b, (r, c), (r', c'));
    }
  }

  /** While some cell is empty, every candidate is an empty cell. */
  lemma CandidatesAreEmpty(b: Grid)
    requires WellFormed(b) && !Full(b)
    ensures forall i :: 0 <= i < |Candidates(b)| ==> IsEmptyAt(b, Candidates(b)[i])
  {
    CandidatesExact(b);
    FallbackIffEmptyOrFull(b);
    if AnyCandidate(b) {
      forall i | 0 <= i < |Candidates(b)|
        ensures IsEmptyAt(b, Candidates(b)[i])
      {
        assert Candidates(b)[i] in Candidates(b);
      }
    }
  }

  /** The empty board's only candidate is the centre. */
  lemma EmptyBoardCandidates(b: Grid)
    requires WellFormed(b) && AllEmpty(b)
    ensures Candidates(b) == [Centre]
  {
    CandidatesExact(b);
    FallbackIffEmptyOrFull(b);
  }

  /** On a full board the only candidate is the centre, which is occupied. */
  lemma FullBoardCandidates(b: Grid)
    requires WellFormed(b) && Full(b)
    ensures Candidates(b) == [Centre] && b[Centre.0][Centre.1] != Empty
  {
    CandidatesExact(b);
    FallbackIffEmptyOrFull(b);
  }
}
