/** The machine's search: depth-limited minimax with alpha-beta pruning over
    the candidate moves, and the choice of the machine's move. */
module AlphaBeta {
  import opened GomokuBoard
  import opened Evaluation
  import opened CandidateGen

  datatype Option<T> = None | Some(value: T)

  /** A search value: a board score, or one of the two infinities the search
      starts its running maximum and minimum from. */
  datatype Score = NegInf | Fin(v: real) | PosInf

  predicate Le(a: Score, b: Score) {
    a.NegInf? || b.PosInf? || (a.Fin? && b.Fin? && a.v <= b.v)
  }

  predicate Lt(a: Score, b: Score) {
    !Le(b, a)
  }

  function Max(a: Score, b: Score): (m: Score)
    ensures Le(a, m) && Le(b, m) && (m == a || m == b)
  {
    if Le(a, b) then b else a
  }

  function Min(a: Score, b: Score): (m: Score)
    ensures Le(m, a) && Le(m, b) && (m == a || m == b)
  {
    if Le(a, b) then a else b
  }

  /** A board score at least this large in absolute value ends the search. */
  const Decisive: real := 10000.0

  function RealAbs(x: real): real {
    if x < 0.0 then -x else x
  }

  /** The search stops at a decided position or at depth 0. */
  predicate IsTerminal(e: real, depth: nat) {
    RealAbs(e) >= Decisive || depth == 0
  }

  /** The stone the side to move places. */
  function Mover(isMax: bool): int {
    if isMax then Ai else Player
  }

  // ---------------------------------------------------------------------
  // Reference: the game-tree value without pruning

  /** The depth-limited minimax value of b with the machine maximising the
      board score from its own side. */
  function Minimax(b: Grid, depth: nat, isMax: bool): Score
    requires WellFormed(b)
    decreases depth, 1, 0
  {
    var e := BoardScore(b, Ai);
    if IsTerminal(e, depth) then Fin(e)
    else if isMax then MaxOver(b, Candidates(b), depth)
    else MinOver(b, Candidates(b), depth)
  }

  /** The largest value of the positions after the machine plays each of cs. */
  function MaxOver(b: Grid, cs: seq<Move>, depth: nat): Score
    requires WellFormed(b) && depth >= 1 && AllInBounds(cs)
    decreases depth, 0, |cs|
  {
    if cs == [] then NegInf
    else Max(Minimax(Place(b, cs[0], Ai), depth - 1, false), MaxOver(b, cs[1..], depth))
  }

  /** The smallest value of the positions after the human plays each of cs. */
  function MinOver(b: Grid, cs: seq<Move>, depth: nat): Score
    requires WellFormed(b) && depth >= 1 && AllInBounds(cs)
    decreases depth, 0, |cs|
  {
    if cs == [] then PosInf
    else Min(Minimax(Place(b, cs[0], Player), depth - 1, true), MinOver(b, cs[1..], depth))
  }

  // ---------------------------------------------------------------------
  // minimax as written: alpha-beta on one board, changed and restored

  /** minimax(board, depth, is_maximizing, alpha, beta): the value it
      returns and the board as it leaves it. Each child is searched with the
      move placed and the cell then set back to Empty. */
  function Search(b: Grid, depth: nat, isMax: bool, alpha: Score, beta: Score): (r: (Score, Grid))
    requires WellFormed(b)
    ensures WellFormed(r.1)
    decreases depth, 1, 0
  {
    var e := BoardScore(b, Ai);
    if IsTerminal(e, depth) then (Fin(e), b)
    else if isMax then SearchMax(b, Candidates(b), depth, alpha, beta, NegInf)
    else SearchMin(b, Candidates(b), depth, alpha, beta, PosInf)
  }

  /** One turn of a search loop: stone is placed at m, the position is
      searched, and m is set back to Empty on the board the search left. */
  function Child(b: Grid, m: Move, stone: int, depth: nat, isMax: bool, alpha: Score, beta: Score): (r: (Score, Grid))
    requires WellFormed(b) && InBounds(m.0, m.1)
    ensures WellFormed(r.1)
    decreases depth, 2, 0
  {
    var (v, b1) := Search(Place(b, m, stone), depth, isMax, alpha, beta);
    (v, Place(b1, m, Empty))
  }

  /** The maximising loop over the remaining candidates cs, with running
      maximum best and lower bound alpha; it stops once beta <= alpha. */
  function SearchMax(b: Grid, cs: seq<Move>, depth: nat, alpha: Score, beta: Score, best: Score): (r: (Score, Grid))
    requires WellFormed(b) && depth >= 1 && AllInBounds(cs)
    ensures WellFormed(r.1)
    decreases depth, 0, |cs|
  {
    if cs == [] then (best, b)
    else
      var (v, b2) := Child(b, cs[0], Ai, depth - 1, false, alpha, beta);
      var best', alpha' := Max(best, v), Max(alpha, v);
      if Le(beta, alpha') then (best', b2)
      else SearchMax(b2, cs[1..], depth, alpha', beta, best')
  }

  /** The minimising loop, with running minimum best and upper bound beta. */
  function SearchMin(b: Grid, cs: seq<Move>, depth: nat, alpha: Score, beta: Score, best: Score): (r: (Score, Grid))
    requires WellFormed(b) && depth >= 1 && AllInBounds(cs)
    ensures WellFormed(r.1)
    decreases depth, 0, |cs|
  {
    if cs == [] then (best, b)
    else
      var (v, b2) := Child(b, cs[0], Player, depth - 1, true, alpha, beta);
      var best', beta' := Min(best, v), Min(beta, v);
      if Le(beta', alpha) then (best', b2)
      else SearchMin(b2, cs[1..], depth, alpha, beta', best')
  }

  // ---------------------------------------------------------------------
  // When the search puts every stone on an empty cell

  /** Every move the search (pruned or not) may try from b lands on an
      empty cell, all the way down. */
  predicate Clean(b: Grid, depth: nat, isMax: bool)
    requires WellFormed(b)
    decreases depth, 1, 0
  {
    IsTerminal(BoardScore(b, Ai), depth) || CleanOver(b, Candidates(b), depth, isMax)
  }

  predicate CleanOver(b: Grid, cs: seq<Move>, depth: nat, isMax: bool)
    requires WellFormed(b) && depth >= 1 && AllInBounds(cs)
    decreases depth, 0, |cs|
  {
    cs == [] ||
    (IsEmptyAt(b, cs[0]) && Clean(Place(b, cs[0], Mover(isMax)), depth - 1, !isMax) &&
     CleanOver(b, cs[1..], depth, isMax))
  }

  /** With at least depth empty cells every move of the search is played on
      an empty cell: each ply fills one, and while one is left the
      candidates are all empty cells. */
  lemma {:induction false} RoomIsClean(b: Grid, depth: nat, isMax: bool)
    requires WellFormed(b) && |EmptyCells(b)| >= depth
    ensures Clean(b, depth, isMax)
    decreases depth, 1, 0
  {
    if !IsTerminal(BoardScore(b, Ai), depth) {
      var m := SomeEmptyCell(b);
      CandidatesAreEmpty(b);
      assert forall m :: m in Candidates(b) ==> IsEmptyAt(b, m);
      RoomIsCleanOver(b, Candidates(b), depth, isMax);
    }
  }

  lemma {:induction false} RoomIsCleanOver(b: Grid, cs: seq<Move>, depth: nat, isMax: bool)
    requires WellFormed(b) && depth >= 1 && AllInBounds(cs) && |EmptyCells(b)| >= depth
    requires forall m :: m in cs ==> IsEmptyAt(b, m)
    ensures CleanOver(b, cs, depth, isMax)
    decreases depth, 0, |cs|
  {
    if cs != [] {
      var child := Place(b, cs[0], Mover(isMax));
      PlaceFillsOne(b, cs[0], Mover(isMax));
      RoomIsClean(child, depth - 1, !isMax);
      RoomIsCleanOver(b, cs[1..], depth, isMax);
      CleanOverCons(b, cs, depth, isMax);
    }
  }

  lemma CleanOverCons(b: Grid, cs: seq<Move>, depth: nat, isMax: bool)
    requires WellFormed(b) && depth >= 1 && AllInBounds(cs) && cs != []
    requires IsEmptyAt(b, cs[0]) && Clean(Place(b, cs[0], Mover(isMax)), depth - 1, !isMax)
    requires CleanOver(b, cs[1..], depth, isMax)
    ensures CleanOver(b, cs, depth, isMax)
  {
  }

  /** Without room the board is not restored: on a full board whose score
      is not decisive the only candidate is the occupied centre, and the
      search overwrites it and then sets it to Empty, so the stone there is
      gone from the board the search leaves. */
  lemma FullBoardSearchClearsCentre(b: Grid, depth: nat, isMax: bool, alpha: Score, beta: Score)
    requires WellFormed(b) && Full(b) && depth >= 1 && RealAbs(BoardScore(b, Ai)) < Decisive
    ensures Search(b, depth, isMax, alpha, beta).1[Centre.0][Centre.1] == Empty
    ensures Search(b, depth, isMax, alpha, beta).1 != b
  {
    FullBoardCandidates(b);
    var cs := Candidates(b);
    var b2 := Child(b, Centre, Mover(isMax), depth - 1, !isMax, alpha, beta).1;
    assert b2[Centre.0][Centre.1] == Empty;
    assert cs[1..] == [];
    if isMax {
      assert Search(b, depth, isMax, alpha, beta) == SearchMax(b, cs, depth, alpha, beta, NegInf);
      assert SearchMax(b, cs, depth, alpha, beta, NegInf).1 == b2;
    } else {
      assert Search(b, depth, isMax, alpha, beta) == SearchMin(b, cs, depth, alpha, beta, PosInf);
      assert SearchMin(b, cs, depth, alpha, beta, PosInf).1 == b2;
    }
    assert b[Centre.0][Centre.1] != Empty;
  }

  // ---------------------------------------------------------------------
  // Alpha-beta returns the minimax value, within its window

  /** The fail-soft guarantee of a search value r for the true value v
      within the window (alpha, beta): at or below alpha it is an upper
      bound, at or above beta a lower bound, strictly between them exact. */
  predicate FailSoft(r: Score, v: Score, alpha: Score, beta: Score) {
    (Le(r, alpha) ==> Le(v, r)) &&
    (Le(beta, r) ==> Le(r, v)) &&
    (Lt(alpha, r) && Lt(r, beta) ==> r == v)
  }

  /** On a board where every move lands on an empty cell, minimax leaves
      the board as it found it and its value meets the fail-soft guarantee
      for the unpruned minimax value. */
  lemma {:induction false} SearchAgrees(b: Grid, depth: nat, isMax: bool, alpha: Score, beta: Score)
    requires WellFormed(b) && Lt(alpha, beta) && Clean(b, depth, isMax)
    ensures Search(b, depth, isMax, alpha, beta).1 == b
    ensures FailSoft(Search(b, depth, isMax, alpha, beta).0, Minimax(b, depth, isMax), alpha, beta)
    decreases depth, 1, 0
  {
    if !IsTerminal(BoardScore(b, Ai), depth) {
      if isMax {
        SearchMaxAgrees(b, Candidates(b), depth, alpha, alpha, beta, NegInf, NegInf);
      } else {
        SearchMinAgrees(b, Candidates(b), depth, alpha, beta, beta, PosInf, PosInf);
      }
    }
  }

  /** The maximising loop's invariant, for a loop entered with window
      (alpha0, beta): alpha is alpha0 raised to the running maximum best, no
      cut has happened, and prefix, the true maximum over the candidates
      already tried, is at most best and equals it once best is above
      alpha0. */
  predicate MaxInvariant(alpha0: Score, alpha: Score, beta: Score, best: Score, prefix: Score) {
    alpha == Max(alpha0, best) && Lt(alpha, beta) &&
    Le(prefix, best) && (Lt(alpha0, best) ==> prefix == best)
  }

  /** The minimising loop's invariant, the mirror image of MaxInvariant. */
  predicate MinInvariant(alpha: Score, beta0: Score, beta: Score, best: Score, prefix: Score) {
    beta == Min(beta0, best) && Lt(alpha, beta) &&
    Le(best, prefix) && (Lt(best, beta0) ==> prefix == best)
  }

  /** One child of a maximising node, of search value v and true value c,
      searched within (alpha, beta): either the loop goes on with its
      invariant, or the cut leaves a fail-soft lower bound whatever the
      remaining candidates are worth (rest). */
  lemma MaxStep(alpha0: Score, alpha: Score, beta: Score, best: Score, prefix: Score, v: Score, c: Score, rest: Score)
    requires MaxInvariant(alpha0, alpha, beta, best, prefix) && FailSoft(v, c, alpha, beta)
    ensures Lt(Max(alpha, v), beta) ==> MaxInvariant(alpha0, Max(alpha, v), beta, Max(best, v), Max(prefix, c))
    ensures Max(Max(prefix, c), rest) == Max(prefix, Max(c, rest))
    ensures Le(beta, Max(alpha, v)) ==> FailSoft(Max(best, v), Max(prefix, Max(c, rest)), alpha0, beta)
  {
  }

  lemma MinStep(alpha: Score, beta0: Score, beta: Score, best: Score, prefix: Score, v: Score, c: Score, rest: Score)
    requires MinInvariant(alpha, beta0, beta, best, prefix) && FailSoft(v, c, alpha, beta)
    ensures Lt(alpha, Min(beta, v)) ==> MinInvariant(alpha, beta0, Min(beta, v), Min(best, v), Min(prefix, c))
    ensures Min(Min(prefix, c), rest) == Min(prefix, Min(c, rest))
    ensures Le(Min(beta, v), alpha) ==> FailSoft(Min(best, v), Min(prefix, Min(c, rest)), alpha, beta0)
  {
  }

  /** The maximising loop meets the fail-soft guarantee for the maximum of
      prefix and the true values of the remaining candidates cs, and
      restores the board. */
  lemma {:induction false} SearchMaxAgrees(b: Grid, cs: seq<Move>, depth: nat, alpha0: Score, alpha: Score, beta: Score,
                                           best: Score, prefix: Score)
    requires WellFormed(b) && depth >= 1 && AllInBounds(cs) && CleanOver(b, cs, depth, true)
    requires MaxInvariant(alpha0, alpha, beta, best, prefix)
    ensures SearchMax(b, cs, depth, alpha, beta, best).1 == b
    ensures FailSoft(SearchMax(b, cs, depth, alpha, beta, best).0, Max(prefix, MaxOver(b, cs, depth)), alpha0, beta)
    decreases depth, 0, |cs|
  {
    if cs != [] {
      var m := cs[0];
      var child := Place(b, m, Ai);
      SearchAgrees(child, depth - 1, false, alpha, beta);
      PlaceUndo(b, m, Ai);
      var v := Search(child, depth - 1, false, alpha, beta).0;
      var c := Minimax(child, depth - 1, false);
      MaxStep(alpha0, alpha, beta, best, prefix, v, c, MaxOver(b, cs[1..], depth));
      if Lt(Max(alpha, v), beta) {
        SearchMaxAgrees(b, cs[1..], depth, alpha0, Max(alpha, v), beta, Max(best, v), Max(prefix, c));
      }
    }
  }

  /** The minimising loop, the mirror image of SearchMaxAgrees. */
  lemma {:induction false} SearchMinAgrees(b: Grid, cs: seq<Move>, depth: nat, alpha: Score, beta0: Score, beta: Score,
                                           best: Score, prefix: Score)
    requires WellFormed(b) && depth >= 1 && AllInBounds(cs) && CleanOver(b, cs, depth, false)
    requires MinInvariant(alpha, beta0, beta, best, prefix)
    ensures SearchMin(b, cs, depth, alpha, beta, best).1 == b
    ensures FailSoft(SearchMin(b, cs, depth, alpha, beta, best).0, Min(prefix, MinOver(b, cs, depth)), alpha, beta0)
    decreases depth, 0, |cs|
  {
    if cs != [] {
      var m := cs[0];
      var child := Place(b, m, Player);
      SearchAgrees(child, depth - 1, true, alpha, beta);
      PlaceUndo(b, m, Player);
      var v := Search(child, depth - 1, true, alpha, beta).0;
      var c := Minimax(child, depth - 1, true);
      MinStep(alpha, beta0, beta, best, prefix, v, c, MinOver(b, cs[1..], depth));
      if Lt(alpha, Min(beta, v)) {
        SearchMinAgrees(b, cs[1..], depth, alpha, beta0, Min(beta, v), Min(best, v), Min(prefix, c));
      }
    }
  }

  /** With the full window (-inf, +inf), as the machine calls it, minimax
      returns exactly the unpruned value and restores the board. */
  lemma FullWindowIsMinimax(b: Grid, depth: nat, isMax: bool)
    requires WellFormed(b) && Clean(b, depth, isMax)
    ensures Search(b, depth, isMax, NegInf, PosInf) == (Minimax(b, depth, isMax), b)
  {
    SearchAgrees(b, depth, isMax, NegInf, PosInf);
  }

  /** Every minimax value is a board score: the candidate list is never
      empty, so no infinity survives. */
  lemma {:induction false} MinimaxIsFinite(b: Grid, depth: nat, isMax: bool)
    requires WellFormed(b)
    ensures Minimax(b, depth, isMax).Fin?
    decreases depth, 1, 0
  {
    if !IsTerminal(BoardScore(b, Ai), depth) {
      if isMax {
        MaxOverIsFinite(b, Candidates(b), depth);
      } else {
        MinOverIsFinite(b, Candidates(b), depth);
      }
    }
  }

  lemma {:induction false} MaxOverIsFinite(b: Grid, cs: seq<Move>, depth: nat)
    requires WellFormed(b) && depth >= 1 && AllInBounds(cs) && cs != []
    ensures MaxOver(b, cs, depth).Fin?
    decreases depth, 0, |cs|
  {
    MinimaxIsFinite(Place(b, cs[0], Ai), depth - 1, false);
    if |cs| > 1 {
      MaxOverIsFinite(b, cs[1..], depth);
    }
  }

  lemma {:induction false} MinOverIsFinite(b: Grid, cs: seq<Move>, depth: nat)
    requires WellFormed(b) && depth >= 1 && AllInBounds(cs) && cs != []
    ensures MinOver(b, cs, depth).Fin?
    decreases depth, 0, |cs|
  {
    MinimaxIsFinite(Place(b, cs[0], Player), depth - 1, true);
    if |cs| > 1 {
      MinOverIsFinite(b, cs[1..], depth);
    }
  }

  /** minimax as written always returns a board score, whatever the board
      and the window: each loop starts from an infinity and meets at least
      one child. */
  lemma {:induction false} SearchIsFinite(b: Grid, depth: nat, isMax: bool, alpha: Score, beta: Score)
    requires WellFormed(b)
    ensures Search(b, depth, isMax, alpha, beta).0.Fin?
    decreases depth, 1, 0
  {
    if !IsTerminal(BoardScore(b, Ai), depth) {
      if isMax {
        SearchMaxIsFinite(b, Candidates(b), depth, alpha, beta, NegInf);
      } else {
        SearchMinIsFinite(b, Candidates(b), depth, alpha, beta, PosInf);
      }
    }
  }

  lemma {:induction false} SearchMaxIsFinite(b: Grid, cs: seq<Move>, depth: nat, alpha: Score, beta: Score, best: Score)
    requires WellFormed(b) && depth >= 1 && AllInBounds(cs)
    requires !best.PosInf? && (cs != [] || best.Fin?)
    ensures SearchMax(b, cs, depth, alpha, beta, best).0.Fin?
    decreases depth, 0, |cs|
  {
    if cs != [] {
      var child := Place(b, cs[0], Ai);
      SearchIsFinite(child, depth - 1, false, alpha, beta);
      var (v, b1) := Search(child, depth - 1, false, alpha, beta);
      SearchMaxIsFinite(Place(b1, cs[0], Empty), cs[1..], depth, Max(alpha, v), beta, Max(best, v));
    }
  }

  lemma {:induction false} SearchMinIsFinite(b: Grid, cs: seq<Move>, depth: nat, alpha: Score, beta: Score, best: Score)
    requires WellFormed(b) && depth >= 1 && AllInBounds(cs)
    requires !best.NegInf? && (cs != [] || best.Fin?)
    ensures SearchMin(b, cs, depth, alpha, beta, best).0.Fin?
    decreases depth, 0, |cs|
  {
    if cs != [] {
      var child := Place(b, cs[0], Player);
      SearchIsFinite(child, depth - 1, true, alpha, beta);
      var (v, b1) := Search(child, depth - 1, true, alpha, beta);
      SearchMinIsFinite(Place(b1, cs[0], Empty), cs[1..], depth, alpha, Min(beta, v), Min(best, v));
    }
  }

  // ---------------------------------------------------------------------
  // ai_move

  /** ai_move's loop over the remaining candidates cs: each is tried with
      the full window at MaxDepth, and a strictly better score replaces the
      best move so far. */
  function AiLoop(b: Grid, cs: seq<Move>, best: Score, move: Option<Move>): (r: (Option<Move>, Grid))
    requires WellFormed(b) && AllInBounds(cs)
    ensures WellFormed(r.1)
    ensures r.0 == move || (r.0.Some? && r.0.value in cs)
    decreases cs
  {
    if cs == [] then (move, b)
    else
      var m := cs[0];
      var (s, b2) := Child(b, m, Ai, MaxDepth, false, NegInf, PosInf);
      if Lt(best, s) then AiLoop(b2, cs[1..], s, Some(m))
      else AiLoop(b2, cs[1..], best, move)
  }

  /** ai_move: the move chosen and the board as it is left. */
  function AiChoice(b: Grid): (r: (Option<Move>, Grid))
    requires WellFormed(b)
    ensures WellFormed(r.1)
    ensures r.0.Some? ==> r.0.value in Candidates(b) && InBounds(r.0.value.0, r.0.value.1)
  {
    AiLoop(b, Candidates(b), NegInf, None)
  }

  /** The value of the position after the machine plays m. */
  function ChildValue(b: Grid, m: Move): Score
    requires WellFormed(b) && InBounds(m.0, m.1)
  {
    Minimax(Place(b, m, Ai), MaxDepth, false)
  }

  /** cs[k] has the largest child value among cs, and no earlier candidate
      reaches it. */
  predicate FirstBest(b: Grid, cs: seq<Move>, k: int)
    requires WellFormed(b) && AllInBounds(cs)
  {
    0 <= k < |cs| &&
    (forall i :: 0 <= i < k ==> Lt(ChildValue(b, cs[i]), ChildValue(b, cs[k]))) &&
    (forall i :: k < i < |cs| ==> Le(ChildValue(b, cs[i]), ChildValue(b, cs[k])))
  }

  /** With room for the whole search, trying an empty cell m gives its
      child value and leaves the board as it was. */
  lemma AiTry(b: Grid, m: Move)
    requires WellFormed(b) && IsEmptyAt(b, m) && |EmptyCells(b)| >= MaxDepth + 1
    ensures Child(b, m, Ai, MaxDepth, false, NegInf, PosInf) == (ChildValue(b, m), b)
  {
    var child := Place(b, m, Ai);
    PlaceFillsOne(b, m, Ai);
    RoomIsClean(child, MaxDepth, false);
    FullWindowIsMinimax(child, MaxDepth, false);
    PlaceUndo(b, m, Ai);
  }

  /** One turn of ai_move's loop on an empty cell, with room for the whole
      search: the board comes back unchanged and the score compared is the
      child value. */
  lemma AiLoopStep(b: Grid, cs: seq<Move>, best: Score, move: Option<Move>)
    requires WellFormed(b) && AllInBounds(cs) && cs != [] && |EmptyCells(b)| >= MaxDepth + 1
    requires IsEmptyAt(b, cs[0])
    ensures AiLoop(b, cs, best, move) ==
            if Lt(best, ChildValue(b, cs[0])) then AiLoop(b, cs[1..], ChildValue(b, cs[0]), Some(cs[0]))
            else AiLoop(b, cs[1..], best, move)
  {
    AiTry(b, cs[0]);
  }

  /** No candidate of cs has a child value above best. */
  predicate NoneBeats(b: Grid, cs: seq<Move>, best: Score)
    requires WellFormed(b) && AllInBounds(cs)
  {
    forall i :: 0 <= i < |cs| ==> Le(ChildValue(b, cs[i]), best)
  }

  /** What ai_move's loop over cs, entered with best and move, ends on: move
      itself when no candidate beats best, otherwise the first best
      candidate, which beats best. */
  predicate Picked(b: Grid, cs: seq<Move>, best: Score, move: Option<Move>, mv: Option<Move>)
    requires WellFormed(b) && AllInBounds(cs)
  {
    (mv == move && NoneBeats(b, cs, best)) ||
    (exists k :: 0 <= k < |cs| && FirstBest(b, cs, k) && mv == Some(cs[k]) && Lt(best, ChildValue(b, cs[k])))
  }

  /** A head that does not beat best leaves the tail's pick standing. */
  lemma PickedKeep(b: Grid, cs: seq<Move>, best: Score, move: Option<Move>, mv: Option<Move>)
    requires WellFormed(b) && AllInBounds(cs) && cs != []
    requires Le(ChildValue(b, cs[0]), best) && Picked(b, cs[1..], best, move, mv)
    ensures Picked(b, cs, best, move, mv)
  {
    if mv == move && NoneBeats(b, cs[1..], best) {
      forall i | 0 < i < |cs|
        ensures Le(ChildValue(b, cs[i]), best)
      {
        assert cs[i] == cs[1..][i - 1];
      }
    } else {
      var k :| FirstBest(b, cs[1..], k) && mv == Some(cs[1..][k]) && Lt(best, ChildValue(b, cs[1..][k]));
      FirstBestShift(b, cs, k);
    }
  }

  /** A head that beats best becomes the pick unless the tail beats it. */
  lemma PickedTake(b: Grid, cs: seq<Move>, best: Score, move: Option<Move>, mv: Option<Move>)
    requires WellFormed(b) && AllInBounds(cs) && cs != []
    requires Lt(best, ChildValue(b, cs[0])) && Picked(b, cs[1..], ChildValue(b, cs[0]), Some(cs[0]), mv)
    ensures Picked(b, cs, best, move, mv)
  {
    var s := ChildValue(b, cs[0]);
    if mv == Some(cs[0]) && NoneBeats(b, cs[1..], s) {
      forall i | 0 < i < |cs|
        ensures Le(ChildValue(b, cs[i]), s)
      {
        assert cs[i] == cs[1..][i - 1];
      }
      assert FirstBest(b, cs, 0);
    } else {
      var k :| FirstBest(b, cs[1..], k) && mv == Some(cs[1..][k]) && Lt(s, ChildValue(b, cs[1..][k]));
      FirstBestShift(b, cs, k);
    }
  }

  /** The first best of the tail, strictly better than the head, is the
      first best of the whole list. */
  lemma FirstBestShift(b: Grid, cs: seq<Move>, k: int)
    requires WellFormed(b) && AllInBounds(cs) && cs != []
    requires FirstBest(b, cs[1..], k) && Lt(ChildValue(b, cs[0]), ChildValue(b, cs[1..][k]))
    ensures FirstBest(b, cs, k + 1)
  {
    forall i | 0 < i < |cs|
      ensures cs[i] == cs[1..][i - 1]
    {
    }
  }

  /** The loop keeps the board and ends on the move Picked describes. */
  lemma {:induction false} AiLoopPicks(b: Grid, cs: seq<Move>, best: Score, move: Option<Move>)
    requires WellFormed(b) && AllInBounds(cs) && |EmptyCells(b)| >= MaxDepth + 1
    requires forall i :: 0 <= i < |cs| ==> IsEmptyAt(b, cs[i])
    ensures AiLoop(b, cs, best, move).1 == b
    ensures Picked(b, cs, best, move, AiLoop(b, cs, best, move).0)
    decreases cs
  {
    if cs != [] {
      var m, rest := cs[0], cs[1..];
      AiLoopStep(b, cs, best, move);
      var s := ChildValue(b, m);
      var mv := AiLoop(b, cs, best, move).0;
      if Lt(best, s) {
        AiLoopPicks(b, rest, s, Some(m));
        PickedTake(b, cs, best, move, mv);
      } else {
        AiLoopPicks(b, rest, best, move);
        PickedKeep(b, cs, best, move, mv);
      }
    }
  }

  /** ai_move with at least MaxDepth + 1 empty cells leaves the board as it
      was and picks the first candidate, in iteration order, whose position
      has the largest minimax value. */
  lemma AiChoiceIsFirstBest(b: Grid)
    requires WellFormed(b) && |EmptyCells(b)| >= MaxDepth + 1
    ensures AiChoice(b).1 == b
    ensures AiChoice(b).0.Some?
    ensures exists k :: FirstBest(b, Candidates(b), k) && AiChoice(b).0 == Some(Candidates(b)[k])
  {
    var cs := Candidates(b);
    var m := SomeEmptyCell(b);
    CandidatesAreEmpty(b);
    AiLoopPicks(b, cs, NegInf, None);
    MinimaxIsFinite(Place(b, cs[0], Ai), MaxDepth, false);
  }

  /** ai_move always names a move, on any board: the first candidate's
      score is finite and so beats -inf, and a named move is never dropped. */
  lemma AiChoiceIsSome(b: Grid)
    requires WellFormed(b)
    ensures AiChoice(b).0.Some?
  {
    var cs := Candidates(b);
    var child := Place(b, cs[0], Ai);
    SearchIsFinite(child, MaxDepth, false, NegInf, PosInf);
    var (s, b1) := Search(child, MaxDepth, false, NegInf, PosInf);
    var r := AiLoop(Place(b1, cs[0], Empty), cs[1..], s, Some(cs[0]));
    assert r.0.Some?;
  }
}
