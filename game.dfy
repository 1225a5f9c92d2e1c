/** The game session: the shared board and game-over flag, new_game and
    player_move, and the engine routines working on the board in place. */
module Server {
  import opened GomokuBoard
  import opened WinCheck
  import opened Evaluation
  import opened CandidateGen
  import opened AlphaBeta

  /** The reply to player_move. */
  datatype Outcome =
    | GameAlreadyOver      // the game has ended; nothing changes
    | CellOccupied         // the chosen cell holds a stone; nothing changes
    | HumanWon             // the human's stone completes a run
    | AiWon(move: Move)    // the machine's reply completes a run
    | AiMoved(move: Move)  // the machine replied and play goes on
    | Draw                 // the machine found no move

  /** player_move on a game in state (over, b): the reply, the new game-over
      flag and the new board. */
  function Step(over: bool, b: Grid, row: int, col: int): (r: (Outcome, bool, Grid))
    requires WellFormed(b) && InBounds(row, col)
    ensures WellFormed(r.2)
  {
    if over then (GameAlreadyOver, over, b)
    else if b[row][col] != Empty then (CellOccupied, over, b)
    else
      var b1 := Place(b, (row, col), Player);
      if Wins(b1, row, col, Player) then (HumanWon, true, b1)
      else
        var (move, b2) := AiChoice(b1);
        match move
        case Some(m) =>
          var b3 := Place(b2, m, Ai);
          if Wins(b3, m.0, m.1, Ai) then (AiWon(m), true, b3) else (AiMoved(m), over, b3)
        case None => (Draw, over, b2)
  }

  /** The replies of player_move: a finished game and an occupied cell are
      refused without change; the human wins exactly when the new stone
      completes a run, which ends the game with no machine reply; the
      machine's reply is never a draw, and the game ends exactly when the
      reply wins. */
  lemma StepRules(over: bool, b: Grid, row: int, col: int)
    requires WellFormed(b) && InBounds(row, col)
    ensures over ==> Step(over, b, row, col) == (GameAlreadyOver, true, b)
    ensures !over && b[row][col] != Empty ==> Step(over, b, row, col) == (CellOccupied, false, b)
    ensures !over && b[row][col] == Empty ==>
              var b1 := Place(b, (row, col), Player);
              var (o, over', b') := Step(over, b, row, col);
              (o == HumanWon <==> Wins(b1, row, col, Player)) &&
              (o == HumanWon ==> over' && b' == b1) &&
              o != Draw && o != GameAlreadyOver && o != CellOccupied &&
              (o.AiWon? || o.AiMoved? ==> (over' <==> o.AiWon?) && over' == Wins(b', o.move.0, o.move.1, Ai))
  {
    if !over && b[row][col] == Empty {
      var b1 := Place(b, (row, col), Player);
      if !Wins(b1, row, col, Player) {
        AiChoiceIsSome(b1);
        var (move, b2) := AiChoice(b1);
        var b3 := Place(b2, move.value, Ai);
        if Wins(b3, move.value.0, move.value.1, Ai) {
          assert Step(over, b, row, col) == (AiWon(move.value), true, b3);
        } else {
          assert Step(over, b, row, col) == (AiMoved(move.value), false, b3);
        }
      }
    }
  }

  /** While at least MaxDepth + 2 cells are empty before the human's move,
      the machine replies on an empty cell, chosen as the first best
      candidate, and the board is the old one with the two new stones. */
  lemma StepWithRoom(b: Grid, row: int, col: int)
    requires WellFormed(b) && InBounds(row, col) && b[row][col] == Empty
    requires |EmptyCells(b)| >= MaxDepth + 2
    requires !Wins(Place(b, (row, col), Player), row, col, Player)
    ensures var b1 := Place(b, (row, col), Player);
            var (o, over', b') := Step(false, b, row, col);
            (o.AiWon? || o.AiMoved?) &&
            IsEmptyAt(b1, o.move) &&
            (exists k :: FirstBest(b1, Candidates(b1), k) && o.move == Candidates(b1)[k]) &&
            b' == Place(b1, o.move, Ai)
  {
    var b1 := Place(b, (row, col), Player);
    PlaceFillsOne(b, (row, col), Player);
    AiChoiceIsFirstBest(b1);
    var m := SomeEmptyCell(b1);
    assert !Full(b1) by { assert IsEmptyAt(b1, m); }
    CandidatesAreEmpty(b1);
    var k :| FirstBest(b1, Candidates(b1), k) && AiChoice(b1).0 == Some(Candidates(b1)[k]);
    var reply := Candidates(b1)[k];
    assert IsEmptyAt(b1, reply);
    assert AiChoice(b1) == (Some(reply), b1);
    var b3 := Place(b1, reply, Ai);
    if Wins(b3, reply.0, reply.1, Ai) {
      assert Step(false, b, row, col) == (AiWon(reply), true, b3);
    } else {
      assert Step(false, b, row, col) == (AiMoved(reply), false, b3);
    }
  }

  /** When the human's move fills the last empty cell without winning, the
      only candidate is the occupied centre: the machine replies there,
      writing its stone over the stone the centre held, and the draw reply
      is not given. */
  lemma FullBoardReplyOverwritesCentre(b: Grid, row: int, col: int)
    requires WellFormed(b) && InBounds(row, col) && b[row][col] == Empty
    requires Full(Place(b, (row, col), Player))
    requires !Wins(Place(b, (row, col), Player), row, col, Player)
    ensures var b1 := Place(b, (row, col), Player);
            var (o, over', b') := Step(false, b, row, col);
            (o == AiWon(Centre) || o == AiMoved(Centre)) &&
            b1[Centre.0][Centre.1] != Empty && b'[Centre.0][Centre.1] == Ai
  {
    var b1 := Place(b, (row, col), Player);
    FullBoardCandidates(b1);
    AiChoiceIsSome(b1);
    var (move, b2) := AiChoice(b1);
    assert move == Some(Centre);
    var b3 := Place(b2, Centre, Ai);
    if Wins(b3, Centre.0, Centre.1, Ai) {
      assert Step(false, b, row, col) == (AiWon(Centre), true, b3);
    } else {
      assert Step(false, b, row, col) == (AiMoved(Centre), false, b3);
    }
  }

  /** A game: the board, kept in place, and the game-over flag. */
  class Game {
    var board: array2<int>
    var gameOver: bool
    /** The board's contents as a value. */
    ghost var cells: Grid

    ghost predicate Valid()
      reads this, board
    {
      board.Length0 == BoardSize && board.Length1 == BoardSize && Proper(cells) &&
      forall r, c :: 0 <= r < BoardSize && 0 <= c < BoardSize ==> board[r, c] == cells[r][c]
    }

    /** The state at start-up: an empty board, game not over. */
    constructor ()
      ensures Valid() && fresh(board)
      ensures cells == EmptyGrid() && !gameOver
    {
      board := new int[BoardSize, BoardSize]((r, c) => Empty);
      gameOver := false;
      cells := EmptyGrid();
    }

    /** reset_game: a fresh empty board and the game not over. */
    method ResetGame()
      modifies this
      ensures Valid() && fresh(board)
      ensures cells == EmptyGrid() && !gameOver
    {
      board := new int[BoardSize, BoardSize]((r, c) => Empty);
      gameOver := false;
      cells := EmptyGrid();
    }

    /** board[m] = v, for one of the three cell values. */
    method SetCell(m: Move, v: int)
      requires Valid() && InBounds(m.0, m.1) && Empty <= v <= Ai
      modifies this, board
      ensures Valid() && board == old(board) && gameOver == old(gameOver)
      ensures cells == Place(old(cells), m, v)
    {
      board[m.0, m.1] := v;
      cells := Place(cells, m, v);
    }

    /** check_win: each direction's count is the origin plus the runs of
        player's stones on both sides. */
    method CheckWin(row: int, col: int, player: int) returns (won: bool)
      requires Valid()
      ensures won == Wins(cells, row, col, player)
    {
      var k := 0;
      while k < |Directions|
        invariant 0 <= k <= |Directions|
        invariant forall j :: 0 <= j < k ==> LineCount(cells, row, col, Directions[j], player) < WinCount
      {
        var (dr, dc) := Directions[k];
        var count := 1;
        var signs := [1, -1];
        var j := 0;
        while j < |signs|
          invariant 0 <= j <= |signs|
          invariant count == 1 + (if j >= 1 then Run(cells, row, col, dr, dc, player, WinCount) else 0)
                               + (if j >= 2 then Run(cells, row, col, -dr, -dc, player, WinCount) else 0)
        {
          var d := signs[j];
          var n := RunLength(row, col, dr * d, dc * d, player);
          count := count + n;
          j := j + 1;
        }
        if count >= WinCount {
          return true;
        }
        k := k + 1;
      }
      return false;
    }

    /** check_win's innermost loop: step (dr, dc) at a time from (row, col),
        at most WinCount times, while the cells hold player. */
    method RunLength(row: int, col: int, dr: int, dc: int, player: int) returns (n: nat)
      requires Valid()
      ensures n == Run(cells, row, col, dr, dc, player, WinCount)
    {
      n := 0;
      var r, c := row, col;
      while n < WinCount
        invariant 0 <= n <= WinCount
        invariant Run(cells, row, col, dr, dc, player, WinCount) == n + Run(cells, r, c, dr, dc, player, WinCount - n)
      {
        r := r + dr;
        c := c + dc;
        if InBounds(r, c) && board[r, c] == player {
          n := n + 1;
        } else {
          break;
        }
      }
    }

    /** evaluate_point: for each direction, the window of 9 cells centred
        on (row, col), then every occurrence of every pattern of player
        adds the pattern's weight. */
    method EvaluatePoint(row: int, col: int, player: int) returns (score: nat)
      requires Valid()
      ensures score == PointScore(cells, row, col, player)
    {
      score := 0;
      var k := 0;
      while k < |Directions|
        invariant 0 <= k <= |Directions|
        invariant score == DirectionsScore(cells, row, col, player, k)
      {
        var line := LineAt(row, col, Directions[k]);
        var s := LineScore(line, player);
        score := score + s;
        k := k + 1;
      }
    }

    /** evaluate_point's pattern loop over one line: every occurrence of
        every pattern of player adds the pattern's weight. */
    static method LineScore(line: seq<int>, player: int) returns (score: nat)
      requires |line| == WindowLength
      ensures score == PatternsScore(line, player, |Patterns(player)|)
    {
      score := 0;
      var patterns := Patterns(player);
      var q := 0;
      while q < |patterns|
        invariant 0 <= q <= |patterns|
        invariant score == PatternsScore(line, player, q)
      {
        var entry := patterns[q];
        var n := CountMatches(line, entry.0);
        assert PatternsScore(line, player, q + 1) == PatternsScore(line, player, q) + entry.1 * n;
        score := score + entry.1 * n;
        q := q + 1;
      }
    }

    /** evaluate_point's line: the cells at steps -4 .. 4 along d from
        (row, col), -1 where off the board. */
    method LineAt(row: int, col: int, d: (int, int)) returns (line: seq<int>)
      requires Valid()
      ensures line == Window(cells, row, col, d)
    {
      var (dr, dc) := d;
      line := [];
      var i := -Reach;
      while i < Reach + 1
        invariant -Reach <= i <= Reach + 1
        invariant |line| == i + Reach
        invariant forall j :: 0 <= j < |line| ==> line[j] == CellOr(cells, row + (j - Reach) * dr, col + (j - Reach) * dc)
      {
        var r, c := row + dr * i, col + dc * i;
        assert r == row + (|line| - Reach) * dr && c == col + (|line| - Reach) * dc;
        if InBounds(r, c) {
          line := line + [board[r, c]];
        } else {
          line := line + [OffBoard];
        }
        i := i + 1;
      }
    }

    /** evaluate_point's innermost loop: the offsets at which pattern
        occurs in line. */
    static method CountMatches(line: seq<int>, pattern: seq<int>) returns (n: nat)
      requires |pattern| <= |line| + 1
      ensures n == Occurrences(line, pattern, Offsets(line, pattern))
    {
      n := 0;
      var i := 0;
      while i < |line| - |pattern| + 1
        invariant 0 <= i <= |line| - |pattern| + 1
        invariant n == Occurrences(line, pattern, i)
      {
        if line[i..i + |pattern|] == pattern {
          n := n + 1;
        }
        i := i + 1;
      }
    }

    /** evaluate_board: player's stones add their point score, the
        opponent's subtract 0.8 of theirs. */
    method EvaluateBoard(player: int) returns (score: real)
      requires Valid()
      ensures score == BoardScore(cells, player)
    {
      score := 0.0;
      var r := 0;
      while r < BoardSize
        invariant 0 <= r <= BoardSize
        invariant score == RowsScore(cells, player, r)
      {
        var c := 0;
        while c < BoardSize
          invariant 0 <= c <= BoardSize
          invariant score == RowsScore(cells, player, r) + RowScore(cells, player, r, c)
        {
          assert RowScore(cells, player, r, c + 1) == RowScore(cells, player, r, c) + CellScore(cells, r, c, player);
          if board[r, c] != Empty {
            var p := board[r, c];
            var point := EvaluatePoint(r, c, p);
            if p == player {
              score := score + point as real;
            } else {
              score := score - 0.8 * point as real;
            }
          }
          c := c + 1;
        }
        r := r + 1;
      }
    }

    /** generate_candidates: the empty neighbours of every stone, gathered
        in a set and listed in row-major order; the centre when there are
        none. */
    method GenerateCandidates() returns (cs: seq<Move>)
      requires Valid()
      ensures cs == Candidates(cells)
    {
      var found: set<Move> := {};
      var r := 0;
      while r < BoardSize
        invariant 0 <= r <= BoardSize
        invariant found == ScanRows(cells, r)
      {
        var c := 0;
        while c < BoardSize
          invariant 0 <= c <= BoardSize
          invariant found == ScanRows(cells, r) + ScanRow(cells, r, c)
        {
          if board[r, c] != Empty {
            found := AddNeighbours(found, r, c);
          }
          c := c + 1;
        }
        r := r + 1;
      }
      if found == {} {
        cs := [Centre];
      } else {
        cs := ListRows(found, BoardSize);
      }
    }

    /** generate_candidates' two inner loops: the empty on-board cells
        around (r, c) join the set. */
    method AddNeighbours(found: set<Move>, r: int, c: int) returns (found': set<Move>)
      requires Valid()
      ensures found' == found + Neighbours(cells, r, c, 2)
    {
      found' := found;
      var dr := -1;
      while dr < 2
        invariant -1 <= dr <= 2
        invariant found' == found + Neighbours(cells, r, c, dr)
      {
        var dc := -1;
        while dc < 2
          invariant -1 <= dc <= 2
          invariant found' == found + Neighbours(cells, r, c, dr) + NeighboursInRow(cells, r, c, dr, dc)
        {
          var nr, nc := r + dr, c + dc;
          if InBounds(nr, nc) && board[nr, nc] == Empty {
            found' := found' + {(nr, nc)};
          }
          dc := dc + 1;
        }
        dr := dr + 1;
      }
    }

    /** minimax, on this game's board: it returns the search value and
        leaves the board as the search does. */
    method Minimax(depth: nat, isMax: bool, alpha: Score, beta: Score) returns (r: Score)
      requires Valid()
      modifies this, board
      ensures Valid() && board == old(board) && gameOver == old(gameOver)
      ensures (r, cells) == Search(old(cells), depth, isMax, alpha, beta)
      decreases depth, 1
    {
      var score := EvaluateBoard(Ai);
      if IsTerminal(score, depth) {
        return Fin(score);
      }
      var cs := GenerateCandidates();
      if isMax {
        r := MaxLoop(cs, depth, alpha, beta);
      } else {
        r := MinLoop(cs, depth, alpha, beta);
      }
    }

    /** The body of the search loops and of ai_move's loop: place stone at
        m, search the position, then set m back to Empty. */
    method TryMove(m: Move, stone: int, depth: nat, isMax: bool, alpha: Score, beta: Score) returns (e: Score)
      requires Valid() && InBounds(m.0, m.1) && (stone == Player || stone == Ai)
      modifies this, board
      ensures Valid() && board == old(board) && gameOver == old(gameOver)
      ensures (e, cells) == Child(old(cells), m, stone, depth, isMax, alpha, beta)
      decreases depth, 2
    {
      SetCell(m, stone);
      e := Minimax(depth, isMax, alpha, beta);
      SetCell(m, Empty);
    }

    /** minimax's maximising loop over the candidates cs. */
    method MaxLoop(cs: seq<Move>, depth: nat, alpha: Score, beta: Score) returns (maxEval: Score)
      requires Valid() && depth >= 1 && AllInBounds(cs)
      modifies this, board
      ensures Valid() && board == old(board) && gameOver == old(gameOver)
      ensures (maxEval, cells) == SearchMax(old(cells), cs, depth, alpha, beta, NegInf)
      decreases depth, 0
    {
      maxEval := NegInf;
      var a := alpha;
      var rest := cs;
      while rest != []
        invariant AllInBounds(rest)
        invariant Valid() && board == old(board) && gameOver == old(gameOver)
        invariant SearchMax(cells, rest, depth, a, beta, maxEval) == SearchMax(old(cells), cs, depth, alpha, beta, NegInf)
      {
        var e := TryMove(rest[0], Ai, depth - 1, false, a, beta);
        maxEval := Max(maxEval, e);
        a := Max(a, e);
        if Le(beta, a) {
          break;
        }
        rest := rest[1..];
      }
    }

    /** minimax's minimising loop over the candidates cs. */
    method MinLoop(cs: seq<Move>, depth: nat, alpha: Score, beta: Score) returns (minEval: Score)
      requires Valid() && depth >= 1 && AllInBounds(cs)
      modifies this, board
      ensures Valid() && board == old(board) && gameOver == old(gameOver)
      ensures (minEval, cells) == SearchMin(old(cells), cs, depth, alpha, beta, PosInf)
      decreases depth, 0
    {
      minEval := PosInf;
      var b := beta;
      var rest := cs;
      while rest != []
        invariant AllInBounds(rest)
        invariant Valid() && board == old(board) && gameOver == old(gameOver)
        invariant SearchMin(cells, rest, depth, alpha, b, minEval) == SearchMin(old(cells), cs, depth, alpha, beta, PosInf)
      {
        var e := TryMove(rest[0], Player, depth - 1, true, alpha, b);
        minEval := Min(minEval, e);
        b := Min(b, e);
        if Le(b, alpha) {
          break;
        }
        rest := rest[1..];
      }
    }

    /** ai_move: each candidate is tried with the full window at MaxDepth;
        the first strictly better score gives the move. */
    method AiMove() returns (move: Option<Move>)
      requires Valid()
      modifies this, board
      ensures Valid() && board == old(board) && gameOver == old(gameOver)
      ensures (move, cells) == AiChoice(old(cells))
    {
      var bestScore := NegInf;
      move := None;
      var cs := GenerateCandidates();
      var rest := cs;
      while rest != []
        invariant AllInBounds(rest)
        invariant Valid() && board == old(board) && gameOver == old(gameOver)
        invariant AiLoop(cells, rest, bestScore, move) == AiChoice(old(cells))
      {
        var m := rest[0];
        var score := TryMove(m, Ai, MaxDepth, false, NegInf, PosInf);
        if Lt(bestScore, score) {
          bestScore := score;
          move := Some(m);
        }
        rest := rest[1..];
      }
    }

    /** player_move at (row, col). */
    method PlayerMove(row: int, col: int) returns (outcome: Outcome)
      requires Valid() && InBounds(row, col)
      modifies this, board
      ensures Valid() && board == old(board)
      ensures (outcome, gameOver, cells) == Step(old(gameOver), old(cells), row, col)
    {
      if gameOver {
        return GameAlreadyOver;
      }
      if board[row, col] != Empty {
        return CellOccupied;
      }
      SetCell((row, col), Player);
      var won := CheckWin(row, col, Player);
      if won {
        gameOver := true;
        return HumanWon;
      }
      var move := AiMove();
      match move {
        case Some(m) =>
          SetCell(m, Ai);
          var aiWon := CheckWin(m.0, m.1, Ai);
          if aiWon {
            gameOver := true;
            return AiWon(m);
          }
          return AiMoved(m);
        case None =>
          return Draw;
      }
    }
  }
}
