/** The source's `AI` searches as methods over `Board` objects: each explores
    the legal moves in a loop, branches on a fresh copy of the board per
    move, and keeps the running best score and move.  Each is proved to
    return exactly what the corresponding function of module `Search`
    computes on the board's value. */
module Ai {
  import opened Common
  import opened BoardState
  import opened Heuristics
  import opened Search
  import opened Board
  import MoveLemmas

  /** The value where the search stops: `sign * score_func(board, winner, player)`. */
  method LeafResult(board: Board, winner: Option<Player>, player: Player, h: Heuristic) returns (r: SearchResult)
    requires board.Valid() && winner == GameOver(board.Value()) && (winner.Some? || Scorable(board.Value(), h))
    ensures r == Leaf(board.Value(), player, h)
  {
    var sign := if board.active == player then 1 else -1;
    r := SearchResult(Fin(sign * Score(h, board.Value(), winner, player)), None);
  }

  /** The source's `AI.negamax`. */
  method Negamax(board: Board, depth: nat, player: Player, h: Heuristic) returns (r: SearchResult)
    requires board.Valid() && Searchable(board.Value(), depth, h)
    ensures r == Search.Negamax(board.Value(), depth, player, h)
    decreases depth, 1
  {
    ghost var s := board.Value();
    var winner := board.IsGameOver();
    if winner.Some? || depth == 0 {
      r := LeafResult(board, winner, player, h);
      return;
    }
    var bestMove: Option<Pos> := None;
    var bestScore := NegInf;
    var moves := board.GetLegalMoves(None);
    assert moves == Moves(s);
    for i := 0 to |moves|
      invariant AllFree(s, moves[i..])
      invariant NegamaxLoop(s, moves[i..], depth, player, h, bestScore, bestMove)
                == NegamaxLoop(s, moves, depth, player, h, NegInf, None)
    {
      var move := moves[i];
      assert moves[i] in moves[i..];
      var currentScore := NegamaxChild(board, move, depth, player, h);
      ghost var best0, move0 := bestScore, bestMove;
      if Lt(bestScore, currentScore) {
        bestScore := currentScore;
        bestMove := Some(move);
      }
      assert moves[i..][1..] == moves[i + 1..];
      NegamaxLoopStep(s, moves[i..], depth, player, h, best0, move0, currentScore, bestScore, bestMove);
    }
    r := SearchResult(bestScore, bestMove);
  }

  /** The negated score of the `negamax` search of the board after `move`. */
  method NegamaxChild(board: Board, move: Pos, depth: nat, player: Player, h: Heuristic) returns (score: Ext)
    requires board.Valid() && Searchable(board.Value(), depth, h) && depth > 0 && MoveLemmas.Free(board.Value(), move)
    ensures score == Neg(Search.Negamax(Child(board.Value(), move, depth, h), depth - 1, player, h).score)
    decreases depth, 0
  {
    var newBoard := board.MakeMoveCopy(move.x, move.y);
    assert newBoard.Value() == Child(board.Value(), move, depth, h);
    var rec := Negamax(newBoard, depth - 1, player, h);
    score := Neg(rec.score);
  }

  /** The source's `AI.abnegamax`. */
  method AbNegamax(board: Board, depth: nat, player: Player, alpha: Ext, beta: Ext, h: Heuristic)
    returns (r: SearchResult)
    requires board.Valid() && Searchable(board.Value(), depth, h)
    ensures r == Search.AbNegamax(board.Value(), depth, player, alpha, beta, h)
    decreases depth, 2
  {
    var winner := board.IsGameOver();
    if winner.Some? || depth == 0 {
      r := LeafResult(board, winner, player, h);
      return;
    }
    var moves := board.GetLegalMoves(None);
    r := AbMoves(board, moves, depth, player, alpha, beta, h);
  }

  /** The loop of `abnegamax` over `moves`: each child is searched with the
      window `(-beta, -a)`, `a` rises to the best score seen, and the loop
      stops once `a >= beta`. */
  method AbMoves(board: Board, moves: seq<Pos>, depth: nat, player: Player, alpha: Ext, beta: Ext, h: Heuristic)
    returns (r: SearchResult)
    requires board.Valid() && Searchable(board.Value(), depth, h) && depth > 0 && moves == Moves(board.Value())
    ensures r == AbLoop(board.Value(), moves, depth, player, alpha, beta, h, NegInf, None)
    decreases depth, 1
  {
    ghost var s := board.Value();
    var bestMove: Option<Pos> := None;
    var bestScore := NegInf;
    var a := alpha;
    for i := 0 to |moves|
      invariant AllFree(s, moves[i..])
      invariant AbLoop(s, moves[i..], depth, player, a, beta, h, bestScore, bestMove)
                == AbLoop(s, moves, depth, player, alpha, beta, h, NegInf, None)
    {
      var move := moves[i];
      assert moves[i] in moves[i..];
      var currentScore := AbNegamaxChild(board, move, depth, player, a, beta, h);
      ghost var a0, best0, move0 := a, bestScore, bestMove;
      if Lt(bestScore, currentScore) {
        bestScore := currentScore;
        bestMove := Some(move);
      }
      a := Max(a, currentScore);
      assert moves[i..][1..] == moves[i + 1..];
      AbLoopStep(s, moves[i..], depth, player, a0, beta, h, best0, move0, currentScore, a, bestScore, bestMove);
      if Le(beta, a) {
        break;
      }
    }
    r := SearchResult(bestScore, bestMove);
  }

  /** The negated score of the `abnegamax` search of the board after `move`,
      with the window `(-beta, -alpha)`. */
  method AbNegamaxChild(board: Board, move: Pos, depth: nat, player: Player, alpha: Ext, beta: Ext, h: Heuristic)
    returns (score: Ext)
    requires board.Valid() && Searchable(board.Value(), depth, h) && depth > 0 && MoveLemmas.Free(board.Value(), move)
    ensures score == Neg(Search.AbNegamax(Child(board.Value(), move, depth, h), depth - 1, player, Neg(beta), Neg(alpha), h).score)
    decreases depth, 0
  {
    var newBoard := board.MakeMoveCopy(move.x, move.y);
    assert newBoard.Value() == Child(board.Value(), move, depth, h);
    var rec := AbNegamax(newBoard, depth - 1, player, Neg(beta), Neg(alpha), h);
    score := Neg(rec.score);
  }

  /** The source's `AI.power_abnegamax`: the full-depth search, then, while
      the result is a proven loss, the searches at `depth - 1` down to 1 with
      the same window. */
  method PowerAbNegamax(board: Board, depth: nat, player: Player, alpha: Ext, beta: Ext, h: Heuristic)
    returns (r: SearchResult)
    requires board.Valid() && Searchable(board.Value(), depth, h)
    requires Losing(Search.AbNegamax(board.Value(), depth, player, alpha, beta, h).score) ==> Searchable(board.Value(), 1, h)
    ensures r == Search.PowerAbNegamax(board.Value(), depth, player, alpha, beta, h)
  {
    ghost var s := board.Value();
    r := AbNegamax(board, depth, player, alpha, beta, h);
    if Losing(r.score) {
      var i := depth - 1;
      while i > 0
        invariant Retry(s, i, player, alpha, beta, h, r) == Search.PowerAbNegamax(s, depth, player, alpha, beta, h)
        decreases i
      {
        r := AbNegamax(board, i, player, alpha, beta, h);
        if !Losing(r.score) {
          break;
        }
        i := i - 1;
      }
    }
  }
}
