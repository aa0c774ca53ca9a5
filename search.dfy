/** The game-tree searches of the AI as functions on board values: plain
    negamax, negamax with an alpha-beta window, and the "power" search that
    falls back to shallower depths when the full-depth search reports a
    proven loss.  The loop over the legal moves is the accumulator
    recursion `NegamaxLoop` / `AbLoop`; the methods of module `Ai` run the
    same loops over `Board` objects and are proved equal to these functions. */
module Search {
  import opened Common
  import opened BoardState
  import opened Heuristics
  import MoveLemmas
  import MoveEffects

  /** What a search returns: a score and, except at a leaf, the best move. */
  datatype SearchResult = SearchResult(score: Ext, move: Option<Pos>)

  /** A board a search of `depth` plies with heuristic `h` can run on: the
      heuristic is evaluated at the leaves `depth` moves below, so every
      heuristic but `Mobility` needs both players on the board by then. */
  predicate Searchable(s: State, depth: nat, h: Heuristic) {
    Valid(s) && (h == Mobility || 2 <= depth || (s.inactive in s.positions && (1 <= depth || s.active in s.positions)))
  }

  predicate AllFree(s: State, moves: seq<Pos>)
    requires WellFormed(s)
  {
    forall m :: m in moves ==> MoveLemmas.Free(s, m)
  }

  /** The board after the active player moves to `m` (the source's
      `make_move_copy`): a search of `depth` plies goes on from it with
      `depth - 1`, and one placement fewer remains. */
  function Child(s: State, m: Pos, depth: nat, h: Heuristic): (t: State)
    requires Searchable(s, depth, h) && depth > 0 && MoveLemmas.Free(s, m)
    ensures Searchable(t, depth - 1, h) && t == Apply(s, m)
  {
    MoveEffects.ApplyEffects(s, m);
    Apply(s, m)
  }

  /** Searchability counts the placements still to make: the search must
      not reach a leaf before both players are on the board. */
  lemma SearchableToPlace(s: State, depth: nat, h: Heuristic)
    ensures Searchable(s, depth, h) <==> Valid(s) && (h == Mobility || ToPlace(s) <= depth)
  {
  }

  /** A board searchable at some depth is searchable at every greater depth. */
  lemma SearchableDeeper(s: State, depth: nat, depth': nat, h: Heuristic)
    requires Searchable(s, depth, h) && depth <= depth'
    ensures Searchable(s, depth', h)
  {
  }

  /** The legal moves of the player to move. */
  function Moves(s: State): (moves: seq<Pos>)
    requires WellFormed(s)
    ensures AllFree(s, moves)
  {
    MoveLemmas.LegalMovesFree(s, s.active);
    LegalMoves(s, s.active)
  }

  /** `+1` when `player` is to move, `-1` otherwise. */
  function Sign(s: State, player: Player): int {
    if s.active == player then 1 else -1
  }

  /** The value of a board where the search stops: the heuristic (or the
      decided-game score) for `player`, times the sign. */
  function Leaf(s: State, player: Player, h: Heuristic): SearchResult
    requires Valid(s) && (GameOver(s).Some? || Scorable(s, h))
  {
    SearchResult(Fin(Sign(s, player) * Score(h, s, GameOver(s), player)), None)
  }

  /** The source's `AI.negamax(board, depth, player, score_func)`. */
  function Negamax(s: State, depth: nat, player: Player, h: Heuristic): SearchResult
    requires Searchable(s, depth, h)
    decreases depth, 1
  {
    if GameOver(s).Some? || depth == 0 then Leaf(s, player, h)
    else NegamaxLoop(s, Moves(s), depth, player, h, NegInf, None)
  }

  /** The loop of `negamax` over `moves`, from the running best `(best, bestMove)`:
      a child replaces the best only when its negated score is strictly larger. */
  function NegamaxLoop(s: State, moves: seq<Pos>, depth: nat, player: Player, h: Heuristic,
                       best: Ext, bestMove: Option<Pos>): SearchResult
    requires Searchable(s, depth, h) && depth > 0 && AllFree(s, moves)
    decreases depth, 0, |moves|
  {
    if moves == [] then SearchResult(best, bestMove)
    else
      var current := Neg(Negamax(Child(s, moves[0], depth, h), depth - 1, player, h).score);
      if Lt(best, current) then NegamaxLoop(s, moves[1..], depth, player, h, current, Some(moves[0]))
      else NegamaxLoop(s, moves[1..], depth, player, h, best, bestMove)
  }

  /** The source's `AI.abnegamax(board, depth, player, alpha, beta, score_func)`. */
  function AbNegamax(s: State, depth: nat, player: Player, alpha: Ext, beta: Ext, h: Heuristic): SearchResult
    requires Searchable(s, depth, h)
    decreases depth, 1
  {
    if GameOver(s).Some? || depth == 0 then Leaf(s, player, h)
    else AbLoop(s, Moves(s), depth, player, alpha, beta, h, NegInf, None)
  }

  /** The loop of `abnegamax`: each child is searched with the window
      `(-beta, -alpha)`, `alpha` rises to the best child score seen, and the
      remaining siblings are skipped once `alpha >= beta`. */
  function AbLoop(s: State, moves: seq<Pos>, depth: nat, player: Player, alpha: Ext, beta: Ext,
                  h: Heuristic, best: Ext, bestMove: Option<Pos>): SearchResult
    requires Searchable(s, depth, h) && depth > 0 && AllFree(s, moves)
    decreases depth, 0, |moves|
  {
    if moves == [] then SearchResult(best, bestMove)
    else
      var current := Neg(AbNegamax(Child(s, moves[0], depth, h), depth - 1, player, Neg(beta), Neg(alpha), h).score);
      var better := Lt(best, current);
      var best' := if better then current else best;
      var bestMove' := if better then Some(moves[0]) else bestMove;
      var alpha' := Max(alpha, current);
      if Le(beta, alpha') then SearchResult(best', bestMove')
      else AbLoop(s, moves[1..], depth, player, alpha', beta, h, best', bestMove')
  }

  /** A score that is a proven loss: at most `-MAX_SCORE`. */
  predicate Losing(score: Ext) {
    Le(score, Fin(-MAX_SCORE))
  }

  /** The source's `AI.power_abnegamax`.  The retries search down to depth 1,
      so after a proven loss the board must be searchable at depth 1 too. */
  function PowerAbNegamax(s: State, depth: nat, player: Player, alpha: Ext, beta: Ext, h: Heuristic): SearchResult
    requires Searchable(s, depth, h)
    requires Losing(AbNegamax(s, depth, player, alpha, beta, h).score) ==> Searchable(s, 1, h)
  {
    var first := AbNegamax(s, depth, player, alpha, beta, h);
    if Losing(first.score) then Retry(s, depth - 1, player, alpha, beta, h, first) else first
  }

  /** The retry loop of `power_abnegamax` from depth `i` down to 1, where `last`
      is the most recent result: it stops at the first result that is not losing. */
  function Retry(s: State, i: int, player: Player, alpha: Ext, beta: Ext, h: Heuristic,
                 last: SearchResult): SearchResult
    requires Searchable(s, 1, h)
    decreases i
  {
    if i <= 0 then last
    else
      var r := AbNegamax(s, i, player, alpha, beta, h);
      if !Losing(r.score) then r else Retry(s, i - 1, player, alpha, beta, h, r)
  }

  /** One iteration of the `negamax` loop on a non-empty `moves`: with
      `current` the negated score of the first child and `(best', bestMove')`
      the updated best, the loop goes on with the remaining moves. */
  lemma NegamaxLoopStep(s: State, moves: seq<Pos>, depth: nat, player: Player, h: Heuristic,
                        best: Ext, bestMove: Option<Pos>, current: Ext, best': Ext, bestMove': Option<Pos>)
    requires Searchable(s, depth, h) && depth > 0 && moves != [] && AllFree(s, moves)
    requires MoveLemmas.Free(s, moves[0])
    requires current == Neg(Negamax(Child(s, moves[0], depth, h), depth - 1, player, h).score)
    requires best' == (if Lt(best, current) then current else best)
    requires bestMove' == (if Lt(best, current) then Some(moves[0]) else bestMove)
    ensures NegamaxLoop(s, moves, depth, player, h, best, bestMove)
            == NegamaxLoop(s, moves[1..], depth, player, h, best', bestMove')
  {
  }

  /** One iteration of the `abnegamax` loop on a non-empty `moves`: with
      `current` the negated score of the first child, `(best', bestMove')`
      the updated best and `alpha'` the raised bound, the loop either stops
      or goes on with the remaining moves. */
  lemma AbLoopStep(s: State, moves: seq<Pos>, depth: nat, player: Player, alpha: Ext, beta: Ext,
                   h: Heuristic, best: Ext, bestMove: Option<Pos>,
                   current: Ext, alpha': Ext, best': Ext, bestMove': Option<Pos>)
    requires Searchable(s, depth, h) && depth > 0 && moves != [] && AllFree(s, moves)
    requires MoveLemmas.Free(s, moves[0])
    requires current == Neg(AbNegamax(Child(s, moves[0], depth, h), depth - 1, player, Neg(beta), Neg(alpha), h).score)
    requires best' == (if Lt(best, current) then current else best)
    requires bestMove' == (if Lt(best, current) then Some(moves[0]) else bestMove)
    requires alpha' == Max(alpha, current)
    ensures AbLoop(s, moves, depth, player, alpha, beta, h, best, bestMove)
            == if Le(beta, alpha') then SearchResult(best', bestMove')
               else AbLoop(s, moves[1..], depth, player, alpha', beta, h, best', bestMove')
  {
  }
}
