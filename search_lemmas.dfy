/** What the searches of module `Search` compute: leaves score decided games
    as plus or minus `MAX_SCORE` times the sign, every score is an integer,
    `negamax` returns a legal move with the largest negated child score (the
    first such move in generator order), alpha-beta agrees with `negamax`
    when no cutoff skips a sibling and always returns a legal move, and the
    power search falls back to the deepest shallower search that is not a
    proven loss. */
module SearchLemmas {
  import opened Common
  import opened BoardState
  import opened Heuristics
  import opened Search
  import MoveLemmas

  // ---------------------------------------------------------------------
  // Leaves

  /** On a decided game both searches stop at once and return the winner's
      score for `player`, `MAX_SCORE` or `-MAX_SCORE`, times the sign, which
      is `+1` exactly when `player` is to move. */
  lemma TerminalValue(s: State, depth: nat, player: Player, alpha: Ext, beta: Ext, h: Heuristic)
    requires Searchable(s, depth, h) && GameOver(s).Some?
    ensures var w := GameOver(s).value;
      var v := SearchResult(Fin(Sign(s, player) * (if w == player then MAX_SCORE else -MAX_SCORE)), None);
      Negamax(s, depth, player, h) == v && AbNegamax(s, depth, player, alpha, beta, h) == v
    ensures Sign(s, player) == 1 <==> s.active == player
    ensures Sign(s, player) == -1 <==> s.active != player
  {
  }

  // ---------------------------------------------------------------------
  // Every score is an integer

  lemma {:induction false} NegamaxFinite(s: State, depth: nat, player: Player, h: Heuristic)
    requires Searchable(s, depth, h)
    ensures Negamax(s, depth, player, h).score.Fin?
    decreases depth, 1
  {
    if GameOver(s).Some? || depth == 0 {
    } else {
      NegamaxLoopFinite(s, Moves(s), depth, player, h, NegInf, None);
    }
  }

  /** The loop ends with an integer score once it has seen a move or started from one. */
  lemma {:induction false} NegamaxLoopFinite(s: State, moves: seq<Pos>, depth: nat, player: Player, h: Heuristic,
                                            best: Ext, bestMove: Option<Pos>)
    requires Searchable(s, depth, h) && depth > 0 && AllFree(s, moves)
    requires best.Fin? || (best == NegInf && moves != [])
    ensures NegamaxLoop(s, moves, depth, player, h, best, bestMove).score.Fin?
    decreases depth, 0, |moves|
  {
    if moves != [] {
      assert moves[0] in moves;
      NegamaxFinite(Child(s, moves[0], depth, h), depth - 1, player, h);
      var current := Neg(Negamax(Child(s, moves[0], depth, h), depth - 1, player, h).score);
      if Lt(best, current) {
        NegamaxLoopFinite(s, moves[1..], depth, player, h, current, Some(moves[0]));
      } else {
        NegamaxLoopFinite(s, moves[1..], depth, player, h, best, bestMove);
      }
    }
  }

  // ---------------------------------------------------------------------
  // Negamax: a legal move with the largest value, the first one on ties

  /** The negated `negamax` score of the board after `m`: the value of move `m`. */
  function ChildScore(s: State, m: Pos, depth: nat, player: Player, h: Heuristic): Ext
    requires Searchable(s, depth, h) && depth > 0 && MoveLemmas.Free(s, m)
  {
    Neg(Negamax(Child(s, m, depth, h), depth - 1, player, h).score)
  }

  /** At depth 1 a move whose board is undecided gets the heuristic of the
      player to move on that board (the opponent of the mover), times the
      root's sign: when `player` moves at the root, the root maximises the
      opponent's own heuristic advantage. */
  lemma DepthOneUndecidedChild(s: State, m: Pos, player: Player, h: Heuristic)
    requires Searchable(s, 1, h) && MoveLemmas.Free(s, m)
    requires GameOver(Child(s, m, 1, h)).None?
    ensures ChildScore(s, m, 1, player, h) == Fin(Sign(s, player) * Score(h, Child(s, m, 1, h), None, player))
    ensures player == s.active ==>
              ChildScore(s, m, 1, player, h) == Fin(Score(h, Child(s, m, 1, h), None, Child(s, m, 1, h).active))
  {
    var t := Child(s, m, 1, h);
    assert t.active == s.inactive && s.active != s.inactive;
    var v := Score(h, t, None, player);
    assert v == Score(h, t, None, t.active);
    assert Negamax(t, 0, player, h) == SearchResult(Fin(Sign(t, player) * v), None);
    assert Sign(t, player) == -Sign(s, player);
  }

  /** The values of `moves`, in order. */
  function ChildScores(s: State, moves: seq<Pos>, depth: nat, player: Player, h: Heuristic): (vs: seq<Ext>)
    requires Searchable(s, depth, h) && depth > 0 && AllFree(s, moves)
    ensures |vs| == |moves|
    ensures forall j :: 0 <= j < |moves| ==> vs[j] == ChildScore(s, moves[j], depth, player, h)
    decreases |moves|
  {
    if moves == [] then []
    else
      assert moves[0] in moves;
      [ChildScore(s, moves[0], depth, player, h)] + ChildScores(s, moves[1..], depth, player, h)
  }

  /** The selection rule of the `negamax` loop on plain values: scan left to
      right from `(best, bestMove)` and take a candidate only when it is
      strictly larger than the best so far. */
  function FirstBest(vals: seq<Ext>, moves: seq<Pos>, best: Ext, bestMove: Option<Pos>): SearchResult
    requires |vals| == |moves|
  {
    if vals == [] then SearchResult(best, bestMove)
    else if Lt(best, vals[0]) then FirstBest(vals[1..], moves[1..], vals[0], Some(moves[0]))
    else FirstBest(vals[1..], moves[1..], best, bestMove)
  }

  /** The `negamax` loop is that scan over the values of its moves. */
  lemma {:induction false} NegamaxLoopIsFirstBest(s: State, moves: seq<Pos>, depth: nat, player: Player, h: Heuristic,
                                                 best: Ext, bestMove: Option<Pos>)
    requires Searchable(s, depth, h) && depth > 0 && AllFree(s, moves)
    ensures NegamaxLoop(s, moves, depth, player, h, best, bestMove)
            == FirstBest(ChildScores(s, moves, depth, player, h), moves, best, bestMove)
    decreases |moves|
  {
    if moves != [] {
      var vals := ChildScores(s, moves, depth, player, h);
      assert moves[0] in moves;
      var current := ChildScore(s, moves[0], depth, player, h);
      var best' := if Lt(best, current) then current else best;
      var bestMove' := if Lt(best, current) then Some(moves[0]) else bestMove;
      NegamaxLoopStep(s, moves, depth, player, h, best, bestMove, current, best', bestMove');
      NegamaxLoopIsFirstBest(s, moves[1..], depth, player, h, best', bestMove');
      assert vals[1..] == ChildScores(s, moves[1..], depth, player, h);
    }
  }

  /** The scan ends with a score at least `best` and at least every value. */
  lemma {:induction false} FirstBestUpper(vals: seq<Ext>, moves: seq<Pos>, best: Ext, bestMove: Option<Pos>)
    requires |vals| == |moves|
    ensures var r := FirstBest(vals, moves, best, bestMove);
      Le(best, r.score) && forall j :: 0 <= j < |vals| ==> Le(vals[j], r.score)
    decreases |vals|
  {
    if vals != [] {
      var current := vals[0];
      var best' := if Lt(best, current) then current else best;
      var bestMove' := if Lt(best, current) then Some(moves[0]) else bestMove;
      FirstBestUpper(vals[1..], moves[1..], best', bestMove');
      var r := FirstBest(vals[1..], moves[1..], best', bestMove');
      LeFacts(best, current, r.score);
      LeFacts(best, best', r.score);
      LeFacts(current, best', r.score);
      forall j | 0 < j < |vals|
        ensures Le(vals[j], r.score)
      {
        assert vals[j] == vals[1..][j - 1];
      }
    }
  }

  /** A score that beats the running best after `current` was considered
      beats both the earlier best and `current`. */
  lemma BeatsRunningBest(best: Ext, current: Ext, best': Ext, x: Ext)
    requires best' == (if Lt(best, current) then current else best)
    requires Lt(best', x)
    ensures Lt(best, x) && Lt(current, x)
  {
    LeFacts(best, current, x);
    LeFacts(best, best', x);
    LeFacts(current, best', x);
  }

  /** The scan returns `(best, bestMove)` unchanged when no value beats `best`
      (`k == -1`); otherwise it returns value and move `k`, where value `k`
      beats `best` and every earlier value. */
  lemma {:induction false} FirstBestChoice(vals: seq<Ext>, moves: seq<Pos>, best: Ext, bestMove: Option<Pos>)
    returns (k: int)
    requires |vals| == |moves|
    ensures var r := FirstBest(vals, moves, best, bestMove);
      && -1 <= k < |vals|
      && (k == -1 ==> r == SearchResult(best, bestMove))
      && (k >= 0 ==> r == SearchResult(vals[k], Some(moves[k])) && Lt(best, r.score)
                     && forall j :: 0 <= j < k ==> Lt(vals[j], r.score))
    decreases |vals|
  {
    if vals == [] {
      return -1;
    }
    var current := vals[0];
    var better := Lt(best, current);
    var best' := if better then current else best;
    var bestMove' := if better then Some(moves[0]) else bestMove;
    var k' := FirstBestChoice(vals[1..], moves[1..], best', bestMove');
    if k' >= 0 {
      var r := FirstBest(vals[1..], moves[1..], best', bestMove');
      BeatsRunningBest(best, current, best', r.score);
      k := k' + 1;
      forall j | 0 < j < k
        ensures Lt(vals[j], r.score)
      {
        assert vals[j] == vals[1..][j - 1];
      }
    } else if better {
      k := 0;
    } else {
      k := -1;
    }
  }

  /** On an undecided board with `depth > 0`, `negamax` returns legal move
      `k` of the player to move and an integer score equal to that move's
      value; the score is at least every legal move's value, and every move
      before `k` in generator order has a smaller value. */
  lemma NegamaxBestMove(s: State, depth: nat, player: Player, h: Heuristic) returns (k: nat)
    requires Searchable(s, depth, h) && depth > 0 && GameOver(s).None?
    ensures var r := Negamax(s, depth, player, h);
      var moves := Moves(s);
      && moves == LegalMoves(s, s.active)
      && k < |moves| && r.move == Some(moves[k])
      && r.score.Fin? && r.score == ChildScore(s, moves[k], depth, player, h)
      && (forall j :: 0 <= j < |moves| ==> Le(ChildScore(s, moves[j], depth, player, h), r.score))
      && (forall j :: 0 <= j < k ==> Lt(ChildScore(s, moves[j], depth, player, h), r.score))
  {
    var moves := Moves(s);
    NegamaxFinite(s, depth, player, h);
    var vals := ChildScores(s, moves, depth, player, h);
    NegamaxLoopIsFirstBest(s, moves, depth, player, h, NegInf, None);
    FirstBestUpper(vals, moves, NegInf, None);
    var i := FirstBestChoice(vals, moves, NegInf, None);
    if i < 0 {
      assert false;
    }
    k := i;
  }

  // ---------------------------------------------------------------------
  // Alpha-beta: integer scores, legal moves

  lemma {:induction false} AbFinite(s: State, depth: nat, player: Player, alpha: Ext, beta: Ext, h: Heuristic)
    requires Searchable(s, depth, h)
    ensures AbNegamax(s, depth, player, alpha, beta, h).score.Fin?
    decreases depth, 1
  {
    if GameOver(s).Some? || depth == 0 {
    } else {
      AbLoopFromNegInf(s, Moves(s), depth, player, alpha, beta, h);
    }
  }

  /** The alpha-beta loop either returns its starting best unchanged or one of
      its moves with an integer score. */
  lemma {:induction false} AbLoopShape(s: State, moves: seq<Pos>, depth: nat, player: Player, alpha: Ext, beta: Ext,
                                      h: Heuristic, best: Ext, bestMove: Option<Pos>)
    requires Searchable(s, depth, h) && depth > 0 && AllFree(s, moves)
    ensures var r := AbLoop(s, moves, depth, player, alpha, beta, h, best, bestMove);
      r == SearchResult(best, bestMove) || (r.score.Fin? && r.move.Some? && r.move.value in moves)
    decreases depth, 0, |moves|
  {
    if moves != [] {
      var m := moves[0];
      assert m in moves;
      var child := Child(s, m, depth, h);
      AbFinite(child, depth - 1, player, Neg(beta), Neg(alpha), h);
      var current := Neg(AbNegamax(child, depth - 1, player, Neg(beta), Neg(alpha), h).score);
      var alpha' := Max(alpha, current);
      var best' := if Lt(best, current) then current else best;
      var bestMove' := if Lt(best, current) then Some(m) else bestMove;
      if !Le(beta, alpha') {
        AbLoopShape(s, moves[1..], depth, player, alpha', beta, h, best', bestMove');
      }
      ShapeStep(s, moves, depth, player, alpha, beta, h, best, bestMove, current, alpha', best', bestMove');
    }
  }

  /** One iteration of the alpha-beta loop keeps its shape: if the loop over
      the remaining moves returns its start or one of those moves, the loop
      over all of `moves` returns its own start or one of `moves`. */
  lemma ShapeStep(s: State, moves: seq<Pos>, depth: nat, player: Player, alpha: Ext, beta: Ext,
                  h: Heuristic, best: Ext, bestMove: Option<Pos>,
                  current: Ext, alpha': Ext, best': Ext, bestMove': Option<Pos>)
    requires Searchable(s, depth, h) && depth > 0 && moves != [] && AllFree(s, moves) && MoveLemmas.Free(s, moves[0])
    requires current == Neg(AbNegamax(Child(s, moves[0], depth, h), depth - 1, player, Neg(beta), Neg(alpha), h).score)
    requires current.Fin?
    requires best' == (if Lt(best, current) then current else best)
    requires bestMove' == (if Lt(best, current) then Some(moves[0]) else bestMove)
    requires alpha' == Max(alpha, current)
    requires !Le(beta, alpha') ==>
      var r := AbLoop(s, moves[1..], depth, player, alpha', beta, h, best', bestMove');
      r == SearchResult(best', bestMove') || (r.score.Fin? && r.move.Some? && r.move.value in moves[1..])
    ensures var r := AbLoop(s, moves, depth, player, alpha, beta, h, best, bestMove);
      r == SearchResult(best, bestMove) || (r.score.Fin? && r.move.Some? && r.move.value in moves)
  {
    AbLoopStep(s, moves, depth, player, alpha, beta, h, best, bestMove, current, alpha', best', bestMove');
    var r := AbLoop(s, moves[1..], depth, player, alpha', beta, h, best', bestMove');
    if r.move.Some? && r.move.value in moves[1..] {
      assert r.move.value in moves;
    }
  }

  /** Started from `-inf` on at least one move, the alpha-beta loop returns
      one of its moves with an integer score: the first child always beats
      `-inf`. */
  lemma AbLoopFromNegInf(s: State, moves: seq<Pos>, depth: nat, player: Player, alpha: Ext, beta: Ext, h: Heuristic)
    requires Searchable(s, depth, h) && depth > 0 && AllFree(s, moves) && moves != []
    ensures var r := AbLoop(s, moves, depth, player, alpha, beta, h, NegInf, None);
      r.score.Fin? && r.move.Some? && r.move.value in moves
    decreases depth, 0, |moves|
  {
    var m, rest := moves[0], moves[1..];
    assert m in moves;
    AbFinite(Child(s, m, depth, h), depth - 1, player, Neg(beta), Neg(alpha), h);
    var current := Neg(AbNegamax(Child(s, m, depth, h), depth - 1, player, Neg(beta), Neg(alpha), h).score);
    var alpha' := Max(alpha, current);
    AbLoopStep(s, moves, depth, player, alpha, beta, h, NegInf, None, current, alpha', current, Some(m));
    if !Le(beta, alpha') {
      AbLoopShape(s, rest, depth, player, alpha', beta, h, current, Some(m));
      var r := AbLoop(s, rest, depth, player, alpha', beta, h, current, Some(m));
      if r.move.Some? && r.move.value in rest {
        assert r.move.value in moves;
      }
    }
  }

  /** On an undecided board with `depth > 0`, alpha-beta returns a legal move
      of the player to move, with an integer score, whatever the window. */
  lemma AbMoveLegal(s: State, depth: nat, player: Player, alpha: Ext, beta: Ext, h: Heuristic)
    requires Searchable(s, depth, h) && depth > 0 && GameOver(s).None?
    ensures var r := AbNegamax(s, depth, player, alpha, beta, h);
      r.score.Fin? && r.move.Some? && r.move.value in LegalMoves(s, s.active)
  {
    AbLoopFromNegInf(s, Moves(s), depth, player, alpha, beta, h);
  }

  // ---------------------------------------------------------------------
  // Alpha-beta agrees with negamax when no cutoff skips a sibling

  /** No node of the alpha-beta tree below `s` stops its loop while moves remain. */
  ghost predicate NoCutoff(s: State, depth: nat, player: Player, alpha: Ext, beta: Ext, h: Heuristic)
    requires Searchable(s, depth, h)
    decreases depth, 1
  {
    GameOver(s).Some? || depth == 0 || NoCutoffLoop(s, Moves(s), depth, player, alpha, beta, h)
  }

  ghost predicate NoCutoffLoop(s: State, moves: seq<Pos>, depth: nat, player: Player, alpha: Ext, beta: Ext,
                               h: Heuristic)
    requires Searchable(s, depth, h) && depth > 0 && AllFree(s, moves)
    decreases depth, 0, |moves|
  {
    moves == [] ||
      (assert moves[0] in moves;
       var child := Child(s, moves[0], depth, h);
       var current := Neg(AbNegamax(child, depth - 1, player, Neg(beta), Neg(alpha), h).score);
       var alpha' := Max(alpha, current);
       && NoCutoff(child, depth - 1, player, Neg(beta), Neg(alpha), h)
       && (|moves| > 1 ==> !Le(beta, alpha'))
       && NoCutoffLoop(s, moves[1..], depth, player, alpha', beta, h))
  }

  /** Without a cutoff, alpha-beta returns exactly the `negamax` score and move. */
  lemma {:induction false} AbMatchesNegamax(s: State, depth: nat, player: Player, alpha: Ext, beta: Ext, h: Heuristic)
    requires Searchable(s, depth, h) && NoCutoff(s, depth, player, alpha, beta, h)
    ensures AbNegamax(s, depth, player, alpha, beta, h) == Negamax(s, depth, player, h)
    decreases depth, 1
  {
    if GameOver(s).Some? || depth == 0 {
    } else {
      AbLoopMatches(s, Moves(s), depth, player, alpha, beta, h, NegInf, None);
    }
  }

  lemma {:induction false} AbLoopMatches(s: State, moves: seq<Pos>, depth: nat, player: Player, alpha: Ext, beta: Ext,
                                        h: Heuristic, best: Ext, bestMove: Option<Pos>)
    requires Searchable(s, depth, h) && depth > 0 && AllFree(s, moves)
    requires NoCutoffLoop(s, moves, depth, player, alpha, beta, h)
    ensures AbLoop(s, moves, depth, player, alpha, beta, h, best, bestMove)
            == NegamaxLoop(s, moves, depth, player, h, best, bestMove)
    decreases depth, 0, |moves|
  {
    if moves != [] {
      var m, rest := moves[0], moves[1..];
      assert m in moves;
      var child := Child(s, m, depth, h);
      AbMatchesNegamax(child, depth - 1, player, Neg(beta), Neg(alpha), h);
      var current := Neg(AbNegamax(child, depth - 1, player, Neg(beta), Neg(alpha), h).score);
      var better := Lt(best, current);
      var best' := if better then current else best;
      var bestMove' := if better then Some(m) else bestMove;
      var alpha' := Max(alpha, current);
      if rest != [] {
        AbLoopMatches(s, rest, depth, player, alpha', beta, h, best', bestMove');
      }
      MatchStep(s, moves, depth, player, alpha, beta, h, best, bestMove, current);
    }
  }

  /** One iteration of both loops: when the first child's scores agree, no
      cutoff happens before the last move, and the loops agree on the
      remaining moves, they agree on all of `moves`. */
  lemma MatchStep(s: State, moves: seq<Pos>, depth: nat, player: Player, alpha: Ext, beta: Ext,
                  h: Heuristic, best: Ext, bestMove: Option<Pos>, current: Ext)
    requires Searchable(s, depth, h) && depth > 0 && moves != [] && AllFree(s, moves) && MoveLemmas.Free(s, moves[0])
    requires current == Neg(AbNegamax(Child(s, moves[0], depth, h), depth - 1, player, Neg(beta), Neg(alpha), h).score)
    requires current == Neg(Negamax(Child(s, moves[0], depth, h), depth - 1, player, h).score)
    requires |moves| > 1 ==> !Le(beta, Max(alpha, current))
    requires var best' := if Lt(best, current) then current else best;
      var bestMove' := if Lt(best, current) then Some(moves[0]) else bestMove;
      AbLoop(s, moves[1..], depth, player, Max(alpha, current), beta, h, best', bestMove')
      == NegamaxLoop(s, moves[1..], depth, player, h, best', bestMove')
    ensures AbLoop(s, moves, depth, player, alpha, beta, h, best, bestMove)
            == NegamaxLoop(s, moves, depth, player, h, best, bestMove)
  {
    var best' := if Lt(best, current) then current else best;
    var bestMove' := if Lt(best, current) then Some(moves[0]) else bestMove;
    AbLoopStep(s, moves, depth, player, alpha, beta, h, best, bestMove, current, Max(alpha, current), best', bestMove');
    NegamaxLoopStep(s, moves, depth, player, h, best, bestMove, current, best', bestMove');
  }

  /** A one-ply search with the full window `(-inf, +inf)` never cuts off, so
      alpha-beta and `negamax` agree on it. */
  lemma AbDepthOneFullWindow(s: State, player: Player, h: Heuristic)
    requires Searchable(s, 1, h)
    ensures AbNegamax(s, 1, player, NegInf, PosInf, h) == Negamax(s, 1, player, h)
  {
    if GameOver(s).None? {
      FullWindowLoop(s, Moves(s), 1, player, NegInf, h);
    }
    AbMatchesNegamax(s, 1, player, NegInf, PosInf, h);
  }

  lemma {:induction false} FullWindowLoop(s: State, moves: seq<Pos>, depth: nat, player: Player, alpha: Ext,
                                         h: Heuristic)
    requires Searchable(s, depth, h) && depth == 1 && AllFree(s, moves) && alpha != PosInf
    ensures NoCutoffLoop(s, moves, depth, player, alpha, PosInf, h)
    decreases |moves|
  {
    if moves != [] {
      assert moves[0] in moves;
      var child := Child(s, moves[0], depth, h);
      AbFinite(child, depth - 1, player, Neg(PosInf), Neg(alpha), h);
      var current := Neg(AbNegamax(child, depth - 1, player, Neg(PosInf), Neg(alpha), h).score);
      var alpha' := Max(alpha, current);
      assert alpha' != PosInf;
      assert NoCutoff(child, depth - 1, player, Neg(PosInf), Neg(alpha), h);
      FullWindowLoop(s, moves[1..], depth, player, alpha', h);
    }
  }

  // ---------------------------------------------------------------------
  // The fallback order of the power search

  /** A proven loss at depth `i > 0` sends the retry loop on to depth `i - 1`. */
  lemma RetryLosingStep(s: State, i: int, player: Player, alpha: Ext, beta: Ext, h: Heuristic,
                        last: SearchResult, a: SearchResult)
    requires Searchable(s, 1, h) && i > 0
    requires a == AbNegamax(s, i, player, alpha, beta, h) && Losing(a.score)
    ensures Retry(s, i, player, alpha, beta, h, last) == Retry(s, i - 1, player, alpha, beta, h, a)
  {
  }

  /** The retry loop from depth `i` returns the result at depth `k` when that
      result is not a proven loss and every depth above `k`, up to `i`, is. */
  lemma {:induction false} RetryStopsAt(s: State, i: int, k: nat, player: Player, alpha: Ext, beta: Ext,
                                       h: Heuristic, last: SearchResult)
    requires Searchable(s, 1, h) && 1 <= k <= i
    requires !Losing(AbNegamax(s, k, player, alpha, beta, h).score)
    requires forall j: nat :: k < j <= i ==> Losing(AbNegamax(s, j, player, alpha, beta, h).score)
    ensures Retry(s, i, player, alpha, beta, h, last) == AbNegamax(s, k, player, alpha, beta, h)
    decreases i
  {
    var a := AbNegamax(s, i, player, alpha, beta, h);
    if k < i {
      RetryLosingStep(s, i, player, alpha, beta, h, last, a);
      RetryStopsAt(s, i - 1, k, player, alpha, beta, h, a);
    }
  }

  /** When every depth from `i` down to 1 is a proven loss, the retry loop
      returns the depth-1 result, or `last` when there is no depth to try. */
  lemma {:induction false} RetryAllLosing(s: State, i: int, player: Player, alpha: Ext, beta: Ext,
                                         h: Heuristic, last: SearchResult)
    requires Searchable(s, 1, h)
    requires forall j: nat :: 1 <= j <= i ==> Losing(AbNegamax(s, j, player, alpha, beta, h).score)
    ensures Retry(s, i, player, alpha, beta, h, last) == if i >= 1 then AbNegamax(s, 1, player, alpha, beta, h) else last
    decreases i
  {
    if i > 0 {
      var a := AbNegamax(s, i, player, alpha, beta, h);
      RetryLosingStep(s, i, player, alpha, beta, h, last, a);
      if i > 1 {
        RetryAllLosing(s, i - 1, player, alpha, beta, h, a);
      }
    }
  }

  /** After a proven loss at full depth, `power_abnegamax` is the retry
      loop from `depth - 1`. */
  lemma PowerRetries(s: State, depth: nat, player: Player, alpha: Ext, beta: Ext, h: Heuristic)
    requires Searchable(s, 1, h) && depth >= 1
    requires Losing(AbNegamax(s, depth, player, alpha, beta, h).score)
    ensures PowerAbNegamax(s, depth, player, alpha, beta, h)
            == Retry(s, depth - 1, player, alpha, beta, h, AbNegamax(s, depth, player, alpha, beta, h))
  {
  }

  /** `power_abnegamax` keeps the full-depth result when it is not a proven
      loss. */
  lemma PowerKeepsResult(s: State, depth: nat, player: Player, alpha: Ext, beta: Ext, h: Heuristic)
    requires Searchable(s, depth, h)
    requires !Losing(AbNegamax(s, depth, player, alpha, beta, h).score)
    ensures PowerAbNegamax(s, depth, player, alpha, beta, h) == AbNegamax(s, depth, player, alpha, beta, h)
  {
  }

  /** After a full-depth proven loss, `power_abnegamax` returns the result at
      the deepest shallower depth `k` that is not a proven loss. */
  lemma PowerFallback(s: State, depth: nat, k: nat, player: Player, alpha: Ext, beta: Ext, h: Heuristic)
    requires Searchable(s, 1, h) && 1 <= k < depth
    requires Losing(AbNegamax(s, depth, player, alpha, beta, h).score)
    requires !Losing(AbNegamax(s, k, player, alpha, beta, h).score)
    requires forall j: nat :: k < j < depth ==> Losing(AbNegamax(s, j, player, alpha, beta, h).score)
    ensures PowerAbNegamax(s, depth, player, alpha, beta, h) == AbNegamax(s, k, player, alpha, beta, h)
  {
    SearchableDeeper(s, 1, depth, h);
    var first := AbNegamax(s, depth, player, alpha, beta, h);
    PowerRetries(s, depth, player, alpha, beta, h);
    RetryStopsAt(s, depth - 1, k, player, alpha, beta, h, first);
  }

  /** At depth 0 there is no shallower depth to retry: `power_abnegamax`
      returns the original result, whether or not it is a proven loss. */
  lemma PowerDepthZero(s: State, player: Player, alpha: Ext, beta: Ext, h: Heuristic)
    requires Searchable(s, 0, h)
    ensures PowerAbNegamax(s, 0, player, alpha, beta, h) == AbNegamax(s, 0, player, alpha, beta, h)
  {
  }

  /** When every depth up to `depth` is a proven loss, `power_abnegamax`
      returns the depth-1 result. */
  lemma PowerAllLosing(s: State, depth: nat, player: Player, alpha: Ext, beta: Ext, h: Heuristic)
    requires Searchable(s, 1, h) && depth >= 1
    requires forall j: nat :: 1 <= j <= depth ==> Losing(AbNegamax(s, j, player, alpha, beta, h).score)
    ensures PowerAbNegamax(s, depth, player, alpha, beta, h) == AbNegamax(s, 1, player, alpha, beta, h)
  {
    var first := AbNegamax(s, depth, player, alpha, beta, h);
    assert Losing(first.score);
    PowerRetries(s, depth, player, alpha, beta, h);
    RetryAllLosing(s, depth - 1, player, alpha, beta, h, first);
  }
}
