/** The four scoring heuristics of the AI.  All share one terminal contract:
    a decided game scores `MAX_SCORE` for the winner and `-MAX_SCORE` for
    the loser; an undecided board is scored from its own active player's
    point of view and stays strictly inside that range. */
module Heuristics {
  import opened Common
  import opened BoardState
  import MoveLemmas

  const MAX_SCORE: int := 10000

  /** The source's `score_func1` to `score_func4`. */
  datatype Heuristic =
    | Centrality  // score_func1: inverse distance to the centre, active minus inactive
    | Mobility    // score_func2: number of legal moves, active minus inactive
    | Flee        // score_func3: distance between the players
    | Chase       // score_func4: inverse distance between the players

  function Abs(n: int): nat {
    if n < 0 then -n else n
  }

  function ManhattanDistance(x1: int, y1: int, x2: int, y2: int): (d: nat)
    ensures d == 0 <==> x1 == x2 && y1 == y2
    ensures d >= Abs(x1 - x2) && d >= Abs(y1 - y2)
  {
    Abs(x1 - x2) + Abs(y1 - y2)
  }

  lemma ManhattanSymmetric(x1: int, y1: int, x2: int, y2: int)
    ensures ManhattanDistance(x1, y1, x2, y2) == ManhattanDistance(x2, y2, x1, y1)
  {
  }

  /** `total` scaled by the inverse of a distance: `total + 5` at distance 0,
      otherwise the integer quotient `total / dist`, i.e. the largest `r`
      with `r * dist <= total`. */
  function ScaledInverse(total: nat, dist: nat): (r: int)
    ensures dist == 0 ==> r == total + 5
    ensures dist > 0 ==> 0 <= r <= total && r * dist <= total < (r + 1) * dist
  {
    if dist <= 0 then total + 5 else total / dist
  }

  /** The number of cells, the source's `columns * rows`. */
  function Area(s: State): nat {
    s.columns * s.rows
  }

  /** The source's `inv_dist_to_centre`: the scaled inverse of the player's
      distance to the cell `(columns // 2, rows // 2)`. */
  function InvDistToCentre(s: State, p: Player): (r: int)
    requires p in s.positions
    ensures 0 <= r <= Area(s) + 5
    ensures r == Area(s) + 5 <==> s.positions[p] == Pos(s.columns / 2, s.rows / 2)
  {
    var q := s.positions[p];
    ScaledInverse(Area(s), ManhattanDistance(q.x, q.y, s.columns / 2, s.rows / 2))
  }

  /** The heuristics other than `Mobility` need both players on the board. */
  predicate Scorable(s: State, h: Heuristic) {
    h == Mobility || (s.active in s.positions && s.inactive in s.positions)
  }

  /** How many moves are still needed before both players are on the board:
      0 when both are placed, 1 when only the player to move is unplaced,
      2 when the player who moved last is unplaced. */
  function ToPlace(s: State): nat {
    if s.inactive !in s.positions then 2
    else if s.active !in s.positions then 1
    else 0
  }

  /** A board with nothing left to place can be scored by every heuristic. */
  lemma PlacedScorable(s: State, h: Heuristic)
    ensures ToPlace(s) == 0 <==> (s.active in s.positions && s.inactive in s.positions)
    ensures ToPlace(s) == 0 ==> Scorable(s, h)
  {
  }

  /** Every move places the player to move, so one placement fewer remains. */
  lemma ToPlaceAfterMove(s: State, m: Pos)
    requires Valid(s) && InGrid(s, m)
    ensures ToPlace(Apply(s, m)) == if ToPlace(s) == 0 then 0 else ToPlace(s) - 1
  {
  }

  /** The source's `score_funcN(board, winner, player)` for `N` chosen by `h`. */
  function Score(h: Heuristic, s: State, winner: Option<Player>, player: Player): (r: int)
    requires WellFormed(s) && (winner.Some? || Scorable(s, h))
    ensures winner.Some? ==> r == (if winner.value == player then MAX_SCORE else -MAX_SCORE)
  {
    if winner.Some? then
      (if winner.value == player then MAX_SCORE else -MAX_SCORE)
    else
      match h
      case Centrality =>
        InvDistToCentre(s, s.active) - InvDistToCentre(s, s.inactive)
      case Mobility =>
        |LegalMoves(s, s.active)| - |LegalMoves(s, s.inactive)|
      case Flee =>
        var a, o := s.positions[s.active], s.positions[s.inactive];
        ManhattanDistance(a.x, a.y, o.x, o.y)
      case Chase =>
        var a, o := s.positions[s.active], s.positions[s.inactive];
        ScaledInverse(Area(s), ManhattanDistance(a.x, a.y, o.x, o.y))
  }

  /** `score_func1` lies within the scaled inverse of distance zero, either way. */
  lemma CentralityRange(s: State, player: Player)
    requires Valid(s) && Scorable(s, Centrality)
    ensures -(Area(s) + 5) <= Score(Centrality, s, None, player) <= Area(s) + 5
  {
    var a, b := InvDistToCentre(s, s.active), InvDistToCentre(s, s.inactive);
    assert Score(Centrality, s, None, player) == a - b;
  }

  /** `score_func2` is a difference of two move counts, each at most the number of cells. */
  lemma MobilityRange(s: State, player: Player)
    requires Valid(s)
    ensures -(Area(s) as int) <= Score(Mobility, s, None, player) <= Area(s)
  {
    var a, b := |LegalMoves(s, s.active)|, |LegalMoves(s, s.inactive)|;
    var n := Area(s);
    assert a <= n && b <= n by {
      MoveLemmas.LegalMovesBound(s, s.active);
      MoveLemmas.LegalMovesBound(s, s.inactive);
    }
    assert Score(Mobility, s, None, player) == a - b;
    assert -n <= a - b <= n;
  }

  /** `score_func3` is a distance between two cells of the grid. */
  lemma FleeRange(s: State, player: Player)
    requires Valid(s) && Scorable(s, Flee)
    ensures 0 <= Score(Flee, s, None, player) <= s.rows + s.columns - 2
  {
    var a, o := s.positions[s.active], s.positions[s.inactive];
    assert ManhattanDistance(a.x, a.y, o.x, o.y) <= s.rows + s.columns - 2 by {
      DistanceInGrid(s, a, o);
    }
    assert Score(Flee, s, None, player) == ManhattanDistance(a.x, a.y, o.x, o.y);
  }

  /** `score_func4` is the scaled inverse of the players' distance. */
  lemma ChaseRange(s: State, player: Player)
    requires Valid(s) && Scorable(s, Chase)
    ensures 0 <= Score(Chase, s, None, player) <= Area(s) + 5
  {
    var a, o := s.positions[s.active], s.positions[s.inactive];
    assert Score(Chase, s, None, player) == ScaledInverse(Area(s), ManhattanDistance(a.x, a.y, o.x, o.y));
  }

  /** Two cells of the grid are at most `rows + columns - 2` apart. */
  lemma DistanceInGrid(s: State, a: Pos, o: Pos)
    requires InGrid(s, a) && InGrid(s, o)
    ensures ManhattanDistance(a.x, a.y, o.x, o.y) <= s.rows + s.columns - 2
  {
  }

  /** On boards with `rows * columns + 5 < MAX_SCORE` no heuristic estimate
      reaches the score of a decided game. */
  lemma ScoreBelowMax(h: Heuristic, s: State, player: Player)
    requires Valid(s) && Scorable(s, h) && Area(s) + 5 < MAX_SCORE
    ensures -MAX_SCORE < Score(h, s, None, player) < MAX_SCORE
  {
    match h
    case Centrality => CentralityRange(s, player);
    case Mobility => MobilityRange(s, player);
    case Flee =>
      FleeRange(s, player);
      assert s.rows + s.columns - 2 <= Area(s) + 5 by {
        assert InGrid(s, s.positions[s.active]);
        AreaCoversSides(s.rows, s.columns);
      }
    case Chase => ChaseRange(s, player);
  }

  lemma AreaCoversSides(rows: nat, columns: nat)
    requires rows > 0 && columns > 0
    ensures rows + columns <= columns * rows + 1
  {
    MulMono(0, rows - 1, columns - 1);
    assert (rows - 1) * (columns - 1) == columns * rows - rows - columns + 1;
  }

  /** A heuristic that can score a board can score every board after a move. */
  lemma ScorableAfterMove(h: Heuristic, s: State, m: Pos)
    requires Valid(s) && InGrid(s, m) && Scorable(s, h)
    ensures Scorable(Apply(s, m), h)
  {
  }
}
