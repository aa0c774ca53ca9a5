/** The Isolation board as a value: the grid of cell codes, whose turn it is,
    and where each player stands.  Every query and the effect of a move are
    functions here; the `Board` class in module `Board` updates the same
    fields in place and is proved against these functions. */
module BoardState {
  import opened Common

  datatype Player = Player1 | Player2

  /** A cell coordinate: `x` is the column, `y` the row. */
  datatype Pos = Pos(x: int, y: int)

  /** A cell code: a state tag, or-ed with `BOX_BLOCKED_MASK` once the cell is blocked. */
  type Code = bv8

  const PLAYER1: Code := 1
  const PLAYER2: Code := 2
  const BOX_CLEAR: Code := 4
  const BOX_BLOCK: Code := 8
  const BOX_BLOCKED_MASK: Code := 16

  function PlayerCode(p: Player): Code {
    if p == Player1 then PLAYER1 else PLAYER2
  }

  /** Whether a code carries the blocked bit. */
  predicate IsBlockedCode(c: Code) {
    c & BOX_BLOCKED_MASK == BOX_BLOCKED_MASK
  }

  /** The code a cell takes when `p` moves onto it. */
  function OccupiedCode(p: Player): (c: Code)
    ensures IsBlockedCode(c)
    ensures c != BOX_CLEAR
  {
    PlayerCode(p) | BOX_BLOCKED_MASK
  }

  /** The fields of the source's `Board`; a position is absent from `positions`
      until that player's first move (the source stores `None`). */
  datatype State = State(
    rows: nat,
    columns: nat,
    cells: seq<Code>,
    active: Player,
    inactive: Player,
    positions: map<Player, Pos>)

  /** The flat list holds one code per cell. */
  predicate WellFormed(s: State) {
    |s.cells| == s.rows * s.columns
  }

  predicate InGrid(s: State, q: Pos) {
    0 <= q.x < s.columns && 0 <= q.y < s.rows
  }

  lemma MulMono(a: int, b: int, c: nat)
    requires a <= b
    ensures a * c <= b * c
  {
    assert b * c - a * c == (b - a) * c;
  }

  /** `y * columns`, by repeated addition: the index where row `y` starts. */
  function RowStart(columns: nat, y: nat): nat {
    if y == 0 then 0 else RowStart(columns, y - 1) + columns
  }

  lemma {:induction false} RowStartMono(columns: nat, a: nat, b: nat)
    requires a <= b
    ensures RowStart(columns, a) <= RowStart(columns, b)
    decreases b
  {
    if a < b {
      RowStartMono(columns, a, b - 1);
    }
  }

  lemma {:induction false} RowStartIsProduct(columns: nat, y: nat)
    ensures RowStart(columns, y) == y * columns
  {
    if y > 0 {
      RowStartIsProduct(columns, y - 1);
    }
  }

  /** A cell of the grid lies before the end of the flat list. */
  lemma OffsetBound(s: State, q: Pos)
    requires WellFormed(s) && InGrid(s, q)
    ensures q.x + RowStart(s.columns, q.y) < |s.cells|
  {
    RowStartMono(s.columns, q.y + 1, s.rows);
    RowStartIsProduct(s.columns, s.rows);
  }

  /** Row-major index of a cell in the flat list. */
  function Offset(s: State, q: Pos): (i: nat)
    requires WellFormed(s) && InGrid(s, q)
    ensures i < |s.cells|
  {
    OffsetBound(s, q);
    q.x + RowStart(s.columns, q.y)
  }

  /** The offset is the source's `y * columns + x`. */
  lemma OffsetRowMajor(s: State, q: Pos)
    requires WellFormed(s) && InGrid(s, q)
    ensures Offset(s, q) == q.y * s.columns + q.x
  {
    RowStartIsProduct(s.columns, q.y);
  }

  /** Distinct cells of the grid have distinct offsets. */
  lemma OffsetInjective(s: State, a: Pos, b: Pos)
    requires WellFormed(s) && InGrid(s, a) && InGrid(s, b)
    ensures Offset(s, a) == Offset(s, b) ==> a == b
  {
    if a.y < b.y {
      RowStartMono(s.columns, a.y + 1, b.y);
    } else if b.y < a.y {
      RowStartMono(s.columns, b.y + 1, a.y);
    }
  }

  function CellAt(s: State, q: Pos): Code
    requires WellFormed(s) && InGrid(s, q)
  {
    s.cells[Offset(s, q)]
  }

  /** The source's `box_blocked`. */
  predicate Blocked(s: State, q: Pos)
    requires WellFormed(s) && InGrid(s, q)
  {
    IsBlockedCode(CellAt(s, q))
  }

  /** The source's `player_pos`. */
  function PlayerPos(s: State, p: Player): Option<Pos> {
    if p in s.positions then Some(s.positions[p]) else None
  }

  /** The invariant every board reachable by moves keeps: one code per cell,
      two distinct players, and each recorded position a cell inside the grid
      holding that player's blocked code. */
  predicate Valid(s: State) {
    && WellFormed(s)
    && s.active != s.inactive
    && forall p :: p in s.positions ==>
         InGrid(s, s.positions[p]) && CellAt(s, s.positions[p]) == OccupiedCode(p)
  }

  /** A fresh board: every cell clear, nobody placed, player 1 to move. */
  function Initial(rows: nat, columns: nat): State {
    State(rows, columns, seq(rows * columns, _ => BOX_CLEAR), Player1, Player2, map[])
  }

  // ---------------------------------------------------------------------
  // Free cells, in row-major order (the source's `get_free_boxes`)

  /** The unblocked cells of row `y` among its first `x` columns, left to right. */
  function FreeInRow(s: State, y: int, x: nat): seq<Pos>
    requires WellFormed(s) && 0 <= y < s.rows && x <= s.columns
  {
    if x == 0 then []
    else FreeInRow(s, y, x - 1) + (if Blocked(s, Pos(x - 1, y)) then [] else [Pos(x - 1, y)])
  }

  /** The unblocked cells of the first `y` rows, row by row. */
  function FreeRows(s: State, y: nat): seq<Pos>
    requires WellFormed(s) && y <= s.rows
  {
    if y == 0 then [] else FreeRows(s, y - 1) + FreeInRow(s, y - 1, s.columns)
  }

  function FreeBoxes(s: State): seq<Pos>
    requires WellFormed(s)
  {
    FreeRows(s, s.rows)
  }

  // ---------------------------------------------------------------------
  // Rays (the source's `get_legal_moves` for a placed player)

  /** A unit step in one of the eight compass directions. */
  datatype Dir = Dir(dx: int, dy: int)

  predicate UnitDir(d: Dir) {
    -1 <= d.dx <= 1 && -1 <= d.dy <= 1 && (d.dx != 0 || d.dy != 0)
  }

  /** The eight directions in the order the source explores them. */
  const Directions: seq<Dir> :=
    [Dir(-1, -1), Dir(0, -1), Dir(1, -1), Dir(1, 0),
     Dir(1, 1), Dir(0, 1), Dir(-1, 1), Dir(-1, 0)]

  lemma DirectionsUnit()
    ensures |Directions| == 8
    ensures forall i :: 0 <= i < |Directions| ==> UnitDir(Directions[i])
  {
  }

  lemma DirectionsDistinct()
    ensures forall i, j :: 0 <= i < j < |Directions| ==> Directions[i] != Directions[j]
  {
  }

  function Step(q: Pos, d: Dir): Pos {
    Pos(q.x + d.dx, q.y + d.dy)
  }

  /** How many more steps along `d` can stay inside the grid, plus one. */
  function RayMeasure(s: State, q: Pos, d: Dir): int {
    if d.dx == 1 then s.columns - q.x
    else if d.dx == -1 then q.x + 1
    else if d.dy == 1 then s.rows - q.y
    else q.y + 1
  }

  /** The cells reached from `q` by repeated steps along `d`, stopping before
      the grid edge or the first blocked cell. */
  function Ray(s: State, q: Pos, d: Dir): seq<Pos>
    requires WellFormed(s) && UnitDir(d)
    decreases RayMeasure(s, q, d)
  {
    var n := Step(q, d);
    if InGrid(s, n) && !Blocked(s, n) then [n] + Ray(s, n, d) else []
  }

  /** The rays along `ds`, concatenated in order. */
  function Rays(s: State, q: Pos, ds: seq<Dir>): seq<Pos>
    requires WellFormed(s) && forall i :: 0 <= i < |ds| ==> UnitDir(ds[i])
  {
    if ds == [] then [] else Rays(s, q, ds[..|ds| - 1]) + Ray(s, q, ds[|ds| - 1])
  }

  /** The source's `get_legal_moves(p)`: every free cell for an unplaced
      player, otherwise the eight rays from the player's position. */
  function LegalMoves(s: State, p: Player): seq<Pos>
    requires WellFormed(s)
  {
    DirectionsUnit();
    match PlayerPos(s, p)
    case None => FreeBoxes(s)
    case Some(q) => Rays(s, q, Directions)
  }

  // ---------------------------------------------------------------------
  // Moves and the end of the game

  /** The player that `make_move` makes active after `p` has moved. */
  function NextActive(p: Player): Player {
    if p == Player1 then Player2 else Player1
  }

  /** The source's `make_move(m.x, m.y)` as a function of the state before. */
  function Apply(s: State, m: Pos): State
    requires WellFormed(s) && InGrid(s, m)
  {
    State(s.rows, s.columns,
          s.cells[Offset(s, m) := OccupiedCode(s.active)],
          NextActive(s.active), s.active,
          s.positions[s.active := m])
  }

  /** The source's `is_game_over`: the player to move loses when stuck,
      checked before the player who has just moved. */
  function GameOver(s: State): (winner: Option<Player>)
    requires WellFormed(s)
    ensures winner == Some(s.inactive) <== LegalMoves(s, s.active) == []
    ensures winner.Some? <==> (LegalMoves(s, s.active) == [] || LegalMoves(s, s.inactive) == [])
    ensures winner.Some? && s.active != s.inactive ==>
              (winner == Some(s.inactive) <==> LegalMoves(s, s.active) == [])
  {
    if LegalMoves(s, s.active) == [] then Some(s.inactive)
    else if LegalMoves(s, s.inactive) == [] then Some(s.active)
    else None
  }
}
