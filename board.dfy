/** The source's `Board` object: fields updated in place by `make_move`,
    loops that collect free cells and ray moves, and a copying move used by
    the search.  Each method is proved against the functions of module
    `BoardState` applied to `Value()`. */
module Board {
  import opened Common
  import opened BoardState
  import MoveEffects

  class Board {
    const rows: nat
    const columns: nat
    var cells: seq<Code>
    var active: Player
    var inactive: Player
    var positions: map<Player, Pos>

    /** The board's fields as a value. */
    function Value(): State
      reads this
    {
      State(rows, columns, cells, active, inactive, positions)
    }

    predicate Valid()
      reads this
    {
      BoardState.Valid(Value())
    }

    /** A `rows` by `columns` board with every cell clear, nobody placed and
        player 1 to move. */
    constructor (rows: nat, columns: nat)
      ensures Valid()
      ensures Value() == Initial(rows, columns)
      ensures |cells| == rows * columns
      ensures forall i :: 0 <= i < |cells| ==> cells[i] == BOX_CLEAR
      ensures positions == map[] && active == Player1 && inactive == Player2
    {
      this.rows := rows;
      this.columns := columns;
      cells := [];
      active := Player1;
      inactive := Player2;
      positions := map[];
      new;
      ClearBoard();
      MoveEffects.InitialValid(rows, columns);
    }

    /** An independent board with the same fields (the deep copy the source
        makes by serialising and deserialising). */
    constructor CopyOf(other: Board)
      ensures Value() == other.Value()
    {
      rows := other.rows;
      columns := other.columns;
      cells := other.cells;
      active := other.active;
      inactive := other.inactive;
      positions := other.positions;
    }

    /** Rebuilds the cell list: `rows * columns` clear cells. */
    method ClearBoard()
      modifies this`cells
      ensures |cells| == rows * columns
      ensures forall i :: 0 <= i < |cells| ==> cells[i] == BOX_CLEAR
    {
      cells := seq(rows * columns, _ => BOX_CLEAR);
    }

    /** The source's `__eq__`: all fields equal. */
    predicate Equals(other: Board)
      reads this, other
      ensures Equals(other) <==> Value() == other.Value()
    {
      && rows == other.rows && columns == other.columns && cells == other.cells
      && active == other.active && inactive == other.inactive
      && positions == other.positions
    }

    /** The source's `player_pos`: the position recorded for `p`, which is a
        blocked cell of the grid. */
    function PlayerPosition(p: Player): (r: Option<Pos>)
      reads this
      requires Valid()
      ensures r.Some? <==> p in positions
      ensures r.Some? ==> r.value == positions[p]
      ensures r.Some? ==> InGrid(Value(), r.value) && Blocked(Value(), r.value)
    {
      PlayerPos(Value(), p)
    }

    /** The source's `__block_box`: the cell at `(x, y)` takes `state` with the blocked bit. */
    method BlockBox(x: int, y: int, state: Code)
      requires WellFormed(Value()) && InGrid(Value(), Pos(x, y))
      modifies this`cells
      ensures cells == old(cells)[Offset(old(Value()), Pos(x, y)) := state | BOX_BLOCKED_MASK]
    {
      cells := cells[Offset(Value(), Pos(x, y)) := state | BOX_BLOCKED_MASK];
    }

    /** The source's `get_free_boxes`: the unblocked cells, row by row. */
    method GetFreeBoxes() returns (moves: seq<Pos>)
      requires WellFormed(Value())
      ensures moves == FreeBoxes(Value())
    {
      moves := [];
      for y := 0 to rows
        invariant moves == FreeRows(Value(), y)
      {
        for x := 0 to columns
          invariant moves == FreeRows(Value(), y) + FreeInRow(Value(), y, x)
        {
          if !Blocked(Value(), Pos(x, y)) {
            moves := moves + [Pos(x, y)];
          }
        }
      }
    }

    /** The source's `get_legal_moves(player)`, the active player when `player` is `None`. */
    method GetLegalMoves(player: Option<Player>) returns (moves: seq<Pos>)
      requires WellFormed(Value())
      ensures moves == LegalMoves(Value(), if player.None? then active else player.value)
    {
      var p := if player.None? then active else player.value;
      if p !in positions {
        moves := GetFreeBoxes();
        return;
      }
      var loc := positions[p];
      DirectionsUnit();
      moves := [];
      for i := 0 to |Directions|
        invariant moves == Rays(Value(), loc, Directions[..i])
      {
        moves := WalkRay(moves, loc, Directions[i]);
        assert Directions[..i + 1][..i] == Directions[..i];
      }
      assert Directions[..|Directions|] == Directions;
    }

    /** The inner loop of `get_legal_moves`: from `loc`, step along `d`
        while the next cell is in the grid and unblocked, appending each
        cell reached to `moves`. */
    method WalkRay(moves: seq<Pos>, loc: Pos, d: Dir) returns (moves': seq<Pos>)
      requires WellFormed(Value()) && UnitDir(d)
      ensures moves' == moves + Ray(Value(), loc, d)
    {
      moves' := moves;
      var x, y := loc.x, loc.y;
      while 0 <= x + d.dx < columns && 0 <= y + d.dy < rows
        invariant moves + Ray(Value(), loc, d) == moves' + Ray(Value(), Pos(x, y), d)
        decreases RayMeasure(Value(), Pos(x, y), d)
      {
        var next := Pos(x + d.dx, y + d.dy);
        if Blocked(Value(), next) {
          break;
        }
        moves' := moves' + [next];
        x, y := next.x, next.y;
      }
    }

    /** The source's `make_move(x, y)`: the active player moves to the
        unblocked cell `(x, y)`, which becomes blocked, and the turn passes. */
    method MakeMove(x: int, y: int)
      requires Valid() && InGrid(Value(), Pos(x, y)) && !Blocked(Value(), Pos(x, y))
      modifies this
      ensures Valid()
      ensures Value() == Apply(old(Value()), Pos(x, y))
    {
      ghost var s := Value();
      MoveEffects.ApplyEffects(s, Pos(x, y));
      positions := positions[active := Pos(x, y)];
      BlockBox(x, y, PlayerCode(active));
      assert cells == Apply(s, Pos(x, y)).cells by {
        assert Offset(s, Pos(x, y)) == x + RowStart(columns, y);
      }
      if active == Player1 {
        active := Player2;
        inactive := Player1;
      } else {
        active := Player1;
        inactive := Player2;
      }
      assert Value() == Apply(s, Pos(x, y));
    }

    /** The source's `make_move_copy(x, y)`: the move applied to a fresh copy;
        this board is left as it was. */
    method MakeMoveCopy(x: int, y: int) returns (copy: Board)
      requires Valid() && InGrid(Value(), Pos(x, y)) && !Blocked(Value(), Pos(x, y))
      ensures fresh(copy) && copy.Valid()
      ensures copy.Value() == Apply(Value(), Pos(x, y))
    {
      copy := new Board.CopyOf(this);
      copy.MakeMove(x, y);
    }

    /** The source's `is_game_over`: the winner, or `None` while both can move. */
    method IsGameOver() returns (winner: Option<Player>)
      requires WellFormed(Value())
      ensures winner == GameOver(Value())
    {
      var a := GetLegalMoves(Some(active));
      if |a| == 0 {
        return Some(inactive);
      }
      var b := GetLegalMoves(Some(inactive));
      if |b| == 0 {
        return Some(active);
      }
      return None;
    }
  }
}
