/** What a move does to a board: one cell changes, it becomes blocked with the
    mover's code, the mover's position is recorded there, the turn passes,
    and nothing is ever unblocked. */
module MoveEffects {
  import opened Common
  import opened BoardState

  /** The number of blocked cells in a cell list. */
  function BlockedCount(cells: seq<Code>): nat {
    if cells == [] then 0
    else (if IsBlockedCode(cells[0]) then 1 else 0) + BlockedCount(cells[1..])
  }

  /** Blocking one unblocked cell adds exactly one to the count. */
  lemma {:induction false} BlockOneMore(cells: seq<Code>, i: nat, c: Code)
    requires i < |cells| && !IsBlockedCode(cells[i]) && IsBlockedCode(c)
    ensures BlockedCount(cells[i := c]) == BlockedCount(cells) + 1
  {
    if i == 0 {
      assert cells[i := c][1..] == cells[1..];
    } else {
      BlockOneMore(cells[1..], i - 1, c);
      assert cells[i := c][1..] == cells[1..][i - 1 := c];
    }
  }

  /** A new board is valid, empty of players, and has player 1 to move. */
  lemma InitialValid(rows: nat, columns: nat)
    ensures Valid(Initial(rows, columns))
    ensures var s := Initial(rows, columns);
      && |s.cells| == rows * columns
      && (forall i :: 0 <= i < |s.cells| ==> s.cells[i] == BOX_CLEAR)
      && PlayerPos(s, Player1) == None && PlayerPos(s, Player2) == None
      && s.active == Player1 && s.inactive == Player2
      && BlockedCount(s.cells) == 0
  {
    var s := Initial(rows, columns);
    NoneBlocked(s.cells);
  }

  lemma {:induction false} NoneBlocked(cells: seq<Code>)
    requires forall i :: 0 <= i < |cells| ==> cells[i] == BOX_CLEAR
    ensures BlockedCount(cells) == 0
  {
    if cells != [] {
      NoneBlocked(cells[1..]);
    }
  }

  /** The effect of a move from a valid board to an unblocked cell of the grid. */
  lemma ApplyEffects(s: State, m: Pos)
    requires Valid(s) && InGrid(s, m) && !Blocked(s, m)
    ensures var t := Apply(s, m);
      && Valid(t)
      && t.rows == s.rows && t.columns == s.columns
      // the players swap, and the pair stays {Player1, Player2}
      && t.active == s.inactive && t.inactive == s.active
      && {t.active, t.inactive} == {Player1, Player2}
      // the mover now stands on m, which holds its blocked code
      && PlayerPos(t, s.active) == Some(m)
      && CellAt(t, m) == OccupiedCode(s.active) && Blocked(t, m)
      // the other player and every other cell are as before
      && PlayerPos(t, s.inactive) == PlayerPos(s, s.inactive)
      && (forall q :: InGrid(s, q) && q != m ==> CellAt(t, q) == CellAt(s, q))
      // nothing is unblocked, and exactly one more cell is blocked
      && (forall q :: InGrid(s, q) && Blocked(s, q) ==> Blocked(t, q))
      && BlockedCount(t.cells) == BlockedCount(s.cells) + 1
  {
    var t := Apply(s, m);
    forall q | InGrid(s, q) && q != m
      ensures CellAt(t, q) == CellAt(s, q)
    {
      OffsetInjective(s, q, m);
    }
    forall p | p in t.positions
      ensures InGrid(t, t.positions[p]) && CellAt(t, t.positions[p]) == OccupiedCode(p)
    {
      if p != s.active {
        var q := s.positions[p];
        assert q != m by {
          assert Blocked(s, q);
        }
      }
    }
    BlockOneMore(s.cells, Offset(s, m), OccupiedCode(s.active));
  }

  /** A move never removes a recorded position. */
  lemma ApplyKeepsPlaced(s: State, m: Pos)
    requires WellFormed(s) && InGrid(s, m)
    ensures Apply(s, m).positions.Keys == s.positions.Keys + {s.active}
  {
  }
}
