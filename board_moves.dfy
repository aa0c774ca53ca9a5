/** What the legal moves of a player are: for an unplaced player every
    unblocked cell in row-major order, for a placed one exactly the cells
    reachable by an unobstructed queen step, each listed once. */
module MoveLemmas {
  import opened Common
  import opened BoardState

  /** Row-major order on cells. */
  predicate Before(a: Pos, b: Pos) {
    a.y < b.y || (a.y == b.y && a.x < b.x)
  }

  predicate RowMajor(q: seq<Pos>) {
    forall i, j :: 0 <= i < j < |q| ==> Before(q[i], q[j])
  }

  predicate NoDup(q: seq<Pos>) {
    forall i, j :: 0 <= i < j < |q| ==> q[i] != q[j]
  }

  predicate Free(s: State, m: Pos)
    requires WellFormed(s)
  {
    InGrid(s, m) && !Blocked(s, m)
  }

  // ---------------------------------------------------------------------
  // Free cells

  /** The cells of `FreeInRow(s, y, x)` are the free cells among the first `x` of row `y`. */
  lemma {:induction false} FreeInRowMembers(s: State, y: int, x: nat)
    requires WellFormed(s) && 0 <= y < s.rows && x <= s.columns
    ensures forall m :: m in FreeInRow(s, y, x) <==> m.y == y && 0 <= m.x < x && Free(s, m)
  {
    if x > 0 {
      FreeInRowMembers(s, y, x - 1);
    }
  }

  /** `FreeInRow(s, y, x)` lies in row `y`, left to right, at most one cell per column. */
  lemma {:induction false} FreeInRowShape(s: State, y: int, x: nat)
    requires WellFormed(s) && 0 <= y < s.rows && x <= s.columns
    ensures forall m :: m in FreeInRow(s, y, x) ==> m.y == y && 0 <= m.x < x
    ensures RowMajor(FreeInRow(s, y, x))
    ensures |FreeInRow(s, y, x)| <= x
  {
    if x > 0 {
      FreeInRowShape(s, y, x - 1);
    }
  }

  lemma {:induction false} FreeRowsMembers(s: State, y: nat)
    requires WellFormed(s) && y <= s.rows
    ensures forall m :: m in FreeRows(s, y) <==> 0 <= m.y < y && Free(s, m)
  {
    if y > 0 {
      FreeRowsMembers(s, y - 1);
      FreeInRowMembers(s, y - 1, s.columns);
    }
  }

  /** `FreeRows(s, y)` lies in the first `y` rows, in row-major order. */
  lemma {:induction false} FreeRowsOrder(s: State, y: nat)
    requires WellFormed(s) && y <= s.rows
    ensures forall m :: m in FreeRows(s, y) ==> 0 <= m.y < y
    ensures RowMajor(FreeRows(s, y))
  {
    if y > 0 {
      FreeRowsOrder(s, y - 1);
      FreeInRowShape(s, y - 1, s.columns);
      var a, b := FreeRows(s, y - 1), FreeInRow(s, y - 1, s.columns);
      assert FreeRows(s, y) == a + b;
      RowMajorAppend(a, b, y - 1);
    }
  }

  lemma {:induction false} FreeRowsLength(s: State, y: nat)
    requires WellFormed(s) && y <= s.rows
    ensures |FreeRows(s, y)| <= y * s.columns
  {
    if y > 0 {
      FreeRowsLength(s, y - 1);
      FreeInRowShape(s, y - 1, s.columns);
      assert |FreeRows(s, y)| == |FreeRows(s, y - 1)| + |FreeInRow(s, y - 1, s.columns)|;
      assert (y - 1) * s.columns + s.columns == y * s.columns;
    }
  }

  /** Appending a row-major run of row `y` after row-major cells of earlier rows. */
  lemma RowMajorAppend(a: seq<Pos>, b: seq<Pos>, y: int)
    requires RowMajor(a) && RowMajor(b)
    requires forall m :: m in a ==> m.y < y
    requires forall m :: m in b ==> m.y == y
    ensures RowMajor(a + b)
  {
    forall i, j | 0 <= i < j < |a + b|
      ensures Before((a + b)[i], (a + b)[j])
    {
      if j >= |a| && i < |a| {
        assert (a + b)[i] == a[i] && (a + b)[j] == b[j - |a|];
        assert a[i] in a && b[j - |a|] in b;
      } else if i >= |a| {
        assert (a + b)[i] == b[i - |a|] && (a + b)[j] == b[j - |a|];
      }
    }
  }

  /** The free cells of a board are exactly the unblocked cells of the grid,
      listed in row-major order (so none twice), at most one per cell. */
  lemma FreeBoxesExact(s: State)
    requires WellFormed(s)
    ensures forall m :: m in FreeBoxes(s) <==> Free(s, m)
    ensures RowMajor(FreeBoxes(s)) && NoDup(FreeBoxes(s))
    ensures |FreeBoxes(s)| <= s.rows * s.columns
  {
    FreeRowsMembers(s, s.rows);
    FreeRowsOrder(s, s.rows);
    FreeRowsLength(s, s.rows);
  }

  // ---------------------------------------------------------------------
  // Rays

  /** `k * d` for a unit component `d`, without multiplication. */
  function Mul(k: int, d: int): int {
    if d == 1 then k else if d == -1 then -k else 0
  }

  /** The cell `k` steps from `q` along `d`. */
  function Along(q: Pos, d: Dir, k: int): Pos {
    Pos(q.x + Mul(k, d.dx), q.y + Mul(k, d.dy))
  }

  /** The first `k` cells along `d` from `q` are inside the grid and unblocked. */
  predicate ClearPath(s: State, q: Pos, d: Dir, k: int)
    requires WellFormed(s)
  {
    forall j :: 1 <= j <= k ==> Free(s, Along(q, d, j))
  }

  /** A queen step: `m` lies `k >= 1` cells along `d` from `q`, and the path up to
      and including `m` is inside the grid and unblocked. */
  predicate QueenStep(s: State, q: Pos, d: Dir, k: int, m: Pos)
    requires WellFormed(s)
  {
    k >= 1 && m == Along(q, d, k) && ClearPath(s, q, d, k)
  }

  /** One step along `d` followed by `k` more is `k + 1` steps. */
  lemma AlongStep(q: Pos, d: Dir, k: int)
    requires UnitDir(d)
    ensures Along(Step(q, d), d, k) == Along(q, d, k + 1)
    ensures Along(q, d, 1) == Step(q, d)
  {
  }

  /** A queen step never returns to its origin. */
  lemma AlongMoves(q: Pos, d: Dir, k: int)
    requires UnitDir(d) && k >= 1
    ensures Along(q, d, k) != q
  {
    if d.dx != 0 {
      assert Mul(k, d.dx) != 0;
    } else {
      assert Mul(k, d.dy) != 0;
    }
  }

  lemma {:induction false} RayExact(s: State, q: Pos, d: Dir)
    requires WellFormed(s) && UnitDir(d)
    ensures forall m :: m in Ray(s, q, d) <==> exists k :: QueenStep(s, q, d, k, m)
    decreases RayMeasure(s, q, d)
  {
    var n := Step(q, d);
    AlongStep(q, d, 0);
    if InGrid(s, n) && !Blocked(s, n) {
      RayExact(s, n, d);
      var r := Ray(s, n, d);
      assert Ray(s, q, d) == [n] + r;
      forall m | m in [n] + r
        ensures exists k :: QueenStep(s, q, d, k, m)
      {
        if m == n {
          assert QueenStep(s, q, d, 1, m);
        } else {
          assert m in r;
          var k :| QueenStep(s, n, d, k, m);
          ShiftStep(s, q, d, k, m);
        }
      }
      forall m, k | QueenStep(s, q, d, k, m)
        ensures m in [n] + r
      {
        if k > 1 {
          UnshiftStep(s, q, d, k, m);
        }
      }
    } else {
      forall m, k | QueenStep(s, q, d, k, m)
        ensures false
      {
      }
    }
  }

  lemma ShiftStep(s: State, q: Pos, d: Dir, k: int, m: Pos)
    requires WellFormed(s) && UnitDir(d) && Free(s, Step(q, d)) && QueenStep(s, Step(q, d), d, k, m)
    ensures QueenStep(s, q, d, k + 1, m)
  {
    AlongStep(q, d, k);
    forall j | 1 <= j <= k + 1
      ensures Free(s, Along(q, d, j))
    {
      AlongStep(q, d, j - 1);
    }
  }

  lemma UnshiftStep(s: State, q: Pos, d: Dir, k: int, m: Pos)
    requires WellFormed(s) && UnitDir(d) && k > 1 && QueenStep(s, q, d, k, m)
    ensures QueenStep(s, Step(q, d), d, k - 1, m)
  {
    AlongStep(q, d, k - 1);
    forall j | 1 <= j <= k - 1
      ensures Free(s, Along(Step(q, d), d, j))
    {
      AlongStep(q, d, j);
    }
  }

  lemma {:induction false} RayNoDup(s: State, q: Pos, d: Dir)
    requires WellFormed(s) && UnitDir(d)
    ensures NoDup(Ray(s, q, d))
    decreases RayMeasure(s, q, d)
  {
    var n := Step(q, d);
    if InGrid(s, n) && !Blocked(s, n) {
      RayNoDup(s, n, d);
      RayExact(s, n, d);
      var r := Ray(s, n, d);
      forall i | 0 <= i < |r|
        ensures r[i] != n
      {
        assert r[i] in r;
        var k :| QueenStep(s, n, d, k, r[i]);
        AlongMoves(n, d, k);
      }
      assert Ray(s, q, d) == [n] + r;
    }
  }

  /** Cells on different rays from the same origin are different. */
  lemma DistinctDirections(q: Pos, d1: Dir, d2: Dir, k1: int, k2: int)
    requires UnitDir(d1) && UnitDir(d2) && d1 != d2 && k1 >= 1 && k2 >= 1
    ensures Along(q, d1, k1) != Along(q, d2, k2)
  {
  }

  lemma {:induction false} RaysFacts(s: State, q: Pos, ds: seq<Dir>)
    requires WellFormed(s) && forall i :: 0 <= i < |ds| ==> UnitDir(ds[i])
    requires forall i, j :: 0 <= i < j < |ds| ==> ds[i] != ds[j]
    ensures forall m :: m in Rays(s, q, ds) <==>
              exists i, k :: 0 <= i < |ds| && QueenStep(s, q, ds[i], k, m)
    ensures NoDup(Rays(s, q, ds))
  {
    if ds != [] {
      var n := |ds| - 1;
      var front, last := ds[..n], ds[n];
      RaysFacts(s, q, front);
      RayExact(s, q, last);
      RayNoDup(s, q, last);
      var a, b := Rays(s, q, front), Ray(s, q, last);
      forall m: Pos
        ensures m in a + b <==> exists i, k :: 0 <= i < |ds| && QueenStep(s, q, ds[i], k, m)
      {
        if m in a {
          var i, k :| 0 <= i < |front| && QueenStep(s, q, front[i], k, m);
          assert QueenStep(s, q, ds[i], k, m);
        } else if m in b {
          var k :| QueenStep(s, q, last, k, m);
          assert QueenStep(s, q, ds[n], k, m);
        }
        if i, k :| 0 <= i < |ds| && QueenStep(s, q, ds[i], k, m) {
          if i < n {
            assert QueenStep(s, q, front[i], k, m);
          }
        }
      }
      forall i, j | 0 <= i < |a| <= j < |a + b|
        ensures (a + b)[i] != (a + b)[j]
      {
        var m1, m2 := a[i], b[j - |a|];
        assert m1 in a && m2 in b;
        var i1, k1 :| 0 <= i1 < |front| && QueenStep(s, q, front[i1], k1, m1);
        var k2 :| QueenStep(s, q, last, k2, m2);
        DistinctDirections(q, front[i1], last, k1, k2);
      }
    }
  }

  /** For a placed player, a cell is a legal move exactly when it is reached by
      an unobstructed queen step in one of the eight directions; no cell is
      listed twice and the origin is never listed. */
  lemma LegalMovesPlaced(s: State, p: Player, q: Pos)
    requires WellFormed(s) && PlayerPos(s, p) == Some(q)
    ensures forall m :: m in LegalMoves(s, p) <==>
              exists d, k :: d in Directions && QueenStep(s, q, d, k, m)
    ensures NoDup(LegalMoves(s, p))
    ensures q !in LegalMoves(s, p)
  {
    DirectionsUnit();
    DirectionsDistinct();
    RaysFacts(s, q, Directions);
    var l := LegalMoves(s, p);
    forall m | m in l
      ensures exists d, k :: d in Directions && QueenStep(s, q, d, k, m)
    {
      var i, k :| 0 <= i < |Directions| && QueenStep(s, q, Directions[i], k, m);
      AlongMoves(q, Directions[i], k);
    }
    forall m, d, k | d in Directions && QueenStep(s, q, d, k, m)
      ensures m in l
    {
      var i :| 0 <= i < |Directions| && Directions[i] == d;
      assert QueenStep(s, q, Directions[i], k, m);
    }
    forall d, k | d in Directions && k >= 1
      ensures Along(q, d, k) != q
    {
      AlongMoves(q, d, k);
    }
  }

  /** For an unplaced player the legal moves are the free cells in row-major order. */
  lemma LegalMovesUnplaced(s: State, p: Player)
    requires WellFormed(s) && PlayerPos(s, p) == None
    ensures LegalMoves(s, p) == FreeBoxes(s)
    ensures forall m :: m in LegalMoves(s, p) <==> Free(s, m)
    ensures RowMajor(LegalMoves(s, p))
  {
    FreeBoxesExact(s);
  }

  /** Every legal move is an unblocked cell of the grid, listed once. */
  lemma LegalMovesFree(s: State, p: Player)
    requires WellFormed(s)
    ensures forall m :: m in LegalMoves(s, p) ==> Free(s, m)
    ensures NoDup(LegalMoves(s, p))
  {
    match PlayerPos(s, p)
    case None =>
      FreeBoxesExact(s);
    case Some(q) =>
      LegalMovesPlaced(s, p, q);
      forall m | m in LegalMoves(s, p)
        ensures Free(s, m)
      {
        var d, k :| d in Directions && QueenStep(s, q, d, k, m);
      }
  }

  // ---------------------------------------------------------------------
  // Counting

  lemma {:induction false} NoDupCard(q: seq<Pos>)
    requires NoDup(q)
    ensures |set m | m in q| == |q|
  {
    if q != [] {
      NoDupCard(q[1..]);
      assert (set m | m in q) == {q[0]} + (set m | m in q[1..]);
    }
  }

  lemma {:induction false} SetCardLe(q: seq<Pos>)
    ensures |set m | m in q| <= |q|
  {
    if q != [] {
      SetCardLe(q[1..]);
      assert (set m | m in q) == {q[0]} + (set m | m in q[1..]);
    }
  }

  /** A player never has more legal moves than the grid has cells. */
  lemma LegalMovesBound(s: State, p: Player)
    requires WellFormed(s)
    ensures |LegalMoves(s, p)| <= s.rows * s.columns
  {
    var l, f := LegalMoves(s, p), FreeBoxes(s);
    LegalMovesFree(s, p);
    FreeBoxesExact(s);
    NoDupCard(l);
    SetCardLe(f);
    var sl, sf := set m | m in l, set m | m in f;
    assert sl <= sf;
    assert sf == sl + (sf - sl);
  }
}
