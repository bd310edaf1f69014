/** The push rule shared by both warehouse variants.

    A floor plan is a sparse map from coordinates to items; a coordinate that is
    not a key is floor. Pushing at `pos` along `d` moves the contiguous run of
    pushable items that starts at `pos` one cell further, provided the cell just
    past the run is floor; a wall anywhere at the end of the run blocks it.

    `ShiftCells` is the reference meaning of every successful push: a set of
    occupied cells is translated by one step and everything else stays put. */
module Push {
  import opened Common

  /** The coordinate that grows by one on every step along `d`. */
  function Proj(d: Dir, q: Pos): int {
    match d
    case Right => q.col
    case Left => -q.col
    case Down => q.row
    case Up => -q.row
  }

  /** The coordinate that a step along `d` leaves unchanged. */
  function Lane(d: Dir, q: Pos): int {
    if IsVertical(d) then q.col else q.row
  }

  lemma StepCoordinates(q: Pos, d: Dir)
    ensures Proj(d, Step(q, d)) == Proj(d, q) + 1
    ensures Lane(d, Step(q, d)) == Lane(d, q)
  {
  }

  /** Lane and projection together pin down a coordinate. */
  lemma CoordinatesDetermine(d: Dir, p: Pos, q: Pos)
    requires Lane(d, p) == Lane(d, q) && Proj(d, p) == Proj(d, q)
    ensures p == q
  {
  }

  function Translate(s: set<Pos>, v: Pos): set<Pos> {
    set p | p in s :: Add(p, v)
  }

  lemma TranslateMember(s: set<Pos>, v: Pos, q: Pos)
    ensures q in Translate(s, v) <==> Sub(q, v) in s
  {
    if Sub(q, v) in s {
      assert Add(Sub(q, v), v) == q;
    }
  }

  /** Items of kind `k` in a floor plan. */
  function ItemsOf<T(==)>(g: map<Pos, T>, k: T): set<Pos> {
    set q | q in g && g[q] == k
  }

  /** Move the items on the cells `C` by `v`; every other key keeps its item. */
  function ShiftCells<T>(g: map<Pos, T>, C: set<Pos>, v: Pos): (r: map<Pos, T>)
    requires C <= g.Keys
    ensures r.Keys == (g.Keys - C) + Translate(C, v)
  {
    map q | q in (g.Keys - C) + Translate(C, v) ::
      if Sub(q, v) in C then g[Sub(q, v)] else g[q]
  }

  /** Shifting the cells of `C` plus one more cell `x` is shifting `C` and then
      moving the item on `x` into the free cell `x + v`. */
  lemma ShiftCellsAddCell<T>(g: map<Pos, T>, C: set<Pos>, v: Pos, x: Pos)
    requires C <= g.Keys && x in g && x !in C
    requires v != Pos(0, 0)
    requires Sub(x, v) !in C
    requires Add(x, v) !in ShiftCells(g, C, v)
    ensures ShiftCells(g, C + {x}, v) == (ShiftCells(g, C, v) - {x})[Add(x, v) := g[x]]
  {
    var h := ShiftCells(g, C, v);
    var lhs := ShiftCells(g, C + {x}, v);
    var rhs := (h - {x})[Add(x, v) := g[x]];
    forall q
      ensures q in lhs <==> q in rhs
      ensures q in lhs ==> lhs[q] == rhs[q]
    {
      TranslateMember(C, v, q);
      TranslateMember(C + {x}, v, q);
      if q == Add(x, v) {
        assert Sub(q, v) == x;
      } else if q == x {
        assert Sub(q, v) != x;
      } else {
        assert Sub(q, v) == x <==> q == Add(x, v);
      }
    }
  }

  lemma ShiftCellsEmpty<T>(g: map<Pos, T>, v: Pos)
    ensures ShiftCells(g, {}, v) == g
  {
    assert Translate({}, v) == {};
  }

  /** After a shift, the items of kind `k` are the unshifted ones plus the shifted ones, moved. */
  lemma ShiftCellsItems<T>(g: map<Pos, T>, C: set<Pos>, v: Pos, k: T)
    requires C <= g.Keys
    requires forall q :: q in Translate(C, v) ==> q in C || q !in g
    ensures ItemsOf(ShiftCells(g, C, v), k) == (ItemsOf(g, k) - C) + Translate(ItemsOf(g, k) * C, v)
  {
    var K := ItemsOf(g, k);
    var h := ShiftCells(g, C, v);
    forall q
      ensures q in ItemsOf(h, k) <==> q in (K - C) + Translate(K * C, v)
    {
      TranslateMember(C, v, q);
      TranslateMember(K * C, v, q);
      if Sub(q, v) in C {
        assert q in h && h[q] == g[Sub(q, v)];
      } else if q in h {
        assert h[q] == g[q];
      }
    }
  }

  /** Translating a set by `v` adds `c` per element to a sum over it, when
      `f` grows by `c` along `v`. */
  lemma {:induction false} TranslateSum(s: set<Pos>, v: Pos, f: Pos -> int, c: int)
    requires forall p :: f(Add(p, v)) == f(p) + c
    ensures SumOver(Translate(s, v), f) == SumOver(s, f) + |s| * c
    decreases s
  {
    if s != {} {
      var x :| x in s;
      var rest := s - {x};
      TranslateSum(rest, v, f, c);
      TranslateRemove(s, v, x);
      SumOverRemove(Translate(s, v), f, Add(x, v));
      SumOverRemove(s, f, x);
      assert |s| == |rest| + 1;
      MulSucc(|rest|, c);
    }
  }

  lemma MulSucc(n: int, c: int)
    ensures (n + 1) * c == n * c + c
  {
  }

  /** Taking an element out of a set takes its image out of the translate. */
  lemma TranslateRemove(s: set<Pos>, v: Pos, x: Pos)
    requires x in s
    ensures Add(x, v) in Translate(s, v)
    ensures Translate(s, v) - {Add(x, v)} == Translate(s - {x}, v)
  {
    forall q ensures q in Translate(s, v) - {Add(x, v)} <==> q in Translate(s - {x}, v) {
      TranslateMember(s, v, q);
      TranslateMember(s - {x}, v, q);
      assert q == Add(x, v) <==> Sub(q, v) == x;
    }
  }

  /** A shift changes the sum of `f` over the items of kind `k` by `c` for each
      such item that moves, when `f` grows by `c` along `v`. */
  lemma ShiftCellsSum<T>(g: map<Pos, T>, C: set<Pos>, v: Pos, k: T, f: Pos -> int, c: int)
    requires C <= g.Keys
    requires forall q :: q in Translate(C, v) ==> q in C || q !in g
    requires forall p :: f(Add(p, v)) == f(p) + c
    ensures SumOver(ItemsOf(ShiftCells(g, C, v), k), f)
            == SumOver(ItemsOf(g, k), f) + |ItemsOf(g, k) * C| * c
  {
    var K := ItemsOf(g, k);
    var moved := K * C;
    ShiftedParts(g, C, v, k);
    SumOverUnion(K - C, Translate(moved, v), f);
    SumOverUnion(K - C, moved, f);
    TranslateSum(moved, v, f, c);
  }

  /** A shift never creates or destroys items: as long as the cells moved into
      are either part of the shifted set or floor, each kind keeps its count. */
  lemma ShiftCellsKeepsCount<T>(g: map<Pos, T>, C: set<Pos>, v: Pos, k: T)
    requires C <= g.Keys
    requires forall q :: q in Translate(C, v) ==> q in C || q !in g
    ensures |ItemsOf(ShiftCells(g, C, v), k)| == |ItemsOf(g, k)|
  {
    var K := ItemsOf(g, k);
    var moved := K * C;
    ShiftedParts(g, C, v, k);
    TranslateCard(moved, v);
  }

  /** The items of kind `k` after a shift into free or vacated cells are the
      unmoved ones and, disjoint from them, the moved ones at their new
      places. */
  lemma ShiftedParts<T>(g: map<Pos, T>, C: set<Pos>, v: Pos, k: T)
    requires C <= g.Keys
    requires forall q :: q in Translate(C, v) ==> q in C || q !in g
    ensures var K := ItemsOf(g, k);
      ItemsOf(ShiftCells(g, C, v), k) == (K - C) + Translate(K * C, v)
      && (K - C) * Translate(K * C, v) == {}
      && K == (K - C) + K * C && (K - C) * (K * C) == {}
  {
    var K := ItemsOf(g, k);
    var moved := K * C;
    ShiftCellsItems(g, C, v, k);
    forall q | q in Translate(moved, v)
      ensures q !in K - C
    {
      TranslateMember(moved, v, q);
      TranslateMember(C, v, q);
    }
  }

  /** Keys of `g` on the half line that starts at `pos` and runs along `d`. */
  ghost function KeysAhead<T>(g: map<Pos, T>, pos: Pos, d: Dir): set<Pos> {
    set q | q in g && Lane(d, q) == Lane(d, pos) && Proj(d, q) >= Proj(d, pos)
  }

  lemma KeysAheadShrinks<T>(g: map<Pos, T>, pos: Pos, d: Dir)
    requires pos in g
    ensures |KeysAhead(g, Step(pos, d), d)| < |KeysAhead(g, pos, d)|
  {
    StepCoordinates(pos, d);
    assert pos in KeysAhead(g, pos, d) && pos !in KeysAhead(g, Step(pos, d), d);
    ProperSubsetCard(KeysAhead(g, Step(pos, d), d), KeysAhead(g, pos, d));
  }

  /** The cell `i` steps from `pos` along `d`. */
  function Along(pos: Pos, d: Dir, i: int): (q: Pos)
    ensures Lane(d, q) == Lane(d, pos) && Proj(d, q) == Proj(d, pos) + i
  {
    match d
    case Right => Pos(pos.row, pos.col + i)
    case Left => Pos(pos.row, pos.col - i)
    case Down => Pos(pos.row + i, pos.col)
    case Up => Pos(pos.row - i, pos.col)
  }

  /** Length of the contiguous run of pushable (non-wall) items starting at `pos`. */
  function RunLength<T(==)>(g: map<Pos, T>, pos: Pos, d: Dir, wall: T): (k: nat)
    decreases |KeysAhead(g, pos, d)|
    ensures forall i :: 0 <= i < k ==> Along(pos, d, i) in g && g[Along(pos, d, i)] != wall
    ensures Along(pos, d, k) !in g || g[Along(pos, d, k)] == wall
  {
    if pos in g && g[pos] != wall then
      KeysAheadShrinks(g, pos, d);
      var rest := RunLength(g, Step(pos, d), d, wall);
      RunExtends(g, pos, d, wall, rest);
      rest + 1
    else
      assert Along(pos, d, 0) == pos;
      0
  }

  /** A run behind a non-wall cell grows by that cell. */
  lemma RunExtends<T>(g: map<Pos, T>, pos: Pos, d: Dir, wall: T, rest: nat)
    requires pos in g && g[pos] != wall
    requires forall i :: 0 <= i < rest ==> Along(Step(pos, d), d, i) in g && g[Along(Step(pos, d), d, i)] != wall
    requires Along(Step(pos, d), d, rest) !in g || g[Along(Step(pos, d), d, rest)] == wall
    ensures forall i :: 0 <= i < rest + 1 ==> Along(pos, d, i) in g && g[Along(pos, d, i)] != wall
    ensures Along(pos, d, rest + 1) !in g || g[Along(pos, d, rest + 1)] == wall
  {
    var next := Step(pos, d);
    forall i | 0 <= i < rest + 1
      ensures Along(pos, d, i) in g && g[Along(pos, d, i)] != wall
    {
      if i == 0 {
        assert Along(pos, d, 0) == pos;
      } else {
        assert Along(pos, d, i) == Along(next, d, i - 1);
      }
    }
    assert Along(pos, d, rest + 1) == Along(next, d, rest);
  }

  /** The cells of that run. */
  function Run<T(==)>(g: map<Pos, T>, pos: Pos, d: Dir, wall: T): set<Pos> {
    var k := RunLength(g, pos, d, wall);
    set q | q in g && Lane(d, q) == Lane(d, pos) && Proj(d, pos) <= Proj(d, q) < Proj(d, pos) + k
  }

  /** Every cell of the run is one of the run's steps, so it holds no wall. */
  lemma RunCell<T>(g: map<Pos, T>, pos: Pos, d: Dir, wall: T, q: Pos)
    requires q in Run(g, pos, d, wall)
    ensures q == Along(pos, d, Proj(d, q) - Proj(d, pos)) && g[q] != wall
  {
    CoordinatesDetermine(d, q, Along(pos, d, Proj(d, q) - Proj(d, pos)));
  }

  lemma RunUnfold<T>(g: map<Pos, T>, pos: Pos, d: Dir, wall: T)
    requires pos in g && g[pos] != wall
    ensures Run(g, pos, d, wall) == {pos} + Run(g, Step(pos, d), d, wall)
    ensures pos !in Run(g, Step(pos, d), d, wall)
  {
    StepCoordinates(pos, d);
    forall q | q in Run(g, pos, d, wall) && q != pos
      ensures q in Run(g, Step(pos, d), d, wall)
    {
      if Proj(d, q) == Proj(d, pos) {
        CoordinatesDetermine(d, q, pos);
      }
    }
  }

  /** One level of the recursive push, as in `try_move`: probe the next cell first
      and touch the floor plan only once that deeper push has succeeded. A
      failed push hands back the floor plan it was given. */
  function ChainPush<T(==)>(g: map<Pos, T>, pos: Pos, d: Dir, wall: T): (r: (bool, map<Pos, T>))
    decreases |KeysAhead(g, pos, d)|
    ensures !r.0 ==> r.1 == g
    ensures r.0 <==> Along(pos, d, RunLength(g, pos, d, wall)) !in g
    ensures r.0 ==> pos !in r.1
  {
    if pos !in g then
      assert Along(pos, d, 0) == pos;
      (true, g)
    else if g[pos] == wall then
      (false, g)
    else
      KeysAheadShrinks(g, pos, d);
      var next := Step(pos, d);
      var (ok, pushed) := ChainPush(g, next, d, wall);
      assert Along(pos, d, RunLength(g, pos, d, wall)) == Along(next, d, RunLength(g, next, d, wall));
      if ok then (true, (pushed - {pos})[next := g[pos]]) else (false, pushed)
  }

  /** A successful push shifts exactly the run by one step. */
  lemma {:induction false} ChainPushShifts<T>(g: map<Pos, T>, pos: Pos, d: Dir, wall: T)
    requires ChainPush(g, pos, d, wall).0
    ensures Run(g, pos, d, wall) <= g.Keys
    ensures ChainPush(g, pos, d, wall).1 == ShiftCells(g, Run(g, pos, d, wall), Offset(d))
    decreases |KeysAhead(g, pos, d)|
  {
    var v := Offset(d);
    if pos !in g {
      assert Run(g, pos, d, wall) == {};
      ShiftCellsEmpty(g, v);
    } else {
      KeysAheadShrinks(g, pos, d);
      var next := Step(pos, d);
      ChainPushShifts(g, next, d, wall);
      RunUnfold(g, pos, d, wall);
      var R := Run(g, next, d, wall);
      StepCoordinates(pos, d);
      assert Sub(pos, v) !in R by {
        StepCoordinates(Sub(pos, v), d);
        assert Step(Sub(pos, v), d) == pos;
      }
      assert next == Add(pos, v);
      ShiftCellsAddCell(g, R, v, pos);
      assert {pos} + R == R + {pos};
    }
  }

  /** The run and the cell just past it: a push touches nothing else. */
  lemma ChainPushFrame<T>(g: map<Pos, T>, pos: Pos, d: Dir, wall: T, q: Pos)
    requires ChainPush(g, pos, d, wall).0
    requires Lane(d, q) != Lane(d, pos) || Proj(d, q) < Proj(d, pos)
             || Proj(d, q) > Proj(d, pos) + RunLength(g, pos, d, wall)
    ensures q in ChainPush(g, pos, d, wall).1 <==> q in g
    ensures q in g ==> ChainPush(g, pos, d, wall).1[q] == g[q]
  {
    ChainPushShifts(g, pos, d, wall);
    var v := Offset(d);
    TranslateMember(Run(g, pos, d, wall), v, q);
    StepCoordinates(Sub(q, v), d);
    assert Step(Sub(q, v), d) == q;
  }

  /** The cells a successful push moves into are cells of the run or the
      floor cell just past it. */
  lemma ChainPushTargets<T>(g: map<Pos, T>, pos: Pos, d: Dir, wall: T)
    requires ChainPush(g, pos, d, wall).0
    ensures Run(g, pos, d, wall) <= g.Keys
    ensures ChainPush(g, pos, d, wall).1 == ShiftCells(g, Run(g, pos, d, wall), Offset(d))
    ensures forall q :: q in Translate(Run(g, pos, d, wall), Offset(d)) ==> q in Run(g, pos, d, wall) || q !in g
  {
    ChainPushShifts(g, pos, d, wall);
    var C := Run(g, pos, d, wall);
    var v := Offset(d);
    var n := RunLength(g, pos, d, wall);
    forall q | q in Translate(C, v)
      ensures q in C || q !in g
    {
      TranslateMember(C, v, q);
      StepCoordinates(Sub(q, v), d);
      assert Step(Sub(q, v), d) == q;
      if Proj(d, q) == Proj(d, pos) + n {
        CoordinatesDetermine(d, q, Along(pos, d, n));
      }
    }
  }

  /** Pushing never changes how many items of any kind the floor plan holds. */
  lemma ChainPushKeepsCount<T>(g: map<Pos, T>, pos: Pos, d: Dir, wall: T, k: T)
    ensures |ItemsOf(ChainPush(g, pos, d, wall).1, k)| == |ItemsOf(g, k)|
  {
    if ChainPush(g, pos, d, wall).0 {
      ChainPushTargets(g, pos, d, wall);
      ShiftCellsKeepsCount(g, Run(g, pos, d, wall), Offset(d), k);
    }
  }

  /** Pushing never moves, adds or removes a wall. */
  lemma ChainPushKeepsWalls<T>(g: map<Pos, T>, pos: Pos, d: Dir, wall: T)
    ensures ItemsOf(ChainPush(g, pos, d, wall).1, wall) == ItemsOf(g, wall)
  {
    if ChainPush(g, pos, d, wall).0 {
      ChainPushTargets(g, pos, d, wall);
      var C := Run(g, pos, d, wall);
      ShiftCellsItems(g, C, Offset(d), wall);
      forall q | q in C
        ensures g[q] != wall
      {
        RunCell(g, pos, d, wall, q);
      }
      assert ItemsOf(g, wall) * C == {};
    }
  }
}
