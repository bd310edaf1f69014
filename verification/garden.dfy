/** Garden plots: a map of vegetables, one character per plot. A region is a
    4-connected set of plots growing the same vegetable. Fencing a region
    costs its area times its perimeter in the first part and its area times
    its number of sides (counted as corners) in the second. */
module Garden {
  import opened Common
  import Text

  /** The plots still to be fenced, by (row, column). */
  type Plots = map<Pos, char>

  // ---------------------------------------------------------------- parsing

  /** The plots of one line from column `col` on. */
  function LinePlots(line: string, row: int, col: nat): (m: Plots)
    requires col <= |line|
    decreases |line| - col
    ensures forall p :: p in m <==> p.row == row && col <= p.col < |line|
    ensures forall p :: p in m ==> m[p] == line[p.col]
  {
    if col == |line| then map[] else LinePlots(line, row, col + 1)[Pos(row, col) := line[col]]
  }

  function RowsPlots(lines: seq<string>, row: nat): (m: Plots)
    requires row <= |lines|
    decreases |lines| - row
    ensures forall p :: p in m <==> row <= p.row && OnMap(lines, p)
    ensures forall p :: p in m ==> MapCell(lines, p) == Some(m[p])
  {
    if row == |lines| then map[] else RowsPlots(lines, row + 1) + LinePlots(lines[row], row, 0)
  }

  /** `Garden::from`: every character of every line, at its row and column. */
  function FromText(input: string): (m: Plots)
    ensures forall p :: p in m <==> OnMap(Text.Lines(input), p)
    ensures forall p :: p in m ==> MapCell(Text.Lines(input), p) == Some(m[p])
  {
    RowsPlots(Text.Lines(input), 0)
  }

  // ---------------------------------------------------------------- neighbours

  /** The first part's `COMPASS`. */
  const Compass: seq<Pos> := [Pos(0, -1), Pos(1, 0), Pos(-1, 0), Pos(0, 1)]

  /** The second part's `COMPASS`, ordered to go round a plot. */
  const Round: seq<Pos> := [Pos(0, -1), Pos(1, 0), Pos(0, 1), Pos(-1, 0)]

  /** One of the four unit steps. */
  predicate Unit(d: Pos) {
    (d.row == 0 && (d.col == 1 || d.col == -1)) || (d.col == 0 && (d.row == 1 || d.row == -1))
  }

  predicate Adjacent(a: Pos, b: Pos) {
    Unit(Sub(b, a))
  }

  /** The four unit steps, each once. */
  ghost predicate IsCompass(ds: seq<Pos>) {
    |ds| == 4 && (forall i, j :: 0 <= i < j < |ds| ==> ds[i] != ds[j]) && forall d :: d in ds <==> Unit(d)
  }

  lemma CompassesAreCompasses()
    ensures IsCompass(Compass) && IsCompass(Round)
  {
  }

  /** `circular_tuple_windows`: each entry with the next, the last with the first. */
  function Windows(ds: seq<Pos>): (r: seq<(Pos, Pos)>)
    ensures |r| == |ds|
    ensures forall i :: 0 <= i < |ds| ==> r[i].0 == ds[i]
    ensures forall i :: 0 <= i < |ds| - 1 ==> r[i].1 == ds[i + 1]
    ensures |ds| > 0 ==> r[|ds| - 1].1 == ds[0]
  {
    seq(|ds|, i requires 0 <= i < |ds| => (ds[i], if i + 1 < |ds| then ds[i + 1] else ds[0]))
  }

  /** A quarter turn: the next direction when going round clockwise on screen. */
  function Quarter(d: Pos): Pos {
    Pos(-d.col, d.row)
  }

  /** Going round `Round`, each direction is the quarter turn of the one
      before, so no window pairs opposite directions. */
  lemma RoundTurns(w: (Pos, Pos))
    requires w in Windows(Round)
    ensures w.1 == Quarter(w.0)
  {
    var i :| 0 <= i < |Round| && Windows(Round)[i] == w;
  }

  /** The first part's order would pair south with north. */
  lemma CompassOpposes()
    ensures Windows(Compass)[1] == (Pos(1, 0), Pos(-1, 0))
  {
  }

  // ---------------------------------------------------------------- regions

  /** The plots growing `v`. */
  ghost function Same(plots: Plots, v: char): set<Pos> {
    set p | p in plots && plots[p] == v
  }

  /** A walk through `S` by unit steps. */
  ghost predicate Walk(S: set<Pos>, w: seq<Pos>) {
    |w| >= 1 && (forall i :: 0 <= i < |w| ==> w[i] in S) && forall i :: 0 <= i < |w| - 1 ==> Adjacent(w[i], w[i + 1])
  }

  ghost predicate Linked(S: set<Pos>, a: Pos, b: Pos) {
    exists w :: Walk(S, w) && w[0] == a && w[|w| - 1] == b
  }

  /** The 4-connected part of `S` around `a`. */
  ghost function Component(S: set<Pos>, a: Pos): set<Pos> {
    set b | b in S && Linked(S, a, b)
  }

  lemma LinkedSelf(S: set<Pos>, a: Pos)
    requires a in S
    ensures Linked(S, a, a)
  {
    assert Walk(S, [a]);
  }

  lemma LinkedStep(S: set<Pos>, a: Pos, b: Pos, c: Pos)
    requires Linked(S, a, b) && c in S && Adjacent(b, c)
    ensures Linked(S, a, c)
  {
    var w :| Walk(S, w) && w[0] == a && w[|w| - 1] == b;
    assert Walk(S, w + [c]);
  }

  lemma LinkedBack(S: set<Pos>, a: Pos, b: Pos)
    requires Linked(S, a, b)
    ensures Linked(S, b, a)
  {
    var w :| Walk(S, w) && w[0] == a && w[|w| - 1] == b;
    var v := seq(|w|, i requires 0 <= i < |w| => w[|w| - 1 - i]);
    assert Walk(S, v) by {
      forall i | 0 <= i < |v| - 1
        ensures Adjacent(v[i], v[i + 1])
      {
        assert Adjacent(w[|w| - 2 - i], w[|w| - 1 - i]);
      }
    }
  }

  lemma LinkedJoin(S: set<Pos>, a: Pos, b: Pos, c: Pos)
    requires Linked(S, a, b) && Linked(S, b, c)
    ensures Linked(S, a, c)
  {
    var w1 :| Walk(S, w1) && w1[0] == a && w1[|w1| - 1] == b;
    var w2 :| Walk(S, w2) && w2[0] == b && w2[|w2| - 1] == c;
    var w := w1 + w2[1..];
    assert Walk(S, w) by {
      forall i | 0 <= i < |w| - 1
        ensures Adjacent(w[i], w[i + 1])
      {
        if i >= |w1| - 1 {
          assert w[i] == w2[i - |w1| + 1] && w[i + 1] == w2[i - |w1| + 2];
        }
      }
    }
  }

  /** Plots of one region share their region. */
  lemma ComponentsMeet(S: set<Pos>, a: Pos, b: Pos)
    requires b in Component(S, a)
    ensures Component(S, b) == Component(S, a)
  {
    LinkedBack(S, a, b);
    forall x | x in Component(S, b)
      ensures x in Component(S, a)
    {
      LinkedJoin(S, a, b, x);
    }
    forall x | x in Component(S, a)
      ensures x in Component(S, b)
    {
      LinkedJoin(S, b, a, x);
    }
  }

  // ---------------------------------------------------------------- the flood fill

  /** What `get_vegetable` reads: the plot's vegetable, `.` once it is gone. */
  function Vegetable(plots: Plots, p: Pos): char {
    if p in plots then plots[p] else '.'
  }

  /** The neighbours of `c` along `ds` that still grow `veg`. */
  function Matching(plots: Plots, veg: char, c: Pos, ds: seq<Pos>): set<Pos> {
    set d | d in ds && Vegetable(plots, Add(c, d)) == veg :: Add(c, d)
  }

  /** The inner `for` of `find_plots`: each matching neighbour is removed
      from the plots and pushed on the stack. */
  function Visit(plots: Plots, veg: char, c: Pos, ds: seq<Pos>): (r: (Plots, seq<Pos>))
    requires forall i, j :: 0 <= i < j < |ds| ==> ds[i] != ds[j]
    ensures r.0 == plots - Matching(plots, veg, c, ds)
    ensures forall x :: x in r.1 <==> x in Matching(plots, veg, c, ds)
  {
    if ds == [] then (plots, [])
    else
      var nb := Add(c, ds[0]);
      var later := Matching(plots, veg, c, ds[1..]);
      assert Matching(plots - {nb}, veg, c, ds[1..]) == later by {
        forall d | d in ds[1..]
          ensures Add(c, d) != nb
        {
        }
      }
      if Vegetable(plots, nb) == veg then
        var (left, pushed) := Visit(plots - {nb}, veg, c, ds[1..]);
        assert Matching(plots, veg, c, ds) == {nb} + later;
        (left, [nb] + pushed)
      else
        assert Matching(plots, veg, c, ds) == later;
        Visit(plots, veg, c, ds[1..])
  }

  /** The invariant of the flood fill from `start` in `plots`: `removed` is
      what has been taken out of the plots so far. */
  ghost predicate Filling(plots: Plots, veg: char, start: Pos, dirs: seq<Pos>,
                          now: Plots, stack: seq<Pos>, seen: set<Pos>, removed: set<Pos>) {
    var S := Same(plots, veg);
    && start in removed && removed <= S
    && now == plots - removed
    && seen <= removed
    && (forall x :: x in stack ==> x in removed)
    && (forall x :: x in removed ==> x in seen || x in stack)
    && (forall x :: x in removed ==> Linked(S, start, x))
    && (forall c, d :: c in seen && d in dirs && Add(c, d) in S ==> Add(c, d) in removed)
  }

  /** The flood fill of `find_plots`: start from `position`, take it out of
      the plots, and keep popping positions; an unseen one is recorded and its
      neighbours still growing the same vegetable are taken out and pushed.
      The region found is exactly the 4-connected region of the start, and
      exactly that region leaves the plots. A start growing `.` would never
      finish, since every position off the map reads `.`. */
  method Flood(plots: Plots, position: Pos, dirs: seq<Pos>) returns (seen: set<Pos>, rest: Plots)
    requires position in plots && plots[position] != '.'
    requires IsCompass(dirs)
    ensures seen == Component(Same(plots, plots[position]), position)
    ensures rest == plots - seen
  {
    var veg := Vegetable(plots, position);
    ghost var S := Same(plots, veg);
    var now := plots - {position};
    var stack := [position];
    seen := {};
    ghost var removed := {position};
    LinkedSelf(S, position);
    while stack != []
      invariant Filling(plots, veg, position, dirs, now, stack, seen, removed)
      decreases |S - seen|, |stack|
    {
      var c := stack[|stack| - 1];
      var below := stack[..|stack| - 1];
      if c !in seen {
        var (left, pushed) := Visit(now, veg, c, dirs);
        ghost var found := Matching(now, veg, c, dirs);
        FillStep(plots, veg, position, dirs, now, stack, seen, removed, pushed);
        seen := seen + {c};
        removed := removed + found;
        now := left;
        stack := below + pushed;
      } else {
        assert forall x :: x in stack ==> x in below || x == c;
        stack := below;
      }
    }
    FillDone(plots, veg, position, dirs, seen);
    rest := now;
  }

  /** The neighbours a visit takes out are the unremoved plots of `S` one
      step along `dirs`. */
  lemma MatchingIn(plots: Plots, veg: char, now: Plots, removed: set<Pos>, c: Pos, dirs: seq<Pos>)
    requires veg != '.' && IsCompass(dirs) && now == plots - removed
    ensures forall x :: x in Matching(now, veg, c, dirs) ==> x in Same(plots, veg) && x !in removed && Adjacent(c, x)
    ensures forall d :: d in dirs && Add(c, d) in Same(plots, veg) && Add(c, d) !in removed ==> Add(c, d) in Matching(now, veg, c, dirs)
  {
    forall x | x in Matching(now, veg, c, dirs)
      ensures x in Same(plots, veg) && x !in removed && Adjacent(c, x)
    {
      var d :| d in dirs && Vegetable(now, Add(c, d)) == veg && x == Add(c, d);
      assert Sub(x, c) == d;
    }
  }

  /** Visiting a new position keeps the invariant and records a plot of `S`. */
  lemma FillStep(plots: Plots, veg: char, start: Pos, dirs: seq<Pos>,
                 now: Plots, stack: seq<Pos>, seen: set<Pos>, removed: set<Pos>, pushed: seq<Pos>)
    requires veg != '.' && IsCompass(dirs)
    requires Filling(plots, veg, start, dirs, now, stack, seen, removed)
    requires stack != [] && stack[|stack| - 1] !in seen
    requires forall x :: x in pushed <==> x in Matching(now, veg, stack[|stack| - 1], dirs)
    ensures Filling(plots, veg, start, dirs, now - Matching(now, veg, stack[|stack| - 1], dirs),
                    stack[..|stack| - 1] + pushed, seen + {stack[|stack| - 1]},
                    removed + Matching(now, veg, stack[|stack| - 1], dirs))
    ensures |Same(plots, veg) - (seen + {stack[|stack| - 1]})| < |Same(plots, veg) - seen|
  {
    var S := Same(plots, veg);
    var c := stack[|stack| - 1];
    var below := stack[..|stack| - 1];
    var found := Matching(now, veg, c, dirs);
    var removed', seen', stack' := removed + found, seen + {c}, below + pushed;
    MatchingIn(plots, veg, now, removed, c, dirs);
    assert c in removed && c in S;
    assert now - found == plots - removed';
    assert forall x :: x in stack' ==> x in removed' by {
      assert forall x :: x in below ==> x in stack;
    }
    assert forall x :: x in removed' ==> x in seen' || x in stack' by {
      assert forall x :: x in stack ==> x in below || x == c;
    }
    assert forall x :: x in removed' ==> Linked(S, start, x) by {
      forall x | x in found
        ensures Linked(S, start, x)
      {
        LinkedStep(S, start, c, x);
      }
    }
    assert forall c0, d :: c0 in seen' && d in dirs && Add(c0, d) in S ==> Add(c0, d) in removed';
    ProperSubsetCard(S - seen', S - seen);
  }

  /** With the stack empty, the recorded positions are closed under steps
      within `S`, so they are the whole region. */
  lemma FillDone(plots: Plots, veg: char, start: Pos, dirs: seq<Pos>, seen: set<Pos>)
    requires IsCompass(dirs)
    requires exists now, removed :: Filling(plots, veg, start, dirs, now, [], seen, removed)
    ensures seen == Component(Same(plots, veg), start)
  {
    var S := Same(plots, veg);
    var now, removed :| Filling(plots, veg, start, dirs, now, [], seen, removed);
    assert removed == seen;
    forall b | b in Component(S, start)
      ensures b in seen
    {
      var w :| Walk(S, w) && w[0] == start && w[|w| - 1] == b;
      WalkInside(S, dirs, seen, w);
    }
  }

  /** A walk that starts inside a set closed under steps within `S` stays inside. */
  lemma {:induction false} WalkInside(S: set<Pos>, dirs: seq<Pos>, seen: set<Pos>, w: seq<Pos>)
    requires IsCompass(dirs) && Walk(S, w) && w[0] in seen
    requires forall c, d :: c in seen && d in dirs && Add(c, d) in S ==> Add(c, d) in seen
    ensures w[|w| - 1] in seen
    decreases |w|
  {
    if |w| > 1 {
      var v := w[..|w| - 1];
      assert Walk(S, v);
      WalkInside(S, dirs, seen, v);
      var d := Sub(w[|w| - 1], w[|w| - 2]);
      assert d in dirs && Add(w[|w| - 2], d) == w[|w| - 1];
    }
  }

  // ---------------------------------------------------------------- fences and corners

  /** The sides of plot `c` along `ds` that face outside the region. */
  function Exposed(region: set<Pos>, c: Pos, ds: seq<Pos>): (n: nat)
    ensures n <= |ds|
  {
    if ds == [] then 0 else (if Add(c, ds[0]) !in region then 1 else 0) + Exposed(region, c, ds[1..])
  }

  function ExposedIn(region: set<Pos>, ds: seq<Pos>): Pos -> int {
    c => Exposed(region, c, ds)
  }

  /** The first `find_plots`: the region's area and its perimeter, the
      count of (plot, direction) pairs whose neighbour lies outside it. */
  method FindPlots1(plots: Plots, position: Pos) returns (area: nat, perimeter: int, rest: Plots)
    requires position in plots && plots[position] != '.'
    ensures area == |RegionOf(plots, position)|
    ensures perimeter == SumOver(RegionOf(plots, position), ExposedIn(RegionOf(plots, position), Compass))
    ensures 0 <= perimeter <= 4 * area
    ensures rest == plots - RegionOf(plots, position)
    ensures area * perimeter == Fenced(RegionOf(plots, position))
  {
    CompassesAreCompasses();
    var seen;
    seen, rest := Flood(plots, position, Compass);
    area := |seen|;
    perimeter := Tally(seen, ExposedIn(seen, Compass));
    SumOverBound(seen, ExposedIn(seen, Compass), 4);
  }

  /** `is_some_and(|v| v == vegetable)` on the unchanged map. */
  predicate Grows(cached: Plots, p: Pos, veg: char) {
    p in cached && cached[p] == veg
  }

  /** One window of `count_corners`: an interior corner when both sides grow
      the vegetable and the diagonal plot exists and grows another; an
      exterior corner when neither side grows it. */
  function CornerAt(cached: Plots, p: Pos, veg: char, a: Pos, b: Pos): (n: nat)
    ensures n <= 1
  {
    var sideA := Grows(cached, Add(p, a), veg);
    var sideB := Grows(cached, Add(p, b), veg);
    var diagonal := Add(Add(a, b), p);
    if sideA && sideB && diagonal in cached && cached[diagonal] != veg then 1
    else if !sideA && !sideB then 1
    else 0
  }

  function CornersAlong(cached: Plots, p: Pos, veg: char, ws: seq<(Pos, Pos)>): (n: nat)
    ensures n <= |ws|
  {
    if ws == [] then 0 else CornerAt(cached, p, veg, ws[0].0, ws[0].1) + CornersAlong(cached, p, veg, ws[1..])
  }

  /** `count_corners`: between none and four, and four for a plot none of
      whose neighbours grows its vegetable. */
  function Corners(cached: Plots, p: Pos, veg: char): (n: nat)
    ensures n <= 4
  {
    CornersAlong(cached, p, veg, Windows(Round))
  }

  /** A plot none of whose neighbours grows its vegetable has four corners. */
  lemma LoneCorners(cached: Plots, p: Pos, veg: char)
    requires forall d :: d in Round ==> !Grows(cached, Add(p, d), veg)
    ensures Corners(cached, p, veg) == 4
  {
    var ws := Windows(Round);
    forall i | 0 <= i < |ws|
      ensures CornerAt(cached, p, veg, ws[i].0, ws[i].1) == 1
    {
      assert ws[i].0 in Round && ws[i].1 in Round;
    }
    CornersAlongAll(cached, p, veg, ws);
  }

  lemma {:induction false} CornersAlongAll(cached: Plots, p: Pos, veg: char, ws: seq<(Pos, Pos)>)
    requires forall i :: 0 <= i < |ws| ==> CornerAt(cached, p, veg, ws[i].0, ws[i].1) == 1
    ensures CornersAlong(cached, p, veg, ws) == |ws|
  {
    if ws != [] {
      CornersAlongAll(cached, p, veg, ws[1..]);
    }
  }

  function CornersIn(cached: Plots, veg: char): Pos -> int {
    c => Corners(cached, c, veg)
  }

  /** The corners of a plot counted with its own vegetable. */
  function CellCorners(cached: Plots): Pos -> int {
    c => if c in cached then Corners(cached, c, cached[c]) else 0
  }

  /** The second `find_plots`: the same flood fill, then the corners of the
      region's plots read from the unchanged map. */
  method FindPlots2(plots: Plots, cached: Plots, position: Pos) returns (area: nat, sides: int, rest: Plots)
    requires position in plots && plots[position] != '.'
    requires forall p :: p in plots ==> p in cached && cached[p] == plots[p]
    ensures area == |RegionOf(plots, position)|
    ensures sides == SumOver(RegionOf(plots, position), CellCorners(cached))
    ensures 0 <= sides <= 4 * area
    ensures rest == plots - RegionOf(plots, position)
    ensures area * sides == Sided(cached)(RegionOf(plots, position))
  {
    CompassesAreCompasses();
    var veg := Vegetable(plots, position);
    var seen;
    seen, rest := Flood(plots, position, Round);
    area := |seen|;
    sides := Tally(seen, CornersIn(cached, veg));
    SumOverAgree(seen, CornersIn(cached, veg), CellCorners(cached));
    SumOverBound(seen, CornersIn(cached, veg), 4);
  }

  // ---------------------------------------------------------------- the puzzle

  /** The region of plot `p`. */
  ghost function RegionOf(plots: Plots, p: Pos): set<Pos>
    requires p in plots
  {
    Component(Same(plots, plots[p]), p)
  }

  /** Every region of the map. */
  ghost function Regions(plots: Plots): set<set<Pos>> {
    set p | p in plots :: RegionOf(plots, p)
  }

  ghost function Union(found: set<set<Pos>>): set<Pos> {
    set R, p | R in found && p in R :: p
  }

  /** The first part's price of a region: area times perimeter. */
  ghost function Fenced(R: set<Pos>): int {
    |R| * SumOver(R, ExposedIn(R, Compass))
  }

  /** The second part's price of a region: area times number of sides. */
  ghost function Sided(cached: Plots): set<Pos> -> int {
    R => |R| * SumOver(R, CellCorners(cached))
  }

  /** The outer loop of `process`: `found` are the regions fenced so far,
      each a region of the whole map, and the plots left are the rest. */
  ghost predicate Fencing(all: Plots, plots: Plots, found: set<set<Pos>>) {
    found <= Regions(all) && plots == all - Union(found)
  }

  /** A region of the plots left is a region of the whole map: fenced
      regions are whole regions, so no walk from a plot left reaches them. */
  lemma RegionStays(all: Plots, plots: Plots, found: set<set<Pos>>, p: Pos)
    requires Fencing(all, plots, found) && p in plots
    ensures p in all && plots[p] == all[p]
    ensures RegionOf(plots, p) == RegionOf(all, p)
  {
    var v := all[p];
    var S0 := Same(all, v);
    var S := Same(plots, v);
    assert S <= S0;
    forall b | b in RegionOf(plots, p)
      ensures b in RegionOf(all, p)
    {
      var w :| Walk(S, w) && w[0] == p && w[|w| - 1] == b;
      assert Walk(S0, w);
    }
    forall b | b in RegionOf(all, p)
      ensures b in RegionOf(plots, p)
    {
      var w :| Walk(S0, w) && w[0] == p && w[|w| - 1] == b;
      forall i | 0 <= i < |w|
        ensures w[i] in S
      {
        var prefix := w[..i + 1];
        assert Walk(S0, prefix);
        LinkedLeft(all, plots, found, p, w[i]);
      }
      assert Walk(S, w);
    }
  }

  /** A plot linked, within its vegetable, to a plot left is left too. */
  lemma LinkedLeft(all: Plots, plots: Plots, found: set<set<Pos>>, p: Pos, x: Pos)
    requires Fencing(all, plots, found) && p in plots
    requires Linked(Same(all, all[p]), p, x)
    ensures x in plots
  {
    var S0 := Same(all, all[p]);
    assert x in S0 by {
      var w :| Walk(S0, w) && w[0] == p && w[|w| - 1] == x;
    }
    if x in Union(found) {
      var R :| R in found && x in R;
      LinkedBack(S0, p, x);
      RegionClosed(all, R, x, p);
      assert false;
    }
  }

  /** A region of the map holds every plot linked to one of its plots. */
  lemma RegionClosed(all: Plots, R: set<Pos>, x: Pos, y: Pos)
    requires R in Regions(all) && x in R && x in all
    requires Linked(Same(all, all[x]), x, y)
    ensures y in R
  {
    var q :| q in all && R == RegionOf(all, q);
    assert all[q] == all[x];
    LinkedJoin(Same(all, all[q]), q, x, y);
  }

  /** Fencing one more region keeps the loop's invariant. */
  lemma FenceOne(all: Plots, plots: Plots, found: set<set<Pos>>, p: Pos)
    requires Fencing(all, plots, found) && p in plots
    ensures p in all && plots[p] == all[p] && RegionOf(plots, p) == RegionOf(all, p)
    ensures RegionOf(all, p) !in found
    ensures Fencing(all, plots - RegionOf(all, p), found + {RegionOf(all, p)})
    ensures |plots - RegionOf(all, p)| < |plots|
  {
    var R := RegionOf(all, p);
    RegionStays(all, plots, found, p);
    LinkedSelf(Same(all, all[p]), p);
    assert p in R;
    assert Union(found + {R}) == Union(found) + R;
    assert plots - R == all - Union(found + {R});
    assert (plots - R).Keys < plots.Keys;
    ProperSubsetCard((plots - R).Keys, plots.Keys);
  }

  /** With no plots left, every region of the map has been fenced. */
  lemma FencedAll(all: Plots, found: set<set<Pos>>)
    requires Fencing(all, map[], found)
    ensures found == Regions(all)
  {
    forall R | R in Regions(all)
      ensures R in found
    {
      var p :| p in all && R == RegionOf(all, p);
      assert p !in all - Union(found);
      assert p in Union(found);
      var F :| F in found && p in F;
      var q :| q in all && F == RegionOf(all, q);
      ComponentsMeet(Same(all, all[q]), q, p);
    }
  }

  /** Every plot of a puzzle map grows something other than `.`. */
  ghost predicate Planted(plots: Plots) {
    forall p :: p in plots ==> plots[p] != '.'
  }

  /** One region of the first `process`: its area times its perimeter. */
  method Fence1(plots: Plots, position: Pos) returns (cost: int, rest: Plots)
    requires position in plots && plots[position] != '.'
    ensures cost == Fenced(RegionOf(plots, position))
    ensures rest == plots - RegionOf(plots, position)
  {
    var area, perimeter;
    area, perimeter, rest := FindPlots1(plots, position);
    cost := area * perimeter;
  }

  /** One region of the second `process`: its area times its sides. */
  method Fence2(plots: Plots, cached: Plots, position: Pos) returns (cost: int, rest: Plots)
    requires position in plots && plots[position] != '.'
    requires forall p :: p in plots ==> p in cached && cached[p] == plots[p]
    ensures cost == Sided(cached)(RegionOf(plots, position))
    ensures rest == plots - RegionOf(plots, position)
  {
    var area, sides;
    area, sides, rest := FindPlots2(plots, cached, position);
    cost := area * sides;
  }

  /** Fencing the region of a plot left adds its price. */
  lemma PriceNext(all: Plots, plots: Plots, found: set<set<Pos>>, price: set<Pos> -> int,
                  p: Pos, cost: int, rest: Plots)
    requires Fencing(all, plots, found) && p in plots
    requires cost == price(RegionOf(plots, p)) && rest == plots - RegionOf(plots, p)
    ensures Fencing(all, rest, found + {RegionOf(all, p)})
    ensures SumOver(found + {RegionOf(all, p)}, price) == SumOver(found, price) + cost
    ensures |rest| < |plots|
  {
    FenceOne(all, plots, found, p);
    SumOverAdd(found, price, RegionOf(all, p));
  }

  /** The start of `process`: nothing fenced, every plot left. */
  lemma FenceNone(all: Plots)
    ensures Fencing(all, all, {})
  {
    assert Union({}) == {};
    assert all - {} == all;
  }

  /** The loop of the first `process`, from the plots left on: fence the
      region of some plot left, in whatever order the map yields its keys,
      until no plot is left. What it adds up is the price of every region
      not fenced yet. */
  method FenceRest1(all: Plots, plots: Plots, ghost found: set<set<Pos>>) returns (total: int)
    requires Planted(all) && Fencing(all, plots, found)
    ensures SumOver(found, Fenced) + total == SumOver(Regions(all), Fenced)
    decreases |plots|
  {
    if plots == map[] {
      FencedAll(all, found);
      total := 0;
    } else {
      var position :| position in plots;
      var cost, rest := Fence1(plots, position);
      PriceNext(all, plots, found, Fenced, position, cost, rest);
      var more := FenceRest1(all, rest, found + {RegionOf(all, position)});
      total := cost + more;
    }
  }

  /** The loop of the second `process`, pricing regions by their sides read
      from the unchanged map. */
  method FenceRest2(all: Plots, plots: Plots, ghost found: set<set<Pos>>) returns (total: int)
    requires Planted(all) && Fencing(all, plots, found)
    ensures SumOver(found, Sided(all)) + total == SumOver(Regions(all), Sided(all))
    decreases |plots|
  {
    if plots == map[] {
      FencedAll(all, found);
      total := 0;
    } else {
      var position :| position in plots;
      var cost, rest := Fence2(plots, all, position);
      PriceNext(all, plots, found, Sided(all), position, cost, rest);
      var more := FenceRest2(all, rest, found + {RegionOf(all, position)});
      total := cost + more;
    }
  }

  /** The first `process`: the price of every region of the map. */
  method Process1(all: Plots) returns (total: int)
    requires Planted(all)
    ensures total == SumOver(Regions(all), Fenced)
  {
    FenceNone(all);
    total := FenceRest1(all, all, {});
  }

  /** The second `process`: the price of every region of the map. */
  method Process2(all: Plots) returns (total: int)
    requires Planted(all)
    ensures total == SumOver(Regions(all), Sided(all))
  {
    FenceNone(all);
    total := FenceRest2(all, all, {});
  }

  /** The first part: the price of fencing every region by its perimeter. */
  method Part1(input: string) returns (total: int)
    requires Planted(FromText(input))
    ensures total == SumOver(Regions(FromText(input)), Fenced)
  {
    total := Process1(FromText(input));
  }

  /** The second part: the price of fencing every region by its sides. */
  method Part2(input: string) returns (total: int)
    requires Planted(FromText(input))
    ensures total == SumOver(Regions(FromText(input)), Sided(FromText(input)))
  {
    total := Process2(FromText(input));
  }
}
