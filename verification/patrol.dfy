/** The patrolling guard: on a map of `#` obstacles the guard walks ahead,
    turns a quarter clockwise when the cell ahead is blocked, and stops on
    leaving the map. The second part places one more obstacle `O` on a cell
    of the guard's path and asks whether the guard is then caught in a loop. */
module Patrol {
  import opened Common
  import Text

  /** The map as read: one string per line. */
  type Grid = CharMap

  datatype Guard = Guard(pos: Pos, dir: Dir)

  /** The map and the guard's starting state, kept apart so that every loop
      test can start over from it. */
  datatype Labyrinth = Labyrinth(grid: Grid, origin: Guard)

  /** `set`: write `v` at `p`; off the map nothing changes. */
  function Set(grid: Grid, p: Pos, v: char): (r: Grid)
    ensures |r| == |grid| && forall i :: 0 <= i < |grid| ==> |r[i]| == |grid[i]|
    ensures forall q :: MapCell(r, q) == if q == p && OnMap(grid, p) then Some(v) else MapCell(grid, q)
  {
    if OnMap(grid, p) then grid[p.row := grid[p.row][p.col := v]] else grid
  }

  /** Of two writes to the same cell only the second remains. */
  lemma SetTwice(grid: Grid, p: Pos, a: char, b: char)
    ensures Set(Set(grid, p, a), p, b) == Set(grid, p, b)
  {
    if OnMap(grid, p) {
      var once := Set(grid, p, a);
      assert once[p.row][p.col := b] == grid[p.row][p.col := b];
    }
  }

  // ---------------------------------------------------------------- parsing

  /** `q` comes before `p` in row-major order. */
  predicate Earlier(q: Pos, p: Pos) {
    q.row < p.row || (q.row == p.row && q.col < p.col)
  }

  /** `position`: the first column holding `c`. */
  function Position(line: string, c: char): (r: Option<nat>)
    ensures r.Some? ==> r.value < |line| && line[r.value] == c
    ensures r.Some? ==> forall j :: 0 <= j < r.value ==> line[j] != c
    ensures r.None? ==> forall j :: 0 <= j < |line| ==> line[j] != c
  {
    if line == [] then None
    else if line[0] == c then Some(0)
    else match Position(line[1..], c)
      case None => None
      case Some(j) => Some(j + 1)
  }

  /** The `find_map` over the rows from `row` on. */
  function FindGuard(grid: Grid, row: nat): (r: Option<Pos>)
    requires row <= |grid|
    decreases |grid| - row
    ensures r.Some? ==> row <= r.value.row && MapCell(grid, r.value) == Some('^')
    ensures r.Some? ==> forall q: Pos :: row <= q.row && Earlier(q, r.value) ==> MapCell(grid, q) != Some('^')
    ensures r.None? ==> forall q: Pos :: row <= q.row ==> MapCell(grid, q) != Some('^')
  {
    if row == |grid| then None
    else match Position(grid[row], '^')
      case Some(col) => Some(Pos(row, col))
      case None => FindGuard(grid, row + 1)
  }

  /** The guard's home: the first `^` in reading order, or (0, 0) when the
      map has none (`unwrap_or_default`). */
  function Home(grid: Grid): (p: Pos)
    ensures (MapCell(grid, p) == Some('^') && forall q :: Earlier(q, p) ==> MapCell(grid, q) != Some('^'))
            || (p == Pos(0, 0) && forall q :: MapCell(grid, q) != Some('^'))
  {
    match FindGuard(grid, 0)
    case Some(p) => p
    case None => Pos(0, 0)
  }

  /** `Labyrinth::from`: the lines of the input, the guard at home facing up. */
  function FromText(input: string): (lab: Labyrinth)
    ensures lab.grid == Text.Lines(input) && lab.origin.dir == Up
  {
    var grid := Text.Lines(input);
    Labyrinth(grid, Guard(Home(grid), Up))
  }

  // ---------------------------------------------------------------- moving

  /** What stops the guard: `#`, and in the loop test also the placed `O`. */
  predicate Blocking(c: char, obstacles: bool) {
    c == '#' || (obstacles && c == 'O')
  }

  /** One round of the walk: off the map ahead ends the walk (`None`); a
      blocking cell ahead turns the guard in place; otherwise it steps. */
  function Move(grid: Grid, g: Guard, obstacles: bool): (r: Option<Guard>)
    ensures r.None? <==> !OnMap(grid, Step(g.pos, g.dir))
    ensures r.Some? ==> r.value.pos == g.pos
                        || (OnMap(grid, r.value.pos) && !Blocking(MapCell(grid, r.value.pos).value, obstacles))
  {
    var next := Step(g.pos, g.dir);
    match MapCell(grid, next)
    case None => None
    case Some(c) => if Blocking(c, obstacles) then Some(Guard(g.pos, Turn(g.dir))) else Some(Guard(next, g.dir))
  }

  /** The guard after `k` rounds, or `None` once it has left the map. */
  function Trace(grid: Grid, g: Guard, k: nat, obstacles: bool): Option<Guard>
    decreases k
  {
    if k == 0 then Some(g)
    else match Move(grid, g, obstacles)
      case None => None
      case Some(h) => Trace(grid, h, k - 1, obstacles)
  }

  /** `k + j` rounds are `k` rounds and then `j` more. */
  lemma {:induction false} TraceShift(grid: Grid, g: Guard, k: nat, j: nat, obstacles: bool)
    ensures Trace(grid, g, k + j, obstacles)
            == match Trace(grid, g, k, obstacles)
               case None => None
               case Some(h) => Trace(grid, h, j, obstacles)
    decreases k
  {
    if k > 0 {
      match Move(grid, g, obstacles)
      case None =>
      case Some(h) =>
        TraceShift(grid, h, k - 1, j, obstacles);
    }
  }

  /** The next state of the trace is one move from the current one. */
  lemma TraceNext(grid: Grid, g: Guard, k: nat, obstacles: bool)
    ensures Trace(grid, g, k + 1, obstacles)
            == match Trace(grid, g, k, obstacles)
               case None => None
               case Some(h) => Move(grid, h, obstacles)
  {
    TraceShift(grid, g, k, 1, obstacles);
    match Trace(grid, g, k, obstacles)
    case None =>
    case Some(h) =>
      match Move(grid, h, obstacles)
      case None =>
      case Some(h') =>
        assert Trace(grid, h', 0, obstacles) == Some(h');
  }

  /** A guard still on the map after `j` rounds was on it at every earlier round. */
  lemma TraceEarlier(grid: Grid, g: Guard, k: nat, j: nat, obstacles: bool)
    requires k <= j && Trace(grid, g, j, obstacles).Some?
    ensures Trace(grid, g, k, obstacles).Some?
  {
    TraceShift(grid, g, k, j - k, obstacles);
  }

  /** The guard is always on the map or at its starting cell. */
  lemma {:induction false} TraceStays(grid: Grid, g: Guard, k: nat, obstacles: bool)
    requires Trace(grid, g, k, obstacles).Some?
    ensures OnMap(grid, Trace(grid, g, k, obstacles).value.pos) || Trace(grid, g, k, obstacles).value.pos == g.pos
  {
    if k > 0 {
      TraceNext(grid, g, k - 1, obstacles);
      TraceStays(grid, g, k - 1, obstacles);
    }
  }

  // ---------------------------------------------------------------- part one

  /** `walk`, given at most `fuel` rounds: the set of visited positions once
      the guard leaves the map, or `None` if it has not left by then. The
      source has no loop guard and runs for ever on a map that traps the guard. */
  function Walk(grid: Grid, g: Guard, fuel: nat): (r: Option<set<Pos>>)
    decreases fuel
    ensures r.Some? ==> g.pos in r.value
    ensures r.Some? ==> forall p :: p in r.value ==> p == g.pos || (OnMap(grid, p) && MapCell(grid, p) != Some('#'))
  {
    if fuel == 0 then None
    else match Move(grid, g, false)
      case None => Some({g.pos})
      case Some(h) =>
        match Walk(grid, h, fuel - 1)
        case None => None
        case Some(path) => Some({g.pos} + path)
  }

  /** The walk finishes within its fuel exactly when the guard has left the
      map after that many rounds. */
  lemma {:induction false} WalkLeaves(grid: Grid, g: Guard, fuel: nat)
    ensures Walk(grid, g, fuel).Some? <==> Trace(grid, g, fuel, false).None?
    decreases fuel
  {
    if fuel > 0 {
      match Move(grid, g, false)
      case None =>
      case Some(h) =>
        WalkLeaves(grid, h, fuel - 1);
    }
  }

  /** The visited set is exactly the positions the guard takes on the map. */
  lemma WalkVisits(grid: Grid, g: Guard, fuel: nat, p: Pos)
    requires Walk(grid, g, fuel).Some?
    ensures p in Walk(grid, g, fuel).value <==>
      exists i :: 0 <= i < fuel && Trace(grid, g, i, false).Some? && Trace(grid, g, i, false).value.pos == p
  {
    if p in Walk(grid, g, fuel).value {
      var i := VisitedWhen(grid, g, fuel, p);
    }
    if exists i :: 0 <= i < fuel && Trace(grid, g, i, false).Some? && Trace(grid, g, i, false).value.pos == p {
      var i :| 0 <= i < fuel && Trace(grid, g, i, false).Some? && Trace(grid, g, i, false).value.pos == p;
      VisitedAt(grid, g, fuel, i);
    }
  }

  /** Each visited position is where the guard stands after some round. */
  lemma {:induction false} VisitedWhen(grid: Grid, g: Guard, fuel: nat, p: Pos) returns (i: nat)
    requires Walk(grid, g, fuel).Some? && p in Walk(grid, g, fuel).value
    ensures i < fuel && Trace(grid, g, i, false).Some? && Trace(grid, g, i, false).value.pos == p
    decreases fuel
  {
    if p == g.pos {
      i := 0;
    } else {
      var h := Move(grid, g, false).value;
      assert Walk(grid, g, fuel).value == {g.pos} + Walk(grid, h, fuel - 1).value;
      var j := VisitedWhen(grid, h, fuel - 1, p);
      i := j + 1;
      assert Trace(grid, g, i, false) == Trace(grid, h, j, false);
    }
  }

  /** Each position the guard takes before leaving is in the visited set. */
  lemma {:induction false} VisitedAt(grid: Grid, g: Guard, fuel: nat, i: nat)
    requires Walk(grid, g, fuel).Some? && i < fuel && Trace(grid, g, i, false).Some?
    ensures Trace(grid, g, i, false).value.pos in Walk(grid, g, fuel).value
    decreases i
  {
    if i > 0 {
      var h := Move(grid, g, false).value;
      assert Walk(grid, g, fuel).value == {g.pos} + Walk(grid, h, fuel - 1).value;
      assert Trace(grid, g, i, false) == Trace(grid, h, i - 1, false);
      VisitedAt(grid, h, fuel - 1, i - 1);
    }
  }

  /** More fuel does not change a walk that has finished. */
  lemma {:induction false} WalkMoreFuel(grid: Grid, g: Guard, fuel: nat)
    requires Walk(grid, g, fuel).Some?
    ensures Walk(grid, g, fuel + 1) == Walk(grid, g, fuel)
    decreases fuel
  {
    match Move(grid, g, false)
    case None =>
    case Some(h) =>
      WalkMoreFuel(grid, h, fuel - 1);
  }

  /** The first `process`: the number of distinct positions visited. */
  function Part1(input: string, fuel: nat): (r: Option<nat>)
    ensures r.Some? <==> Trace(FromText(input).grid, FromText(input).origin, fuel, false).None?
  {
    var lab := FromText(input);
    WalkLeaves(lab.grid, lab.origin, fuel);
    match Walk(lab.grid, lab.origin, fuel)
    case None => None
    case Some(path) => Some(|path|)
  }

  // ---------------------------------------------------------------- loops

  const AllDirs: seq<Dir> := [Up, Right, Down, Left]

  /** Every state the guard can be in: facing any way, on a cell of the map
      or at its starting position. Finite, which bounds the loop test. */
  ghost function States(grid: Grid, home: Pos): set<Guard> {
    (set r, c, d | 0 <= r < |grid| && 0 <= c < |grid[r]| && d in AllDirs :: Guard(Pos(r, c), d))
    + (set d | d in AllDirs :: Guard(home, d))
  }

  lemma InStates(grid: Grid, home: Pos, g: Guard)
    requires OnMap(grid, g.pos) || g.pos == home
    ensures g in States(grid, home)
  {
    assert g.dir in AllDirs by {
      match g.dir
      case Up => assert AllDirs[0] == Up;
      case Right => assert AllDirs[1] == Right;
      case Down => assert AllDirs[2] == Down;
      case Left => assert AllDirs[3] == Left;
    }
    if OnMap(grid, g.pos) {
      assert g == Guard(Pos(g.pos.row, g.pos.col), g.dir);
    }
  }

  /** The loop of `looping` from state `g` with the states in `seen` already
      recorded: `true` as soon as a state comes round again, `false` once the
      guard leaves the map. Each round records a new state out of finitely
      many, so the loop ends. */
  function Loops(grid: Grid, g: Guard, seen: set<Guard>, ghost home: Pos): bool
    requires OnMap(grid, g.pos) || g.pos == home
    requires seen <= States(grid, home)
    decreases |States(grid, home) - seen|
  {
    if g in seen then true
    else match Move(grid, g, true)
      case None => false
      case Some(h) =>
        InStates(grid, home, g);
        ProperSubsetCard(States(grid, home) - (seen + {g}), States(grid, home) - seen);
        Loops(grid, h, seen + {g}, home)
  }

  /** Some state of the guard comes round again. */
  ghost predicate Repeats(grid: Grid, g: Guard, obstacles: bool) {
    exists i, j :: 0 <= i < j && Trace(grid, g, j, obstacles).Some? && Trace(grid, g, i, obstacles) == Trace(grid, g, j, obstacles)
  }

  /** The guard leaves the map at some round. */
  ghost predicate Leaves(grid: Grid, g: Guard, obstacles: bool) {
    exists k :: Trace(grid, g, k, obstacles).None?
  }

  /** The states of the first `k` rounds. */
  ghost function Seen(grid: Grid, g: Guard, k: nat): set<Guard> {
    set i | 0 <= i < k && Trace(grid, g, i, true).Some? :: Trace(grid, g, i, true).value
  }

  /** The loop test is a decision: the guard is caught exactly when a state
      repeats, and is free exactly when it leaves the map. */
  lemma LoopsIff(grid: Grid, g: Guard)
    ensures Loops(grid, g, {}, g.pos) <==> Repeats(grid, g, true)
    ensures !Loops(grid, g, {}, g.pos) <==> Leaves(grid, g, true)
  {
    assert Seen(grid, g, 0) == {};
    assert Trace(grid, g, 0, true) == Some(g);
    LoopsFrom(grid, g, 0, g, {});
    if Repeats(grid, g, true) {
      RepeatsStay(grid, g, true);
    }
  }

  /** Induction for `LoopsIff`: after `k` rounds without a repeat, the loop
      reports a repeat only if there is one and a way out only if there is one. */
  lemma {:induction false} LoopsFrom(grid: Grid, g0: Guard, k: nat, g: Guard, seen: set<Guard>)
    requires Trace(grid, g0, k, true) == Some(g)
    requires seen == Seen(grid, g0, k)
    ensures OnMap(grid, g.pos) || g.pos == g0.pos
    ensures seen <= States(grid, g0.pos)
    ensures Loops(grid, g, seen, g0.pos) ==> Repeats(grid, g0, true)
    ensures !Loops(grid, g, seen, g0.pos) ==> Leaves(grid, g0, true)
    decreases |States(grid, g0.pos) - seen|
  {
    TraceStays(grid, g0, k, true);
    SeenInStates(grid, g0, k);
    if g in seen {
      assert Repeats(grid, g0, true) by {
        var i :| 0 <= i < k && Trace(grid, g0, i, true).Some? && Trace(grid, g0, i, true).value == g;
        assert Trace(grid, g0, i, true) == Trace(grid, g0, k, true);
      }
    } else {
      TraceNext(grid, g0, k, true);
      match Move(grid, g, true)
      case None =>
        assert Leaves(grid, g0, true) by {
          assert Trace(grid, g0, k + 1, true).None?;
        }
      case Some(h) =>
        SeenNext(grid, g0, k);
        assert |States(grid, g0.pos) - (seen + {g})| < |States(grid, g0.pos) - seen| by {
          InStates(grid, g0.pos, g);
          ProperSubsetCard(States(grid, g0.pos) - (seen + {g}), States(grid, g0.pos) - seen);
        }
        LoopsFrom(grid, g0, k + 1, h, seen + {g});
    }
  }

  lemma SeenInStates(grid: Grid, g0: Guard, k: nat)
    ensures Seen(grid, g0, k) <= States(grid, g0.pos)
  {
    forall x | x in Seen(grid, g0, k)
      ensures x in States(grid, g0.pos)
    {
      var i :| 0 <= i < k && Trace(grid, g0, i, true).Some? && Trace(grid, g0, i, true).value == x;
      TraceStays(grid, g0, i, true);
      InStates(grid, g0.pos, x);
    }
  }

  lemma SeenNext(grid: Grid, g0: Guard, k: nat)
    requires Trace(grid, g0, k, true).Some?
    ensures Seen(grid, g0, k + 1) == Seen(grid, g0, k) + {Trace(grid, g0, k, true).value}
  {
  }

  /** A repeated state comes round for ever, so the guard never leaves. */
  lemma RepeatsStay(grid: Grid, g: Guard, obstacles: bool)
    requires Repeats(grid, g, obstacles)
    ensures !Leaves(grid, g, obstacles)
  {
    var i, j :| 0 <= i < j && Trace(grid, g, j, obstacles).Some? && Trace(grid, g, i, obstacles) == Trace(grid, g, j, obstacles);
    forall k: nat
      ensures Trace(grid, g, k, obstacles).Some?
    {
      if k <= j {
        TraceEarlier(grid, g, k, j, obstacles);
      } else {
        CycleOn(grid, g, i, j - i, k - i, obstacles);
      }
    }
  }

  /** Once round `i` and round `i + p` agree, every later round is on the map. */
  lemma {:induction false} CycleOn(grid: Grid, g: Guard, i: nat, p: nat, n: nat, obstacles: bool)
    requires p > 0 && Trace(grid, g, i + p, obstacles).Some?
    requires Trace(grid, g, i, obstacles) == Trace(grid, g, i + p, obstacles)
    ensures Trace(grid, g, i + n, obstacles).Some?
    decreases n
  {
    if n <= p {
      TraceEarlier(grid, g, i + n, i + p, obstacles);
    } else {
      TraceShift(grid, g, i + p, n - p, obstacles);
      TraceShift(grid, g, i, n - p, obstacles);
      assert i + p + (n - p) == i + n;
      CycleOn(grid, g, i, p, n - p, obstacles);
    }
  }

  // ---------------------------------------------------------------- part two

  /** `looping`: the guard starts over from its origin with an `O` at
      `obstacle`; afterwards the cell is set to `.`. */
  function Looping(lab: Labyrinth, obstacle: Pos): (r: (bool, Labyrinth))
    ensures r.0 <==> Repeats(Set(lab.grid, obstacle, 'O'), lab.origin, true)
    ensures !r.0 <==> Leaves(Set(lab.grid, obstacle, 'O'), lab.origin, true)
    ensures r.1 == Labyrinth(Set(lab.grid, obstacle, '.'), lab.origin)
  {
    var blocked := Set(lab.grid, obstacle, 'O');
    LoopsIff(blocked, lab.origin);
    SetTwice(lab.grid, obstacle, 'O', '.');
    (Loops(blocked, lab.origin, {}, lab.origin.pos), Labyrinth(Set(blocked, obstacle, '.'), lab.origin))
  }

  /** Does an `O` at `p` trap the guard on the map as given? */
  predicate TrapsAt(lab: Labyrinth, p: Pos) {
    Loops(Set(lab.grid, p, 'O'), lab.origin, {}, lab.origin.pos)
  }

  /** Two maps of the same shape that block the guard at the same cells. */
  ghost predicate Alike(a: Grid, b: Grid) {
    |a| == |b| && (forall i :: 0 <= i < |a| ==> |a[i]| == |b[i]|)
    && forall p :: OnMap(a, p) ==> (Blocking(a[p.row][p.col], true) <==> Blocking(b[p.row][p.col], true))
  }

  lemma MoveAlike(a: Grid, b: Grid, g: Guard)
    requires Alike(a, b)
    ensures Move(a, g, true) == Move(b, g, true)
  {
  }

  lemma StatesAlike(a: Grid, b: Grid, home: Pos)
    requires Alike(a, b)
    ensures States(a, home) == States(b, home)
  {
  }

  /** The loop test sees a map only through where it blocks. */
  lemma {:induction false} LoopsAlike(a: Grid, b: Grid, g: Guard, seen: set<Guard>, home: Pos)
    requires Alike(a, b)
    requires OnMap(a, g.pos) || g.pos == home
    requires seen <= States(a, home)
    ensures OnMap(b, g.pos) || g.pos == home
    ensures seen <= States(b, home)
    ensures Loops(a, g, seen, home) == Loops(b, g, seen, home)
    decreases |States(a, home) - seen|
  {
    StatesAlike(a, b, home);
    MoveAlike(a, b, g);
    if g !in seen {
      match Move(a, g, true)
      case None =>
      case Some(h) =>
        InStates(a, home, g);
        ProperSubsetCard(States(a, home) - (seen + {g}), States(a, home) - seen);
        LoopsAlike(a, b, h, seen + {g}, home);
    }
  }

  /** The placed `O` blocks exactly like a `#` would. */
  lemma ObstacleIsWall(grid: Grid, p: Pos, g: Guard)
    ensures Loops(Set(grid, p, 'O'), g, {}, g.pos) == Loops(Set(grid, p, '#'), g, {}, g.pos)
  {
    LoopsAlike(Set(grid, p, 'O'), Set(grid, p, '#'), g, {}, g.pos);
  }

  /** Every cell of `path` is off the map or open in `grid`. */
  ghost predicate OpenCells(grid: Grid, path: set<Pos>) {
    forall p :: p in path && OnMap(grid, p) ==> !Blocking(grid[p.row][p.col], true)
  }

  /** The count of the second `process`: each path cell is tried in turn, in
      whatever order the set yields them, on the map the previous tries left
      behind. When the path holds only open cells every try leaves the map
      blocking as before, so the count is that of the cells that trap. */
  method CountLoops(lab: Labyrinth, path: set<Pos>) returns (count: nat)
    ensures count <= |path|
    ensures OpenCells(lab.grid, path) ==> count == |set p | p in path && TrapsAt(lab, p)|
  {
    var cur := lab;
    var todo := path;
    ghost var done: set<Pos> := {};
    count := 0;
    while todo != {}
      invariant todo + done == path && todo * done == {}
      invariant cur.origin == lab.origin
      invariant count <= |done|
      invariant OpenCells(lab.grid, path) ==>
        Alike(cur.grid, lab.grid) && count == |set p | p in done && TrapsAt(lab, p)|
      decreases |todo|
    {
      var p :| p in todo;
      var (caught, next) := Looping(cur, p);
      if OpenCells(lab.grid, path) {
        TryAlike(lab, cur, p);
        FilterAdd(lab, done, p);
      }
      if caught {
        count := count + 1;
      }
      cur := next;
      todo := todo - {p};
      done := done + {p};
    }
  }

  /** One try on a map that blocks like the original: the same verdict, and
      writing `.` over an open cell keeps the blocking as it was. */
  lemma TryAlike(lab: Labyrinth, cur: Labyrinth, p: Pos)
    requires cur.origin == lab.origin && Alike(cur.grid, lab.grid)
    requires OnMap(lab.grid, p) ==> !Blocking(lab.grid[p.row][p.col], true)
    ensures Looping(cur, p).0 == TrapsAt(lab, p)
    ensures Alike(Looping(cur, p).1.grid, lab.grid)
  {
    var a, b := Set(cur.grid, p, 'O'), Set(lab.grid, p, 'O');
    assert Alike(a, b) by {
      forall q | OnMap(a, q)
        ensures Blocking(a[q.row][q.col], true) <==> Blocking(b[q.row][q.col], true)
      {
        assert MapCell(a, q) == MapCell(b, q) || (MapCell(a, q) == MapCell(cur.grid, q) && MapCell(b, q) == MapCell(lab.grid, q));
      }
    }
    LoopsAlike(a, b, lab.origin, {}, lab.origin.pos);
    var c := Set(cur.grid, p, '.');
    forall q | OnMap(c, q)
      ensures Blocking(c[q.row][q.col], true) <==> Blocking(lab.grid[q.row][q.col], true)
    {
      assert MapCell(c, q) == Some('.') || MapCell(c, q) == MapCell(cur.grid, q);
    }
  }

  lemma FilterAdd(lab: Labyrinth, done: set<Pos>, p: Pos)
    requires p !in done
    ensures |set q | q in done + {p} && TrapsAt(lab, q)|
            == |set q | q in done && TrapsAt(lab, q)| + if TrapsAt(lab, p) then 1 else 0
  {
    var before := set q | q in done && TrapsAt(lab, q);
    var after := set q | q in done + {p} && TrapsAt(lab, q);
    if TrapsAt(lab, p) {
      assert after == before + {p};
    } else {
      assert after == before;
    }
  }

  /** The walk's cells are open when the map has a guard and no `O` of its
      own: they are the guard's home, a `^`, or cells the walk stepped onto. */
  lemma PathOpen(lab: Labyrinth, path: set<Pos>, fuel: nat)
    requires Walk(lab.grid, lab.origin, fuel) == Some(path)
    requires lab.origin.pos == Home(lab.grid) && MapCell(lab.grid, lab.origin.pos) == Some('^')
    requires forall p :: MapCell(lab.grid, p) != Some('O')
    ensures OpenCells(lab.grid, path)
  {
    forall p | p in path && OnMap(lab.grid, p)
      ensures !Blocking(lab.grid[p.row][p.col], true)
    {
      assert MapCell(lab.grid, p) != Some('O');
    }
  }

  /** The second `process`: walk the map, then count the path cells where an
      `O` traps the guard. */
  method Part2(input: string, fuel: nat) returns (r: Option<nat>)
    ensures r.Some? <==> Walk(FromText(input).grid, FromText(input).origin, fuel).Some?
    ensures r.Some? ==> r.value <= |Walk(FromText(input).grid, FromText(input).origin, fuel).value|
    ensures r.Some? && MapCell(FromText(input).grid, FromText(input).origin.pos) == Some('^')
            && (forall p :: MapCell(FromText(input).grid, p) != Some('O')) ==>
      r.value == |set p | p in Walk(FromText(input).grid, FromText(input).origin, fuel).value && TrapsAt(FromText(input), p)|
  {
    var lab := FromText(input);
    match Walk(lab.grid, lab.origin, fuel)
    case None =>
      r := None;
    case Some(path) =>
      if MapCell(lab.grid, lab.origin.pos) == Some('^') && forall p :: MapCell(lab.grid, p) != Some('O') {
        PathOpen(lab, path, fuel);
      }
      var n := CountLoops(lab, path);
      r := Some(n);
  }
}
