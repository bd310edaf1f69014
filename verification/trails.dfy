/** Hiking trails on a topographic map: a trail starts at height 0 and climbs
    by exactly one at each step to an orthogonal neighbour until height 9.
    A trail head's score is the number of height-9 cells it can reach; its
    rating is the number of distinct trails leaving it. */
module Trails {
  import opened Common
  import Text

  type Digit = d: int | 0 <= d <= 9

  /** The heights, row by row. */
  type Terrain = seq<seq<Digit>>

  function DigitOf(c: char): Option<Digit> {
    if '0' <= c <= '9' then Some(c as int - '0' as int) else None
  }

  /** `filter_map(to_digit)`: the digits of a line, anything else dropped
      (which shifts the later columns to the left). */
  function Heights(line: string): (r: seq<Digit>)
    ensures |r| <= |line|
  {
    if line == [] then []
    else match DigitOf(line[0])
      case Some(d) => [d] + Heights(line[1..])
      case None => Heights(line[1..])
  }

  function TerrainOf(lines: seq<string>): (t: Terrain)
    ensures |t| == |lines| && forall i :: 0 <= i < |lines| ==> t[i] == Heights(lines[i])
  {
    if lines == [] then [] else [Heights(lines[0])] + TerrainOf(lines[1..])
  }

  function Height(t: Terrain, p: Pos): Option<Digit> {
    if 0 <= p.row < |t| && 0 <= p.col < |t[p.row]| then Some(t[p.row][p.col]) else None
  }

  /** The trail heads of one row from column `col` on, left to right. */
  function RowHeads(t: Terrain, row: nat, col: nat): (r: seq<Pos>)
    requires row < |t| && col <= |t[row]|
    decreases |t[row]| - col
    ensures forall p :: p in r <==> p.row == row && col <= p.col && Height(t, p) == Some(0)
    ensures forall i, j :: 0 <= i < j < |r| ==> r[i].row == r[j].row && r[i].col < r[j].col
    ensures forall i :: 0 <= i < |r| ==> r[i].row == row && col <= r[i].col
  {
    if col == |t[row]| then []
    else if t[row][col] == 0 then [Pos(row, col)] + RowHeads(t, row, col + 1)
    else RowHeads(t, row, col + 1)
  }

  /** `trail_heads` from row `row` on: the cells of height 0 in reading order. */
  function HeadsFrom(t: Terrain, row: nat): (r: seq<Pos>)
    requires row <= |t|
    decreases |t| - row
    ensures forall p :: p in r <==> row <= p.row && Height(t, p) == Some(0)
    ensures forall i :: 0 <= i < |r| ==> row <= r[i].row
    ensures forall i, j :: 0 <= i < j < |r| ==> r[i].row < r[j].row || (r[i].row == r[j].row && r[i].col < r[j].col)
  {
    if row == |t| then [] else RowHeads(t, row, 0) + HeadsFrom(t, row + 1)
  }

  /** The trail heads: every cell of height 0, each once, in reading order. */
  function Heads(t: Terrain): (r: seq<Pos>)
    ensures forall p :: p in r <==> Height(t, p) == Some(0)
    ensures forall i, j :: 0 <= i < j < |r| ==> r[i] != r[j]
  {
    HeadsFrom(t, 0)
  }

  /** A stack entry: a position and the height the search believes it has. */
  datatype Node = Node(pos: Pos, height: Digit)

  /** The neighbour offsets in the order the search tries them. */
  const Deltas: seq<Pos> := [Pos(0, 1), Pos(0, -1), Pos(1, 0), Pos(-1, 0)]

  /** The neighbours along `ds` whose height is one more than `n`'s. */
  function ClimbAlong(t: Terrain, n: Node, ds: seq<Pos>): (cs: seq<Node>)
    ensures |cs| <= |ds|
    ensures forall c :: c in cs ==> c.height == n.height + 1 && Height(t, c.pos) == Some(c.height)
  {
    if ds == [] then []
    else
      var q := Add(n.pos, ds[0]);
      var rest := ClimbAlong(t, n, ds[1..]);
      match Height(t, q)
      case Some(h) => if h == n.height + 1 then [Node(q, h)] + rest else rest
      case None => rest
  }

  lemma {:induction false} ClimbAlongIff(t: Terrain, n: Node, ds: seq<Pos>, c: Node)
    ensures c in ClimbAlong(t, n, ds) <==>
      (exists d :: d in ds && c.pos == Add(n.pos, d)) && Height(t, c.pos) == Some(n.height + 1) && c.height == n.height + 1
  {
    if ds != [] {
      ClimbAlongIff(t, n, ds[1..], c);
      assert forall d :: d in ds <==> d == ds[0] || d in ds[1..];
    }
  }

  /** The entries pushed after popping `n`: each orthogonal neighbour one higher. */
  function Climb(t: Terrain, n: Node): (cs: seq<Node>)
    ensures |cs| <= 4
    ensures forall c :: c in cs ==> c.height == n.height + 1 && Height(t, c.pos) == Some(c.height)
  {
    ClimbAlong(t, n, Deltas)
  }

  /** The search steps exactly to the orthogonal neighbours one higher. */
  lemma ClimbIff(t: Terrain, n: Node, c: Node)
    ensures c in Climb(t, n) <==>
      (exists d :: d in Deltas && c.pos == Add(n.pos, d)) && Height(t, c.pos) == Some(n.height + 1) && c.height == n.height + 1
  {
    ClimbAlongIff(t, n, Deltas, c);
  }

  // ---------------------------------------------------------------- the tree of trails

  /** Every node on an ascending walk from `n`, `n` included. */
  function Reach(t: Terrain, n: Node): (r: set<Node>)
    decreases 10 - n.height, 0
    ensures n in r
  {
    {n} + ReachAll(t, Climb(t, n), n.height + 1)
  }

  function ReachAll(t: Terrain, ns: seq<Node>, ghost h: int): set<Node>
    requires forall c :: c in ns ==> c.height == h
    decreases 10 - h, 1, |ns|
  {
    if ns == [] then {} else Reach(t, ns[0]) + ReachAll(t, ns[1..], h)
  }

  /** The number of ascending walks from `n` that end at height 9. */
  function Paths(t: Terrain, n: Node): nat
    decreases 10 - n.height, 0
  {
    (if n.height == 9 then 1 else 0) + PathsAll(t, Climb(t, n), n.height + 1)
  }

  function PathsAll(t: Terrain, ns: seq<Node>, ghost h: int): nat
    requires forall c :: c in ns ==> c.height == h
    decreases 10 - h, 1, |ns|
  {
    if ns == [] then 0 else Paths(t, ns[0]) + PathsAll(t, ns[1..], h)
  }

  /** The number of nodes in the tree below `n`, `n` included. */
  function Size(t: Terrain, n: Node): nat
    decreases 10 - n.height, 0
  {
    1 + SizeAll(t, Climb(t, n), n.height + 1)
  }

  function SizeAll(t: Terrain, ns: seq<Node>, ghost h: int): nat
    requires forall c :: c in ns ==> c.height == h
    decreases 10 - h, 1, |ns|
  {
    if ns == [] then 0 else Size(t, ns[0]) + SizeAll(t, ns[1..], h)
  }

  /** The tallies of a stack of entries of any heights. */
  function StackPaths(t: Terrain, stack: seq<Node>): nat {
    if stack == [] then 0 else StackPaths(t, stack[..|stack| - 1]) + Paths(t, stack[|stack| - 1])
  }

  function StackSize(t: Terrain, stack: seq<Node>): nat {
    if stack == [] then 0 else StackSize(t, stack[..|stack| - 1]) + Size(t, stack[|stack| - 1])
  }

  lemma {:induction false} StackAppend(t: Terrain, stack: seq<Node>, ns: seq<Node>, h: int)
    requires forall c :: c in ns ==> c.height == h
    ensures StackPaths(t, stack + ns) == StackPaths(t, stack) + PathsAll(t, ns, h)
    ensures StackSize(t, stack + ns) == StackSize(t, stack) + SizeAll(t, ns, h)
    decreases |ns|
  {
    if ns == [] {
      assert stack + ns == stack;
    } else {
      var last := |ns| - 1;
      assert (stack + ns)[..|stack + ns| - 1] == stack + ns[..last];
      assert (stack + ns)[|stack + ns| - 1] == ns[last];
      StackAppend(t, stack, ns[..last], h);
      AllSnoc(t, ns, h);
    }
  }

  /** The fold over a group may equally take its last entry first. */
  lemma {:induction false} AllSnoc(t: Terrain, ns: seq<Node>, h: int)
    requires ns != [] && forall c :: c in ns ==> c.height == h
    ensures PathsAll(t, ns, h) == PathsAll(t, ns[..|ns| - 1], h) + Paths(t, ns[|ns| - 1])
    ensures SizeAll(t, ns, h) == SizeAll(t, ns[..|ns| - 1], h) + Size(t, ns[|ns| - 1])
    decreases |ns|
  {
    if |ns| > 1 {
      var rest := ns[1..];
      assert rest[..|rest| - 1] == ns[..|ns| - 1][1..];
      AllSnoc(t, rest, h);
    }
  }

  // ---------------------------------------------------------------- part one

  /** The entries at height 9. */
  function Nines(s: set<Node>): set<Node> {
    set v | v in s && v.height == 9
  }

  /** Every child of a visited entry is visited or still on the stack. */
  ghost predicate Closed(t: Terrain, visited: set<Node>, stack: seq<Node>) {
    forall v, c :: v in visited && c in Climb(t, v) ==> c in visited || c in stack
  }

  /** The first `count_trails`: a search with a stack and a set of visited
      entries, each entry expanded at most once; the score is the number
      of visited entries at height 9. */
  method Score(t: Terrain, head: Pos) returns (score: nat)
    ensures score == |Nines(Reach(t, Node(head, 0)))|
  {
    ghost var start := Node(head, 0);
    ghost var all := Reach(t, start);
    var stack := [Node(head, 0)];
    var visited: set<Node> := {};
    while stack != []
      invariant Searching(t, start, visited, stack)
      decreases |all - visited|, |stack|
    {
      var e := stack[|stack| - 1];
      var rest := stack[..|stack| - 1];
      if e in visited {
        PopSeen(t, start, visited, stack);
        stack := rest;
      } else {
        PopNew(t, start, visited, stack);
        visited := visited + {e};
        stack := rest + Climb(t, e);
      }
    }
    ClosedHoldsReach(t, visited, start);
    assert visited == all;
    score := |Nines(visited)|;
  }

  /** The invariant of the first search. */
  ghost predicate Searching(t: Terrain, start: Node, visited: set<Node>, stack: seq<Node>) {
    && visited <= Reach(t, start)
    && (forall e :: e in stack ==> e in Reach(t, start))
    && Closed(t, visited, stack)
    && (start in visited || start in stack)
  }

  /** Popping an entry already visited keeps the invariant. */
  lemma PopSeen(t: Terrain, start: Node, visited: set<Node>, stack: seq<Node>)
    requires Searching(t, start, visited, stack) && stack != [] && stack[|stack| - 1] in visited
    ensures Searching(t, start, visited, stack[..|stack| - 1])
  {
    var rest := stack[..|stack| - 1];
    assert forall x :: x in stack ==> x in rest || x == stack[|stack| - 1];
  }

  /** Visiting a new entry and pushing its children keeps the invariant and
      adds a reachable entry to the visited set. */
  lemma PopNew(t: Terrain, start: Node, visited: set<Node>, stack: seq<Node>)
    requires Searching(t, start, visited, stack) && stack != [] && stack[|stack| - 1] !in visited
    ensures Searching(t, start, visited + {stack[|stack| - 1]}, stack[..|stack| - 1] + Climb(t, stack[|stack| - 1]))
    ensures |Reach(t, start) - (visited + {stack[|stack| - 1]})| < |Reach(t, start) - visited|
  {
    var e := stack[|stack| - 1];
    var rest := stack[..|stack| - 1];
    assert forall x :: x in stack ==> x in rest || x == e;
    ReachClimb(t, start, e);
    ProperSubsetCard(Reach(t, start) - (visited + {e}), Reach(t, start) - visited);
  }

  /** The children of a reachable entry are reachable. */
  lemma ReachClimb(t: Terrain, s: Node, e: Node)
    requires e in Reach(t, s)
    ensures forall c :: c in Climb(t, e) ==> c in Reach(t, s)
  {
    forall c | c in Climb(t, e)
      ensures c in Reach(t, s)
    {
      AllHolds(t, Climb(t, e), e.height + 1, c, c);
      ReachTrans(t, s, e, c);
    }
  }

  /** Reach is transitive. */
  lemma {:induction false} ReachTrans(t: Terrain, s: Node, e: Node, c: Node)
    requires e in Reach(t, s) && c in Reach(t, e)
    ensures c in Reach(t, s)
    decreases 10 - s.height
  {
    if e != s {
      var m := ReachChild(t, s, e);
      ReachTrans(t, m, e, c);
      ChildReach(t, s, m, c);
    }
  }

  /** A node reached from `s` other than `s` is reached from a child of `s`. */
  lemma ReachChild(t: Terrain, s: Node, e: Node) returns (m: Node)
    requires e in Reach(t, s) && e != s
    ensures m in Climb(t, s) && e in Reach(t, m)
  {
    m := InAll(t, Climb(t, s), s.height + 1, e);
  }

  lemma {:induction false} InAll(t: Terrain, ns: seq<Node>, h: int, e: Node) returns (m: Node)
    requires forall c :: c in ns ==> c.height == h
    requires e in ReachAll(t, ns, h)
    ensures m in ns && e in Reach(t, m)
    decreases |ns|
  {
    if e in Reach(t, ns[0]) {
      m := ns[0];
    } else {
      m := InAll(t, ns[1..], h, e);
    }
  }

  /** What a child of `s` reaches, `s` reaches. */
  lemma ChildReach(t: Terrain, s: Node, m: Node, c: Node)
    requires m in Climb(t, s) && c in Reach(t, m)
    ensures c in Reach(t, s)
  {
    AllHolds(t, Climb(t, s), s.height + 1, m, c);
    assert Reach(t, s) == {s} + ReachAll(t, Climb(t, s), s.height + 1);
  }

  lemma {:induction false} AllHolds(t: Terrain, ns: seq<Node>, h: int, m: Node, c: Node)
    requires forall x :: x in ns ==> x.height == h
    requires m in ns && c in Reach(t, m)
    ensures c in ReachAll(t, ns, h)
    decreases |ns|
  {
    if ns[0] != m {
      AllHolds(t, ns[1..], h, m, c);
    }
  }

  /** A visited set closed under climbing, with nothing left on the stack,
      holds everything reachable from any of its members. */
  lemma {:induction false} ClosedHoldsReach(t: Terrain, visited: set<Node>, s: Node)
    requires Closed(t, visited, []) && s in visited
    ensures Reach(t, s) <= visited
    decreases 10 - s.height
  {
    forall c | c in Reach(t, s)
      ensures c in visited
    {
      if c != s {
        var m := ReachChild(t, s, c);
        ClosedHoldsReach(t, visited, m);
      }
    }
  }

  // ---------------------------------------------------------------- part two

  /** The second `count_trails`: the same search without the visited set,
      counting every entry at height 9 it pops, which counts the walks. */
  method Rating(t: Terrain, head: Pos) returns (rating: nat)
    ensures rating == Paths(t, Node(head, 0))
  {
    var stack := [Node(head, 0)];
    rating := 0;
    assert StackPaths(t, stack) == Paths(t, Node(head, 0)) by {
      assert stack[..0] == [];
    }
    while stack != []
      invariant rating + StackPaths(t, stack) == Paths(t, Node(head, 0))
      decreases StackSize(t, stack)
    {
      var e := stack[|stack| - 1];
      var rest := stack[..|stack| - 1];
      var cs := Climb(t, e);
      StackAppend(t, rest, cs, e.height + 1);
      if e.height == 9 {
        rating := rating + 1;
      }
      stack := rest + cs;
    }
  }

  // ---------------------------------------------------------------- score and rating

  /** Every height-9 cell a head reaches ends at least one of its walks, so
      a head's score never exceeds its rating. */
  lemma {:induction false} ScoreAtMostRating(t: Terrain, n: Node)
    ensures |Nines(Reach(t, n))| <= Paths(t, n)
    decreases 10 - n.height, 0
  {
    var cs := Climb(t, n);
    NinesAtMostPaths(t, cs, n.height + 1);
    NinesSplit({n}, ReachAll(t, cs, n.height + 1));
    assert Nines({n}) == if n.height == 9 then {n} else {};
  }

  /** Counting the height-9 entries of a union never gives more than counting each part. */
  lemma NinesSplit(a: set<Node>, b: set<Node>)
    ensures |Nines(a + b)| <= |Nines(a)| + |Nines(b)|
  {
    assert Nines(a + b) == Nines(a) + Nines(b);
  }

  lemma {:induction false} NinesAtMostPaths(t: Terrain, ns: seq<Node>, h: int)
    requires forall c :: c in ns ==> c.height == h
    ensures |Nines(ReachAll(t, ns, h))| <= PathsAll(t, ns, h)
    decreases 10 - h, 1, |ns|
  {
    if ns != [] {
      ScoreAtMostRating(t, ns[0]);
      NinesAtMostPaths(t, ns[1..], h);
      NinesSplit(Reach(t, ns[0]), ReachAll(t, ns[1..], h));
    }
  }

  // ---------------------------------------------------------------- the puzzle

  function SumScores(t: Terrain, heads: seq<Pos>): nat {
    if heads == [] then 0
    else |Nines(Reach(t, Node(heads[0], 0)))| + SumScores(t, heads[1..])
  }

  function SumRatings(t: Terrain, heads: seq<Pos>): nat {
    if heads == [] then 0 else Paths(t, Node(heads[0], 0)) + SumRatings(t, heads[1..])
  }

  /** The first `process`: the scores of all trail heads added up. */
  method Part1(input: string) returns (total: nat)
    ensures total == SumScores(TerrainOf(Text.Lines(input)), Heads(TerrainOf(Text.Lines(input))))
  {
    var t := TerrainOf(Text.Lines(input));
    var heads := Heads(t);
    total := 0;
    var i := |heads|;
    while i > 0
      invariant 0 <= i <= |heads|
      invariant total == SumScores(t, heads[i..])
    {
      i := i - 1;
      var s := Score(t, heads[i]);
      assert heads[i..][1..] == heads[i + 1..];
      total := total + s;
    }
  }

  /** The second `process`: the ratings of all trail heads added up. */
  method Part2(input: string) returns (total: nat)
    ensures total == SumRatings(TerrainOf(Text.Lines(input)), Heads(TerrainOf(Text.Lines(input))))
  {
    var t := TerrainOf(Text.Lines(input));
    var heads := Heads(t);
    total := 0;
    var i := |heads|;
    while i > 0
      invariant 0 <= i <= |heads|
      invariant total == SumRatings(t, heads[i..])
    {
      i := i - 1;
      var r := Rating(t, heads[i]);
      assert heads[i..][1..] == heads[i + 1..];
      total := total + r;
    }
  }

  /** The total score never exceeds the total rating. */
  lemma {:induction false} ScoresAtMostRatings(t: Terrain, heads: seq<Pos>)
    ensures SumScores(t, heads) <= SumRatings(t, heads)
  {
    if heads != [] {
      ScoreAtMostRating(t, Node(heads[0], 0));
      ScoresAtMostRatings(t, heads[1..]);
    }
  }
}
