/** Shared vocabulary of the puzzle models: optional values, grid coordinates,
    the four compass directions, sums and a few facts about finite sets. */
module Common {

  datatype Option<T> = None | Some(value: T)

  /** A grid coordinate: `row` grows downwards, `col` grows to the right. */
  datatype Pos = Pos(row: int, col: int)

  function Add(a: Pos, b: Pos): Pos {
    Pos(a.row + b.row, a.col + b.col)
  }

  function Sub(a: Pos, b: Pos): Pos {
    Pos(a.row - b.row, a.col - b.col)
  }

  function Scale(k: int, a: Pos): Pos {
    Pos(k * a.row, k * a.col)
  }

  /** A vector of the puzzles that count `x` across and `y` down. */
  datatype Vec = Vec(x: int, y: int)

  /** A map read line by line, as most puzzles give their input. */
  type CharMap = seq<string>

  /** `p` names a cell of the map; rows may differ in length. */
  predicate OnMap(grid: CharMap, p: Pos) {
    0 <= p.row < |grid| && 0 <= p.col < |grid[p.row]|
  }

  /** The character at `p`. A negative coordinate, which the puzzles' casts
      to an unsigned index make huge, is off the map like any other. */
  function MapCell(grid: CharMap, p: Pos): Option<char> {
    if OnMap(grid, p) then Some(grid[p.row][p.col]) else None
  }

  /** The four unit moves shared by the warehouse robot and the patrolling guard. */
  datatype Dir = Up | Down | Left | Right

  /** Unit vector of a direction: Up (-1,0), Down (1,0), Right (0,1), Left (0,-1). */
  function Offset(d: Dir): (o: Pos)
    ensures (o.row == 0) != (o.col == 0)
    ensures -1 <= o.row <= 1 && -1 <= o.col <= 1
  {
    match d
    case Up => Pos(-1, 0)
    case Down => Pos(1, 0)
    case Right => Pos(0, 1)
    case Left => Pos(0, -1)
  }

  function Step(p: Pos, d: Dir): Pos {
    Add(p, Offset(d))
  }

  predicate IsVertical(d: Dir) {
    d == Up || d == Down
  }

  /** A quarter turn clockwise: the step (r, c) becomes (c, -r), so the new
      direction is never the old one. */
  function Turn(d: Dir): (r: Dir)
    ensures Offset(r) == Pos(Offset(d).col, -Offset(d).row)
    ensures r != d
  {
    match d
    case Up => Right
    case Right => Down
    case Down => Left
    case Left => Up
  }

  /** Four quarter turns bring every direction back, and no fewer do. */
  lemma FourTurnsIdentity(d: Dir)
    ensures Turn(Turn(Turn(Turn(d)))) == d
    ensures Turn(d) != d && Turn(Turn(d)) != d && Turn(Turn(Turn(d))) != d
  {
  }

  function Opposite(d: Dir): Dir {
    Turn(Turn(d))
  }

  lemma OppositeOffset(d: Dir)
    ensures Offset(Opposite(d)) == Pos(-Offset(d).row, -Offset(d).col)
  {
  }

  /** Sum of a sequence of integers. */
  function Sum(s: seq<int>): int {
    if s == [] then 0 else s[0] + Sum(s[1..])
  }

  lemma {:induction false} SumAppend(a: seq<int>, b: seq<int>)
    ensures Sum(a + b) == Sum(a) + Sum(b)
  {
    if a == [] {
      assert a + b == b;
    } else {
      assert (a + b)[1..] == a[1..] + b;
      SumAppend(a[1..], b);
    }
  }

  /** Sum of `f` over a finite set, in whatever order the elements are picked. */
  ghost function SumOver<T>(s: set<T>, f: T -> int): int
    decreases s
  {
    if s == {} then 0 else var x :| x in s; f(x) + SumOver(s - {x}, f)
  }

  /** The pick order does not matter: any element can be taken out first. */
  lemma {:induction false} SumOverRemove<T>(s: set<T>, f: T -> int, y: T)
    requires y in s
    ensures SumOver(s, f) == f(y) + SumOver(s - {y}, f)
    decreases s
  {
    var x :| x in s && SumOver(s, f) == f(x) + SumOver(s - {x}, f);
    if x != y {
      SumOverRemove(s - {x}, f, y);
      assert s - {x} - {y} == s - {y} - {x};
      SumOverRemove(s - {y}, f, x);
    }
  }

  /** Adding a new element adds its term. */
  lemma SumOverAdd<T>(s: set<T>, f: T -> int, y: T)
    requires y !in s
    ensures SumOver(s + {y}, f) == SumOver(s, f) + f(y)
  {
    SumOverRemove(s + {y}, f, y);
    assert s + {y} - {y} == s;
  }

  /** The sum over a union of disjoint sets is the sum of the two sums. */
  lemma {:induction false} SumOverUnion<T>(a: set<T>, b: set<T>, f: T -> int)
    requires a * b == {}
    ensures SumOver(a + b, f) == SumOver(a, f) + SumOver(b, f)
    decreases a
  {
    if a == {} {
      assert a + b == b;
    } else {
      var x :| x in a;
      SumOverRemove(a + b, f, x);
      assert (a + b) - {x} == (a - {x}) + b;
      SumOverUnion(a - {x}, b, f);
      SumOverRemove(a, f, x);
    }
  }

  /** Functions that agree on a set have the same sum over it. */
  lemma {:induction false} SumOverAgree<T>(s: set<T>, f: T -> int, g: T -> int)
    requires forall x :: x in s ==> f(x) == g(x)
    ensures SumOver(s, f) == SumOver(s, g)
    decreases s
  {
    if s != {} {
      var x :| x in s;
      SumOverRemove(s, f, x);
      SumOverRemove(s, g, x);
      SumOverAgree(s - {x}, f, g);
    }
  }

  /** A sum of terms between 0 and `k` lies between 0 and `k` times the count. */
  lemma {:induction false} SumOverBound<T>(s: set<T>, f: T -> int, k: int)
    requires forall x :: x in s ==> 0 <= f(x) <= k
    ensures 0 <= SumOver(s, f) <= k * |s|
    decreases s
  {
    if s != {} {
      var x :| x in s;
      SumOverRemove(s, f, x);
      SumOverBound(s - {x}, f, k);
      var n := |s - {x}|;
      assert |s| == n + 1;
      assert k * (n + 1) == k * n + k;
    }
  }

  /** Adds `f` up over a set, taking the elements in whatever order they come. */
  method Tally<T>(s: set<T>, f: T -> int) returns (total: int)
    ensures total == SumOver(s, f)
  {
    total := 0;
    var todo := s;
    while todo != {}
      invariant todo <= s
      invariant total == SumOver(s - todo, f)
      decreases |todo|
    {
      var x :| x in todo;
      var done := s - todo;
      SumOverRemove(done + {x}, f, x);
      assert done + {x} - {x} == done;
      total := total + f(x);
      todo := todo - {x};
      assert s - todo == done + {x};
    }
    assert s - todo == s;
  }

  /** A proper subset is strictly smaller. */
  lemma ProperSubsetCard<T>(a: set<T>, b: set<T>)
    requires a < b
    ensures |a| < |b|
  {
    assert b - a != {};
    assert b == a + (b - a);
    assert a * (b - a) == {};
  }

  lemma SubsetCard<T>(a: set<T>, b: set<T>)
    requires a <= b
    ensures |a| <= |b|
  {
    if a != b {
      ProperSubsetCard(a, b);
    }
  }

  /** An injective image has as many elements as its domain. */
  lemma {:induction false} InjectiveImageCard<A, B>(s: set<A>, f: A -> B)
    requires forall x, y :: x in s && y in s && f(x) == f(y) ==> x == y
    ensures |set x | x in s :: f(x)| == |s|
    decreases s
  {
    if s != {} {
      var x :| x in s;
      InjectiveImageCard(s - {x}, f);
      var rest := set y | y in s - {x} :: f(y);
      assert (set y | y in s :: f(y)) == rest + {f(x)};
      assert f(x) !in rest;
    }
  }

  /** Translating a set of positions by a fixed vector keeps its size. */
  lemma {:induction false} TranslateCard(s: set<Pos>, v: Pos)
    ensures |set p | p in s :: Add(p, v)| == |s|
    decreases s
  {
    if s != {} {
      var x :| x in s;
      TranslateCard(s - {x}, v);
      var rest := set p | p in s - {x} :: Add(p, v);
      assert (set p | p in s :: Add(p, v)) == rest + {Add(x, v)};
      assert Add(x, v) !in rest;
    }
  }

  function Pow10(k: nat): (r: nat)
    ensures r >= 1
  {
    if k == 0 then 1 else 10 * Pow10(k - 1)
  }

  lemma Pow10Add(a: nat, b: nat)
    ensures Pow10(a + b) == Pow10(a) * Pow10(b)
  {
    if a > 0 {
      Pow10Add(a - 1, b);
    }
  }

  /** Number of decimal digits of `n`, with `Digits(0) == 1` (`ilog10(n) + 1` for n > 0). */
  function Digits(n: nat): (k: nat)
    ensures k >= 1
    ensures n < Pow10(k)
    ensures n == 0 || Pow10(k - 1) <= n
  {
    if n < 10 then 1 else 1 + Digits(n / 10)
  }

  /** The digit count is the unique k with 10^(k-1) <= n < 10^k. */
  lemma {:induction false} DigitsUnique(n: nat, k: nat)
    requires k >= 1 && Pow10(k - 1) <= n < Pow10(k)
    ensures Digits(n) == k
  {
    if n >= 10 {
      assert k >= 2;
      DigitsUnique(n / 10, k - 1);
    }
  }
}
