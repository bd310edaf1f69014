/** Security robots on a torus, first part: every robot walks its velocity
    for a hundred seconds, wrapping round the edges, and the safety factor
    is the product of the robot counts in the four quadrants. */
module Robots {
  import opened Common

  datatype Robot = Robot(position: Vec, velocity: Vec)

  /** `GRID_SIZE` under test. */
  const TestSize: Vec := Vec(11, 7)

  /** `GRID_SIZE` for the puzzle itself. */
  const FullSize: Vec := Vec(101, 103)

  /** `rem_euclid` by a zero size panics; both sizes the source uses are
      positive. */
  predicate Sized(size: Vec) {
    size.x > 0 && size.y > 0
  }

  predicate OnFloor(v: Vec, size: Vec) {
    0 <= v.x < size.x && 0 <= v.y < size.y
  }

  /** `rem_euclid` by the grid size, componentwise: Dafny's `%` is the
      Euclidean remainder, never negative. */
  function Wrap(v: Vec, size: Vec): (w: Vec)
    requires Sized(size)
    ensures OnFloor(w, size)
  {
    Vec(v.x % size.x, v.y % size.y)
  }

  /** Wrapping only takes whole grid sizes off each component. */
  lemma WrapShifts(v: Vec, size: Vec)
    requires Sized(size)
    ensures v.x == Wrap(v, size).x + (v.x / size.x) * size.x
    ensures v.y == Wrap(v, size).y + (v.y / size.y) * size.y
  {
  }

  /** A floor position wraps to itself. */
  lemma WrapOnFloor(v: Vec, size: Vec)
    requires Sized(size) && OnFloor(v, size)
    ensures Wrap(v, size) == v
  {
  }

  /** One second: the position moves by the velocity and wraps; the
      velocity stays. */
  function Step(robot: Robot, size: Vec): (r: Robot)
    requires Sized(size)
    ensures OnFloor(r.position, size) && r.velocity == robot.velocity
  {
    var p := robot.position;
    var v := robot.velocity;
    Robot(Wrap(Vec(p.x + v.x, p.y + v.y), size), v)
  }

  /** `k` seconds. */
  function Steps(robot: Robot, size: Vec, k: nat): Robot
    requires Sized(size)
  {
    if k == 0 then robot else Step(Steps(robot, size, k - 1), size)
  }

  lemma ModOfMod(a: int, b: int, n: int)
    requires n > 0
    ensures (a % n + b) % n == (a + b) % n
  {
    var q := a / n;
    assert a == q * n + a % n;
    assert a + b == (a % n + b) + q * n;
    ModShift(a % n + b, q, n);
  }

  lemma ModShift(c: int, q: int, n: int)
    requires n > 0
    ensures (c + q * n) % n == c % n
  {
    var d := c / n;
    assert c == d * n + c % n;
    assert c + q * n == (d + q) * n + c % n;
    ModUnique(c + q * n, d + q, c % n, n);
  }

  /** The Euclidean quotient and remainder are unique. */
  lemma ModUnique(a: int, q: int, r: int, n: int)
    requires n > 0 && 0 <= r < n && a == q * n + r
    ensures a % n == r
  {
    var q', r' := a / n, a % n;
    assert a == q' * n + r';
    assert (q - q') * n == r' - r;
    if q - q' >= 1 {
      MulAtLeast(n, q - q');
      assert false;
    } else if q' - q >= 1 {
      MulAtLeast(n, q' - q);
      assert false;
    }
  }

  lemma MulAtLeast(n: int, k: int)
    requires n > 0 && k >= 1
    ensures k * n >= n
  {
  }

  /** After `k >= 1` seconds a robot stands where the straight walk
      `p + k v` wraps to, however far it went. */
  lemma {:induction false} StepsClosed(robot: Robot, size: Vec, k: nat)
    requires Sized(size) && k >= 1
    ensures Steps(robot, size, k).velocity == robot.velocity
    ensures Steps(robot, size, k).position ==
      Wrap(Vec(robot.position.x + k * robot.velocity.x, robot.position.y + k * robot.velocity.y), size)
  {
    var p := robot.position;
    var v := robot.velocity;
    if k > 1 {
      StepsClosed(robot, size, k - 1);
      ModOfMod(p.x + (k - 1) * v.x, v.x, size.x);
      ModOfMod(p.y + (k - 1) * v.y, v.y, size.y);
      assert p.x + (k - 1) * v.x + v.x == p.x + k * v.x;
      assert p.y + (k - 1) * v.y + v.y == p.y + k * v.y;
    }
  }

  /** A half-open range `lo..hi`, as Rust's `contains` reads it. */
  datatype Span = Span(lo: int, hi: int)

  predicate Contains(s: Span, v: int) {
    s.lo <= v < s.hi
  }

  /** The four quadrants of `process`, in its order: the middle column and
      row, `size / 2`, belong to none. */
  function Quadrants(size: Vec): (qs: seq<(Span, Span)>)
    ensures |qs| == 4
  {
    var divider := Vec(size.x / 2, size.y / 2);
    [ (Span(0, divider.x), Span(0, divider.y)),
      (Span(divider.x + 1, size.x), Span(0, divider.y)),
      (Span(0, divider.x), Span(divider.y + 1, size.y)),
      (Span(divider.x + 1, size.x), Span(divider.y + 1, size.y)) ]
  }

  predicate InQuadrant(q: (Span, Span), v: Vec) {
    Contains(q.0, v.x) && Contains(q.1, v.y)
  }

  /** The quadrants are disjoint and miss the middle lines; every other
      floor position lies in one of them. */
  lemma QuadrantsPartition(size: Vec, v: Vec)
    requires Sized(size)
    ensures forall i, j :: 0 <= i < j < 4 ==> !(InQuadrant(Quadrants(size)[i], v) && InQuadrant(Quadrants(size)[j], v))
    ensures forall i :: 0 <= i < 4 && InQuadrant(Quadrants(size)[i], v) ==> v.x != size.x / 2 && v.y != size.y / 2
    ensures OnFloor(v, size) && v.x != size.x / 2 && v.y != size.y / 2 ==>
      exists i :: 0 <= i < 4 && InQuadrant(Quadrants(size)[i], v)
  {
    var qs := Quadrants(size);
    if OnFloor(v, size) && v.x != size.x / 2 && v.y != size.y / 2 {
      var i := (if v.x < size.x / 2 then 0 else 1) + (if v.y < size.y / 2 then 0 else 2);
      assert InQuadrant(qs[i], v);
    }
  }

  /** The robots standing in quadrant `q`: the `filter(..).count()`. */
  function CountIn(robots: seq<Robot>, q: (Span, Span)): (n: nat)
    ensures n <= |robots|
  {
    if robots == [] then 0
    else CountIn(robots[..|robots| - 1], q) + (if InQuadrant(q, robots[|robots| - 1].position) then 1 else 0)
  }

  /** The robots standing on a middle line. */
  function CountMiddle(robots: seq<Robot>, size: Vec): (n: nat)
    ensures n <= |robots|
  {
    if robots == [] then 0
    else
      var p := robots[|robots| - 1].position;
      CountMiddle(robots[..|robots| - 1], size) + (if p.x == size.x / 2 || p.y == size.y / 2 then 1 else 0)
  }

  /** The safety factor: the product of the four quadrant counts, which is
      zero exactly when some quadrant is empty. */
  function Safety(robots: seq<Robot>, size: Vec): (r: int)
    ensures r >= 0
    ensures r == 0 <==> exists i :: 0 <= i < 4 && CountIn(robots, Quadrants(size)[i]) == 0
  {
    var qs := Quadrants(size);
    var (a, b, c, d) := (CountIn(robots, qs[0]), CountIn(robots, qs[1]), CountIn(robots, qs[2]), CountIn(robots, qs[3]));
    ProductZero(a, b);
    ProductZero(a * b, c);
    ProductZero(a * b * c, d);
    a * b * c * d
  }

  /** A product of counts is a count, and zero only when a factor is. */
  lemma ProductZero(a: nat, b: nat)
    ensures a * b >= 0
    ensures a * b == 0 <==> a == 0 || b == 0
  {
    if a > 0 && b > 0 {
      MulPositive(a, b);
    }
  }

  lemma MulPositive(a: nat, b: nat)
    requires a > 0 && b > 0
    ensures a * b > 0
  {
  }

  /** Robots on the floor are each counted once: in one quadrant or on a
      middle line. */
  lemma {:induction false} CountsCover(robots: seq<Robot>, size: Vec)
    requires Sized(size) && forall i :: 0 <= i < |robots| ==> OnFloor(robots[i].position, size)
    ensures var qs := Quadrants(size);
      CountIn(robots, qs[0]) + CountIn(robots, qs[1]) + CountIn(robots, qs[2]) + CountIn(robots, qs[3])
        + CountMiddle(robots, size) == |robots|
  {
    if robots != [] {
      CountsCover(robots[..|robots| - 1], size);
      QuadrantsPartition(size, robots[|robots| - 1].position);
    }
  }

  /** Where every robot stands after `k` seconds. */
  function After(robots: seq<Robot>, size: Vec, k: nat): (r: seq<Robot>)
    requires Sized(size)
    ensures |r| == |robots|
  {
    seq(|robots|, i requires 0 <= i < |robots| => Steps(robots[i], size, k))
  }

  /** One second of the inner `for`: every robot, in place. */
  method Tick(robots: seq<Robot>, size: Vec) returns (next: seq<Robot>)
    requires Sized(size)
    ensures |next| == |robots|
    ensures forall j :: 0 <= j < |robots| ==> next[j] == Step(robots[j], size)
  {
    next := robots;
    var i := 0;
    while i < |next|
      invariant 0 <= i <= |next| == |robots|
      invariant forall j :: 0 <= j < i ==> next[j] == Step(robots[j], size)
      invariant forall j :: i <= j < |next| ==> next[j] == robots[j]
    {
      next := next[i := Step(next[i], size)];
      i := i + 1;
    }
  }

  /** `process`: a hundred rounds of moving every robot in place, then the
      product of the quadrant counts. */
  method Process(robots: seq<Robot>, size: Vec) returns (result: int)
    requires Sized(size)
    ensures result == Safety(After(robots, size, 100), size)
  {
    var now := robots;
    var t := 0;
    while t < 100
      invariant 0 <= t <= 100
      invariant now == After(robots, size, t)
    {
      now := Tick(now, size);
      t := t + 1;
    }
    var qs := Quadrants(size);
    var c0 := Tally(now, qs[0]);
    var c1 := Tally(now, qs[1]);
    var c2 := Tally(now, qs[2]);
    var c3 := Tally(now, qs[3]);
    result := c0 * c1 * c2 * c3;
  }

  /** The `filter(..).count()` of one quadrant. */
  method Tally(robots: seq<Robot>, q: (Span, Span)) returns (n: int)
    ensures n == CountIn(robots, q)
  {
    n := 0;
    var i := 0;
    while i < |robots|
      invariant 0 <= i <= |robots|
      invariant n == CountIn(robots[..i], q)
    {
      assert robots[..i + 1][..i] == robots[..i];
      if InQuadrant(q, robots[i].position) {
        n := n + 1;
      }
      i := i + 1;
    }
    assert robots[..|robots|] == robots;
  }

  /** After a hundred seconds every robot stands at `p + 100 v` wrapped. */
  lemma HundredSeconds(robots: seq<Robot>, size: Vec, i: nat)
    requires Sized(size) && i < |robots|
    ensures After(robots, size, 100)[i].position ==
      Wrap(Vec(robots[i].position.x + 100 * robots[i].velocity.x, robots[i].position.y + 100 * robots[i].velocity.y), size)
  {
    StepsClosed(robots[i], size, 100);
  }
}
