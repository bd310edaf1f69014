/** Claw machines, second part: each prize lies ten trillion further out on
    both axes, and the presses of buttons A and B that reach it are found by
    Cramer's rule and checked by substituting them back. */
module Claw {
  import opened Common

  /** One machine: what buttons A and B move the claw by, and the prize. */
  datatype Machine = Machine(a: Vec, b: Vec, prize: Vec)

  /** `SCALE_FACTOR`, added to both prize coordinates. */
  const ScaleFactor: int := 10_000_000_000_000

  function Abs(a: int): nat {
    if a < 0 then -a else a
  }

  /** Rust's `/` on integers: the quotient truncated toward zero, so the
      remainder is smaller than the divisor and, when not zero, has the
      dividend's sign. */
  function Quot(a: int, b: int): (q: int)
    requires b != 0
    ensures Abs(a - q * b) < Abs(b)
    ensures a - q * b == 0 || (a - q * b < 0) == (a < 0)
  {
    if (a < 0) == (b < 0) then
      RemainderAlike(a, b);
      Abs(a) / Abs(b)
    else
      RemainderUnlike(a, b);
      -(Abs(a) / Abs(b))
  }

  /** Dividing a multiple of `y` by `y` gives back the factor. */
  lemma DivMultiple(x: nat, y: nat)
    requires y > 0
    ensures (x * y) / y == x
  {
    var q, r := (x * y) / y, (x * y) % y;
    assert x * y == y * q + r && 0 <= r < y;
    assert y * (x - q) == r;
    if q < x {
      MulAtLeast(y, x - q);
      assert false;
    } else if q > x {
      assert false;
    }
  }

  lemma MulAtLeast(y: nat, k: int)
    requires k >= 1
    ensures y * k >= y
  {
  }

  /** Division that leaves no remainder gives back the factor, whatever the
      signs. */
  lemma QuotExact(k: int, b: int)
    requires b != 0
    ensures Quot(k * b, b) == k
  {
    assert Abs(k * b) == Abs(k) * Abs(b);
    DivMultiple(Abs(k), Abs(b));
  }

  /** With operands of one sign the quotient is `|a| / |b|`. */
  lemma RemainderAlike(a: int, b: int)
    requires b != 0 && (a < 0) == (b < 0)
    ensures a - (Abs(a) / Abs(b)) * b == if a < 0 then -(Abs(a) % Abs(b)) else Abs(a) % Abs(b)
  {
    var x, y := Abs(a), Abs(b);
    var m: int := x / y;
    var p := m * y;
    assert x == p + x % y;
    SignedProduct(m, b);
  }

  /** With operands of opposite signs the quotient is `-(|a| / |b|)`. */
  lemma RemainderUnlike(a: int, b: int)
    requires b != 0 && (a < 0) != (b < 0)
    ensures a - (-(Abs(a) / Abs(b))) * b == if a < 0 then -(Abs(a) % Abs(b)) else Abs(a) % Abs(b)
  {
    var x, y := Abs(a), Abs(b);
    var m: int := x / y;
    var p := m * y;
    assert x == p + x % y;
    SignedProduct(-m, b);
    assert (-m) * y == -p;
  }

  /** A product with `b` is the product with its magnitude, signed. */
  lemma SignedProduct(q: int, b: int)
    ensures q * b == if b < 0 then -(q * Abs(b)) else q * Abs(b)
  {
  }

  /** The prize the second part aims for. */
  function Target(machine: Machine): Vec {
    Vec(machine.prize.x + ScaleFactor, machine.prize.y + ScaleFactor)
  }

  /** `m` presses of A and `n` presses of B land on `goal`. */
  predicate Lands(machine: Machine, m: int, n: int, goal: Vec) {
    machine.a.x * m + machine.b.x * n == goal.x && machine.a.y * m + machine.b.y * n == goal.y
  }

  /** `count_tokens` divides by the determinant and by `a.y`; a zero divisor
      makes it panic. */
  predicate Solvable(machine: Machine) {
    machine.a.x * machine.b.y - machine.a.y * machine.b.x != 0 && machine.a.y != 0
  }

  /** The presses of B by Cramer's rule: whenever some presses land on the
      prize, these are their presses of B. */
  function PressesB(machine: Machine): (r: int)
    requires Solvable(machine)
    ensures forall m, n :: Lands(machine, m, n, Target(machine)) ==> r == n
  {
    var (a, b, p) := (machine.a, machine.b, Target(machine));
    CramerB(machine);
    Quot(a.x * p.y - a.y * p.x, a.x * b.y - a.y * b.x)
  }

  /** Presses that land make the numerator of Cramer's rule the determinant
      times the presses of B, so the division is exact. */
  lemma CramerB(machine: Machine)
    requires Solvable(machine)
    ensures var (a, b, p) := (machine.a, machine.b, Target(machine));
            forall m, n :: Lands(machine, m, n, p) ==> Quot(a.x * p.y - a.y * p.x, a.x * b.y - a.y * b.x) == n
  {
    var (a, b, p) := (machine.a, machine.b, Target(machine));
    var det := a.x * b.y - a.y * b.x;
    forall m, n | Lands(machine, m, n, p)
      ensures Quot(a.x * p.y - a.y * p.x, det) == n
    {
      calc {
        a.x * p.y - a.y * p.x;
        a.x * (a.y * m + b.y * n) - a.y * (a.x * m + b.x * n);
        { assert a.x * (a.y * m) == a.y * (a.x * m); }
        a.x * (b.y * n) - a.y * (b.x * n);
        n * det;
      }
      QuotExact(n, det);
    }
  }

  /** The presses of A, from the second equation: whenever some presses land
      on the prize, these are their presses of A. */
  function PressesA(machine: Machine): (r: int)
    requires Solvable(machine)
    ensures forall m, n :: Lands(machine, m, n, Target(machine)) ==> r == m
  {
    CramerA(machine);
    Quot(Target(machine).y - machine.b.y * PressesB(machine), machine.a.y)
  }

  /** Given the presses of B, the rest of the prize's second coordinate is a
      multiple of what A adds to it. */
  lemma CramerA(machine: Machine)
    requires Solvable(machine)
    ensures forall m, n :: Lands(machine, m, n, Target(machine))
              ==> Quot(Target(machine).y - machine.b.y * PressesB(machine), machine.a.y) == m
  {
    forall m, n | Lands(machine, m, n, Target(machine))
      ensures Quot(Target(machine).y - machine.b.y * PressesB(machine), machine.a.y) == m
    {
      assert PressesB(machine) == n;
      assert Target(machine).y - machine.b.y * n == m * machine.a.y;
      QuotExact(m, machine.a.y);
    }
  }

  /** `count_tokens`: the cost `3m + n` of the computed presses when they
      land on the prize, nothing otherwise. */
  function CountTokens(machine: Machine): (r: Option<int>)
    requires Solvable(machine)
    ensures r.Some? <==> Lands(machine, PressesA(machine), PressesB(machine), Target(machine))
    ensures r.Some? ==> r.value == 3 * PressesA(machine) + PressesB(machine)
  {
    var m := PressesA(machine);
    var n := PressesB(machine);
    if Lands(machine, m, n, Target(machine)) then Some(3 * m + n) else None
  }

  /** Whenever some whole numbers of presses land on the prize, the machine
      finds them: they are unique, and the two divisions are exact. */
  lemma CountTokensComplete(machine: Machine, m: int, n: int)
    requires Solvable(machine) && Lands(machine, m, n, Target(machine))
    ensures CountTokens(machine) == Some(3 * m + n)
  {
    assert PressesB(machine) == n && PressesA(machine) == m;
  }

  /** Some presses land on the prize exactly when the machine returns a
      cost. */
  lemma CountTokensMeans(machine: Machine)
    requires Solvable(machine)
    ensures CountTokens(machine).Some? <==> exists m, n :: Lands(machine, m, n, Target(machine))
  {
    if m, n :| Lands(machine, m, n, Target(machine)) {
      CountTokensComplete(machine, m, n);
    }
  }

  /** Like the source, the model does not ask for the presses to be
      non-negative: here button A must be pressed minus thirty trillion times. */
  lemma NegativePresses()
    ensures var machine := Machine(Vec(1, 1), Vec(1, 2), Vec(-2 * ScaleFactor, 0));
      Solvable(machine) && CountTokens(machine) == Some(-7 * ScaleFactor)
  {
    var machine := Machine(Vec(1, 1), Vec(1, 2), Vec(-2 * ScaleFactor, 0));
    CountTokensComplete(machine, -3 * ScaleFactor, 2 * ScaleFactor);
  }

  /** The cost a machine adds to the answer: nothing when it has none. */
  function Cost(machine: Machine): int
    requires Solvable(machine)
  {
    match CountTokens(machine)
    case Some(c) => c
    case None => 0
  }

  /** The costs of the solvable machines, in order. */
  function Costs(machines: seq<Machine>): (r: seq<int>)
    requires forall i :: 0 <= i < |machines| ==> Solvable(machines[i])
    ensures |r| == |machines|
  {
    seq(|machines|, i requires 0 <= i < |machines| => Cost(machines[i]))
  }

  /** `process`: the sum of the costs `count_tokens` returns. */
  method Process(machines: seq<Machine>) returns (sum: int)
    requires forall i :: 0 <= i < |machines| ==> Solvable(machines[i])
    ensures sum == Sum(Costs(machines))
  {
    sum := 0;
    var i := |machines|;
    while i > 0
      invariant 0 <= i <= |machines|
      invariant sum == Sum(Costs(machines)[i..])
    {
      i := i - 1;
      assert Costs(machines)[i..] == [Costs(machines)[i]] + Costs(machines)[i + 1..];
      var tokens := CountTokens(machines[i]);
      if tokens.Some? {
        sum := sum + tokens.value;
      }
    }
  }

  /** A machine contributes its cost exactly when some presses land on the
      prize, and the unique ones then. */
  lemma CostMeans(machine: Machine, m: int, n: int)
    requires Solvable(machine)
    ensures Lands(machine, m, n, Target(machine)) ==> Cost(machine) == 3 * m + n
    ensures (forall m', n' :: !Lands(machine, m', n', Target(machine))) ==> Cost(machine) == 0
  {
    if Lands(machine, m, n, Target(machine)) {
      CountTokensComplete(machine, m, n);
    }
    CountTokensMeans(machine);
  }
}
