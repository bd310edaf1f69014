/** Bridge repair calibration: an equation `total: f1 f2 ... fn` is true when
    some choice of operators between the factors, evaluated strictly left to
    right, gives the total. The first part allows `+` and `*`, the second
    also the digit concatenation `||`. */
module Calibration {
  import opened Common
  import Text

  datatype Op = Plus | Times | Join

  datatype Equation = Equation(total: nat, factors: seq<nat>)

  const PartOneOps: seq<Op> := [Plus, Times]
  const PartTwoOps: seq<Op> := [Plus, Times, Join]

  // ---------------------------------------------------------------- operators

  /** `concat_num`: the digits of `b` written after those of `a`. The source
      counts the digits of `b` as floor(log10 b) + 1 in floating point, which
      is 1 for b = 0; `Digits` counts the same way. */
  function Concat(a: nat, b: nat): (r: nat)
    ensures r % Pow10(Digits(b)) == b && r / Pow10(Digits(b)) == a
  {
    var p := Pow10(Digits(b));
    DivModSplit(a, b, p);
    a * p + b
  }

  /** Division by `p` undoes `a * p + b` for a remainder `b` below `p`. */
  lemma DivModSplit(a: nat, b: nat, p: nat)
    requires b < p
    ensures (a * p + b) % p == b && (a * p + b) / p == a
  {
    var n := a * p + b;
    var q, r := n / p, n % p;
    assert q * p + r == n;
    assert (q - a) * p == b - r;
    MulSmall(q - a, p);
  }

  /** A non-zero multiple of `p` is at least `p` away from zero. */
  lemma MulSmall(x: int, p: int)
    requires p > 0
    ensures x >= 1 ==> x * p >= p
    ensures x <= -1 ==> x * p <= -p
  {
    MulLe(1, x, p);
    MulLe(x, -1, p);
  }

  lemma MulLe(x: int, y: int, p: int)
    requires p >= 0
    ensures x <= y ==> x * p <= y * p
  {
    assert y * p - x * p == (y - x) * p;
  }

  /** Joining a positive number adds the digit counts. */
  lemma ConcatDigits(a: nat, b: nat)
    requires a > 0
    ensures Digits(Concat(a, b)) == Digits(a) + Digits(b)
  {
    var ka, kb := Digits(a), Digits(b);
    Pow10Add(ka - 1, kb);
    Pow10Add(ka, kb);
    var pb := Pow10(kb);
    MulLe(Pow10(ka - 1), a, pb);
    MulLe(a + 1, Pow10(ka), pb);
    assert (a + 1) * pb == a * pb + pb;
    DigitsUnique(Concat(a, b), ka + kb);
  }

  /** `15 || 6` is `156`. */
  lemma ConcatExample()
    ensures Concat(15, 6) == 156
  {
    assert Digits(6) == 1;
  }

  function Apply(o: Op, a: nat, b: nat): nat {
    match o
    case Plus => a + b
    case Times => a * b
    case Join => Concat(a, b)
  }

  // ---------------------------------------------------------------- the fold

  /** Every operator applied to one previous candidate, in operator order. */
  function Outcomes(p: nat, n: nat, ops: seq<Op>): (r: seq<nat>)
    ensures |r| == |ops|
    ensures forall j :: 0 <= j < |ops| ==> r[j] == Apply(ops[j], p, n)
  {
    seq(|ops|, j requires 0 <= j < |ops| => Apply(ops[j], p, n))
  }

  /** One fold step: every candidate combined with the next factor by every
      operator. */
  function Tally(acc: seq<nat>, n: nat, ops: seq<Op>): (r: seq<nat>)
    ensures |r| == |acc| * |ops|
    ensures forall x :: x in r <==> exists a, o :: a in acc && o in ops && x == Apply(o, a, n)
  {
    if acc == [] then []
    else
      var r := Outcomes(acc[0], n, ops) + Tally(acc[1..], n, ops);
      assert |acc| * |ops| == |ops| + (|acc| - 1) * |ops|;
      forall x | x in r
        ensures exists a, o :: a in acc && o in ops && x == Apply(o, a, n)
      {
        if x in Outcomes(acc[0], n, ops) {
          var j :| 0 <= j < |ops| && Outcomes(acc[0], n, ops)[j] == x;
          assert acc[0] in acc && ops[j] in ops && x == Apply(ops[j], acc[0], n);
        } else {
          var a, o :| a in acc[1..] && o in ops && x == Apply(o, a, n);
          assert a in acc;
        }
      }
      forall a, o | a in acc && o in ops
        ensures Apply(o, a, n) in r
      {
        var j :| 0 <= j < |ops| && ops[j] == o;
        if a == acc[0] {
          assert Outcomes(acc[0], n, ops)[j] == Apply(o, a, n);
        } else {
          assert a in acc[1..];
        }
      }
      r
  }

  /** The candidate list after folding the remaining factors. */
  function Candidates(acc: seq<nat>, rest: seq<nat>, ops: seq<Op>): seq<nat>
    decreases |rest|
  {
    if rest == [] then acc else Candidates(Tally(acc, rest[0], ops), rest[1..], ops)
  }

  function Pow(b: nat, e: nat): nat {
    if e == 0 then 1 else b * Pow(b, e - 1)
  }

  /** Each factor multiplies the candidate count by the number of operators:
      2^(n-1) candidates in the first part, 3^(n-1) in the second. */
  lemma {:induction false} CandidatesCount(acc: seq<nat>, rest: seq<nat>, ops: seq<Op>)
    ensures |Candidates(acc, rest, ops)| == |acc| * Pow(|ops|, |rest|)
    decreases |rest|
  {
    if rest != [] {
      CandidatesCount(Tally(acc, rest[0], ops), rest[1..], ops);
      assert |acc| * |ops| * Pow(|ops|, |rest| - 1) == |acc| * (|ops| * Pow(|ops|, |rest| - 1));
    }
  }

  /** Left-to-right evaluation with one operator between each pair; with
      only `+` it is the plain sum. */
  function Eval(a: nat, rest: seq<nat>, choice: seq<Op>): (r: nat)
    requires |choice| == |rest|
    ensures (forall i :: 0 <= i < |choice| ==> choice[i] == Plus) ==> r == a + Sum(rest)
    decreases |rest|
  {
    if rest == [] then a else Eval(Apply(choice[0], a, rest[0]), rest[1..], choice[1..])
  }

  /** Evaluation is strictly left to right, without precedence: the last
      operator is applied last, to the value of everything before it. */
  lemma {:induction false} EvalLast(a: nat, rest: seq<nat>, choice: seq<Op>)
    requires |choice| == |rest| && rest != []
    ensures var n := |rest| - 1;
            Eval(a, rest, choice) == Apply(choice[n], Eval(a, rest[..n], choice[..n]), rest[n])
    decreases |rest|
  {
    var n := |rest| - 1;
    var b := Apply(choice[0], a, rest[0]);
    if n > 0 {
      EvalLast(b, rest[1..], choice[1..]);
      assert rest[..n][1..] == rest[1..][..n - 1];
      assert choice[..n][1..] == choice[1..][..n - 1];
    }
  }

  /** `2 + 3 * 4` evaluates to 20, not 14. */
  lemma EvalExample()
    ensures Eval(2, [3, 4], [Plus, Times]) == 20
  {
    EvalLast(2, [3, 4], [Plus, Times]);
    assert [3, 4][..1] == [3];
  }

  predicate Uses(choice: seq<Op>, ops: seq<Op>) {
    forall i :: 0 <= i < |choice| ==> choice[i] in ops
  }

  /** The candidates are exactly the values reached from some starting
      candidate by some choice of the allowed operators. */
  lemma {:induction false} CandidatesReach(acc: seq<nat>, rest: seq<nat>, ops: seq<Op>, x: nat)
    ensures x in Candidates(acc, rest, ops) <==>
      exists a, choice :: a in acc && |choice| == |rest| && Uses(choice, ops) && Eval(a, rest, choice) == x
    decreases |rest|
  {
    if rest != [] {
      var next := Tally(acc, rest[0], ops);
      CandidatesReach(next, rest[1..], ops, x);
      if x in Candidates(acc, rest, ops) {
        var b, tail :| b in next && |tail| == |rest| - 1 && Uses(tail, ops) && Eval(b, rest[1..], tail) == x;
        ReachFirst(acc, rest, ops, b, tail);
      }
      if exists a, choice :: a in acc && |choice| == |rest| && Uses(choice, ops) && Eval(a, rest, choice) == x {
        var a, choice :| a in acc && |choice| == |rest| && Uses(choice, ops) && Eval(a, rest, choice) == x;
        ReachRest(acc, rest, ops, a, choice);
      }
    }
  }

  /** A value reached from a tallied candidate is reached from the candidate it came from. */
  lemma ReachFirst(acc: seq<nat>, rest: seq<nat>, ops: seq<Op>, b: nat, tail: seq<Op>)
    requires rest != [] && b in Tally(acc, rest[0], ops)
    requires |tail| == |rest| - 1 && Uses(tail, ops)
    ensures exists a, choice :: a in acc && |choice| == |rest| && Uses(choice, ops)
                                && Eval(a, rest, choice) == Eval(b, rest[1..], tail)
  {
    var a, o :| a in acc && o in ops && b == Apply(o, a, rest[0]);
    var choice := [o] + tail;
    assert choice[1..] == tail;
    assert Uses(choice, ops);
    assert Eval(a, rest, choice) == Eval(b, rest[1..], tail);
  }

  /** The first operator of a choice leads to a tallied candidate. */
  lemma ReachRest(acc: seq<nat>, rest: seq<nat>, ops: seq<Op>, a: nat, choice: seq<Op>)
    requires rest != [] && a in acc && |choice| == |rest| && Uses(choice, ops)
    ensures Apply(choice[0], a, rest[0]) in Tally(acc, rest[0], ops)
    ensures Uses(choice[1..], ops)
    ensures Eval(Apply(choice[0], a, rest[0]), rest[1..], choice[1..]) == Eval(a, rest, choice)
  {
    assert choice[0] in ops;
  }

  /** `solve`: fold the factors after the first, then look for the total.
      The source indexes the first factor, so an empty factor list panics. */
  function Solve(total: nat, factors: seq<nat>, ops: seq<Op>): (b: bool)
    requires |factors| >= 1
    ensures |factors| == 1 ==> (b <==> total == factors[0])
  {
    total in Candidates([factors[0]], factors[1..], ops)
  }

  /** Some choice of the allowed operators makes the equation true. */
  ghost predicate Solvable(total: nat, factors: seq<nat>, ops: seq<Op>)
    requires |factors| >= 1
  {
    exists choice :: |choice| == |factors| - 1 && Uses(choice, ops) && Eval(factors[0], factors[1..], choice) == total
  }

  /** `solve` decides exactly whether some operator choice works. */
  lemma SolveIff(total: nat, factors: seq<nat>, ops: seq<Op>)
    requires |factors| >= 1
    ensures Solve(total, factors, ops) <==> Solvable(total, factors, ops)
  {
    CandidatesReach([factors[0]], factors[1..], ops, total);
    if Solvable(total, factors, ops) {
      var choice :| |choice| == |factors| - 1 && Uses(choice, ops) && Eval(factors[0], factors[1..], choice) == total;
      assert factors[0] in [factors[0]];
    }
  }

  /** An equation true with `+` and `*` stays true once `||` is allowed too. */
  lemma MoreOperators(total: nat, factors: seq<nat>)
    requires |factors| >= 1
    ensures Solve(total, factors, PartOneOps) ==> Solve(total, factors, PartTwoOps)
  {
    SolveIff(total, factors, PartOneOps);
    SolveIff(total, factors, PartTwoOps);
    if Solve(total, factors, PartOneOps) {
      var choice :| |choice| == |factors| - 1 && Uses(choice, PartOneOps) && Eval(factors[0], factors[1..], choice) == total;
      assert Uses(choice, PartTwoOps);
    }
  }

  // ---------------------------------------------------------------- the answers

  predicate HasFactors(eqs: seq<Equation>) {
    forall i :: 0 <= i < |eqs| ==> |eqs[i].factors| >= 1
  }

  /** The sum of all totals, true or not. */
  function Totals(eqs: seq<Equation>): nat {
    if eqs == [] then 0 else eqs[0].total + Totals(eqs[1..])
  }

  /** Sum of the totals of the true equations: it counts every true equation's
      total, nothing when none is true, and never more than all totals. */
  function CalibrationSum(eqs: seq<Equation>, ops: seq<Op>): (r: nat)
    requires HasFactors(eqs)
    ensures forall i :: 0 <= i < |eqs| && Solve(eqs[i].total, eqs[i].factors, ops) ==> eqs[i].total <= r
    ensures (forall i :: 0 <= i < |eqs| ==> !Solve(eqs[i].total, eqs[i].factors, ops)) ==> r == 0
    ensures r <= Totals(eqs)
  {
    if eqs == [] then 0
    else (if Solve(eqs[0].total, eqs[0].factors, ops) then eqs[0].total else 0) + CalibrationSum(eqs[1..], ops)
  }

  /** The second part's sum is never below the first's. */
  lemma {:induction false} PartsOrdered(eqs: seq<Equation>)
    requires HasFactors(eqs)
    ensures CalibrationSum(eqs, PartOneOps) <= CalibrationSum(eqs, PartTwoOps)
  {
    if eqs != [] {
      MoreOperators(eqs[0].total, eqs[0].factors);
      PartsOrdered(eqs[1..]);
    }
  }

  // ---------------------------------------------------------------- parsing

  /** One line of `parse_input`: a total before the first ':' (trimmed, a
      u64), then the factors after it; words that are not u64 numbers are
      dropped. A line without ':' or with a bad total gives nothing. */
  function ParseLine(line: string): (r: Option<Equation>)
    ensures Text.SplitOnce(line, ":").None? ==> r.None?
  {
    match Text.SplitOnce(line, ":")
    case None => None
    case Some((head, rest)) =>
      match Text.ParseUnsigned(Text.Trim(head), Text.U64_LIMIT)
      case None => None
      case Some(t) => Some(Equation(t, Text.Naturals(Text.SplitWhitespace(rest), Text.U64_LIMIT)))
  }

  function ParseInput(input: string): seq<Equation> {
    ParseLines(Text.Lines(input))
  }

  function ParseLines(lines: seq<string>): (r: seq<Equation>)
    ensures |r| <= |lines|
  {
    if lines == [] then []
    else match ParseLine(lines[0])
      case None => ParseLines(lines[1..])
      case Some(eq) => [eq] + ParseLines(lines[1..])
  }

  /** The puzzle's line format: `total: f1 f2 ... fn`. */
  function Render(eq: Equation): string {
    Text.ShowNat(eq.total) + ":" + (" " + Text.Unwords(Text.ShowNats(eq.factors)))
  }

  /** A rendered digit string is a word with no white space, no ':' and nothing to trim. */
  lemma ShowNatPlain(n: nat)
    ensures Text.IsWord(Text.ShowNat(n))
    ensures forall j :: 0 <= j < |Text.ShowNat(n)| ==> Text.ShowNat(n)[j] != ':'
    ensures Text.Trim(Text.ShowNat(n)) == Text.ShowNat(n)
  {
    var s := Text.ShowNat(n);
    assert forall j :: 0 <= j < |s| ==> Text.IsDigit(s[j]);
    assert Text.TrimStart(s) == s;
  }

  /** Text without ':' is split off at the ':' that follows it. */
  lemma SplitAfterPlain(head: string, rest: string)
    requires forall j :: 0 <= j < |head| ==> head[j] != ':'
    ensures Text.SplitOnce(head + ":" + rest, ":") == Some((head, rest))
  {
    forall j | 0 <= j < |head|
      ensures !Text.OccursAt(head + ":", j, ":")
    {
      assert (head + ":")[j] == head[j];
    }
    Text.SplitOnceJoin(head, ":", rest);
  }

  /** A line made of a plain total word, ':', a space and words that parse
      to the factors is read back as that equation. */
  lemma ParseJoined(head: string, ws: seq<string>, t: nat, fs: seq<nat>)
    requires forall j :: 0 <= j < |head| ==> head[j] != ':'
    requires Text.ParseUnsigned(Text.Trim(head), Text.U64_LIMIT) == Some(t)
    requires forall i :: 0 <= i < |ws| ==> Text.IsWord(ws[i])
    requires Text.Naturals(ws, Text.U64_LIMIT) == fs
    ensures ParseLine(head + ":" + (" " + Text.Unwords(ws))) == Some(Equation(t, fs))
  {
    var rest := " " + Text.Unwords(ws);
    SplitAfterPlain(head, rest);
    Text.SplitSpaceThen(Text.Unwords(ws));
    Text.SplitUnwords(ws);
    ParseLineOf(head + ":" + rest, head, rest, t, fs);
  }

  lemma ParseLineOf(line: string, head: string, rest: string, t: nat, fs: seq<nat>)
    requires Text.SplitOnce(line, ":") == Some((head, rest))
    requires Text.ParseUnsigned(Text.Trim(head), Text.U64_LIMIT) == Some(t)
    requires Text.Naturals(Text.SplitWhitespace(rest), Text.U64_LIMIT) == fs
    ensures ParseLine(line) == Some(Equation(t, fs))
  {
  }

  /** Parsing a rendered equation with u64 numbers gives it back. */
  lemma ParseRender(eq: Equation)
    requires eq.total < Text.U64_LIMIT
    requires forall i :: 0 <= i < |eq.factors| ==> eq.factors[i] < Text.U64_LIMIT
    ensures ParseLine(Render(eq)) == Some(eq)
  {
    var head := Text.ShowNat(eq.total);
    var ws := Text.ShowNats(eq.factors);
    ShowNatPlain(eq.total);
    Text.ParseShowNat(eq.total, Text.U64_LIMIT);
    forall i | 0 <= i < |ws|
      ensures Text.IsWord(ws[i])
    {
      ShowNatPlain(eq.factors[i]);
    }
    Text.NaturalsShowNats(eq.factors, Text.U64_LIMIT);
    ParseJoined(head, ws, eq.total, eq.factors);
  }

  function Part1(input: string): nat
    requires HasFactors(ParseInput(input))
  {
    CalibrationSum(ParseInput(input), PartOneOps)
  }

  function Part2(input: string): nat
    requires HasFactors(ParseInput(input))
  {
    CalibrationSum(ParseInput(input), PartTwoOps)
  }
}
