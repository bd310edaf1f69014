/** The safety manual's print queue: ordering rules `a|b` say page `a` must be
    printed before page `b` when both are in an update. Correct updates score
    their middle page; incorrect ones are re-ordered by the rules first. */
module Manual {
  import opened Common

  type Rule = (nat, nat)

  /** The parsed manual. The update parser reads at least one page per update. */
  datatype Manual = Manual(rules: seq<Rule>, updates: seq<seq<nat>>)

  // ---------------------------------------------------------------- checking

  /** `position`: index of the first occurrence of `x`. */
  function Position(u: seq<nat>, x: nat): (r: Option<nat>)
    ensures r.Some? ==> r.value < |u| && u[r.value] == x && forall j :: 0 <= j < r.value ==> u[j] != x
    ensures r.None? <==> x !in u
  {
    if u == [] then None
    else if u[0] == x then Some(0)
    else match Position(u[1..], x)
      case None => None
      case Some(i) => Some(i + 1)
  }

  /** One rule holds of an update: it names a page the update lacks, or the
      first `a` comes before the first `b`. */
  predicate RuleHolds(rule: Rule, u: seq<nat>) {
    match (Position(u, rule.0), Position(u, rule.1))
    case (Some(before), Some(after)) => before < after
    case _ => true
  }

  /** `valid_update`: all rules hold. */
  function ValidUpdate(rules: seq<Rule>, u: seq<nat>): (r: bool)
    ensures r <==> forall i :: 0 <= i < |rules| ==> RuleHolds(rules[i], u)
  {
    if rules == [] then true else RuleHolds(rules[0], u) && ValidUpdate(rules[1..], u)
  }

  /** No page is followed, at the same or a later index, by a page a rule
      wants before it. */
  ghost predicate NoInversion(rules: seq<Rule>, u: seq<nat>) {
    forall i, j :: 0 <= i <= j < |u| ==> (u[j], u[i]) !in rules
  }

  predicate Distinct(u: seq<nat>) {
    forall i, j :: 0 <= i < j < |u| ==> u[i] != u[j]
  }

  /** In an update without repeated pages, the first position of a page is its position. */
  lemma PositionOfDistinct(u: seq<nat>, i: nat)
    requires Distinct(u) && i < |u|
    ensures Position(u, u[i]) == Some(i)
  {
    var p := Position(u, u[i]);
    assert u[i] in u;
    assert u[p.value] == u[i];
  }

  /** For an update without repeated pages, validity is the absence of an
      inverted pair: no page has, at or after it, a page a rule puts first. */
  lemma ValidIffNoInversion(rules: seq<Rule>, u: seq<nat>)
    requires Distinct(u)
    ensures ValidUpdate(rules, u) <==> NoInversion(rules, u)
  {
    if ValidUpdate(rules, u) {
      forall i, j | 0 <= i <= j < |u|
        ensures (u[j], u[i]) !in rules
      {
        PositionOfDistinct(u, i);
        PositionOfDistinct(u, j);
        forall k | 0 <= k < |rules|
          ensures rules[k] != (u[j], u[i])
        {
          assert RuleHolds(rules[k], u);
        }
      }
    }
    if NoInversion(rules, u) {
      forall k | 0 <= k < |rules|
        ensures RuleHolds(rules[k], u)
      {
        var (a, b) := rules[k];
        if Position(u, a).Some? && Position(u, b).Some? {
          var p, q := Position(u, a).value, Position(u, b).value;
          assert rules[k] == (u[p], u[q]);
          assert (u[p], u[q]) in rules;
        }
      }
    }
  }

  /** With no rules every update is correct. */
  lemma NoRulesAllValid(u: seq<nat>)
    ensures ValidUpdate([], u)
  {
  }

  /** A rule that names a page the update lacks does not affect its validity. */
  lemma AbsentPageRule(rules: seq<Rule>, rule: Rule, u: seq<nat>)
    requires rule.0 !in u || rule.1 !in u
    ensures ValidUpdate([rule] + rules, u) == ValidUpdate(rules, u)
  {
    assert ([rule] + rules)[1..] == rules;
  }

  // ---------------------------------------------------------------- re-ordering

  datatype Ordering = Less | Equal | Greater

  /** The comparator of `fix_order`: `Less` if the rules put `a` first, else
      `Greater` if they put `b` first, else `Equal`. */
  function Compare(rules: seq<Rule>, a: nat, b: nat): (o: Ordering)
    ensures o == Less <==> (a, b) in rules
    ensures o == Greater <==> (a, b) !in rules && (b, a) in rules
  {
    if (a, b) in rules then Less else if (b, a) in rules then Greater else Equal
  }

  /** A pair the comparator puts one way round, it does not put the other way round. */
  lemma CompareFlips(rules: seq<Rule>, a: nat, b: nat)
    ensures Compare(rules, a, b) == Greater ==> Compare(rules, b, a) == Less
  {
  }

  /** No neighbouring pair compares `Greater`. */
  predicate Settled(rules: seq<Rule>, s: seq<nat>) {
    forall i :: 0 <= i < |s| - 1 ==> Compare(rules, s[i], s[i + 1]) != Greater
  }

  /** Place `x` in front of the first page it does not compare `Greater` with. */
  function Insert(rules: seq<Rule>, x: nat, s: seq<nat>): (r: seq<nat>)
    ensures multiset(r) == multiset(s) + multiset{x}
    ensures |r| == |s| + 1
    ensures r != [] && (r[0] == x || (s != [] && r[0] == s[0]))
    ensures Settled(rules, s) ==> Settled(rules, r)
  {
    if s == [] then [x]
    else if Compare(rules, x, s[0]) == Greater then
      var rest := Insert(rules, x, s[1..]);
      CompareFlips(rules, x, s[0]);
      assert s == [s[0]] + s[1..];
      [s[0]] + rest
    else [x] + s
  }

  /** An empty update names no page, so every rule holds of it: the second
      part, which takes only invalid updates, never asks for its middle. */
  lemma EmptyUpdateValid(rules: seq<Rule>)
    ensures ValidUpdate(rules, [])
  {
    forall i | 0 <= i < |rules|
      ensures RuleHolds(rules[i], [])
    {
      assert Position([], rules[i].0).None?;
    }
  }

  /** `fix_order`. The source sorts with the library's `sort_by`, whose order
      is unspecified (and which may panic) when the rules do not order the
      update's pages totally; this insertion sort with the same comparator
      agrees with it when they do (`TotalOn`), where the sorted order is
      unique and `FixOrderValid` shows it valid. Otherwise the model returns
      its own insertion-sort result. */
  function FixOrder(rules: seq<Rule>, u: seq<nat>): (r: seq<nat>)
    ensures multiset(r) == multiset(u)
    ensures |r| == |u|
    ensures Settled(rules, r)
  {
    if u == [] then []
    else
      assert u == [u[0]] + u[1..];
      Insert(rules, u[0], FixOrder(rules, u[1..]))
  }

  /** The rules order the pages of `u` strictly and totally: of two different
      pages exactly one rule names them, the rules chain, and no page is ruled
      before itself. */
  ghost predicate TotalOn(rules: seq<Rule>, u: seq<nat>) {
    (forall a, b :: a in u && b in u && a != b ==> ((a, b) in rules <==> (b, a) !in rules))
    && (forall a, b, c :: a in u && b in u && c in u && (a, b) in rules && (b, c) in rules ==> (a, c) in rules)
    && (forall a :: a in u ==> (a, a) !in rules)
  }

  /** A settled sequence of distinct pages under a strict total order is in rule order. */
  lemma {:induction false} SettledChains(rules: seq<Rule>, s: seq<nat>, u: seq<nat>, i: nat, j: nat)
    requires Distinct(s) && Settled(rules, s) && TotalOn(rules, u)
    requires forall k :: 0 <= k < |s| ==> s[k] in u
    requires i < j < |s|
    ensures (s[i], s[j]) in rules
    decreases j - i
  {
    assert s[i] != s[i + 1];
    assert Compare(rules, s[i], s[i + 1]) != Greater;
    if j > i + 1 {
      SettledChains(rules, s, u, i + 1, j);
    }
  }

  /** Distinct pages are still distinct after re-ordering. */
  lemma DistinctPermutation(u: seq<nat>, r: seq<nat>)
    requires Distinct(u) && multiset(r) == multiset(u)
    ensures Distinct(r)
  {
    forall i, j | 0 <= i < j < |r|
      ensures r[i] != r[j]
    {
      if r[i] == r[j] {
        assert multiset(r)[r[i]] >= 2 by {
          assert r == r[..i] + [r[i]] + r[i + 1..j] + [r[j]] + r[j + 1..];
        }
        MultiplicityDistinct(u, r[i]);
      }
    }
  }

  /** A page occurs at most once in an update without repeats. */
  lemma {:induction false} MultiplicityDistinct(u: seq<nat>, x: nat)
    requires Distinct(u)
    ensures multiset(u)[x] <= 1
  {
    if u != [] {
      assert u == [u[0]] + u[1..];
      MultiplicityDistinct(u[1..], x);
      if u[0] == x {
        assert x !in u[1..];
      }
    }
  }

  /** When the rules order an update's pages strictly and totally, as the
      puzzle's rules do, the re-ordered update is correct. */
  lemma FixOrderValid(rules: seq<Rule>, u: seq<nat>)
    requires Distinct(u) && TotalOn(rules, u)
    ensures ValidUpdate(rules, FixOrder(rules, u))
  {
    var r := FixOrder(rules, u);
    DistinctPermutation(u, r);
    forall k | 0 <= k < |r|
      ensures r[k] in u
    {
      assert r[k] in multiset(r);
    }
    forall i, j | 0 <= i <= j < |r|
      ensures (r[j], r[i]) !in rules
    {
      if i < j {
        SettledChains(rules, r, u, i, j);
      }
    }
    ValidIffNoInversion(rules, r);
  }

  // ---------------------------------------------------------------- the answers

  /** The middle page: as many pages stand before it as after it, or one
      more before it when the update has an even length. */
  function Middle(u: seq<nat>): (r: nat)
    requires u != []
    ensures r in u
    ensures exists i :: 0 <= i < |u| && u[i] == r && (i == |u| - 1 - i || i == |u| - i)
  {
    u[|u| / 2]
  }

  /** The first `process`: middle pages of the correct updates. */
  function CorrectSum(rules: seq<Rule>, updates: seq<seq<nat>>): nat
    requires forall k :: 0 <= k < |updates| ==> updates[k] != []
  {
    if updates == [] then 0
    else (if ValidUpdate(rules, updates[0]) then Middle(updates[0]) else 0) + CorrectSum(rules, updates[1..])
  }

  /** The second `process`: middle pages of the incorrect updates after
      re-ordering. An empty update is correct, so it is never indexed. */
  function FixedSum(rules: seq<Rule>, updates: seq<seq<nat>>): nat {
    if updates == [] then 0
    else
      EmptyUpdateValid(rules);
      (if ValidUpdate(rules, updates[0]) then 0 else Middle(FixOrder(rules, updates[0]))) + FixedSum(rules, updates[1..])
  }

  /** Middle page of an update once it is in order: as is when correct, re-ordered otherwise. */
  function OrderedMiddle(rules: seq<Rule>, u: seq<nat>): nat
    requires u != []
  {
    if ValidUpdate(rules, u) then Middle(u) else Middle(FixOrder(rules, u))
  }

  function OrderedSum(rules: seq<Rule>, updates: seq<seq<nat>>): nat
    requires forall k :: 0 <= k < |updates| ==> updates[k] != []
  {
    if updates == [] then 0 else OrderedMiddle(rules, updates[0]) + OrderedSum(rules, updates[1..])
  }

  /** Each update scores in exactly one of the two parts: together they sum
      the middle page of every update once it is in order. */
  lemma {:induction false} PartsPartition(rules: seq<Rule>, updates: seq<seq<nat>>)
    requires forall k :: 0 <= k < |updates| ==> updates[k] != []
    ensures CorrectSum(rules, updates) + FixedSum(rules, updates) == OrderedSum(rules, updates)
  {
    if updates != [] {
      PartsPartition(rules, updates[1..]);
    }
  }

  /** Without rules every update is correct: the first part sums every middle
      page and the second part is zero. */
  lemma {:induction false} NoRulesSums(updates: seq<seq<nat>>)
    requires forall k :: 0 <= k < |updates| ==> updates[k] != []
    ensures FixedSum([], updates) == 0
    ensures CorrectSum([], updates) == OrderedSum([], updates)
  {
    if updates != [] {
      NoRulesSums(updates[1..]);
    }
  }

  function Part1(m: Manual): nat
    requires forall k :: 0 <= k < |m.updates| ==> m.updates[k] != []
  {
    CorrectSum(m.rules, m.updates)
  }

  function Part2(m: Manual): nat {
    FixedSum(m.rules, m.updates)
  }
}
