/** Reactor reports: a report is a line of levels. It is safe when the levels
    all rise, or all fall, by one to three per step; the Problem Dampener also
    accepts a report that becomes safe once a single level is removed. */
module Reports {
  import opened Common
  import Text

  /** Every step between neighbouring levels rises by one to three. */
  function Rising(r: seq<int>): (b: bool)
    ensures b <==> forall i :: 0 <= i < |r| - 1 ==> 1 <= r[i + 1] - r[i] <= 3
  {
    |r| < 2 || (r[0] <= r[1] && 1 <= r[1] - r[0] <= 3 && Rising(r[1..]))
  }

  /** Every step between neighbouring levels falls by one to three. */
  function Falling(r: seq<int>): (b: bool)
    ensures b <==> forall i :: 0 <= i < |r| - 1 ==> 1 <= r[i] - r[i + 1] <= 3
  {
    |r| < 2 || (r[0] >= r[1] && 1 <= r[0] - r[1] <= 3 && Falling(r[1..]))
  }

  /** `is_safe`. A report with fewer than two levels has no steps and is safe;
      two equal neighbours make a report unsafe. */
  function IsSafe(r: seq<int>): (b: bool)
    ensures |r| < 2 ==> b
    ensures (exists i :: 0 <= i < |r| - 1 && r[i] == r[i + 1]) ==> !b
  {
    Rising(r) || Falling(r)
  }

  function Reverse(r: seq<int>): (v: seq<int>)
    ensures |v| == |r| && forall i :: 0 <= i < |r| ==> v[i] == r[|r| - 1 - i]
  {
    if r == [] then [] else Reverse(r[1..]) + [r[0]]
  }

  /** Reading a report backwards turns a rise into a fall. */
  lemma RisingReversed(r: seq<int>)
    ensures Rising(Reverse(r)) == Falling(r)
  {
    var v := Reverse(r);
    if Falling(r) {
      forall i | 0 <= i < |v| - 1
        ensures 1 <= v[i + 1] - v[i] <= 3
      {
        assert v[i] == r[|r| - 1 - i] && v[i + 1] == r[|r| - 2 - i];
      }
    }
    if Rising(v) {
      forall j | 0 <= j < |r| - 1
        ensures 1 <= r[j] - r[j + 1] <= 3
      {
        var i := |r| - 2 - j;
        assert v[i] == r[j + 1] && v[i + 1] == r[j];
      }
    }
  }

  /** Reading a report backwards turns a fall into a rise. */
  lemma FallingReversed(r: seq<int>)
    ensures Falling(Reverse(r)) == Rising(r)
  {
    var v := Reverse(r);
    if Rising(r) {
      forall i | 0 <= i < |v| - 1
        ensures 1 <= v[i] - v[i + 1] <= 3
      {
        assert v[i] == r[|r| - 1 - i] && v[i + 1] == r[|r| - 2 - i];
      }
    }
    if Falling(v) {
      forall j | 0 <= j < |r| - 1
        ensures 1 <= r[j + 1] - r[j] <= 3
      {
        var i := |r| - 2 - j;
        assert v[i] == r[j + 1] && v[i + 1] == r[j];
      }
    }
  }

  /** Safety does not depend on the direction in which a report is read. */
  lemma SafeReversed(r: seq<int>)
    ensures IsSafe(Reverse(r)) == IsSafe(r)
  {
    RisingReversed(r);
    FallingReversed(r);
  }

  /** The report without the level at index `i`. */
  function Remove(r: seq<int>, i: nat): (v: seq<int>)
    requires i < |r|
    ensures |v| == |r| - 1
    ensures forall j :: 0 <= j < |v| ==> v[j] == if j < i then r[j] else r[j + 1]
  {
    r[..i] + r[i + 1..]
  }

  /** Is some report with one level removed, from index `from` on, safe? */
  function DampenedFrom(r: seq<int>, from: nat): (b: bool)
    decreases |r| - from
    ensures b <==> exists i :: from <= i < |r| && IsSafe(Remove(r, i))
  {
    if from >= |r| then false else IsSafe(Remove(r, from)) || DampenedFrom(r, from + 1)
  }

  /** Safe after removing a single level. */
  function Dampened(r: seq<int>): (b: bool)
    ensures b <==> exists i :: 0 <= i < |r| && IsSafe(Remove(r, i))
  {
    DampenedFrom(r, 0)
  }

  /** `is_safe_after_dampen`: remove each level in turn from a working copy,
      test it, and put the level back before trying the next one. */
  method SafeAfterDampen(report: seq<int>) returns (ok: bool)
    ensures ok <==> exists i :: 0 <= i < |report| && IsSafe(Remove(report, i))
  {
    var work := report;
    for i := 0 to |report|
      invariant work == report
      invariant forall j :: 0 <= j < i ==> !IsSafe(Remove(report, j))
    {
      var removed := work[i];
      work := work[..i] + work[i + 1..];
      assert work == Remove(report, i);
      if IsSafe(work) {
        return true;
      }
      work := work[..i] + [removed] + work[i..];
      assert work == report by {
        assert work[..i] == report[..i];
        assert work[i + 1..] == report[i + 1..];
      }
    }
    return false;
  }

  /** A safe report with at least one level stays safe without its first
      level, so the dampener alone decides part two except for the empty
      report, which it refuses and the plain test accepts. */
  lemma CountedIff(r: seq<int>)
    ensures !Dampened([])
    ensures IsSafe(r) || Dampened(r) <==> r == [] || Dampened(r)
  {
    if IsSafe(r) && r != [] {
      assert Remove(r, 0) == r[1..];
      assert IsSafe(r[1..]) by {
        if |r| >= 2 {
          assert Rising(r) ==> Rising(r[1..]);
          assert Falling(r) ==> Falling(r[1..]);
        }
      }
    }
  }

  /** The levels of one line: white-space separated words that parse as
      32-bit integers; other words are dropped. */
  function Report(line: string): (r: seq<int>)
    ensures |r| <= |Text.SplitWhitespace(line)|
  {
    Levels(Text.SplitWhitespace(line))
  }

  function Levels(ws: seq<string>): (r: seq<int>)
    ensures |r| <= |ws|
    ensures forall i :: 0 <= i < |r| ==> -(Text.I32_LIMIT as int) <= r[i] < Text.I32_LIMIT
  {
    if ws == [] then []
    else match Text.ParseSigned(ws[0], Text.I32_LIMIT)
      case None => Levels(ws[1..])
      case Some(n) => [n] + Levels(ws[1..])
  }

  /** How many reports pass `test`. */
  function Count(reports: seq<seq<int>>, test: seq<int> -> bool): (n: nat)
    ensures n <= |reports|
  {
    if reports == [] then 0 else (if test(reports[0]) then 1 else 0) + Count(reports[1..], test)
  }

  /** A test that accepts at least what another accepts counts at least as many reports. */
  lemma {:induction false} CountMonotone(reports: seq<seq<int>>, weak: seq<int> -> bool, strong: seq<int> -> bool)
    requires forall r :: strong(r) ==> weak(r)
    ensures Count(reports, strong) <= Count(reports, weak)
  {
    if reports != [] {
      CountMonotone(reports[1..], weak, strong);
    }
  }

  predicate Tolerated(r: seq<int>) {
    IsSafe(r) || Dampened(r)
  }

  function Part1(input: string): nat {
    Count(Reports(Text.Lines(input)), IsSafe)
  }

  function Part2(input: string): nat {
    Count(Reports(Text.Lines(input)), Tolerated)
  }

  function Reports(lines: seq<string>): (rs: seq<seq<int>>)
    ensures |rs| == |lines| && forall i :: 0 <= i < |lines| ==> rs[i] == Report(lines[i])
  {
    if lines == [] then [] else [Report(lines[0])] + Reports(lines[1..])
  }

  /** The dampener never turns a safe report unsafe, so part two counts at
      least as many reports as part one. */
  lemma PartsOrdered(input: string)
    ensures Part1(input) <= Part2(input)
  {
    CountMonotone(Reports(Text.Lines(input)), Tolerated, IsSafe);
  }
}
