/** Plutonian pebbles: at every blink each stone is replaced, in place, by the
    stones its number dictates. The first part keeps the row as a list; the
    second keeps only a counter from stone numbers to how many stones carry
    them, which loses the order but not the number of stones. */
module Stones {
  import opened Common
  import Text

  // ---------------------------------------------------------------- one stone

  /** What one stone becomes: 0 becomes 1; a number with an even count `k`
      of digits splits into its first and last `k / 2` digits; any other
      number is multiplied by 2024. */
  function Rule(n: nat): (r: seq<nat>)
    ensures |r| == 1 || |r| == 2
    ensures n == 0 ==> r == [1]
    ensures |r| == 2 <==> n != 0 && Digits(n) % 2 == 0
    ensures |r| == 1 && n != 0 ==> r == [n * 2024]
  {
    if n == 0 then [1]
    else if Digits(n) % 2 == 0 then
      var divisor := Pow10(Digits(n) / 2);
      [n / divisor, n % divisor]
    else [n * 2024]
  }

  /** The halves of a split put back together give the number: the right
      half is the remainder below the divisor 10^(k/2). */
  lemma SplitRecombines(n: nat)
    requires n != 0 && Digits(n) % 2 == 0
    ensures Rule(n)[0] * Pow10(Digits(n) / 2) + Rule(n)[1] == n
    ensures Rule(n)[1] < Pow10(Digits(n) / 2)
  {
  }

  /** Both halves of a split have exactly half the digits, except that the
      right half loses its leading zeros. */
  lemma SplitHalves(n: nat)
    requires n != 0 && Digits(n) % 2 == 0
    ensures Digits(Rule(n)[0]) == Digits(n) / 2
    ensures Digits(Rule(n)[1]) <= Digits(n) / 2
  {
    var h := Digits(n) / 2;
    var r := Rule(n);
    var p := Pow10(h);
    SplitRecombines(n);
    assert n < p * p && Pow10(h - 1) * p <= n by {
      Pow10Add(h, h);
      Pow10Add(h - 1, h);
    }
    HalfBounds(n, r[0], r[1], p, Pow10(h - 1));
    DigitsUnique(r[0], h);
    DigitsAtMost(r[1], h);
  }

  /** The quotient by `p` of a number below `p * p` and at least `lo * p`
      lies from `lo` to below `p`. */
  lemma HalfBounds(n: nat, q: nat, r: nat, p: nat, lo: nat)
    requires n == q * p + r && r < p
    requires n < p * p && lo * p <= n
    ensures lo <= q < p
  {
    MulCancel(q, p, p);
    assert (q + 1) * p == q * p + p;
    MulCancel(lo, q + 1, p);
  }

  /** Multiplying by the same positive number keeps strict order apart. */
  lemma MulCancel(a: nat, b: nat, p: nat)
    ensures a * p < b * p ==> a < b
  {
    if b <= a {
      assert a * p - b * p == (a - b) * p;
    }
  }

  lemma DigitsAtMost(m: nat, k: nat)
    requires k >= 1 && m < Pow10(k)
    ensures Digits(m) <= k
  {
    Pow10Grows(k, Digits(m) - 1);
  }

  lemma {:induction false} Pow10Grows(a: nat, b: nat)
    ensures a <= b ==> Pow10(a) <= Pow10(b)
    decreases b
  {
    if a < b {
      Pow10Grows(a, b - 1);
    }
  }

  // ---------------------------------------------------------------- the row

  /** One blink over the whole row, each stone's replacements in its place. */
  function Blink(stones: seq<nat>): (r: seq<nat>)
    ensures |stones| <= |r| <= 2 * |stones|
  {
    if stones == [] then [] else Rule(stones[0]) + Blink(stones[1..])
  }

  /** Blinking a row is blinking its parts. */
  lemma {:induction false} BlinkAppend(a: seq<nat>, b: seq<nat>)
    ensures Blink(a + b) == Blink(a) + Blink(b)
  {
    if a == [] {
      assert a + b == b;
    } else {
      assert (a + b)[0] == a[0] && (a + b)[1..] == a[1..] + b;
      BlinkAppend(a[1..], b);
    }
  }

  /** How many stones of the row split at this blink. */
  function Splitting(stones: seq<nat>): (k: nat)
    ensures k <= |stones|
  {
    if stones == [] then 0
    else (if stones[0] != 0 && Digits(stones[0]) % 2 == 0 then 1 else 0) + Splitting(stones[1..])
  }

  /** A blink adds one stone for every stone that splits. */
  lemma {:induction false} BlinkLength(stones: seq<nat>)
    ensures |Blink(stones)| == |stones| + Splitting(stones)
  {
    if stones != [] {
      BlinkLength(stones[1..]);
    }
  }

  /** `successors(..).nth(k)`: the row after `k` blinks. */
  function Blinks(stones: seq<nat>, k: nat): (r: seq<nat>)
    ensures |r| >= |stones|
    decreases k
  {
    if k == 0 then stones else Blinks(Blink(stones), k - 1)
  }

  /** The row never shrinks from one blink to the next. */
  lemma {:induction false} BlinksGrow(stones: seq<nat>, j: nat, k: nat)
    requires j <= k
    ensures |Blinks(stones, j)| <= |Blinks(stones, k)|
    decreases j
  {
    if j > 0 {
      BlinksGrow(Blink(stones), j - 1, k - 1);
    }
  }

  /** `MagicStones::from`: the white-space separated words that are u64 numbers. */
  function Parse(input: string): (r: seq<nat>)
    ensures forall i :: 0 <= i < |r| ==> r[i] < Text.U64_LIMIT
  {
    Text.Naturals(Text.SplitWhitespace(input), Text.U64_LIMIT)
  }

  /** The first part: stones after 25 blinks. */
  function Part1(input: string): nat {
    |Blinks(Parse(input), 25)|
  }

  // ---------------------------------------------------------------- by multiset

  /** What a bag of stones becomes at a blink, stone by stone. */
  ghost function Image(m: multiset<nat>): multiset<nat>
    decreases |m|
  {
    if m == multiset{} then multiset{}
    else
      var x :| x in m;
      multiset(Rule(x)) + Image(m - multiset{x})
  }

  /** Any stone of the bag may be taken first. */
  lemma {:induction false} ImageRemove(m: multiset<nat>, y: nat)
    requires y in m
    ensures Image(m) == multiset(Rule(y)) + Image(m - multiset{y})
    decreases |m|, 1
  {
    var x :| x in m && Image(m) == multiset(Rule(x)) + Image(m - multiset{x});
    if x != y {
      ImageSwap(m, x, y);
    }
  }

  /** Taking `x` then `y` out of the bag leaves what taking `y` then `x` leaves. */
  lemma {:induction false} ImageSwap(m: multiset<nat>, x: nat, y: nat)
    requires x in m && y in m && x != y
    ensures multiset(Rule(x)) + Image(m - multiset{x}) == multiset(Rule(y)) + Image(m - multiset{y})
    decreases |m|, 0
  {
    var both := m - multiset{x} - multiset{y};
    var rx, ry := multiset(Rule(x)), multiset(Rule(y));
    assert Image(m - multiset{x}) == ry + Image(both) by {
      ImageRemove(m - multiset{x}, y);
    }
    assert Image(m - multiset{y}) == rx + Image(both) by {
      assert m - multiset{y} - multiset{x} == both;
      ImageRemove(m - multiset{y}, x);
    }
    assert rx + (ry + Image(both)) == ry + (rx + Image(both));
  }

  /** The image of a union is the union of the images. */
  lemma {:induction false} ImageUnion(a: multiset<nat>, b: multiset<nat>)
    ensures Image(a + b) == Image(a) + Image(b)
    decreases |a|
  {
    if a != multiset{} {
      var x :| x in a;
      var rest := a - multiset{x};
      var rx := multiset(Rule(x));
      assert a + b - multiset{x} == rest + b;
      ImageRemove(a + b, x);
      assert Image(a + b) == rx + Image(rest + b);
      ImageRemove(a, x);
      ImageUnion(rest, b);
      assert rx + (Image(rest) + Image(b)) == (rx + Image(rest)) + Image(b);
    } else {
      assert a + b == b;
    }
  }

  /** The row's blink has the bag's image as its multiset: the order of the
      row does not matter to what it becomes. */
  lemma {:induction false} BlinkImage(stones: seq<nat>)
    ensures multiset(Blink(stones)) == Image(multiset(stones))
  {
    if stones != [] {
      assert stones == [stones[0]] + stones[1..];
      BlinkImage(stones[1..]);
      ImageRemove(multiset(stones), stones[0]);
      assert multiset(stones) - multiset{stones[0]} == multiset(stones[1..]);
    }
  }

  // ---------------------------------------------------------------- the counter

  /** `n` stones carrying the number `x`. */
  function Copies(x: nat, n: nat): (m: multiset<nat>)
    ensures m[x] == n && forall y :: y != x ==> m[y] == 0
  {
    multiset{}[x := n]
  }

  /** The count the counter holds for `x`; a missing entry counts none. */
  function Get(c: map<nat, nat>, x: nat): nat {
    if x in c then c[x] else 0
  }

  /** The bag of stones a counter stands for. */
  ghost function Content(c: map<nat, nat>): multiset<nat>
    decreases |c.Keys|
  {
    if c.Keys == {} then multiset{}
    else
      var k :| k in c.Keys;
      Content(c - {k}) + Copies(k, c[k])
  }

  /** A counter holds, for every number, how many stones of its bag carry it. */
  lemma {:induction false} ContentCount(c: map<nat, nat>, x: nat)
    ensures Content(c)[x] == Get(c, x)
    decreases |c.Keys|
  {
    if c.Keys != {} {
      var k :| k in c.Keys && Content(c) == Content(c - {k}) + Copies(k, c[k]);
      assert |(c - {k}).Keys| < |c.Keys| by {
        assert (c - {k}).Keys < c.Keys;
        ProperSubsetCard((c - {k}).Keys, c.Keys);
      }
      ContentCount(c - {k}, x);
      assert Get(c, x) == Get(c - {k}, x) + Copies(k, c[k])[x];
    }
  }

  /** Two counters stand for the same bag exactly when they agree on every count. */
  lemma ContentEqual(c: map<nat, nat>, m: multiset<nat>)
    requires forall x :: Get(c, x) == m[x]
    ensures Content(c) == m
  {
    forall x
      ensures Content(c)[x] == m[x]
    {
      ContentCount(c, x);
    }
  }

  /** `entry(x).and_modify(|v| *v += n).or_insert(n)`. */
  function Bump(c: map<nat, nat>, x: nat, n: nat): (r: map<nat, nat>)
    ensures Get(r, x) == Get(c, x) + n
    ensures forall y :: y != x ==> Get(r, y) == Get(c, y)
    ensures r.Keys == c.Keys + {x}
  {
    c[x := Get(c, x) + n]
  }

  lemma BumpContent(c: map<nat, nat>, x: nat, n: nat)
    ensures Content(Bump(c, x, n)) == Content(c) + Copies(x, n)
  {
    var r := Bump(c, x, n);
    forall y
      ensures Get(r, y) == (Content(c) + Copies(x, n))[y]
    {
      ContentCount(c, y);
    }
    ContentEqual(r, Content(c) + Copies(x, n));
  }

  /** The counter of `MagicStones::from`: one bump per stone. */
  function Count(stones: seq<nat>): (c: map<nat, nat>)
    ensures forall x :: Get(c, x) == multiset(stones)[x]
  {
    if stones == [] then map[]
    else
      var c := Bump(Count(stones[..|stones| - 1]), stones[|stones| - 1], 1);
      assert stones == stones[..|stones| - 1] + [stones[|stones| - 1]];
      c
  }

  /** The part of the counter whose keys are in `keys`. */
  function Restrict(c: map<nat, nat>, keys: set<nat>): (r: map<nat, nat>)
    requires keys <= c.Keys
    ensures r.Keys == keys && forall x :: x in keys ==> r[x] == c[x]
  {
    map x | x in keys :: c[x]
  }

  /** Taking one key out of a counter takes its copies out of the bag. */
  lemma ContentSplit(c: map<nat, nat>, keys: set<nat>, k: nat)
    requires k in keys && keys <= c.Keys
    ensures Content(Restrict(c, keys)) == Content(Restrict(c, keys - {k})) + Copies(k, c[k])
  {
    var a, b := Restrict(c, keys), Restrict(c, keys - {k});
    forall y
      ensures Get(a, y) == (Content(b) + Copies(k, c[k]))[y]
    {
      ContentCount(b, y);
    }
    ContentEqual(a, Content(b) + Copies(k, c[k]));
  }

  /** `n` stones carrying `x` turn into `n` copies of each stone `x` becomes. */
  function RuleCopies(x: nat, n: nat): (m: multiset<nat>) {
    var r := Rule(x);
    if |r| == 1 then Copies(r[0], n) else Copies(r[0], n) + Copies(r[1], n)
  }

  lemma {:induction false} ImageCopies(x: nat, n: nat)
    ensures Image(Copies(x, n)) == RuleCopies(x, n)
  {
    if n == 0 {
      assert Copies(x, 0) == multiset{};
      assert RuleCopies(x, 0) == multiset{} by {
        RuleCopiesStep(x, 0);
      }
    } else {
      var prev := Image(Copies(x, n - 1));
      var one := Image(multiset{x});
      assert Image(Copies(x, n)) == prev + one by {
        assert Copies(x, n) == Copies(x, n - 1) + multiset{x};
        ImageUnion(Copies(x, n - 1), multiset{x});
      }
      assert prev == RuleCopies(x, n - 1) by {
        ImageCopies(x, n - 1);
      }
      assert one == multiset(Rule(x)) by {
        ImageOne(x);
      }
      assert RuleCopies(x, n) == RuleCopies(x, n - 1) + multiset(Rule(x)) by {
        RuleCopiesStep(x, n);
      }
    }
  }

  lemma ImageOne(x: nat)
    ensures Image(multiset{x}) == multiset(Rule(x))
  {
    ImageRemove(multiset{x}, x);
    assert multiset{x} - multiset{x} == multiset{};
  }

  /** One more stone carrying `x` adds one more of each stone it becomes. */
  lemma RuleCopiesStep(x: nat, n: nat)
    ensures n == 0 ==> RuleCopies(x, n) == multiset{}
    ensures n > 0 ==> RuleCopies(x, n) == RuleCopies(x, n - 1) + multiset(Rule(x))
  {
    var r := Rule(x);
    CopiesStep(r[0], n);
    if |r| == 1 {
      assert multiset(r) == multiset{r[0]} by {
        assert r == [r[0]];
      }
    } else {
      CopiesStep(r[1], n);
      assert multiset(r) == multiset{r[0]} + multiset{r[1]} by {
        assert r == [r[0]] + [r[1]];
      }
    }
  }

  lemma CopiesStep(a: nat, n: nat)
    ensures n == 0 ==> Copies(a, n) == multiset{}
    ensures n > 0 ==> Copies(a, n) == Copies(a, n - 1) + multiset{a}
  {
  }


  /** Add the replacements of `n` stones carrying `x` to the new counter. */
  method AddReplacements(next: map<nat, nat>, x: nat, n: nat) returns (r: map<nat, nat>)
    ensures Content(r) == Content(next) + Image(Copies(x, n))
  {
    ImageCopies(x, n);
    var rule := Rule(x);
    r := Bump(next, rule[0], n);
    BumpContent(next, rule[0], n);
    if |rule| == 2 {
      var before := r;
      r := Bump(r, rule[1], n);
      BumpContent(before, rule[1], n);
    }
  }

  /** One blink of the counter: every entry's count carried to what its
      number becomes, entries visited in any order. */
  method BlinkCounter(c: map<nat, nat>) returns (next: map<nat, nat>)
    ensures Content(next) == Image(Content(c))
  {
    next := map[];
    var todo := c.Keys;
    CarriedStart(c);
    while todo != {}
      invariant todo <= c.Keys
      invariant Carried(c, todo, next)
      decreases |todo|
    {
      var k;
      k, next := CarryOne(c, todo, next);
      todo := todo - {k};
    }
    CarriedEnd(c, next);
  }

  /** Carry the count of one entry still to visit. */
  method CarryOne(c: map<nat, nat>, todo: set<nat>, next: map<nat, nat>) returns (k: nat, after: map<nat, nat>)
    requires todo != {} && todo <= c.Keys
    requires Carried(c, todo, next)
    ensures k in todo && Carried(c, todo - {k}, after)
  {
    k :| k in todo;
    after := AddReplacements(next, k, c[k]);
    CounterStep(c, todo, k, next, after);
  }

  /** The new counter and the entries still to visit together stand for the
      blink of the whole bag. */
  ghost predicate Carried(c: map<nat, nat>, todo: set<nat>, next: map<nat, nat>)
    requires todo <= c.Keys
  {
    Content(next) + Image(Content(Restrict(c, todo))) == Image(Content(c))
  }

  lemma CarriedStart(c: map<nat, nat>)
    ensures Carried(c, c.Keys, map[])
  {
    assert Restrict(c, c.Keys) == c;
    assert Content(map[]) == multiset{};
  }

  lemma CarriedEnd(c: map<nat, nat>, next: map<nat, nat>)
    requires Carried(c, {}, next)
    ensures Content(next) == Image(Content(c))
  {
    assert Restrict(c, {}) == map[];
    assert Content(map[]) == multiset{};
  }

  /** Carrying one more entry keeps the new counter and the entries still to
      visit together equal to the blink of the whole bag. */
  lemma CounterStep(c: map<nat, nat>, todo: set<nat>, k: nat, next: map<nat, nat>, after: map<nat, nat>)
    requires k in todo && todo <= c.Keys
    requires Carried(c, todo, next)
    requires Content(after) == Content(next) + Image(Copies(k, c[k]))
    ensures Carried(c, todo - {k}, after)
  {
    var left := Content(Restrict(c, todo - {k}));
    ContentSplit(c, todo, k);
    ImageUnion(left, Copies(k, c[k]));
    assert Image(Content(Restrict(c, todo))) == Image(left) + Image(Copies(k, c[k]));
  }

  /** `counter.values().sum()`: the number of stones the counter stands for. */
  method Total(c: map<nat, nat>) returns (total: nat)
    ensures total == |Content(c)|
  {
    total := 0;
    var todo := c.Keys;
    assert Restrict(c, todo) == c;
    while todo != {}
      invariant todo <= c.Keys
      invariant total + |Content(Restrict(c, todo))| == |Content(c)|
      decreases |todo|
    {
      var k :| k in todo;
      ContentSplit(c, todo, k);
      total := total + c[k];
      todo := todo - {k};
    }
    assert Restrict(c, todo) == map[];
  }

  /** The second part: blink the counter `blinks` times and add up its counts.
      This is the number of stones the list would hold after as many blinks. */
  method CountAfter(stones: seq<nat>, blinks: nat) returns (total: nat)
    ensures total == |Blinks(stones, blinks)|
  {
    var c := Count(stones);
    ContentEqual(c, multiset(stones));
    var row := stones;
    for i := 0 to blinks
      invariant Content(c) == multiset(row)
      invariant Blinks(row, blinks - i) == Blinks(stones, blinks)
    {
      c := BlinkCounter(c);
      BlinkImage(row);
      row := Blink(row);
    }
    total := Total(c);
  }

  method Part2(input: string) returns (total: nat)
    ensures total == |Blinks(Parse(input), 75)|
  {
    total := CountAfter(Parse(input), 75);
  }
}
