/** Word search: `XMAS` read from an `X` in any of eight directions, and
    two `MAS` crossing diagonally on an `A`. */
module Search {
  import opened Common
  import Text

  /** The rows of the puzzle, as read by `Grid::from`. */
  type Grid = CharMap

  /** `Grid::get`: the letter at a position, `.` for any position off the
      grid (negative coordinates wrap to huge indices and miss too). */
  function Read(grid: Grid, p: Pos): (c: char)
    ensures OnMap(grid, p) ==> Some(c) == MapCell(grid, p)
    ensures !OnMap(grid, p) ==> c == '.'
  {
    if OnMap(grid, p) then grid[p.row][p.col] else '.'
  }

  /** The column count `process` scans: the length of the first row. */
  function Cols(grid: Grid): nat {
    if grid == [] then 0 else |grid[0]|
  }

  /** `process` indexes every row up to the first row's length, so a shorter
      row makes it panic. */
  predicate Scannable(grid: Grid) {
    forall r :: 0 <= r < |grid| ==> Cols(grid) <= |grid[r]|
  }

  // ---------------------------------------------------------------- scanning

  /** The scanned cells holding `ch`. */
  ghost function Examined(grid: Grid, ch: char): set<Pos>
    requires Scannable(grid)
  {
    set r, c | 0 <= r < |grid| && 0 <= c < Cols(grid) && grid[r][c] == ch :: Pos(r, c)
  }

  /** The cells holding `ch` that a row-major scan has passed before (r, c). */
  ghost function Passed(grid: Grid, ch: char, r: int, c: int): set<Pos>
    requires Scannable(grid)
  {
    set p | p in Examined(grid, ch) && (p.row < r || (p.row == r && p.col < c))
  }

  /** Passing one more cell adds it when it holds `ch`. */
  lemma PassOne(grid: Grid, ch: char, r: nat, c: nat)
    requires Scannable(grid) && r < |grid| && c < Cols(grid)
    ensures Pos(r, c) !in Passed(grid, ch, r, c)
    ensures Passed(grid, ch, r, c + 1) == Passed(grid, ch, r, c) + (if grid[r][c] == ch then {Pos(r, c)} else {})
  {
  }

  /** The row-major scan of `process`: add `f` over the cells, among the first
      `Cols` of every row, that hold `ch`. The order of the scan does not
      show in the result. */
  method Scan(grid: Grid, ch: char, f: Pos -> int) returns (total: int)
    requires Scannable(grid)
    ensures total == SumOver(Examined(grid, ch), f)
  {
    total := 0;
    var r := 0;
    assert Passed(grid, ch, 0, 0) == {};
    while r < |grid|
      invariant 0 <= r <= |grid|
      invariant total == SumOver(Passed(grid, ch, r, 0), f)
    {
      var c := 0;
      while c < Cols(grid)
        invariant 0 <= c <= Cols(grid)
        invariant total == SumOver(Passed(grid, ch, r, c), f)
      {
        PassOne(grid, ch, r, c);
        if grid[r][c] == ch {
          SumOverAdd(Passed(grid, ch, r, c), f, Pos(r, c));
          total := total + f(Pos(r, c));
        } else {
          assert Passed(grid, ch, r, c + 1) == Passed(grid, ch, r, c);
        }
        c := c + 1;
      }
      assert Passed(grid, ch, r, Cols(grid)) == Passed(grid, ch, r + 1, 0);
      r := r + 1;
    }
    assert Passed(grid, ch, |grid|, 0) == Examined(grid, ch);
  }

  // ---------------------------------------------------------------- XMAS

  /** The eight directions `xmas_count` tries, in its order. */
  const Eight: seq<Pos> := [Pos(0, 1), Pos(0, -1), Pos(1, 0), Pos(-1, 0), Pos(1, 1), Pos(1, -1), Pos(-1, 1), Pos(-1, -1)]

  /** The letters at distance 1, 2 and 3 along `d` are the rest of `XMAS`. */
  predicate Spells(grid: Grid, p: Pos, d: Pos) {
    forall i :: 1 <= i < 4 ==> Read(grid, Add(p, Scale(i, d))) == "XMAS"[i]
  }

  /** The directions of `ds` along which `XMAS` continues. */
  function CountSpelled(grid: Grid, p: Pos, ds: seq<Pos>): (n: nat)
    ensures n <= |ds|
  {
    if ds == [] then 0 else (if Spells(grid, p, ds[0]) then 1 else 0) + CountSpelled(grid, p, ds[1..])
  }

  /** `xmas_count`: the number of the eight directions along which `XMAS`
      reads on from `p`, at most eight. */
  function XmasCount(grid: Grid, p: Pos): (n: nat)
    ensures n <= 8
  {
    CountSpelled(grid, p, Eight)
  }

  /** Counting along distinct directions counts the set of them. */
  lemma {:induction false} CountSpelledSet(grid: Grid, p: Pos, ds: seq<Pos>)
    requires forall i, j :: 0 <= i < j < |ds| ==> ds[i] != ds[j]
    ensures CountSpelled(grid, p, ds) == |set d | d in ds && Spells(grid, p, d)|
  {
    if ds != [] {
      CountSpelledSet(grid, p, ds[1..]);
      var rest := set d | d in ds[1..] && Spells(grid, p, d);
      assert ds[0] !in rest;
      if Spells(grid, p, ds[0]) {
        assert (set d | d in ds && Spells(grid, p, d)) == rest + {ds[0]};
      } else {
        assert (set d | d in ds && Spells(grid, p, d)) == rest;
      }
    }
  }

  /** `XMAS` continues along `d` exactly when `p + d`, `p + 2d` and
      `p + 3d` read `M`, `A` and `S`. */
  lemma SpellsMeans(grid: Grid, p: Pos, d: Pos)
    ensures Spells(grid, p, d) <==>
      Read(grid, Add(p, d)) == 'M' && Read(grid, Add(p, Scale(2, d))) == 'A' && Read(grid, Add(p, Scale(3, d))) == 'S'
  {
    assert Scale(1, d) == d;
  }

  lemma EightDistinct()
    ensures forall i, j :: 0 <= i < j < |Eight| ==> Eight[i] != Eight[j]
  {
  }

  /** The count is the number of directions `d` whose cells `p + d`,
      `p + 2d` and `p + 3d` read `M`, `A` and `S`. */
  lemma XmasCountMeans(grid: Grid, p: Pos)
    ensures XmasCount(grid, p) ==
      |set d | d in Eight && Read(grid, Add(p, d)) == 'M' && Read(grid, Add(p, Scale(2, d))) == 'A'
                          && Read(grid, Add(p, Scale(3, d))) == 'S'|
  {
    EightDistinct();
    CountSpelledSet(grid, p, Eight);
    forall d | d in Eight {
      SpellsMeans(grid, p, d);
    }
    assert (set d | d in Eight && Spells(grid, p, d)) ==
      (set d | d in Eight && Read(grid, Add(p, d)) == 'M' && Read(grid, Add(p, Scale(2, d))) == 'A'
                          && Read(grid, Add(p, Scale(3, d))) == 'S');
  }

  function XmasIn(grid: Grid): Pos -> int {
    p => XmasCount(grid, p)
  }

  /** The first part: the `XMAS` counted from every `X` of the scanned grid,
      at most eight per `X`. */
  method Part1(input: string) returns (total: int)
    requires Scannable(Text.Lines(input))
    ensures total == SumOver(Examined(Text.Lines(input), 'X'), XmasIn(Text.Lines(input)))
    ensures 0 <= total <= 8 * |Examined(Text.Lines(input), 'X')|
  {
    var grid := Text.Lines(input);
    total := Scan(grid, 'X', XmasIn(grid));
    SumOverBound(Examined(grid, 'X'), XmasIn(grid), 8);
  }

  // ---------------------------------------------------------------- X-MAS

  /** One diagonal reads `MS` or `SM`. */
  predicate MasPair(a: char, b: char) {
    [a, b] == "MS" || [a, b] == "SM"
  }

  /** `crossmas_count`: both diagonals through `p` read `MS` or `SM`. */
  predicate Crossmas(grid: Grid, p: Pos) {
    && MasPair(Read(grid, Add(p, Pos(-1, -1))), Read(grid, Add(p, Pos(1, 1))))
    && MasPair(Read(grid, Add(p, Pos(-1, 1))), Read(grid, Add(p, Pos(1, -1))))
  }

  /** A diagonal passes exactly when its two ends are one `M` and one `S`, in
      either order. */
  lemma MasPairMeans(a: char, b: char)
    ensures MasPair(a, b) <==> multiset{a, b} == multiset{'M', 'S'}
    ensures MasPair(a, b) == MasPair(b, a)
  {
    if multiset{a, b} == multiset{'M', 'S'} {
      assert a in multiset{a, b} && b in multiset{a, b};
    }
  }

  /** A cell in the outer ring of the grid never passes: one diagonal end
      is off the grid and reads `.`. */
  lemma BorderNever(grid: Grid, p: Pos)
    requires p.row == 0 || p.col == 0 || p.row == |grid| - 1
    ensures !Crossmas(grid, p)
  {
    if p.row == 0 || p.col == 0 {
      assert !OnMap(grid, Add(p, Pos(-1, -1)));
    } else {
      assert !OnMap(grid, Add(p, Pos(1, 1)));
    }
  }

  function CrossIn(grid: Grid): Pos -> int {
    p => if Crossmas(grid, p) then 1 else 0
  }

  /** The second part: the number of scanned `A` cells that pass. */
  method Part2(input: string) returns (count: int)
    requires Scannable(Text.Lines(input))
    ensures count == |set p | p in Examined(Text.Lines(input), 'A') && Crossmas(Text.Lines(input), p)|
  {
    var grid := Text.Lines(input);
    count := Scan(grid, 'A', CrossIn(grid));
    CountOver(Examined(grid, 'A'), grid);
  }

  /** Adding one for each passing cell counts the passing cells. */
  lemma {:induction false} CountOver(s: set<Pos>, grid: Grid)
    ensures SumOver(s, CrossIn(grid)) == |set p | p in s && Crossmas(grid, p)|
    decreases s
  {
    if s != {} {
      var x :| x in s;
      SumOverRemove(s, CrossIn(grid), x);
      CountOver(s - {x}, grid);
      PassingSplit(s, grid, x);
    }
  }

  /** Taking one cell out of a set takes it out of the passing ones. */
  lemma PassingSplit(s: set<Pos>, grid: Grid, x: Pos)
    requires x in s
    ensures |set p | p in s && Crossmas(grid, p)| ==
      |set p | p in s - {x} && Crossmas(grid, p)| + (if Crossmas(grid, x) then 1 else 0)
  {
    var rest := set p | p in s - {x} && Crossmas(grid, p);
    assert x !in rest;
    if Crossmas(grid, x) {
      assert (set p | p in s && Crossmas(grid, p)) == rest + {x};
    } else {
      assert (set p | p in s && Crossmas(grid, p)) == rest;
    }
  }
}
