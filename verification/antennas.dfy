/** Resonant antennas on rooftops: every cell other than `.` is an antenna
    whose character is its frequency. Two antennas of one frequency create
    antinodes on the line through them: in the first part the two points
    that are as far beyond either antenna as the antennas are apart, in the
    second part every grid point on the line at a multiple of that distance. */
module Antennas {
  import opened Common
  import Text

  /** The map and its antennas grouped by frequency, each group in reading order. */
  datatype Rooftops = Rooftops(grid: CharMap, antennas: map<char, seq<Pos>>)

  /** The antennas of one line from column `col` on, as (frequency, position). */
  function LineAntennas(line: string, row: int, col: nat): (r: seq<(char, Pos)>)
    requires col <= |line|
    decreases |line| - col
    ensures forall f, p :: (f, p) in r <==> p.row == row && col <= p.col < |line| && line[p.col] == f && f != '.'
  {
    if col == |line| then []
    else if line[col] != '.' then [(line[col], Pos(row, col))] + LineAntennas(line, row, col + 1)
    else LineAntennas(line, row, col + 1)
  }

  /** The antennas of the rows from `row` on, in reading order. */
  function MapAntennas(grid: CharMap, row: nat): (r: seq<(char, Pos)>)
    requires row <= |grid|
    decreases |grid| - row
    ensures forall f, p :: (f, p) in r <==> row <= p.row && MapCell(grid, p) == Some(f) && f != '.'
  {
    if row == |grid| then []
    else LineAntennas(grid[row], row, 0) + MapAntennas(grid, row + 1)
  }

  /** The `fold` that files each antenna under its frequency. */
  function Group(found: seq<(char, Pos)>): (m: map<char, seq<Pos>>)
    ensures forall f :: f in m <==> exists p :: (f, p) in found
    ensures forall f, p :: f in m ==> (p in m[f] <==> (f, p) in found)
  {
    if found == [] then map[]
    else
      var m := Group(found[..|found| - 1]);
      var (f, p) := found[|found| - 1];
      assert found == found[..|found| - 1] + [(f, p)];
      m[f := (if f in m then m[f] else []) + [p]]
  }

  /** Each frequency present has a group, and a group holds exactly the
      positions of its frequency. */
  ghost predicate Grouped(roof: Rooftops) {
    (forall f, p :: MapCell(roof.grid, p) == Some(f) && f != '.' ==> f in roof.antennas)
    && (forall f :: f in roof.antennas ==> f != '.')
    && forall f, p :: f in roof.antennas ==> (p in roof.antennas[f] <==> MapCell(roof.grid, p) == Some(f))
  }

  /** `Rooftops::from`. */
  function FromText(input: string): (roof: Rooftops)
    ensures roof.grid == Text.Lines(input)
    ensures Grouped(roof)
  {
    var grid := Text.Lines(input);
    Rooftops(grid, Group(MapAntennas(grid, 0)))
  }

  /** Two distinct antennas of the same frequency. */
  ghost predicate Partners(grid: CharMap, p1: Pos, p2: Pos) {
    p1 != p2 && MapCell(grid, p1) == MapCell(grid, p2) && MapCell(grid, p1).Some? && MapCell(grid, p1).value != '.'
  }

  /** `get_pairs`: every ordered pair of distinct positions within one group. */
  function Pairs(roof: Rooftops): (r: set<(Pos, Pos)>)
    ensures forall pr :: pr in r ==> pr.0 != pr.1
    ensures Grouped(roof) ==> forall p1, p2 :: (p1, p2) in r <==> Partners(roof.grid, p1, p2)
  {
    var r := set f, p1, p2 | f in roof.antennas && p1 in roof.antennas[f] && p2 in roof.antennas[f] && p1 != p2 :: (p1, p2);
    assert Grouped(roof) ==> forall p1, p2 :: Partners(roof.grid, p1, p2) ==> (p1, p2) in r by {
      forall p1, p2 | Grouped(roof) && Partners(roof.grid, p1, p2)
        ensures (p1, p2) in r
      {
        var f := MapCell(roof.grid, p1).value;
        assert p1 in roof.antennas[f] && p2 in roof.antennas[f];
      }
    }
    r
  }

  /** The two antinodes of a pair: beyond each antenna by the distance between them. */
  function Antinodes(p1: Pos, p2: Pos): set<Pos> {
    {Add(p1, Sub(p1, p2)), Add(p2, Sub(p2, p1))}
  }

  /** `signal`: the antinodes of every pair that fall on the map. */
  function Signal(roof: Rooftops): (s: set<Pos>)
    ensures forall a :: a in s ==> OnMap(roof.grid, a)
  {
    set pr, a | pr in Pairs(roof) && a in Antinodes(pr.0, pr.1) && OnMap(roof.grid, a) :: a
  }

  /** An antinode of the first part is a map point `a` with antennas `p1`
      and `p2` of one frequency such that `p1` lies halfway from `a` to `p2`. */
  lemma SignalMeans(roof: Rooftops, a: Pos)
    requires Grouped(roof)
    ensures a in Signal(roof) <==>
      OnMap(roof.grid, a) && exists p1, p2 :: Partners(roof.grid, p1, p2) && Sub(a, p1) == Sub(p1, p2)
  {
    if a in Signal(roof) {
      var p1, p2 := SignalHalfway(roof, a);
    }
    if OnMap(roof.grid, a) && exists p1, p2 :: Partners(roof.grid, p1, p2) && Sub(a, p1) == Sub(p1, p2) {
      var p1, p2 :| Partners(roof.grid, p1, p2) && Sub(a, p1) == Sub(p1, p2);
      HalfwaySignal(roof, a, p1, p2);
    }
  }

  lemma SignalHalfway(roof: Rooftops, a: Pos) returns (p1: Pos, p2: Pos)
    requires Grouped(roof) && a in Signal(roof)
    ensures Partners(roof.grid, p1, p2) && Sub(a, p1) == Sub(p1, p2)
  {
    var pr :| pr in Pairs(roof) && a in Antinodes(pr.0, pr.1);
    if a == Add(pr.0, Sub(pr.0, pr.1)) {
      p1, p2 := pr.0, pr.1;
    } else {
      p1, p2 := pr.1, pr.0;
    }
  }

  lemma HalfwaySignal(roof: Rooftops, a: Pos, p1: Pos, p2: Pos)
    requires Grouped(roof) && OnMap(roof.grid, a)
    requires Partners(roof.grid, p1, p2) && Sub(a, p1) == Sub(p1, p2)
    ensures a in Signal(roof)
  {
    assert (p1, p2) in Pairs(roof);
    assert a in Antinodes(p1, p2);
  }

  /** The widest row, bounding every column on the map. */
  function Width(grid: CharMap): (w: nat)
    ensures forall i :: 0 <= i < |grid| ==> |grid[i]| <= w
  {
    if grid == [] then 0
    else
      var w := Width(grid[1..]);
      assert forall i :: 1 <= i < |grid| ==> grid[i] == grid[1..][i - 1];
      if |grid[0]| > w then |grid[0]| else w
  }

  /** How far a ray may still go before it must leave the map, measured
      along a coordinate in which the offset is non-zero. */
  function Room(grid: CharMap, point: Pos, offset: Pos): int {
    if offset.row > 0 then |grid| - point.row
    else if offset.row < 0 then point.row + 1
    else if offset.col > 0 then Width(grid) - point.col
    else point.col + 1
  }

  /** A step along the ray uses up room while the ray is on the map. */
  lemma RoomShrinks(grid: CharMap, point: Pos, offset: Pos)
    requires offset != Pos(0, 0) && OnMap(grid, point)
    ensures 0 <= Room(grid, point, offset)
    ensures Room(grid, Add(point, offset), offset) < Room(grid, point, offset)
  {
  }

  lemma ScaleNext(point: Pos, offset: Pos, k: int)
    ensures Add(Add(point, offset), Scale(k, offset)) == Add(point, Scale(k + 1, offset))
  {
    assert (k + 1) * offset.row == k * offset.row + offset.row;
    assert (k + 1) * offset.col == k * offset.col + offset.col;
  }

  /** The points `point + j * offset` for `j` up to `k` are all on the map. */
  ghost predicate Clear(grid: CharMap, point: Pos, offset: Pos, k: nat) {
    forall j: nat :: j <= k ==> OnMap(grid, Add(point, Scale(j, offset)))
  }

  /** A clear stretch from the next point extends back to a point on the map. */
  lemma ClearBack(grid: CharMap, point: Pos, offset: Pos, k: nat)
    requires OnMap(grid, point) && Clear(grid, Add(point, offset), offset, k)
    ensures Clear(grid, point, offset, k + 1)
  {
    forall j: nat | j <= k + 1
      ensures OnMap(grid, Add(point, Scale(j, offset)))
    {
      if j == 0 {
        assert Add(point, Scale(j, offset)) == point;
      } else {
        ScaleNext(point, offset, j - 1);
      }
    }
  }

  /** The inner `while` of `harmonics`: from `point`, every point reached by
      repeatedly adding `offset` until the first one off the map. */
  function Ray(grid: CharMap, point: Pos, offset: Pos): (r: set<Pos>)
    requires offset != Pos(0, 0)
    decreases Room(grid, point, offset)
    ensures OnMap(grid, point) <==> point in r
    ensures forall q :: q in r ==> OnMap(grid, q)
  {
    if !OnMap(grid, point) then {}
    else
      RoomShrinks(grid, point, offset);
      {point} + Ray(grid, Add(point, offset), offset)
  }

  /** Every point of the ray is a whole number of offsets from its start,
      with no point off the map in between. */
  lemma {:induction false} RayOnly(grid: CharMap, point: Pos, offset: Pos, q: Pos) returns (k: nat)
    requires offset != Pos(0, 0) && q in Ray(grid, point, offset)
    ensures q == Add(point, Scale(k, offset)) && Clear(grid, point, offset, k)
    decreases Room(grid, point, offset)
  {
    RoomShrinks(grid, point, offset);
    RayCons(grid, point, offset);
    if q == point {
      k := 0;
      assert Add(point, Scale(0, offset)) == point;
    } else {
      var j := RayOnly(grid, Add(point, offset), offset, q);
      ScaleNext(point, offset, j);
      ClearBack(grid, point, offset, j);
      k := j + 1;
    }
  }

  /** A clear stretch stays clear from its second point on. */
  lemma ClearOn(grid: CharMap, point: Pos, offset: Pos, k: nat)
    requires Clear(grid, point, offset, k + 1)
    ensures OnMap(grid, point) && Clear(grid, Add(point, offset), offset, k)
  {
    assert Add(point, Scale(0, offset)) == point;
    forall j: nat | j <= k
      ensures OnMap(grid, Add(Add(point, offset), Scale(j, offset)))
    {
      ScaleNext(point, offset, j);
    }
  }

  lemma RayCons(grid: CharMap, point: Pos, offset: Pos)
    requires offset != Pos(0, 0) && OnMap(grid, point)
    ensures Ray(grid, point, offset) == {point} + Ray(grid, Add(point, offset), offset)
  {
  }

  /** The ray reaches `point + k * offset` when every point up to it is on the map. */
  lemma {:induction false} RayReaches(grid: CharMap, point: Pos, offset: Pos, k: nat)
    requires offset != Pos(0, 0)
    requires Clear(grid, point, offset, k)
    ensures Add(point, Scale(k, offset)) in Ray(grid, point, offset)
    decreases k
  {
    if k == 0 {
      assert Add(point, Scale(0, offset)) == point;
    } else {
      ClearOn(grid, point, offset, k - 1);
      RayReaches(grid, Add(point, offset), offset, k - 1);
      ScaleNext(point, offset, k - 1);
      RayCons(grid, point, offset);
    }
  }

  /** Both rays of a pair: from each antenna away from the other. */
  function PairRays(grid: CharMap, p1: Pos, p2: Pos): set<Pos>
    requires p1 != p2
  {
    Ray(grid, p1, Sub(p1, p2)) + Ray(grid, p2, Sub(p2, p1))
  }

  /** `harmonics`: every point on the rays of every pair. */
  function Harmonics(roof: Rooftops): (s: set<Pos>)
    ensures forall a :: a in s ==> OnMap(roof.grid, a)
  {
    set pr, a | pr in Pairs(roof) && a in PairRays(roof.grid, pr.0, pr.1) :: a
  }

  /** The antinodes of the second part are exactly the map points `p1 + k *
      (p1 - p2)` for antennas `p1`, `p2` of one frequency, reached without
      leaving the map on the way. */
  lemma HarmonicsMeans(roof: Rooftops, a: Pos)
    requires Grouped(roof)
    ensures a in Harmonics(roof) <==>
      exists p1, p2, k: nat :: Partners(roof.grid, p1, p2) && a == Add(p1, Scale(k, Sub(p1, p2)))
                               && Clear(roof.grid, p1, Sub(p1, p2), k)
  {
    if a in Harmonics(roof) {
      var pr :| pr in Pairs(roof) && a in PairRays(roof.grid, pr.0, pr.1);
      var (p1, p2) := if a in Ray(roof.grid, pr.0, Sub(pr.0, pr.1)) then pr else (pr.1, pr.0);
      assert Partners(roof.grid, p1, p2) && a in Ray(roof.grid, p1, Sub(p1, p2));
      var k := RayOnly(roof.grid, p1, Sub(p1, p2), a);
    }
    if exists p1, p2, k: nat :: Partners(roof.grid, p1, p2) && a == Add(p1, Scale(k, Sub(p1, p2)))
                               && Clear(roof.grid, p1, Sub(p1, p2), k) {
      var p1, p2, k: nat :| Partners(roof.grid, p1, p2) && a == Add(p1, Scale(k, Sub(p1, p2)))
                               && Clear(roof.grid, p1, Sub(p1, p2), k);
      RayReaches(roof.grid, p1, Sub(p1, p2), k);
      assert (p1, p2) in Pairs(roof);
      assert a in PairRays(roof.grid, p1, p2);
    }
  }

  /** An antenna with a partner of its frequency is itself an antinode of
      the second part: each ray starts at an antenna. */
  lemma AntennaResonates(roof: Rooftops, p1: Pos, p2: Pos)
    requires Grouped(roof) && Partners(roof.grid, p1, p2)
    ensures p1 in Harmonics(roof) && p2 in Harmonics(roof)
  {
    assert (p1, p2) in Pairs(roof);
    assert p1 in PairRays(roof.grid, p1, p2) && p2 in PairRays(roof.grid, p1, p2);
  }

  /** The antinodes of the first part are among those of the second: each
      is one step along a ray. */
  lemma SignalWithinHarmonics(roof: Rooftops)
    requires Grouped(roof)
    ensures Signal(roof) <= Harmonics(roof)
  {
    forall a | a in Signal(roof)
      ensures a in Harmonics(roof)
    {
      var pr :| pr in Pairs(roof) && a in Antinodes(pr.0, pr.1) && OnMap(roof.grid, a);
      var (p1, p2) := pr;
      if a == Add(p1, Sub(p1, p2)) {
        OneStep(roof.grid, p1, p2, a);
      } else {
        OneStep(roof.grid, p2, p1, a);
      }
      assert a in PairRays(roof.grid, p1, p2);
    }
  }

  lemma OneStep(grid: CharMap, p1: Pos, p2: Pos, a: Pos)
    requires p1 != p2 && a == Add(p1, Sub(p1, p2)) && OnMap(grid, a)
    requires MapCell(grid, p1).Some?
    ensures a in Ray(grid, p1, Sub(p1, p2))
  {
    var o := Sub(p1, p2);
    forall j: nat | j <= 1
      ensures OnMap(grid, Add(p1, Scale(j, o)))
    {
      if j == 0 {
        assert Add(p1, Scale(j, o)) == p1;
      } else {
        assert Add(p1, Scale(j, o)) == a;
      }
    }
    RayReaches(grid, p1, o, 1);
    assert Add(p1, Scale(1, o)) == a;
  }

  /** The first `process`: how many antinodes fall on the map. */
  function Part1(input: string): nat {
    |Signal(FromText(input))|
  }

  /** The second `process`. */
  function Part2(input: string): nat {
    |Harmonics(FromText(input))|
  }

  /** The second part never counts fewer antinodes than the first. */
  lemma PartsOrdered(input: string)
    ensures Part1(input) <= Part2(input)
  {
    var roof := FromText(input);
    SignalWithinHarmonics(roof);
    SubsetCard(Signal(roof), Harmonics(roof));
  }
}
