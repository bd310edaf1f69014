/** The second warehouse: the map is drawn twice as wide and every box spans
    two cells, a left half `[` and a right half `]`.

    Sideways, a push is the same chain push as in the first warehouse, carrying
    whichever half sits in each cell. Up or down, a box can rest on two boxes
    and push both, so the push first gathers, without touching anything, the
    whole tree of boxes that would have to move, and then moves them in waves:
    a box moves as soon as both cells in front of it are free. */
module Wide {
  import opened Common
  import opened Push
  import Text
  import Layout
  import Narrow

  datatype WideItem = BoxLeft | BoxRight | Wall

  type Grid = map<Pos, WideItem>

  /** The `height` and `width` of the source only serve its rendering and are not kept. */
  datatype WideWarehouse = WideWarehouse(floorplan: Grid, robot: Pos)

  /** The cell one column to the right, `pos + RIGHT`. */
  function RightOf(p: Pos): Pos {
    Pos(p.row, p.col + 1)
  }

  /** The cell one column to the left, `pos + LEFT`. */
  function LeftOf(p: Pos): Pos {
    Pos(p.row, p.col - 1)
  }

  predicate IsLeft(g: Grid, p: Pos) {
    p in g && g[p] == BoxLeft
  }

  predicate IsRight(g: Grid, p: Pos) {
    p in g && g[p] == BoxRight
  }

  /** Every left half has its right half just to its right, and the other way round. */
  ghost predicate Paired(g: Grid) {
    (forall p :: IsLeft(g, p) ==> IsRight(g, RightOf(p)))
    && (forall p :: IsRight(g, p) ==> IsLeft(g, LeftOf(p)))
  }

  /** The robot stands on floor. */
  predicate RobotFree(w: WideWarehouse) {
    w.robot !in w.floorplan
  }

  /** The state every step of the simulation keeps. */
  ghost predicate Valid(w: WideWarehouse) {
    Paired(w.floorplan) && RobotFree(w)
  }

  // ---------------------------------------------------------------- parsing

  /** How each character of the original map is widened; any other character
      is refused (the source reaches `unreachable!`). */
  function Widen(c: char): (r: Option<string>)
    ensures r.Some? ==> |r.value| == 2
    ensures r.Some? <==> c in {'#', 'O', '@', '.'}
  {
    match c
    case '#' => Some("##")
    case 'O' => Some("[]")
    case '@' => Some("@.")
    case '.' => Some("..")
    case _ => None
  }

  /** One widened line: characters `2j` and `2j + 1` of the result are the
      widening of character `j` of the line. */
  function WidenLine(line: string): (r: Option<string>)
    ensures r.Some? <==> forall j :: 0 <= j < |line| ==> Widen(line[j]).Some?
    ensures r.Some? ==> |r.value| == 2 * |line|
    ensures r.Some? ==> forall j :: 0 <= j < |line| ==>
      r.value[2 * j] == Widen(line[j]).value[0] && r.value[2 * j + 1] == Widen(line[j]).value[1]
  {
    if line == [] then Some([])
    else
      match Widen(line[0])
      case None => None
      case Some(pair) =>
        match WidenLine(line[1..])
        case None => None
        case Some(rest) =>
          WidenCons(line, pair, rest);
          Some(pair + rest)
  }

  lemma WidenCons(line: string, pair: string, rest: string)
    requires line != [] && Widen(line[0]) == Some(pair)
    requires forall j :: 0 <= j < |line| ==> Widen(line[j]).Some?
    requires |rest| == 2 * (|line| - 1)
    requires forall j :: 0 <= j < |line| - 1 ==>
      rest[2 * j] == Widen(line[1..][j]).value[0] && rest[2 * j + 1] == Widen(line[1..][j]).value[1]
    ensures forall j :: 0 <= j < |line| ==>
      (pair + rest)[2 * j] == Widen(line[j]).value[0] && (pair + rest)[2 * j + 1] == Widen(line[j]).value[1]
  {
    forall j | 0 < j < |line|
      ensures (pair + rest)[2 * j] == Widen(line[j]).value[0]
      ensures (pair + rest)[2 * j + 1] == Widen(line[j]).value[1]
    {
      assert line[j] == line[1..][j - 1];
      assert 2 * j == 2 * (j - 1) + 2;
    }
  }

  /** Character `c` of a widened line is half `c % 2` of the widening of
      character `c / 2` of the line. */
  lemma WidenAt(line: string, wide: string, c: int)
    requires WidenLine(line) == Some(wide) && 0 <= c < |wide|
    ensures wide[c] == Widen(line[c / 2]).value[c % 2]
  {
    var j := c / 2;
    assert c == 2 * j + c % 2;
  }

  /** All lines widened, or `None` as soon as one of them holds a foreign character. */
  function WidenLines(ls: seq<string>): (r: Option<seq<string>>)
    ensures r.Some? <==> forall i :: 0 <= i < |ls| ==> WidenLine(ls[i]).Some?
    ensures r.Some? ==> |r.value| == |ls| && forall i :: 0 <= i < |ls| ==> Some(r.value[i]) == WidenLine(ls[i])
  {
    if ls == [] then Some([])
    else
      match WidenLine(ls[0])
      case None => None
      case Some(l) =>
        match WidenLines(ls[1..])
        case None => None
        case Some(rest) => Some([l] + rest)
  }

  /** The item a widened character stands for. */
  function WideItemOf(c: char): (r: Option<WideItem>)
    ensures r == Some(Wall) <==> c == '#'
    ensures r == Some(BoxLeft) <==> c == '['
    ensures r == Some(BoxRight) <==> c == ']'
  {
    if c == '#' then Some(Wall)
    else if c == '[' then Some(BoxLeft)
    else if c == ']' then Some(BoxRight)
    else None
  }

  /** `WideWarehouse::from`: widen the text, then read it like the narrow map. */
  function FromText(text: string): (r: Option<WideWarehouse>)
    ensures r.Some? <==> WidenLines(Text.Lines(text)).Some?
    ensures r.Some? ==> Paired(r.value.floorplan)
    ensures r.Some? && (exists q :: Layout.AtCell(Text.Lines(text), q, '@')) ==> RobotFree(r.value)
  {
    match WidenLines(Text.Lines(text))
    case None => None
    case Some(wls) =>
      var s := Layout.Scan(wls, WideItemOf);
      Layout.ScanContents(wls, WideItemOf);
      WidenedPaired(Text.Lines(text), wls);
      WidenedRobotFree(Text.Lines(text), wls);
      Some(WideWarehouse(s.floorplan, s.robot))
  }

  /** In a widened line, `[` and `]` only ever appear side by side. */
  lemma WidenedLinePaired(line: string, wide: string, c: int)
    requires WidenLine(line) == Some(wide)
    ensures (0 <= c < |wide| && wide[c] == '[') <==> (0 <= c + 1 < |wide| && wide[c + 1] == ']')
  {
    if 0 <= c < |wide| && wide[c] == '[' {
      WidenAt(line, wide, c);
      assert line[c / 2] == 'O' && c % 2 == 0;
      WidenAt(line, wide, c + 1);
    }
    if 0 <= c + 1 < |wide| && wide[c + 1] == ']' {
      WidenAt(line, wide, c + 1);
      assert line[(c + 1) / 2] == 'O' && (c + 1) % 2 == 1;
      WidenAt(line, wide, c);
    }
  }

  lemma WidenedCellPaired(ls: seq<string>, wls: seq<string>, p: Pos)
    requires WidenLines(ls) == Some(wls)
    ensures Layout.ItemAt(wls, p, WideItemOf) == Some(BoxLeft)
            <==> Layout.ItemAt(wls, RightOf(p), WideItemOf) == Some(BoxRight)
  {
    if 0 <= p.row < |wls| {
      var line := wls[p.row];
      assert Some(line) == WidenLine(ls[p.row]);
      WidenedLinePaired(ls[p.row], line, p.col);
      assert Layout.ItemAt(wls, p, WideItemOf) == Some(BoxLeft)
             <==> 0 <= p.col < |line| && line[p.col] == '[';
      assert Layout.ItemAt(wls, RightOf(p), WideItemOf) == Some(BoxRight)
             <==> 0 <= p.col + 1 < |line| && line[p.col + 1] == ']';
    }
  }

  /** Hence the floor plan read from a widened map pairs its halves. */
  lemma WidenedPaired(ls: seq<string>, wls: seq<string>)
    requires WidenLines(ls) == Some(wls)
    ensures Paired(Layout.Scan(wls, WideItemOf).floorplan)
  {
    var g := Layout.Scan(wls, WideItemOf).floorplan;
    forall p
      ensures IsLeft(g, p) <==> IsRight(g, RightOf(p))
    {
      WidenedCellPaired(ls, wls, p);
      Layout.ScanKeys(wls, WideItemOf, p);
      Layout.ScanKeys(wls, WideItemOf, RightOf(p));
    }
    forall p | IsRight(g, p)
      ensures IsLeft(g, LeftOf(p))
    {
      WidenedCellPaired(ls, wls, LeftOf(p));
      Layout.ScanKeys(wls, WideItemOf, p);
      Layout.ScanKeys(wls, WideItemOf, LeftOf(p));
    }
  }

  /** The robot of the original map is still in the widened one, at twice its column. */
  lemma WidenedRobot(ls: seq<string>, wls: seq<string>, q: Pos)
    requires WidenLines(ls) == Some(wls)
    requires Layout.AtCell(ls, q, '@')
    ensures Layout.AtCell(wls, Pos(q.row, 2 * q.col), '@')
  {
    assert Some(wls[q.row]) == WidenLine(ls[q.row]);
    assert wls[q.row][2 * q.col] == Widen(ls[q.row][q.col]).value[0];
  }

  lemma WidenedRobotFree(ls: seq<string>, wls: seq<string>)
    requires WidenLines(ls) == Some(wls)
    ensures (exists q :: Layout.AtCell(ls, q, '@')) ==>
            Layout.Scan(wls, WideItemOf).robot !in Layout.Scan(wls, WideItemOf).floorplan
  {
    if exists q :: Layout.AtCell(ls, q, '@') {
      var q :| Layout.AtCell(ls, q, '@');
      WidenedRobot(ls, wls, q);
      Layout.ScanRobotFree(wls, WideItemOf);
    }
  }

  /** `parse` of the second driver; `None` where the source panics. The move
      text is read exactly as in the first driver. */
  function Parse(input: string): (r: Option<(seq<Dir>, WideWarehouse)>)
    ensures r.Some? ==> Some(r.value.1) == FromText(Narrow.SplitInput(input).0)
    ensures r.Some? ==> Some(r.value.0) == Narrow.ParseMoves(Narrow.SplitInput(input).1)
    ensures r.Some? <==> FromText(Narrow.SplitInput(input).0).Some? && Narrow.ParseMoves(Narrow.SplitInput(input).1).Some?
  {
    var (grid, moves) := Narrow.SplitInput(input);
    match FromText(grid)
    case None => None
    case Some(w) =>
      match Narrow.ParseMoves(moves)
      case None => None
      case Some(ds) => Some((ds, w))
  }

  // ---------------------------------------------------------------- pairing under shifts

  /** A set of cells that holds both halves of each box it touches. */
  ghost predicate WholeBoxes(g: Grid, C: set<Pos>) {
    (forall p :: p in C && IsLeft(g, p) ==> RightOf(p) in C)
    && (forall p :: p in C && IsRight(g, p) ==> LeftOf(p) in C)
  }

  /** Shifting whole boxes into cells that are floor or are being vacated keeps the halves paired. */
  lemma ShiftKeepsPaired(g: Grid, C: set<Pos>, v: Pos)
    requires Paired(g) && C <= g.Keys && WholeBoxes(g, C)
    requires forall q :: q in Translate(C, v) ==> q in C || q !in g
    ensures Paired(ShiftCells(g, C, v))
  {
    var h := ShiftCells(g, C, v);
    forall p | IsLeft(h, p)
      ensures IsRight(h, RightOf(p))
    {
      var q := RightOf(p);
      TranslateMember(C, v, p);
      TranslateMember(C, v, q);
      assert Sub(q, v) == RightOf(Sub(p, v));
      if Sub(p, v) !in C {
        assert IsLeft(g, p) && p !in C;
        assert q !in C;
      }
    }
    forall p | IsRight(h, p)
      ensures IsLeft(h, LeftOf(p))
    {
      var q := LeftOf(p);
      TranslateMember(C, v, p);
      TranslateMember(C, v, q);
      assert Sub(q, v) == LeftOf(Sub(p, v));
      if Sub(p, v) !in C {
        assert IsRight(g, p) && p !in C;
        assert q !in C;
      }
    }
  }

  /** Sideways, the run in front of a free cell is made of whole boxes: its
      first cell cannot be a far half, and its last cell cannot be a near half
      because the cell past the run is floor. */
  lemma SidewaysRunWhole(g: Grid, pos: Pos, d: Dir)
    requires !IsVertical(d) && Paired(g)
    requires Sub(pos, Offset(d)) !in g
    requires ChainPush(g, pos, d, Wall).0
    ensures WholeBoxes(g, Run(g, pos, d, Wall))
  {
    var C := Run(g, pos, d, Wall);
    forall p | p in C && (IsLeft(g, p) || IsRight(g, p))
      ensures IsLeft(g, p) ==> RightOf(p) in C
      ensures IsRight(g, p) ==> LeftOf(p) in C
    {
      SidewaysPartner(g, pos, d, p);
    }
  }

  /** The other half of a box half in a sideways run is in the run too. */
  lemma SidewaysPartner(g: Grid, pos: Pos, d: Dir, p: Pos)
    requires !IsVertical(d) && Paired(g)
    requires Sub(pos, Offset(d)) !in g
    requires ChainPush(g, pos, d, Wall).0
    requires p in Run(g, pos, d, Wall) && (IsLeft(g, p) || IsRight(g, p))
    ensures IsLeft(g, p) ==> RightOf(p) in Run(g, pos, d, Wall)
    ensures IsRight(g, p) ==> LeftOf(p) in Run(g, pos, d, Wall)
  {
    var n := RunLength(g, pos, d, Wall);
    var i := Proj(d, p) - Proj(d, pos);
    assert 0 <= i < n && Lane(d, p) == Lane(d, pos);
    var q := if IsLeft(g, p) then RightOf(p) else LeftOf(p);
    assert q in g;
    var j := Proj(d, q) - Proj(d, pos);
    assert (j == i + 1 || j == i - 1) && Lane(d, q) == Lane(d, pos) by {
      SidewaysNeighbour(d, p, q);
    }
    assert q == Along(pos, d, j) by {
      CoordinatesDetermine(d, q, Along(pos, d, j));
    }
    assert j != -1 by {
      assert Along(pos, d, -1) == Sub(pos, Offset(d));
    }
    assert j != n;
  }

  /** Sideways, the cells left and right of a cell are one step either way along the lane. */
  lemma SidewaysNeighbour(d: Dir, p: Pos, q: Pos)
    requires !IsVertical(d) && (q == RightOf(p) || q == LeftOf(p))
    ensures Proj(d, q) - Proj(d, p) == 1 || Proj(d, q) - Proj(d, p) == -1
    ensures Lane(d, q) == Lane(d, p)
  {
  }

  // ---------------------------------------------------------------- gathering the boxes

  /** Keys further along `d` than `x`. */
  ghost function KeysBeyond(g: Grid, d: Dir, x: Pos): set<Pos> {
    set q | q in g && Proj(d, q) > Proj(d, x)
  }

  lemma KeysBeyondShrinks(g: Grid, d: Dir, x: Pos, y: Pos, k: Pos)
    requires k in g && Proj(d, k) == Proj(d, x) + 1 && Proj(d, y) == Proj(d, x) + 1
    ensures |KeysBeyond(g, d, y)| < |KeysBeyond(g, d, x)|
  {
    assert k in KeysBeyond(g, d, x) && k !in KeysBeyond(g, d, y);
    ProperSubsetCard(KeysBeyond(g, d, y), KeysBeyond(g, d, x));
  }

  /** A right half stands for the box whose left half is beside it. */
  function Normalise(g: Grid, side: Pos): (s: Pos)
    ensures s.row == side.row
    ensures Paired(g) && (IsLeft(g, side) || IsRight(g, side)) ==> IsLeft(g, s)
  {
    if IsRight(g, side) then LeftOf(side) else side
  }

  /** `find_all_boxes_that_can_move`: read-only. Looks at the two cells in
      front of the box at `side`; floor ends the branch, a wall anywhere
      fails the whole search, and a box is searched in turn, the cell in
      front of the left half first. On success, the left halves of all the
      boxes that must move, this box first; on failure, nothing. */
  function FindMovable(g: Grid, side: Pos, d: Dir): (r: (bool, seq<Pos>))
    requires IsVertical(d)
    decreases |KeysBeyond(g, d, side)|
    ensures !r.0 ==> r.1 == []
    ensures r.0 ==> |r.1| > 0 && r.1[0] == Normalise(g, side)
  {
    var s := Normalise(g, side);
    var nl := Step(s, d);
    var nr := RightOf(nl);
    if nl !in g && nr !in g then (true, [s])
    else if (nr in g && g[nr] == Wall) || (nl in g && g[nl] == Wall) then (false, [])
    else
      var left :=
        if nl !in g then (true, [])
        else if g[nl] == BoxRight then
          (KeysBeyondShrinks(g, d, side, LeftOf(nl), nl);
           FindMovable(g, LeftOf(nl), d))
        else
          (KeysBeyondShrinks(g, d, side, nl, nl);
           FindMovable(g, nl, d));
      if !left.0 then (false, left.1)
      else
        var right :=
          if nr in g && g[nr] == BoxLeft then
            (KeysBeyondShrinks(g, d, side, nr, nr);
             FindMovable(g, nr, d))
          else (true, []);
        if !right.0 then (false, right.1)
        else (true, [s] + left.1 + right.1)
  }

  function Members(xs: seq<Pos>): set<Pos> {
    set x | x in xs
  }

  /** Both cells of each listed box. */
  function Cells(S: set<Pos>): set<Pos> {
    S + Translate(S, Pos(0, 1))
  }

  predicate AllLeft(g: Grid, S: set<Pos>) {
    forall s :: s in S ==> IsLeft(g, s)
  }

  /** The cell `t` in front of a box of `S` is floor or belongs to a box of `S`. */
  predicate Clear(g: Grid, S: set<Pos>, t: Pos) {
    t !in g || (g[t] == BoxLeft && t in S) || (g[t] == BoxRight && LeftOf(t) in S)
  }

  /** No box of `S` is held up by a wall or by a box outside `S`. */
  predicate Closed(g: Grid, S: set<Pos>, d: Dir) {
    forall s {:trigger Step(s, d)} :: s in S ==> Clear(g, S, Step(s, d)) && Clear(g, S, RightOf(Step(s, d)))
  }

  /** What the search gathers can move together: left halves only, and every
      cell in front of them is floor or part of a gathered box. */
  lemma {:induction false} FindMovableSound(g: Grid, side: Pos, d: Dir)
    requires IsVertical(d) && Paired(g)
    requires IsLeft(g, side) || IsRight(g, side)
    ensures FindMovable(g, side, d).0 ==>
            AllLeft(g, Members(FindMovable(g, side, d).1)) && Closed(g, Members(FindMovable(g, side, d).1), d)
    decreases |KeysBeyond(g, d, side)|
  {
    var r := FindMovable(g, side, d);
    var s := Normalise(g, side);
    var nl := Step(s, d);
    var nr := RightOf(nl);
    if r.0 && !(nl !in g && nr !in g) {
      var left := if nl !in g then (true, [])
                  else if g[nl] == BoxRight then FindMovable(g, LeftOf(nl), d)
                  else FindMovable(g, nl, d);
      var right := if nr in g && g[nr] == BoxLeft then FindMovable(g, nr, d) else (true, []);
      assert r.1 == [s] + left.1 + right.1;
      if nl in g {
        if g[nl] == BoxRight {
          KeysBeyondShrinks(g, d, side, LeftOf(nl), nl);
          FindMovableSound(g, LeftOf(nl), d);
        } else {
          KeysBeyondShrinks(g, d, side, nl, nl);
          FindMovableSound(g, nl, d);
        }
      }
      if nr in g && g[nr] == BoxLeft {
        KeysBeyondShrinks(g, d, side, nr, nr);
        FindMovableSound(g, nr, d);
      }
      if nr in g && g[nr] == BoxRight {
        assert IsLeft(g, LeftOf(nr));
      }
      GatherJoin(g, d, s, left.1, right.1);
    }
  }

  /** One level of the search: a box whose two front cells are clear, on top
      of two gathered sets that can each move. */
  lemma GatherJoin(g: Grid, d: Dir, s: Pos, L: seq<Pos>, R: seq<Pos>)
    requires IsLeft(g, s)
    requires AllLeft(g, Members(L)) && Closed(g, Members(L), d)
    requires AllLeft(g, Members(R)) && Closed(g, Members(R), d)
    requires Clear(g, Members([s] + L + R), Step(s, d)) && Clear(g, Members([s] + L + R), RightOf(Step(s, d)))
    ensures AllLeft(g, Members([s] + L + R)) && Closed(g, Members([s] + L + R), d)
  {
    var S := Members([s] + L + R);
    assert S == {s} + Members(L) + Members(R);
    forall x | x in S
      ensures Clear(g, S, Step(x, d)) && Clear(g, S, RightOf(Step(x, d)))
    {
      if x in Members(L) {
        assert Clear(g, Members(L), Step(x, d)) && Clear(g, Members(L), RightOf(Step(x, d)));
      } else if x in Members(R) {
        assert Clear(g, Members(R), Step(x, d)) && Clear(g, Members(R), RightOf(Step(x, d)));
      }
    }
  }

  /** What the search gathers is the least such set: every set of left halves
      that contains this box and can move together contains everything
      gathered, and its existence is enough for the search to succeed. */
  lemma {:induction false} FindMovableLeast(g: Grid, side: Pos, d: Dir, S: set<Pos>)
    requires IsVertical(d)
    requires AllLeft(g, S) && Closed(g, S, d) && Normalise(g, side) in S
    ensures FindMovable(g, side, d).0
    ensures Members(FindMovable(g, side, d).1) <= S
    decreases |KeysBeyond(g, d, side)|
  {
    var s := Normalise(g, side);
    var nl := Step(s, d);
    var nr := RightOf(nl);
    assert Clear(g, S, nl) && Clear(g, S, nr);
    if !(nl !in g && nr !in g) {
      if nl in g {
        if g[nl] == BoxRight {
          KeysBeyondShrinks(g, d, side, LeftOf(nl), nl);
          FindMovableLeast(g, LeftOf(nl), d, S);
        } else {
          KeysBeyondShrinks(g, d, side, nl, nl);
          FindMovableLeast(g, nl, d, S);
        }
      }
      if nr in g && g[nr] == BoxLeft {
        KeysBeyondShrinks(g, d, side, nr, nr);
        FindMovableLeast(g, nr, d, S);
      }
    }
  }

  lemma CellsMember(S: set<Pos>, c: Pos)
    ensures c in Cells(S) <==> c in S || LeftOf(c) in S
  {
    TranslateMember(S, Pos(0, 1), c);
  }

  /** The cells of a gathered set are keys holding whole boxes, no wall, and
      everything in front of them is floor or one of them. */
  lemma GatheredCells(g: Grid, S: set<Pos>, d: Dir)
    requires IsVertical(d) && Paired(g) && AllLeft(g, S) && Closed(g, S, d)
    ensures Cells(S) <= g.Keys
    ensures WholeBoxes(g, Cells(S))
    ensures forall c :: c in Cells(S) ==> g[c] != Wall
    ensures ItemsOf(g, BoxLeft) * Cells(S) == S
    ensures forall q :: q in Translate(Cells(S), Offset(d)) ==> q in Cells(S) || q !in g
  {
    var v := Offset(d);
    forall c | c in Cells(S)
      ensures c in g && g[c] != Wall
      ensures IsLeft(g, c) <==> c in S
    {
      CellsMember(S, c);
    }
    forall c | c in Cells(S) && IsLeft(g, c)
      ensures RightOf(c) in Cells(S)
    {
      CellsMember(S, c);
      CellsMember(S, RightOf(c));
    }
    forall c | c in Cells(S) && IsRight(g, c)
      ensures LeftOf(c) in Cells(S)
    {
      CellsMember(S, c);
      CellsMember(S, LeftOf(c));
    }
    forall q | q in Translate(Cells(S), v)
      ensures q in Cells(S) || q !in g
    {
      TranslateMember(Cells(S), v, q);
      var c := Sub(q, v);
      CellsMember(S, c);
      CellsMember(S, q);
      if c in S {
        assert q == Step(c, d);
        assert Clear(g, S, Step(c, d));
      } else {
        assert q == RightOf(Step(LeftOf(c), d));
        assert Clear(g, S, RightOf(Step(LeftOf(c), d)));
      }
    }
  }

  /** `try_big_move`. Sideways it is the chain push of the first warehouse.
      Up or down, a right half is searched from its left half; if the search
      succeeds, all gathered boxes move one row, otherwise nothing changes.
      The move itself is stated here by its outcome; `CommitWaves` carries it
      out wave by wave as the source does. */
  function TryBigMove(g: Grid, pos: Pos, d: Dir): (r: (bool, Grid))
    requires Paired(g)
    ensures pos !in g ==> r == (true, g)
    ensures pos in g && g[pos] == Wall ==> r == (false, g)
    ensures !r.0 ==> r.1 == g
  {
    if !IsVertical(d) then ChainPush(g, pos, d, Wall)
    else if pos !in g then (true, g)
    else if g[pos] == Wall then (false, g)
    else
      var start := if g[pos] == BoxLeft then pos else LeftOf(pos);
      var (allowed, list) := FindMovable(g, start, d);
      if allowed then
        FindMovableSound(g, start, d);
        GatheredCells(g, Members(list), d);
        (true, ShiftCells(g, Cells(Members(list)), Offset(d)))
      else (false, g)
  }

  /** A push from a cell that is not a box half keeps the halves paired, keeps
      every wall and the number of boxes, and frees the cell pushed into. */
  lemma TryBigMoveKeeps(g: Grid, pos: Pos, d: Dir)
    requires Paired(g) && Sub(pos, Offset(d)) !in g
    ensures Paired(TryBigMove(g, pos, d).1)
    ensures ItemsOf(TryBigMove(g, pos, d).1, Wall) == ItemsOf(g, Wall)
    ensures |ItemsOf(TryBigMove(g, pos, d).1, BoxLeft)| == |ItemsOf(g, BoxLeft)|
    ensures TryBigMove(g, pos, d).0 ==> pos !in TryBigMove(g, pos, d).1
  {
    var v := Offset(d);
    if !IsVertical(d) {
      ChainPushKeepsWalls(g, pos, d, Wall);
      ChainPushKeepsCount(g, pos, d, Wall, BoxLeft);
      if ChainPush(g, pos, d, Wall).0 {
        ChainPushTargets(g, pos, d, Wall);
        SidewaysRunWhole(g, pos, d);
        ShiftKeepsPaired(g, Run(g, pos, d, Wall), v);
      }
    } else if pos in g && g[pos] != Wall {
      var start := if g[pos] == BoxLeft then pos else LeftOf(pos);
      var (allowed, list) := FindMovable(g, start, d);
      if allowed {
        var S := Members(list);
        FindMovableSound(g, start, d);
        GatheredCells(g, S, d);
        var C := Cells(S);
        ShiftKeepsPaired(g, C, v);
        ShiftCellsKeepsCount(g, C, v, BoxLeft);
        ShiftCellsItems(g, C, v, Wall);
        assert ItemsOf(g, Wall) * C == {};
        assert start == list[0] && start in S;
        CellsMember(S, pos);
        CellsMember(S, Sub(pos, v));
        TranslateMember(C, v, pos);
      }
    }
  }

  /** Up or down, the push succeeds exactly when some set of boxes containing
      the pushed one can move together, and it moves the least such set. */
  lemma VerticalPushLeast(g: Grid, pos: Pos, d: Dir, S: set<Pos>)
    requires IsVertical(d) && Paired(g)
    requires IsLeft(g, pos) || IsRight(g, pos)
    ensures var start := if IsLeft(g, pos) then pos else LeftOf(pos);
            var found := FindMovable(g, start, d);
            (TryBigMove(g, pos, d).0 <==> found.0)
            && (found.0 ==> AllLeft(g, Members(found.1)) && Closed(g, Members(found.1), d)
                            && start in Members(found.1))
            && (AllLeft(g, S) && Closed(g, S, d) && start in S ==>
                  found.0 && Members(found.1) <= S)
  {
    var start := if IsLeft(g, pos) then pos else LeftOf(pos);
    FindMovableSound(g, start, d);
    if AllLeft(g, S) && Closed(g, S, d) && start in S {
      FindMovableLeast(g, start, d, S);
    }
  }

  // ------------------------------------------------------ committing waves

  /** Box `s` sits in front of box `m`: one row further along `d`, overlapping it. */
  predicate Ahead(d: Dir, m: Pos, s: Pos) {
    Proj(d, s) == Proj(d, m) + 1 && m.col - 1 <= s.col <= m.col + 1
  }

  /** Every gathered box in front of a moved box has moved too. */
  ghost predicate Upward(S: set<Pos>, moved: set<Pos>, d: Dir) {
    forall m, s {:trigger Ahead(d, m, s)} :: m in moved && s in S && Ahead(d, m, s) ==> s in moved
  }

  /** A box of the gathered set with no gathered box further along `d`. */
  lemma MaxProj(P: set<Pos>, d: Dir) returns (f: Pos)
    requires P != {}
    ensures f in P && forall x :: x in P ==> Proj(d, x) <= Proj(d, f)
    decreases P
  {
    var x :| x in P;
    if P == {x} {
      f := x;
    } else {
      var rest := MaxProj(P - {x}, d);
      f := if Proj(d, x) <= Proj(d, rest) then rest else x;
    }
  }

  /** What the wave commit needs of a gathered set: each member is a whole box
      whose right half is not itself a member, and nothing outside the set
      stands in the way. */
  ghost predicate Gathered(g: Grid, S: set<Pos>, d: Dir) {
    (forall x :: x in S ==> IsLeft(g, x) && IsRight(g, RightOf(x)))
    && Closed(g, S, d)
    && Cells(S) <= g.Keys
  }

  /** A set found by the search is gathered in that sense. */
  lemma PairedGathered(g: Grid, S: set<Pos>, d: Dir)
    requires IsVertical(d) && Paired(g) && AllLeft(g, S) && Closed(g, S, d)
    ensures Gathered(g, S, d)
  {
    GatheredCells(g, S, d);
  }

  /** The cells of moved boxes lie among the gathered cells. */
  lemma MovedCells(g: Grid, S: set<Pos>, moved: set<Pos>)
    requires moved <= S && Cells(S) <= g.Keys
    ensures Cells(moved) <= g.Keys
  {
    forall c | c in Cells(moved)
      ensures c in Cells(S)
    {
      CellsMember(moved, c);
      CellsMember(S, c);
    }
  }

  /** Neighbours of a member are not members. */
  lemma Spaced(g: Grid, S: set<Pos>, d: Dir, x: Pos)
    requires Gathered(g, S, d) && x in S
    ensures LeftOf(x) !in S && RightOf(x) !in S
  {
    assert RightOf(LeftOf(x)) == x;
    assert LeftOf(x) in S ==> IsRight(g, x);
    assert RightOf(x) in S ==> IsLeft(g, RightOf(x));
  }

  /** An unmoved box is neither a moved cell nor the destination of one. */
  lemma UnmovedCells(S: set<Pos>, moved: set<Pos>, d: Dir, x: Pos)
    requires IsVertical(d) && moved <= S && Upward(S, moved, d)
    requires x in S && x !in moved && LeftOf(x) !in S && RightOf(x) !in S
    ensures x !in Cells(moved) && Sub(x, Offset(d)) !in Cells(moved)
    ensures RightOf(x) !in Cells(moved) && Sub(RightOf(x), Offset(d)) !in Cells(moved)
  {
    var v := Offset(d);
    CellsMember(moved, x);
    CellsMember(moved, RightOf(x));
    var u := Sub(x, v);
    CellsMember(moved, u);
    CellsMember(moved, Sub(RightOf(x), v));
    if u in moved {
      StepCoordinates(u, d);
      assert Step(u, d) == x && Ahead(d, u, x);
    }
    if LeftOf(u) in moved {
      StepCoordinates(LeftOf(u), d);
      assert Ahead(d, LeftOf(u), x);
    }
    if RightOf(u) in moved {
      StepCoordinates(RightOf(u), d);
      assert Ahead(d, RightOf(u), x);
    }
    assert Sub(RightOf(x), v) == RightOf(u) && LeftOf(RightOf(u)) == u;
  }

  /** A gathered box that has not moved yet still stands where it stood. */
  lemma NotShifted(g: Grid, S: set<Pos>, moved: set<Pos>, d: Dir, x: Pos)
    requires IsVertical(d) && Gathered(g, S, d)
    requires moved <= S && Upward(S, moved, d) && x in S && x !in moved
    ensures Cells(moved) <= g.Keys
    ensures IsLeft(ShiftCells(g, Cells(moved), Offset(d)), x)
    ensures IsRight(ShiftCells(g, Cells(moved), Offset(d)), RightOf(x))
  {
    var v := Offset(d);
    MovedCells(g, S, moved);
    Spaced(g, S, d, x);
    UnmovedCells(S, moved, d, x);
    TranslateMember(Cells(moved), v, x);
    TranslateMember(Cells(moved), v, RightOf(x));
  }

  /** Cells of one more box are the cells so far plus its two halves. */
  lemma CellsAdd(M: set<Pos>, b: Pos)
    ensures Cells(M + {b}) == Cells(M) + {b} + {RightOf(b)}
  {
    forall c ensures c in Cells(M + {b}) <==> c in Cells(M) + {b} + {RightOf(b)} {
      CellsMember(M + {b}, c);
      CellsMember(M, c);
    }
  }

  /** The source's two removals and two insertions moving the box whose left
      half is at `b` one row along `d`. */
  function Lift(h: Grid, b: Pos, d: Dir): Grid {
    (h - {b} - {RightOf(b)})[Step(b, d) := BoxLeft][RightOf(Step(b, d)) := BoxRight]
  }

  /** Moving a box whose destination is free extends the shift by that box. */
  lemma LiftShifts(g: Grid, S: set<Pos>, moved: set<Pos>, d: Dir, b: Pos)
    requires IsVertical(d) && Gathered(g, S, d)
    requires moved <= S && Upward(S, moved, d) && b in S && b !in moved
    requires Cells(moved) <= g.Keys
    requires Step(b, d) !in ShiftCells(g, Cells(moved), Offset(d))
    requires RightOf(Step(b, d)) !in ShiftCells(g, Cells(moved), Offset(d))
    ensures Cells(moved + {b}) <= g.Keys
    ensures Lift(ShiftCells(g, Cells(moved), Offset(d)), b, d)
              == ShiftCells(g, Cells(moved + {b}), Offset(d))
  {
    var v := Offset(d);
    var C := Cells(moved);
    var h := ShiftCells(g, C, v);
    Spaced(g, S, d, b);
    UnmovedCells(S, moved, d, b);
    CellsAdd(moved, b);
    MovedCells(g, S, moved + {b});
    ShiftCellsAddCell(g, C, v, b);
    assert Add(RightOf(b), v) == RightOf(Step(b, d));
    ShiftCellsAddCell(g, C + {b}, v, RightOf(b));
    assert C + {b} + {RightOf(b)} == Cells(moved + {b});
  }

  /** Moving a box whose destination is free leaves no unmoved gathered box in
      front of a moved one. */
  lemma LiftUpward(g: Grid, S: set<Pos>, moved: set<Pos>, d: Dir, b: Pos)
    requires IsVertical(d) && Gathered(g, S, d)
    requires moved <= S && Upward(S, moved, d) && b in S && b !in moved
    requires Cells(moved) <= g.Keys
    requires Step(b, d) !in ShiftCells(g, Cells(moved), Offset(d))
    requires RightOf(Step(b, d)) !in ShiftCells(g, Cells(moved), Offset(d))
    ensures Upward(S, moved + {b}, d)
  {
    forall m, s | m in moved + {b} && s in S && Ahead(d, m, s)
      ensures s in moved + {b}
    {
      if m == b && s !in moved {
        NotShifted(g, S, moved, d, s);
        if s.col == b.col {
          CoordinatesDetermine(d, s, Step(b, d));
        } else if s.col == b.col + 1 {
          CoordinatesDetermine(d, s, RightOf(Step(b, d)));
        } else {
          CoordinatesDetermine(d, RightOf(s), Step(b, d));
        }
        assert false;
      }
    }
  }

  /** A clear cell one row beyond every unmoved box is free once nothing moves
      into it: whatever box stood there has already moved on. */
  lemma FrontCellFree(g: Grid, S: set<Pos>, moved: set<Pos>, v: Pos, d: Dir, f: Pos, t: Pos)
    requires moved <= S && Cells(moved) <= g.Keys && Clear(g, S, t)
    requires forall x :: x in S && x !in moved ==> Proj(d, x) <= Proj(d, f)
    requires Proj(d, t) == Proj(d, f) + 1 && Proj(d, LeftOf(t)) == Proj(d, f) + 1
    requires Sub(t, v) !in Cells(moved)
    ensures t !in ShiftCells(g, Cells(moved), v)
  {
    CellsMember(moved, t);
    TranslateMember(Cells(moved), v, t);
  }

  /** The box furthest along `d` among those not yet moved always has room. */
  lemma FurthestIsFree(g: Grid, S: set<Pos>, moved: set<Pos>, d: Dir, f: Pos)
    requires IsVertical(d) && Gathered(g, S, d)
    requires moved <= S && f in S && f !in moved
    requires forall x :: x in S && x !in moved ==> Proj(d, x) <= Proj(d, f)
    requires Cells(moved) <= g.Keys
    ensures Step(f, d) !in ShiftCells(g, Cells(moved), Offset(d))
    ensures RightOf(Step(f, d)) !in ShiftCells(g, Cells(moved), Offset(d))
  {
    var v := Offset(d);
    var t := Step(f, d);
    StepCoordinates(f, d);
    assert Clear(g, S, t) && Clear(g, S, RightOf(t));
    Spaced(g, S, d, f);
    assert Sub(t, v) == f && Sub(RightOf(t), v) == RightOf(f);
    CellsMember(moved, f);
    CellsMember(moved, RightOf(f));
    FrontCellFree(g, S, moved, v, d, f, t);
    FrontCellFree(g, S, moved, v, d, f, RightOf(t));
  }

  /** Set bookkeeping of a wave: a box held back joins the next wave. */
  lemma HoldBack(todo: set<Pos>, blocked: set<Pos>, rest: set<Pos>, b: Pos)
    requires todo + blocked == rest && todo * blocked == {} && b in todo
    ensures (todo - {b}) + (blocked + {b}) == rest && (todo - {b}) * (blocked + {b}) == {}
  {
  }

  /** Set bookkeeping of a wave: a moved box leaves the boxes still to move. */
  lemma MarkMoved(todo: set<Pos>, blocked: set<Pos>, S: set<Pos>, moved: set<Pos>, b: Pos)
    requires todo + blocked == S - moved && todo * blocked == {} && b in todo && moved <= S
    ensures (todo - {b}) + blocked == S - (moved + {b}) && (todo - {b}) * blocked == {}
    ensures moved + {b} <= S
  {
  }

  /** A wave that moved the box `f` leaves fewer boxes for the next one. */
  lemma WaveShrinks(S: set<Pos>, before: set<Pos>, moved: set<Pos>, f: Pos)
    requires before <= moved && f in moved && f !in before && f in S
    ensures S - moved < S - before
  {
  }

  /** Once no box is left to move, every gathered box has moved. */
  lemma AllMoved(S: set<Pos>, moved: set<Pos>)
    requires S - moved == {} && moved <= S
    ensures moved == S
  {
    forall x | x in S ensures x in moved {
      assert x !in S - moved;
    }
  }

  /** One wave of the commit loop: every box of the wave whose destination is
      free moves, in whatever order the set yields them; the others are handed
      back. The box furthest along `d` is always among the moved. */
  method CommitWave(g: Grid, ghost S: set<Pos>, ghost before: set<Pos>, h0: Grid,
                    wave: set<Pos>, d: Dir)
    returns (h: Grid, blocked: set<Pos>, ghost moved: set<Pos>)
    requires IsVertical(d) && Gathered(g, S, d)
    requires wave != {} && wave == S - before && before <= S && Upward(S, before, d)
    requires Cells(before) <= g.Keys && h0 == ShiftCells(g, Cells(before), Offset(d))
    ensures blocked == S - moved && blocked < wave && moved <= S
    ensures Upward(S, moved, d) && Cells(moved) <= g.Keys
    ensures h == ShiftCells(g, Cells(moved), Offset(d))
  {
    ghost var f := MaxProj(wave, d);
    h := h0;
    moved := before;
    var todo := wave;
    blocked := {};
    while todo != {}
      invariant InWave(g, S, before, f, d, todo, blocked, moved, h)
      decreases |todo|
    {
      todo, blocked, moved, h := CommitBox(g, S, before, f, d, todo, blocked, moved, h);
    }
    WaveShrinks(S, before, moved, f);
  }

  /** The state of the commit loop within one wave: `todo` and `blocked`
      split what is left to move, `h` is the grid with `moved` shifted, and
      the furthest box `f` is either still to do or moved. */
  ghost predicate InWave(g: Grid, S: set<Pos>, before: set<Pos>, f: Pos, d: Dir,
                         todo: set<Pos>, blocked: set<Pos>, moved: set<Pos>, h: Grid) {
    todo + blocked == S - moved && todo * blocked == {}
    && before <= moved && moved <= S
    && Upward(S, moved, d)
    && Cells(moved) <= g.Keys
    && h == ShiftCells(g, Cells(moved), Offset(d))
    && (f in todo || f in moved) && f !in before && f in S
    && (forall x :: x in S && x !in moved ==> Proj(d, x) <= Proj(d, f))
  }

  /** One box of a wave: it moves when both cells in front of it are free in
      the current grid, and is handed back otherwise. */
  method CommitBox(g: Grid, ghost S: set<Pos>, ghost before: set<Pos>, ghost f: Pos, d: Dir,
                   todo: set<Pos>, blocked: set<Pos>, ghost moved: set<Pos>, h: Grid)
    returns (todo': set<Pos>, blocked': set<Pos>, ghost moved': set<Pos>, h': Grid)
    requires IsVertical(d) && Gathered(g, S, d)
    requires todo != {} && InWave(g, S, before, f, d, todo, blocked, moved, h)
    ensures InWave(g, S, before, f, d, todo', blocked', moved', h') && |todo'| < |todo|
  {
    var b :| b in todo;
    var nextLeft := Step(b, d);
    var nextRight := RightOf(nextLeft);
    if b == f {
      FurthestIsFree(g, S, moved, d, f);
    }
    if nextLeft in h || nextRight in h {
      HoldBack(todo, blocked, S - moved, b);
      blocked', moved', h' := blocked + {b}, moved, h;
    } else {
      NotShifted(g, S, moved, d, b);
      assert b in h && h[b] == BoxLeft;
      LiftShifts(g, S, moved, d, b);
      LiftUpward(g, S, moved, d, b);
      MarkMoved(todo, blocked, S, moved, b);
      blocked', moved', h' := blocked, moved + {b}, Lift(h, b, d);
    }
    todo' := todo - {b};
  }

  /** The commit loop of `try_big_move` up or down: the gathered boxes are moved
      in waves until none is left. It ends, and its result is the whole
      gathered set shifted one row. */
  method CommitWaves(g: Grid, list: seq<Pos>, d: Dir) returns (h: Grid)
    requires IsVertical(d) && Gathered(g, Members(list), d)
    ensures h == ShiftCells(g, Cells(Members(list)), Offset(d))
  {
    ghost var S := Members(list);
    var v := Offset(d);
    ghost var moved: set<Pos> := {};
    assert Cells(moved) == {};
    ShiftCellsEmpty(g, v);
    h := g;
    var pending := set x | x in list;
    while pending != {}
      invariant pending == S - moved && moved <= S
      invariant Upward(S, moved, d)
      invariant Cells(moved) <= g.Keys
      invariant h == ShiftCells(g, Cells(moved), v)
      decreases |pending|
    {
      var blocked;
      h, blocked, moved := CommitWave(g, S, moved, h, pending, d);
      ProperSubsetCard(blocked, pending);
      pending := blocked;
    }
    AllMoved(S, moved);
  }

  /** `try_big_move` as the source runs it: sideways the chain push, up or
      down the search followed by the wave commit. It agrees with the
      outcome stated by `TryBigMove`. */
  method BigMove(g: Grid, pos: Pos, d: Dir) returns (ok: bool, h: Grid)
    requires Paired(g)
    ensures (ok, h) == TryBigMove(g, pos, d)
  {
    if !IsVertical(d) {
      ok, h := ChainPush(g, pos, d, Wall).0, ChainPush(g, pos, d, Wall).1;
      return;
    }
    if pos !in g {
      return true, g;
    }
    if g[pos] == Wall {
      return false, g;
    }
    var start := if g[pos] == BoxLeft then pos else LeftOf(pos);
    var found := FindMovable(g, start, d);
    if !found.0 {
      return false, g;
    }
    FindMovableSound(g, start, d);
    PairedGathered(g, Members(found.1), d);
    h := CommitWaves(g, found.1, d);
    ok := true;
  }

  // ---------------------------------------------------------------- scoring

  /** `box_score` of the second warehouse: GPS coordinates of the left halves. */
  ghost function BoxScore(g: Grid): int {
    SumOver(ItemsOf(g, BoxLeft), Narrow.Weight)
  }

  /** The GPS coordinate grows linearly along a vector. */
  lemma WeightAdd(v: Pos)
    ensures forall p :: Narrow.Weight(Add(p, v)) == Narrow.Weight(p) + Narrow.Weight(v)
  {
  }

  /** The left halves a successful push carries one cell along `d`. */
  function Carried(g: Grid, pos: Pos, d: Dir): set<Pos>
    requires Paired(g)
  {
    if !IsVertical(d) then ItemsOf(g, BoxLeft) * Run(g, pos, d, Wall)
    else if pos !in g || g[pos] == Wall then {}
    else Members(FindMovable(g, if g[pos] == BoxLeft then pos else LeftOf(pos), d).1)
  }

  /** Shifting the cells `C` moves the left halves among them, `M`, and adds
      the GPS step of `v` to the score once per moved box. */
  lemma ShiftCarries(g: Grid, C: set<Pos>, M: set<Pos>, v: Pos)
    requires C <= g.Keys && ItemsOf(g, BoxLeft) * C == M
    requires forall q :: q in Translate(C, v) ==> q in C || q !in g
    ensures M <= ItemsOf(g, BoxLeft)
    ensures ItemsOf(ShiftCells(g, C, v), BoxLeft) == (ItemsOf(g, BoxLeft) - M) + Translate(M, v)
    ensures BoxScore(ShiftCells(g, C, v)) == BoxScore(g) + |M| * Narrow.Weight(v)
  {
    var K := ItemsOf(g, BoxLeft);
    WeightAdd(v);
    ShiftCellsItems(g, C, v, BoxLeft);
    ShiftCellsSum(g, C, v, BoxLeft, Narrow.Weight, Narrow.Weight(v));
    assert K - C == K - M;
  }

  /** A successful push moves exactly the carried boxes one cell along `d`, and
      changes the score by the GPS step of `d` once per carried box: 100 per
      box up or down, 1 per box sideways. */
  lemma TryBigMoveCarries(g: Grid, pos: Pos, d: Dir)
    requires Paired(g) && TryBigMove(g, pos, d).0
    ensures Carried(g, pos, d) <= ItemsOf(g, BoxLeft)
    ensures ItemsOf(TryBigMove(g, pos, d).1, BoxLeft)
            == (ItemsOf(g, BoxLeft) - Carried(g, pos, d)) + Translate(Carried(g, pos, d), Offset(d))
    ensures BoxScore(TryBigMove(g, pos, d).1)
            == BoxScore(g) + |Carried(g, pos, d)| * Narrow.Weight(Offset(d))
  {
    var v := Offset(d);
    if !IsVertical(d) {
      ChainPushTargets(g, pos, d, Wall);
      ShiftCarries(g, Run(g, pos, d, Wall), Carried(g, pos, d), v);
    } else if pos in g && g[pos] != Wall {
      var start := if g[pos] == BoxLeft then pos else LeftOf(pos);
      var S := Members(FindMovable(g, start, d).1);
      FindMovableSound(g, start, d);
      GatheredCells(g, S, d);
      ShiftCarries(g, Cells(S), S, v);
    } else {
      assert Translate({}, v) == {};
    }
  }

  // ---------------------------------------------------------------- driving

  /** One step of the second `process`: the robot moves iff the push in front
      of it succeeds. */
  function MoveRobot(w: WideWarehouse, d: Dir): (r: WideWarehouse)
    requires Valid(w)
    ensures Valid(r)
    ensures r == w || r.robot == Step(w.robot, d)
    ensures r.robot == Step(w.robot, d) <==> TryBigMove(w.floorplan, Step(w.robot, d), d).0
    ensures ItemsOf(r.floorplan, Wall) == ItemsOf(w.floorplan, Wall)
    ensures |ItemsOf(r.floorplan, BoxLeft)| == |ItemsOf(w.floorplan, BoxLeft)|
  {
    var target := Step(w.robot, d);
    assert Sub(target, Offset(d)) == w.robot;
    TryBigMoveKeeps(w.floorplan, target, d);
    var (ok, g) := TryBigMove(w.floorplan, target, d);
    if ok then WideWarehouse(g, target) else w
  }

  /** The moves applied in input order. */
  function Simulate(w: WideWarehouse, moves: seq<Dir>): (r: WideWarehouse)
    requires Valid(w)
    decreases moves
    ensures Valid(r)
    ensures ItemsOf(r.floorplan, Wall) == ItemsOf(w.floorplan, Wall)
    ensures |ItemsOf(r.floorplan, BoxLeft)| == |ItemsOf(w.floorplan, BoxLeft)|
  {
    if moves == [] then w else Simulate(MoveRobot(w, moves[0]), moves[1..])
  }

  /** Running two move lists one after the other is running their concatenation. */
  lemma {:induction false} SimulateAppend(w: WideWarehouse, a: seq<Dir>, b: seq<Dir>)
    requires Valid(w)
    ensures Simulate(w, a + b) == Simulate(Simulate(w, a), b)
    decreases a
  {
    if a != [] {
      assert (a + b)[1..] == a[1..] + b;
      SimulateAppend(MoveRobot(w, a[0]), a[1..], b);
    } else {
      assert a + b == b;
    }
  }

  /** `process` of the second puzzle: the box score after all moves. The map
      must show the robot, so that it starts on floor. */
  ghost function Process(input: string): Option<int>
    requires exists q :: Layout.AtCell(Text.Lines(Narrow.SplitInput(input).0), q, '@')
  {
    match Parse(input)
    case None => None
    case Some((moves, w)) => Some(BoxScore(Simulate(w, moves).floorplan))
  }
}
