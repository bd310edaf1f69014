/** The first warehouse: single-cell boxes `O`, walls `#` and one robot `@`.

    The floor plan keeps only walls and boxes; the robot's position is held
    apart and is never a key of the floor plan. A move pushes the chain of
    boxes in front of the robot one cell further if the cell past the chain
    is floor. */
module Narrow {
  import opened Common
  import opened Push
  import Text
  import Layout

  datatype Item = Box | Wall

  type Grid = map<Pos, Item>

  /** The `height` and `width` of the source only serve its rendering and are not kept. */
  datatype Warehouse = Warehouse(floorplan: Grid, robot: Pos)

  /** The robot stands on floor. */
  predicate RobotFree(w: Warehouse) {
    w.robot !in w.floorplan
  }

  // ---------------------------------------------------------------- parsing

  /** The item a map character stands for: walls and boxes are kept, every
      other character (floor, the robot, anything unexpected) is floor. */
  function ItemOf(c: char): (r: Option<Item>)
    ensures r == Some(Wall) <==> c == '#'
    ensures r == Some(Box) <==> c == 'O'
  {
    if c == '#' then Some(Wall) else if c == 'O' then Some(Box) else None
  }

  /** `Warehouse::from`: the map text is read line by line; the robot defaults to (0, 0). */
  function FromText(text: string): (w: Warehouse)
    ensures var ls := Text.Lines(text);
            (forall p :: p in w.floorplan <==> Layout.ItemAt(ls, p, ItemOf).Some?)
            && (forall p :: p in w.floorplan ==> w.floorplan[p] == Layout.ItemAt(ls, p, ItemOf).value)
    ensures var ls := Text.Lines(text);
            (w.robot == Pos(0, 0) && forall q: Pos :: !Layout.AtCell(ls, q, '@'))
            || (Layout.AtCell(ls, w.robot, '@') && forall q :: Layout.After(w.robot, q) ==> !Layout.AtCell(ls, q, '@'))
    ensures (exists q :: Layout.AtCell(Text.Lines(text), q, '@')) ==> RobotFree(w)
  {
    var ls := Text.Lines(text);
    var s := Layout.Scan(ls, ItemOf);
    Layout.ScanContents(ls, ItemOf);
    Warehouse(s.floorplan, s.robot)
  }

  /** The move character for each direction. */
  function MoveOf(c: char): (r: Option<Dir>)
    ensures r.Some? <==> c in {'>', 'v', '<', '^'}
  {
    match c
    case '>' => Some(Right)
    case 'v' => Some(Down)
    case '<' => Some(Left)
    case '^' => Some(Up)
    case _ => None
  }

  function MoveChar(d: Dir): char {
    match d
    case Right => '>'
    case Down => 'v'
    case Left => '<'
    case Up => '^'
  }

  /** Reading a run of move characters; any other character aborts the
      parse, as the source's `unreachable!` does. */
  function ParseMoveChars(cs: string): (r: Option<seq<Dir>>)
    ensures r.Some? <==> forall i :: 0 <= i < |cs| ==> MoveOf(cs[i]).Some?
    ensures r.Some? ==> |r.value| == |cs| && forall i :: 0 <= i < |cs| ==> Some(r.value[i]) == MoveOf(cs[i])
  {
    if cs == [] then Some([])
    else
      match MoveOf(cs[0])
      case None => None
      case Some(d) =>
        match ParseMoveChars(cs[1..])
        case None => None
        case Some(ds) => Some([d] + ds)
  }

  /** Writing moves as characters and reading them back gives the moves. */
  lemma ParseMoveCharsRoundTrip(ds: seq<Dir>)
    ensures ParseMoveChars(seq(|ds|, i requires 0 <= i < |ds| => MoveChar(ds[i]))) == Some(ds)
  {
    var cs := seq(|ds|, i requires 0 <= i < |ds| => MoveChar(ds[i]));
    forall i | 0 <= i < |cs|
      ensures MoveOf(cs[i]) == Some(ds[i])
    {
    }
    var r := ParseMoveChars(cs);
    assert r.Some?;
    assert forall i :: 0 <= i < |ds| ==> r.value[i] == ds[i];
    assert r.value == ds;
  }

  /** All lines of a text, put end to end. */
  function Flatten(ls: seq<string>): string {
    if ls == [] then [] else ls[0] + Flatten(ls[1..])
  }

  /** The move list: line breaks are skipped, every other character must be a move. */
  function ParseMoves(text: string): Option<seq<Dir>> {
    ParseMoveChars(Flatten(Text.Lines(text)))
  }

  /** Line breaks between move characters are skipped. */
  lemma ParseMovesSkipsLineBreaks(ls: seq<string>)
    requires forall i, j :: 0 <= i < |ls| && 0 <= j < |ls[i]| ==> ls[i][j] != '\n'
    requires forall i :: 0 <= i < |ls| && |ls[i]| > 0 ==> ls[i][|ls[i]| - 1] != '\r'
    ensures ParseMoves(Text.JoinLines(ls)) == ParseMoveChars(Flatten(ls))
  {
    Text.LinesJoinLines(ls);
  }

  /** `split_once("\n\n").unwrap_or_default()`: without a blank line both parts are empty. */
  function SplitInput(input: string): (r: (string, string))
    ensures Text.SplitOnce(input, "\n\n").None? ==> r == ("", "")
    ensures Text.SplitOnce(input, "\n\n").Some? ==> input == r.0 + "\n\n" + r.1
  {
    match Text.SplitOnce(input, "\n\n")
    case None => ("", "")
    case Some(parts) => parts
  }

  /** `parse` of the first driver; `None` where the source panics on a bad move character. */
  function Parse(input: string): (r: Option<(seq<Dir>, Warehouse)>)
    ensures r.Some? ==> r.value.1 == FromText(SplitInput(input).0)
    ensures r.Some? <==> ParseMoves(SplitInput(input).1).Some?
  {
    var (grid, moves) := SplitInput(input);
    match ParseMoves(moves)
    case None => None
    case Some(ds) => Some((ds, FromText(grid)))
  }

  // ---------------------------------------------------------------- pushing

  /** `try_move`: push whatever sits at `pos` one cell along `d`. */
  function TryMove(g: Grid, pos: Pos, d: Dir): (r: (bool, Grid))
    ensures pos !in g ==> r == (true, g)
    ensures pos in g && g[pos] == Wall ==> r == (false, g)
    ensures !r.0 ==> r.1 == g
    ensures r.0 ==> pos !in r.1
  {
    ChainPush(g, pos, d, Wall)
  }

  /** A successful push of a box chain is the same as lifting its first box
      and dropping it just past the chain: all boxes look alike. */
  lemma {:induction false} TryMoveLiftsFirstBox(g: Grid, pos: Pos, d: Dir)
    requires TryMove(g, pos, d).0 && pos in g
    ensures var n := RunLength(g, pos, d, Wall);
            n >= 1 && Along(pos, d, n) !in g
            && TryMove(g, pos, d).1 == (g - {pos})[Along(pos, d, n) := Box]
    decreases |KeysAhead(g, pos, d)|
  {
    var n := RunLength(g, pos, d, Wall);
    var next := Step(pos, d);
    KeysAheadShrinks(g, pos, d);
    assert g[pos] == Box;
    assert Along(pos, d, n) == Along(next, d, RunLength(g, next, d, Wall));
    var pushed := ChainPush(g, next, d, Wall).1;
    assert TryMove(g, pos, d).1 == (pushed - {pos})[next := Box];
    if next !in g {
      assert Along(next, d, 0) == next;
    } else {
      TryMoveLiftsFirstBox(g, next, d);
      var m := RunLength(g, next, d, Wall);
      var end := Along(next, d, m);
      assert pushed == (g - {next})[end := Box];
      StepCoordinates(pos, d);
      assert end != pos && end != next;
      assert g[next] == Box;
    }
  }

  /** A push changes no wall, and keeps the number of boxes. */
  lemma TryMoveKeepsItems(g: Grid, pos: Pos, d: Dir)
    ensures ItemsOf(TryMove(g, pos, d).1, Wall) == ItemsOf(g, Wall)
    ensures |ItemsOf(TryMove(g, pos, d).1, Box)| == |ItemsOf(g, Box)|
  {
    ChainPushKeepsCount(g, pos, d, Wall, Box);
    if TryMove(g, pos, d).0 && pos in g {
      TryMoveLiftsFirstBox(g, pos, d);
    }
  }

  // ---------------------------------------------------------------- scoring

  /** The GPS coordinate of a cell: 100 per row plus the column. */
  function Weight(p: Pos): int {
    100 * p.row + p.col
  }

  /** `box_score`: the GPS coordinates summed over the boxes; walls count nothing. */
  ghost function BoxScore(g: Grid): int {
    SumOver(ItemsOf(g, Box), Weight)
  }

  /** Adding a wall does not change the score. */
  lemma WallsDoNotScore(g: Grid, p: Pos)
    requires p !in g
    ensures BoxScore(g[p := Wall]) == BoxScore(g)
  {
    assert ItemsOf(g[p := Wall], Box) == ItemsOf(g, Box);
  }

  /** Adding a box adds its GPS coordinate. */
  lemma BoxesScore(g: Grid, p: Pos)
    requires p !in g
    ensures BoxScore(g[p := Box]) == BoxScore(g) + Weight(p)
  {
    var s := ItemsOf(g[p := Box], Box);
    assert s - {p} == ItemsOf(g, Box);
    SumOverRemove(s, Weight, p);
  }

  /** A successful push changes the score by exactly the displacement of one box
      from the head of the chain to the cell past it. */
  lemma TryMoveScore(g: Grid, pos: Pos, d: Dir)
    requires TryMove(g, pos, d).0 && pos in g
    ensures BoxScore(TryMove(g, pos, d).1)
            == BoxScore(g) - Weight(pos) + Weight(Along(pos, d, RunLength(g, pos, d, Wall)))
  {
    TryMoveLiftsFirstBox(g, pos, d);
    var lifted := g - {pos};
    var end := Along(pos, d, RunLength(g, pos, d, Wall));
    BoxesScore(lifted, end);
    assert ItemsOf(lifted, Box) == ItemsOf(g, Box) - {pos};
    SumOverRemove(ItemsOf(g, Box), Weight, pos);
  }

  // ---------------------------------------------------------------- driving

  /** One step of `process`: the robot moves iff the push in front of it succeeds. */
  function MoveRobot(w: Warehouse, d: Dir): (r: Warehouse)
    ensures r == w || (r.robot == Step(w.robot, d) && RobotFree(r))
    ensures r.robot == Step(w.robot, d) <==> TryMove(w.floorplan, Step(w.robot, d), d).0
    ensures ItemsOf(r.floorplan, Wall) == ItemsOf(w.floorplan, Wall)
    ensures |ItemsOf(r.floorplan, Box)| == |ItemsOf(w.floorplan, Box)|
    ensures RobotFree(w) ==> RobotFree(r)
  {
    var target := Step(w.robot, d);
    TryMoveKeepsItems(w.floorplan, target, d);
    var (ok, g) := TryMove(w.floorplan, target, d);
    if ok then Warehouse(g, target) else w
  }

  /** The moves applied in input order. */
  function Simulate(w: Warehouse, moves: seq<Dir>): (r: Warehouse)
    decreases moves
    ensures ItemsOf(r.floorplan, Wall) == ItemsOf(w.floorplan, Wall)
    ensures |ItemsOf(r.floorplan, Box)| == |ItemsOf(w.floorplan, Box)|
    ensures RobotFree(w) ==> RobotFree(r)
  {
    if moves == [] then w else Simulate(MoveRobot(w, moves[0]), moves[1..])
  }

  /** Running two move lists one after the other is running their concatenation. */
  lemma {:induction false} SimulateAppend(w: Warehouse, a: seq<Dir>, b: seq<Dir>)
    ensures Simulate(w, a + b) == Simulate(Simulate(w, a), b)
    decreases a
  {
    if a != [] {
      assert (a + b)[1..] == a[1..] + b;
      SimulateAppend(MoveRobot(w, a[0]), a[1..], b);
    } else {
      assert a + b == b;
    }
  }

  /** `process` of the first puzzle: the box score after all moves. */
  ghost function Process(input: string): Option<int> {
    match Parse(input)
    case None => None
    case Some((moves, w)) => Some(BoxScore(Simulate(w, moves).floorplan))
  }
}
