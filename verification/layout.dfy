/** Reading a warehouse map text into a sparse floor plan, shared by both
    warehouses: every character the item table knows becomes a key at its
    (row, column), the robot `@` is remembered apart, and everything else is
    floor. */
module Layout {
  import opened Common

  /** A floor plan together with the robot's position. */
  datatype Scanned<T> = Scanned(floorplan: map<Pos, T>, robot: Pos)

  /** Does `ls` hold character `c` at row `p.row`, column `p.col`? */
  predicate AtCell(ls: seq<string>, p: Pos, c: char) {
    0 <= p.row < |ls| && 0 <= p.col < |ls[p.row]| && ls[p.row][p.col] == c
  }

  /** `q` comes after `p` in row-major order. */
  predicate After(p: Pos, q: Pos) {
    q.row > p.row || (q.row == p.row && q.col > p.col)
  }

  /** The item the text shows at `p`, if the text has a cell there. */
  function ItemAt<T>(ls: seq<string>, p: Pos, kind: char -> Option<T>): Option<T> {
    if 0 <= p.row < |ls| && 0 <= p.col < |ls[p.row]| then kind(ls[p.row][p.col]) else None
  }

  /** The column loop over `line[col..]`. */
  function ScanRow<T>(line: string, row: int, col: nat, kind: char -> Option<T>, w: Scanned<T>): (r: Scanned<T>)
    requires col <= |line| && kind('@').None?
    decreases |line| - col
    ensures forall p :: p in r.floorplan <==>
      (p.row == row && col <= p.col < |line| && kind(line[p.col]).Some?) || p in w.floorplan
    ensures forall p :: p in r.floorplan ==>
      r.floorplan[p] == (if p.row == row && col <= p.col < |line| && kind(line[p.col]).Some?
                         then kind(line[p.col]).value else w.floorplan[p])
    ensures (r.robot == w.robot && forall j :: col <= j < |line| ==> line[j] != '@')
            || (r.robot.row == row && col <= r.robot.col < |line| && line[r.robot.col] == '@'
                && forall j :: r.robot.col < j < |line| ==> line[j] != '@')
  {
    if col == |line| then w
    else
      var pos := Pos(row, col);
      var c := line[col];
      var next :=
        match kind(c)
        case Some(item) => Scanned(w.floorplan[pos := item], w.robot)
        case None => if c == '@' then Scanned(w.floorplan, pos) else w;
      ScanRow(line, row, col + 1, kind, next)
  }

  /** The row loop over `ls[row..]`. */
  function ScanRows<T>(ls: seq<string>, row: nat, kind: char -> Option<T>, w: Scanned<T>): (r: Scanned<T>)
    requires row <= |ls| && kind('@').None?
    decreases |ls| - row
    ensures forall p :: p in r.floorplan <==> (row <= p.row && ItemAt(ls, p, kind).Some?) || p in w.floorplan
    ensures forall p :: p in r.floorplan ==>
      r.floorplan[p] == (if row <= p.row && ItemAt(ls, p, kind).Some? then ItemAt(ls, p, kind).value else w.floorplan[p])
    ensures (r.robot == w.robot && forall q: Pos :: row <= q.row ==> !AtCell(ls, q, '@'))
            || (row <= r.robot.row && AtCell(ls, r.robot, '@')
                && forall q :: After(r.robot, q) ==> !AtCell(ls, q, '@'))
  {
    if row == |ls| then w
    else
      var w1 := ScanRow(ls[row], row, 0, kind, w);
      var r := ScanRows(ls, row + 1, kind, w1);
      assert forall q: Pos :: q.row == row ==>
        (ItemAt(ls, q, kind) == if 0 <= q.col < |ls[row]| then kind(ls[row][q.col]) else None);
      r
  }

  /** The whole text, starting from an empty floor plan and the robot at (0, 0). */
  function Scan<T>(ls: seq<string>, kind: char -> Option<T>): Scanned<T>
    requires kind('@').None?
  {
    ScanRows(ls, 0, kind, Scanned(map[], Pos(0, 0)))
  }

  /** What the scan builds: a key exactly where the text shows a known item,
      and the robot on the last `@` in reading order, or at (0, 0) if there is none. */
  lemma ScanContents<T>(ls: seq<string>, kind: char -> Option<T>)
    requires kind('@').None?
    ensures var w := Scan(ls, kind);
            (forall p :: p in w.floorplan <==> ItemAt(ls, p, kind).Some?)
            && (forall p :: p in w.floorplan ==> w.floorplan[p] == ItemAt(ls, p, kind).value)
            && ((w.robot == Pos(0, 0) && forall q: Pos :: !AtCell(ls, q, '@'))
                || (AtCell(ls, w.robot, '@') && forall q :: After(w.robot, q) ==> !AtCell(ls, q, '@')))
  {
    forall p | ItemAt(ls, p, kind).Some?
      ensures 0 <= p.row
    {
    }
    forall q | AtCell(ls, q, '@')
      ensures 0 <= q.row
    {
    }
  }

  /** Only the floor-plan half of `ScanContents`. */
  lemma ScanKeys<T>(ls: seq<string>, kind: char -> Option<T>, p: Pos)
    requires kind('@').None?
    ensures p in Scan(ls, kind).floorplan <==> ItemAt(ls, p, kind).Some?
    ensures p in Scan(ls, kind).floorplan ==> Scan(ls, kind).floorplan[p] == ItemAt(ls, p, kind).value
  {
    ScanContents(ls, kind);
  }

  /** A text that shows the robot puts it on floor. */
  lemma ScanRobotFree<T>(ls: seq<string>, kind: char -> Option<T>)
    requires kind('@').None?
    requires exists q :: AtCell(ls, q, '@')
    ensures Scan(ls, kind).robot !in Scan(ls, kind).floorplan
  {
    ScanContents(ls, kind);
  }
}
