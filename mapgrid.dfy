/**
 * The per-cell map the autopilot consults (init_map, get_option_dirs): each
 * cell is stamped with its cycle id, the direction of its cycle successor and
 * the three other directions, which are the candidate shortcuts.
 */
module MapGrid {

  import opened Wrappers
  import opened Cycle

  /**
   * One entry of the map: the direction to the cycle successor (absent until
   * the cell is stamped), the other directions in table order, and the id.
   */
  datatype CellInfo = CellInfo(next: Option<Dir>, optional: seq<Dir>, id: int)

  /** The entry every cell holds before init_map stamps it. */
  const Blank: CellInfo := CellInfo(None, [], 0)

  /** Position of a direction in the DIRECTION table. */
  function Rank(d: Dir): nat {
    match d
    case North => 0
    case South => 1
    case West => 2
    case East => 3
  }

  /** The directions of `dirs`, in their order, that neither lead from c to `to` nor are `next`. */
  function KeepOptions(dirs: seq<Dir>, c: Cell, to: Cell, next: Dir): (r: seq<Dir>)
    requires forall i, j :: 0 <= i < j < |dirs| ==> Rank(dirs[i]) < Rank(dirs[j])
    ensures forall d :: d in r <==> d in dirs && Shift(c, d) != to && d != next
    ensures forall i, j :: 0 <= i < j < |r| ==> Rank(r[i]) < Rank(r[j])
  {
    if dirs == [] then []
    else
      var rest := KeepOptions(dirs[1..], c, to, next);
      assert forall d :: d in rest ==> Rank(dirs[0]) < Rank(d) by {
        forall d | d in rest ensures Rank(dirs[0]) < Rank(d) {
          var k :| 1 <= k < |dirs| && dirs[k] == d;
        }
      }
      if Shift(c, dirs[0]) == to || dirs[0] == next then rest else [dirs[0]] + rest
  }

  /**
   * get_option_dirs: the directions of the DIRECTION table, in table order,
   * that neither lead from c to its successor `to` nor are its direction `next`.
   */
  function OptionDirs(c: Cell, to: Cell, next: Dir): (r: seq<Dir>)
    ensures forall d :: d in r <==> Shift(c, d) != to && d != next
    ensures forall i, j :: 0 <= i < j < |r| ==> Rank(r[i]) < Rank(r[j])
  {
    KeepOptions(Directions, c, to, next)
  }

  /** The directions other than d, in table order. */
  function Others(d: Dir): seq<Dir> {
    match d
    case North => [South, West, East]
    case South => [North, West, East]
    case West => [North, South, East]
    case East => [North, South, West]
  }

  /**
   * What init_map stamps on cell c: its successor direction, the three other
   * directions (see OptionsAreOthers) and its cycle id.
   */
  function InfoAt(n: int, c: Cell): CellInfo {
    var dir := NextStep(n, c).1;
    CellInfo(Some(dir), Others(dir), Id(n, c))
  }

  /**
   * On the cycle the optional directions of a cell are exactly the three
   * directions other than its successor direction, in table order.
   */
  lemma OptionsAreOthers(n: int, c: Cell)
    ensures OptionDirs(c, NextStep(n, c).0, NextStep(n, c).1) == Others(NextStep(n, c).1)
  {
    NextStepFollowsDir(n, c);
    OptionsBesides(c, NextStep(n, c).1);
  }

  /** Leaving out the direction d that leads to Shift(c, d) leaves the other three. */
  lemma OptionsBesides(c: Cell, dir: Dir)
    ensures OptionDirs(c, Shift(c, dir), dir) == Others(dir)
  {
    var r := OptionDirs(c, Shift(c, dir), dir);
    forall d ensures d in r <==> d != dir {
      if d != dir && Shift(c, d) == Shift(c, dir) {
        ShiftInjective(c, d, dir);
      }
    }
    var o := Others(dir);
    assert forall d :: d in o <==> d != dir;
    assert forall i, j :: 0 <= i < j < |o| ==> Rank(o[i]) < Rank(o[j]);
    SortedByRankUnique(r, o);
  }

  /** Two rank-sorted lists of directions with the same members are equal. */
  lemma {:induction false} SortedByRankUnique(r: seq<Dir>, o: seq<Dir>)
    requires forall i, j :: 0 <= i < j < |r| ==> Rank(r[i]) < Rank(r[j])
    requires forall i, j :: 0 <= i < j < |o| ==> Rank(o[i]) < Rank(o[j])
    requires forall d :: d in r <==> d in o
    ensures r == o
    decreases |r| + |o|
  {
    assert r != [] ==> r[0] in o;
    assert o != [] ==> o[0] in r;
    if r != [] && o != [] {
      var k :| 0 <= k < |o| && o[k] == r[0];
      var l :| 0 <= l < |r| && r[l] == o[0];
      assert Rank(o[0]) <= Rank(r[0]) <= Rank(o[0]);
      assert r[0] == o[0];
      assert r == [r[0]] + r[1..];
      assert o == [o[0]] + o[1..];
      forall d ensures d in r[1..] <==> d in o[1..] {
        if d in r[1..] {
          var k :| 1 <= k < |r| && r[k] == d;
          assert Rank(r[0]) < Rank(d);
          assert d in o && d != o[0];
        }
        if d in o[1..] {
          var k :| 1 <= k < |o| && o[k] == d;
          assert Rank(o[0]) < Rank(d);
          assert d in r && d != r[0];
        }
      }
      SortedByRankUnique(r[1..], o[1..]);
    }
  }

  /**
   * The map is the cycle: from every cell, the stamped successor direction
   * leads to an in-grid cell whose id is the next id, (id + 1) mod n*n.
   */
  lemma InfoNextIsSuccessor(n: int, c: Cell)
    requires GridSize(n) && InGrid(n, c)
    ensures InfoAt(n, c).next.Some?
    ensures InGrid(n, Shift(c, InfoAt(n, c).next.value))
    ensures Id(n, Shift(c, InfoAt(n, c).next.value)) == (InfoAt(n, c).id + 1) % (n * n)
  {
    NextStepFollowsDir(n, c);
    NextIdMod(n, c);
  }

  /**
   * init_map: a fresh n-by-n map in which every cell carries its cycle id,
   * its successor direction and its optional directions, built by walking the
   * cycle n*n times from the origin.
   */
  method InitMap(n: int) returns (m: array2<CellInfo>)
    requires GridSize(n)
    ensures fresh(m) && m.Length0 == n && m.Length1 == n
    ensures forall a, b {:trigger m[a, b]} :: 0 <= a < n && 0 <= b < n ==> m[a, b] == InfoAt(n, Cell(a, b))
  {
    m := new CellInfo[n, n]((a, b) => Blank);
    var cx, cy, i := 0, 0, 0;
    while i < n * n
      invariant 0 <= i <= n * n
      invariant i < n * n ==> InGrid(n, Cell(cx, cy)) && Id(n, Cell(cx, cy)) == i
      invariant forall a, b {:trigger m[a, b]} :: 0 <= a < n && 0 <= b < n ==>
                  m[a, b] == if Id(n, Cell(a, b)) < i then InfoAt(n, Cell(a, b)) else Blank
      decreases n * n - i
    {
      var (to, dir) := NextStep(n, Cell(cx, cy));
      forall a, b | 0 <= a < n && 0 <= b < n && Id(n, Cell(a, b)) == i
        ensures a == cx && b == cy
      {
        IdInjective(n, Cell(a, b), Cell(cx, cy));
      }
      OptionsAreOthers(n, Cell(cx, cy));
      m[cx, cy] := m[cx, cy].(id := i, next := Some(dir), optional := OptionDirs(Cell(cx, cy), to, dir));
      i := i + 1;
      if i < n * n {
        LastCell(n);
        IdSucc(n, Cell(cx, cy));
      }
      cx, cy := to.x, to.y;
    }
  }
}
