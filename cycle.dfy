/**
 * The fixed Hamiltonian cycle the autopilot follows over an n-by-n grid.
 *
 * `NextStep` is the successor rule of the cycle: north up column 0, east along
 * the top row, then serpentine down through columns 1..n-1, and finally west
 * along row 0 back to the origin.  `Id` gives, in closed form, the position of
 * every cell on that cycle; the lemmas below show that walking `NextStep` n*n
 * times from the origin visits every cell exactly once and comes back, which
 * is what stamping cycle ids in `init_map` relies on.
 */
module Cycle {

  datatype Cell = Cell(x: int, y: int)

  /** The four entries of the DIRECTION table. */
  datatype Dir = North | South | West | East

  /** DIRECTION in table order. */
  const Directions: seq<Dir> := [North, South, West, East]

  const Origin: Cell := Cell(0, 0)

  function DX(d: Dir): int {
    match d
    case West => -1
    case East => 1
    case _ => 0
  }

  function DY(d: Dir): int {
    match d
    case North => 1
    case South => -1
    case _ => 0
  }

  /** Where a step in direction d from c lands. */
  function Shift(c: Cell, d: Dir): Cell {
    Cell(c.x + DX(d), c.y + DY(d))
  }

  function Abs(v: int): nat {
    if v < 0 then -v else v
  }

  /** a and b are one orthogonal unit apart. */
  predicate Adjacent(a: Cell, b: Cell) {
    Abs(a.x - b.x) + Abs(a.y - b.y) == 1
  }

  /** The sizes for which the successor rule closes into a single cycle. */
  predicate GridSize(n: int) {
    n >= 2 && n % 2 == 0
  }

  predicate InGrid(n: int, c: Cell) {
    0 <= c.x < n && 0 <= c.y < n
  }

  /** Distinct directions lead from a cell to distinct cells. */
  lemma ShiftInjective(c: Cell, d: Dir, e: Dir)
    requires Shift(c, d) == Shift(c, e)
    ensures d == e
  {
  }

  /**
   * The successor of c on the cycle and the direction that leads there
   * (nextStep).  From an in-grid cell the result is in the grid.  The parity
   * test is JavaScript's `py % 2 === 1`, which is false for negative py.
   */
  function NextStep(n: int, c: Cell): (r: (Cell, Dir))
    ensures 2 <= n && InGrid(n, c) ==> InGrid(n, r.0)
  {
    var px, py := c.x, c.y;
    if px == 0 && py == 0 then (Cell(px, py + 1), North)
    else if px == 0 && py == n - 1 then (Cell(px + 1, py), East)
    else if px == n - 1 && py == n - 1 then (Cell(px, py - 1), South)
    else if px == 0 then (Cell(px, py + 1), North)
    else if py == 0 then (Cell(px - 1, py), West)
    else if py > 0 && py % 2 == 1 then
      if px != n - 1 then (Cell(px + 1, py), East) else (Cell(px, py - 1), South)
    else
      if px != 1 then (Cell(px - 1, py), West) else (Cell(px, py - 1), South)
  }

  /**
   * Whatever the input, the direction nextStep returns is the offset between
   * c and the cell it returns, so the successor is one orthogonal unit away.
   */
  lemma NextStepFollowsDir(n: int, c: Cell)
    ensures NextStep(n, c).0 == Shift(c, NextStep(n, c).1)
    ensures Adjacent(c, NextStep(n, c).0)
  {
  }

  /** The cell reached from c after k successor steps. */
  function Walk(n: int, c: Cell, k: nat): (r: Cell)
    ensures 2 <= n && InGrid(n, c) ==> InGrid(n, r)
  {
    if k == 0 then c else NextStep(n, Walk(n, c, k - 1)).0
  }

  /** Offset of a cell with x >= 1 inside its row: odd rows run east, even rows west. */
  function RowOffset(n: int, c: Cell): int {
    if c.y % 2 == 1 then c.x - 1 else n - 1 - c.x
  }

  /**
   * First id of the cells with x >= 1 in row y: the top row starts right
   * after column 0, and each lower row starts n-1 ids after the one above.
   */
  function RowBase(n: int, y: int): int
    decreases n - y
  {
    if y >= n - 1 then n else RowBase(n, y + 1) + (n - 1)
  }

  /**
   * Reference definition of the cycle index of a cell: column 0 holds ids
   * 0..n-1 bottom to top, then the rows follow from the top row down, each
   * holding n-1 ids in the order the serpentine visits them.
   */
  function Id(n: int, c: Cell): (r: int)
    ensures GridSize(n) && InGrid(n, c) ==> 0 <= r < n * n && (r == 0 <==> c == Origin)
  {
    if c.x == 0 then c.y
    else
      var id := RowBase(n, c.y) + RowOffset(n, c);
      // The test only brings the range lemmas into scope; both arms return id.
      if GridSize(n) && InGrid(n, c) then
        RowBaseClosed(n, c.y);
        IdBlockBounds(n, n - 1 - c.y, RowOffset(n, c));
        id
      else id
  }

  /**
   * The predecessor of c on the cycle, in closed form: the cell whose
   * successor is c.
   */
  function Prev(n: int, c: Cell): Cell {
    if c.x == 0 then
      if c.y == 0 then Cell(1, 0) else Cell(0, c.y - 1)
    else if c.y % 2 == 1 then
      if c.x == 1 then (if c.y == n - 1 then Cell(0, n - 1) else Cell(1, c.y + 1))
      else Cell(c.x - 1, c.y)
    else
      if c.x == n - 1 then Cell(n - 1, c.y + 1) else Cell(c.x + 1, c.y)
  }

  lemma {:induction false} RowBaseClosed(n: int, y: int)
    requires y <= n - 1
    ensures RowBase(n, y) == n + (n - 1 - y) * (n - 1)
    decreases n - y
  {
    if y < n - 1 {
      RowBaseClosed(n, y + 1);
      assert (n - 1 - y) * (n - 1) == (n - 1 - (y + 1)) * (n - 1) + (n - 1);
    }
  }

  /** A cell t rows below the top, at offset off in its row, has an id in [n, n*n). */
  lemma IdBlockBounds(n: int, t: int, off: int)
    requires n >= 2 && 0 <= t <= n - 1 && 0 <= off <= n - 2
    ensures n <= n + t * (n - 1) + off < n * n
  {
    assert t * (n - 1) <= (n - 1) * (n - 1);
    assert (n - 1) * (n - 1) == n * n - 2 * n + 1;
  }

  /** The last cell of the cycle, (1, 0), has id n*n-1 and its successor is the origin. */
  lemma LastCell(n: int)
    requires GridSize(n)
    ensures Id(n, Cell(1, 0)) == n * n - 1
    ensures NextStep(n, Cell(1, 0)).0 == Origin
  {
    RowBaseClosed(n, 0);
    assert (n - 1) * (n - 1) == n * n - 2 * n + 1;
  }

  /** Apart from the last cell (1, 0), the successor of a cell has the next id. */
  lemma IdSucc(n: int, c: Cell)
    requires GridSize(n) && InGrid(n, c) && c != Cell(1, 0)
    ensures Id(n, NextStep(n, c).0) == Id(n, c) + 1
  {
  }

  /** The successor of a cell has id (id + 1) mod n*n. */
  lemma NextIdMod(n: int, c: Cell)
    requires GridSize(n) && InGrid(n, c)
    ensures Id(n, NextStep(n, c).0) == (Id(n, c) + 1) % (n * n)
  {
    var t := n * n;
    var v := Id(n, c) + 1;
    LastCell(n);
    if c == Cell(1, 0) {
      assert v == t;
    } else {
      IdSucc(n, c);
      if v == t {
        IdInjective(n, c, Cell(1, 0));
      }
      assert v < t;
    }
    ModWrap(t, v);
  }

  /** Adding one to an id in [0, t) stays below t, or wraps to 0. */
  lemma ModWrap(t: int, v: int)
    requires 0 < v <= t
    ensures v % t == if v == t then 0 else v
  {
  }

  /** Prev(c) is an in-grid cell whose successor is c. */
  lemma PrevIsPredecessor(n: int, c: Cell)
    requires GridSize(n) && InGrid(n, c)
    ensures InGrid(n, Prev(n, c)) && NextStep(n, Prev(n, c)).0 == c
  {
  }

  /** Walking k < n*n steps from the origin reaches the cell with id k. */
  lemma {:induction false} WalkId(n: int, k: nat)
    requires GridSize(n) && k < n * n
    ensures Id(n, Walk(n, Origin, k)) == k
  {
    if k > 0 {
      WalkId(n, k - 1);
      var w := Walk(n, Origin, k - 1);
      if w == Cell(1, 0) {
        LastCell(n);
        assert false;
      }
      IdSucc(n, w);
    }
  }

  /** Every in-grid cell is reached from the origin after exactly Id(c) steps. */
  lemma {:induction false} WalkReaches(n: int, c: Cell)
    requires GridSize(n) && InGrid(n, c)
    ensures Walk(n, Origin, Id(n, c)) == c
    decreases Id(n, c)
  {
    if c != Origin {
      var p := Prev(n, c);
      PrevIsPredecessor(n, c);
      if p == Cell(1, 0) {
        LastCell(n);
      }
      IdSucc(n, p);
      WalkReaches(n, p);
    }
  }

  /**
   * Why the grid size must be even: on a 3-by-3 grid the successor rule is
   * back at the origin after 8 steps and never visits the corner (2, 2).
   */
  lemma OddSizeMissesCorner()
    ensures Walk(3, Origin, 8) == Origin
    ensures forall k: nat :: k <= 8 ==> Walk(3, Origin, k) != Cell(2, 2)
  {
  }

  /** Distinct in-grid cells have distinct ids. */
  lemma IdInjective(n: int, a: Cell, b: Cell)
    requires GridSize(n) && InGrid(n, a) && InGrid(n, b)
    requires Id(n, a) == Id(n, b)
    ensures a == b
  {
    WalkReaches(n, a);
    WalkReaches(n, b);
  }

  /** The first n*n cells of the walk from the origin are pairwise distinct. */
  lemma WalkDistinct(n: int, i: nat, j: nat)
    requires GridSize(n) && i < j < n * n
    ensures Walk(n, Origin, i) != Walk(n, Origin, j)
  {
    WalkId(n, i);
    WalkId(n, j);
  }

  /** After n*n steps the walk from the origin is back at the origin. */
  lemma WalkCloses(n: int)
    requires GridSize(n)
    ensures Walk(n, Origin, n * n) == Origin
  {
    var last := Walk(n, Origin, n * n - 1);
    WalkId(n, n * n - 1);
    LastCell(n);
    IdInjective(n, last, Cell(1, 0));
  }

  /**
   * For an even grid size, iterating the successor n*n times from the origin
   * is a Hamiltonian cycle: every step stays in the grid and moves one unit,
   * the first n*n cells are pairwise distinct, every cell is among them, and
   * the walk ends back at the origin.
   */
  lemma HamiltonianCycle(n: int)
    requires GridSize(n)
    ensures forall k: nat :: k < n * n ==> InGrid(n, Walk(n, Origin, k))
    ensures forall k: nat :: k < n * n ==> Adjacent(Walk(n, Origin, k), Walk(n, Origin, k + 1))
    ensures forall i: nat, j: nat :: i < j < n * n ==> Walk(n, Origin, i) != Walk(n, Origin, j)
    ensures forall c :: InGrid(n, c) ==> Walk(n, Origin, Id(n, c)) == c
    ensures Walk(n, Origin, n * n) == Origin
  {
    forall k: nat | k < n * n
      ensures Adjacent(Walk(n, Origin, k), Walk(n, Origin, k + 1))
    {
      NextStepFollowsDir(n, Walk(n, Origin, k));
    }
    forall i: nat, j: nat | i < j < n * n
      ensures Walk(n, Origin, i) != Walk(n, Origin, j)
    {
      WalkDistinct(n, i, j);
    }
    forall c | InGrid(n, c)
      ensures Walk(n, Origin, Id(n, c)) == c
    {
      WalkReaches(n, c);
    }
    WalkCloses(n);
  }

  /**
   * Forward distance from cycle index pid to cycle index aid (apple_distance):
   * the number of successor steps from pid until aid is reached.
   */
  function AppleDistance(n: int, pid: int, aid: int): (r: int)
    ensures 0 <= pid < n * n && 0 <= aid < n * n ==>
              0 <= r < n * n && (r == 0 <==> pid == aid) && (pid + r) % (n * n) == aid
  {
    var total := n * n;
    if aid >= pid then aid - pid else aid + total - pid
  }

  /** Going from a to b and back again is one full turn of the cycle. */
  lemma DistanceRoundTrip(n: int, a: int, b: int)
    requires 0 <= a < n * n && 0 <= b < n * n && a != b
    ensures AppleDistance(n, a, b) + AppleDistance(n, b, a) == n * n
  {
  }

  /**
   * Following the cycle AppleDistance(Id(c), k) steps from c lands on the cell
   * with id k: the distance counts successor steps.
   */
  lemma DistanceCountsSteps(n: int, c: Cell, k: int)
    requires GridSize(n) && InGrid(n, c) && 0 <= k < n * n
    ensures Id(n, Walk(n, c, AppleDistance(n, Id(n, c), k))) == k
  {
    WalkIdFrom(n, c, AppleDistance(n, Id(n, c), k));
  }

  /** Walking j < n*n steps from c advances the id by j, wrapping past n*n-1. */
  lemma {:induction false} WalkIdFrom(n: int, c: Cell, j: nat)
    requires GridSize(n) && InGrid(n, c) && j < n * n
    ensures Id(n, Walk(n, c, j)) == if Id(n, c) + j < n * n then Id(n, c) + j else Id(n, c) + j - n * n
  {
    if j > 0 {
      WalkIdFrom(n, c, j - 1);
      var w := Walk(n, c, j - 1);
      if w == Cell(1, 0) {
        LastCell(n);
      } else {
        IdSucc(n, w);
      }
    }
  }
}
