/**
 * The autopilot proper: the snake's body, the apple, and one tick of play.
 *
 * Each tick `Plan` looks at the head's optional neighbours (the directions
 * that leave the cycle) and takes the first one that is in the grid, strictly
 * closer to the apple along the cycle, and from which following the cycle is
 * safe; otherwise it takes the cycle successor.  `Step` moves the head there
 * and either grows the body (the apple is eaten and a new one placed on a
 * free cell) or slides it.
 */
module Autopilot {

  import opened Wrappers
  import opened Cycle
  import opened MapGrid

  /**
   * find_position: for the head-most segment i equal to c, the number of
   * segments behind it, |body| - 1 - i (the tail scores 0); -1 when c is not
   * on the body.
   */
  function Position(body: seq<Cell>, c: Cell): (r: int)
    ensures -1 <= r < |body|
    ensures r == -1 <==> c !in body
  {
    if body == [] then -1
    else if body[0] == c then |body| - 1
    else Position(body[1..], c)
  }

  /**
   * A position other than -1 names the head-most segment equal to c: the
   * one |body| - 1 - r from the head, with no equal segment before it.
   */
  lemma {:induction false} PositionIsHeadMost(body: seq<Cell>, c: Cell)
    requires Position(body, c) != -1
    ensures var r := Position(body, c);
            body[|body| - 1 - r] == c && c !in body[..|body| - 1 - r]
  {
    if body[0] != c {
      var r := Position(body[1..], c);
      PositionIsHeadMost(body[1..], c);
      assert body[1..][..|body| - 1 - r - 1] == body[1..|body| - 1 - r];
    }
  }

  /** Conversely, the first index i holding c determines the position: |body| - 1 - i. */
  lemma {:induction false} PositionOfFirst(body: seq<Cell>, c: Cell, i: nat)
    requires i < |body| && body[i] == c && c !in body[..i]
    ensures Position(body, c) == |body| - 1 - i
  {
    if i > 0 {
      assert body[0] in body[..i];
      assert body[1..][..i - 1] == body[1..i];
      PositionOfFirst(body[1..], c, i - 1);
    }
  }

  /** A segment at tail distance Position(body, c) is gone after i more moves when that distance is at most i. */
  predicate VacatedBy(body: seq<Cell>, c: Cell, i: int) {
    var pos := Position(body, c);
    pos == -1 || pos <= i
  }

  /**
   * has_safe_route from cell c at step i: stepping along the cycle until i
   * reaches the body length, every cell met is off the body or vacated by
   * the step at which it is met.
   */
  function SafeFrom(n: int, body: seq<Cell>, c: Cell, i: nat): bool
    decreases |body| - i
  {
    if i >= |body| then true
    else VacatedBy(body, c, i) && SafeFrom(n, body, NextStep(n, c).0, i + 1)
  }

  lemma SafeFromStep(n: int, body: seq<Cell>, c: Cell, i: nat)
    requires i < |body| && VacatedBy(body, c, i)
    ensures SafeFrom(n, body, c, i) == SafeFrom(n, body, NextStep(n, c).0, i + 1)
  {
  }

  /** has_safe_route's condition, checked from step 0. */
  predicate SafeRoute(n: int, body: seq<Cell>, c: Cell) {
    SafeFrom(n, body, c, 0)
  }

  lemma {:induction false} WalkShift(n: int, c: Cell, k: nat)
    ensures Walk(n, NextStep(n, c).0, k) == Walk(n, c, k + 1)
  {
    if k > 0 {
      WalkShift(n, c, k - 1);
    }
  }

  lemma {:induction false} SafeFromSound(n: int, body: seq<Cell>, c: Cell, i: nat, k: nat)
    requires SafeFrom(n, body, c, i) && i + k < |body|
    ensures VacatedBy(body, Walk(n, c, k), i + k)
    decreases k
  {
    if k > 0 {
      var next := NextStep(n, c).0;
      SafeFromSound(n, body, next, i + 1, k - 1);
      WalkShift(n, c, k - 1);
    }
  }

  lemma {:induction false} SafeFromComplete(n: int, body: seq<Cell>, c: Cell, i: nat)
    requires forall k: nat :: i + k < |body| ==> VacatedBy(body, Walk(n, c, k), i + k)
    ensures SafeFrom(n, body, c, i)
    decreases |body| - i
  {
    if i < |body| {
      var next := NextStep(n, c).0;
      forall k: nat | (i + 1) + k < |body|
        ensures VacatedBy(body, Walk(n, next, k), (i + 1) + k)
      {
        WalkShift(n, c, k);
        assert VacatedBy(body, Walk(n, c, k + 1), i + (k + 1));
      }
      SafeFromComplete(n, body, next, i + 1);
      assert VacatedBy(body, Walk(n, c, 0), i + 0);
    }
  }

  /**
   * has_safe_route(c) holds exactly when, for every i below the body length,
   * the cell i cycle steps after c is off the body or has tail distance at
   * most i, so that it will have been vacated when the head gets there.
   */
  lemma SafeRouteAtEveryStep(n: int, body: seq<Cell>, c: Cell)
    ensures SafeRoute(n, body, c) ==> forall i: nat :: i < |body| ==> VacatedBy(body, Walk(n, c, i), i)
    ensures (forall i: nat :: i < |body| ==> VacatedBy(body, Walk(n, c, i), i)) ==> SafeRoute(n, body, c)
  {
    if SafeRoute(n, body, c) {
      forall i: nat | i < |body| ensures VacatedBy(body, Walk(n, c, i), i) {
        SafeFromSound(n, body, c, 0, i);
      }
    }
    if forall i: nat :: i < |body| ==> VacatedBy(body, Walk(n, c, i), i) {
      forall k: nat | 0 + k < |body| ensures VacatedBy(body, Walk(n, c, k), 0 + k) {
        assert VacatedBy(body, Walk(n, c, k), k);
      }
      SafeFromComplete(n, body, c, 0);
    }
  }

  /** A safe starting cell is free, or is the tail and holds no other segment. */
  lemma SafeStartIsFreeOrTail(n: int, body: seq<Cell>, c: Cell)
    requires |body| > 0 && SafeRoute(n, body, c)
    ensures c !in body || (c == body[|body| - 1] && c !in body[..|body| - 1])
  {
    assert VacatedBy(body, c, 0);
    if c in body {
      PositionIsHeadMost(body, c);
    }
  }

  /**
   * Moving from head in direction d is a shortcut: the cell is in the grid,
   * strictly closer to the apple along the cycle than the head, and safe.
   */
  predicate Shortcut(n: int, body: seq<Cell>, head: Cell, apple: Cell, d: Dir) {
    var q := Shift(head, d);
    InGrid(n, q)
    && AppleDistance(n, Id(n, q), Id(n, apple)) < AppleDistance(n, Id(n, head), Id(n, apple))
    && SafeRoute(n, body, q)
  }

  /** None of dirs is a shortcut. */
  predicate NoShortcut(n: int, body: seq<Cell>, head: Cell, apple: Cell, dirs: seq<Dir>) {
    forall j :: 0 <= j < |dirs| ==> !Shortcut(n, body, head, apple, dirs[j])
  }

  /** The index of the first direction of `dirs` that is a shortcut, if any. */
  function FirstShortcut(n: int, body: seq<Cell>, head: Cell, apple: Cell, dirs: seq<Dir>): (r: Option<nat>)
    ensures r.Some? ==> r.value < |dirs| && Shortcut(n, body, head, apple, dirs[r.value])
    ensures r.Some? ==> forall j :: 0 <= j < r.value ==> !Shortcut(n, body, head, apple, dirs[j])
    ensures r.None? ==> NoShortcut(n, body, head, apple, dirs)
  {
    if dirs == [] then None
    else if Shortcut(n, body, head, apple, dirs[0]) then Some(0)
    else
      match FirstShortcut(n, body, head, apple, dirs[1..])
      case Some(k) => Some(k + 1)
      case None => None
  }

  /** The index k is the first shortcut once dirs[k] is one and none before it is. */
  lemma {:induction false} FirstShortcutIs(n: int, body: seq<Cell>, head: Cell, apple: Cell, dirs: seq<Dir>, k: nat)
    requires k < |dirs| && Shortcut(n, body, head, apple, dirs[k])
    requires forall j :: 0 <= j < k ==> !Shortcut(n, body, head, apple, dirs[j])
    ensures FirstShortcut(n, body, head, apple, dirs) == Some(k)
    decreases k
  {
    if k > 0 {
      FirstShortcutIs(n, body, head, apple, dirs[1..], k - 1);
    }
  }

  /**
   * Scanning past dirs[k] with no shortcut before it: either dirs[k] is the
   * first shortcut, or there is still none up to and including it.
   */
  lemma NoShortcutExtend(n: int, body: seq<Cell>, head: Cell, apple: Cell, dirs: seq<Dir>, k: nat)
    requires k < |dirs| && NoShortcut(n, body, head, apple, dirs[..k])
    ensures Shortcut(n, body, head, apple, dirs[k]) ==> FirstShortcut(n, body, head, apple, dirs) == Some(k)
    ensures !Shortcut(n, body, head, apple, dirs[k]) ==> NoShortcut(n, body, head, apple, dirs[..k + 1])
  {
  }

  /** No shortcut in dirs means FirstShortcut finds none. */
  lemma FirstShortcutNone(n: int, body: seq<Cell>, head: Cell, apple: Cell, dirs: seq<Dir>)
    requires NoShortcut(n, body, head, apple, dirs)
    ensures FirstShortcut(n, body, head, apple, dirs) == None
  {
  }

  /**
   * With the map entries of the head, the apple and the neighbour in
   * direction d, the shortcut test is a comparison of stamped ids and a safe
   * route.
   */
  lemma ShortcutByIds(n: int, body: seq<Cell>, head: Cell, apple: Cell, d: Dir,
                      here: CellInfo, there: CellInfo, q: CellInfo)
    requires InGrid(n, Shift(head, d))
    requires here == InfoAt(n, head) && there == InfoAt(n, apple) && q == InfoAt(n, Shift(head, d))
    ensures Shortcut(n, body, head, apple, d) <==>
            AppleDistance(n, q.id, there.id) < AppleDistance(n, here.id, there.id)
            && SafeRoute(n, body, Shift(head, d))
  {
  }

  /**
   * The cell plan moves to from head: the first shortcut among the head's
   * optional directions, otherwise the cycle successor.  Either way an
   * in-grid neighbour of the head.
   */
  function PlanSpec(n: int, body: seq<Cell>, head: Cell, apple: Cell): (r: Cell)
    requires GridSize(n) && InGrid(n, head)
    ensures InGrid(n, r) && Adjacent(head, r)
  {
    NextStepFollowsDir(n, head);
    var opts := Others(NextStep(n, head).1);
    match FirstShortcut(n, body, head, apple, opts)
    case Some(k) => Shift(head, opts[k])
    case None => NextStep(n, head).0
  }

  /**
   * Plan takes the cycle successor exactly when no optional direction is a
   * shortcut; any other move is a shortcut, so its target is strictly closer
   * to the apple, has a safe route, and is free or the tail.
   */
  lemma PlanIsShortcutOrSuccessor(n: int, body: seq<Cell>, head: Cell, apple: Cell)
    requires GridSize(n) && InGrid(n, head) && |body| > 0
    ensures var r := PlanSpec(n, body, head, apple);
            var opts := Others(NextStep(n, head).1);
            (r == NextStep(n, head).0 <==> forall j :: 0 <= j < |opts| ==> !Shortcut(n, body, head, apple, opts[j]))
            && (r != NextStep(n, head).0 ==>
                  AppleDistance(n, Id(n, r), Id(n, apple)) < AppleDistance(n, Id(n, head), Id(n, apple))
                  && SafeRoute(n, body, r)
                  && (r !in body || r == body[|body| - 1]))
  {
    var r := PlanSpec(n, body, head, apple);
    var (succ, dir) := NextStep(n, head);
    var opts := Others(dir);
    NextStepFollowsDir(n, head);
    match FirstShortcut(n, body, head, apple, opts)
    case Some(k) =>
      assert r == Shift(head, opts[k]);
      if r == succ {
        ShiftInjective(head, opts[k], dir);
      }
      SafeStartIsFreeOrTail(n, body, r);
    case None =>
  }

  /** Following the cycle one step brings the head one step closer to a different apple. */
  lemma SuccessorIsCloser(n: int, head: Cell, apple: Cell)
    requires GridSize(n) && InGrid(n, head) && InGrid(n, apple) && head != apple
    ensures AppleDistance(n, Id(n, NextStep(n, head).0), Id(n, apple))
            == AppleDistance(n, Id(n, head), Id(n, apple)) - 1
  {
    NextIdMod(n, head);
    LastCell(n);
    if Id(n, head) == Id(n, apple) {
      IdInjective(n, head, apple);
    }
    if head != Cell(1, 0) {
      IdSucc(n, head);
    }
  }

  /** Every planned move brings the head strictly closer to the apple along the cycle. */
  lemma PlanMakesProgress(n: int, body: seq<Cell>, head: Cell, apple: Cell)
    requires GridSize(n) && InGrid(n, head) && InGrid(n, apple) && head != apple && |body| > 0
    ensures AppleDistance(n, Id(n, PlanSpec(n, body, head, apple)), Id(n, apple))
            < AppleDistance(n, Id(n, head), Id(n, apple))
  {
    PlanIsShortcutOrSuccessor(n, body, head, apple);
    SuccessorIsCloser(n, head, apple);
  }

  /** The successor direction stamped on an in-grid cell leads to its cycle successor. */
  lemma StampedSuccessor(n: int, c: Cell, info: CellInfo)
    requires GridSize(n) && InGrid(n, c) && info == InfoAt(n, c)
    ensures info.next.Some? && Shift(c, info.next.value) == NextStep(n, c).0
  {
  }

  /** clamp: v limited to [lo, hi]. */
  function Clamp(v: int, lo: int, hi: int): (r: int)
    ensures lo <= hi ==> lo <= r <= hi
    ensures lo <= v <= hi ==> r == v
    ensures lo <= hi && v < lo ==> r == lo
    ensures lo <= hi && hi < v ==> r == hi
  {
    var m := if hi < v then hi else v;
    if lo > m then lo else m
  }

  /** Cells in the order the nested loops of generateApple visit them: by column, then by row. */
  predicate Before(a: Cell, b: Cell) {
    a.x < b.x || (a.x == b.x && a.y < b.y)
  }

  /**
   * The state of one game on an n-by-n grid: the cycle map, the body (head
   * first), the apple (absent once the body fills the grid), the head
   * coordinates, the step counter and whether the game is still running.
   */
  class Game {
    const n: nat
    const grid: array2<CellInfo>
    var snake: seq<Cell>
    var apple: Option<Cell>
    var x: int
    var y: int
    var steps: nat
    var running: bool

    /** The map is the one init_map builds for an n-by-n grid. */
    ghost predicate MapValid()
      reads grid
    {
      && GridSize(n) && grid.Length0 == n && grid.Length1 == n
      && (forall a, b {:trigger grid[a, b]} :: 0 <= a < n && 0 <= b < n ==> grid[a, b] == InfoAt(n, Cell(a, b)))
    }

    /**
     * The game invariant: a valid map, a non-empty in-grid body whose first
     * segment is the head (x, y), and an apple that is a free in-grid cell,
     * absent only when the body covers every cell.
     */
    ghost predicate Valid()
      reads this, grid
    {
      && MapValid()
      && |snake| >= 1
      && (forall k :: 0 <= k < |snake| ==> InGrid(n, snake[k]))
      && snake[0] == Cell(x, y)
      && (apple.Some? ==> InGrid(n, apple.value) && apple.value !in snake)
      && (apple.None? ==> forall c :: InGrid(n, c) ==> c in snake)
    }

    /**
     * resetGame: a one-segment snake at the origin, a freshly built map and
     * an apple on some other cell.
     */
    constructor (size: nat)
      requires GridSize(size)
      ensures Valid() && n == size && fresh(grid)
      ensures snake == [Origin] && x == 0 && y == 0 && steps == 0 && !running
      ensures apple.Some?
    {
      var m := InitMap(size);
      n := size;
      grid := m;
      snake := [Origin];
      x, y := 0, 0;
      apple := None;
      steps := 0;
      // resetGame leaves `running` alone, but it starts false and every caller clears it first.
      running := false;
      new;
      assert MapValid();
      var a := GenerateApple();
      assert InGrid(n, Cell(1, 0)) && Cell(1, 0) !in snake;
      apple := a;
    }

    /** find_position on the current body. */
    method FindPosition(px: int, py: int) returns (pos: int)
      ensures pos == Position(snake, Cell(px, py))
    {
      var c := Cell(px, py);
      for i := 0 to |snake|
        invariant c !in snake[..i]
      {
        if snake[i] == c {
          PositionOfFirst(snake, c, i);
          return |snake| - i - 1;
        }
      }
      assert snake[..|snake|] == snake;
      return -1;
    }

    /**
     * has_safe_route: follows the cycle from (px, py) for as many steps as
     * the body is long and fails at the first cell still occupied by then.
     */
    method HasSafeRoute(px: int, py: int) returns (safe: bool)
      requires MapValid() && InGrid(n, Cell(px, py))
      ensures safe == SafeRoute(n, snake, Cell(px, py))
    {
      var start := Cell(px, py);
      var l := |snake|;
      var cx, cy := px, py;
      var i := 0;
      while i < l
        invariant 0 <= i <= l
        invariant InGrid(n, Cell(cx, cy))
        invariant SafeRoute(n, snake, start) == SafeFrom(n, snake, Cell(cx, cy), i)
      {
        var pos := FindPosition(cx, cy);
        if pos == -1 || pos <= i {
          var info := grid[cx, cy];
          StampedSuccessor(n, Cell(cx, cy), info);
          var d := info.next.value;
          var nx := cx + DX(d);
          var ny := cy + DY(d);
          SafeFromStep(n, snake, Cell(cx, cy), i);
          cx, cy := nx, ny;
          i := i + 1;
        } else {
          return false;
        }
      }
      return true;
    }

    /**
     * plan: the first optional neighbour of (px, py) that is in the grid,
     * strictly closer to the apple at (ax, ay) along the cycle and has a
     * safe route; otherwise the cycle successor.
     */
    method Plan(px: int, py: int, ax: int, ay: int) returns (r: Cell)
      requires Valid() && InGrid(n, Cell(px, py)) && InGrid(n, Cell(ax, ay))
      ensures r == PlanSpec(n, snake, Cell(px, py), Cell(ax, ay))
    {
      var head, target := Cell(px, py), Cell(ax, ay);
      var here, there := grid[px, py], grid[ax, ay];
      var dis := AppleDistance(n, here.id, there.id);
      var opts := here.optional;
      for k := 0 to |opts|
        invariant NoShortcut(n, snake, head, target, opts[..k])
      {
        var d := opts[k];
        var nx, ny := px + DX(d), py + DY(d);
        assert Shift(head, d) == Cell(nx, ny);
        if nx < 0 || nx >= n || ny < 0 || ny >= n {
          NoShortcutExtend(n, snake, head, target, opts, k);
          continue;
        }
        var dis2 := AppleDistance(n, grid[nx, ny].id, there.id);
        ShortcutByIds(n, snake, head, target, d, here, there, grid[nx, ny]);
        NoShortcutExtend(n, snake, head, target, opts, k);
        if dis2 < dis {
          var safe := HasSafeRoute(nx, ny);
          if safe {
            return Cell(nx, ny);
          }
        }
      }
      assert opts[..|opts|] == opts;
      FirstShortcutNone(n, snake, head, target, opts);
      StampedSuccessor(n, head, here);
      var d := here.next.value;
      return Cell(px + DX(d), py + DY(d));
    }

    /**
     * The free list of generateApple: every in-grid cell not on the body,
     * each once, in the order the nested loops visit them.
     */
    method FreeCells() returns (free: seq<Cell>)
      ensures forall c :: c in free <==> InGrid(n, c) && c !in snake
      ensures forall a, b :: 0 <= a < b < |free| ==> Before(free[a], free[b])
    {
      free := [];
      for i := 0 to n
        invariant forall c :: c in free <==> InGrid(n, c) && c.x < i && c !in snake
        invariant forall a, b :: 0 <= a < b < |free| ==> Before(free[a], free[b])
        invariant forall a :: 0 <= a < |free| ==> free[a].x < i
      {
        for j := 0 to n
          invariant forall c :: c in free <==> InGrid(n, c) && Before(c, Cell(i, j)) && c !in snake
          invariant forall a, b :: 0 <= a < b < |free| ==> Before(free[a], free[b])
          invariant forall a :: 0 <= a < |free| ==> Before(free[a], Cell(i, j))
        {
          var onSnake := Cell(i, j) in snake;
          if !onSnake {
            free := free + [Cell(i, j)];
          }
        }
      }
    }

    /**
     * generateApple: absent exactly when the body covers the grid, otherwise
     * some free cell (the random pick is left open).
     */
    method GenerateApple() returns (r: Option<Cell>)
      ensures r.None? <==> forall c :: InGrid(n, c) ==> c in snake
      ensures r.Some? ==> InGrid(n, r.value) && r.value !in snake
    {
      var free := FreeCells();
      if |free| == 0 {
        return None;
      }
      var k :| 0 <= k < |free|;
      assert free[k] in free;
      return Some(free[k]);
    }

    /**
     * step: with an apple on the board, move the head to the planned cell;
     * on the apple the body grows by that cell and a new apple is placed,
     * otherwise the body slides (new head in, tail out).  The game stops
     * once the body fills the grid.  Without an apple nothing changes.
     */
    method Step()
      requires Valid()
      modifies this
      ensures Valid()
      ensures old(apple).None? ==>
                snake == old(snake) && apple == old(apple) && x == old(x) && y == old(y)
                && steps == old(steps) && running == old(running)
      ensures old(apple).Some? ==>
                var next := PlanSpec(n, old(snake), Cell(old(x), old(y)), old(apple).value);
                && Cell(x, y) == next
                && steps == old(steps) + 1
                && (if next == old(apple).value then
                      snake == [next] + old(snake)
                    else
                      snake == [next] + old(snake)[..|old(snake)| - 1] && apple == old(apple))
                && running == (if |snake| == n * n then false else old(running))
    {
      if apple.None? {
        return;
      }
      var a := apple.value;
      var r := Plan(x, y, a.x, a.y);
      assert InGrid(n, r);
      x := Clamp(r.x, 0, n - 1);
      y := Clamp(r.y, 0, n - 1);
      assert Cell(x, y) == r;
      if x == a.x && y == a.y {
        snake := [r] + snake;
        apple := GenerateApple();
      } else {
        ghost var body := snake;
        snake := [r] + snake[..|snake| - 1];
        assert forall k :: 0 <= k < |snake| - 1 ==> snake[k + 1] == body[k];
        assert a !in snake;
      }
      steps := steps + 1;
      if |snake| == n * n {
        running := false;
      }
    }
  }
}
