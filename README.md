# Hamiltonian-cycle snake autopilot, modelled in Dafny

This project models the autopilot of a browser snake game (`main.js`). The snake
plays on an n-by-n grid by following a fixed Hamiltonian cycle:

- north up column 0;
- east along the top row;
- a serpentine down through columns 1..n-1;
- west along row 0 back to the origin.

On each tick the head may leave the cycle for one step. It takes the first
neighbour that is strictly closer to the apple along the cycle and from which
following the cycle is safe for as many steps as the body is long.

The project has four modules:

- `Wrappers` (`wrappers.dfy`): the `Option` type, used where the source uses
  `null`.
- `Cycle` (`cycle.dfy`): the successor rule `nextStep`, as `NextStep`.
  - `Id` is an independent closed-form definition of each cell's index on the
    cycle, with its predecessor `Prev`.
  - The lemmas show that, for even n >= 2, walking `NextStep` n*n times from the
    origin is a Hamiltonian cycle, and that `Id` is a bijection onto
    `0 .. n*n-1`.
  - `AppleDistance` is the forward cyclic distance between two ids.
- `MapGrid` (`mapgrid.dfy`): `init_map` as a method filling an `array2` in a
  `while` loop. It is proved to stamp every cell with its id, its successor
  direction and its optional directions (`get_option_dirs`).
- `Autopilot` (`autopilot.dfy`): the game state as a class `Game`. Its fields
  are the grid size, the map, the body (head first), the apple, the head
  coordinates, the step counter and the running flag.
  - The loops of the source (`find_position`, `has_safe_route`, `plan`,
    `generateApple`) are methods, and `step` is the state-changing method
    `Game.Step`.
  - Each method is proved against a specification function: `Position`,
    `SafeRoute`, `PlanSpec`, and the free-cell characterisation.
  - The lemmas about those functions state what the source promises.
  - `Game.HasSafeRoute` requires only the map part of the game invariant
    (`MapValid`), because the source reads only the map and the body there.

Two things are modelled rather than taken from the source:

- The module globals `WORLD_SIZE`, `mapGrid`, `snake`, `apple`, `x`, `y`,
  `steps` and `running` are the fields of `Game`.
- The random pick in `generateApple` is a nondeterministic choice among the
  free cells.

The grid size must be even and at least 2 (`GridSize`). This is a precondition
of `InitMap` and of `Game`. `Cycle.OddSizeMissesCorner` shows why: on a 3-by-3
grid the successor rule returns to the origin after 8 steps and never visits
(2, 2).

## Model

| member | source | states |
|---|---|---|
| Cycle.NextStep | main.js:129-142 | From an in-grid cell of a grid of size at least 2, the successor is in the grid. |
| Cycle.NextStepFollowsDir | main.js:129-142 | The returned DIRECTION entry is exactly the offset from the cell to the returned cell, so the successor is one orthogonal unit away. |
| Cycle.Walk | main.js:152-161 | Iterating the successor from an in-grid cell stays in the grid. |
| Cycle.Id | main.js:152-164 | The closed-form cycle index of an in-grid cell lies in [0, n*n) and is 0 exactly at the origin. |
| Cycle.LastCell | main.js:129-142 | The last cell of the tour, (1, 0), has index n*n-1, and its successor is the origin. |
| Cycle.IdSucc | main.js:129-142 | For every other in-grid cell, the successor's index is the cell's index plus one. |
| Cycle.NextIdMod | main.js:152-164 | The successor of the cell with index i has index (i + 1) mod n*n. |
| Cycle.PrevIsPredecessor | main.js:129-142 | Every in-grid cell has an in-grid predecessor whose successor it is. |
| Cycle.WalkId | main.js:152-161 | Step k of the walk from the origin (k < n*n) is the cell with index k, as init_map stamps it. |
| Cycle.WalkReaches | main.js:152-161 | Every in-grid cell is reached from the origin after exactly Id(c) steps. |
| Cycle.IdInjective | main.js:152-164 | Distinct in-grid cells get distinct ids, so init_map never overwrites a cell. |
| Cycle.WalkDistinct | main.js:152-161 | The first n*n cells of the walk are pairwise distinct. |
| Cycle.WalkCloses | main.js:152-161 | After n*n steps the walk is back at the origin. |
| Cycle.HamiltonianCycle | main.js:152-164 | For even n >= 2 the walk is a Hamiltonian cycle: it stays in the grid, moves one unit per step, is pairwise distinct, covers every cell and closes. |
| Cycle.OddSizeMissesCorner | main.js:129-142 | For n = 3 the walk returns to the origin after 8 steps without visiting (2, 2), so odd sizes do not give a cycle. |
| Cycle.AppleDistance | main.js:165-168 | For ids in [0, n*n), apple_distance lies in [0, n*n), is 0 exactly when the ids are equal, and satisfies (pid + result) mod n*n == aid. |
| Cycle.DistanceRoundTrip | main.js:165-168 | For distinct ids, the distance there plus the distance back is one full turn, n*n. |
| Cycle.WalkIdFrom | main.js:152-168 | Walking j < n*n steps from a cell advances its id by j, wrapping past n*n-1. |
| Cycle.DistanceCountsSteps | main.js:165-168 | Walking apple_distance(Id(c), k) successor steps from c reaches the cell with id k. |
| MapGrid.OptionDirs | main.js:143-151 | get_option_dirs keeps, in DIRECTION order, exactly the directions that neither lead to the successor nor are the successor direction. |
| MapGrid.OptionsBesides | main.js:143-151 | When the successor is the step in direction d, the options are the three directions other than d, in table order. |
| MapGrid.OptionsAreOthers | main.js:143-164 | On the cycle, every cell's optional directions are the three directions other than its next direction. |
| MapGrid.InfoNextIsSuccessor | main.js:152-164 | From every in-grid cell, the stamped next direction leads to an in-grid cell whose id is (id + 1) mod n*n. |
| MapGrid.InitMap | main.js:152-164 | init_map returns a fresh n-by-n map in which every cell holds its cycle id, its successor direction and its optional directions. |
| Autopilot.Position | main.js:169-174 | find_position's value is -1 exactly when the cell is not on the body; otherwise it lies in [0, length). |
| Autopilot.PositionIsHeadMost | main.js:169-174 | A value r other than -1 points at the head-most matching segment, length-1-r, with no match before it; the tail scores 0. |
| Autopilot.PositionOfFirst | main.js:169-174 | If the first match is at index i, the value is length-1-i. |
| Autopilot.Game.FindPosition | main.js:169-174 | The loop returns Position(snake, cell). |
| Autopilot.SafeFromSound | main.js:175-190 | If the route is safe from step i, every later cell on the cycle is off the body or vacated by the step at which it is reached. |
| Autopilot.SafeFromComplete | main.js:175-190 | Conversely, if every such cell is off the body or vacated in time, the route is safe from step i. |
| Autopilot.SafeRouteAtEveryStep | main.js:175-190 | has_safe_route(p) holds if and only if, for every i < length, the cell i cycle steps after p is off the body or has find_position <= i. |
| Autopilot.SafeStartIsFreeOrTail | main.js:175-190 | A safe starting cell is off the body, or is the tail and holds no other segment. |
| Autopilot.StampedSuccessor | main.js:181-183 | The next direction stamped on a cell leads to the cycle successor. |
| Autopilot.Game.HasSafeRoute | main.js:175-190 | The loop over the map returns exactly SafeRoute(n, snake, p). |
| Autopilot.FirstShortcut | main.js:191-204 | It returns the index of the first direction that is a shortcut (in the grid, strictly closer to the apple, safe), with none before it, or None when no direction is a shortcut. |
| Autopilot.FirstShortcutIs | main.js:193-201 | A shortcut with no shortcut before it is the one FirstShortcut finds. |
| Autopilot.NoShortcutExtend | main.js:193-201 | Scanning one more option either finds the first shortcut or extends the run of non-shortcuts. |
| Autopilot.FirstShortcutNone | main.js:193-204 | When no option is a shortcut, FirstShortcut finds none. |
| Autopilot.ShortcutByIds | main.js:192-198 | With the map entries of the head, the neighbour and the apple, the shortcut test is the comparison of stamped ids plus a safe route. |
| Autopilot.PlanSpec | main.js:191-204 | The planned cell is always an in-grid orthogonal neighbour of the head. |
| Autopilot.PlanIsShortcutOrSuccessor | main.js:191-204 | plan returns the cycle successor exactly when no optional direction is a shortcut. Any other result is strictly closer to the apple, has a safe route, and is free or the tail. |
| Autopilot.SuccessorIsCloser | main.js:165-168 | Following the cycle one step brings the head exactly one step closer to a different apple. |
| Autopilot.PlanMakesProgress | main.js:191-204 | Every planned move strictly decreases the forward cycle distance to the apple. |
| Autopilot.Game.Plan | main.js:191-204 | The loop over the head's options returns exactly PlanSpec of the current body, head and apple. |
| Autopilot.Clamp | main.js:62 | When lo <= hi, clamp returns lo for a value below lo, hi for a value above hi, and any value in [lo, hi] unchanged, so it always lands in [lo, hi]. |
| Autopilot.Game.FreeCells | main.js:207-214 | The free list holds exactly the in-grid cells not on the body, each once, in the column-then-row order of the nested loops. |
| Autopilot.Game.GenerateApple | main.js:207-217 | generateApple returns None exactly when every grid cell is on the body; otherwise it returns an in-grid cell off the body. |
| Autopilot.Game.constructor | main.js:220-235 | resetGame builds the map for an even size, puts a one-segment body at the origin, zeroes the step counter and places an apple, which exists. |
| Autopilot.Game.Step | main.js:236-260 | step keeps the game invariant. Without an apple it changes nothing. Otherwise the head moves to PlanSpec, so clamp changes nothing, and the step counter grows by one. On the apple the body becomes [new] + old; otherwise it becomes [new] + old minus its last segment, with the apple unchanged. The game stops when the body fills the grid. |

## Left out

- Canvas rendering and layout (`resizeCanvas`, `gridToCanvas`, the `draw*` functions, `render`): floating-point pixel maths and DOM calls, with no effect on the game state.
- Event handlers, `setInterval`/`clearInterval` timers and the resize handler: scheduling and I/O. The model offers `Step` as one tick.
- Elapsed-time bookkeeping (`performance.now`, `elapsedMs`), the HUD texts and `alert`: I/O. Only the stop condition of `step` is kept.
- Game.GenerateApple: the `Math.random` index is not modelled. Any free cell may be chosen, so the contract does not determine which cell.
- Game.Step: does not prove that the new head never lands on a body segment that stays put. The source does not promise this either.
- Odd grid sizes: `GridSize` (even, at least 2) is a precondition. `Cycle.OddSizeMissesCorner` shows what goes wrong otherwise.
- `snake.py`: a second port of the same autopilot to a game-scripting host. It calls host functions that are not part of this model, and its loops do not advance. The model follows `main.js`.
- `main.js` has no multi-step plan and no free-neighbour check: only the one-step shortcut in `plan` is modelled.
