# Piston board ripple simulator: a verified model

The system drives a rectangular board of pistons so that their extensions
follow the surface of overlapping circular ripples ("rain drops"). Two pieces
of logic make up its core:

- **The piston board** (`Pistons.PistonBoard`, from `PistonBoard.cs`) keeps a
  `dimX x dimY` grid of piston heights. `SetPistonPosition` checks the index,
  clamps the requested fraction to [0, 1] and scales it by `pistonDistance`.
  `SetPistonPositions` first refuses a missing grid or a matrix of the wrong
  shape, then writes every cell. `CreatePistons`, which runs on construction
  (Awake) and in the `Dimensions` setter, rebuilds the grid with every piston
  retracted. Without a prefab it returns and builds nothing.
- **The ripple field** (`Rain.RainDropEffect` and `Raindrops`, from
  `RainDropEffect.cs`) keeps a list of drops. `AddRaindrop` appends to it. On
  each fixed tick (`FixedUpdate`) it does three things:
  1. It removes every drop with `now >= spawnTime + spreadTime`.
  2. It evaluates each piston's sample point against every surviving drop. The
     contribution is `max(0, 1 - (d / rippleRange)^2)` of the signed distance `d`
     from the drop's ripple front. The piston's value is the mean of these
     contributions, or 0 when no drop survives.
  3. It hands the matrix to the board.

Modelling choices:

- `float` is modelled as `real`. Every division the model performs is by a
  value proved non-zero.
- The global clock `Time.time` becomes an explicit `now` argument. The
  `Raindrop` constructor becomes `NewRaindrop(..., now)`.
- `FixedUpdate` requires that no drop was spawned after `now`. This holds
  because the engine clock never runs backwards. Given that, every drop that
  survives pruning has a positive spread time, so `SpreadPercentage` never
  divides by zero.
- Euclidean distance (`Vector2.Distance`, which uses a square root) is a
  caller-supplied function `dist: (Point, Point) -> real`. The lemmas that need
  non-negativity assume it through `Raindrops.NonNegative`.
- `Mathf.Pow(q, 2)` is written `q * q`.
- A piston's Unity transform is reduced to its height. `heights[x, y]` stands for
  `localPosition.y` of piston (x, y). `heights` is null exactly when the board
  has no prefab.
- When a dimension is 1, the sample coordinate along it is defined as 0. The
  source computes `0 / 0` there (see Findings).

Files: `pistons.dfy` (module `Pistons`), `raindrops.dfy` (module `Raindrops`),
`rain_drop_effect.dfy` (module `Rain`).

## Model

| member | source | states |
|---|---|---|
| `Pistons.Clamp01` | Assets/Scripts/PistonBoard.cs:143 | the clamped fraction lies in [0, 1]; it equals the request inside [0, 1], 0 below it and 1 above it |
| `Pistons.Actuation` | Assets/Scripts/PistonBoard.cs:141-143 | the stored height lies between 0 and `pistonDistance` (in [0, pistonDistance] when that is non-negative); a request at or below 0 gives 0, and one at or above 1 gives `pistonDistance` |
| `Pistons.ClampIdempotent` | Assets/Scripts/PistonBoard.cs:143 | clamping is idempotent: requesting `v` or `clamp(v, 0, 1)` stores the same height |
| `Pistons.PistonBoard.constructor` | Assets/Scripts/PistonBoard.cs:47-50 | Awake builds the board: the grid exists exactly when a prefab is available, has the given dimensions, and every height is 0 |
| `Pistons.PistonBoard.CreatePistons` | Assets/Scripts/PistonBoard.cs:92-129 | with a prefab: a fresh `dimX x dimY` grid with every height 0 (filled in nested loops); without one: returns and leaves the grid untouched; dimensions unchanged |
| `Pistons.PistonBoard.SetDimensions` | Assets/Scripts/PistonBoard.cs:27-35 | the `Dimensions` setter stores the new dimensions and rebuilds the grid at that size with every height 0 (no grid without a prefab) |
| `Pistons.PistonBoard.SetPistonPosition` | Assets/Scripts/PistonBoard.cs:131-148 | fails with InvalidPosition exactly when (x, y) lies outside [0, dimX) x [0, dimY), and with NoPistons when no grid exists; on failure no height changes; on success height (x, y) is `pistonDistance * clamp(v, 0, 1)` and every other height is unchanged; the board invariant (shape, heights between 0 and pistonDistance) is kept |
| `Pistons.PistonBoard.SetPistonPositions` | Assets/Scripts/PistonBoard.cs:150-174 | fails with NoPistons when no grid exists, else with ShapeMismatch when the matrix shape differs from the dimensions, and then changes nothing; otherwise every cell (x, y) holds `pistonDistance * clamp(m[x, y], 0, 1)` (m as it was on entry, even if it aliases the grid) |
| `Raindrops.NewRaindrop` | Assets/Scripts/RainDropEffect.cs:81-87 | records the fields and `spawnTime = now`, so spread fraction and current radius are 0 at creation; the new drop is not due for removal exactly when its spread time is positive |
| `Raindrops.SurvivorSpread` | Assets/Scripts/RainDropEffect.cs:77-79 | a drop spawned at or before `now` and not ready to remove has spread time > 0 and spread fraction in [0, 1); its current radius lies in [0, radius], and strictly below radius when radius > 0 |
| `Raindrops.SpreadPercentage` | Assets/Scripts/RainDropEffect.cs:77 | the spread fraction times the spread time is the time elapsed since spawning; it is 0 at spawn and 1 when the spread time has elapsed, and for a drop spawned at or before `now` that is not ready to remove it lies in [0, 1) |
| `Raindrops.CurrentRadius` | Assets/Scripts/RainDropEffect.cs:91 | the ripple front has radius 0 at spawn and the full radius when the spread time has elapsed; for a drop spawned at or before `now`, not ready to remove and with a non-negative radius it lies in [0, radius] |
| `Raindrops.DistanceFromRipple` | Assets/Scripts/RainDropEffect.cs:89-93 | the signed distance is negative exactly when the point lies inside the front and 0 exactly when it lies on it; for a non-negative distance it is at least minus the current radius |
| `Raindrops.Kept` | Assets/Scripts/RainDropEffect.cs:41 | pruning keeps only drops that are not `ReadyToRemove` (line 79: `now >= spawnTime + spreadTime`), keeps every such drop, and never lengthens the list |
| `Raindrops.KeptConcat` | Assets/Scripts/RainDropEffect.cs:41 | pruning preserves relative order: it prunes each part of a concatenation separately |
| `Raindrops.KeptCount` | Assets/Scripts/RainDropEffect.cs:41 | after pruning, an expired drop occurs 0 times and a live drop as often as before |
| `Raindrops.KeptPermutation` | Assets/Scripts/RainDropEffect.cs:41 | pruning two orderings of the same drops leaves two orderings of the same survivors |
| `Raindrops.KeptIdempotent` | Assets/Scripts/RainDropEffect.cs:41 | pruning a second time at the same `now` removes nothing more |
| `Raindrops.ExpiredHasNoEffect` | Assets/Scripts/RainDropEffect.cs:41 | a drop that has expired by `now` has no effect on the survivors, wherever it sits in the list |
| `Raindrops.AllExpired` | Assets/Scripts/RainDropEffect.cs:41 | when every drop has expired, none survives |
| `Rain.SampleCoordinateAsWritten` | Assets/Scripts/RainDropEffect.cs:48 | the coordinate exactly as written is undefined (0 / 0) exactly when the dimension is 1 |
| `Rain.SingleColumnSampleUndefined` | Assets/Scripts/RainDropEffect.cs:48 | as written, column 0 of a board one piston wide has no defined sample coordinate |
| `Rain.SampleCoordinate` | Assets/Scripts/RainDropEffect.cs:48 | the sample coordinate lies in [0, 1]; the first column samples 0 and the last samples 1; for a dimension > 1 it equals the as-written `i / (n - 1)` |
| `Rain.SampleSpacing` | Assets/Scripts/RainDropEffect.cs:48 | neighbouring columns sample points exactly `1 / (n - 1)` apart |
| `Rain.SamplePoint` | Assets/Scripts/RainDropEffect.cs:48 | every piston samples a point of [0, 1] x [0, 1] |
| `Rain.Contribution` | Assets/Scripts/RainDropEffect.cs:56 | a drop's contribution lies in [0, 1]; it is 1 exactly when the signed distance is 0, and 0 exactly when the distance is at least `rippleRange` in absolute value |
| `Rain.DropContribution` | Assets/Scripts/RainDropEffect.cs:54-58 | one drop's contribution to a piston lies in [0, 1]; it is 1 exactly when the sample point lies on the drop's current front, and 0 exactly when the point is at least `rippleRange` (in absolute value) from that front |
| `Rain.Mean` | Assets/Scripts/RainDropEffect.cs:59 | `Average()` of a non-empty list: the mean times the count is the total |
| `Rain.MeanBounds` | Assets/Scripts/RainDropEffect.cs:53-59 | the mean of contributions in [0, 1] lies in [0, 1] |
| `Rain.SumBounds` | Assets/Scripts/RainDropEffect.cs:53-59 | the total of n contributions in [0, 1] lies in [0, n] |
| `Rain.CellValue` | Assets/Scripts/RainDropEffect.cs:50-62 | each piston's value (the mean contribution, 0 with no drops) lies in [0, 1], and is 0 when there are no drops |
| `Rain.ContributionSumPermutation` | Assets/Scripts/RainDropEffect.cs:53-59 | the total contribution is the same for any reordering of the drops |
| `Rain.CellValueOrderIndependent` | Assets/Scripts/RainDropEffect.cs:50-62 | a piston's value is unchanged by permuting the drop list |
| `Rain.TickOrderIndependent` | Assets/Scripts/RainDropEffect.cs:41-62 | two ticks over reorderings of the same drops write the same value at every point |
| `Rain.SingleDrop` | Assets/Scripts/RainDropEffect.cs:53-59 | with one drop, a piston's value is that drop's own contribution |
| `Rain.OnFrontIsPeak` | Assets/Scripts/RainDropEffect.cs:55-56 | with one drop, a piston is driven to 1 exactly when its sample point lies on the drop's current ripple front |
| `Rain.NoLiveDropsRetracts` | Assets/Scripts/RainDropEffect.cs:41-62 | when every drop has expired, none survives and every piston is written height 0 |
| `Rain.RainDropEffect.constructor` | Assets/Scripts/RainDropEffect.cs:12-15 | given a valid board, the effect starts valid, with no drops, holding that board and its ripple range |
| `Rain.RainDropEffect.AddRaindrop` | Assets/Scripts/RainDropEffect.cs:30-33 | the drop is appended at the end and the earlier drops are unchanged |
| `Rain.RainDropEffect.RemoveExpired` | Assets/Scripts/RainDropEffect.cs:41 | after the pruning loop the list is exactly `Kept` of the old list |
| `Rain.RainDropEffect.Evaluate` | Assets/Scripts/RainDropEffect.cs:38-64 | the nested loops fill a fresh matrix of exactly the board's dimensions, cell (x, y) holding the piston's value at its sample point |
| `Rain.RainDropEffect.FixedUpdate` | Assets/Scripts/RainDropEffect.cs:35-67 | after a tick, the list holds exactly the surviving drops, each alive at `now`; the matrix has the board's shape, so the only refusal is a board without pistons; otherwise every piston (x, y) holds `pistonDistance * clamp(value, 0, 1)` of its cell value |

## Findings

| source | as written | input that shows it | evidently intended | confidence | as-written member | corrected member |
|---|---|---|---|---|---|---|
| Assets/Scripts/RainDropEffect.cs:48 | `x / (dimensions.x - 1f)` divides by zero when a dimension is 1; for x = 0 the float result is NaN, which, when at least one drop is evaluated, passes through the distance, the contribution, the mean and `Mathf.Clamp` and reaches the `localPosition` write at PistonBoard.cs:147 | a board with `dimensions = (1, 3)`, cell (0, 0), and at least one drop that survives pruning | a board one piston wide is a valid steady state; its single column samples coordinate 0 | not executed; follows from IEEE 754 0/0 | `Rain.SampleCoordinateAsWritten` (with `Rain.SingleColumnSampleUndefined`) | `Rain.SampleCoordinate` (used by `Rain.SamplePoint` and `Rain.RainDropEffect.FixedUpdate`) |

## Left out

- Unity lifecycle and scene graph: `OnValidate`, `OnDestroy`, `Instantiate`/`Destroy`, and the parenting, centring and rotation of the pistons' parent object (PistonBoard.cs:52-66, 101-114). They are engine side effects; only the resulting height grid is modelled.
- The lateral coordinates of each piston's transform are not modelled. Only the height is, so "the lateral coordinates are unchanged by `SetPistonPosition`" holds by construction and is not stated.
- Pistons.PistonBoard.constructor, Pistons.PistonBoard.CreatePistons, Pistons.PistonBoard.SetDimensions: the source instantiates each piston at a world-space position (PistonBoard.cs:122-124), and the model reads its initial height as 0. That assumes the board's transform sits at world height 0 and is not rotated; a board placed elsewhere starts its pistons at another local height, which is not modelled.
- `Debug.LogError` when the prefab is missing is logging only. The prefab's presence is a constant `hasPrefab`; assigning a prefab later from the inspector is not modelled.
- The commented-out sine-wave `Update` of the board is dead code.
- Keyboard handling in `RainDropEffect.Update` (RainDropEffect.cs:17-28) is input handling. It adds drops at (0.1, 0.1) or (0.9, 0.9) with spread time 10 and radius 5. Callers use `NewRaindrop` and `AddRaindrop` for this.
- IEEE float behaviour is not modelled: rounding, NaN, infinities and bit-identical determinism. Division by zero is excluded instead:
  - `Rain.RainDropEffect.constructor` requires a non-zero `rippleRange`. With 0 the source divides by zero and can produce NaN.
  - `Rain.RainDropEffect.FixedUpdate` requires that no drop was spawned after `now`, which a monotone clock guarantees.
- The square root inside `Vector2.Distance` is not modelled. The distance is a parameter, assumed non-negative only where a lemma says so.
- Negative dimensions are not modelled. `Vector2Int` components are `int`, and a negative one makes the C# array allocation throw; the model's dimensions are `nat`.
- Pistons.PistonBoard.SetPistonPosition: on a board without a grid, the source passes the bounds check and then dereferences null, which throws `NullReferenceException`. The model reports this as `Fail(NoPistons)`, the same error kind that `SetPistonPositions` raises.
- Null arguments are not modelled, because `positions` and the drop are non-null values in the model. `SetPistonPositions(null)` passes the grid check and then throws `NullReferenceException` at PistonBoard.cs:161. `AddRaindrop(null)` is accepted at RainDropEffect.cs:32, and the next `FixedUpdate` throws inside `RemoveAll` at line 41.
- `List.RemoveAll` compacts the list's backing array in place. `RemoveExpired` builds the kept sequence and assigns it, with the same resulting order and contents.
- `Raindrop` is a C# class whose fields `origin`, `radius` and `spreadTime` are public and mutable (RainDropEffect.cs:71-73), and the drop list holds references to them. `Raindrops.Raindrop` is an immutable value, so a caller changing a drop after `AddRaindrop` is not modelled.
- The effect's `board` is a serialized reference that can be null; `FixedUpdate` then throws at RainDropEffect.cs:37, before it prunes. In the model `board` is a non-null `PistonBoard`, so that failure is not modelled.
- Concurrency is out of scope: Unity runs `Update` and `FixedUpdate` on one thread.
