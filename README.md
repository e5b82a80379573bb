# Schelling segregation engine, modelled in Dafny

This is a model of the engine of a Schelling segregation simulation. The world is a
square matrix of actors. Each cell is `Blue`, `Red` or `None`, where `None` marks an
empty location.

Each update takes a threshold and works in two passes:
- It scans the world once in row-major order. Along the way it lists the empty
  locations and the actors that are dissatisfied with their neighbourhood.
- An actor is dissatisfied when the share of its own kind among its occupied Moore
  neighbours is below the threshold, or when it has no occupied neighbour at all.
- Then every dissatisfied actor, in scan order, moves to a randomly chosen empty
  location that has not been used yet. This stops when the empty locations run out.

Population builds a world of side ⌊√n⌋ for n locations. It fills the world with
`None`, then places the Red actors and then the Blue actors on empty cells.

The project has five modules:

- `Grids` (grids.dfy) is the world as a value:
  - `Actor`, `Point`, and `Grid`, a sequence of rows;
  - writing one cell (`Put`);
  - per-kind population counts;
  - the floor square root.
- `Satisfaction` (satisfaction.dfy) holds the satisfaction test as functions:
  - the neighbour tally, in the engine's column-by-column visiting order;
  - `Unhappy`, the threshold rule on counts;
  - `DissatisfiedAt`;
  - lemmas about neighbourhood size, the threshold rule, and the test fixture.
- `Classification` (classification.dfy) holds the lists that the row-major scan
  produces, and shows that they are exact.
- `Relocation` (relocation.dfy) holds the moves of one step and their effect on the
  grid (`Apply`, `Step`), and shows that a step conserves every kind.
- `Engine` (neighbours.dfy) holds the class `Neighbours`:
  - it has a real `array2<Actor>` field `world`;
  - a ghost `cells: Grid` field mirrors it, tied to it by `Valid()`;
  - every imperative operation of the engine is a method proved against the
    value-level functions above, with loop invariants wherever the Java code
    loops; `PopulateWorld` has no loop of its own, because the per-row
    `Arrays.fill` loop becomes the array's initializer;
  - the generic `count` helper is a separate module-level method.

Randomness is a parameter:
- Relocation takes an oracle `draw: nat -> nat`. The k-th relocation uses index
  `draw(k) % |none|`, so every in-range index can be drawn, and no other.
- Placement chooses an arbitrary empty cell with `:|`.

## Model

| member | source | states |
|---|---|---|
| Grids.Put | src/Neighbours.java:173-174 | Writing one cell changes that cell only, and keeps the grid rectangular. |
| Grids.Filled | src/Neighbours.java:77-80 | The new world is rows × cols, with every cell holding the fill value. |
| Grids.PopulationFilled | src/Neighbours.java:77-80 | A freshly filled side × side world holds side² cells of its kind and none of any other. |
| Grids.PopulationPut | src/Neighbours.java:96 | Overwriting one cell moves exactly one unit of count from the old kind to the new kind. Every other kind keeps its count. |
| Grids.PopulationWitness | src/Neighbours.java:91-95 | If a kind has a positive count, some in-grid cell holds it. This is why the placement loop can always find an empty cell. |
| Grids.FillsPut | src/Neighbours.java:95-96 | Writing a colour into a still-empty cell keeps "only empty cells were overwritten" true. |
| Grids.FloorSqrt | src/Neighbours.java:76 | The side length r satisfies r² ≤ n < (r+1)²; it is computed from the root of n / 4, so the recursion is only log₄ n deep. |
| Grids.FloorSqrtUnique | src/Neighbours.java:76 | The floor square root is the only s with s² ≤ n < (s+1)². |
| Grids.FloorSqrtOfSquare | src/Neighbours.java:64-76 | A perfect square k² gives side k. For example, 90000 locations give a 300 × 300 world. |
| Satisfaction.ColumnOf | src/Neighbours.java:125-139 | The tally of one column is its three visits, yOffset −1, 0 and 1. |
| Satisfaction.CountOf | src/Neighbours.java:124-140 | The neighbour count is the sum of the tallies of the columns xOffset −1, 0 and 1. |
| Satisfaction.ColumnKinds | src/Neighbours.java:130-138 | In one column, the Blue, Red and None tallies add up to the number of visits that are counted. |
| Satisfaction.TallyKinds | src/Neighbours.java:130-138 | Each counted visit finds exactly one kind: Blue + Red + None tallies equal the counted visits. |
| Satisfaction.ColumnSize | src/Neighbours.java:130 | A column counts the rows around p that exist, if the column is in the grid. The centre column skips p itself. |
| Satisfaction.CountedVisitsAll | src/Neighbours.java:124-140 | The counted visits are exactly the in-grid cells of the 3 × 3 block around p, minus p. |
| Satisfaction.NeighbourhoodSize | src/Neighbours.java:124-140 | Total counted neighbours = span_x · span_y − 1. A corner sees at most 3, an edge cell at most 5, any cell at most 8. These bounds are exact when the grid is large enough. |
| Satisfaction.IsolatedIsDissatisfied | src/Neighbours.java:142-155 | An actor with no occupied neighbour is dissatisfied, whatever the threshold. |
| Satisfaction.Unhappy | src/Neighbours.java:142-155 | The threshold rule on counts: with no occupied neighbour the actor is dissatisfied; otherwise it is dissatisfied iff its own kind's count (Red for Red, Blue for any other kind) is below threshold · (Blue + Red), the cross-multiplied form of the quota test. |
| Satisfaction.DissatisfiedAt | src/Neighbours.java:119-156 | The test of the actor at p: the threshold rule applied to its kind and to its Blue and Red neighbour counts. Its properties are stated by DissatisfiedIff, DissatisfiedRational and IsolatedIsDissatisfied. |
| Satisfaction.DissatisfiedIff | src/Neighbours.java:142-155 | Dissatisfied iff there is no occupied neighbour, or same-kind < threshold · occupied. Same-kind means Red neighbours for a Red cell and Blue for any other; None neighbours count toward neither. |
| Satisfaction.DissatisfiedRational | src/Neighbours.java:142-155 | For a threshold num/den: dissatisfied iff occupied = 0, or same · den < num · occupied (whole numbers only). |
| Satisfaction.ThresholdMonotone | src/Neighbours.java:151 | Raising the threshold never makes a dissatisfied actor satisfied. |
| Satisfaction.TestWorldCentre | src/Neighbours.java:185-190 | In the fixture world, the centre Blue actor has 1 Blue and 3 Red neighbours. It is dissatisfied at threshold 0.5. |
| Satisfaction.CornerCount | src/Neighbours.java:124-140 | A top-left corner sees exactly its three in-grid neighbours. |
| Satisfaction.TestWorldCorner | src/Neighbours.java:185-190 | In the fixture world, the top-left Red actor has 1 Red and 1 Blue neighbour. A share of 1/2 is not below 0.5, so it is satisfied. |
| Classification.RowPartExact | src/Neighbours.java:107-115 | One row's part of a list holds exactly the cells of that row that belong, in column order. |
| Classification.RowsExact | src/Neighbours.java:106-116 | The first m rows contribute exactly their belonging cells, in row-major order. |
| Classification.NoneLocations | src/Neighbours.java:106-111 | The empty-location list the scan builds, row by row; ClassificationExact states what it holds. |
| Classification.DissatisfiedLocations | src/Neighbours.java:106-116 | The dissatisfied list the scan builds, row by row; ClassificationExact states what it holds. |
| Classification.ClassificationExact | src/Neighbours.java:106-116 | The empty list holds exactly the None cells, and the dissatisfied list exactly the occupied cells that fail the test. Both lists are row-major, free of duplicates and disjoint. |
| Classification.StableIff | src/Neighbours.java:49 | The dissatisfied list is empty iff no actor in the world is dissatisfied. |
| Relocation.RemoveAt | src/Neighbours.java:175 | Removing index i shifts the later points one place left, keeping their order, so the list is one shorter and gains nothing. A duplicate-free list stays duplicate-free and loses the removed point. |
| Relocation.Moves | src/Neighbours.java:165-171 | One step performs min(\|none\|, \|dissatisfied\|) moves. The j-th move's source is the j-th dissatisfied location, and its target is one of the empty locations. |
| Relocation.MovesWithin | src/Neighbours.java:165-171 | Moves drawn from in-grid lists touch only in-grid cells. |
| Relocation.MoveActorEffect | src/Neighbours.java:173-174 | One move empties its source and gives the target the source's actor. Every other cell is unchanged. |
| Relocation.MovesSeparate | src/Neighbours.java:170-175 | Drawn from lists that are duplicate-free and disjoint, the moves have distinct sources and distinct targets, and no target is ever a source. Each empty cell is used once, and vacated cells are not reused. |
| Relocation.MoveActor | src/Neighbours.java:173-174 | One relocation as a value: the target gets the source's actor, then the source is emptied; the grid keeps its shape (the per-cell effect is MoveActorEffect). |
| Relocation.Apply | src/Neighbours.java:165-176 | The world after the loop has performed a list of moves in order; it keeps the grid's shape (the per-cell effect is ApplyEffect). |
| Relocation.ApplyFrame | src/Neighbours.java:165-176 | A cell that no move touches keeps its actor. |
| Relocation.ApplySources | src/Neighbours.java:174 | Every source of a separate list of moves ends empty. |
| Relocation.ApplyTargets | src/Neighbours.java:173 | Every target ends holding what its source held before the step. |
| Relocation.ApplyEffect | src/Neighbours.java:165-176 | Combines the previous three: sources end empty, targets hold the moved actors, all other cells are unchanged. |
| Relocation.ApplyConserves | src/Neighbours.java:165-176 | Separate moves into empty cells conserve the count of every kind. |
| Relocation.StepMovesWellFormed | src/Neighbours.java:48-50 | The moves built from the scan's lists stay in the grid and are separate. Each goes from an occupied cell to an empty one. |
| Relocation.Step | src/Neighbours.java:41-52 | One update as a value: the moves of the scan are applied when some actor is dissatisfied, otherwise the world is left as it is; the shape is kept. |
| Relocation.StepEffect | src/Neighbours.java:41-52 | One update moves min(\|dissatisfied\|, \|none\|) actors, in scan order, each into its own empty cell. Sources end empty, targets hold the moved actors, every other cell is unchanged. |
| Relocation.StepConserves | src/Neighbours.java:41-52 | One update conserves the number of Red cells, of Blue cells and of empty cells. |
| Relocation.StableFixpoint | src/Neighbours.java:48-51 | In a stable world an update changes nothing, so repeating it changes nothing either. |
| Engine.Truncate | src/Neighbours.java:82-83 | The cast (int) rounds toward zero: for r ≥ 0, n ≤ r < n + 1; for r < 0, r ≤ n < r + 1 and n ≤ 0. |
| Engine.Side | src/Neighbours.java:76 | The side of the world is the floor square root of nLocations, and 0 for a negative count. |
| Engine.Placed | src/Neighbours.java:91 | How many times the placement loop places an actor: nActors when it is positive, otherwise none. |
| Engine.Neighbours.constructor | src/Neighbours.java:38 | Before population the world has no locations. |
| Engine.Neighbours.IsInsideBounds | src/Neighbours.java:158-160 | Despite its name, the result is true exactly when (x, y) lies outside the world. |
| Engine.Neighbours.Cell | src/Neighbours.java:133-136 | Reading world[y][x] gives the model's cell. |
| Engine.Neighbours.IsDissatisfied | src/Neighbours.java:119-156 | The counting loops and the quota test compute exactly DissatisfiedAt at the given threshold. |
| Engine.Neighbours.SetNonSatisfiedLocations | src/Neighbours.java:103-117 | The nested scan returns exactly NoneLocations and DissatisfiedLocations of the current world, and leaves the world unchanged. |
| Engine.Neighbours.SetCell | src/Neighbours.java:96 | One array assignment: the matrix and its mirror both get the cell written. |
| Engine.Neighbours.RelocateDissatisfied | src/Neighbours.java:162-177 | The loop leaves the world equal to Apply of the list of moves, with the k-th draw choosing among the empty locations still unused. |
| Engine.Neighbours.UpdateWorld | src/Neighbours.java:41-52 | An update with threshold 0.7 leaves the world equal to Step of the old world, and conserves the count of each kind. |
| Engine.Neighbours.AddColorsToGrid | src/Neighbours.java:89-100 | Writes only into cells that were empty. It raises the colour's count by nActors, lowers the empty count by the same number, and leaves the other kinds unchanged. |
| Engine.Neighbours.PopulateWorld | src/Neighbours.java:75-87 | Builds a fresh Side × Side world with exactly nRed Red cells, exactly nBlue Blue cells, and every other cell empty. |
| Engine.Count | src/Neighbours.java:196-205 | Returns the number of entries of the array equal to toFind, i.e. the multiplicity of toFind in the array. |

## Left out

- JavaFX plumbing is not modelled: `start`, the animation timer, rendering, `fixScreenSize`, `main` and the window fields. These are UI and timing.
- `init` is not modelled. Its fixed configuration (`dist = {0.25, 0.25}`, 90000 locations) becomes the parameters of `Engine.Neighbours.PopulateWorld`.
- `test()` is not modelled. It calls `System.exit`. Only its fixture grid is used, as `Satisfaction.TestWorld`, with threshold 0.5.
- `ThreadLocalRandom` is not modelled:
  - Relocation takes the oracle `draw` instead.
  - Placement chooses any empty cell. Its failed random retries are not modelled, because they leave the world unchanged.
  - Engine.Neighbours.AddColorsToGrid: termination of the retry loop cannot be shown with a real random source. The method therefore requires that enough empty cells exist (at least one when the colour is None). Without them `addColorsToGrid` loops forever.
- Engine.Neighbours.PopulateWorld requires that the Red and Blue counts fit in the world. Otherwise the Java placement loop never ends. With a side of 0 it throws.
- Floating point is not modelled:
  - The threshold and the quota are exact `real`s; Neighbours.java uses `double` division and comparison. Near-ties can round differently in the Java engine.
  - `(int)Math.sqrt(n)` is modelled as the exact floor square root.
  - Engine.Truncate: `(int)` on a double is modelled as truncation toward zero, without Java's saturation at ±2³¹. The model has no 32-bit integers.
  - `Math.sqrt` of a negative count gives NaN in the Java engine, which casts to 0. The model gives side 0.
- Before population the Java engine's world is `null`. The model's constructor makes a 0 × 0 world instead, so the null-pointer failures are not modelled.
- `isInsideBounds` reads `world[0].length`, which fails on an empty world. It is only ever called on a non-empty world by the scan, and the model reads the array's second dimension.
- `count` compares with reference equality. Nothing calls it; it is meant for `Actor` arrays,
  where reference equality is value equality, so the model uses `==` at any type with equality.
- `java.awt.Point` is replaced by the datatype `Point(x, y)`: column x, row y, read as `world[y][x]`.
- In the fixture grid of `test()` (Neighbours.java:185-189) the centre Blue actor has three Red neighbours, a share of 1/4; see `Satisfaction.TestWorldCentre`.
