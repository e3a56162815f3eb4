# Local sand spawning and excavation, modelled in Dafny

This project models the core of a Unity excavation simulator. The core keeps
a fixed pool of sand particles in a square window of columns around a moving
anchor (the excavator). It places pooled sands just below the terrain surface
in each column, and an excavator's trigger volume activates the sands it
touches and lowers the terrain beneath them.

- `wrappers.dfy` — `Option`.
- `spawn_window.dfy` (module `SpawnWindow`) — the window arithmetic of
  `LocalSandManager`:
  - the C# `(int)` cast (truncation toward zero) and the float `%`
    (truncated remainder);
  - the two helpers `Floor` and `UnsignedFloor`, and the cell width `_wpr`;
  - the formula that gives column `(i, j)` its target.
- `sand.dfy` (module `SandParticle`) — class `Sand`: one pooled particle
  (`isUsed` is `activeSelf`, `isActive` is not `isKinematic`).
  - `OnEnable`, `Activate`, `Update` (the growth law), both `SetPosition`
    overloads, and Unity's `SetActive` (which runs `OnEnable` when it enables
    a disabled object).
  - The growth law is also stated as functions, with lemmas about them.
- `excavate_area.dfy` (module `Excavation`) — `ExcavateArea.OnTriggerStay`,
  over a `DeformableTerrain` that is a height field with a change counter. The
  excavation rule is also a function, `Excavate`, with a lemma that it is
  idempotent.
- `local_sand_manager.dfy` (module `SandManager`) — class `LocalSandManager`:
  - `Awake` and `Start` are modelled by the constructor;
  - `Update` is split along the source's loops: `Update` → `UpdateRow` →
    `UpdateColumn`, then the release loop, the probe, the stacking loop and the
    slide loop;
  - `GetUnusedSandIndex` is a method over the pool.
  - Each step is specified against value-level functions over the pool states
    (`Released`, `Slid`, `StackedStates`), and the lemmas say what those
    functions mean.

The terrain raycast is a parameter `probe: (x, y, z) -> Option<distance>`. The
clock `Time.time` is a parameter `now`. Floats are modelled as exact reals;
the C# cast and `%`, which differ from Dafny's, are written out explicitly.

Two places where the behaviour the code has differs from the behaviour one
might expect; the model follows the code in both:

- `Floor(val, interval)` (LocalSandManager.cs:144-147) truncates and then
  steps down one interval for every negative value. For a negative exact
  multiple it is therefore one interval below the true floor:
  `Floor(-1, 1) == -2` (`FloorNegativeMultipleExample`).
- `Sand.Update` (Sand.cs:42-49) stops writing the scale once the time is past
  `activateTime + ballooningTime`. The last update inside the interval may
  come before the end, so the scale can stay below `maxRadius` for good.
  Activated at 0 with a ballooning time of 1 and radii 0.1 and 0.5, a sand
  updated at 0.5 and then at 1.5 keeps 0.3; one updated at 0.5, 0.9 and 1.5
  keeps 0.46 (`FinalScaleIsLastWritten`). So at 1.5 the scale is in general
  not `maxRadius`.

## Model

| member | source | states |
|---|---|---|
| SpawnWindow.Trunc | Assets/OcsTerrain/Scripts/Excavation/Sand/LocalSandManager.cs:146 | the `(int)` cast truncates toward zero: within one of the value, never past it, with the value's sign |
| SpawnWindow.CellWidth | Assets/OcsTerrain/Scripts/Excavation/Sand/LocalSandManager.cs:68 | `_wpr` is positive and R of them make up the window width |
| SpawnWindow.FloorNonNegative | Assets/OcsTerrain/Scripts/Excavation/Sand/LocalSandManager.cs:144-147 | for a value ≥ 0, `Floor` is the multiple of the interval in (v − w, v], i.e. the true floor |
| SpawnWindow.FloorNegative | Assets/OcsTerrain/Scripts/Excavation/Sand/LocalSandManager.cs:144-147 | for a negative value, `Floor` is a multiple of the interval; it is the true floor unless the value is itself a multiple, and then it is one interval lower |
| SpawnWindow.FloorNegativeMultipleExample | Assets/OcsTerrain/Scripts/Excavation/Sand/LocalSandManager.cs:144-147 | `Floor(-1, 1) == -2`: not a true floor on exact negative multiples |
| SpawnWindow.UnsignedFloorNonNegative | Assets/OcsTerrain/Scripts/Excavation/Sand/LocalSandManager.cs:149-152 | for a value ≥ 0, `UnsignedFloor` is `Floor` at the cell width, hence a multiple of it |
| SpawnWindow.UnsignedFloorCells | Assets/OcsTerrain/Scripts/Excavation/Sand/LocalSandManager.cs:149-152 | for an anchor ≥ 0, `UnsignedFloor` is the anchor's cell number times the cell width |
| SpawnWindow.FModCells | Assets/OcsTerrain/Scripts/Excavation/Sand/LocalSandManager.cs:82-84 | the C# `%` of k cells by the window width is (k mod R) cells |
| SpawnWindow.ColumnOffsetCell | Assets/OcsTerrain/Scripts/Excavation/Sand/LocalSandManager.cs:81-84 | the wrapped offset of column i is the cell (i − k) mod R, where k is the anchor's cell number |
| SpawnWindow.OffsetCellInjective | Assets/OcsTerrain/Scripts/Excavation/Sand/LocalSandManager.cs:81-84 | two different columns never land on the same window cell |
| SpawnWindow.ColumnOfCellInverse | Assets/OcsTerrain/Scripts/Excavation/Sand/LocalSandManager.cs:81-84 | every window cell is occupied by some column |
| SpawnWindow.ColumnOffsetsPermutation | Assets/OcsTerrain/Scripts/Excavation/Sand/LocalSandManager.cs:81-84 | the R offsets of columns 0..R−1 are a permutation of the cells 0, w, …, (R−1)w |
| SpawnWindow.ColumnCoordInWindow | Assets/OcsTerrain/Scripts/Excavation/Sand/LocalSandManager.cs:81-85 | each column coordinate lies on the cell grid of [Floor(a) − W/2, Floor(a) + W/2) around the anchor |
| SpawnWindow.FMod | Assets/OcsTerrain/Scripts/Excavation/Sand/LocalSandManager.cs:82-84 | definition of the C# float `%` (truncated remainder, the sign of the dividend); FModCells is what it gives for the window |
| SpawnWindow.Floor | Assets/OcsTerrain/Scripts/Excavation/Sand/LocalSandManager.cs:144-147 | definition of the window's `Floor`; what it computes is stated by FloorNonNegative and FloorNegative |
| SpawnWindow.UnsignedFloor | Assets/OcsTerrain/Scripts/Excavation/Sand/LocalSandManager.cs:149-152 | definition of `UnsignedFloor` with its negative-value correction; stated by UnsignedFloorNonNegative and UnsignedFloorCells |
| SpawnWindow.ColumnOffset | Assets/OcsTerrain/Scripts/Excavation/Sand/LocalSandManager.cs:82-84 | definition of the wrapped `%` term of a column coordinate; stated by ColumnOffsetCell and ColumnOffsetsPermutation |
| SpawnWindow.ColumnCoord | Assets/OcsTerrain/Scripts/Excavation/Sand/LocalSandManager.cs:81-85 | definition of one horizontal coordinate of a column's target; stated by ColumnCoordInWindow |
| SandParticle.LerpProperties | Assets/Sand.cs:47 | interpolating with t in [0, 1] stays between the radii and is monotone in t |
| SandParticle.GrowthFractionProperties | Assets/Sand.cs:46 | the clamped fraction lies in [0, 1], is 0 up to activation, 1 from the end of the ballooning time, and never decreases with time |
| SandParticle.GrownScaleBounds | Assets/Sand.cs:46-47 | the growth law stays within [minRadius, maxRadius] |
| SandParticle.GrownScaleEnds | Assets/Sand.cs:46-47 | the growth law gives minRadius up to activation and maxRadius from the end of the ballooning time |
| SandParticle.GrownScaleMonotone | Assets/Sand.cs:46-47 | the growth law never decreases with time |
| SandParticle.UpdateGrows | Assets/Sand.cs:42-49 | an update at a later time never shrinks an active sand's scale and keeps it within the radii |
| SandParticle.UpdatesMonotone | Assets/Sand.cs:42-49 | over non-decreasing update times an active sand's scale never shrinks and stays at most maxRadius |
| SandParticle.FinalScaleIsLastWritten | Assets/Sand.cs:44-48 | the scale of the last update inside the ballooning time is final: 0.3 after updates at 0.5 and 1.5, 0.46 after 0.5, 0.9, 1.5 |
| SandParticle.Sand.IsUsed | Assets/Sand.cs:20 | definition: `isUsed` is whether the sand's game object is enabled |
| SandParticle.Sand.IsActive | Assets/Sand.cs:21 | definition: `isActive` is whether the sand is not kinematic |
| SandParticle.Sand.constructor | Assets/Sand.cs:29-35 | an instantiated sand is enabled and dormant, of minimum scale, with itself and its children on the static layer |
| SandParticle.Sand.SetLayers | Assets/Sand.cs:33-34 | the sand and every child are on the given layer; nothing else changes |
| SandParticle.Sand.OnEnable | Assets/Sand.cs:29-35 | minimum scale, kinematic, static layer for the sand and its children; the rest of the state is unchanged |
| SandParticle.Sand.SetActive | Assets/Sand.cs:20 | `isUsed` becomes the flag; disabling changes nothing else; enabling a disabled sand yields the OnEnable state; enabling an enabled one changes nothing |
| SandParticle.Sand.Activate | Assets/Sand.cs:51-58 | a dormant sand becomes active, records the activation time and moves to the dynamic layer with its children; an active sand is unchanged (idempotent) |
| SandParticle.Sand.Update | Assets/Sand.cs:42-49 | the scale is the growth law at `now` while active and inside the ballooning time, else unchanged; only the scale changes; it stays in [minRadius, maxRadius] and never shrinks for later times |
| SandParticle.Sand.SetPosition3 | Assets/Sand.cs:60-64 | the position becomes (x, y, z) and the rotation the identity; nothing else changes |
| SandParticle.Sand.SetPosition2 | Assets/Sand.cs:66-73 | x and z are set, y is kept, the rotation becomes the identity; nothing else changes |
| Excavation.SetAt | Assets/ExcavateArea.cs:21 | the height at the point is replaced and every other point is unchanged |
| Excavation.Excavate | Assets/ExcavateArea.cs:20-23 | the terrain is lowered to the sand's bottom exactly when it was above it, with a notification only then; no height rises and no other point changes |
| Excavation.ExcavateIdempotent | Assets/ExcavateArea.cs:20-23 | a second contact at the same place leaves the terrain as it is and notifies nothing |
| Excavation.ExcavateExample | Assets/ExcavateArea.cs:20-23 | a sand of minimum radius 0.2 at y = 2 over terrain at 3 lowers it to 1.8 with a notification |
| Excavation.DeformableTerrain.GetHeight | Assets/ExcavateArea.cs:20 | definition: the terrain height at a horizontal position |
| Excavation.DeformableTerrain.SetHeight | Assets/ExcavateArea.cs:21 | the height field becomes `SetAt` of the old one; the notification count is unchanged |
| Excavation.DeformableTerrain.OnHeightmapChanged | Assets/ExcavateArea.cs:22 | one more notification; the heights are unchanged |
| Excavation.ExcavateArea.OnTriggerStay | Assets/ExcavateArea.cs:14-25 | a collider not tagged "Sand" changes nothing; a sand is activated (no change if already active) and the terrain becomes `Excavate` at its horizontal position with target y − minRadius, with one notification exactly when it was lowered |
| SandManager.ProbeAt | Assets/OcsTerrain/Scripts/Excavation/Sand/LocalSandManager.cs:98-101 | definition: the raycast from `ray_offset` above the column's target straight down |
| SandManager.Stale | Assets/OcsTerrain/Scripts/Excavation/Sand/LocalSandManager.cs:87 | definition of the staleness test; stated by StaleCases, SettledColumnNotStale and MissedColumnStale |
| SandManager.ColumnTarget | Assets/OcsTerrain/Scripts/Excavation/Sand/LocalSandManager.cs:81-85 | definition of the target of column (i, j) from the anchor, one ColumnCoord per horizontal axis, y = 0 |
| SandManager.StaleCases | Assets/OcsTerrain/Scripts/Excavation/Sand/LocalSandManager.cs:87 | a column holding the sentinel height is stale; a valid column whose target did not move is not |
| SandManager.Released | Assets/OcsTerrain/Scripts/Excavation/Sand/LocalSandManager.cs:90-96 | releasing a column disables exactly the listed sands that are dormant, pointwise; the pool keeps its size |
| SandManager.ReleaseDisablesDormant | Assets/OcsTerrain/Scripts/Excavation/Sand/LocalSandManager.cs:90-96 | only `used` changes; it is cleared exactly for dormant listed sands; afterwards no listed sand is both used and dormant |
| SandManager.ReleaseIdempotent | Assets/OcsTerrain/Scripts/Excavation/Sand/LocalSandManager.cs:90-96 | releasing the same list twice is releasing it once |
| SandManager.Slid | Assets/OcsTerrain/Scripts/Excavation/Sand/LocalSandManager.cs:120-125 | sliding a column moves exactly the listed dormant sands, pointwise; the pool keeps its size |
| SandManager.SlideHorizontal | Assets/OcsTerrain/Scripts/Excavation/Sand/LocalSandManager.cs:120-125 | a slide changes only x, z (to the target's) and the rotation of dormant listed sands; used, dormancy, scale, layers and y are kept; other sands are unchanged |
| SandManager.SlideIdempotent | Assets/OcsTerrain/Scripts/Excavation/Sand/LocalSandManager.cs:120-125 | sliding twice to the same target is sliding once |
| SandManager.StackDepthNext | Assets/OcsTerrain/Scripts/Excavation/Sand/LocalSandManager.cs:104 | the loop's `depth += _sandSize` steps from the k-th stack depth to the (k+1)-th |
| SandManager.FirstFreeIncreasing | Assets/OcsTerrain/Scripts/Excavation/Sand/LocalSandManager.cs:104-111 | the sands a stacking loop picks by repeated first-free scans have strictly increasing indices and were all unused |
| SandManager.FirstFreeGaps | Assets/OcsTerrain/Scripts/Excavation/Sand/LocalSandManager.cs:104-111 | below the last pick, every index was used or was picked |
| SandManager.FirstFreeUnused | Assets/OcsTerrain/Scripts/Excavation/Sand/LocalSandManager.cs:104-111 | below the last pick, an index was picked exactly when it was unused |
| SandManager.StackedAppend | Assets/OcsTerrain/Scripts/Excavation/Sand/LocalSandManager.cs:106-110 | placing the first unused sand at the next depth extends a stack: the scans, the depth bound, the placements and the untouched sands are all kept |
| SandManager.StackSlotsCount | Assets/OcsTerrain/Scripts/Excavation/Sand/LocalSandManager.cs:104 | the k-th depth size/2 + k·size lies above the zone depth exactly for k below StackSlots |
| SandManager.StackHeight | Assets/OcsTerrain/Scripts/Excavation/Sand/LocalSandManager.cs:104 | a stack whose depths all lie above the zone depth has at most StackSlots sands, and exactly that many when the next depth does not |
| SandManager.StackFilled | Assets/OcsTerrain/Scripts/Excavation/Sand/LocalSandManager.cs:104-111 | a finished stack has at most StackSlots sands, fewer only when the pool ran out, and every stacked sand is used and dormant |
| SandManager.SettledColumnNotStale | Assets/OcsTerrain/Scripts/Excavation/Sand/LocalSandManager.cs:87-117 | after a tick, a column with a valid height is not stale again for the same target |
| SandManager.MissedColumnStale | Assets/OcsTerrain/Scripts/Excavation/Sand/LocalSandManager.cs:113-116 | after a probe miss the column is empty and stale for every next target |
| SandManager.LocalSandManager.AtMostOneColumn | Assets/OcsTerrain/Scripts/Excavation/Sand/LocalSandManager.cs:90-111 | no pool index is listed in two columns, nor twice in one |
| SandManager.LocalSandManager.constructor | Assets/OcsTerrain/Scripts/Excavation/Sand/LocalSandManager.cs:34-71 | a pool of maxSandCount distinct, disabled, dormant sands; empty columns; every height the sentinel, so every column is stale for any target; `_wpr`, `_wpr2`, half width as in Start |
| SandManager.LocalSandManager.CreatePool | Assets/OcsTerrain/Scripts/Excavation/Sand/LocalSandManager.cs:49-58 | count distinct, valid, disabled, dormant sands of the prefab's minimum radius |
| SandManager.LocalSandManager.FillSentinel | Assets/OcsTerrain/Scripts/Excavation/Sand/LocalSandManager.cs:60-66 | every height cell is -1000 |
| SandManager.LocalSandManager.Update | Assets/OcsTerrain/Scripts/Excavation/Sand/LocalSandManager.cs:73-129 | every column holds the target the window formula gives for the anchor and the outcome of its refresh or slide; the pool and column bookkeeping stay consistent |
| SandManager.LocalSandManager.UpdateRow | Assets/OcsTerrain/Scripts/Excavation/Sand/LocalSandManager.cs:79-127 | every column of row i is updated as in Update; other rows are unchanged |
| SandManager.LocalSandManager.UpdateColumn | Assets/OcsTerrain/Scripts/Excavation/Sand/LocalSandManager.cs:81-126 | the target is stored; a non-stale column slides its dormant sands; a stale one records the target, releases its dormant sands and either restacks below the probed surface or stores the sentinel; other columns are unchanged |
| SandManager.LocalSandManager.StaleColumn | Assets/OcsTerrain/Scripts/Excavation/Sand/LocalSandManager.cs:87-117 | the stale branch: the previous target becomes the current one, then the column is released and either restacked below the probed height or set to the sentinel and left empty; other columns are unchanged |
| SandManager.LocalSandManager.RefreshColumn | Assets/OcsTerrain/Scripts/Excavation/Sand/LocalSandManager.cs:90-116 | after the release, a hit stores 5 − distance and stacks first-free sands below it until the zone depth or the pool runs out; a miss stores the sentinel and leaves the column empty |
| SandManager.LocalSandManager.RefreshMiss | Assets/OcsTerrain/Scripts/Excavation/Sand/LocalSandManager.cs:90-116 | release, then the sentinel height and an empty column |
| SandManager.LocalSandManager.RefreshHit | Assets/OcsTerrain/Scripts/Excavation/Sand/LocalSandManager.cs:90-112 | release, then the probed height and a stack laid from the released pool |
| SandManager.LocalSandManager.ProbeMiss | Assets/OcsTerrain/Scripts/Excavation/Sand/LocalSandManager.cs:115 | the column's height becomes the sentinel; no other height changes |
| SandManager.LocalSandManager.ProbeHit | Assets/OcsTerrain/Scripts/Excavation/Sand/LocalSandManager.cs:103-111 | the height becomes 5 − distance and an empty column gets a stack below it |
| SandManager.LocalSandManager.GetUnusedSandIndex | Assets/OcsTerrain/Scripts/Excavation/Sand/LocalSandManager.cs:154-161 | the smallest index of an unused sand, or -1 exactly when every sand is used |
| SandManager.LocalSandManager.ReleaseColumn | Assets/OcsTerrain/Scripts/Excavation/Sand/LocalSandManager.cs:90-96 | the pool becomes `Released` of the column's list, and the list is cleared; other columns are unchanged |
| SandManager.LocalSandManager.ReleaseSands | Assets/OcsTerrain/Scripts/Excavation/Sand/LocalSandManager.cs:90-95 | the pool becomes `Released` of the list |
| SandManager.LocalSandManager.ReleaseSand | Assets/OcsTerrain/Scripts/Excavation/Sand/LocalSandManager.cs:92-94 | one sand is disabled if it is dormant; no other sand changes |
| SandManager.LocalSandManager.SlideColumn | Assets/OcsTerrain/Scripts/Excavation/Sand/LocalSandManager.cs:118-126 | the pool becomes `Slid` of the column's list to its target |
| SandManager.LocalSandManager.SlideSands | Assets/OcsTerrain/Scripts/Excavation/Sand/LocalSandManager.cs:120-125 | the pool becomes `Slid` of the list |
| SandManager.LocalSandManager.SlideSand | Assets/OcsTerrain/Scripts/Excavation/Sand/LocalSandManager.cs:122-124 | one dormant sand moves horizontally to the target; no other sand changes |
| SandManager.LocalSandManager.StackColumn | Assets/OcsTerrain/Scripts/Excavation/Sand/LocalSandManager.cs:104-111 | the column lists the first-free sands, the k-th placed at the target size/2 + k·size below the surface and enabled; the loop ends at the zone depth or when the pool is exhausted |
| SandManager.LocalSandManager.StackNext | Assets/OcsTerrain/Scripts/Excavation/Sand/LocalSandManager.cs:106-110 | one iteration: the first unused sand joins the stack, or, when every sand is used, nothing changes and the loop stops |
| SandManager.LocalSandManager.StackStep | Assets/OcsTerrain/Scripts/Excavation/Sand/LocalSandManager.cs:104-110 | placing the found sand extends the stack invariant, and the depth grows by one sand size |
| SandManager.LocalSandManager.PlaceSand | Assets/OcsTerrain/Scripts/Excavation/Sand/LocalSandManager.cs:108-110 | the sand is appended to the column, moved below the surface, unrotated and enabled; no other sand or column changes |

## Left out

- The rest of the repository is not part of this model. This covers the
  physics of the particles (cohesion, rolling friction), the vehicle and its
  crawlers, the excavator's joints and depenetration limits, the gizmo
  drawing (`OnDrawGizmos`), and the terrain's own mesh and heightmap code.
- `Physics.Raycast` becomes the `probe` parameter, and `Time.time` becomes the
  `now` parameter. The terrain is a total height field over horizontal
  positions.
- Floats are exact reals, so rounding, overflow, infinities and NaN are not
  modelled. Configurations the source does not guard are excluded by the
  constructors' `requires`: a non-positive ballooning time, minRadius above
  maxRadius, a resolution of 0 or a non-positive width.
- `Instantiate`, parenting, object names and the `terrain` reference handed to
  each sand are not modelled. A sand is created by its constructor, which runs
  `OnEnable` as Unity does for an active prefab.
- The `if (!sand) continue;` guards (a destroyed sand) are not modelled: a
  pooled sand is never destroyed here. The `List<Sand>` of each column is a
  list of pool indices, and the pool `_sands` is fixed once built.
- Layer numbers are the two values `Static` and `Dynamic`; the rotation is
  only "identity or not".
- `Excavation.ExcavateArea.OnTriggerStay` requires that a collider tagged
  "Sand" carries a valid `Sand`. The source would fail with a null reference
  otherwise. The source reads `sand.minRadius`, which is not declared in this
  version of Sand.cs; the model reads the sand's `_minRadius`.
- `Awake` of ExcavateArea (finding the terrain by type) is not modelled. The
  terrain is given to the constructor.
- `SpawnWindow.ColumnOffsetsPermutation`: proved only for a non-negative
  anchor coordinate. For negative coordinates the sign correction of
  `UnsignedFloor` is modelled but no window property is proved about it.
- `SpawnWindow.ColumnCoordInWindow`: likewise proved only for a non-negative
  anchor coordinate.
- SandManager.LocalSandManager.Update: per column, its ensures state the
  target, the recorded previous target, the height and, for a miss or a
  non-stale column, the list. For a column whose probe hit, they only bound
  the list by the zone depth; an empty list would also meet them. What the
  column was restacked with, and how the pool states change, is stated per
  column by `UpdateColumn` (a first-free stack over the released pool that
  stops only at the zone depth or when the pool runs out). Whether the pool
  ran out depends on the state at that column's turn, which later columns in
  the same tick change, so it is not restated over the whole tick.
- SandManager.LocalSandManager.UpdateRow: the same as `Update`, over one row:
  a hit column's list is bounded by the zone depth only, and its contents are
  given per column by `UpdateColumn`.
