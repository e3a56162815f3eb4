/**
 * LocalSandManager.cs: a fixed pool of sands and an R x R window of columns
 * that scrolls with an anchor. Every tick each column recomputes its target;
 * a stale column releases its dormant sands, probes the terrain downwards and
 * stacks new sands below the surface; any other column slides its dormant
 * sands horizontally to the new target.
 */
module SandManager {
  import opened Wrappers
  import opened SandParticle
  import opened SpawnWindow

  /** The height a column holds until its probe hits the terrain. */
  const InvalidHeight: real := -1000.0
  /** How far above the target the downward probe starts. */
  const RayOffset: real := 5.0

  /**
   * The terrain raycast: from an origin straight down, the distance to the
   * terrain if it is hit.
   */
  type Probe = (real, real, real) -> Option<real>

  /** The probe of a column: straight down from RayOffset above its target. */
  function ProbeAt(probe: Probe, target: Vec3): Option<real>
  {
    probe(target.x, target.y + RayOffset, target.z)
  }

  /** Where a pool index sits: list position `k` of column (i, j). */
  datatype Slot = Slot(i: nat, j: nat, k: nat)

  function Minus(a: Vec3, b: Vec3): Vec3
  {
    Vec3(a.x - b.x, a.y - b.y, a.z - b.z)
  }

  function SqrMagnitude(v: Vec3): real
  {
    v.x * v.x + v.y * v.y + v.z * v.z
  }

  /**
   * The staleness test: the target moved by more than a cell since the last
   * refresh, or the column's height is the invalid sentinel. A column holding
   * the sentinel is always stale; a valid column whose target did not move
   * never is.
   */
  predicate Stale(target: Vec3, previous: Vec3, height: real, wpr2: real)
  {
    SqrMagnitude(Minus(target, previous)) > wpr2 || height < -999.0
  }

  lemma StaleCases(target: Vec3, previous: Vec3, height: real, wpr2: real)
    ensures height == InvalidHeight ==> Stale(target, previous, height, wpr2)
    ensures target == previous && wpr2 >= 0.0 && height >= -999.0 ==>
      !Stale(target, previous, height, wpr2)
  {
  }

  /** The target of column (i, j) for an anchor position. */
  function ColumnTarget(anchor: Vec3, i: nat, j: nat, width: real, resolution: nat): Vec3
    requires width > 0.0 && resolution > 0
  {
    Vec3(ColumnCoord(anchor.x, i, width, resolution), 0.0, ColumnCoord(anchor.z, j, width, resolution))
  }

  /**
   * The state of the k-th sand stacked on a column with the given target and
   * surface height: moved there, unrotated, and reset by OnEnable.
   */
  function Placed(s: SandState, target: Vec3, surface: real, below: real, minRadius: real): SandState
  {
    EnabledState(s.(position := Vec3(target.x, surface - below, target.z), rotationIsIdentity := true), minRadius)
  }

  /** What releasing a column does to one sand: a dormant listed sand goes back to the pool. */
  function ReleasedOne(s: SandState, listed: bool): SandState
  {
    if listed && s.kinematic then s.(used := false) else s
  }

  /**
   * The pool states after releasing the column `list`: every dormant sand in
   * it is disabled, and nothing else changes.
   */
  function Released(states: seq<SandState>, list: seq<nat>): (r: seq<SandState>)
    ensures |r| == |states|
    ensures forall m :: 0 <= m < |states| ==> r[m] == ReleasedOne(states[m], m in list)
  {
    seq(|states|, m requires 0 <= m < |states| => ReleasedOne(states[m], m in list))
  }

  /** Releasing one more entry of the list extends a release. */
  lemma ReleasedAppend(initial: seq<SandState>, states: seq<SandState>, list: seq<nat>, n: nat)
    requires n < |list| && list[n] < |initial| && states == Released(initial, list[..n])
    ensures states[list[n] := ReleasedOne(states[list[n]], true)] == Released(initial, list[..n + 1])
  {
    assert list[..n + 1] == list[..n] + [list[n]];
    OneChanged(states, Released(initial, list[..n + 1]), list[n], ReleasedOne(states[list[n]], true));
  }

  /** What sliding a column to `target` does to one sand: a dormant listed sand moves horizontally. */
  function SlidOne(s: SandState, listed: bool, target: Vec3): SandState
  {
    if listed && s.kinematic
    then s.(position := Vec3(target.x, s.position.y, target.z), rotationIsIdentity := true)
    else s
  }

  /**
   * The pool states after sliding the column `list` to `target`: every
   * dormant sand in it takes the target's x and z, keeps its height and is
   * unrotated; nothing else changes.
   */
  function Slid(states: seq<SandState>, list: seq<nat>, target: Vec3): (r: seq<SandState>)
    ensures |r| == |states|
    ensures forall m :: 0 <= m < |states| ==> r[m] == SlidOne(states[m], m in list, target)
  {
    seq(|states|, m requires 0 <= m < |states| => SlidOne(states[m], m in list, target))
  }

  /** Sliding one more entry of the list extends a slide. */
  lemma SlidAppend(initial: seq<SandState>, states: seq<SandState>, list: seq<nat>, n: nat, target: Vec3)
    requires n < |list| && list[n] < |initial| && states == Slid(initial, list[..n], target)
    ensures states[list[n] := SlidOne(states[list[n]], true, target)] == Slid(initial, list[..n + 1], target)
  {
    assert list[..n + 1] == list[..n] + [list[n]];
    OneChanged(states, Slid(initial, list[..n + 1], target), list[n], SlidOne(states[list[n]], true, target));
  }

  /**
   * Sliding changes, of a dormant listed sand, only its x and z (which become
   * the target's) and its rotation; every other sand is left as it was.
   */
  lemma SlideHorizontal(states: seq<SandState>, list: seq<nat>, target: Vec3, m: nat)
    requires m < |states|
    ensures var r, s := Slid(states, list, target)[m], states[m];
      r.used == s.used && r.kinematic == s.kinematic && r.scale == s.scale &&
      r.layer == s.layer && r.childLayers == s.childLayers && r.activateTime == s.activateTime &&
      r.position.y == s.position.y &&
      (m in list && s.kinematic ==> r.position.x == target.x && r.position.z == target.z && r.rotationIsIdentity) &&
      (m !in list || !s.kinematic ==> r == s)
  {
  }

  /** Sliding a column twice to the same target is sliding it once. */
  lemma SlideIdempotent(states: seq<SandState>, list: seq<nat>, target: Vec3)
    ensures Slid(Slid(states, list, target), list, target) == Slid(states, list, target)
  {
    var once := Slid(states, list, target);
    var twice := Slid(once, list, target);
    forall m | 0 <= m < |states|
      ensures twice[m] == once[m]
    {
      SlideHorizontal(states, list, target, m);
    }
  }

  /**
   * Releasing disables exactly the dormant listed sands: afterwards none of
   * the column's sands is both used and dormant, and activated or unlisted
   * sands are as they were.
   */
  lemma ReleaseDisablesDormant(states: seq<SandState>, list: seq<nat>, m: nat)
    requires m < |states|
    ensures var r, s := Released(states, list)[m], states[m];
      r == s.(used := r.used) &&
      (r.used <==> s.used && !(m in list && s.kinematic)) &&
      (m in list ==> !(r.used && r.kinematic))
  {
  }

  /** Releasing a column twice is releasing it once. */
  lemma ReleaseIdempotent(states: seq<SandState>, list: seq<nat>)
    ensures Released(Released(states, list), list) == Released(states, list)
  {
    var once := Released(states, list);
    var twice := Released(once, list);
    forall m | 0 <= m < |states|
      ensures twice[m] == once[m]
    {
      ReleaseDisablesDormant(states, list, m);
    }
  }

  /** The depth below the surface of the k-th sand of a stack. */
  function StackDepth(sandSize: real, k: nat): real
  {
    sandSize * 0.5 + k as real * sandSize
  }

  lemma StackDepthNext(sandSize: real, k: nat, d: real)
    requires d == StackDepth(sandSize, k)
    ensures d + sandSize == StackDepth(sandSize, k + 1)
  {
    assert (k + 1) as real * sandSize == k as real * sandSize + sandSize;
  }

  /** The first index a stack leaves to the next scan: one past its last entry. */
  function After(stack: seq<nat>): nat
  {
    if |stack| == 0 then 0 else stack[|stack| - 1] + 1
  }

  /**
   * `stack` is what repeated first-free scans over the pool states `used`
   * pick: every entry is the first index after the previous entry whose sand
   * was unused.
   */
  predicate FirstFree(used: seq<bool>, stack: seq<nat>)
    decreases |stack|
  {
    if |stack| == 0 then true
    else
      var prefix := stack[..|stack| - 1];
      var x := stack[|stack| - 1];
      FirstFree(used, prefix) && After(prefix) <= x < |used| && !used[x] &&
      forall m :: After(prefix) <= m < x ==> used[m]
  }

  /** Whether each sand of a pool snapshot was used. */
  function UsedFlags(states: seq<SandState>): (r: seq<bool>)
    ensures |r| == |states| && forall m :: 0 <= m < |states| ==> r[m] == states[m].used
  {
    if |states| == 0 then [] else UsedFlags(states[..|states| - 1]) + [states[|states| - 1].used]
  }

  /** One more scan extends a first-free stack. */
  lemma FirstFreeAppend(used: seq<bool>, stack: seq<nat>, x: nat)
    requires FirstFree(used, stack)
    requires After(stack) <= x < |used| && !used[x]
    requires forall m :: After(stack) <= m < x ==> used[m]
    ensures FirstFree(used, stack + [x]) && After(stack + [x]) == x + 1
  {
    assert (stack + [x])[..|stack|] == stack;
  }

  /** The entries of a first-free stack increase strictly and are unused. */
  lemma {:induction false} FirstFreeIncreasing(used: seq<bool>, stack: seq<nat>)
    requires FirstFree(used, stack)
    ensures forall a, b :: 0 <= a < b < |stack| ==> stack[a] < stack[b]
    ensures forall k :: 0 <= k < |stack| ==> stack[k] < After(stack) <= |used| && !used[stack[k]]
    decreases |stack|
  {
    if |stack| > 0 {
      var prefix := stack[..|stack| - 1];
      FirstFreeIncreasing(used, prefix);
      forall k | 0 <= k < |stack|
        ensures stack[k] < After(stack) && !used[stack[k]]
      {
        if k < |prefix| {
          assert stack[k] == prefix[k];
        }
      }
      forall a, b | 0 <= a < b < |stack|
        ensures stack[a] < stack[b]
      {
        assert stack[a] == prefix[a];
        if b < |prefix| {
          assert stack[b] == prefix[b];
        }
      }
    }
  }

  /** Below the end of a first-free stack, every index was used or is in the stack. */
  lemma {:induction false} FirstFreeGaps(used: seq<bool>, stack: seq<nat>)
    requires FirstFree(used, stack)
    ensures forall m :: 0 <= m < After(stack) ==> used[m] || m in stack
    decreases |stack|
  {
    if |stack| > 0 {
      var prefix := stack[..|stack| - 1];
      FirstFreeGaps(used, prefix);
      assert stack == prefix + [stack[|stack| - 1]];
    }
  }

  /**
   * A first-free stack is the list of unused indices below its end: an index
   * there is in the stack exactly when it was unused.
   */
  lemma FirstFreeUnused(used: seq<bool>, stack: seq<nat>)
    requires FirstFree(used, stack)
    ensures After(stack) <= |used|
    ensures forall m :: 0 <= m < After(stack) ==> (m in stack <==> !used[m])
  {
    FirstFreeIncreasing(used, stack);
    FirstFreeGaps(used, stack);
    if |stack| == 0 {
      assert After(stack) == 0;
    }
  }

  /**
   * The pool states `states` after stacking the indices `stack` on a column,
   * starting from `initial`: the indices are what first-free scans pick; each
   * depth lies above `depth`; the k-th sand is moved to the target,
   * `StackDepth(k)` below `surface`, unrotated, and enabled; sands that were
   * used, and all sands after the last one stacked, are unchanged.
   */
  predicate StackedStates(initial: seq<SandState>, states: seq<SandState>, stack: seq<nat>,
                          target: Vec3, surface: real, sandSize: real, depth: real, minRadius: real)
  {
    FirstFree(UsedFlags(initial), stack) &&
    (forall k :: 0 <= k < |stack| ==> StackDepth(sandSize, k) < depth) &&
    PlacedAt(initial, states, stack, target, surface, sandSize, minRadius) &&
    Untouched(initial, states, stack)
  }

  /** The k-th index of `stack` holds, in `states`, its initial sand placed at the k-th depth. */
  predicate PlacedAt(initial: seq<SandState>, states: seq<SandState>, stack: seq<nat>,
                     target: Vec3, surface: real, sandSize: real, minRadius: real)
  {
    forall k :: 0 <= k < |stack| ==>
      stack[k] < |initial| && stack[k] < |states| &&
      states[stack[k]] == Placed(initial[stack[k]], target, surface, StackDepth(sandSize, k), minRadius)
  }

  /** Sands that were used, and sands after the end of `stack`, are as in `initial`. */
  predicate Untouched(initial: seq<SandState>, states: seq<SandState>, stack: seq<nat>)
  {
    |states| == |initial| &&
    (forall m :: 0 <= m < |states| && initial[m].used ==> states[m] == initial[m]) &&
    (forall m :: After(stack) <= m < |states| ==> states[m] == initial[m])
  }

  /** Placing a sand that is not yet in the stack at the next depth extends PlacedAt. */
  lemma PlacedAtAppend(initial: seq<SandState>, states: seq<SandState>, stack: seq<nat>, x: nat,
                       target: Vec3, surface: real, sandSize: real, minRadius: real)
    requires PlacedAt(initial, states, stack, target, surface, sandSize, minRadius)
    requires x < |initial| && x < |states| && states[x] == initial[x]
    requires forall k :: 0 <= k < |stack| ==> stack[k] < x
    ensures PlacedAt(initial, states[x := Placed(states[x], target, surface, StackDepth(sandSize, |stack|), minRadius)],
                     stack + [x], target, surface, sandSize, minRadius)
  {
    var states' := states[x := Placed(states[x], target, surface, StackDepth(sandSize, |stack|), minRadius)];
    var stack' := stack + [x];
    forall k | 0 <= k < |stack'|
      ensures stack'[k] < |initial| && stack'[k] < |states'|
      ensures states'[stack'[k]] == Placed(initial[stack'[k]], target, surface, StackDepth(sandSize, k), minRadius)
    {
      if k < |stack| {
        assert stack'[k] == stack[k];
      }
    }
  }

  /** Changing the first initially unused sand after the stack's end extends Untouched. */
  lemma UntouchedAppend(initial: seq<SandState>, states: seq<SandState>, stack: seq<nat>, x: nat, p: SandState)
    requires Untouched(initial, states, stack)
    requires After(stack) <= x < |states| && !initial[x].used
    ensures Untouched(initial, states[x := p], stack + [x])
  {
    assert After(stack + [x]) == x + 1;
  }

  /** Placing the first unused sand at the next depth extends a stack. */
  lemma StackedAppend(initial: seq<SandState>, states: seq<SandState>, stack: seq<nat>, x: nat,
                      target: Vec3, surface: real, sandSize: real, depth: real, minRadius: real)
    requires StackedStates(initial, states, stack, target, surface, sandSize, depth, minRadius)
    requires StackDepth(sandSize, |stack|) < depth
    requires After(stack) <= x < |states| && !states[x].used
    requires forall m :: 0 <= m < x ==> states[m].used
    ensures StackedStates(initial,
                          states[x := Placed(states[x], target, surface, StackDepth(sandSize, |stack|), minRadius)],
                          stack + [x], target, surface, sandSize, depth, minRadius)
    ensures After(stack + [x]) == x + 1
  {
    var used := UsedFlags(initial);
    assert states[x] == initial[x];
    forall m | After(stack) <= m < x
      ensures used[m]
    {
      assert states[m] == initial[m];
    }
    FirstFreeAppend(used, stack, x);
    FirstFreeIncreasing(used, stack);
    PlacedAtAppend(initial, states, stack, x, target, surface, sandSize, minRadius);
    UntouchedAppend(initial, states, stack, x,
                    Placed(states[x], target, surface, StackDepth(sandSize, |stack|), minRadius));
  }

  /** A sequence that differs from `a` at most at index `x`, where it holds `v`, is `a[x := v]`. */
  lemma OneChanged<T>(a: seq<T>, b: seq<T>, x: nat, v: T)
    requires |a| == |b| && x < |b| && b[x] == v
    requires forall m :: 0 <= m < |b| && m != x ==> b[m] == a[m]
    ensures b == a[x := v]
  {
  }

  /** How many depths `size/2 + k size` lie above `depth`: the ceiling of `(depth - size/2) / size`. */
  function StackSlots(sandSize: real, depth: real): nat
    requires sandSize > 0.0
  {
    if depth <= sandSize * 0.5 then 0
    else
      var q := (depth - sandSize * 0.5) / sandSize;
      if q.Floor as real == q then q.Floor else q.Floor + 1
  }

  /** The k-th stack depth is above `depth` exactly for the first StackSlots values of k. */
  lemma StackSlotsCount(sandSize: real, depth: real, k: nat)
    requires sandSize > 0.0
    ensures StackDepth(sandSize, k) < depth <==> k < StackSlots(sandSize, depth)
  {
    var h := sandSize * 0.5;
    if depth > h {
      var q := (depth - h) / sandSize;
      assert q * sandSize == depth - h;
      assert StackDepth(sandSize, k) < depth <==> k as real < q by {
        assert StackDepth(sandSize, k) - depth == (k as real - q) * sandSize;
        SignOfQuotient(k as real - q, sandSize);
      }
      var n := q.Floor;
      if n as real != q {
        assert n as real < q < n as real + 1.0;
      }
    } else {
      assert StackDepth(sandSize, k) >= depth by {
        assert k as real * sandSize >= 0.0;
      }
    }
  }

  /**
   * A stack whose depths all lie above `depth` holds at most StackSlots sands,
   * and exactly that many when the next depth would not.
   */
  lemma StackHeight(sandSize: real, depth: real, n: nat)
    requires sandSize > 0.0
    requires forall k :: 0 <= k < n ==> StackDepth(sandSize, k) < depth
    ensures n <= StackSlots(sandSize, depth)
    ensures StackDepth(sandSize, n) >= depth ==> n == StackSlots(sandSize, depth)
  {
    if n > 0 {
      StackSlotsCount(sandSize, depth, n - 1);
    }
    StackSlotsCount(sandSize, depth, n);
  }

  /**
   * A finished stack: it holds at most StackSlots sands, all of them now used
   * and dormant, and fewer only when the pool ran out of unused sands.
   */
  lemma StackFilled(initial: seq<SandState>, states: seq<SandState>, stack: seq<nat>,
                    target: Vec3, surface: real, sandSize: real, depth: real, minRadius: real)
    requires sandSize > 0.0
    requires StackedStates(initial, states, stack, target, surface, sandSize, depth, minRadius)
    requires StackDepth(sandSize, |stack|) >= depth || forall m :: 0 <= m < |states| ==> states[m].used
    ensures |stack| <= StackSlots(sandSize, depth)
    ensures |stack| < StackSlots(sandSize, depth) ==> forall m :: 0 <= m < |states| ==> states[m].used
    ensures forall k :: 0 <= k < |stack| ==> stack[k] < |states| && states[stack[k]].used && states[stack[k]].kinematic
  {
    StackHeight(sandSize, depth, |stack|);
    forall k | 0 <= k < |stack|
      ensures stack[k] < |states| && states[stack[k]].used && states[stack[k]].kinematic
    {
      assert states[stack[k]] == Placed(initial[stack[k]], target, surface, StackDepth(sandSize, k), minRadius);
    }
  }

  /**
   * What one tick does to the bookkeeping of a column whose target is
   * `target`: a stale column records the target, then holds the probed height
   * and a stack above `depth`, or the sentinel and no sands; any other column
   * keeps its previous target, height and list.
   */
  predicate ColumnOutcome(target: Vec3, probe: Probe, wpr2: real, sandSize: real, depth: real,
                          prev: Vec3, h: real, column: seq<nat>,
                          prev': Vec3, h': real, column': seq<nat>)
  {
    if Stale(target, prev, h, wpr2) then
      prev' == target &&
      match ProbeAt(probe, target)
      case None => h' == InvalidHeight && column' == []
      case Some(distance) =>
        h' == RayOffset - distance &&
        forall k :: 0 <= k < |column'| ==> StackDepth(sandSize, k) < depth
    else
      prev' == prev && h' == h && column' == column
  }

  /** After a tick, a column that holds a valid height is not stale for the same target. */
  lemma SettledColumnNotStale(target: Vec3, probe: Probe, wpr2: real, sandSize: real, depth: real,
                              prev: Vec3, h: real, column: seq<nat>,
                              prev': Vec3, h': real, column': seq<nat>)
    requires wpr2 >= 0.0
    requires ColumnOutcome(target, probe, wpr2, sandSize, depth, prev, h, column, prev', h', column')
    requires h' >= -999.0
    ensures !Stale(target, prev', h', wpr2)
  {
    if Stale(target, prev, h, wpr2) {
      assert prev' == target;
      assert Minus(target, prev') == Vec3(0.0, 0.0, 0.0);
    } else {
      assert prev' == prev && h' == h;
    }
  }

  /** After a tick, a column whose probe missed is stale again, whatever its next target. */
  lemma MissedColumnStale(target: Vec3, probe: Probe, wpr2: real, sandSize: real, depth: real,
                          prev: Vec3, h: real, column: seq<nat>,
                          prev': Vec3, h': real, column': seq<nat>, next: Vec3)
    requires ColumnOutcome(target, probe, wpr2, sandSize, depth, prev, h, column, prev', h', column')
    requires Stale(target, prev, h, wpr2) && ProbeAt(probe, target).None?
    ensures column' == [] && Stale(next, prev', h', wpr2)
  {
  }

  class LocalSandManager {
    const maxSandCount: nat
    const sandSize: real
    const resolution: nat
    const width: real
    const depth: real

    /** The pool. */
    const sands: seq<Sand>
    /** The pool indices stacked in each column. */
    const sandPillar: array2<seq<nat>>
    const spawnPos: array2<Vec3>
    const spawnPosOld: array2<Vec3>
    const height: array2<real>

    const wpr: real
    const wpr2: real
    const width2: real

    /** Where each pool index in a column list sits: witnesses that no index is in two places. */
    ghost var slotOf: map<nat, Slot>

    /** The state of every sand of the pool. */
    ghost function Snapshot(): (s: seq<SandState>)
      requires InPool()
      reads pool
      ensures |s| == |sands|
      ensures forall m :: 0 <= m < |sands| ==> s[m] == sands[m].State()
    {
      States(|sands|)
    }

    /** The states of the first `n` sands of the pool. */
    ghost function States(n: nat): (s: seq<SandState>)
      requires InPool() && n <= |sands|
      reads pool
      ensures |s| == n
      ensures forall m :: 0 <= m < n ==> s[m] == sands[m].State()
    {
      if n == 0 then [] else States(n - 1) + [sands[n - 1].State()]
    }

    /** The sands of the pool, as a set: what the operations on the columns may modify. */
    ghost const pool: set<Sand>

    /** The minimum radius of the sand prefab, shared by every sand of the pool. */
    ghost const sandMinRadius: real

    ghost predicate InPool()
    {
      forall m :: 0 <= m < |sands| ==> sands[m] in pool
    }

    /** The pool holds distinct sands, all of one prefab; none of this ever changes. */
    ghost predicate PoolShape()
    {
      InPool() &&
      (forall a, b :: 0 <= a < b < |sands| ==> sands[a] != sands[b]) &&
      (forall m :: 0 <= m < |sands| ==> sands[m].minRadius == sandMinRadius)
    }

    /** Every column entry is a used pool index, recorded at its own slot. */
    ghost predicate ColumnsValid()
      requires InPool()
      reads this, pool, sandPillar
    {
      forall i, j, k ::
        (0 <= i < sandPillar.Length0 && 0 <= j < sandPillar.Length1 && 0 <= k < |sandPillar[i, j]|) ==>
          sandPillar[i, j][k] < |sands| && sands[sandPillar[i, j][k]].used &&
          sandPillar[i, j][k] in slotOf && slotOf[sandPillar[i, j][k]] == Slot(i, j, k)
    }

    /** The window geometry Start derives from the configuration; it never changes. */
    ghost predicate Geometry()
    {
      resolution > 0 && width > 0.0 &&
      wpr == CellWidth(width, resolution) && wpr2 == wpr * wpr && width2 == width * 0.5
    }

    /** The pool and the column bookkeeping are consistent. */
    ghost predicate Valid()
      reads this, pool, sandPillar
    {
      |sands| == maxSandCount &&
      sandPillar.Length0 == resolution && sandPillar.Length1 == resolution &&
      spawnPos.Length0 == resolution && spawnPos.Length1 == resolution &&
      spawnPosOld.Length0 == resolution && spawnPosOld.Length1 == resolution &&
      height.Length0 == resolution && height.Length1 == resolution &&
      spawnPos != spawnPosOld &&
      PoolShape() &&
      (forall m :: 0 <= m < |sands| ==> sands[m].Valid()) &&
      ColumnsValid()
    }

    /** No pool index is in two columns, nor twice in one. */
    lemma AtMostOneColumn()
      requires Valid()
      ensures forall i, j, k, i', j', k' ::
        (0 <= i < resolution && 0 <= j < resolution && 0 <= k < |sandPillar[i, j]| &&
         0 <= i' < resolution && 0 <= j' < resolution && 0 <= k' < |sandPillar[i', j']| &&
         sandPillar[i, j][k] == sandPillar[i', j'][k']) ==> i == i' && j == j' && k == k'
    {
    }

    /** Awake and Start: a pool of disabled sands, empty columns, every height the sentinel. */
    constructor (maxSandCount: nat, sandSize: real, resolution: nat, width: real, depth: real,
                 minRadius: real, maxRadius: real, ballooningTime: real, childCount: nat)
      requires resolution > 0 && width > 0.0
      requires ballooningTime > 0.0 && minRadius <= maxRadius
      ensures Geometry() && Valid()
      ensures this.maxSandCount == maxSandCount && this.sandSize == sandSize && this.depth == depth
      ensures this.resolution == resolution && this.width == width
      ensures forall m :: 0 <= m < maxSandCount ==>
        !sands[m].used && sands[m].kinematic && sands[m].minRadius == minRadius
      ensures forall i, j :: 0 <= i < resolution && 0 <= j < resolution ==>
        height[i, j] == InvalidHeight && sandPillar[i, j] == []
      ensures forall i, j, target :: 0 <= i < resolution && 0 <= j < resolution ==>
        Stale(target, spawnPosOld[i, j], height[i, j], wpr2)
    {
      var created := CreatePool(maxSandCount, minRadius, maxRadius, ballooningTime, childCount);
      this.maxSandCount := maxSandCount;
      this.sandSize := sandSize;
      this.resolution := resolution;
      this.width := width;
      this.depth := depth;
      sands := created;
      pool := set m | 0 <= m < maxSandCount :: created[m];
      sandMinRadius := minRadius;
      sandPillar := new seq<nat>[resolution, resolution]((i, j) => []);
      spawnPos := new Vec3[resolution, resolution]((i, j) => Vec3(0.0, 0.0, 0.0));
      spawnPosOld := new Vec3[resolution, resolution]((i, j) => Vec3(0.0, 0.0, 0.0));
      var heights := new real[resolution, resolution]((i, j) => 0.0);
      height := heights;
      wpr := CellWidth(width, resolution);
      wpr2 := CellWidth(width, resolution) * CellWidth(width, resolution);
      width2 := width * 0.5;
      slotOf := map[];
      new;
      FillSentinel(heights);
    }

    /** The pool loop of Start: each sand is instantiated (running OnEnable) and then disabled. */
    static method CreatePool(count: nat, minRadius: real, maxRadius: real, ballooningTime: real, childCount: nat)
      returns (created: seq<Sand>)
      requires ballooningTime > 0.0 && minRadius <= maxRadius
      ensures |created| == count
      ensures forall a, b :: 0 <= a < b < count ==> created[a] != created[b]
      ensures forall m :: 0 <= m < count ==>
        created[m].Valid() && !created[m].used && created[m].kinematic && created[m].minRadius == minRadius
    {
      created := [];
      while |created| < count
        invariant |created| <= count
        invariant forall a, b :: 0 <= a < b < |created| ==> created[a] != created[b]
        invariant forall m :: 0 <= m < |created| ==>
          created[m].Valid() && !created[m].used && created[m].kinematic && created[m].minRadius == minRadius
      {
        var sand := new Sand(minRadius, maxRadius, ballooningTime, childCount);
        sand.SetActive(false);
        created := created + [sand];
      }
    }

    /** The height loop of Start: every column starts at the sentinel. */
    static method FillSentinel(heights: array2<real>)
      modifies heights
      ensures forall a, b :: 0 <= a < heights.Length0 && 0 <= b < heights.Length1 ==> heights[a, b] == InvalidHeight
    {
      var i := 0;
      while i < heights.Length0
        invariant 0 <= i <= heights.Length0
        invariant forall a, b :: 0 <= a < i && 0 <= b < heights.Length1 ==> heights[a, b] == InvalidHeight
      {
        var j := 0;
        while j < heights.Length1
          invariant 0 <= j <= heights.Length1
          invariant forall a, b :: 0 <= a < i && 0 <= b < heights.Length1 ==> heights[a, b] == InvalidHeight
          invariant forall b :: 0 <= b < j ==> heights[i, b] == InvalidHeight
        {
          heights[i, j] := InvalidHeight;
          j := j + 1;
        }
        i := i + 1;
      }
    }

    /**
     * Update: every column of the window takes its target for the anchor
     * position and is refreshed or slid, as ColumnOutcome says; the pool and
     * the columns stay consistent.
     */
    method Update(anchor: Vec3, probe: Probe)
      requires Geometry() && Valid()
      modifies pool, sandPillar, spawnPos, spawnPosOld, height, this`slotOf
      ensures Valid()
      ensures forall a, b :: 0 <= a < resolution && 0 <= b < resolution ==>
        Refreshed(a, b, anchor, probe, old(spawnPosOld[a, b]), old(height[a, b]), old(sandPillar[a, b]))
    {
      var i := 0;
      while i < resolution
        invariant 0 <= i <= resolution && Valid()
        invariant forall a, b :: 0 <= a < i && 0 <= b < resolution ==>
          Refreshed(a, b, anchor, probe, old(spawnPosOld[a, b]), old(height[a, b]), old(sandPillar[a, b]))
        invariant forall a, b :: i <= a < resolution && 0 <= b < resolution ==>
          spawnPosOld[a, b] == old(spawnPosOld[a, b]) && height[a, b] == old(height[a, b]) &&
          sandPillar[a, b] == old(sandPillar[a, b])
      {
        UpdateRow(i, anchor, probe);
        i := i + 1;
      }
    }

    /**
     * Column (a, b) holds the target for `anchor` and the outcome of its
     * refresh from the previous target `prev`, height `h` and list `column`.
     */
    ghost predicate Refreshed(a: nat, b: nat, anchor: Vec3, probe: Probe, prev: Vec3, h: real, column: seq<nat>)
      requires Geometry()
      reads spawnPos, spawnPosOld, height, sandPillar
    {
      a < spawnPos.Length0 && b < spawnPos.Length1 &&
      a < spawnPosOld.Length0 && b < spawnPosOld.Length1 &&
      a < height.Length0 && b < height.Length1 &&
      a < sandPillar.Length0 && b < sandPillar.Length1 &&
      var target := ColumnTarget(anchor, a, b, width, resolution);
      spawnPos[a, b] == target &&
      ColumnOutcome(target, probe, wpr2, sandSize, depth, prev, h, column,
                    spawnPosOld[a, b], height[a, b], sandPillar[a, b])
    }

    /** The inner loop of Update: the columns of row i, in order. */
    method UpdateRow(i: nat, anchor: Vec3, probe: Probe)
      requires Geometry() && Valid() && i < resolution
      modifies pool, sandPillar, spawnPos, spawnPosOld, height, this`slotOf
      ensures Valid()
      ensures forall b :: 0 <= b < resolution ==>
        Refreshed(i, b, anchor, probe, old(spawnPosOld[i, b]), old(height[i, b]), old(sandPillar[i, b]))
      ensures forall a, b :: 0 <= a < resolution && 0 <= b < resolution && a != i ==>
        spawnPos[a, b] == old(spawnPos[a, b]) && spawnPosOld[a, b] == old(spawnPosOld[a, b]) &&
        height[a, b] == old(height[a, b]) && sandPillar[a, b] == old(sandPillar[a, b])
    {
      var j := 0;
      while j < resolution
        invariant 0 <= j <= resolution && Valid()
        invariant forall b :: 0 <= b < j ==>
          Refreshed(i, b, anchor, probe, old(spawnPosOld[i, b]), old(height[i, b]), old(sandPillar[i, b]))
        invariant forall a, b :: 0 <= a < resolution && 0 <= b < resolution && (a != i || j <= b) ==>
          spawnPos[a, b] == old(spawnPos[a, b]) && spawnPosOld[a, b] == old(spawnPosOld[a, b]) &&
          height[a, b] == old(height[a, b]) && sandPillar[a, b] == old(sandPillar[a, b])
      {
        UpdateColumn(i, j, ColumnTarget(anchor, i, j, width, resolution), probe);
        j := j + 1;
      }
    }

    /**
     * The body of Update for column (i, j) and its new target: a stale column
     * records the target, releases its dormant sands, probes the terrain from
     * RayOffset above the target and, on a hit, stores the height and stacks
     * new sands below it, or on a miss stores the sentinel; any other column
     * slides its dormant sands to the target.
     */
    method UpdateColumn(i: nat, j: nat, target: Vec3, probe: Probe)
      requires Valid() && i < resolution && j < resolution
      modifies pool, sandPillar, spawnPos, spawnPosOld, height, this`slotOf
      ensures Valid()
      ensures spawnPos[i, j] == target
      ensures ColumnOutcome(target, probe, wpr2, sandSize, depth,
                            old(spawnPosOld[i, j]), old(height[i, j]), old(sandPillar[i, j]),
                            spawnPosOld[i, j], height[i, j], sandPillar[i, j])
      ensures forall a, b :: 0 <= a < resolution && 0 <= b < resolution && (a != i || b != j) ==>
        spawnPos[a, b] == old(spawnPos[a, b]) && spawnPosOld[a, b] == old(spawnPosOld[a, b]) &&
        height[a, b] == old(height[a, b]) && sandPillar[a, b] == old(sandPillar[a, b])
      ensures !Stale(target, old(spawnPosOld[i, j]), old(height[i, j]), wpr2) ==>
        Snapshot() == Slid(old(Snapshot()), sandPillar[i, j], target)
      ensures Stale(target, old(spawnPosOld[i, j]), old(height[i, j]), wpr2) && ProbeAt(probe, target).None? ==>
        Snapshot() == Released(old(Snapshot()), old(sandPillar[i, j]))
      ensures Stale(target, old(spawnPosOld[i, j]), old(height[i, j]), wpr2) && ProbeAt(probe, target).Some? ==>
        StackedStates(Released(old(Snapshot()), old(sandPillar[i, j])), Snapshot(), sandPillar[i, j],
                      target, height[i, j], sandSize, depth, sandMinRadius)
      ensures Stale(target, old(spawnPosOld[i, j]), old(height[i, j]), wpr2) && ProbeAt(probe, target).Some? ==>
        StackDepth(sandSize, |sandPillar[i, j]|) >= depth || forall m :: 0 <= m < |sands| ==> sands[m].used
    {
      ghost var before := Snapshot();
      ghost var list, prev, h := sandPillar[i, j], spawnPosOld[i, j], height[i, j];
      spawnPos[i, j] := target;
      if SqrMagnitude(Minus(spawnPos[i, j], spawnPosOld[i, j])) > wpr2 || height[i, j] < -999.0 {
        assert Snapshot() == before && sandPillar[i, j] == list;
        StaleColumn(i, j, ProbeAt(probe, target));
        assert ColumnOutcome(target, probe, wpr2, sandSize, depth, prev, h, list,
                             spawnPosOld[i, j], height[i, j], sandPillar[i, j]);
      } else {
        assert Snapshot() == before && sandPillar[i, j] == list;
        SlideColumn(i, j);
        assert ColumnOutcome(target, probe, wpr2, sandSize, depth, prev, h, list,
                             spawnPosOld[i, j], height[i, j], sandPillar[i, j]);
      }
    }

    /** The stale branch of Update for column (i, j): record the new target, then refresh. */
    method StaleColumn(i: nat, j: nat, hit: Option<real>)
      requires Valid() && i < resolution && j < resolution
      modifies pool, sandPillar, spawnPosOld, height, this`slotOf
      ensures Valid()
      ensures spawnPosOld[i, j] == spawnPos[i, j]
      ensures forall a, b :: 0 <= a < resolution && 0 <= b < resolution && (a != i || b != j) ==>
        spawnPosOld[a, b] == old(spawnPosOld[a, b])
      ensures forall a, b :: 0 <= a < resolution && 0 <= b < resolution && (a != i || b != j) ==>
        height[a, b] == old(height[a, b])
      ensures forall a, b :: 0 <= a < resolution && 0 <= b < resolution && (a != i || b != j) ==>
        sandPillar[a, b] == old(sandPillar[a, b])
      ensures hit.None? ==> height[i, j] == InvalidHeight && sandPillar[i, j] == []
      ensures hit.None? ==> Snapshot() == Released(old(Snapshot()), old(sandPillar[i, j]))
      ensures hit.Some? ==> height[i, j] == RayOffset - hit.value
      ensures hit.Some? ==>
        StackedStates(Released(old(Snapshot()), old(sandPillar[i, j])), Snapshot(), sandPillar[i, j],
                      spawnPos[i, j], height[i, j], sandSize, depth, sandMinRadius)
      ensures hit.Some? ==>
        StackDepth(sandSize, |sandPillar[i, j]|) >= depth || forall m :: 0 <= m < |sands| ==> sands[m].used
    {
      ghost var before := Snapshot();
      ghost var list := sandPillar[i, j];
      spawnPosOld[i, j] := spawnPos[i, j];
      assert Snapshot() == before && sandPillar[i, j] == list;
      RefreshColumn(i, j, hit);
    }

    /**
     * The rest of the stale branch of Update for column (i, j), whose new
     * target is already recorded, for the probe's result `hit`.
     */
    method RefreshColumn(i: nat, j: nat, hit: Option<real>)
      requires Valid() && i < resolution && j < resolution
      modifies pool, sandPillar, height, this`slotOf
      ensures Valid()
      ensures forall a, b :: 0 <= a < resolution && 0 <= b < resolution && (a != i || b != j) ==>
        height[a, b] == old(height[a, b])
      ensures forall a, b :: 0 <= a < resolution && 0 <= b < resolution && (a != i || b != j) ==>
        sandPillar[a, b] == old(sandPillar[a, b])
      ensures hit.None? ==> height[i, j] == InvalidHeight && sandPillar[i, j] == []
      ensures hit.None? ==> Snapshot() == Released(old(Snapshot()), old(sandPillar[i, j]))
      ensures hit.Some? ==> height[i, j] == RayOffset - hit.value
      ensures hit.Some? ==>
        StackedStates(Released(old(Snapshot()), old(sandPillar[i, j])), Snapshot(), sandPillar[i, j],
                      spawnPos[i, j], height[i, j], sandSize, depth, sandMinRadius)
      ensures hit.Some? ==>
        StackDepth(sandSize, |sandPillar[i, j]|) >= depth || forall m :: 0 <= m < |sands| ==> sands[m].used
    {
      if hit.Some? {
        RefreshHit(i, j, hit.value);
      } else {
        RefreshMiss(i, j);
      }
    }

    /** The stale branch when the probe misses: release the column, store the sentinel. */
    method RefreshMiss(i: nat, j: nat)
      requires Valid() && i < resolution && j < resolution
      modifies pool, sandPillar, height, this`slotOf
      ensures Valid()
      ensures forall a, b :: 0 <= a < resolution && 0 <= b < resolution && (a != i || b != j) ==>
        height[a, b] == old(height[a, b])
      ensures forall a, b :: 0 <= a < resolution && 0 <= b < resolution && (a != i || b != j) ==>
        sandPillar[a, b] == old(sandPillar[a, b])
      ensures height[i, j] == InvalidHeight && sandPillar[i, j] == []
      ensures Snapshot() == Released(old(Snapshot()), old(sandPillar[i, j]))
    {
      ReleaseColumn(i, j);
      ProbeMiss(i, j);
    }

    /** The stale branch when the probe hits at `distance`: release the column, then restack it. */
    method RefreshHit(i: nat, j: nat, distance: real)
      requires Valid() && i < resolution && j < resolution
      modifies pool, sandPillar, height, this`slotOf
      ensures Valid()
      ensures forall a, b :: 0 <= a < resolution && 0 <= b < resolution && (a != i || b != j) ==>
        height[a, b] == old(height[a, b])
      ensures forall a, b :: 0 <= a < resolution && 0 <= b < resolution && (a != i || b != j) ==>
        sandPillar[a, b] == old(sandPillar[a, b])
      ensures height[i, j] == RayOffset - distance
      ensures StackedStates(Released(old(Snapshot()), old(sandPillar[i, j])), Snapshot(), sandPillar[i, j],
                            spawnPos[i, j], height[i, j], sandSize, depth, sandMinRadius)
      ensures StackDepth(sandSize, |sandPillar[i, j]|) >= depth || forall m :: 0 <= m < |sands| ==> sands[m].used
    {
      ghost var released := Released(Snapshot(), sandPillar[i, j]);
      ReleaseColumn(i, j);
      assert Snapshot() == released;
      ProbeHit(i, j, distance);
    }

    /** A probe miss: the column stores the sentinel height and stays empty. */
    method ProbeMiss(i: nat, j: nat)
      requires Valid() && i < resolution && j < resolution
      modifies height
      ensures Valid()
      ensures height[i, j] == InvalidHeight
      ensures forall a, b :: 0 <= a < resolution && 0 <= b < resolution && (a != i || b != j) ==>
        height[a, b] == old(height[a, b])
    {
      height[i, j] := InvalidHeight;
    }

    /** A probe hit at `distance`: the column stores the terrain height and stacks sands below it. */
    method ProbeHit(i: nat, j: nat, distance: real)
      requires Valid() && i < resolution && j < resolution && sandPillar[i, j] == []
      modifies pool, sandPillar, height, this`slotOf
      ensures Valid()
      ensures height[i, j] == RayOffset - distance
      ensures forall a, b :: 0 <= a < resolution && 0 <= b < resolution && (a != i || b != j) ==>
        height[a, b] == old(height[a, b]) && sandPillar[a, b] == old(sandPillar[a, b])
      ensures StackedStates(old(Snapshot()), Snapshot(), sandPillar[i, j], spawnPos[i, j], height[i, j],
                            sandSize, depth, sandMinRadius)
      ensures StackDepth(sandSize, |sandPillar[i, j]|) >= depth ||
              forall m :: 0 <= m < |sands| ==> sands[m].used
    {
      ghost var before := Snapshot();
      height[i, j] := RayOffset - distance;
      assert Snapshot() == before;
      StackColumn(i, j);
    }

    /**
     * GetUnusedSandIndex: the smallest index of an unused sand, or -1 exactly
     * when every sand of the pool is used.
     */
    method GetUnusedSandIndex() returns (r: int)
      requires |sands| == maxSandCount
      ensures -1 <= r < maxSandCount
      ensures r == -1 <==> forall m :: 0 <= m < maxSandCount ==> sands[m].used
      ensures r >= 0 ==> !sands[r].used && forall m :: 0 <= m < r ==> sands[m].used
    {
      var i := 0;
      while i < maxSandCount
        invariant 0 <= i <= maxSandCount
        invariant forall m :: 0 <= m < i ==> sands[m].used
      {
        if !sands[i].IsUsed() {
          return i;
        }
        i := i + 1;
      }
      return -1;
    }

    /**
     * The release half of a refresh: every dormant sand of column (i, j) is
     * disabled, activated ones stay enabled, and the list is emptied.
     */
    method ReleaseColumn(i: nat, j: nat)
      requires Valid() && i < resolution && j < resolution
      modifies pool, sandPillar
      ensures Valid()
      ensures sandPillar[i, j] == []
      ensures forall a, b :: 0 <= a < resolution && 0 <= b < resolution && (a != i || b != j) ==>
        sandPillar[a, b] == old(sandPillar[a, b])
      ensures Snapshot() == Released(old(Snapshot()), old(sandPillar[i, j]))
    {
      var list := sandPillar[i, j];
      ghost var initial := Snapshot();
      ReleaseSands(list);
      sandPillar[i, j] := [];
      forall a, b, k | 0 <= a < resolution && 0 <= b < resolution && 0 <= k < |sandPillar[a, b]|
        ensures sandPillar[a, b][k] < |sands| && sands[sandPillar[a, b][k]].used
      {
        var e := sandPillar[a, b][k];
        assert e == old(sandPillar[a, b][k]) && slotOf[e] == Slot(a, b, k);
        assert e !in list;
        assert Snapshot()[e] == initial[e];
      }
    }

    /** The `foreach` loop of a refresh: every dormant sand of `list` is disabled. */
    method ReleaseSands(list: seq<nat>)
      requires PoolShape() && forall m :: 0 <= m < |sands| ==> sands[m].Valid()
      requires forall k :: 0 <= k < |list| ==> list[k] < |sands|
      modifies pool
      ensures forall m :: 0 <= m < |sands| ==> sands[m].Valid()
      ensures Snapshot() == Released(old(Snapshot()), list)
    {
      ghost var initial := Snapshot();
      var n := 0;
      while n < |list|
        invariant 0 <= n <= |list|
        invariant forall m :: 0 <= m < |sands| ==> sands[m].Valid()
        invariant Snapshot() == Released(initial, list[..n])
      {
        ReleasedAppend(initial, Snapshot(), list, n);
        ReleaseSand(list[n]);
        n := n + 1;
      }
      assert list[..n] == list;
    }

    /** One iteration of the release loop: a dormant sand is disabled, an active one left alone. */
    method ReleaseSand(index: nat)
      requires PoolShape() && index < |sands|
      requires forall m :: 0 <= m < |sands| ==> sands[m].Valid()
      modifies pool
      ensures forall m :: 0 <= m < |sands| ==> sands[m].Valid()
      ensures Snapshot() == old(Snapshot())[index := ReleasedOne(old(Snapshot())[index], true)]
    {
      ghost var before := Snapshot();
      var sand := sands[index];
      if !sand.IsActive() {
        sand.SetActive(false);
      }
      OneChanged(before, Snapshot(), index, ReleasedOne(before[index], true));
    }

    /**
     * The non-stale branch: every dormant sand of column (i, j) slides to the
     * column's target horizontally, keeping its height; active sands are left
     * to the physics engine.
     */
    method SlideColumn(i: nat, j: nat)
      requires Valid() && i < resolution && j < resolution
      modifies pool
      ensures Valid()
      ensures Snapshot() == Slid(old(Snapshot()), sandPillar[i, j], spawnPos[i, j])
    {
      SlideSands(sandPillar[i, j], spawnPos[i, j]);
    }

    /** The `foreach` loop of the non-stale branch: every dormant sand of `list` slides to `target`. */
    method SlideSands(list: seq<nat>, target: Vec3)
      requires PoolShape() && forall m :: 0 <= m < |sands| ==> sands[m].Valid()
      requires forall k :: 0 <= k < |list| ==> list[k] < |sands|
      modifies pool
      ensures forall m :: 0 <= m < |sands| ==> sands[m].Valid()
      ensures Snapshot() == Slid(old(Snapshot()), list, target)
    {
      ghost var initial := Snapshot();
      var n := 0;
      while n < |list|
        invariant 0 <= n <= |list|
        invariant forall m :: 0 <= m < |sands| ==> sands[m].Valid()
        invariant Snapshot() == Slid(initial, list[..n], target)
      {
        SlidAppend(initial, Snapshot(), list, n, target);
        SlideSand(list[n], target);
        n := n + 1;
      }
      assert list[..n] == list;
    }

    /** One iteration of the slide loop: a dormant sand moves horizontally, an active one is left alone. */
    method SlideSand(index: nat, target: Vec3)
      requires PoolShape() && index < |sands|
      requires forall m :: 0 <= m < |sands| ==> sands[m].Valid()
      modifies pool
      ensures forall m :: 0 <= m < |sands| ==> sands[m].Valid()
      ensures Snapshot() == old(Snapshot())[index := SlidOne(old(Snapshot())[index], true, target)]
    {
      ghost var before := Snapshot();
      var sand := sands[index];
      if !sand.IsActive() {
        sand.SetPosition2(target.x, target.z);
      }
      OneChanged(before, Snapshot(), index, SlidOne(before[index], true, target));
    }

    /**
     * The acquire half of a refresh after a probe hit (the `for (depth ...)`
     * loop): from `size/2` below the surface, one cell of `sandSize` at a time
     * while above `depth`, the first unused sand is placed at the column's
     * target, that far below `height[i, j]`, and enabled; the loop stops early
     * when the pool is exhausted.
     */
    method StackColumn(i: nat, j: nat)
      requires Valid() && i < resolution && j < resolution && sandPillar[i, j] == []
      modifies pool, sandPillar, this`slotOf
      ensures Valid()
      ensures forall a, b :: 0 <= a < resolution && 0 <= b < resolution && (a != i || b != j) ==>
        sandPillar[a, b] == old(sandPillar[a, b])
      ensures StackedStates(old(Snapshot()), Snapshot(), sandPillar[i, j], spawnPos[i, j], height[i, j],
                            sandSize, depth, sandMinRadius)
      ensures StackDepth(sandSize, |sandPillar[i, j]|) >= depth ||
              forall m :: 0 <= m < |sands| ==> sands[m].used
    {
      var target := spawnPos[i, j];
      var surface := height[i, j];
      var d := sandSize * 0.5;
      ghost var initial := Snapshot();
      ghost var stack: seq<nat> := [];
      while d < depth
        invariant Stacking(i, j, initial, stack, d, target, surface)
        invariant forall a, b :: 0 <= a < resolution && 0 <= b < resolution && (a != i || b != j) ==>
          sandPillar[a, b] == old(sandPillar[a, b])
        decreases |sands| - After(stack)
      {
        var found;
        found, d, stack := StackNext(i, j, target, surface, d, initial, stack);
        if !found {
          break;
        }
      }
    }

    /** The invariant of the stacking loop of column (i, j). */
    ghost predicate Stacking(i: nat, j: nat, initial: seq<SandState>, stack: seq<nat>, d: real,
                             target: Vec3, surface: real)
      reads this, pool, sandPillar
    {
      Valid() && i < resolution && j < resolution &&
      sandPillar[i, j] == stack && d == StackDepth(sandSize, |stack|) &&
      |initial| == |sands| &&
      StackedStates(initial, Snapshot(), stack, target, surface, sandSize, depth, sandMinRadius) &&
      After(stack) <= |sands| && forall m :: 0 <= m < After(stack) ==> sands[m].used
    }

    /**
     * One iteration of the stacking loop: the first unused sand joins the
     * stack, or, when there is none, nothing changes and the loop ends.
     */
    method StackNext(i: nat, j: nat, target: Vec3, surface: real, d: real,
                     ghost initial: seq<SandState>, ghost stack: seq<nat>)
      returns (found: bool, d': real, ghost stack': seq<nat>)
      requires Stacking(i, j, initial, stack, d, target, surface) && d < depth
      modifies pool, sandPillar, this`slotOf
      ensures Stacking(i, j, initial, stack', d', target, surface)
      ensures forall a, b :: 0 <= a < resolution && 0 <= b < resolution && (a != i || b != j) ==>
        sandPillar[a, b] == old(sandPillar[a, b])
      ensures found ==> After(stack) < After(stack')
      ensures found ==> |stack'| == |stack| + 1 && stack'[..|stack|] == stack
      ensures !found ==> stack' == stack && d' == d && forall m :: 0 <= m < |sands| ==> sands[m].used
    {
      var sandIndex := GetUnusedSandIndex();
      if sandIndex == -1 {
        return false, d, stack;
      }
      d' := StackStep(i, j, sandIndex, target, surface, d, initial, stack);
      found := true;
      stack' := stack + [sandIndex];
    }

    /** The placement half of one iteration of the stacking loop. */
    method StackStep(i: nat, j: nat, sandIndex: nat, target: Vec3, surface: real, d: real,
                     ghost initial: seq<SandState>, ghost stack: seq<nat>)
      returns (d': real)
      requires Stacking(i, j, initial, stack, d, target, surface) && d < depth
      requires After(stack) <= sandIndex < |sands| && !sands[sandIndex].used
      requires forall m :: 0 <= m < sandIndex ==> sands[m].used
      modifies pool, sandPillar, this`slotOf
      ensures Stacking(i, j, initial, stack + [sandIndex], d', target, surface)
      ensures d' == d + sandSize
      ensures forall a, b :: 0 <= a < resolution && 0 <= b < resolution && (a != i || b != j) ==>
        sandPillar[a, b] == old(sandPillar[a, b])
    {
      ghost var before := Snapshot();
      d' := d + sandSize;
      StackDepthNext(sandSize, |stack|, d);
      StackedAppend(initial, before, stack, sandIndex, target, surface, sandSize, depth, sandMinRadius);
      PlaceSand(i, j, sandIndex, target, surface, d);
    }

    /**
     * The body of the stacking loop for an unused sand: append it to column
     * (i, j), move it to the column's target `below` under the surface, and
     * enable it.
     */
    method PlaceSand(i: nat, j: nat, sandIndex: nat, target: Vec3, surface: real, below: real)
      requires Valid() && i < resolution && j < resolution
      requires sandIndex < |sands| && !sands[sandIndex].used
      modifies pool, sandPillar, this`slotOf
      ensures Valid()
      ensures sandPillar[i, j] == old(sandPillar[i, j]) + [sandIndex]
      ensures forall a, b :: 0 <= a < resolution && 0 <= b < resolution && (a != i || b != j) ==>
        sandPillar[a, b] == old(sandPillar[a, b])
      ensures Snapshot() == old(Snapshot())[sandIndex :=
        Placed(old(Snapshot())[sandIndex], target, surface, below, sandMinRadius)]
    {
      ghost var before := Snapshot();
      var sand := sands[sandIndex];
      slotOf := slotOf[sandIndex := Slot(i, j, |sandPillar[i, j]|)];
      sandPillar[i, j] := sandPillar[i, j] + [sandIndex];
      sand.SetPosition3(target.x, surface - below, target.z);
      sand.SetActive(true);
      assert sand.State() == Placed(before[sandIndex], target, surface, below, sandMinRadius);
      OneChanged(before, Snapshot(), sandIndex, sand.State());
      forall a, b, k | 0 <= a < resolution && 0 <= b < resolution && 0 <= k < |sandPillar[a, b]|
        ensures sandPillar[a, b][k] < |sands| && sands[sandPillar[a, b][k]].used
        ensures sandPillar[a, b][k] in slotOf && slotOf[sandPillar[a, b][k]] == Slot(a, b, k)
      {
        if a != i || b != j || k < |sandPillar[a, b]| - 1 {
          var e := old(sandPillar[a, b][k]);
          assert sandPillar[a, b][k] == e && e != sandIndex;
          assert before[e].used;
        }
      }
    }
  }
}
