/**
 * The excavation rule (ExcavateArea.cs): while a digger's trigger volume
 * touches a sand, the sand is activated and the terrain under it is pushed
 * down to the sand's minimum extent, with a change notification.
 */
module Excavation {
  import opened SandParticle

  /** A horizontal position on the terrain. */
  datatype XZ = XZ(x: real, z: real)

  /** The tag that marks sand colliders. */
  const SandTag: string := "Sand"

  /** The height field `f` with the height at `p` replaced by `h`. */
  function SetAt(f: XZ -> real, p: XZ, h: real): (g: XZ -> real)
    ensures g(p) == h
    ensures forall q :: q != p ==> g(q) == f(q)
  {
    q => if q == p then h else f(q)
  }

  /** The outcome of one application of the rule: the new height field and whether a change was signalled. */
  datatype Excavated = Excavated(heights: XZ -> real, notified: bool)

  /**
   * One contact with a sand whose minimum extent reaches down to `target` at
   * `p`: the terrain there is lowered to exactly `target` if it is above it,
   * and only then is a change signalled. No height ever rises, and no other
   * position changes.
   */
  function Excavate(heights: XZ -> real, p: XZ, target: real): (r: Excavated)
    ensures r.notified <==> heights(p) > target
    ensures r.notified ==> r.heights(p) == target
    ensures !r.notified ==> r.heights == heights
    ensures r.heights(p) <= target && r.heights(p) <= heights(p)
    ensures forall q :: r.heights(q) <= heights(q)
    ensures forall q :: q != p ==> r.heights(q) == heights(q)
  {
    if heights(p) > target then Excavated(SetAt(heights, p, target), true)
    else Excavated(heights, false)
  }

  /** A second contact at the same place gives the same terrain and signals nothing. */
  lemma ExcavateIdempotent(heights: XZ -> real, p: XZ, target: real)
    ensures var once := Excavate(heights, p, target);
      Excavate(once.heights, p, target) == Excavated(once.heights, false)
  {
    var once := Excavate(heights, p, target);
    assert once.heights(p) <= target;
  }

  /** A contact at y = 2.0 by a sand of minimum radius 0.2 over terrain at 3.0 lowers it to 1.8, with one notification. */
  lemma ExcavateExample(heights: XZ -> real, p: XZ)
    requires heights(p) == 3.0
    ensures Excavate(heights, p, 2.0 - 0.2).notified
    ensures Excavate(heights, p, 2.0 - 0.2).heights(p) == 1.8
  {
  }

  /** DeformableTerrain, an external height field: only its query, edit and notification are modelled. */
  class DeformableTerrain {
    var heights: XZ -> real
    /** How many times OnHeightmapChanged has been called. */
    var notifications: nat

    constructor (initial: XZ -> real)
      ensures heights == initial && notifications == 0
    {
      heights := initial;
      notifications := 0;
    }

    function GetHeight(p: XZ): real
      reads this
    {
      heights(p)
    }

    method SetHeight(p: XZ, h: real)
      modifies this
      ensures heights == SetAt(old(heights), p, h) && notifications == old(notifications)
    {
      heights := SetAt(heights, p, h);
    }

    method OnHeightmapChanged()
      modifies this
      ensures heights == old(heights) && notifications == old(notifications) + 1
    {
      notifications := notifications + 1;
    }
  }

  class ExcavateArea {
    const terrain: DeformableTerrain

    constructor (terrain: DeformableTerrain)
      ensures this.terrain == terrain
    {
      this.terrain := terrain;
    }

    /**
     * OnTriggerStay for a collider with the given tag and sand component: a
     * non-sand collider changes nothing; a sand is activated (a no-op if it is
     * already active) and the terrain under it is lowered by Excavate.
     */
    method OnTriggerStay(tag: string, sand: Sand?, now: real)
      requires tag == SandTag ==> sand != null && sand.Valid()
      modifies terrain, sand
      ensures tag != SandTag ==>
        terrain.heights == old(terrain.heights) && terrain.notifications == old(terrain.notifications)
      ensures tag != SandTag && sand != null ==> sand.State() == old(sand.State())
      ensures tag == SandTag ==>
        sand.Valid() && !sand.kinematic &&
        (old(sand.kinematic) ==>
           sand.State() == old(sand.State()).(kinematic := false, activateTime := now, layer := Dynamic,
                                              childLayers := Uniform(Dynamic, |old(sand.childLayers)|))) &&
        (!old(sand.kinematic) ==> sand.State() == old(sand.State()))
      ensures tag == SandTag ==>
        var p := XZ(old(sand.position.x), old(sand.position.z));
        var r := Excavate(old(terrain.heights), p, old(sand.position.y) - sand.minRadius);
        terrain.heights == r.heights &&
        terrain.notifications == old(terrain.notifications) + (if r.notified then 1 else 0)
    {
      if tag == SandTag {
        sand.Activate(now);
        var p := XZ(sand.position.x, sand.position.z);
        var target := sand.position.y - sand.minRadius;
        if terrain.GetHeight(p) > target {
          terrain.SetHeight(p, target);
          terrain.OnHeightmapChanged();
        }
      }
    }
  }
}
