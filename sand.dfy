/**
 * One sand particle (Sand.cs): a pooled game object that is dormant
 * (kinematic, on the static layer) until an excavator activates it, after
 * which it is simulated, moves to the dynamic layer and grows from its
 * minimum to its maximum radius over `ballooningTime`.
 */
module SandParticle {

  /** The two collision layers a sand and its children move between. */
  datatype Layer = Static | Dynamic

  datatype Vec3 = Vec3(x: real, y: real, z: real)

  /** Everything observable about a sand, used to say what an operation leaves alone. */
  datatype SandState = SandState(
    used: bool,
    kinematic: bool,
    activateTime: real,
    layer: Layer,
    childLayers: seq<Layer>,
    scale: real,
    position: Vec3,
    rotationIsIdentity: bool)

  /** Mathf.Clamp01. */
  function Clamp01(v: real): real
  {
    if v < 0.0 then 0.0 else if v > 1.0 then 1.0 else v
  }

  /** The linear interpolation `(1 - t) a + t b`. */
  function Lerp(a: real, b: real, t: real): real
  {
    (1.0 - t) * a + t * b
  }

  /** The clamped fraction of the ballooning time elapsed since activation. */
  function GrowthFraction(ballooningTime: real, activateTime: real, now: real): real
    requires ballooningTime > 0.0
  {
    Clamp01((now - activateTime) / ballooningTime)
  }

  /** The growth law: the scale for a sand activated at `activateTime`, at time `now`. */
  function GrownScale(minRadius: real, maxRadius: real, ballooningTime: real,
                      activateTime: real, now: real): real
    requires ballooningTime > 0.0
  {
    Lerp(minRadius, maxRadius, GrowthFraction(ballooningTime, activateTime, now))
  }

  /**
   * What one call of Update does to the scale: nothing while kinematic or once
   * the ballooning time has passed, otherwise the growth law at `now`.
   */
  function ScaleAfterUpdate(minRadius: real, maxRadius: real, ballooningTime: real,
                            kinematic: bool, activateTime: real, scale: real, now: real): real
    requires ballooningTime > 0.0
  {
    if kinematic || now > activateTime + ballooningTime then scale
    else GrownScale(minRadius, maxRadius, ballooningTime, activateTime, now)
  }

  /** The scale after a run of Update calls at the given times on an active sand. */
  function ScaleAfterUpdates(minRadius: real, maxRadius: real, ballooningTime: real,
                             activateTime: real, scale: real, times: seq<real>): real
    requires ballooningTime > 0.0
    decreases |times|
  {
    if times == [] then scale
    else
      ScaleAfterUpdates(minRadius, maxRadius, ballooningTime, activateTime,
        ScaleAfterUpdate(minRadius, maxRadius, ballooningTime, false, activateTime, scale, times[0]),
        times[1..])
  }

  predicate NonDecreasing(times: seq<real>)
  {
    forall a, b :: 0 <= a < b < |times| ==> times[a] <= times[b]
  }

  /** Interpolating with a fraction in [0, 1] stays between the end points and is monotone in it. */
  lemma LerpProperties(a: real, b: real, t1: real, t2: real)
    requires a <= b && 0.0 <= t1 <= t2 <= 1.0
    ensures a <= Lerp(a, b, t1) <= Lerp(a, b, t2) <= b
  {
    assert Lerp(a, b, t1) == a + t1 * (b - a);
    assert Lerp(a, b, t2) == a + t2 * (b - a);
    NonNegativeProduct(t2 - t1, b - a);
    NonNegativeProduct(t1, b - a);
    NonNegativeProduct(1.0 - t2, b - a);
    assert b == a + t2 * (b - a) + (1.0 - t2) * (b - a);
  }

  lemma NonNegativeProduct(x: real, y: real)
    requires x >= 0.0 && y >= 0.0
    ensures x * y >= 0.0
  {
  }

  /** The growth fraction lies in [0, 1], is 0 up to activation, 1 from `ballooningTime` on, and is monotone. */
  lemma GrowthFractionProperties(ballooningTime: real, activateTime: real, now1: real, now2: real)
    requires ballooningTime > 0.0 && now1 <= now2
    ensures 0.0 <= GrowthFraction(ballooningTime, activateTime, now1)
                <= GrowthFraction(ballooningTime, activateTime, now2) <= 1.0
    ensures now1 <= activateTime ==> GrowthFraction(ballooningTime, activateTime, now1) == 0.0
    ensures now2 >= activateTime + ballooningTime ==>
      GrowthFraction(ballooningTime, activateTime, now2) == 1.0
  {
    var q1 := (now1 - activateTime) / ballooningTime;
    var q2 := (now2 - activateTime) / ballooningTime;
    assert q1 * ballooningTime == now1 - activateTime;
    assert q2 * ballooningTime == now2 - activateTime;
    assert (q2 - q1) * ballooningTime == now2 - now1;
    SignOfQuotient(q2 - q1, ballooningTime);
    SignOfQuotient(q1, ballooningTime);
    SignOfQuotient(q2 - 1.0, ballooningTime);
  }

  /** A real times a positive number has the real's sign. */
  lemma SignOfQuotient(q: real, b: real)
    requires b > 0.0
    ensures q * b >= 0.0 <==> q >= 0.0
    ensures q * b <= 0.0 <==> q <= 0.0
  {
  }

  /** The grown scale lies between the two radii. */
  lemma GrownScaleBounds(minRadius: real, maxRadius: real, ballooningTime: real,
                         activateTime: real, now: real)
    requires ballooningTime > 0.0 && minRadius <= maxRadius
    ensures minRadius <= GrownScale(minRadius, maxRadius, ballooningTime, activateTime, now) <= maxRadius
  {
    GrowthFractionProperties(ballooningTime, activateTime, now, now);
    var t := GrowthFraction(ballooningTime, activateTime, now);
    LerpProperties(minRadius, maxRadius, t, t);
  }

  /** At activation the grown scale is the minimum radius; from `ballooningTime` on it is the maximum. */
  lemma GrownScaleEnds(minRadius: real, maxRadius: real, ballooningTime: real,
                       activateTime: real, now: real)
    requires ballooningTime > 0.0
    ensures now <= activateTime ==>
      GrownScale(minRadius, maxRadius, ballooningTime, activateTime, now) == minRadius
    ensures now >= activateTime + ballooningTime ==>
      GrownScale(minRadius, maxRadius, ballooningTime, activateTime, now) == maxRadius
  {
    GrowthFractionProperties(ballooningTime, activateTime, now, now);
  }

  /** The grown scale never decreases with time. */
  lemma GrownScaleMonotone(minRadius: real, maxRadius: real, ballooningTime: real,
                           activateTime: real, now1: real, now2: real)
    requires ballooningTime > 0.0 && minRadius <= maxRadius && now1 <= now2
    ensures GrownScale(minRadius, maxRadius, ballooningTime, activateTime, now1)
            <= GrownScale(minRadius, maxRadius, ballooningTime, activateTime, now2)
  {
    GrowthFractionProperties(ballooningTime, activateTime, now1, now2);
    LerpProperties(minRadius, maxRadius, GrowthFraction(ballooningTime, activateTime, now1),
                   GrowthFraction(ballooningTime, activateTime, now2));
  }

  /**
   * One Update on an active sand whose scale was written by the growth law at a
   * time no later than `now` does not shrink it and keeps it within the radii.
   */
  lemma UpdateGrows(minRadius: real, maxRadius: real, ballooningTime: real,
                    activateTime: real, written: real, now: real)
    requires ballooningTime > 0.0 && minRadius <= maxRadius && written <= now
    ensures var s := GrownScale(minRadius, maxRadius, ballooningTime, activateTime, written);
      var s' := ScaleAfterUpdate(minRadius, maxRadius, ballooningTime, false, activateTime, s, now);
      s <= s' <= maxRadius && minRadius <= s'
  {
    GrownScaleBounds(minRadius, maxRadius, ballooningTime, activateTime, written);
    GrownScaleBounds(minRadius, maxRadius, ballooningTime, activateTime, now);
    GrownScaleMonotone(minRadius, maxRadius, ballooningTime, activateTime, written, now);
  }

  /**
   * Over any run of Update calls at non-decreasing times, starting from the
   * scale the growth law gave at a time no later than the first call, the
   * scale never decreases and stays within [minRadius, maxRadius].
   */
  lemma {:induction false} UpdatesMonotone(minRadius: real, maxRadius: real, ballooningTime: real,
                                            activateTime: real, written: real, times: seq<real>)
    requires ballooningTime > 0.0 && minRadius <= maxRadius
    requires NonDecreasing(times) && (times != [] ==> written <= times[0])
    ensures var s := GrownScale(minRadius, maxRadius, ballooningTime, activateTime, written);
      var s' := ScaleAfterUpdates(minRadius, maxRadius, ballooningTime, activateTime, s, times);
      s <= s' && minRadius <= s' <= maxRadius
    decreases |times|
  {
    var s := GrownScale(minRadius, maxRadius, ballooningTime, activateTime, written);
    GrownScaleBounds(minRadius, maxRadius, ballooningTime, activateTime, written);
    if times != [] {
      var now := times[0];
      UpdateGrows(minRadius, maxRadius, ballooningTime, activateTime, written, now);
      var s1 := ScaleAfterUpdate(minRadius, maxRadius, ballooningTime, false, activateTime, s, now);
      // The next scale is again one the growth law wrote, at `now` or earlier.
      var written' := if now > activateTime + ballooningTime then written else now;
      assert s1 == GrownScale(minRadius, maxRadius, ballooningTime, activateTime, written');
      assert NonDecreasing(times[1..]);
      UpdatesMonotone(minRadius, maxRadius, ballooningTime, activateTime, written', times[1..]);
    }
  }

  /**
   * Growth stops writing once the ballooning time has passed, so the final scale
   * is the last one written: with radii 0.1 and 0.5 and a ballooning time of 1,
   * updates at 0.5 and 1.5 leave 0.3, and updates at 0.5, 0.9 and 1.5 leave
   * 0.46, instead of 0.5 at the end.
   */
  lemma FinalScaleIsLastWritten()
    ensures ScaleAfterUpdates(0.1, 0.5, 1.0, 0.0, 0.1, [0.5, 1.5]) == 0.3
    ensures ScaleAfterUpdates(0.1, 0.5, 1.0, 0.0, 0.1, [0.5, 0.9, 1.5]) == 0.46
  {
    assert ScaleAfterUpdate(0.1, 0.5, 1.0, false, 0.0, 0.1, 0.5) == 0.3;
    assert ScaleAfterUpdate(0.1, 0.5, 1.0, false, 0.0, 0.3, 0.9) == 0.46;
    assert ScaleAfterUpdate(0.1, 0.5, 1.0, false, 0.0, 0.46, 1.5) == 0.46;
    assert ScaleAfterUpdate(0.1, 0.5, 1.0, false, 0.0, 0.3, 1.5) == 0.3;
    assert [0.5, 1.5][1..] == [1.5];
    assert [0.5, 0.9, 1.5][1..] == [0.9, 1.5];
    assert [0.9, 1.5][1..] == [1.5];
    assert [1.5][1..] == [];
  }

  /** The state OnEnable leaves behind: enabled, dormant, of minimum scale, all on the static layer. */
  function EnabledState(s: SandState, minRadius: real): SandState
  {
    s.(used := true, kinematic := true, scale := minRadius,
       layer := Static, childLayers := Uniform(Static, |s.childLayers|))
  }

  /** All entries of `s` are `l`. */
  predicate AllLayer(s: seq<Layer>, l: Layer)
  {
    forall k :: 0 <= k < |s| ==> s[k] == l
  }

  /** The layers of `n` children all moved to `l`. */
  function Uniform(l: Layer, n: nat): (r: seq<Layer>)
    ensures |r| == n && AllLayer(r, l)
  {
    if n == 0 then [] else Uniform(l, n - 1) + [l]
  }

  class Sand {
    const minRadius: real
    const maxRadius: real
    const ballooningTime: real

    /** gameObject.activeSelf: the pool slot is in use. */
    var used: bool
    /** _rb.isKinematic: the sand is dormant. */
    var kinematic: bool
    var activateTime: real
    var layer: Layer
    /** The layers of the transform's children. */
    var childLayers: seq<Layer>
    /** The uniform localScale. */
    var scale: real
    var position: Vec3
    var rotationIsIdentity: bool

    /** The time at which the growth law wrote the current scale of an active sand. */
    ghost var scaleWritten: real

    function State(): SandState
      reads this
    {
      SandState(used, kinematic, activateTime, layer, childLayers, scale, position, rotationIsIdentity)
    }

    /** isUsed */
    function IsUsed(): bool
      reads this
    {
      used
    }

    /** isActive */
    function IsActive(): bool
      reads this
    {
      !kinematic
    }

    /**
     * The configuration the growth law needs, and the scale invariant: a dormant
     * sand has its minimum scale, an active one the scale the growth law gave at
     * `scaleWritten`, which is not before its activation.
     */
    ghost predicate Valid()
      reads this
    {
      ballooningTime > 0.0 && minRadius <= maxRadius &&
      (kinematic ==> scale == minRadius) &&
      (!kinematic ==>
         activateTime <= scaleWritten &&
         scale == GrownScale(minRadius, maxRadius, ballooningTime, activateTime, scaleWritten))
    }

    /** Instantiate of the sand prefab at the origin; the prefab is active, so OnEnable runs. */
    constructor (minRadius: real, maxRadius: real, ballooningTime: real, childCount: nat)
      requires ballooningTime > 0.0 && minRadius <= maxRadius
      ensures Valid()
      ensures this.minRadius == minRadius && this.maxRadius == maxRadius
      ensures this.ballooningTime == ballooningTime
      ensures used && kinematic && scale == minRadius
      ensures layer == Static && |childLayers| == childCount && AllLayer(childLayers, Static)
      ensures position == Vec3(0.0, 0.0, 0.0) && rotationIsIdentity
    {
      this.minRadius := minRadius;
      this.maxRadius := maxRadius;
      this.ballooningTime := ballooningTime;
      used := true;
      activateTime := 0.0;
      position := Vec3(0.0, 0.0, 0.0);
      rotationIsIdentity := true;
      childLayers := Uniform(Static, childCount);
      new;
      OnEnable();
    }

    /** Moves the sand object and each of its children to layer `l`. */
    method SetLayers(l: Layer)
      modifies this
      ensures layer == l && |childLayers| == old(|childLayers|) && AllLayer(childLayers, l)
      ensures used == old(used) && kinematic == old(kinematic) && activateTime == old(activateTime)
      ensures scale == old(scale) && position == old(position)
      ensures rotationIsIdentity == old(rotationIsIdentity) && scaleWritten == old(scaleWritten)
    {
      layer := l;
      var i := 0;
      while i < |childLayers|
        invariant 0 <= i <= |childLayers| == old(|childLayers|)
        invariant forall k :: 0 <= k < i ==> childLayers[k] == l
        invariant used == old(used) && kinematic == old(kinematic)
        invariant activateTime == old(activateTime) && scale == old(scale)
        invariant position == old(position) && rotationIsIdentity == old(rotationIsIdentity)
        invariant scaleWritten == old(scaleWritten) && layer == l
      {
        childLayers := childLayers[i := l];
        i := i + 1;
      }
    }

    /** OnEnable: back to a dormant sand of minimum scale on the static layer. */
    method OnEnable()
      requires ballooningTime > 0.0 && minRadius <= maxRadius
      modifies this
      ensures Valid()
      ensures scale == minRadius && kinematic
      ensures layer == Static && |childLayers| == old(|childLayers|) && AllLayer(childLayers, Static)
      ensures used == old(used) && activateTime == old(activateTime) && position == old(position)
      ensures rotationIsIdentity == old(rotationIsIdentity)
    {
      scale := minRadius;
      kinematic := true;
      SetLayers(Static);
    }

    /**
     * GameObject.SetActive: disabling only clears `used`; enabling a disabled
     * sand sets `used` and runs OnEnable; enabling an enabled one does nothing.
     */
    method SetActive(value: bool)
      requires Valid()
      modifies this
      ensures Valid()
      ensures used == value
      ensures !value ==> State() == old(State()).(used := false)
      ensures value && old(used) ==> State() == old(State())
      ensures value && !old(used) ==> State() == EnabledState(old(State()), minRadius)
    {
      if !value {
        used := false;
      } else if !used {
        used := true;
        OnEnable();
        assert childLayers == Uniform(Static, |old(childLayers)|);
      }
    }

    /**
     * Activate: a dormant sand becomes simulated, records `now` as its
     * activation time and moves with its children to the dynamic layer; an
     * active sand is left exactly as it is.
     */
    method Activate(now: real)
      requires Valid()
      modifies this
      ensures Valid() && !kinematic
      ensures old(kinematic) ==>
        State() == old(State()).(kinematic := false, activateTime := now, layer := Dynamic,
                                 childLayers := Uniform(Dynamic, |old(childLayers)|))
      ensures !old(kinematic) ==> State() == old(State()) && scaleWritten == old(scaleWritten)
    {
      if !kinematic {
        return;
      }
      kinematic := false;
      activateTime := now;
      scaleWritten := now;
      GrownScaleEnds(minRadius, maxRadius, ballooningTime, activateTime, now);
      SetLayers(Dynamic);
      assert childLayers == Uniform(Dynamic, |old(childLayers)|);
    }

    /**
     * Update at time `now`: the scale follows the growth law while the sand is
     * active and the ballooning time has not passed; nothing else changes. With
     * non-decreasing times the scale of an active sand never shrinks.
     */
    method Update(now: real)
      requires Valid()
      modifies this
      ensures Valid()
      ensures scale == ScaleAfterUpdate(minRadius, maxRadius, ballooningTime,
                                        old(kinematic), old(activateTime), old(scale), now)
      ensures State() == old(State()).(scale := scale)
      ensures !kinematic && old(scaleWritten) <= now ==> old(scale) <= scale <= maxRadius
      ensures minRadius <= scale <= maxRadius
    {
      GrownScaleBounds(minRadius, maxRadius, ballooningTime, activateTime, scaleWritten);
      if kinematic {
        return;
      }
      if now > activateTime + ballooningTime {
        return;
      }
      if scaleWritten <= now {
        GrownScaleMonotone(minRadius, maxRadius, ballooningTime, activateTime, scaleWritten, now);
      }
      GrownScaleBounds(minRadius, maxRadius, ballooningTime, activateTime, now);
      var t := Clamp01((now - activateTime) / ballooningTime);
      scale := Lerp(minRadius, maxRadius, t);
      if now >= activateTime {
        scaleWritten := now;
      } else {
        // Only a clock running backwards reaches this: the growth law then gives
        // the minimum radius, which is also its value at the activation time.
        GrownScaleEnds(minRadius, maxRadius, ballooningTime, activateTime, now);
        GrownScaleEnds(minRadius, maxRadius, ballooningTime, activateTime, activateTime);
        scaleWritten := activateTime;
      }
    }

    /** SetPosition(x, y, z): moves the sand and resets its rotation. */
    method SetPosition3(x: real, y: real, z: real)
      modifies this
      ensures old(Valid()) ==> Valid()
      ensures State() == old(State()).(position := Vec3(x, y, z), rotationIsIdentity := true)
      ensures scaleWritten == old(scaleWritten)
    {
      position := Vec3(x, y, z);
      rotationIsIdentity := true;
    }

    /** SetPosition(x, z): moves the sand horizontally, keeping its height, and resets its rotation. */
    method SetPosition2(x: real, z: real)
      modifies this
      ensures old(Valid()) ==> Valid()
      ensures State() == old(State()).(position := Vec3(x, old(position.y), z), rotationIsIdentity := true)
      ensures scaleWritten == old(scaleWritten)
    {
      var pos := position;
      pos := pos.(x := x);
      pos := pos.(z := z);
      position := pos;
      rotationIsIdentity := true;
    }
  }
}
