/**
 * The discrete rules of the paper-airplane scene (src/components/three/carton.js):
 * the movement flags the arrow keys and the on-screen buttons set, the
 * per-frame movement step of the render loop, and the fold toggle that drives
 * the plane's folding animation.
 *
 * The three.js objects the code mutates in place are classes here: a
 * `Vector3` for a position, an `AnimationAction` for the folding clip. The
 * movement step reads its clamp bounds through a second reference to the
 * very vector it is moving; `Vector3` being a class keeps that aliasing.
 */
module Carton {
  import opened Wrappers

  // ---------------------------------------------------------------------------
  // Constants (`MOVEMENT_CONFIG` and the limits of the movement block)
  // ---------------------------------------------------------------------------

  const Acceleration: real := 20.0
  const Deceleration: real := 3.0
  const MaxSpeed: real := 5.0
  const MaxDistance: real := 2.0
  const BackwardLimit: real := 0.0

  /** The frame the reverse (unfolding) playback starts from: frame 40 at 30 fps. */
  const UnfoldStartTime: real := 40.0 / 30.0

  // ---------------------------------------------------------------------------
  // Movement flags
  // ---------------------------------------------------------------------------

  /** The value of `keysRef.current`. */
  datatype Keys = Keys(forward: bool, backward: bool, left: bool, right: bool)

  const NoKeys := Keys(false, false, false, false)

  /** A movement direction, as the control panel names it. */
  datatype Direction = Forward | Backward | Left | Right

  function Flag(keys: Keys, d: Direction): bool {
    match d
    case Forward => keys.forward
    case Backward => keys.backward
    case Left => keys.left
    case Right => keys.right
  }

  /** `keysRef.current[direction] = v`. */
  function WithFlag(keys: Keys, d: Direction, v: bool): (r: Keys)
    ensures forall e :: Flag(r, e) == (if e == d then v else Flag(keys, e))
  {
    match d
    case Forward => keys.(forward := v)
    case Backward => keys.(backward := v)
    case Left => keys.(left := v)
    case Right => keys.(right := v)
  }

  /** The direction an arrow key stands for; every other key stands for none. */
  function KeyDirection(key: string): (r: Option<Direction>)
    ensures r == Some(Forward) <==> key == "ArrowUp"
    ensures r == Some(Backward) <==> key == "ArrowDown"
    ensures r == Some(Left) <==> key == "ArrowLeft"
    ensures r == Some(Right) <==> key == "ArrowRight"
    ensures r.None? <==> key !in {"ArrowUp", "ArrowDown", "ArrowLeft", "ArrowRight"}
  {
    match key
    case "ArrowUp" => Some(Forward)
    case "ArrowDown" => Some(Backward)
    case "ArrowLeft" => Some(Left)
    case "ArrowRight" => Some(Right)
    case _ => None
  }

  /** `handleKeyDown`: an arrow key sets its own flag and no other. */
  function Pressed(keys: Keys, key: string): (r: Keys)
    ensures KeyDirection(key).None? ==> r == keys
    ensures forall d :: Flag(r, d) == (KeyDirection(key) == Some(d) || Flag(keys, d))
  {
    match KeyDirection(key)
    case None => keys
    case Some(d) => WithFlag(keys, d, true)
  }

  /** `handleKeyUp`: an arrow key clears its own flag and no other. */
  function Released(keys: Keys, key: string): (r: Keys)
    ensures KeyDirection(key).None? ==> r == keys
    ensures forall d :: Flag(r, d) == (KeyDirection(key) != Some(d) && Flag(keys, d))
  {
    match KeyDirection(key)
    case None => keys
    case Some(d) => WithFlag(keys, d, false)
  }

  /** Releasing a key undoes pressing it, whatever the flag was before. */
  lemma PressThenRelease(keys: Keys, key: string)
    ensures Released(Pressed(keys, key), key) == Released(keys, key)
    ensures Pressed(Released(keys, key), key) == Pressed(keys, key)
    ensures Pressed(Pressed(keys, key), key) == Pressed(keys, key)
  {
  }

  /** `keysRef.current`: the one flags object every handler writes to. */
  class KeyFlags {
    var forward: bool
    var backward: bool
    var left: bool
    var right: bool

    constructor ()
      ensures Value() == NoKeys
    {
      forward, backward, left, right := false, false, false, false;
    }

    function Value(): Keys
      reads this
    {
      Keys(forward, backward, left, right)
    }

    method SetFlag(d: Direction, v: bool)
      modifies this
      ensures Value() == WithFlag(old(Value()), d, v)
    {
      match d
      case Forward => forward := v;
      case Backward => backward := v;
      case Left => left := v;
      case Right => right := v;
    }

    /** `handleKeyDown`. */
    method HandleKeyDown(key: string)
      modifies this
      ensures Value() == Pressed(old(Value()), key)
    {
      var d := KeyDirection(key);
      if d.Some? {
        SetFlag(d.value, true);
      }
    }

    /** `handleKeyUp`. */
    method HandleKeyUp(key: string)
      modifies this
      ensures Value() == Released(old(Value()), key)
    {
      var d := KeyDirection(key);
      if d.Some? {
        SetFlag(d.value, false);
      }
    }

    /** `handleButtonPress`: the control panel's button holds its direction. */
    method HandleButtonPress(d: Direction)
      modifies this
      ensures Value() == WithFlag(old(Value()), d, true)
    {
      SetFlag(d, true);
    }

    /** `handleButtonRelease`. */
    method HandleButtonRelease(d: Direction)
      modifies this
      ensures Value() == WithFlag(old(Value()), d, false)
    {
      SetFlag(d, false);
    }
  }

  // ---------------------------------------------------------------------------
  // Movement arithmetic
  // ---------------------------------------------------------------------------

  datatype Point = Point(x: real, y: real, z: real)

  /** The planar velocity `{ x, z }`. */
  datatype Planar = Planar(x: real, z: real)

  /**
   * The target velocity for the held flags. Right overrides left; forward
   * heads to negative z; backward overrides forward, but only while the
   * plane's base z is still below the backward limit.
   */
  function TargetVelocity(keys: Keys, baseZ: real): (t: Planar)
    ensures keys.right ==> t.x == MaxSpeed
    ensures keys.left && !keys.right ==> t.x == -MaxSpeed
    ensures !keys.left && !keys.right ==> t.x == 0.0
    ensures keys.backward && baseZ < BackwardLimit ==> t.z == MaxSpeed
    ensures keys.forward && !(keys.backward && baseZ < BackwardLimit) ==> t.z == -MaxSpeed
    ensures !keys.forward && !(keys.backward && baseZ < BackwardLimit) ==> t.z == 0.0
  {
    var x := if keys.right then MaxSpeed else if keys.left then -MaxSpeed else 0.0;
    var z := if keys.backward && baseZ - BackwardLimit < 0.0 then MaxSpeed
             else if keys.forward then -MaxSpeed else 0.0;
    Planar(x, z)
  }

  /** `THREE.MathUtils.lerp(x, y, t)`, which is `(1 - t) * x + t * y`. */
  function Lerp(a: real, b: real, t: real): real {
    (1.0 - t) * a + t * b
  }

  /** Full acceleration towards a non-zero target, the slower deceleration towards rest. */
  function Rate(target: real): real {
    if target != 0.0 then Acceleration else Deceleration
  }

  /** One frame's velocity update for one axis. */
  function Accelerate(v: real, target: real, delta: real): (r: real)
    ensures r == v + (target - v) * Rate(target) * delta
  {
    Lerp(v, target, Rate(target) * delta)
  }

  /**
   * While the frame is short enough that the step is at most the whole gap
   * (`rate * delta <= 1`), the new velocity lies between the old one and
   * the target, and a step of exactly the gap lands on the target.
   */
  lemma AccelerateBetween(v: real, target: real, delta: real)
    requires 0.0 <= Rate(target) * delta <= 1.0
    ensures v <= target ==> v <= Accelerate(v, target, delta) <= target
    ensures target <= v ==> target <= Accelerate(v, target, delta) <= v
    ensures Rate(target) * delta == 1.0 ==> Accelerate(v, target, delta) == target
  {
    var t := Rate(target) * delta;
    var gap := target - v;
    assert Accelerate(v, target, delta) == v + gap * t;
    if v <= target {
      assert 0.0 <= gap * t <= gap by {
        assert gap * t <= gap * 1.0;
      }
    } else {
      assert gap <= gap * t <= 0.0 by {
        assert gap * 1.0 <= gap * t;
      }
    }
  }

  /** `THREE.MathUtils.clamp(value, min, max)`, which is `max(min, min(max, value))`. */
  function Clamp(value: real, lo: real, hi: real): real {
    var upper := if hi < value then hi else value;
    if lo < upper then upper else lo
  }

  function Min(a: real, b: real): real {
    if a < b then a else b
  }

  /** A clamp whose bounds lie on either side of the value leaves it as it is. */
  lemma ClampAround(value: real, below: real, above: real)
    requires 0.0 <= below && 0.0 <= above
    ensures Clamp(value, value - below, value + above) == value
  {
  }

  // ---------------------------------------------------------------------------
  // The movement step
  // ---------------------------------------------------------------------------

  /**
   * What the movement block reads and writes: the flags, the velocity, the
   * base position (`initialPositionRef.current`) and the container's
   * position, which the wind effect keeps at the base plus a wind offset.
   */
  datatype MoveState = MoveState(keys: Keys, velocity: Planar, base: Point, container: Point)

  /**
   * The movement block as written. The bounds of both clamps are read
   * through `initialPos`, which is the same vector as the base being moved,
   * so they are taken around the already moved value.
   */
  function Move(s: MoveState, delta: real): MoveState {
    var target := TargetVelocity(s.keys, s.base.z);
    var vx := Accelerate(s.velocity.x, target.x, delta);
    var vz := Accelerate(s.velocity.z, target.z, delta);
    var x1 := s.base.x + vx * delta;
    var z1 := s.base.z + vz * delta;
    var x2 := Clamp(x1, x1 - MaxDistance, x1 + MaxDistance);
    var z2 := if s.keys.backward then Min(z1, BackwardLimit) else Clamp(z1, z1 - MaxDistance, z1);
    var base := Point(x2, s.base.y, z2);
    var wind := Point(s.container.x - s.base.x, s.container.y - s.base.y, s.container.z - s.base.z);
    MoveState(s.keys, Planar(vx, vz), base, Point(base.x + wind.x, base.y + wind.y, base.z + wind.z))
  }

  /**
   * What one step does: the velocity moves towards the target at the
   * acceleration or deceleration rate; the base moves by the new velocity,
   * with no clamp on x; on z only the backward limit applies, keeping the
   * base at or below 0 while backward is held; the height and the wind
   * offset are carried over.
   */
  lemma MoveEffect(s: MoveState, delta: real)
    ensures var r := Move(s, delta);
      var t := TargetVelocity(s.keys, s.base.z);
      && r.keys == s.keys
      && r.velocity == Planar(Accelerate(s.velocity.x, t.x, delta), Accelerate(s.velocity.z, t.z, delta))
      && r.base.x == s.base.x + r.velocity.x * delta
      && r.base.y == s.base.y
      && (s.keys.backward ==> r.base.z == Min(s.base.z + r.velocity.z * delta, BackwardLimit))
      && (s.keys.backward ==> r.base.z <= BackwardLimit)
      && (!s.keys.backward ==> r.base.z == s.base.z + r.velocity.z * delta)
      && r.container.x - r.base.x == s.container.x - s.base.x
      && r.container.y == s.container.y
      && r.container.z - r.base.z == s.container.z - s.base.z
  {
    var r := Move(s, delta);
    var x1 := s.base.x + r.velocity.x * delta;
    var z1 := s.base.z + r.velocity.z * delta;
    ClampAround(x1, MaxDistance, MaxDistance);
    ClampAround(z1, MaxDistance, 0.0);
  }

  /** One 50 ms frame with only right held: the target is full speed, reached at once. */
  lemma RightStep(s: MoveState)
    requires s.keys == NoKeys.(right := true)
    ensures Move(s, 0.05).keys == s.keys
    ensures Move(s, 0.05).velocity.x == MaxSpeed
    ensures Move(s, 0.05).base.x == s.base.x + 0.25
  {
    MoveEffect(s, 0.05);
    var t := TargetVelocity(s.keys, s.base.z);
    assert t.x == MaxSpeed;
    assert Rate(t.x) * 0.05 == 1.0;
    AccelerateBetween(s.velocity.x, t.x, 0.05);
  }

  /** Where the plane is placed when it loads: `container.position.y = 0.4`. */
  const Spawn := Point(0.0, 0.4, 0.0)

  /** The resting scene right after load, with the right arrow held down. */
  const SpawnHoldingRight := MoveState(NoKeys.(right := true), Planar(0.0, 0.0), Spawn, Spawn)

  /** `Move` repeated for `n` frames of the same length. */
  function Moves(s: MoveState, delta: real, n: nat): MoveState
    decreases n
  {
    if n == 0 then s else Move(Moves(s, delta, n - 1), delta)
  }

  /** With only right held, every 50 ms frame adds a quarter unit to x. */
  lemma {:induction false} MovesRight(s: MoveState, n: nat)
    requires s.keys == NoKeys.(right := true)
    ensures Moves(s, 0.05, n).keys == s.keys
    ensures Moves(s, 0.05, n).base.x == s.base.x + 0.25 * (n as real)
    decreases n
  {
    if n > 0 {
      MovesRight(s, n - 1);
      RightStep(Moves(s, 0.05, n - 1));
    }
  }

  /** With only right held, the plane is at full speed from the first frame on. */
  lemma {:induction false} MovesRightSpeed(s: MoveState, n: nat)
    requires s.keys == NoKeys.(right := true) && n > 0
    ensures Moves(s, 0.05, n).velocity.x == MaxSpeed
  {
    MovesRight(s, n - 1);
    RightStep(Moves(s, 0.05, n - 1));
  }

  /**
   * Holding the right arrow from the spawn point: after 8 frames of 50 ms the
   * plane is at full speed on the 2-unit edge the clamp names, and every
   * later frame is past it (the 9th at 2.25), since nothing stops it.
   */
  lemma RightArrowLeavesBounds(s: MoveState, n: nat)
    requires s == SpawnHoldingRight
    ensures n == 8 ==>
      && Moves(s, 0.05, n).keys == NoKeys.(right := true)
      && Moves(s, 0.05, n).velocity.x == MaxSpeed
      && Moves(s, 0.05, n).base.x == Spawn.x + MaxDistance
    ensures n > 8 ==> Moves(s, 0.05, n).base.x > Spawn.x + MaxDistance
    ensures n == 9 ==> Moves(s, 0.05, n).base.x == 2.25
  {
    MovesRight(s, n);
    if n > 0 {
      MovesRightSpeed(s, n);
    }
  }

  /** In the state of the 8th frame (right held, full speed, on the edge) the bounded step holds the plane there. */
  lemma BoundedStopsAtEdge(s: MoveState)
    requires s.keys == NoKeys.(right := true) && s.velocity.x == MaxSpeed
    requires s.base.x == Spawn.x + MaxDistance
    ensures MoveBounded(s, Spawn, 0.05).base.x == Spawn.x + MaxDistance
  {
    RightStepBounded(s, Spawn);
  }

  /** One 50 ms bounded frame with only right held: a quarter unit, clamped around the anchor. */
  lemma RightStepBounded(s: MoveState, anchor: Point)
    requires s.keys == NoKeys.(right := true)
    ensures MoveBounded(s, anchor, 0.05).base.x ==
      Clamp(s.base.x + 0.25, anchor.x - MaxDistance, anchor.x + MaxDistance)
  {
    var v := Move(s, 0.05).velocity.x;
    assert v * 0.05 == 0.25 by {
      RightStep(s);
    }
    MoveBoundedStaysInBounds(s, anchor, 0.05);
  }

  /**
   * The movement block with the clamp bounds taken around a fixed anchor
   * (the spawn point the base starts at) rather than around the moved value.
   */
  function MoveBounded(s: MoveState, anchor: Point, delta: real): MoveState {
    var target := TargetVelocity(s.keys, s.base.z);
    var vx := Accelerate(s.velocity.x, target.x, delta);
    var vz := Accelerate(s.velocity.z, target.z, delta);
    var x1 := s.base.x + vx * delta;
    var z1 := s.base.z + vz * delta;
    var x2 := Clamp(x1, anchor.x - MaxDistance, anchor.x + MaxDistance);
    var z2 := if s.keys.backward then Min(z1, BackwardLimit) else Clamp(z1, anchor.z - MaxDistance, anchor.z);
    var base := Point(x2, s.base.y, z2);
    var wind := Point(s.container.x - s.base.x, s.container.y - s.base.y, s.container.z - s.base.z);
    MoveState(s.keys, Planar(vx, vz), base, Point(base.x + wind.x, base.y + wind.y, base.z + wind.z))
  }

  /** `MoveBounded` repeated for `n` frames. */
  function MovesBounded(s: MoveState, anchor: Point, delta: real, n: nat): MoveState
    decreases n
  {
    if n == 0 then s else MovesBounded(MoveBounded(s, anchor, delta), anchor, delta, n - 1)
  }

  /** Within 2 units of the anchor on x; on z at most 2 ahead of it, and never behind the backward limit while backward is held. */
  predicate InBounds(p: Point, anchor: Point, backward: bool) {
    && anchor.x - MaxDistance <= p.x <= anchor.x + MaxDistance
    && (backward ==> p.z <= BackwardLimit)
    && (!backward ==> anchor.z - MaxDistance <= p.z <= anchor.z)
  }

  /** Each bounded step ends inside the bounds, whatever the state, the keys and the frame length. */
  lemma MoveBoundedStaysInBounds(s: MoveState, anchor: Point, delta: real)
    ensures InBounds(MoveBounded(s, anchor, delta).base, anchor, s.keys.backward)
    ensures MoveBounded(s, anchor, delta).velocity == Move(s, delta).velocity
    ensures MoveBounded(s, anchor, delta).base.x ==
      Clamp(s.base.x + Move(s, delta).velocity.x * delta, anchor.x - MaxDistance, anchor.x + MaxDistance)
  {
  }

  /** Every frame of a bounded run, from any state, ends inside the bounds. */
  lemma {:induction false} MovesBoundedStayInBounds(s: MoveState, anchor: Point, delta: real, n: nat)
    requires n > 0
    ensures InBounds(MovesBounded(s, anchor, delta, n).base, anchor, s.keys.backward)
    decreases n
  {
    MoveBoundedStaysInBounds(s, anchor, delta);
    if n > 1 {
      MovesBoundedStayInBounds(MoveBounded(s, anchor, delta), anchor, delta, n - 1);
    }
  }

  // ---------------------------------------------------------------------------
  // The scene objects
  // ---------------------------------------------------------------------------

  /** A `THREE.Vector3`. */
  class Vector3 {
    var x: real
    var y: real
    var z: real

    constructor (p: Point)
      ensures Value() == p
    {
      x, y, z := p.x, p.y, p.z;
    }

    function Value(): Point
      reads this
    {
      Point(x, y, z)
    }
  }

  /** The fields of a `THREE.AnimationAction` the scene touches. */
  class AnimationAction {
    var timeScale: real
    var time: real
    var paused: bool
    var enabled: bool
    var playing: bool
    var loopOnce: bool
    var clampWhenFinished: bool

    /** `mixer.clipAction(clip)`: a fresh action at rest. */
    constructor ()
      ensures timeScale == 1.0 && time == 0.0 && !paused && enabled && !playing
      ensures !loopOnce && !clampWhenFinished
    {
      timeScale, time, paused, enabled, playing := 1.0, 0.0, false, true, false;
      loopOnce, clampWhenFinished := false, false;
    }

    /** `reset()`: back to the first frame, unpaused and enabled. */
    method Reset()
      modifies this
      ensures time == 0.0 && !paused && enabled
      ensures timeScale == old(timeScale) && playing == old(playing)
      ensures loopOnce == old(loopOnce) && clampWhenFinished == old(clampWhenFinished)
    {
      time, paused, enabled := 0.0, false, true;
    }

    /** `play()`: hands the action to its mixer, which then advances it from frame to frame. */
    method Play()
      modifies this
      ensures playing
      ensures timeScale == old(timeScale) && time == old(time) && paused == old(paused)
      ensures enabled == old(enabled) && loopOnce == old(loopOnce) && clampWhenFinished == old(clampWhenFinished)
    {
      playing := true;
    }
  }

  /** The state of `PaperAirplaneScene` that its handlers and its movement block touch. */
  class Scene {
    /** `keysRef.current`. */
    const keys: KeyFlags
    /** `velocityRef.current`. */
    var velocity: Planar
    /** `modelRef.current.container.position`, once the plane has loaded. */
    var container: Vector3?
    /** `initialPositionRef.current`, once the plane has loaded. */
    var base: Vector3?
    /** Whether `mixerRef.current` is set, and its `existingAction`. */
    var hasMixer: bool
    var action: AnimationAction?
    /** The `isFolded` state. */
    var isFolded: bool

    /** The base is a copy of the container's position, never the same vector; an action lives in a mixer. */
    ghost predicate Valid()
      reads this
    {
      && (container == null <==> base == null)
      && (container != null ==> container != base)
      && (action != null ==> hasMixer)
    }

    constructor ()
      ensures Valid()
      ensures fresh(keys) && keys.Value() == NoKeys
      ensures velocity == Planar(0.0, 0.0)
      ensures container == null && base == null
      ensures !hasMixer && action == null && !isFolded
    {
      keys := new KeyFlags();
      velocity := Planar(0.0, 0.0);
      container, base := null, null;
      hasMixer, action, isFolded := false, null, false;
    }

    /** What the movement block sees, once the plane has loaded. */
    function MoveStateOf(): MoveState
      requires container != null && base != null
      reads this, keys, container, base
    {
      MoveState(keys.Value(), velocity, base.Value(), container.Value())
    }

    /**
     * The glTF callback: the container is placed at the spawn point, the
     * base is a clone of its position, and a clip, when the model has one,
     * gets an action parked on its first frame.
     */
    method LoadPlane(hasAnimations: bool)
      requires Valid()
      modifies this
      ensures Valid()
      ensures container != null && base != null && fresh(container) && fresh(base)
      ensures container.Value() == Spawn && base.Value() == Spawn
      ensures hasAnimations ==> hasMixer && action != null && fresh(action)
      ensures hasAnimations ==> action.time == 0.0 && action.paused && action.playing
      ensures hasAnimations ==> action.loopOnce && action.clampWhenFinished
      ensures !hasAnimations ==> hasMixer == old(hasMixer) && action == old(action)
      ensures velocity == old(velocity) && isFolded == old(isFolded)
    {
      container := new Vector3(Spawn);
      base := new Vector3(container.Value());
      if hasAnimations {
        var a := new AnimationAction();
        a.Reset();
        a.loopOnce, a.clampWhenFinished := true, true;
        a.time, a.paused := 0.0, true;
        a.Play();
        hasMixer, action := true, a;
      }
    }

    /** The movement block of `animate`, for a frame of `delta` seconds. */
    method Step(delta: real)
      requires Valid()
      modifies this, container, base
      ensures Valid()
      ensures container == old(container) && base == old(base)
      ensures hasMixer == old(hasMixer) && action == old(action) && isFolded == old(isFolded)
      ensures old(container) == null ==> velocity == old(velocity)
      ensures old(container) != null ==> MoveStateOf() == Move(old(MoveStateOf()), delta)
    {
      if container == null {
        return;
      }
      ghost var r := Move(MoveStateOf(), delta);
      var currentPos := container;
      var initialPos := base;
      var windOffset := Point(currentPos.x - initialPos.x, currentPos.y - initialPos.y, currentPos.z - initialPos.z);
      MoveBase(delta);
      container.x := base.x + windOffset.x;
      container.y := base.y + windOffset.y;
      container.z := base.z + windOffset.z;
      assert container.Value() == r.container;
    }

    /**
     * The velocity update and the move of the base, up to and including the
     * clamps, whose bounds are read through `initialPos`, the base itself.
     */
    method MoveBase(delta: real)
      requires Valid() && container != null
      modifies this`velocity, base
      ensures velocity == Move(old(MoveStateOf()), delta).velocity
      ensures base.Value() == Move(old(MoveStateOf()), delta).base
    {
      var initialPos := base;
      var k := keys.Value();
      var target := TargetVelocity(k, base.z);
      velocity := Planar(
        Lerp(velocity.x, target.x, Rate(target.x) * delta),
        Lerp(velocity.z, target.z, Rate(target.z) * delta));
      base.x := base.x + velocity.x * delta;
      base.z := base.z + velocity.z * delta;
      base.x := Clamp(base.x, initialPos.x - MaxDistance, initialPos.x + MaxDistance);
      if k.backward {
        base.z := Min(base.z, BackwardLimit);
      } else {
        base.z := Clamp(base.z, initialPos.z - MaxDistance, initialPos.z);
      }
    }

    /**
     * `handleFoldToggle`. Without a mixer nothing happens. With one, the
     * flag flips, and an action present is set playing: backwards from
     * frame 40 when folded, forwards from the start when not.
     */
    method HandleFoldToggle()
      requires Valid()
      modifies this, action
      ensures Valid()
      ensures velocity == old(velocity) && container == old(container) && base == old(base)
      ensures hasMixer == old(hasMixer) && action == old(action)
      ensures !hasMixer ==> isFolded == old(isFolded)
      ensures hasMixer ==> isFolded == !old(isFolded)
      ensures action != null && old(isFolded) ==>
        action.timeScale == -1.0 && action.time == UnfoldStartTime && !action.paused && action.playing
      ensures action != null && !old(isFolded) ==>
        action.timeScale == 1.0 && action.time == 0.0 && !action.paused && action.enabled && action.playing
      ensures action != null ==>
        action.loopOnce == old(action.loopOnce) && action.clampWhenFinished == old(action.clampWhenFinished)
    {
      if hasMixer {
        var a := action;
        if a != null {
          if isFolded {
            a.timeScale := -1.0;
            a.paused := false;
            a.time := UnfoldStartTime;
            a.Play();
          } else {
            a.timeScale := 1.0;
            a.Reset();
            a.paused := false;
            a.Play();
          }
        }
        isFolded := !isFolded;
      }
    }
  }
}
