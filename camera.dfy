/** The following camera: it eases towards the follow target with the highest order (the
    later one on a tie), and eases or snaps its zoom to the scale its controller was set to.
    The exponential is an oracle. */
module Camera {
  import opened Wrappers
  import opened Vectors

  /** A `CameraFollow` target: where it is, how fast to follow it, and its order. */
  datatype Target = Target(translation: Vec3, speed: real, order: nat)

  /** i is a greatest order and no later target has that order. */
  predicate IsLastMax(targets: seq<Target>, i: nat)
  {
    i < |targets|
    && (forall j :: 0 <= j < |targets| ==> targets[j].order <= targets[i].order)
    && (forall j :: i < j < |targets| ==> targets[j].order < targets[i].order)
  }

  lemma LastMaxUnique(targets: seq<Target>, i: nat, j: nat)
    requires IsLastMax(targets, i) && IsLastMax(targets, j)
    ensures i == j
  {
    assert targets[j].order <= targets[i].order && targets[i].order <= targets[j].order;
  }

  /** The target followed among the first n: the choice of the scan whose test is
      `highest <= order`, starting from highest = 0. */
  function Followed(targets: seq<Target>, n: nat): (r: Option<nat>)
    requires n <= |targets|
    ensures r.None? <==> n == 0
    ensures r.Some? ==> IsLastMax(targets[..n], r.value)
  {
    if n == 0 then None
    else
      var prev := Followed(targets, n - 1);
      if prev.None? || targets[prev.value].order <= targets[n - 1].order then
        Some(n - 1)
      else
        assert targets[..n][..n - 1] == targets[..n - 1];
        prev
  }

  /** The first loop of `update_camera`. */
  method SelectTarget(targets: seq<Target>) returns (followPosition: Vec3, followSpeed: real)
    ensures Followed(targets, |targets|).None? ==> followPosition == Zero3 && followSpeed == 0.0
    ensures Followed(targets, |targets|).Some? ==>
      var i := Followed(targets, |targets|).value;
      followPosition == targets[i].translation && followSpeed == targets[i].speed
  {
    followPosition := Zero3;
    var highest := 0;
    followSpeed := 0.0;
    var k := 0;
    while k < |targets|
      invariant 0 <= k <= |targets|
      invariant Followed(targets, k).None? ==> followPosition == Zero3 && followSpeed == 0.0 && highest == 0
      invariant Followed(targets, k).Some? ==>
        var i := Followed(targets, k).value;
        i < k && followPosition == targets[i].translation && followSpeed == targets[i].speed
        && highest == targets[i].order
    {
      var follow := targets[k];
      if highest <= follow.order {
        followPosition := follow.translation;
        highest := follow.order;
        followSpeed := follow.speed;
      }
      k := k + 1;
    }
    assert targets[..|targets|] == targets;
  }

  /** With no target the camera heads for the origin at speed 0; with targets it follows the
      last one of greatest order, so a sole target is followed whatever its order. */
  lemma FollowedIsLastMax(targets: seq<Target>)
    ensures Followed(targets, |targets|).None? <==> targets == []
    ensures targets != [] ==> IsLastMax(targets, Followed(targets, |targets|).value)
  {
    assert targets[..|targets|] == targets;
  }

  // ---------------------------------------------------------------------------
  // Easing
  // ---------------------------------------------------------------------------

  /** What the easing needs of the exponential on non-positive arguments. */
  ghost predicate ExpSound(exp: real -> real)
  {
    exp(0.0) == 1.0 && forall x :: x <= 0.0 ==> 0.0 < exp(x) <= 1.0
  }

  /** `exp_decay`: from `a` towards `b` by a factor exp(-decay * dt); with a sound
      exponential and non-negative speed and time step it stays between the two. */
  function ExpDecay(exp: real -> real, a: real, b: real, decay: real, dt: real): (r: real)
    ensures ExpSound(exp) && decay >= 0.0 && dt >= 0.0 ==>
      (a <= b ==> a <= r <= b) && (b <= a ==> b <= r <= a)
    ensures ExpSound(exp) && decay == 0.0 ==> r == a
  {
    var r := b + (a - b) * exp(-decay * dt);
    DecayFacts(exp, a, b, decay, dt, r);
    r
  }

  lemma DecayFacts(exp: real -> real, a: real, b: real, decay: real, dt: real, r: real)
    requires r == b + (a - b) * exp(-decay * dt)
    ensures ExpSound(exp) && decay >= 0.0 && dt >= 0.0 ==>
      (a <= b ==> a <= r <= b) && (b <= a ==> b <= r <= a)
    ensures ExpSound(exp) && decay == 0.0 ==> r == a
  {
    var x := -decay * dt;
    var f := exp(x);
    if ExpSound(exp) {
      if decay >= 0.0 && dt >= 0.0 {
        NonNegProduct(decay, dt);
        assert 0.0 < f <= 1.0;
        BetweenScaled(a, b, f);
      }
      if decay == 0.0 {
        assert x == 0.0;
        ScaleOne(a - b, f);
      }
    }
  }

  lemma NonNegProduct(x: real, y: real)
    requires x >= 0.0 && y >= 0.0
    ensures -x * y <= 0.0
  {
    var p := x * y;
    assert p >= 0.0;
  }

  lemma NonNegMul(x: real, y: real)
    requires x >= 0.0 && y >= 0.0
    ensures x * y >= 0.0
  {
  }

  lemma ScaleOne(d: real, f: real)
    requires f == 1.0
    ensures d * f == d
  {
  }

  lemma BetweenScaled(a: real, b: real, f: real)
    requires 0.0 < f <= 1.0
    ensures a <= b ==> a <= b + (a - b) * f <= b
    ensures b <= a ==> b <= b + (a - b) * f <= a
  {
    var d := a - b;
    var df, dg := d * f, d * (1.0 - f);
    assert dg == d - df;
    if d <= 0.0 {
      NonNegMul(-d, f);
      NonNegMul(-d, 1.0 - f);
    } else {
      NonNegMul(d, f);
      NonNegMul(d, 1.0 - f);
    }
  }

  function ExpDecay3(exp: real -> real, a: Vec3, b: Vec3, decay: real, dt: real): Vec3
  {
    Vec3(ExpDecay(exp, a.x, b.x, decay, dt), ExpDecay(exp, a.y, b.y, decay, dt), ExpDecay(exp, a.z, b.z, decay, dt))
  }

  // ---------------------------------------------------------------------------
  // Cameras
  // ---------------------------------------------------------------------------

  class CameraController {
    var scale: real
    var scaleTranslationSpeed: Option<real>

    constructor (scale0: real)
      ensures scale == scale0 && scaleTranslationSpeed == None
    {
      scale := scale0;
      scaleTranslationSpeed := None;
    }

    /** `set_scale` overwrites both the target scale and the easing speed. */
    method SetScale(newScale: real, translationSpeed: Option<real>)
      modifies this
      ensures scale == newScale && scaleTranslationSpeed == translationSpeed
    {
      scale := newScale;
      scaleTranslationSpeed := translationSpeed;
    }
  }

  /** A camera's translation and (uniform) scale. */
  datatype CameraTransform = CameraTransform(translation: Vec3, scale: real)

  /** The scale after one update: eased towards `target` at the controller's speed, or set
      to it outright when there is no speed. */
  function NextScale(exp: real -> real, current: real, target: real, speed: Option<real>, dt: real): (r: real)
    ensures speed.None? ==> r == target
    ensures speed.Some? && speed.value >= 0.0 && ExpSound(exp) && dt >= 0.0 ==>
      (current <= target ==> current <= r <= target) && (target <= current ==> target <= r <= current)
  {
    match speed
    case None => target
    case Some(s) => ExpDecay(exp, current, target, s, dt)
  }

  /** The second loop of `update_camera`: every camera eases towards the followed
      position and updates its scale from its controller. */
  method UpdateCameras(exp: real -> real, targets: seq<Target>, cameras: array<CameraTransform>,
                       controllers: seq<CameraController>, dt: real)
    requires cameras.Length == |controllers|
    modifies cameras
    ensures var f := Followed(targets, |targets|);
      var pos := if f.Some? then targets[f.value].translation else Zero3;
      var speed := if f.Some? then targets[f.value].speed else 0.0;
      forall i :: 0 <= i < cameras.Length ==>
        cameras[i] == CameraTransform(
          ExpDecay3(exp, old(cameras[i]).translation, pos, speed, dt),
          NextScale(exp, old(cameras[i]).scale, controllers[i].scale, controllers[i].scaleTranslationSpeed, dt))
  {
    var followPosition, followSpeed := SelectTarget(targets);
    var i := 0;
    while i < cameras.Length
      invariant 0 <= i <= cameras.Length
      invariant forall j :: i <= j < cameras.Length ==> cameras[j] == old(cameras[j])
      invariant forall j :: 0 <= j < i ==>
        cameras[j] == CameraTransform(
          ExpDecay3(exp, old(cameras[j]).translation, followPosition, followSpeed, dt),
          NextScale(exp, old(cameras[j]).scale, controllers[j].scale, controllers[j].scaleTranslationSpeed, dt))
    {
      var cam := cameras[i];
      var controller := controllers[i];
      var translation := ExpDecay3(exp, cam.translation, followPosition, followSpeed, dt);
      var scale := NextScale(exp, cam.scale, controller.scale, controller.scaleTranslationSpeed, dt);
      cameras[i] := CameraTransform(translation, scale);
      i := i + 1;
    }
  }
}
