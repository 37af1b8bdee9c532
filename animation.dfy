/** Sprite animation: frame selection from constant or per-frame durations, and the
    controller whose play requests are gated by a priority (0 idle, 1 move, 2 attack,
    3 hurt) and whose facing picks the sprite row. Times are exact reals. */
module Animation {
  import opened Wrappers

  datatype FrameTime = Constant(t: real) | Sequence(ts: seq<real>)

  datatype CharacterAnimation = CharacterAnimation(frameTime: FrameTime, frameIdx: seq<nat>, looped: bool, duration: real)
  {
    function Looped(): CharacterAnimation { this.(looped := true) }
  }

  /** Sum of the first k durations: the time at which frame k starts. */
  function Prefix(ts: seq<real>, k: nat): real
    requires k <= |ts|
  {
    if k == 0 then 0.0 else Prefix(ts, k - 1) + ts[k - 1]
  }

  /** The length of an animation of `n` frames. */
  function Duration(ft: FrameTime, n: nat): real
  {
    match ft
    case Constant(t) => t * (n as real)
    case Sequence(ts) => Prefix(ts, |ts|)
  }

  /** `CharacterAnimation::simple`; None is the panic on an empty frame list. */
  function Simple(ft: FrameTime, frameIdx: seq<nat>): (r: Option<CharacterAnimation>)
    ensures r.None? <==> frameIdx == []
    ensures r.Some? ==> r.value.frameTime == ft && r.value.frameIdx == frameIdx && !r.value.looped
    ensures r.Some? && ft.Constant? ==> r.value.duration == ft.t * (|frameIdx| as real)
    ensures r.Some? && ft.Sequence? ==> r.value.duration == Prefix(ft.ts, |ft.ts|)
  {
    if frameIdx == [] then None
    else Some(CharacterAnimation(ft, frameIdx, false, Duration(ft, |frameIdx|)))
  }

  const IDLE: CharacterAnimation := Simple(Constant(0.5), [1]).value.Looped()
  const WALK: CharacterAnimation := Simple(Constant(0.25), [0, 1, 2, 1]).value.Looped()
  const HURT: CharacterAnimation := Simple(Constant(0.2), [3]).value
  const THROW: CharacterAnimation := Simple(Sequence([0.2, 0.15, 0.2]), [4, 5, 6]).value

  /** The animations a controller is ever given. */
  predicate Known(a: CharacterAnimation)
  {
    a == IDLE || a == WALK || a == HURT || a == THROW
  }

  // ---------------------------------------------------------------------------
  // Frame selection (`AnimTicker::get`)
  // ---------------------------------------------------------------------------

  /** `vec.get(i)`. */
  function At(frames: seq<nat>, i: int): (r: Option<nat>)
    ensures r.Some? <==> 0 <= i < |frames|
  {
    if 0 <= i < |frames| then Some(frames[i]) else None
  }

  /** `vec.last()`. */
  function Last(frames: seq<nat>): (r: Option<nat>)
    ensures r.Some? <==> frames != []
  {
    if frames == [] then None else Some(frames[|frames| - 1])
  }

  /** Constant frame time: element floor(frame / t), where the float-to-usize cast saturates
      (negative and NaN give 0, +infinity gives the maximum) and an index past the end
      gives the last element. t = 0 divides to +infinity, NaN or -infinity. */
  function ConstantFrame(frame: real, t: real, frames: seq<nat>): Option<nat>
    requires frames != []
  {
    if t == 0.0 then
      if frame > 0.0 then Last(frames) else At(frames, 0)
    else
      var q := (frame / t).Floor;
      if q < 0 then At(frames, 0)
      else if q >= |frames| then Last(frames)
      else At(frames, q)
  }

  /** The first i in [start, |ts|) whose frame start Prefix(ts, i) has reached `frame`,
      or |ts| when there is none. */
  function FirstReached(frame: real, ts: seq<real>, start: nat): (f: nat)
    requires start <= |ts|
    ensures start <= f <= |ts|
    ensures f < |ts| ==> Prefix(ts, f) >= frame
    ensures forall j :: start <= j < f ==> Prefix(ts, j) < frame
    decreases |ts| - start
  {
    if start == |ts| then |ts|
    else if Prefix(ts, start) >= frame then start
    else FirstReached(frame, ts, start + 1)
  }

  /** Sequence frame times: at the first reached frame start i the element before it
      (element 0 for i = 0, the last element when i is past the frame list); when no
      start is reached, element |ts| - 1 (element 0 when there are no durations). */
  function SequenceFrame(frame: real, ts: seq<real>, frames: seq<nat>): Option<nat>
    requires frames != []
  {
    var f := FirstReached(frame, ts, 0);
    if f < |ts| then
      if f >= |frames| then Last(frames) else At(frames, if f == 0 then 0 else f - 1)
    else
      At(frames, if |ts| == 0 then 0 else |ts| - 1)
  }

  /** The frame shown at time `frame`; None for an empty frame list. */
  function FrameOf(frame: real, ft: FrameTime, frames: seq<nat>): Option<nat>
  {
    if frames == [] then None
    else
      match ft
      case Constant(t) => ConstantFrame(frame, t, frames)
      case Sequence(ts) => SequenceFrame(frame, ts, frames)
  }

  /** `AnimTicker::get`, with the accumulating loop of the Sequence case. */
  method TickerGet(frame: real, ft: FrameTime, frames: seq<nat>) returns (r: Option<nat>)
    ensures r == FrameOf(frame, ft, frames)
  {
    if |frames| == 0 {
      return None;
    }
    match ft {
      case Constant(t) =>
        r := ConstantFrame(frame, t, frames);
      case Sequence(ts) =>
        var ac := 0.0;
        var lasti := 0;
        var i := 0;
        while i < |ts|
          invariant 0 <= i <= |ts|
          invariant ac == Prefix(ts, i)
          invariant forall j :: 0 <= j < i ==> Prefix(ts, j) < frame
          invariant lasti == if i == 0 then 0 else i - 1
        {
          if ac >= frame {
            FirstReachedIs(frame, ts, i);
            if i >= |frames| {
              return Last(frames);
            }
            return At(frames, if i == 0 then 0 else i - 1);
          }
          ac := ac + ts[i];
          lasti := i;
          i := i + 1;
        }
        FirstReachedIs(frame, ts, |ts|);
        r := At(frames, lasti);
    }
  }

  /** FirstReached is determined by its two defining properties. */
  lemma FirstReachedIs(frame: real, ts: seq<real>, f: nat)
    requires f <= |ts|
    requires forall j :: 0 <= j < f ==> Prefix(ts, j) < frame
    requires f < |ts| ==> Prefix(ts, f) >= frame
    ensures FirstReached(frame, ts, 0) == f
  {
    var g := FirstReached(frame, ts, 0);
    assert g < |ts| ==> Prefix(ts, g) >= frame;
    assert forall j :: 0 <= j < g ==> Prefix(ts, j) < frame;
  }

  predicate NonNegative(ts: seq<real>)
  {
    forall i :: 0 <= i < |ts| ==> ts[i] >= 0.0
  }

  lemma {:induction false} PrefixMonotone(ts: seq<real>, j: nat, k: nat)
    requires NonNegative(ts) && j <= k <= |ts|
    ensures Prefix(ts, j) <= Prefix(ts, k)
    decreases k - j
  {
    if j < k {
      PrefixMonotone(ts, j, k - 1);
      assert ts[k - 1] >= 0.0;
    }
  }

  /** A constant frame time of t > 0 shows element floor(frame / t), clamped to the last. */
  lemma ConstantFrameIsFloor(frame: real, t: real, frames: seq<nat>)
    requires t > 0.0 && frame >= 0.0 && frames != []
    ensures var q := (frame / t).Floor;
      FrameOf(frame, Constant(t), frames) == Some(frames[if q < |frames| then q else |frames| - 1])
  {
    assert frame / t >= 0.0;
  }

  /** With non-negative durations, a time in (Prefix k, Prefix k+1] shows element k
      (the last element when k is past the frame list). */
  lemma SequenceFrameInInterval(frame: real, ts: seq<real>, frames: seq<nat>, k: nat)
    requires NonNegative(ts) && frames != []
    requires k + 1 < |ts| && Prefix(ts, k) < frame <= Prefix(ts, k + 1)
    ensures FrameOf(frame, Sequence(ts), frames) == Some(frames[if k < |frames| then k else |frames| - 1])
  {
    forall j | 0 <= j < k + 1
      ensures Prefix(ts, j) < frame
    {
      PrefixMonotone(ts, j, k);
    }
    FirstReachedIs(frame, ts, k + 1);
  }

  /** A time at or before 0 shows the first element. */
  lemma SequenceFrameNonPositive(frame: real, ts: seq<real>, frames: seq<nat>)
    requires frame <= 0.0 && frames != []
    ensures FrameOf(frame, Sequence(ts), frames) == Some(frames[0])
  {
    if |ts| > 0 {
      FirstReachedIs(frame, ts, 0);
    }
  }

  /** With non-negative durations, a time past the start of the last duration shows
      element |ts| - 1; there is no such element when there are more durations than
      frames, and then nothing is shown. */
  lemma SequenceFrameBeyond(frame: real, ts: seq<real>, frames: seq<nat>)
    requires NonNegative(ts) && frames != [] && |ts| >= 1
    requires frame > Prefix(ts, |ts| - 1)
    ensures FrameOf(frame, Sequence(ts), frames) == At(frames, |ts| - 1)
  {
    forall j | 0 <= j < |ts|
      ensures Prefix(ts, j) < frame
    {
      PrefixMonotone(ts, j, |ts| - 1);
    }
    FirstReachedIs(frame, ts, |ts|);
  }

  /** Nothing is shown exactly when the frame list is empty, provided a sequence has no
      more durations than frames. */
  lemma FrameNoneIffEmpty(frame: real, ft: FrameTime, frames: seq<nat>)
    requires ft.Sequence? ==> |ft.ts| <= |frames|
    ensures FrameOf(frame, ft, frames).None? <==> frames == []
  {
    if frames != [] && ft.Sequence? {
      var f := FirstReached(frame, ft.ts, 0);
      assert f < |ft.ts| ==> f < |frames| || f >= |frames|;
    }
  }

  /** Every animation the controller uses always has a frame to show. */
  lemma KnownHasFrame(frame: real, a: CharacterAnimation)
    requires Known(a)
    ensures FrameOf(frame, a.frameTime, a.frameIdx).Some?
  {
    if a == THROW {
      FrameNoneIffEmpty(frame, a.frameTime, a.frameIdx);
    }
  }

  /** The float remainder `x % d` for x, d > 0: x minus d times the truncated quotient. */
  function FMod(x: real, d: real): (r: real)
    requires x >= 0.0 && d > 0.0
    ensures 0.0 <= r < d
  {
    var n := (x / d).Floor as real;
    ModBounds(x, d, n);
    x - n * d
  }

  lemma ModBounds(x: real, d: real, n: real)
    requires x >= 0.0 && d > 0.0
    requires n <= x / d < n + 1.0
    ensures 0.0 <= x - n * d < d
  {
    var q := x / d;
    var nd, qd := n * d, q * d;
    assert qd == x;
    assert nd <= qd by { MulLe(n, q, d); }
    assert qd < nd + d by { MulLt(q, n + 1.0, d); }
  }

  lemma MulLe(a: real, b: real, d: real)
    requires a <= b && d > 0.0
    ensures a * d <= b * d
  {
  }

  lemma MulLt(a: real, b: real, d: real)
    requires a < b && d > 0.0
    ensures a * d < b * d
  {
  }

  // ---------------------------------------------------------------------------
  // The controller
  // ---------------------------------------------------------------------------

  class AnimationController {
    var animationSpeed: real
    /** The ticker's elapsed time in the current animation. */
    var frame: real
    var current: CharacterAnimation
    var dirOffset: nat
    /** 0 idle, 1 move, 2 attack, 3 hurt. */
    var priority: nat
    /** 0 down, 1 left, 2 up, 3 right. */
    var direction: nat

    ghost predicate Valid()
      reads this
    {
      Known(current) && direction <= 3 && priority <= 3
      && (current == IDLE ==> priority == 0)
      && (current == WALK ==> priority == 1)
      && (current == THROW ==> priority == 2)
      && (current == HURT ==> priority == 3)
      && animationSpeed == 1.0
    }

    /** `AnimationController::default`. */
    constructor ()
      ensures Valid()
      ensures animationSpeed == 1.0 && frame == 0.0 && current == IDLE
      ensures dirOffset == 7 && priority == 0 && direction == 2
    {
      animationSpeed := 1.0;
      frame := 0.0;
      current := IDLE;
      dirOffset := 7;
      priority := 0;
      direction := 2;
    }

    method PlayIdleForced()
      modifies this
      ensures current == IDLE && priority == 0 && frame == 0.0
      ensures direction == old(direction) && dirOffset == old(dirOffset) && animationSpeed == old(animationSpeed)
    {
      current := IDLE;
      priority := 0;
      frame := 0.0;
    }

    /** Idle never interrupts anything of higher priority. */
    method PlayIdle()
      requires Valid()
      modifies this
      ensures Valid()
      ensures old(priority) > 0 ==> current == old(current) && priority == old(priority) && frame == old(frame)
      ensures old(priority) == 0 ==> current == IDLE && priority == 0 && frame == 0.0
      ensures direction == old(direction) && dirOffset == old(dirOffset)
    {
      if priority > 0 {
        return;
      }
      PlayIdleForced();
    }

    /** Idle unless something above `p` is playing; the priority set is 0, not `p`. */
    method PlayIdlePriority(p: nat)
      requires Valid()
      modifies this
      ensures Valid()
      ensures old(priority) > p ==> current == old(current) && priority == old(priority) && frame == old(frame)
      ensures old(priority) <= p ==> current == IDLE && priority == 0 && frame == 0.0
      ensures direction == old(direction) && dirOffset == old(dirOffset)
    {
      if priority > p {
        return;
      }
      current := IDLE;
      priority := 0;
      frame := 0.0;
    }

    /** Hurt always plays. */
    method PlayHurt()
      requires Valid()
      modifies this
      ensures Valid()
      ensures current == HURT && priority == 3 && frame == 0.0
      ensures direction == old(direction) && dirOffset == old(dirOffset)
    {
      current := HURT;
      priority := 3;
      frame := 0.0;
    }

    /** Walk does not restart itself nor interrupt attack or hurt. */
    method PlayWalk()
      requires Valid()
      modifies this
      ensures Valid()
      ensures old(priority) >= 1 ==> current == old(current) && priority == old(priority) && frame == old(frame)
      ensures old(priority) == 0 ==> current == WALK && priority == 1 && frame == 0.0
      ensures direction == old(direction) && dirOffset == old(dirOffset)
    {
      if priority >= 1 {
        return;
      }
      current := WALK;
      priority := 1;
      frame := 0.0;
    }

    /** The hunter's throw; only hurt outranks it. */
    method PlayHunterThrow()
      requires Valid()
      modifies this
      ensures Valid()
      ensures old(priority) > 2 ==> current == old(current) && priority == old(priority) && frame == old(frame)
      ensures old(priority) <= 2 ==> current == THROW && priority == 2 && frame == 0.0
      ensures direction == old(direction) && dirOffset == old(dirOffset)
    {
      if priority > 2 {
        return;
      }
      current := THROW;
      priority := 2;
      frame := 0.0;
    }

    method TurnLeft()
      requires Valid()
      modifies this
      ensures Valid()
      ensures direction == 1
      ensures current == old(current) && priority == old(priority) && frame == old(frame) && dirOffset == old(dirOffset)
    {
      direction := 1;
    }

    method TurnRight()
      requires Valid()
      modifies this
      ensures Valid()
      ensures direction == 3
      ensures current == old(current) && priority == old(priority) && frame == old(frame) && dirOffset == old(dirOffset)
    {
      direction := 3;
    }

    method TurnUp()
      requires Valid()
      modifies this
      ensures Valid()
      ensures direction == 2
      ensures current == old(current) && priority == old(priority) && frame == old(frame) && dirOffset == old(dirOffset)
    {
      direction := 2;
    }

    method TurnDown()
      requires Valid()
      modifies this
      ensures Valid()
      ensures direction == 0
      ensures current == old(current) && priority == old(priority) && frame == old(frame) && dirOffset == old(dirOffset)
    {
      direction := 0;
    }

    /** The sprite index and horizontal flip: facing right reuses the left row mirrored.
        None is the panic on an animation with nothing to show, which a valid controller
        never reaches. */
    method GetIdxAndMirror() returns (r: Option<(nat, bool)>)
      ensures FrameOf(frame, current.frameTime, current.frameIdx).None? <==> r.None?
      ensures r.Some? ==> r.value.1 == (direction == 3)
      ensures r.Some? ==> r.value.0 == FrameOf(frame, current.frameTime, current.frameIdx).value
                                       + (if direction == 3 then 1 else direction) * dirOffset
      ensures Valid() ==> r.Some?
    {
      var idx := TickerGet(frame, current.frameTime, current.frameIdx);
      if Valid() {
        KnownHasFrame(frame, current);
      }
      if idx.None? {
        return None;
      }
      var d := direction;
      var mirror := false;
      if direction == 3 {
        d := 1;
        mirror := true;
      }
      r := Some((idx.value + d * dirOffset, mirror));
    }

    /** Advance the ticker; an overrun wraps a looped animation and ends any other one
        with a forced idle. Every known animation lasts a positive time, so an overrun
        time is positive. */
    method Tick(dt: real)
      requires Valid()
      modifies this
      ensures Valid()
      ensures var f := old(frame) + dt * old(animationSpeed);
        if f > old(current).duration then
          if old(current).looped then
            current == old(current) && priority == old(priority) && frame == FMod(f, current.duration)
            && frame < current.duration
          else
            current == IDLE && priority == 0 && frame == 0.0
        else
          current == old(current) && priority == old(priority) && frame == f
      ensures direction == old(direction) && dirOffset == old(dirOffset) && animationSpeed == old(animationSpeed)
    {
      frame := frame + dt * animationSpeed;
      if frame > current.duration {
        assert current.duration > 0.0;
        if current.looped {
          frame := FMod(frame, current.duration);
        } else {
          PlayIdleForced();
        }
      }
    }
  }
}
