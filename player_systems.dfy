/** The player controller: the keyboard direction, the facing and locomotion requests it
    makes to the player's animation controller, and the collision-group bit constants. */
module PlayerSystems {
  import opened Vectors
  import opened Animation
  import opened Wrappers

  // ---------------------------------------------------------------------------
  // Collision groups
  // ---------------------------------------------------------------------------

  const PLAYER_CG: bv32 := 0x1
  const NPC_CG: bv32 := 0x2
  const STRUCTURES_CG: bv32 := 0x4
  const BULLET_CG: bv32 := 0x8

  /** What the player collides with. */
  const PLAYER_FILTER: bv32 := BULLET_CG | STRUCTURES_CG
  /** What civilians and hunters are given as their filter. */
  const NPC_FILTER: bv32 := PLAYER_CG & STRUCTURES_CG

  predicate SingleBit(b: bv32) { b != 0 && b & (b - 1) == 0 }

  /** The four groups are distinct single bits; the player filter is 0b1100 and leaves out
      the player's own group, and the NPC filter, built with `&`, is empty. */
  lemma CollisionGroups()
    ensures SingleBit(PLAYER_CG) && SingleBit(NPC_CG) && SingleBit(STRUCTURES_CG) && SingleBit(BULLET_CG)
    ensures PLAYER_CG & NPC_CG == 0 && PLAYER_CG & STRUCTURES_CG == 0 && PLAYER_CG & BULLET_CG == 0
    ensures NPC_CG & STRUCTURES_CG == 0 && NPC_CG & BULLET_CG == 0 && STRUCTURES_CG & BULLET_CG == 0
    ensures PLAYER_FILTER == 0xC && PLAYER_FILTER & PLAYER_CG == 0
    ensures NPC_FILTER == 0
  {
  }

  // ---------------------------------------------------------------------------
  // Input and facing
  // ---------------------------------------------------------------------------

  /** Keys held this frame, and whether B was just pressed. */
  datatype Keys = Keys(d: bool, a: bool, w: bool, s: bool, bJustPressed: bool)

  function B(b: bool): real { if b then 1.0 else 0.0 }

  /** `input_dir`: D minus A across, W minus S up. */
  function InputDir(k: Keys): (r: Vec2)
    ensures r.x == 1.0 <==> k.d && !k.a
    ensures r.x == -1.0 <==> k.a && !k.d
    ensures r.x == 0.0 <==> k.d == k.a
    ensures r.y == 1.0 <==> k.w && !k.s
    ensures r.y == -1.0 <==> k.s && !k.w
    ensures r.y == 0.0 <==> k.w == k.s
  {
    Vec2(B(k.d) - B(k.a), B(k.w) - B(k.s))
  }

  /** The turn requested for a direction (0 down, 1 left, 2 up, 3 right), the x axis first;
      None when no turn method is called. */
  function Facing(dir: Vec2): Option<nat>
  {
    if Abs(dir.x) < 0.1 then
      if Abs(dir.y) > 0.1 then
        if dir.y > 0.0 then Some(2) else if dir.y < 0.0 then Some(0) else None
      else None
    else
      if dir.x > 0.0 then Some(3) else if dir.x < 0.0 then Some(1) else None
  }

  /** On keyboard input: a horizontal key decides the facing, otherwise a vertical key, and
      with no direction held (or opposite keys held on both axes) the facing stays. */
  lemma FacingFromKeys(k: Keys)
    ensures k.d && !k.a ==> Facing(InputDir(k)) == Some(3)
    ensures k.a && !k.d ==> Facing(InputDir(k)) == Some(1)
    ensures k.d == k.a && k.w && !k.s ==> Facing(InputDir(k)) == Some(2)
    ensures k.d == k.a && k.s && !k.w ==> Facing(InputDir(k)) == Some(0)
    ensures k.d == k.a && k.w == k.s <==> Facing(InputDir(k)).None?
  {
  }

  /** The speed exceeds 0.1 (compared squared). */
  predicate Moving(v: Vec2) { v.Dot(v) > 0.01 }

  class PlayerController {
    var accumulatedVelocity: Vec2

    constructor ()
      ensures accumulatedVelocity == Zero2
    {
      accumulatedVelocity := Zero2;
    }

    /** One frame of `player_controller`. `integrate` is the velocity update toward the
        input direction (with its speed clamp); the translation handed to the character
        controller is the new velocity times `dt`. */
    method Control(anim: AnimationController, keys: Keys, dt: real, integrate: (Vec2, Vec2) -> Vec2)
      returns (translation: Vec2)
      requires anim.Valid()
      modifies this, anim
      ensures anim.Valid()
      ensures accumulatedVelocity == integrate(old(accumulatedVelocity), InputDir(keys))
      ensures translation == accumulatedVelocity.Scale(dt)
      ensures anim.dirOffset == old(anim.dirOffset) && anim.animationSpeed == old(anim.animationSpeed)
      ensures anim.direction == if Facing(InputDir(keys)).Some? then Facing(InputDir(keys)).value else old(anim.direction)
      ensures keys.bJustPressed ==> anim.current == HURT && anim.priority == 3 && anim.frame == 0.0
      ensures !keys.bJustPressed && Moving(accumulatedVelocity) ==>
        if old(anim.priority) >= 1 then
          anim.current == old(anim.current) && anim.priority == old(anim.priority) && anim.frame == old(anim.frame)
        else
          anim.current == WALK && anim.priority == 1 && anim.frame == 0.0
      ensures !keys.bJustPressed && !Moving(accumulatedVelocity) ==>
        if old(anim.priority) > 1 then
          anim.current == old(anim.current) && anim.priority == old(anim.priority) && anim.frame == old(anim.frame)
        else
          anim.current == IDLE && anim.priority == 0 && anim.frame == 0.0
    {
      var inputDir := InputDir(keys);
      accumulatedVelocity := integrate(accumulatedVelocity, inputDir);
      translation := accumulatedVelocity.Scale(dt);
      if Abs(inputDir.x) < 0.1 {
        if Abs(inputDir.y) > 0.1 {
          if inputDir.y > 0.0 { anim.TurnUp(); }
          if inputDir.y < 0.0 { anim.TurnDown(); }
        }
      } else {
        if inputDir.x > 0.0 { anim.TurnRight(); }
        if inputDir.x < 0.0 { anim.TurnLeft(); }
      }
      if Moving(accumulatedVelocity) {
        anim.PlayWalk();
      } else {
        anim.PlayIdlePriority(1);
      }
      if keys.bJustPressed {
        anim.PlayHurt();
      }
    }
  }
}
