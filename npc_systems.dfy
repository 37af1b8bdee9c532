/** The per-tick behaviour of civilians and hunters (src/npc/systems.rs).

    Each agent keeps a path of grid cells, a state and an accumulated velocity. Once per tick
    the agents are processed one after the other against the player's position; the player's
    grid cell of the previous tick is kept in a system-local value, and it decides whether an
    agent replans or keeps consuming its current path.

    The grid transform, the path planner, the velocity integration and the square root are not
    part of this model's source; they are parameters (`Oracles`) with the contracts stated
    below. Distances are compared through squared distances; `SqrtCompare` shows that this
    agrees with comparing the square roots. */
module NpcSystems {
  import opened Wrappers
  import opened Vectors

  const THRESHOLD: real := 100.0
  const UPP_THRESHOLD: real := THRESHOLD * 2.0
  const PROJ_V: real := 150.0

  /** The agent states named by the behaviour design; all but Chill, Attack and Dead are
      handled by the catch-all "follow a path" arm. */
  datatype NpcState = Chill | Look | Chase | Escape | Attack | Dead

  predicate Pathing(s: NpcState)
  {
    s != Chill && s != Attack && s != Dead
  }

  /** An agent: world position, accumulated velocity, current path and state. */
  datatype Npc = Npc(pos: Vec2, vel: Vec2, path: Option<seq<IVec2>>, state: NpcState)

  /** The calls this system makes into code outside the model. */
  datatype Oracles = Oracles(
    cellOf: Vec2 -> IVec2,                                // TransformToGrid::from_world_i32
    toWorld: IVec2 -> Vec2,                               // TransformToGrid::to_world
    plan: (IVec2, IVec2, NpcState) -> Option<seq<IVec2>>, // pathfinder(start, goal, .., state)
    accelerate: (Vec2, Vec2) -> Vec2,                     // move_towards and clamp of vel_accum
    sqrt: real -> real)                                   // f32::sqrt / Vec2::length

  /** A stored path can be followed: `path[1]` exists. */
  predicate PathOk(p: Option<seq<IVec2>>)
  {
    p.None? || |p.value| >= 2
  }

  /** The planner's contract: a path it returns has a next cell. */
  ghost predicate PlannerSound(o: Oracles)
  {
    forall a, b, s :: PathOk(o.plan(a, b, s))
  }

  ghost predicate SqrtSound(sqrt: real -> real)
  {
    forall x :: 0.0 <= x ==> 0.0 <= sqrt(x) && sqrt(x) * sqrt(x) == x
  }

  /** For s >= 0 with s * s == q and t > 0, comparing s with t is comparing q with t * t. */
  lemma SquareCompare(q: real, s: real, t: real)
    requires 0.0 <= s && s * s == q && 0.0 < t
    ensures s < t <==> q < t * t
    ensures s > t <==> q > t * t
  {
    var ss, st, tt := s * s, s * t, t * t;
    if s < t {
      assert ss <= st;
      assert st < tt;
    } else if s > t {
      assert tt < st;
      assert st < ss;
    } else {
      assert ss == tt;
    }
  }

  /** Comparing a distance with a positive bound is comparing its square with the bound's. */
  lemma SqrtCompare(sqrt: real -> real, q: real, t: real)
    requires SqrtSound(sqrt) && 0.0 <= q && 0.0 < t
    ensures sqrt(q) < t <==> q < t * t
    ensures sqrt(q) > t <==> q > t * t
  {
    SquareCompare(q, sqrt(q), t);
  }

  // ---------------------------------------------------------------------------------------
  // Path consumption and replanning
  // ---------------------------------------------------------------------------------------

  /** The consumption step (systems.rs:73-84, 241-252): once the agent stands on the next cell
      the head is dropped, and a path with fewer than two cells left is discarded. The result
      is the path itself or its tail, and it can still be followed. */
  function ConsumePath(path: Option<seq<IVec2>>, at: IVec2): (r: Option<seq<IVec2>>)
    requires PathOk(path)
    ensures PathOk(r)
    ensures path.None? ==> r.None?
    ensures r.Some? ==> path.Some? && (r.value == path.value || r.value == path.value[1..])
    ensures path.Some? && at != path.value[1] ==> r == path
    ensures path.Some? && at == path.value[1] ==> r.None? || (r.value == path.value[1..] && r.value[0] == at)
    ensures path.Some? && r.None? ==> at == path.value[1] && |path.value| == 2
  {
    match path
    case None => None
    case Some(p) =>
      var p' := if at == p[1] then p[1..] else p;
      if |p'| < 2 then None else Some(p')
  }

  lemma ConsumeDropsReachedHead(a: IVec2, b: IVec2, c: IVec2)
    ensures ConsumePath(Some([a, b, c]), b) == Some([b, c])
  {
  }

  lemma ConsumeDiscardsArrivedPath(a: IVec2, b: IVec2)
    ensures ConsumePath(Some([a, b]), b) == None
  {
  }

  /** The path an agent in a pathing state holds after the replan-or-consume block
      (systems.rs:70-85, 238-253): a fresh plan exactly when the player changed cell since
      the last tick, otherwise the consumed old path and never a fresh one. */
  function PathStep(o: Oracles, cell: IVec2, playerCell: IVec2, prevCell: IVec2, state: NpcState,
                    path: Option<seq<IVec2>>): (r: Option<seq<IVec2>>)
    requires PlannerSound(o) && PathOk(path)
    ensures PathOk(r)
    ensures playerCell != prevCell ==> r == o.plan(cell, playerCell, state)
    ensures playerCell == prevCell ==> r == ConsumePath(path, cell)
    ensures playerCell == prevCell ==> r.None? || (path.Some? && r.value[|r.value| - 1] == path.value[|path.value| - 1])
  {
    if playerCell != prevCell then o.plan(cell, playerCell, state) else ConsumePath(path, cell)
  }

  // ---------------------------------------------------------------------------------------
  // Animation intents
  // ---------------------------------------------------------------------------------------

  /** The calls a hunter makes on its AnimationController during a tick. */
  datatype AnimIntent = TurnLeft | TurnRight | TurnUp | TurnDown | Walk | IdlePriority(p: nat) | HunterThrow

  predicate Horizontal(t: AnimIntent) { t == TurnLeft || t == TurnRight }

  /** The turn is chosen on the dominant axis and points with the sign of that component. */
  predicate Toward(t: AnimIntent, dir: Vec2)
  {
    && (t == TurnRight ==> dir.x > 0.0)
    && (t == TurnLeft ==> dir.x <= 0.0)
    && (t == TurnUp ==> dir.y > 0.0)
    && (t == TurnDown ==> dir.y <= 0.0)
  }

  /** Facing the player while attacking (systems.rs:181-194). */
  function AttackFacing(dir: Vec2): (t: AnimIntent)
    ensures Horizontal(t) <==> Abs(dir.x) > Abs(dir.y)
    ensures Toward(t, dir) && t in {TurnLeft, TurnRight, TurnUp, TurnDown}
  {
    if Abs(dir.x) > Abs(dir.y) then
      if dir.x > 0.0 then TurnRight else TurnLeft
    else
      if dir.y > 0.0 then TurnUp else TurnDown
  }

  /** Facing along the path (systems.rs:263-271): the x axis wins unless it is under 0.1, and
      a move under 0.1 on both axes keeps the current direction. */
  function MoveFacing(dir: Vec2): (ts: seq<AnimIntent>)
    ensures |ts| <= 1
    ensures ts == [] <==> Abs(dir.x) < 0.1 && Abs(dir.y) <= 0.1
    ensures forall t :: t in ts ==> Toward(t, dir) && (Horizontal(t) <==> Abs(dir.x) >= 0.1)
    ensures forall t :: t in ts ==> t in {TurnLeft, TurnRight, TurnUp, TurnDown}
  {
    if Abs(dir.x) < 0.1 then
      if Abs(dir.y) > 0.1 then (if dir.y > 0.0 then [TurnUp] else [TurnDown]) else []
    else
      if dir.x > 0.0 then [TurnRight] else [TurnLeft]
  }

  // ---------------------------------------------------------------------------------------
  // One agent's tick
  // ---------------------------------------------------------------------------------------

  /** The distance banding of an attacking hunter (systems.rs:224-229), on squared distance. */
  function Band(state: NpcState, sq: real): NpcState
  {
    if sq < THRESHOLD * THRESHOLD then Escape
    else if sq < UPP_THRESHOLD * UPP_THRESHOLD then Chase
    else state
  }

  /** What one hunter's tick produces: its new data, its animation calls, and the intercept
      point of a projectile it fires. */
  datatype Step = Step(npc: Npc, anims: seq<AnimIntent>, shot: Option<Vec2>)

  /** The direction of travel toward the next cell of a path. */
  function MoveDir(o: Oracles, pos: Vec2, path: seq<IVec2>): Vec2
    requires |path| >= 2
  {
    o.toWorld(path[1]).Sub(pos)
  }

  /** One hunter's tick (systems.rs:175-287), given whether its repeating timer fired. */
  function HunterStep(o: Oracles, h: Npc, playerPos: Vec2, playerVel: Vec2, playerCell: IVec2,
                      prevCell: IVec2, timerFinished: bool): (r: Step)
    requires PlannerSound(o) && PathOk(h.path)
    ensures PathOk(r.npc.path) && r.npc.pos == h.pos
    ensures h.state == Chill || h.state == Dead ==> r == Step(h, [], None)
    ensures h.state == Attack ==>
      && r.npc.path == h.path && r.npc.vel == h.vel
      && r.npc.state == Band(Attack, SqDist(playerPos, h.pos))
      && r.anims == [AttackFacing(playerPos.Sub(h.pos))] + (if timerFinished then [HunterThrow] else [])
      && r.shot == (if timerFinished then CalculateIntercept(o.sqrt, h.pos, playerPos, playerVel, PROJ_V) else None)
    ensures Pathing(h.state) ==>
      && r.npc.path == PathStep(o, o.cellOf(h.pos), playerCell, prevCell, h.state, h.path)
      && r.shot.None?
      && (r.npc.path.None? <==> r.npc.state == Attack)
      && (r.npc.path.Some? ==> r.npc.state == h.state)
      && (r.npc.path.None? ==> r.anims == [] && r.npc.vel == h.vel)
      && (r.npc.path.Some? ==>
            var dir := MoveDir(o, h.pos, r.npc.path.value);
            && r.npc.vel == o.accelerate(h.vel, dir)
            && r.anims == MoveFacing(dir) + [if h.vel.Dot(h.vel) > 0.1 * 0.1 then Walk else IdlePriority(1)])
  {
    match h.state
    case Attack =>
      var facing := AttackFacing(playerPos.Sub(h.pos));
      var anims := [facing] + (if timerFinished then [HunterThrow] else []);
      var shot := if timerFinished then CalculateIntercept(o.sqrt, h.pos, playerPos, playerVel, PROJ_V) else None;
      Step(h.(state := Band(Attack, SqDist(playerPos, h.pos))), anims, shot)
    case Chill => Step(h, [], None)
    case Dead => Step(h, [], None)
    case _ =>
      var path := PathStep(o, o.cellOf(h.pos), playerCell, prevCell, h.state, h.path);
      match path
      case Some(p) =>
        var dir := MoveDir(o, h.pos, p);
        var gait := if h.vel.Dot(h.vel) > 0.1 * 0.1 then Walk else IdlePriority(1);
        Step(h.(path := path, vel := o.accelerate(h.vel, dir)), MoveFacing(dir) + [gait], None)
      case None =>
        Step(h.(path := None, state := Attack), [], None)
  }

  /** An attacking hunter at distance d from the player flees below THRESHOLD, chases below
      UPP_THRESHOLD and otherwise keeps attacking. */
  lemma HunterBanding(o: Oracles, h: Npc, playerPos: Vec2, playerVel: Vec2, playerCell: IVec2,
                      prevCell: IVec2, timerFinished: bool)
    requires PlannerSound(o) && PathOk(h.path) && SqrtSound(o.sqrt) && h.state == Attack
    ensures var d := o.sqrt(SqDist(playerPos, h.pos));
      var s := HunterStep(o, h, playerPos, playerVel, playerCell, prevCell, timerFinished).npc.state;
      && (d < THRESHOLD ==> s == Escape)
      && (THRESHOLD <= d < UPP_THRESHOLD ==> s == Chase)
      && (UPP_THRESHOLD <= d ==> s == Attack)
  {
    var q := SqDist(playerPos, h.pos);
    SqDistNonNeg(playerPos, h.pos);
    SqrtCompare(o.sqrt, q, THRESHOLD);
    SqrtCompare(o.sqrt, q, UPP_THRESHOLD);
  }

  /** A hunter following a path walks when its speed exceeds 0.1, and otherwise asks for idle
      at priority 1 (systems.rs:272-276). */
  lemma HunterGait(o: Oracles, h: Npc, playerPos: Vec2, playerVel: Vec2, playerCell: IVec2,
                   prevCell: IVec2, timerFinished: bool)
    requires PlannerSound(o) && PathOk(h.path) && SqrtSound(o.sqrt) && Pathing(h.state)
    ensures var r := HunterStep(o, h, playerPos, playerVel, playerCell, prevCell, timerFinished);
      r.npc.path.Some? ==>
        && |r.anims| >= 1
        && r.anims[|r.anims| - 1] == (if o.sqrt(h.vel.Dot(h.vel)) > 0.1 then Walk else IdlePriority(1))
  {
    SqDistNonNeg(h.vel, Zero2);
    assert h.vel.Sub(Zero2) == h.vel;
    SqrtCompare(o.sqrt, h.vel.Dot(h.vel), 0.1);
  }

  /** One civilian's tick (systems.rs:59-117). The Attack and Dead arms are `todo!()` and panic,
      so a civilian must be in any other state. */
  function CivilianStep(o: Oracles, c: Npc, playerPos: Vec2, playerCell: IVec2, prevCell: IVec2): (r: Npc)
    requires PlannerSound(o) && PathOk(c.path) && c.state != Attack && c.state != Dead
    ensures PathOk(r.path) && r.pos == c.pos
    ensures r.state != Attack && r.state != Dead
    ensures c.state == Chill ==>
      && r.path == c.path && r.vel == c.vel
      && (r.state == Escape <==> SqDist(c.pos, playerPos) < THRESHOLD * THRESHOLD)
      && (r.state != Escape ==> r.state == Chill)
    ensures Pathing(c.state) ==>
      && r.state == c.state
      && r.path == PathStep(o, o.cellOf(c.pos), playerCell, prevCell, c.state, c.path)
      && (r.path.None? ==> r.vel == c.vel)
      && (r.path.Some? ==> r.vel == o.accelerate(c.vel, MoveDir(o, c.pos, r.path.value)))
  {
    if c.state == Chill then
      if SqDist(c.pos, playerPos) < THRESHOLD * THRESHOLD then c.(state := Escape) else c
    else
      var path := PathStep(o, o.cellOf(c.pos), playerCell, prevCell, c.state, c.path);
      match path
      case Some(p) => c.(path := path, vel := o.accelerate(c.vel, MoveDir(o, c.pos, p)))
      case None => c.(path := None)
  }

  /** A chilling civilian starts to flee exactly when the player comes closer than THRESHOLD. */
  lemma CivilianEscapes(o: Oracles, c: Npc, playerPos: Vec2, playerCell: IVec2, prevCell: IVec2)
    requires PlannerSound(o) && PathOk(c.path) && SqrtSound(o.sqrt) && c.state == Chill
    ensures CivilianStep(o, c, playerPos, playerCell, prevCell).state == Escape
      <==> o.sqrt(SqDist(c.pos, playerPos)) < THRESHOLD
  {
    SqDistNonNeg(c.pos, playerPos);
    SqrtCompare(o.sqrt, SqDist(c.pos, playerPos), THRESHOLD);
  }

  // ---------------------------------------------------------------------------------------
  // The agent loops
  // ---------------------------------------------------------------------------------------

  /** `manage_hunters` with its `Local<IVec2>` record of the player's previous cell, which
      starts at the default (0, 0). */
  class HunterSystem {
    var prevPlayerCell: IVec2

    constructor()
      ensures prevPlayerCell == IVec2(0, 0)
    {
      prevPlayerCell := IVec2(0, 0);
    }

    /** Every hunter takes its step against the cell recorded at the previous tick; only then
        is the record set to the player's current cell (systems.rs:172-290). */
    method ManageHunters(o: Oracles, hunters: array<Npc>, playerPos: Vec2, playerVel: Vec2, timerFinished: seq<bool>)
      returns (steps: seq<Step>)
      requires PlannerSound(o) && |timerFinished| == hunters.Length
      requires forall i :: 0 <= i < hunters.Length ==> PathOk(hunters[i].path)
      modifies this, hunters
      ensures prevPlayerCell == o.cellOf(playerPos)
      ensures |steps| == hunters.Length
      ensures forall i :: 0 <= i < hunters.Length ==>
        && steps[i] == HunterStep(o, old(hunters[i]), playerPos, playerVel, o.cellOf(playerPos), old(prevPlayerCell), timerFinished[i])
        && hunters[i] == steps[i].npc
      ensures forall i :: 0 <= i < hunters.Length ==> PathOk(hunters[i].path)
    {
      var playerCell := o.cellOf(playerPos);
      steps := [];
      var k := 0;
      while k < hunters.Length
        invariant 0 <= k <= hunters.Length && |steps| == k
        invariant prevPlayerCell == old(prevPlayerCell)
        invariant forall i :: 0 <= i < k ==>
          && steps[i] == HunterStep(o, old(hunters[i]), playerPos, playerVel, playerCell, prevPlayerCell, timerFinished[i])
          && hunters[i] == steps[i].npc
        invariant forall i :: k <= i < hunters.Length ==> hunters[i] == old(hunters[i])
      {
        var step := HunterStep(o, hunters[k], playerPos, playerVel, playerCell, prevPlayerCell, timerFinished[k]);
        hunters[k] := step.npc;
        steps := steps + [step];
        k := k + 1;
      }
      prevPlayerCell := playerCell;
    }
  }

  /** `manage_civilians` with its own record of the player's previous cell. */
  class CivilianSystem {
    var prevPlayerCell: IVec2

    constructor()
      ensures prevPlayerCell == IVec2(0, 0)
    {
      prevPlayerCell := IVec2(0, 0);
    }

    /** Every civilian takes its step (systems.rs:56-119). No civilian ever enters Attack or
        Dead, so the precondition holds again at the next tick. */
    method ManageCivilians(o: Oracles, civilians: array<Npc>, playerPos: Vec2)
      requires PlannerSound(o)
      requires forall i :: 0 <= i < civilians.Length ==>
        PathOk(civilians[i].path) && civilians[i].state != Attack && civilians[i].state != Dead
      modifies this, civilians
      ensures prevPlayerCell == o.cellOf(playerPos)
      ensures forall i :: 0 <= i < civilians.Length ==>
        civilians[i] == CivilianStep(o, old(civilians[i]), playerPos, o.cellOf(playerPos), old(prevPlayerCell))
      ensures forall i :: 0 <= i < civilians.Length ==>
        PathOk(civilians[i].path) && civilians[i].state != Attack && civilians[i].state != Dead
    {
      var playerCell := o.cellOf(playerPos);
      var k := 0;
      while k < civilians.Length
        invariant 0 <= k <= civilians.Length
        invariant prevPlayerCell == old(prevPlayerCell)
        invariant forall i :: 0 <= i < k ==>
          civilians[i] == CivilianStep(o, old(civilians[i]), playerPos, playerCell, prevPlayerCell)
        invariant forall i :: k <= i < civilians.Length ==> civilians[i] == old(civilians[i])
      {
        civilians[k] := CivilianStep(o, civilians[k], playerPos, playerCell, prevPlayerCell);
        k := k + 1;
      }
      prevPlayerCell := playerCell;
    }
  }

  // ---------------------------------------------------------------------------------------
  // Ballistic intercept
  // ---------------------------------------------------------------------------------------

  /** |d + v t|^2 = p^2 t^2, with d the target's offset from the shooter, rearranged as
      a t^2 + b t + c = 0. */
  datatype Quadratic = Quadratic(a: real, b: real, c: real)

  function InterceptQuadratic(shooterPos: Vec2, targetPos: Vec2, targetVel: Vec2, projVel: real): Quadratic
  {
    var d := targetPos.Sub(shooterPos);
    Quadratic(targetVel.Dot(targetVel) - projVel * projVel, 2.0 * d.Dot(targetVel), d.Dot(d))
  }

  function Discriminant(q: Quadratic): real
  {
    q.b * q.b - 4.0 * q.a * q.c
  }

  function Eval(q: Quadratic, t: real): real
  {
    q.a * t * t + q.b * t + q.c
  }

  /** The root the source picks: (-b - sqrt(dis)) / 2a. */
  function InterceptTime(sqrt: real -> real, q: Quadratic): real
    requires q.a != 0.0
  {
    (-q.b - sqrt(Discriminant(q))) / (2.0 * q.a)
  }

  /** `calculate_intercept` (systems.rs:293-308): no shot when the discriminant is negative or
      the chosen time is negative, otherwise the target's position at that time. A zero
      leading coefficient gives no shot (see the README). */
  function CalculateIntercept(sqrt: real -> real, shooterPos: Vec2, targetPos: Vec2, targetVel: Vec2, projVel: real): (r: Option<Vec2>)
    ensures var q := InterceptQuadratic(shooterPos, targetPos, targetVel, projVel);
      r.None? <==> Discriminant(q) < 0.0 || q.a == 0.0 || InterceptTime(sqrt, q) < 0.0
    ensures var q := InterceptQuadratic(shooterPos, targetPos, targetVel, projVel);
      r.Some? ==> r.value == targetPos.Add(targetVel.Scale(InterceptTime(sqrt, q)))
  {
    var q := InterceptQuadratic(shooterPos, targetPos, targetVel, projVel);
    if Discriminant(q) < 0.0 then None
    else if q.a == 0.0 then None
    else
      var t := InterceptTime(sqrt, q);
      if t < 0.0 then None else Some(targetPos.Add(targetVel.Scale(t)))
  }

  /** The squared distance still to cover at time t, minus what the projectile covers, is the
      quadratic. */
  lemma MeetingPolynomial(shooterPos: Vec2, targetPos: Vec2, targetVel: Vec2, projVel: real, t: real)
    ensures SqDist(targetPos.Add(targetVel.Scale(t)), shooterPos) - projVel * projVel * t * t
         == Eval(InterceptQuadratic(shooterPos, targetPos, targetVel, projVel), t)
  {
    var d := targetPos.Sub(shooterPos);
    var v := targetVel;
    var e := targetPos.Add(targetVel.Scale(t)).Sub(shooterPos);
    assert e == Vec2(d.x + t * v.x, d.y + t * v.y);
    assert (d.x + t * v.x) * (d.x + t * v.x) == d.x * d.x + 2.0 * t * (d.x * v.x) + t * t * (v.x * v.x);
    assert (d.y + t * v.y) * (d.y + t * v.y) == d.y * d.y + 2.0 * t * (d.y * v.y) + t * t * (v.y * v.y);
  }

  /** 4a times the quadratic completes to a square minus the discriminant. */
  lemma CompleteSquare(q: Quadratic, t: real)
    ensures 4.0 * q.a * Eval(q, t) == (2.0 * q.a * t + q.b) * (2.0 * q.a * t + q.b) - Discriminant(q)
  {
  }

  lemma DotSelfNonNeg(v: Vec2)
    ensures v.Dot(v) >= 0.0
  {
    assert v.x * v.x >= 0.0;
    assert v.y * v.y >= 0.0;
  }

  lemma SqDistNonNeg(a: Vec2, b: Vec2)
    ensures SqDist(a, b) >= 0.0
  {
    DotSelfNonNeg(a.Sub(b));
  }

  /** A non-negative number whose square is at least m^2 is at least m. */
  lemma RootAtLeast(s: real, m: real)
    requires 0.0 <= s && 0.0 <= m && s * s >= m * m
    ensures s >= m
  {
    if s + m == 0.0 {
      assert s == 0.0 && m == 0.0;
    } else {
      assert (s - m) * (s + m) == s * s - m * m;
      assert (s - m) * (s + m) >= 0.0;
    }
  }

  /** A product of two reals is zero only if a factor is. */
  lemma ProductZero(x: real, y: real)
    requires x * y == 0.0
    ensures x == 0.0 || y == 0.0
  {
  }

  /** A returned intercept is a point the target reaches at some time t >= 0 at which a
      projectile fired now at speed projVel arrives too. */
  lemma InterceptMeets(sqrt: real -> real, shooterPos: Vec2, targetPos: Vec2, targetVel: Vec2, projVel: real)
    requires SqrtSound(sqrt)
    requires CalculateIntercept(sqrt, shooterPos, targetPos, targetVel, projVel).Some?
    ensures var i := CalculateIntercept(sqrt, shooterPos, targetPos, targetVel, projVel).value;
      exists t :: 0.0 <= t && i == targetPos.Add(targetVel.Scale(t)) && SqDist(i, shooterPos) == projVel * projVel * t * t
  {
    var q := InterceptQuadratic(shooterPos, targetPos, targetVel, projVel);
    var t := InterceptTime(sqrt, q);
    QuadraticRoot(q, sqrt(Discriminant(q)), t);
    MeetingPolynomial(shooterPos, targetPos, targetVel, projVel, t);
  }

  /** (-b - s) / 2a, for s a square root of the discriminant, is a root. */
  lemma QuadraticRoot(q: Quadratic, s: real, t: real)
    requires q.a != 0.0 && s * s == Discriminant(q)
    requires t == (-q.b - s) / (2.0 * q.a)
    ensures Eval(q, t) == 0.0
  {
    var u := 2.0 * q.a * t;
    assert u == -q.b - s;
    CompleteSquare(q, t);
    var e := Eval(q, t);
    assert 4.0 * q.a * e == (u + q.b) * (u + q.b) - Discriminant(q);
    assert (u + q.b) * (u + q.b) == s * s;
    ProductZero(4.0 * q.a, e);
  }

  /** With a negative discriminant the projectile can never meet the target. */
  lemma NoMeetingWithNegativeDiscriminant(shooterPos: Vec2, targetPos: Vec2, targetVel: Vec2, projVel: real, t: real)
    requires Discriminant(InterceptQuadratic(shooterPos, targetPos, targetVel, projVel)) < 0.0
    ensures SqDist(targetPos.Add(targetVel.Scale(t)), shooterPos) != projVel * projVel * t * t
  {
    var q := InterceptQuadratic(shooterPos, targetPos, targetVel, projVel);
    var u := 2.0 * q.a * t + q.b;
    assert u * u >= 0.0;
    CompleteSquare(q, t);
    MeetingPolynomial(shooterPos, targetPos, targetVel, projVel, t);
  }

  /** When the target is slower than the projectile a shot is always found: the chosen root
      is then the non-negative one. */
  lemma InterceptWhenFaster(sqrt: real -> real, shooterPos: Vec2, targetPos: Vec2, targetVel: Vec2, projVel: real)
    requires SqrtSound(sqrt) && targetVel.Dot(targetVel) < projVel * projVel
    ensures CalculateIntercept(sqrt, shooterPos, targetPos, targetVel, projVel).Some?
  {
    var q := InterceptQuadratic(shooterPos, targetPos, targetVel, projVel);
    var d := targetPos.Sub(shooterPos);
    DotSelfNonNeg(d);
    assert q.a < 0.0 && q.c >= 0.0;
    assert -4.0 * q.a * q.c >= 0.0;
    assert Discriminant(q) >= q.b * q.b;
    var s := sqrt(Discriminant(q));
    assert Abs(q.b) * Abs(q.b) == q.b * q.b;
    RootAtLeast(s, Abs(q.b));
    assert -q.b - s <= 0.0;
    var t := InterceptTime(sqrt, q);
    assert t == (-q.b - s) / (2.0 * q.a);
    assert t >= 0.0;
  }

  /** A stationary target is hit where it stands, for any positive projectile speed. */
  lemma InterceptStationary(sqrt: real -> real, shooterPos: Vec2, targetPos: Vec2, projVel: real)
    requires SqrtSound(sqrt) && projVel > 0.0
    ensures CalculateIntercept(sqrt, shooterPos, targetPos, Zero2, projVel) == Some(targetPos)
  {
    var q := InterceptQuadratic(shooterPos, targetPos, Zero2, projVel);
    calc {
      Zero2.Dot(Zero2);
      0.0;
    <  { assert 0.0 < projVel * projVel; }
      projVel * projVel;
    }
    InterceptWhenFaster(sqrt, shooterPos, targetPos, Zero2, projVel);
    var t := InterceptTime(sqrt, q);
    assert Zero2.Scale(t) == Zero2;
    assert targetPos.Add(Zero2) == targetPos;
  }

  /** When no shot is returned and the equation is a real quadratic, the target cannot be met
      at any positive time: a negative chosen root means both roots are at most zero. */
  lemma NoInterceptNoMeeting(sqrt: real -> real, shooterPos: Vec2, targetPos: Vec2, targetVel: Vec2, projVel: real, t: real)
    requires SqrtSound(sqrt)
    requires InterceptQuadratic(shooterPos, targetPos, targetVel, projVel).a != 0.0
    requires CalculateIntercept(sqrt, shooterPos, targetPos, targetVel, projVel).None?
    requires t > 0.0
    ensures SqDist(targetPos.Add(targetVel.Scale(t)), shooterPos) != projVel * projVel * t * t
  {
    var q := InterceptQuadratic(shooterPos, targetPos, targetVel, projVel);
    if Discriminant(q) < 0.0 {
      NoMeetingWithNegativeDiscriminant(shooterPos, targetPos, targetVel, projVel, t);
    } else {
      if q.a < 0.0 {
        InterceptWhenFaster(sqrt, shooterPos, targetPos, targetVel, projVel);
        assert false;
      }
      DotSelfNonNeg(targetPos.Sub(shooterPos));
      var s := sqrt(Discriminant(q));
      assert s >= 0.0 && s * s == Discriminant(q);
      var u1, u2 := -q.b - s, -q.b + s;
      assert InterceptTime(sqrt, q) == u1 / (2.0 * q.a);
      assert u1 < 0.0;
      assert u1 * u2 == 4.0 * q.a * q.c;
      assert 4.0 * q.a * q.c >= 0.0;
      assert u2 <= 0.0;
      var w := 2.0 * q.a * t;
      assert w > 0.0;
      CompleteSquare(q, t);
      assert (w - u1) * (w - u2) == 4.0 * q.a * Eval(q, t);
      assert (w - u1) * (w - u2) > 0.0;
      MeetingPolynomial(shooterPos, targetPos, targetVel, projVel, t);
    }
  }
}
