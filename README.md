# bevy_jam game logic in Dafny

This project models the game logic of the bevy_jam game (a small 2D Bevy game with a vampire
player, hunters and civilians). Each core source file becomes one Dafny module, and the
properties the code relies on are proved about each module.

- `TileMap` (`tilemap.dfy`) covers the world-to-grid transform. It also covers the merge of a
  level's wall cells, first into one-row "plates" and then into rectangle colliders. The merged
  rectangles are proved to be pairwise disjoint and made of wall cells only, and to cover every
  wall cell.
- `NpcSystems` (`npc_systems.dfy`) covers the per-tick hunter and civilian logic:
  - path replanning and consumption;
  - the state transitions;
  - the facing and gait requests;
  - the two agent loops with their remembered player cell;
  - the ballistic intercept solver.
- `NpcPathfinder` (`npc_pathfinder.dfy`) covers the NPC grid search: successors over the
  trespassable cells, the Manhattan weight, `find_path` and `process_pathfinding`.
- `Pathfind` (`pathfind.dfy`) covers the stand-alone search demo: the distance, the successors,
  the walkable set read from the bitmap, the successor closure and the search on the fixed map.
- `Animation` (`animation.dfy`) covers frame selection and `CharacterAnimation::simple`. It
  also holds `AnimationController` as a class whose play and turn methods are gated by a
  priority number.
- `PlayerSystems` (`player_systems.dfy`) covers the keyboard direction, the facing and
  locomotion requests of `player_controller`, and the collision-group constants.
- `DayCycle` (`daycycle.dfy`) covers the day/night clock.
- `Characters` (`characters.dfy`) covers the character layout and its sprite index.
- `Camera` (`camera.dfy`) covers the choice of follow target, the exponential easing and the
  camera update loop.
- `Sounds` (`sounds.dfy`) covers the day/night crossfade, triggered on a rising edge, and the
  sound-effect events.
- `Wrappers` and `Vectors` hold an `Option` type and the engine's `IVec2`, `Vec2` and `Vec3`.

Floating-point values are exact reals, and integers are unbounded. Several routines live
outside the shown code or are engine numerics: the path planner, the grid transforms called by
the NPC systems, velocity integration, `sqrt`, `exp` and the `pathfinding` crate's `astar`. Each
of these is a function-valued parameter. A contract predicate states what the model assumes of
it, for example `PlannerSound`, `SqrtSound`, `ExpSound`, `AStarSound` or `AStarComplete`. Audio
playback appears as the list of commands issued to the channels.

Where the source panics, the model either returns `None` or says in a `requires` why the
input cannot happen:
- `CharacterAnimation::simple` on an empty frame list returns `None`;
- the `todo!()` arms for civilians are excluded by a `requires`;
- `rand`'s empty range is excluded by a `requires`.

## Model

| member | source | states |
|---|---|---|
| TileMap.FromWorld | src/map/tilemap.rs:58-60 | grid x is the offset from the level origin over the tile width; grid y is measured down from the level top |
| TileMap.FromWorldToWorld | src/map/tilemap.rs:58-60 | from_world undoes the grid-to-world map for every grid position |
| TileMap.ToWorldFromWorld | src/map/tilemap.rs:58-60 | the grid-to-world map undoes from_world, so distinct world points get distinct grid points |
| TileMap.FromWorldFlipsY | src/map/tilemap.rs:58-60 | a higher world point lands on a lower grid row |
| TileMap.DisjointShareNoCell | src/map/tilemap.rs:111-116 | two disjoint rectangles have no common cell |
| TileMap.PlateUnique | src/map/tilemap.rs:161-178 | in a row of separated plates a cell lies in at most one plate |
| TileMap.RowPlates | src/map/tilemap.rs:161-178 | the plates of a row are non-empty, increasing, separated by a free cell, in bounds, made of wall cells and maximal; they cover every wall cell of the row when column `width` is clear |
| TileMap.PlateStack | src/map/tilemap.rs:159-181 | one row of plates per level row, each with the properties above |
| TileMap.FinishRects | src/map/tilemap.rs:192-199 | every previous-row plate missing from the current row moves its rectangle from the builder to the output, keeping disjointness and cover |
| TileMap.ExtendRects | src/map/tilemap.rs:200-210 | a plate already in the builder grows its rectangle by one row, and any other plate starts a one-row rectangle at the current row |
| TileMap.MergePlates | src/map/tilemap.rs:183-212 | the emitted rectangles are pairwise disjoint vertical stacks of one plate, maximal above and below, and they cover every plate cell |
| TileMap.MergeDone | src/map/tilemap.rs:188-212 | after the extra empty row the builder is empty and the finished rectangles alone are the result |
| TileMap.WallRects | src/map/tilemap.rs:159-212 | the rectangles are in bounds, pairwise disjoint and consist of wall cells only; they cover every in-bounds wall cell when column `width` holds no wall |
| TileMap.WallInExactlyOneRect | src/map/tilemap.rs:183-212 | a cell lies in at most one emitted rectangle, so with the cover it lies in exactly one |
| TileMap.Collider | src/map/tilemap.rs:219-238 | the cuboid spans exactly [left·gs, (right+1)·gs] × [bottom·gs, (top+1)·gs] |
| NpcSystems.SquareCompare | src/npc/systems.rs:224-229 | for non-negative roots and a positive bound, comparing the root is comparing the square |
| NpcSystems.SqrtCompare | src/npc/systems.rs:64 | a distance is below (above) a positive threshold exactly when its square is below (above) the threshold's square |
| NpcSystems.ConsumePath | src/npc/systems.rs:241-252 | the head is dropped exactly when the agent stands on `path[1]`; a path left with fewer than two cells is discarded; the result is followable |
| NpcSystems.ConsumeDropsReachedHead | src/npc/systems.rs:243-245 | [A,B,C] at B becomes [B,C] |
| NpcSystems.ConsumeDiscardsArrivedPath | src/npc/systems.rs:246-251 | [A,B] at B becomes None |
| NpcSystems.PathStep | src/npc/systems.rs:238-253 | a fresh plan exactly when the player changed cell, otherwise the consumed old path, which keeps its last cell |
| NpcSystems.AttackFacing | src/npc/systems.rs:181-194 | the turn is horizontal exactly when the x component dominates, and it points with the sign of the dominant component |
| NpcSystems.MoveFacing | src/npc/systems.rs:263-271 | no turn exactly when both components are small; otherwise one turn, horizontal exactly when the x component is at least 0.1 |
| NpcSystems.HunterStep | src/npc/systems.rs:178-287 | Chill and Dead change nothing; Attack turns, throws and shoots when the timer fired, and re-bands the state by distance; a pathing hunter holds the result of PathStep and becomes Attack exactly when it has no path; with a path it keeps its state, requests the facing toward path[1] and then walk or idle by its old speed, and its velocity is the update toward path[1] |
| NpcSystems.HunterBanding | src/npc/systems.rs:224-229 | an attacking hunter escapes below 100, chases from 100 to below 200, and keeps attacking from 200 on |
| NpcSystems.HunterGait | src/npc/systems.rs:272-276 | a hunter following a path asks for walk when its speed exceeds 0.1, otherwise for idle at priority 1 |
| NpcSystems.CivilianStep | src/npc/systems.rs:59-117 | a chilling civilian flees exactly when the player is closer than THRESHOLD; a pathing civilian keeps its state and holds the result of PathStep, and with a path its velocity is the update toward path[1], without one it is kept; no civilian reaches Attack or Dead |
| NpcSystems.CivilianEscapes | src/npc/systems.rs:63-67 | Chill becomes Escape if and only if the distance to the player is below 100 |
| NpcSystems.HunterSystem.constructor | src/npc/systems.rs:163 | the remembered player cell starts at (0, 0) |
| NpcSystems.HunterSystem.ManageHunters | src/npc/systems.rs:155-291 | each hunter's step runs against the previous tick's player cell; only then is that cell updated to the current one; every path remains followable |
| NpcSystems.CivilianSystem.constructor | src/npc/systems.rs:50 | the remembered player cell starts at (0, 0) |
| NpcSystems.CivilianSystem.ManageCivilians | src/npc/systems.rs:43-120 | each civilian's step runs against the previous tick's player cell, which is updated afterwards; the loop's precondition is re-established |
| NpcSystems.CalculateIntercept | src/npc/systems.rs:293-308 | None exactly when the discriminant is negative, the leading coefficient is zero or the chosen time is negative; otherwise the target's position at that time |
| NpcSystems.MeetingPolynomial | src/npc/systems.rs:294-298 | the squared target distance at time t minus the projectile's reach is the solver's quadratic |
| NpcSystems.CompleteSquare | src/npc/systems.rs:298 | 4a·q(t) = (2at + b)² − discriminant |
| NpcSystems.InterceptMeets | src/npc/systems.rs:302-307 | a returned point is where the target is at some t ≥ 0 at which the projectile arrives too |
| NpcSystems.QuadraticRoot | src/npc/systems.rs:302 | the time chosen from the square root of the discriminant is a root of the quadratic |
| NpcSystems.NoMeetingWithNegativeDiscriminant | src/npc/systems.rs:299-301 | with a negative discriminant the projectile never meets the target |
| NpcSystems.InterceptWhenFaster | src/npc/systems.rs:299-305 | a target slower than the projectile always yields a shot |
| NpcSystems.InterceptStationary | src/npc/systems.rs:293-308 | a stationary target is hit where it stands, for any positive projectile speed |
| NpcSystems.NoInterceptNoMeeting | src/npc/systems.rs:299-305 | when no shot is returned and a ≠ 0, the target cannot be met at any positive time |
| NpcPathfinder.Weight | src/npc/pathfinder.rs:30-32 | non-negative and zero exactly when the cells are equal |
| NpcPathfinder.WeightSymmetric | src/npc/pathfinder.rs:30-32 | the weight is symmetric |
| NpcPathfinder.Offered | src/npc/pathfinder.rs:20-29 | as written: at most one entry per move, in MOVES order, each of cost 1, offered exactly when pos+move is trespassable, and the node is the raw offset |
| NpcPathfinder.Successors | src/npc/pathfinder.rs:20-29 | the loop over MOVES yields Offered's list |
| NpcPathfinder.AsWrittenSuccessorNotAdjacent | src/npc/pathfinder.rs:25 | from (5,5) with (6,5) trespassable the node offered is (1,0), nine cells away |
| NpcPathfinder.AsWrittenPathStaysAtOffsets | src/npc/pathfinder.rs:62-76 | with the successors as written, a found path ends at the start or at one of the four unit offsets |
| NpcPathfinder.Neighbours | src/npc/pathfinder.rs:23-26 | corrected: every trespassable neighbouring cell pos+move is offered at cost 1, and only such cells |
| NpcPathfinder.Search | src/npc/pathfinder.rs:62-76 | over any successor closure: Some exactly when astar finds a path; under astar's contract that path runs from start to end along the closure |
| NpcPathfinder.FindPath | src/npc/pathfinder.rs:62-76 | Some exactly when astar finds a path; under astar's contract that path runs from start to end along successors |
| NpcPathfinder.FindNeighbourPath | src/npc/pathfinder.rs:62-76 | Some exactly when astar over the corrected successors finds a path |
| NpcPathfinder.NeighbourPathIsConnected | src/npc/pathfinder.rs:62-76 | a corrected path runs from start to end through neighbouring trespassable cells |
| NpcPathfinder.ProcessPathfinding | src/npc/pathfinder.rs:35-60 | nothing until the trespassable set is ready; then one search per hunter over the given successors, Some exactly when astar finds a path to the player, which then runs from the hunter to the player along those successors |
| NpcPathfinder.ProcessedPathsAsWritten | src/npc/pathfinder.rs:20-60 | over the successors as written, a path is drawn for a hunter only when the player stands on the hunter's cell or on one of the four unit offsets |
| NpcPathfinder.ProcessedPathsReachPlayer | src/npc/pathfinder.rs:49-56 | over the corrected successors, every drawn path is non-empty (the `len() - 1` loop cannot underflow) and walks from the hunter to the player through neighbouring trespassable cells |
| Pathfind.Distance | src/pathfind.rs:14-16 | zero exactly when the cells are equal |
| Pathfind.DistanceSymmetric | src/pathfind.rs:14-16 | the distance is symmetric |
| Pathfind.DistanceTriangle | src/pathfind.rs:14-16 | the distance satisfies the triangle inequality |
| Pathfind.Successors | src/pathfind.rs:18-22 | four entries, each of cost 1 |
| Pathfind.SuccessorsAreNeighbours | src/pathfind.rs:18-22 | a cell is a successor if and only if it is at distance 1 |
| Pathfind.AllowedCells | src/pathfind.rs:40-47 | Pos(x, y) is allowed if and only if bitmap[y][x] == 1 |
| Pathfind.AllowedMoves | src/pathfind.rs:55-70 | only allowed cells at distance 1, each of cost 1, and every allowed successor is present |
| Pathfind.AllowedMovesInOrder | src/pathfind.rs:55-70 | the moves come in the order +x, −x, +y, −y, strictly, so none is repeated |
| Pathfind.Moves | src/pathfind.rs:55-70 | the four guarded pushes yield AllowedMoves |
| Pathfind.HeuristicAdmissible | src/pathfind.rs:71 | the distance to the goal never exceeds the step count of a unit walk to it |
| Pathfind.Search | src/pathfind.rs:53-74 | Some exactly when astar finds a path from (0,0) to (0,3) |
| Pathfind.DemoPathIsWalk | src/pathfind.rs:32-39 | (0,0)→(1,0)→(1,1)→(1,2)→(0,2)→(0,3) is a walk over the closure on the fixed bitmap |
| Pathfind.DemoFindsPath | src/pathfind.rs:75 | with a complete astar the search succeeds, so the `panic!` cannot happen |
| Pathfind.FoundPathAtLeastDistance | src/pathfind.rs:51-74 | any path found has at least four cells |
| Animation.Simple | src/characters/animation.rs:199-214 | None exactly for an empty frame list; duration t·len for Constant and the sum for Sequence; not looped |
| Animation.FirstReached | src/characters/animation.rs:46-53 | the first frame start that has reached the time; all earlier ones have not |
| Animation.FirstReachedIs | src/characters/animation.rs:46-53 | those two properties determine the index |
| Animation.TickerGet | src/characters/animation.rs:35-57 | the accumulating loop selects FrameOf's element |
| Animation.PrefixMonotone | src/characters/animation.rs:51 | with non-negative durations the frame starts do not decrease |
| Animation.ConstantFrameIsFloor | src/characters/animation.rs:38-42 | for t > 0, element ⌊frame/t⌋ clamped to the last |
| Animation.SequenceFrameInInterval | src/characters/animation.rs:43-55 | a time in (P_k, P_{k+1}] selects element k (the last when k is past the list) |
| Animation.SequenceFrameNonPositive | src/characters/animation.rs:47-49 | a time at or before 0 selects element 0 |
| Animation.SequenceFrameBeyond | src/characters/animation.rs:43-54 | a time past P_{n−1} selects index n−1 of the frame list (none when n exceeds its length) |
| Animation.FrameNoneIffEmpty | src/characters/animation.rs:35-57 | nothing is selected if and only if the frame list is empty (for a Sequence of no more durations than frames) |
| Animation.KnownHasFrame | src/characters/animation.rs:144-145 | every animation the controller plays has a frame, so the panic cannot happen |
| Animation.FMod | src/characters/animation.rs:156 | the wrapped time lies in [0, duration) |
| Animation.AnimationController.constructor | src/characters/animation.rs:83-94 | speed 1, frame 0, looped idle, offset 7, priority 0, direction 2 |
| Animation.AnimationController.PlayIdleForced | src/characters/animation.rs:102-106 | idle, priority 0, ticker restarted, facing untouched |
| Animation.AnimationController.PlayIdle | src/characters/animation.rs:97-100 | no-op when priority > 0, otherwise forced idle |
| Animation.AnimationController.PlayIdlePriority | src/characters/animation.rs:108-113 | no-op when priority > p, otherwise idle at priority 0 (not p) |
| Animation.AnimationController.PlayHurt | src/characters/animation.rs:115-119 | always hurt with priority 3 |
| Animation.AnimationController.PlayWalk | src/characters/animation.rs:121-126 | no-op when priority ≥ 1, otherwise the looped walk with priority 1 |
| Animation.AnimationController.PlayHunterThrow | src/characters/animation.rs:74-79 | no-op when priority > 2, otherwise the throw with priority 2 |
| Animation.AnimationController.TurnLeft | src/characters/animation.rs:128-130 | direction 1, nothing else changes |
| Animation.AnimationController.TurnRight | src/characters/animation.rs:132-134 | direction 3, nothing else changes |
| Animation.AnimationController.TurnUp | src/characters/animation.rs:136-138 | direction 2, nothing else changes |
| Animation.AnimationController.TurnDown | src/characters/animation.rs:140-142 | direction 0, nothing else changes |
| Animation.AnimationController.GetIdxAndMirror | src/characters/animation.rs:144-150 | mirrored exactly when facing right; index = frame + d·offset with d = 1 when facing right and d = direction otherwise; a valid controller always has an index |
| Animation.AnimationController.Tick | src/characters/animation.rs:152-161 | an overrun wraps a looped animation into [0, duration) and ends another with forced idle; otherwise the time just advances |
| PlayerSystems.CollisionGroups | src/player/systems.rs:14-17 | distinct single bits; the player filter is 0b1100 without the player bit; the NPC filter `PLAYER_CG & STRUCTURES_CG` is empty |
| PlayerSystems.InputDir | src/player/systems.rs:102-105 | each component is 1, −1 or 0 exactly for the key combinations D−A and W−S |
| PlayerSystems.FacingFromKeys | src/player/systems.rs:115-123 | a horizontal key decides the facing, otherwise a vertical key; with neither the facing stays |
| PlayerSystems.PlayerController.constructor | src/player/systems.rs:23-27 | velocity starts at zero |
| PlayerSystems.PlayerController.Control | src/player/systems.rs:102-131 | new velocity and translation; facing by input; walk above speed 0.1, else idle at priority 1; a just-pressed B ends in hurt at priority 3; the sprite offset and animation speed are kept |
| DayCycle.DayStep | src/systems.rs:13-21 | time += dt; day below 20, night from 20 to 40; from 40 on the time resets to 0 and the phase is kept |
| DayCycle.DayStepInCycle | src/systems.rs:13-21 | from any time ≥ 0 with dt ≥ 0 the new time is in [0, 40) |
| DayCycle.RunInCycle | src/systems.rs:9-21 | over any run of non-negative frame times the clock stays in [0, 40) |
| DayCycle.DayCycleResource.constructor | src/systems.rs:3-7 | the resource holds the given time and phase |
| DayCycle.DayCycleResource.UpdateDaycycle | src/systems.rs:9-21 | the new time and phase are DayStep of the old ones |
| Characters.Gen | src/characters/characters.rs:16-25 | the counts are stored unchanged and every variant is below its count |
| Characters.GetAnimationIndex | src/characters/characters.rs:26-28 | the index is ≡ 1 (mod 3), its quotient is the body variant, and it is below 3·body_count |
| Characters.BodyIndexInFirstRow | src/characters/generator.rs:32-38 | with five bodies the index is at most 13, inside the 15-column body sheet |
| Camera.Followed | src/core/camera.rs:82-91 | None exactly for no targets; otherwise an index of greatest order with no later index of that order |
| Camera.LastMaxUnique | src/core/camera.rs:85-91 | the followed target is unique |
| Camera.SelectTarget | src/core/camera.rs:82-91 | the loop follows the Followed target at its speed, or the origin at speed 0 |
| Camera.FollowedIsLastMax | src/core/camera.rs:82-91 | with any target the last one of greatest order is followed (a sole target whatever its order) |
| Camera.ExpDecay | src/core/functions.rs:7-11 | with a sound exp and non-negative speed and time the result lies between start and target; at speed 0 it is the start |
| Camera.CameraController.constructor | src/core/camera.rs:73 | the given scale and no easing speed |
| Camera.CameraController.SetScale | src/core/camera.rs:42-45 | both scale and easing speed are overwritten |
| Camera.NextScale | src/core/camera.rs:95-96 | no speed sets the target scale outright; a non-negative speed eases between current and target |
| Camera.UpdateCameras | src/core/camera.rs:93-97 | every camera eases towards the followed position and updates its scale from its own controller |
| Sounds.BackgroundCommands | src/sounds/systems.rs:34-61 | commands exactly on a rising edge: into day stops night and plays day at 0.4, into night stops day and plays night at 1.0 |
| Sounds.BackgroundMusic.constructor | src/sounds/systems.rs:32 | the previous state starts false |
| Sounds.BackgroundMusic.ManageBackground | src/sounds/systems.rs:27-63 | the tick's commands, and the previous state set to the current one |
| Sounds.TriggersAreRisingEdges | src/sounds/systems.rs:34-62 | tick i crossfades exactly when it translates and tick i−1 did not |
| Sounds.HeldTransitionTriggersOnce | src/sounds/systems.rs:34-62 | a translation held over several ticks crossfades at most on its first tick |
| Sounds.PlaySounds | src/sounds/systems.rs:65-81 | one effect-channel play per event, in order, with Dash→dash and LvlUp→lvlup |

## Left out

- Velocity integration (`move_towards`, `normalize_or_zero`, the speed clamp) in `player_controller`, `manage_hunters` and `manage_civilians` is an `accelerate`/`integrate` parameter. The model does not state the speed bound.
- The kinematic controller, rapier bodies, projectile spawning, `manage_projectiles` and `process_proj_collisions` are engine physics. Of a shot, the model keeps the intercept point; it drops the projectile's velocity and despawn timer.
- The hunter's Bevy `Timer` is a per-hunter "finished this tick" input, because its internals are engine code.
- NpcSystems.CalculateIntercept: the model returns None whenever the leading coefficient is zero (the target exactly as fast as the projectile). There the source divides by zero with the discriminant b². When the target moves away (b > 0) the time is −∞ and the source also returns None. When it does not (b ≤ 0) the time is 0/0 = NaN, which passes the `t < 0` test, so the source returns a NaN point and the hunter fires a shot with a NaN velocity. f32 infinities and NaN are outside this model.
- The normalisation `dir / dir.length()` of a shot's direction is not modelled. Nor is the NaN direction it gives when the intercept is the hunter's own position.
- The NPC systems' animation calls appear as a list of requests (`AnimIntent`) instead of calls on an `AnimationController`. The controller's own behaviour is modelled in `Animation`.
- Gizmo drawing, sprites, texture atlases, `spawn_*` bundles, LDtk loading (`pre_setup`, `watcher`) and grouping walls by level entity are rendering and asset work. The merge starts from a given wall set, width and height.
- The shown files do not define `TransformToGrid::from_world_i32`, `to_world`, `pathfinder` or the `NpcState` enum. The first three are parameters. The states are the ones the code matches on, plus `Look`.
- `translation_to_grid_coords` (in `process_pathfinding`) is engine code. The model takes the hunter and player cells directly.
- `CharacterAnimation`'s `item_offsets` and `eye_offsets` are always empty in the shown constructors, and nothing reads them.
- `animation_speed` is never changed by the shown code. `Valid` keeps it at 1.
- The fade duration (`TRANSLATION_DURATION`) and the `OutPowf(2)` easing are not shown or only shape the audio. `load_audio` is asset loading.
- The `DayCycle` fields `is_translating` and `is_night` read by `manage_background` are not in the shown `DayCycle` struct. They are inputs of the sound model.
- The `CameraFollow.speed` assignment and the egui sliders in `player_controller` are UI state.
- 32-bit limits are not modelled: an `i32` overflow in `weight` or in `pos + mov`, and the `u32` wrap of `distance`. Grid coordinates stay far below them.
- f32 rounding is not modelled: all floating point is exact real arithmetic, and `sqrt` and `exp` are oracles with the contracts `SqrtSound` and `ExpSound`. Distances are compared through their squares (`SqrtCompare`).
- Camera.ExpDecay: the bounds are proved for non-negative speeds and time steps only. The source does not promise anything for negative ones.
- The `Vec3` form of `exp_decay` (src/core/functions.rs:13-17) is `ExpDecay3`, the float form applied to each component.
- The camera's scale is one number. The source reads `scale.x` and writes a uniform x/y scale with z = 1.
- NpcPathfinder.ProcessPathfinding: the source calls it with the successors as written (`SuccessorFn`). `ProcessedPathsAsWritten` states what that draws. The connectedness of the drawn paths (`ProcessedPathsReachPlayer`) holds only for the corrected successors (see Findings).

## Findings

| source | as written | input that shows it | evidently intended | confidence | as-written member | corrected member |
|---|---|---|---|---|---|---|
| src/npc/pathfinder.rs:25 | `successors` pushes `Pos(mov)`, the raw unit offset, instead of the neighbouring cell | from cell (5,5) with (6,5) trespassable, the only successor is (1,0), nine cells away; a found path then ends at the start or at a unit offset | push `Pos(pos + mov)`, the trespassable neighbour | not executed | NpcPathfinder.AsWrittenSuccessorNotAdjacent | NpcPathfinder.NeighbourPathIsConnected |
