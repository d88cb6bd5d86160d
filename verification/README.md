# astroGame hero kinematics in Dafny

A model of the per-frame logic of the astroGame `GameScene`, a SpriteKit
scene with one player-controlled hero and two kinds of sprites, obstacles and
astronauts. Each frame the scene does four things:

- it works out the elapsed time since the previous frame;
- it moves the hero by its velocity over that time (an Euler step);
- it bounces the hero off the screen's left and right edges and the playable
  rect's bottom and top edges, clamping the coordinate and reversing that
  velocity component;
- it turns the hero to face its velocity and removes every obstacle and
  astronaut whose frame, shrunk by 20 points horizontally and 30 vertically,
  meets the hero's frame.

The playable rect is a 16:9 letterbox, centred vertically, built once from the
screen size. A touch sets the hero's velocity to the unit vector towards the
touch at 200 points per second.

Coordinates are exact `real`s. Everything the engine computes is a field of an
`Engine` value passed into the model: the angle of a vector, the hero's frame,
rectangle intersection and vector normalisation. The state is an immutable
`World` record. The node tree's name-tagged children become two sequences of
sprites, one per kind.

Modules:

- `Geometry`: points, vectors, sizes, rectangles with CGRect's standardised
  min/max edges, and `insetBy`.
- `Clock`: the `lastUpdateTime`/`dt` bookkeeping.
- `Kinematics`: the move step, the bounds check and the rotation.
- `Collisions`: the collect-then-remove sweep.
- `Scene`: construction, `update`, `checkCollisions` and the touch response.

Behaviour of the code worth knowing:

- The elapsed time is zero whenever the remembered timestamp is not positive
  (the test is `lastUpdateTime > 0`), not only on the very first frame.
- The bounds check is idempotent on position but not on velocity. A check that
  fired leaves the hero on a bound, and the `<=`/`>=` comparisons fire again on
  a second call, reversing the velocity back (`Kinematics.BoundsCheckTwice`).
  Because the move runs before the bounds check, this matters in a running game
  only when the elapsed time is zero.
- The right-hand bound is the screen width, not the playable rect's right edge.
  The two are equal.
- If the bounds on an axis meet or cross, for example on a screen of zero
  width, both checks of that axis can fire on the same call. Their two
  reversals cancel. `Kinematics.BounceAxis` states this case.

## Model

| member | source | states |
|---|---|---|
| `Clock.Tick` | game1/GameScene.swift:54-60 | the new timestamp is the current time; elapsed time is zero when no positive timestamp was remembered, and otherwise adds to the old timestamp to give the current one; it is non-negative when time does not go backwards |
| `Clock.TotalDtTelescopes` | game1/GameScene.swift:54-60 | over a run of positive timestamps the elapsed times add up to the span from the remembered timestamp to the last one, which becomes the remembered one |
| `Clock.TotalDtFromStart` | game1/GameScene.swift:54-60 | from a fresh scene the first frame adds nothing, so the elapsed times add up to last timestamp minus first |
| `Kinematics.Move` | game1/GameScene.swift:70-76 | the displacement is the velocity scaled by the elapsed time; zero elapsed time or zero velocity leaves the position unchanged |
| `Kinematics.MoveAdditive` | game1/GameScene.swift:70-76 | two steps at one velocity equal one step over the summed time |
| `Kinematics.MoveReversible` | game1/GameScene.swift:70-76 | a step followed by the step over the negated time returns to the start |
| `Kinematics.BounceAxis` | game1/GameScene.swift:117-124 | with ordered bounds the coordinate is clamped; with bounds strictly apart the velocity is reversed exactly when the coordinate was at or beyond a bound; with bounds that meet or cross the coordinate ends on the upper bound and a coordinate at or below the lower bound keeps its velocity (both checks fire); the speed on the axis is always kept |
| `Kinematics.BoundsCheck` | game1/GameScene.swift:111-133 | with ordered bounds the hero ends within them; a hero strictly inside is left exactly as it was; each velocity component is kept or negated; rotation is untouched |
| `Kinematics.BoundsCheckIsClamp` | game1/GameScene.swift:117-132 | with ordered bounds the position is the clamp of each coordinate into its bounds, and it is unchanged exactly when the hero was already within them |
| `Kinematics.BoundsCheckReflects` | game1/GameScene.swift:117-132 | with bounds strictly apart, each check that fires sets its coordinate exactly to its bound and negates that velocity component; components strictly inside keep position and velocity |
| `Kinematics.BoundsCheckPositionIdempotent` | game1/GameScene.swift:117-132 | a second bounds check never changes the position |
| `Kinematics.BoundsCheckTwice` | game1/GameScene.swift:117-132 | with bounds strictly apart, two bounds checks restore the original velocity, so a second check changes the hero exactly when a component it reversed was non-zero |
| `Kinematics.LeftEdgeBounce` | game1/GameScene.swift:117-120 | a hero at x = 0 with x-velocity -50 stays at x = 0 and gets x-velocity +50 |
| `Kinematics.Rotate` | game1/GameScene.swift:135-138 | the facing angle is replaced; position and velocity are untouched |
| `Geometry.InsetBy` | game1/GameScene.swift:188 | every edge of the standardised frame moves inwards, by dx for the left and right edges and by dy for the bottom and top |
| `Collisions.CollectHits` | game1/GameScene.swift:186-191 | the collected list holds exactly the enumerated sprites whose inset frame meets the hero's frame |
| `Collisions.CollectHitsNoDuplicates` | game1/GameScene.swift:186-191 | from a tree without repeated nodes, no node is collected twice, so no node is removed twice |
| `Collisions.RemoveNode` | game1/GameScene.swift:174-180 | removing a node drops exactly that node, and removing a node that is not there changes nothing |
| `Collisions.RemoveNodeIdempotent` | game1/GameScene.swift:174-180 | removing an already removed node changes nothing |
| `Collisions.RemoveEach` | game1/GameScene.swift:193-195 | after removing each collected node, a sprite remains exactly when it was there and was not collected |
| `Collisions.RemoveEachIsWithout` | game1/GameScene.swift:193-195 | the removal pass equals filtering out the collected nodes, keeping the order of the rest |
| `Collisions.WithoutHitsIsSurvivors` | game1/GameScene.swift:183-195 | filtering out a list that holds exactly the hit sprites gives the reference list of survivors |
| `Collisions.Sweep` | game1/GameScene.swift:183-195 | collect-then-remove yields the reference survivors: a sprite stays exactly when it is not hit, in the original order, and the list never grows |
| `Collisions.SurvivorsPartition` | game1/GameScene.swift:183-195 | survivors and collected hits together are the original sprites as a multiset, so each sprite is either kept or removed, exactly once |
| `Collisions.SweepIdempotent` | game1/GameScene.swift:183-195 | a second sweep against the same hero frame removes nothing more |
| `Scene.PlayableRect` | game1/GameScene.swift:13-19 | x is 0, width is the screen width, height is the width times 9/16, and minY + maxY equals the screen height, so the rect is vertically centred |
| `Scene.PlayableRectFitsScreen` | game1/GameScene.swift:14-19 | on a screen of non-negative width the letterbox is within the screen exactly when the screen height is at least 9/16 of its width; its vertical extent is that 9/16 of the width |
| `Scene.BoundsOf` | game1/GameScene.swift:112-113 | the bounds are x from 0 to the screen width and y over the playable rect; they are ordered exactly when the width is not negative |
| `Scene.NewScene` | game1/GameScene.swift:7-30 | a new scene keeps the given size, has the derived playable rect, a fresh clock and no sprites; its hero starts at the screen centre with zero velocity and rotation 0, within the bounds, and strictly inside them on a screen of positive width |
| `Scene.CheckCollisions` | game1/GameScene.swift:182-207 | the hero, size, playable rect and clock are unchanged; an obstacle or astronaut stays exactly when its inset frame does not meet the hero's frame, and the survivors keep their order |
| `Scene.CheckCollisionsIdempotent` | game1/GameScene.swift:182-207 | a second collision check against the same hero removes nothing more |
| `Scene.Update` | game1/GameScene.swift:54-67 | the clock is ticked to the current time, keeping the new elapsed time; with a non-negative width the hero ends at the clamp of its Euler step over that elapsed time into the bounds, so within them from any starting position when the width is not negative; the hero faces its final velocity; each velocity component is kept or negated; the sprites left are exactly those the final hero does not hit |
| `Scene.UpdateBounces` | game1/GameScene.swift:63-64 | with bounds strictly apart, a coordinate the Euler step took to or past a bound is pinned to it and that velocity component negated; a coordinate the step left strictly inside keeps the stepped value and its velocity |
| `Scene.SceneInvariantHolds` | game1/GameScene.swift:54-67 | a new scene satisfies the invariant (derived playable rect, non-negative width, hero in bounds) and every update keeps it |
| `Scene.FirstFrameKeepsHero` | game1/GameScene.swift:55-64 | on the first frame a hero strictly inside its bounds keeps its position and velocity |
| `Scene.InteriorFrameIsEulerStep` | game1/GameScene.swift:54-64 | when the step lands strictly inside the bounds, the hero moves by its velocity times the time since the previous frame, and its velocity is unchanged |
| `Scene.SceneTouched` | game1/GameScene.swift:78-88 | a touch sets the velocity to the normalised offset towards the touch times 200; position, rotation and the rest of the world are unchanged |
| `Scene.TouchSetsSpeed` | game1/GameScene.swift:78-82 | when the normalisation gives a true unit vector, the hero's speed after a touch is exactly 200, aimed at the touch |
| `Scene.TouchAboveScenario` | game1/GameScene.swift:78-82 | a hero at (400, 300) touched at (400, 500) gets velocity (0, 200) |

## Left out

- Rendering and the rest of the scene lifecycle. This covers the background colour, the hero's scale and name, `addChild`, and the initial astronaut spawn in `didMove(to:)`. It is engine plumbing, and only the hero's starting position is modelled.
- The repeating spawn timers and `spawnObstacle`/`spawnAstronaut`. Spawning depends on `CGFloat.random` and on engine-timed actions: an obstacle's move across the screen and its removal after two seconds. Sprites enter the model only as the lists a world holds.
- The touch handlers `touchesBegan`/`touchesMoved`. They only pick the first touch of the set and forward its location. The model starts at `sceneTouched`.
- `normalized()` and `angle`. Both are float numerics (a square root and `atan2`) defined in extensions that are not part of this model. They are fields of `Engine`. `TouchSetsSpeed` and `TouchAboveScenario` assume a normalisation that gives a unit vector. A zero offset is not treated specially.
- The hero's `frame`. The engine computes it from texture, scale and rotation, so it is the `heroFrame` field of `Engine`.
- `CGRect.intersects`, including its treatment of touching edges and empty rects. It is the abstract `intersects` field of `Engine`.
- Geometry.InsetBy: does not model the null rectangle `insetBy` returns when the inset would make the rect empty. The inverted rect is handed to `intersects` instead.
- CGFloat rounding: all arithmetic is on exact reals.
- The CGPoint operators `+=`, `-` and `*` used by `move` and `MoveHeroToward` come from extensions that are not part of this model. `Geometry.Add`, `Geometry.Sub` and `Geometry.Scale` take them to act component by component.
- `init(coder:)`, which only aborts, and the `print` in `rotate`: neither holds domain logic.
- The scene's `astronaut` sprite property, which is never used. The scene's `obstacle` property is read only for its size by `spawnAstronaut`, which is left out. Also, the astronaut removal loop calls `heroHit(obstacle:)` where `heroHit(astronaut:)` was evidently meant. Both just call `removeFromParent`, so the behaviour is the same, and `Collisions.RemoveNode` models both.
- Node identity in the tree is an `id` per sprite. Removing a node removes every occurrence of an equal sprite. In a node tree there is exactly one.
