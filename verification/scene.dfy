/** The game scene: construction from the screen size, the per-frame update
    and the touch response, over an explicit world state. */
module Scene {
  import opened Geometry
  import opened Kinematics
  import opened Collisions
  import Clock

  /** The hero's speed, in points per second, after any touch. */
  const HeroMovePointsPerSec: real := 200.0

  /** The 16:9 aspect ratio the playable area is fitted to. */
  const MaxAspectRatio: real := 16.0 / 9.0

  /** Everything the engine computes that the model does not: the facing
      angle of a velocity, the hero's frame (which depends on its texture,
      scale and rotation), the rectangle intersection test, and the unit
      vector of an offset. */
  datatype Engine = Engine(
    angle: Vector -> real,
    heroFrame: Hero -> Rect,
    intersects: Intersects,
    normalize: Vector -> Vector)

  /** The scene's state: screen size, playable rect, frame clock, hero, and
      the live sprites partitioned by kind. */
  datatype World = World(
    size: Size,
    playable: Rect,
    clock: Clock.Clock,
    hero: Hero,
    obstacles: seq<Sprite>,
    astronauts: seq<Sprite>)

  /** The playable rect: the full screen width, the height that width has
      at 16:9, centred vertically on the screen. */
  function PlayableRect(size: Size): (r: Rect)
    ensures r.x == 0.0 && r.width == size.width
    ensures r.height == size.width * 9.0 / 16.0
    ensures MinY(r) + MaxY(r) == size.height
  {
    var playableHeight := size.width / MaxAspectRatio;
    var playableMargin := (size.height - playableHeight) / 2.0;
    Rect(0.0, playableMargin, size.width, playableHeight)
  }

  /** On a screen of non-negative width the letterbox lies within the screen
      exactly when the screen is at least as tall as 16:9 makes the width. */
  lemma PlayableRectFitsScreen(size: Size)
    requires 0.0 <= size.width
    ensures var r := PlayableRect(size);
      0.0 <= MinY(r) && MaxY(r) <= size.height <==> size.width * 9.0 / 16.0 <= size.height
    ensures MaxY(PlayableRect(size)) - MinY(PlayableRect(size)) == size.width * 9.0 / 16.0
  {
  }

  /** The bounds the bounds check reads: x from zero to the screen width,
      y over the playable rect. */
  function BoundsOf(w: World): (b: Bounds)
    ensures WellFormed(b) <==> 0.0 <= w.size.width
    ensures b.left == 0.0 && b.right == w.size.width
    ensures b.bottom == MinY(w.playable) && b.top == MaxY(w.playable)
  {
    EdgesOrdered(w.playable);
    Bounds(0.0, w.size.width, MinY(w.playable), MaxY(w.playable))
  }

  /** A constructed scene whose hero has been placed at the screen centre,
      at rest and unrotated, with no sprites spawned yet. */
  function NewScene(size: Size): (w: World)
    ensures w.size == size && w.playable == PlayableRect(size) && w.clock == Clock.Start
    ensures w.hero == Hero(Point(size.width / 2.0, size.height / 2.0), Vector(0.0, 0.0), 0.0)
    ensures w.obstacles == [] && w.astronauts == []
    ensures 0.0 <= size.width ==> InBounds(w.hero.pos, BoundsOf(w))
    ensures 0.0 < size.width ==> StrictlyInside(w.hero.pos, BoundsOf(w))
  {
    World(size, PlayableRect(size), Clock.Start,
          Hero(Point(size.width / 2.0, size.height / 2.0), Vector(0.0, 0.0), 0.0),
          [], [])
  }

  /** The scene invariant: the playable rect is the one derived from the
      screen size, the screen width is not negative, and the hero is within
      its bounds. */
  predicate SceneInvariant(w: World)
  {
    && w.playable == PlayableRect(w.size)
    && 0.0 <= w.size.width
    && InBounds(w.hero.pos, BoundsOf(w))
  }

  /** `checkCollisions`: one sweep over the obstacles, then one over the
      astronauts, both against the hero's current frame. */
  function CheckCollisions(w: World, eng: Engine): (r: World)
    ensures r.hero == w.hero && r.size == w.size && r.playable == w.playable && r.clock == w.clock
    ensures forall s :: (s in r.obstacles
                         <==> s in w.obstacles && !Hit(s, eng.heroFrame(w.hero), eng.intersects))
    ensures forall s :: (s in r.astronauts
                         <==> s in w.astronauts && !Hit(s, eng.heroFrame(w.hero), eng.intersects))
    ensures r.obstacles == Survivors(w.obstacles, eng.heroFrame(w.hero), eng.intersects)
    ensures r.astronauts == Survivors(w.astronauts, eng.heroFrame(w.hero), eng.intersects)
  {
    var frame := eng.heroFrame(w.hero);
    w.(obstacles := Sweep(w.obstacles, frame, eng.intersects),
       astronauts := Sweep(w.astronauts, frame, eng.intersects))
  }

  /** A second collision check against the same hero removes nothing more. */
  lemma CheckCollisionsIdempotent(w: World, eng: Engine)
    ensures CheckCollisions(CheckCollisions(w, eng), eng) == CheckCollisions(w, eng)
  {
    var frame := eng.heroFrame(w.hero);
    SweepIdempotent(w.obstacles, frame, eng.intersects);
    SweepIdempotent(w.astronauts, frame, eng.intersects);
  }

  /** `update`: tick the clock, move the hero by the new elapsed time, bounce
      it off the bounds, turn it to face its velocity, and sweep for hits.
      The hero ends at the clamp of its Euler step over the new elapsed time,
      within the bounds whatever its position before, and the sprites left are
      exactly those the final hero does not hit. */
  function Update(w: World, currentTime: real, eng: Engine): (r: World)
    ensures r.clock == Clock.Tick(w.clock, currentTime)
    ensures r.clock.lastUpdateTime == currentTime
    ensures var m := Move(w.hero.pos, w.hero.vel, Clock.Tick(w.clock, currentTime).dt);
      0.0 <= w.size.width ==>
        r.hero.pos == Point(Clamp(m.x, 0.0, w.size.width), Clamp(m.y, MinY(w.playable), MaxY(w.playable)))
    ensures r.size == w.size && r.playable == w.playable
    ensures 0.0 <= w.size.width ==> InBounds(r.hero.pos, BoundsOf(r))
    ensures r.hero.rotation == eng.angle(r.hero.vel)
    ensures r.hero.vel.x == w.hero.vel.x || r.hero.vel.x == -w.hero.vel.x
    ensures r.hero.vel.y == w.hero.vel.y || r.hero.vel.y == -w.hero.vel.y
    ensures forall s :: (s in r.obstacles
                         <==> s in w.obstacles && !Hit(s, eng.heroFrame(r.hero), eng.intersects))
    ensures forall s :: (s in r.astronauts
                         <==> s in w.astronauts && !Hit(s, eng.heroFrame(r.hero), eng.intersects))
  {
    var clock := Clock.Tick(w.clock, currentTime);
    var moved := w.hero.(pos := Move(w.hero.pos, w.hero.vel, clock.dt));
    var bounced := BoundsCheck(moved, BoundsOf(w));
    var rotated := Rotate(bounced, eng.angle(bounced.vel));
    CheckCollisions(w.(clock := clock, hero := rotated), eng)
  }

  /** With bounds strictly apart, a frame reverses exactly the velocity
      components whose coordinate the Euler step took to or past a bound, and
      pins that coordinate to the bound. */
  lemma UpdateBounces(w: World, currentTime: real, eng: Engine)
    requires NonDegenerate(BoundsOf(w))
    ensures var m := Move(w.hero.pos, w.hero.vel, Clock.Tick(w.clock, currentTime).dt);
      var b := BoundsOf(w);
      var h := Update(w, currentTime, eng).hero;
      && (m.x <= b.left ==> h.pos.x == b.left && h.vel.x == -w.hero.vel.x)
      && (m.x >= b.right ==> h.pos.x == b.right && h.vel.x == -w.hero.vel.x)
      && (b.left < m.x < b.right ==> h.pos.x == m.x && h.vel.x == w.hero.vel.x)
      && (m.y <= b.bottom ==> h.pos.y == b.bottom && h.vel.y == -w.hero.vel.y)
      && (m.y >= b.top ==> h.pos.y == b.top && h.vel.y == -w.hero.vel.y)
      && (b.bottom < m.y < b.top ==> h.pos.y == m.y && h.vel.y == w.hero.vel.y)
  {
    var m := Move(w.hero.pos, w.hero.vel, Clock.Tick(w.clock, currentTime).dt);
    BoundsCheckReflects(w.hero.(pos := m), BoundsOf(w));
  }

  /** The scene invariant holds from construction on, and every update keeps it. */
  lemma SceneInvariantHolds(size: Size, w: World, currentTime: real, eng: Engine)
    requires 0.0 <= size.width
    requires SceneInvariant(w)
    ensures SceneInvariant(NewScene(size))
    ensures SceneInvariant(Update(w, currentTime, eng))
  {
  }

  /** On the first frame the elapsed time is zero, so a hero strictly inside
      its bounds keeps its position and velocity. */
  lemma FirstFrameKeepsHero(w: World, currentTime: real, eng: Engine)
    requires w.clock.lastUpdateTime <= 0.0
    requires StrictlyInside(w.hero.pos, BoundsOf(w))
    ensures Update(w, currentTime, eng).hero.pos == w.hero.pos
    ensures Update(w, currentTime, eng).hero.vel == w.hero.vel
  {
  }

  /** A frame whose Euler step lands strictly inside the bounds moves the hero
      by its velocity over the elapsed time since the previous frame, and
      leaves the velocity alone. */
  lemma InteriorFrameIsEulerStep(w: World, currentTime: real, eng: Engine)
    requires w.clock.lastUpdateTime > 0.0
    requires StrictlyInside(Move(w.hero.pos, w.hero.vel, currentTime - w.clock.lastUpdateTime), BoundsOf(w))
    ensures Update(w, currentTime, eng).hero.pos
         == Add(w.hero.pos, Scale(w.hero.vel, currentTime - w.clock.lastUpdateTime))
    ensures Update(w, currentTime, eng).hero.vel == w.hero.vel
  {
  }

  /** `sceneTouched`/`MoveHeroToward`: the velocity becomes the unit vector
      towards the touch, at the hero's fixed speed; nothing else changes. */
  function SceneTouched(w: World, location: Point, eng: Engine): (r: World)
    ensures r.hero.pos == w.hero.pos && r.hero.rotation == w.hero.rotation
    ensures r.hero.vel == Scale(eng.normalize(Sub(location, w.hero.pos)), HeroMovePointsPerSec)
    ensures r == w.(hero := r.hero)
  {
    var offset := Sub(location, w.hero.pos);
    var direction := eng.normalize(offset);
    w.(hero := w.hero.(vel := Scale(direction, HeroMovePointsPerSec)))
  }

  /** `u` is the unit vector pointing the same way as `o`. */
  ghost predicate UnitAlong(u: Vector, o: Vector)
  {
    SquaredLength(u) == 1.0 && exists k: real :: k > 0.0 && u == Scale(o, k)
  }

  /** When the engine's normalisation is a true unit vector, a touch gives
      the hero exactly its fixed speed, aimed at the touch. */
  lemma TouchSetsSpeed(w: World, location: Point, eng: Engine)
    requires UnitAlong(eng.normalize(Sub(location, w.hero.pos)), Sub(location, w.hero.pos))
    ensures SquaredLength(SceneTouched(w, location, eng).hero.vel)
         == HeroMovePointsPerSec * HeroMovePointsPerSec
    ensures exists k: real :: (k > 0.0
                            && SceneTouched(w, location, eng).hero.vel == Scale(Sub(location, w.hero.pos), k))
  {
    var o := Sub(location, w.hero.pos);
    var u := eng.normalize(o);
    var k :| k > 0.0 && u == Scale(o, k);
    var v := SceneTouched(w, location, eng).hero.vel;
    assert v == Scale(o, k * HeroMovePointsPerSec);
    assert SquaredLength(v) == SquaredLength(u) * (HeroMovePointsPerSec * HeroMovePointsPerSec);
  }

  /** The hero at (400, 300) touched at (400, 500) heads straight up at 200
      points per second. */
  lemma TouchAboveScenario(w: World, eng: Engine)
    requires w.hero.pos == Point(400.0, 300.0)
    requires UnitAlong(eng.normalize(Vector(0.0, 200.0)), Vector(0.0, 200.0))
    ensures SceneTouched(w, Point(400.0, 500.0), eng).hero.vel == Vector(0.0, 200.0)
  {
    var u := eng.normalize(Vector(0.0, 200.0));
    var k :| k > 0.0 && u == Scale(Vector(0.0, 200.0), k);
    assert u.x == 0.0;
    assert u.y > 0.0;
    assert u.y * u.y == 1.0;
    if u.y < 1.0 {
      assert false;
    } else if u.y > 1.0 {
      assert false;
    }
  }
}
