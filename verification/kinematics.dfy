/** The hero's per-frame kinematics: the Euler move, the bounce off the screen
    and playable-rect bounds, and the facing rotation. */
module Kinematics {
  import opened Geometry

  /** The hero sprite's position and facing angle, together with the scene's
      `velocity` variable, which only ever drives the hero. */
  datatype Hero = Hero(pos: Point, vel: Vector, rotation: real)

  /** The four bounds the hero is kept within: the screen's horizontal extent
      and the playable rect's vertical one. */
  datatype Bounds = Bounds(left: real, right: real, bottom: real, top: real)

  predicate WellFormed(b: Bounds)
  {
    b.left <= b.right && b.bottom <= b.top
  }

  /** Each pair of opposite bounds is strictly apart. */
  predicate NonDegenerate(b: Bounds)
  {
    b.left < b.right && b.bottom < b.top
  }

  predicate InBounds(p: Point, b: Bounds)
  {
    b.left <= p.x <= b.right && b.bottom <= p.y <= b.top
  }

  predicate StrictlyInside(p: Point, b: Bounds)
  {
    b.left < p.x < b.right && b.bottom < p.y < b.top
  }

  /** One Euler step: the position advances by the velocity over `dt`. */
  function Move(p: Point, v: Vector, dt: real): (r: Point)
    ensures Sub(r, p) == Scale(v, dt)
    ensures dt == 0.0 ==> r == p
    ensures v == Vector(0.0, 0.0) ==> r == p
  {
    Add(p, Vector(v.x * dt, v.y * dt))
  }

  /** Two consecutive steps at the same velocity are one step over the summed time. */
  lemma MoveAdditive(p: Point, v: Vector, dt1: real, dt2: real)
    ensures Move(Move(p, v, dt1), v, dt2) == Move(p, v, dt1 + dt2)
  {
  }

  /** A step is undone by the step over the negated time. */
  lemma MoveReversible(p: Point, v: Vector, dt: real)
    ensures Move(Move(p, v, dt), v, -dt) == p
  {
  }

  /** One coordinate of the hero with its velocity component. */
  datatype Axis = Axis(pos: real, vel: real)

  /** The lower-bound check: at or beyond the bound, the coordinate is pinned
      to it and the velocity component reversed. */
  function CheckLow(a: Axis, lo: real): Axis
  {
    if a.pos <= lo then Axis(lo, -a.vel) else a
  }

  /** The upper-bound check, the mirror image of `CheckLow`. */
  function CheckHigh(a: Axis, hi: real): Axis
  {
    if a.pos >= hi then Axis(hi, -a.vel) else a
  }

  /** Clamping of `v` into `[lo, hi]`, the reference the bounce is measured against. */
  function Clamp(v: real, lo: real, hi: real): real
  {
    Max(lo, Min(v, hi))
  }

  /** The two checks of one axis, lower bound first. With ordered bounds the
      coordinate is clamped; with bounds strictly apart the velocity is reversed
      exactly when the coordinate was at or beyond one of them; with bounds that
      meet or cross, the coordinate ends on the upper bound and both checks fire
      for a coordinate at or below the lower one, which leaves the velocity as it
      was. The velocity's magnitude is kept in every case. */
  function BounceAxis(a: Axis, lo: real, hi: real): (r: Axis)
    ensures lo <= hi ==> r.pos == Clamp(a.pos, lo, hi)
    ensures lo < hi ==> r.vel == (if a.pos <= lo || a.pos >= hi then -a.vel else a.vel)
    ensures hi <= lo ==> r.pos == hi && r.vel == (if a.pos <= lo then a.vel else -a.vel)
    ensures r.vel == a.vel || r.vel == -a.vel
  {
    CheckHigh(CheckLow(a, lo), hi)
  }

  /** `boundsCheckHero`: the x checks against the screen edges, then the y
      checks against the playable rect. The axes do not interact, so running
      each axis's pair of checks in turn is the source's order of four checks. */
  function BoundsCheck(h: Hero, b: Bounds): (r: Hero)
    ensures WellFormed(b) ==> InBounds(r.pos, b)
    ensures StrictlyInside(h.pos, b) ==> r == h
    ensures r.vel.x == h.vel.x || r.vel.x == -h.vel.x
    ensures r.vel.y == h.vel.y || r.vel.y == -h.vel.y
    ensures r.rotation == h.rotation
  {
    var ax := BounceAxis(Axis(h.pos.x, h.vel.x), b.left, b.right);
    var ay := BounceAxis(Axis(h.pos.y, h.vel.y), b.bottom, b.top);
    Hero(Point(ax.pos, ay.pos), Vector(ax.vel, ay.vel), h.rotation)
  }

  /** With ordered bounds the bounds check clamps the position, and it leaves
      the position alone exactly when the hero is already within the bounds. */
  lemma BoundsCheckIsClamp(h: Hero, b: Bounds)
    requires WellFormed(b)
    ensures BoundsCheck(h, b).pos
         == Point(Clamp(h.pos.x, b.left, b.right), Clamp(h.pos.y, b.bottom, b.top))
    ensures BoundsCheck(h, b).pos == h.pos <==> InBounds(h.pos, b)
  {
  }

  /** With bounds strictly apart, a velocity component is reversed exactly
      when its coordinate was at or beyond one of its bounds, and the
      coordinate then sits exactly on that bound. */
  lemma BoundsCheckReflects(h: Hero, b: Bounds)
    requires NonDegenerate(b)
    ensures var r := BoundsCheck(h, b);
      && (h.pos.x <= b.left ==> r.pos.x == b.left && r.vel.x == -h.vel.x)
      && (h.pos.x >= b.right ==> r.pos.x == b.right && r.vel.x == -h.vel.x)
      && (b.left < h.pos.x < b.right ==> r.pos.x == h.pos.x && r.vel.x == h.vel.x)
      && (h.pos.y <= b.bottom ==> r.pos.y == b.bottom && r.vel.y == -h.vel.y)
      && (h.pos.y >= b.top ==> r.pos.y == b.top && r.vel.y == -h.vel.y)
      && (b.bottom < h.pos.y < b.top ==> r.pos.y == h.pos.y && r.vel.y == h.vel.y)
  {
  }

  /** A second bounds check never moves the hero further. */
  lemma BoundsCheckPositionIdempotent(h: Hero, b: Bounds)
    ensures BoundsCheck(BoundsCheck(h, b), b).pos == BoundsCheck(h, b).pos
  {
  }

  /** A check that fired left the hero resting on a bound, and the `<=`/`>=`
      comparisons fire again on the next call: with bounds strictly apart a
      second call reverses the velocity back to what it was before the first.
      The bounds check is therefore idempotent on the whole hero exactly when
      every component it reversed was zero. */
  lemma BoundsCheckTwice(h: Hero, b: Bounds)
    requires NonDegenerate(b)
    ensures BoundsCheck(BoundsCheck(h, b), b).vel == h.vel
    ensures BoundsCheck(BoundsCheck(h, b), b) == BoundsCheck(h, b)
        <==> && (h.pos.x <= b.left || h.pos.x >= b.right ==> h.vel.x == 0.0)
             && (h.pos.y <= b.bottom || h.pos.y >= b.top ==> h.vel.y == 0.0)
  {
  }

  /** A hero on the left edge heading out at 50 points per second keeps its
      position and heads back in at the same speed. */
  lemma LeftEdgeBounce(h: Hero, b: Bounds)
    requires b.left == 0.0 < b.right
    requires h.pos.x == 0.0 && h.vel.x == -50.0
    ensures BoundsCheck(h, b).pos.x == 0.0 && BoundsCheck(h, b).vel.x == 50.0
  {
  }

  /** The rotation step: the facing angle, computed by the engine from the
      velocity, replaces the old one; position and velocity are untouched. */
  function Rotate(h: Hero, angle: real): (r: Hero)
    ensures r.pos == h.pos && r.vel == h.vel
    ensures r.rotation == angle
  {
    h.(rotation := angle)
  }
}
