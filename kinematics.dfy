/** Per-entity arithmetic of the engine: boundary reflection in `Entity.step`,
    the clamp of the collision pass, the response of one overlapping pair and
    the outward "kick" after a reaction. `Math.hypot` is not available on the
    reals; callers pass it as a function value `hypot`, and the lemmas that
    need its meaning require IsHypot. */
module Kinematics {

  /** Speed factor of `Entity.step` at temperature T. */
  function LinMul(T: real): real { 0.7 + 0.9 * T }

  /** Rotation factor of `Entity.step` at temperature T. */
  function AngMul(T: real): real { 0.3 + 0.2 * T }

  /** The angle after `step(dt)` at temperature T, from angle rot and
      angular velocity vr. */
  function Turn(rot: real, vr: real, dt: real, T: real): real { rot + vr * dt * AngMul(T) }

  /** Velocity decay applied once per step, whatever dt is. */
  const Damp: real := 0.999

  function Abs(v: real): real { if v < 0.0 then -v else v }

  /** `clamp(v, lo, hi)` = `Math.max(lo, Math.min(hi, v))`. */
  function Clamp(v: real, lo: real, hi: real): (r: real)
    ensures lo <= r
    ensures lo <= hi ==> r <= hi
    ensures lo <= v <= hi ==> r == v
    ensures r == v || r == lo || r == hi
  {
    var m := if v < hi then v else hi;
    if m > lo then m else lo
  }

  /** Position and velocity along one axis. */
  datatype Axis = Axis(p: real, v: real)

  /** The two boundary tests of `Entity.step` on one axis, in source order:
      below lo, move to lo and point the velocity up; then above hi, move to
      hi and point it down. */
  function ReflectAxis(p: real, v: real, lo: real, hi: real): (r: Axis)
    ensures Abs(r.v) == Abs(v)
    ensures lo <= hi ==> lo <= r.p <= hi
    ensures lo <= p <= hi ==> r == Axis(p, v)
    ensures p < lo && lo <= hi ==> r == Axis(lo, Abs(v))
    ensures p > hi && lo <= hi ==> r == Axis(hi, -Abs(v))
    ensures hi < lo ==> r == Axis(hi, -Abs(v))
  {
    var low := if p < lo then Axis(lo, Abs(v)) else Axis(p, v);
    if low.p > hi then Axis(hi, -Abs(low.v)) else low
  }

  /** One axis of `step(dt)` at temperature T: advance the position by the
      velocity, damp the velocity, then reflect between lo and hi. */
  function StepAxis(a: Axis, dt: real, T: real, lo: real, hi: real): (r: Axis)
    ensures lo <= hi ==> lo <= r.p <= hi
    ensures Abs(r.v) == Abs(a.v * Damp)
  {
    var b := Advance(a, dt, T);
    ReflectAxis(b.p, b.v, lo, hi)
  }

  /** The integration of `step(dt)` on one axis: the position moves by the
      velocity scaled by the temperature's speed factor, the velocity
      decays. */
  function Advance(a: Axis, dt: real, T: real): Axis
  {
    Axis(a.p + a.v * dt * LinMul(T), a.v * Damp)
  }

  /** `step(dt)` at temperature T on the motion of an entity of radius cr, on
      a w by h canvas: each axis stepped by StepAxis. An entity that fits the
      canvas ends inside it. */
  function StepMotion(m: Motion, cr: real, dt: real, T: real, w: real, h: real): (r: Motion)
    ensures w >= 2.0 * cr && h >= 2.0 * cr ==> cr <= r.x <= w - cr && cr <= r.y <= h - cr
  {
    var ax := StepAxis(Axis(m.x, m.vx), dt, T, cr, w - cr);
    var ay := StepAxis(Axis(m.y, m.vy), dt, T, cr, h - cr);
    Motion(ax.p, ay.p, ax.v, ay.v)
  }

  /** The quirk of `Entity.step` with dt = 0: an entity inside the box stays
      where it is, yet its speed still decays. */
  lemma DampingAtRest(p: real, v: real, lo: real, hi: real, T: real)
    requires lo <= p <= hi
    ensures ReflectAxis(p + v * 0.0 * LinMul(T), v * Damp, lo, hi) == Axis(p, Damp * v)
    ensures v != 0.0 ==> Abs(Damp * v) < Abs(v)
  {
  }

  /** Kinematic state of an entity that the collision pass and the kick update. */
  datatype Motion = Motion(x: real, y: real, vx: real, vy: real)

  /** `hypot` behaves as `Math.hypot`: the Euclidean length of (dx, dy). */
  ghost predicate IsHypot(hypot: (real, real) -> real) {
    forall dx: real, dy: real :: 0.0 <= hypot(dx, dy) && hypot(dx, dy) * hypot(dx, dy) == dx * dx + dy * dy
  }

  /** Share of the overlap each entity of a pair is pushed by. */
  const PushShare: real := 0.55

  /** Restitution of the velocity exchange along the contact normal. */
  const Restitution: real := 0.9

  /** One pair of the collision pass: a at (x, y), b at distance `dist`
      (`Math.hypot` of b - a), `minD` the sum of their radii. An overlapping
      pair is pushed apart along the normal and, if approaching, exchanges an
      impulse along it. */
  function PairResponse(a: Motion, b: Motion, minD: real, dist: real): (r: (Motion, Motion))
    ensures r.0.x + r.1.x == a.x + b.x && r.0.y + r.1.y == a.y + b.y
    ensures r.0.vx + r.1.vx == a.vx + b.vx && r.0.vy + r.1.vy == a.vy + b.vy
    ensures !(0.0 < dist < minD) ==> r == (a, b)
  {
    if 0.0 < dist < minD then
      PairAlong(a, b, (b.x - a.x) / dist, (b.y - a.y) / dist, (minD - dist) * PushShare)
    else
      (a, b)
  }

  /** The body of the overlap branch, for the normal (nx, ny): each entity
      moves `overlap` along the normal, away from the other, and an
      approaching pair exchanges the impulse 0.9 times its normal speed. */
  function PairAlong(a: Motion, b: Motion, nx: real, ny: real, overlap: real): (r: (Motion, Motion))
    ensures r.0.x + r.1.x == a.x + b.x && r.0.y + r.1.y == a.y + b.y
    ensures r.0.vx + r.1.vx == a.vx + b.vx && r.0.vy + r.1.vy == a.vy + b.vy
  {
    var pushed := PushAlong(a, b, nx, ny, overlap);
    ImpulseAlong(pushed.0, pushed.1, nx, ny)
  }

  /** The impulse for the relative velocity (dvx, dvy) of b against a:
      0.9 times the normal relative speed when approaching, none when
      receding. */
  function Impulse(dvx: real, dvy: real, nx: real, ny: real): real {
    var reln := dvx * nx + dvy * ny;
    if reln < 0.0 then -reln * Restitution else 0.0
  }

  /** The push of an overlapping pair: each entity moves `overlap` along the
      normal (nx, ny), away from the other; velocities are kept. */
  function PushAlong(a: Motion, b: Motion, nx: real, ny: real, overlap: real): (Motion, Motion) {
    (a.(x := a.x - nx * overlap, y := a.y - ny * overlap),
     b.(x := b.x + nx * overlap, y := b.y + ny * overlap))
  }

  /** The velocity exchange of a pair: if approaching along the normal
      (nx, ny), an impulse of 0.9 times the normal relative speed, taken
      from a and given to b along the normal; positions are kept. */
  function ImpulseAlong(a: Motion, b: Motion, nx: real, ny: real): (Motion, Motion) {
    var impulse := Impulse(b.vx - a.vx, b.vy - a.vy, nx, ny);
    (a.(vx := a.vx - impulse * nx, vy := a.vy - impulse * ny),
     b.(vx := b.vx + impulse * nx, vy := b.vy + impulse * ny))
  }

  /** The pair's offset after the push, one coordinate at a time: the push
      adds the overlap share along the normal u / dist on each side. */
  lemma Stretch(u: real, dist: real, e: real)
    requires dist > 0.0
    ensures u + 2.0 * ((u / dist) * ((e - dist) / 2.0)) == (u / dist) * e
  {
    assert (u / dist) * dist == u;
  }

  /** An overlapping pair is pushed apart along the line of its centres until
      its offset is the normal scaled by 1.1 * minD - 0.1 * dist, which exceeds
      minD: one push separates the pair (it overshoots). */
  lemma PairSeparates(a: Motion, b: Motion, minD: real, dist: real)
    requires 0.0 < dist < minD
    ensures var r := PairResponse(a, b, minD, dist);
      var e := dist + 2.0 * PushShare * (minD - dist);
      r.1.x - r.0.x == ((b.x - a.x) / dist) * e && r.1.y - r.0.y == ((b.y - a.y) / dist) * e
    ensures minD < dist + 2.0 * PushShare * (minD - dist)
  {
    var e := dist + 2.0 * PushShare * (minD - dist);
    Stretch(b.x - a.x, dist, e);
    Stretch(b.y - a.y, dist, e);
  }

  /** With a unit normal, adding c along the normal to a relative velocity adds
      c to its normal component. */
  lemma AlongNormal(dvx: real, dvy: real, nx: real, ny: real, c: real)
    requires nx * nx + ny * ny == 1.0
    ensures (dvx + c * nx) * nx + (dvy + c * ny) * ny == dvx * nx + dvy * ny + c
  {
    assert (dvx + c * nx) * nx + (dvy + c * ny) * ny == dvx * nx + dvy * ny + c * (nx * nx + ny * ny);
  }

  /** An approaching overlapping pair leaves with its normal relative speed
      reversed and scaled by 1 - 2 * 0.9 = -0.8, so it separates; a receding
      one keeps it. (nx, ny) is the pair's normal, a unit vector when `dist`
      is the pair's Euclidean distance. */
  lemma PairRestitution(a: Motion, b: Motion, minD: real, dist: real, nx: real, ny: real)
    requires 0.0 < dist < minD
    requires nx == (b.x - a.x) / dist && ny == (b.y - a.y) / dist
    requires nx * nx + ny * ny == 1.0
    ensures var r := PairResponse(a, b, minD, dist);
      var before := (b.vx - a.vx) * nx + (b.vy - a.vy) * ny;
      var after := (r.1.vx - r.0.vx) * nx + (r.1.vy - r.0.vy) * ny;
      after == if before < 0.0 then -0.8 * before else before
  {
    RestitutionAlong(a, b, nx, ny, (minD - dist) * PushShare);
  }

  /** PairRestitution for a given unit normal. */
  lemma RestitutionAlong(a: Motion, b: Motion, nx: real, ny: real, overlap: real)
    requires nx * nx + ny * ny == 1.0
    ensures var r := PairAlong(a, b, nx, ny, overlap);
      var before := (b.vx - a.vx) * nx + (b.vy - a.vy) * ny;
      var after := (r.1.vx - r.0.vx) * nx + (r.1.vy - r.0.vy) * ny;
      after == if before < 0.0 then -0.8 * before else before
  {
    var dvx, dvy := b.vx - a.vx, b.vy - a.vy;
    var reln := dvx * nx + dvy * ny;
    var impulse := Impulse(dvx, dvy, nx, ny);
    var pushed := PushAlong(a, b, nx, ny, overlap);
    assert pushed.0.vx == a.vx && pushed.0.vy == a.vy && pushed.1.vx == b.vx && pushed.1.vy == b.vy;
    var r := ImpulseAlong(pushed.0, pushed.1, nx, ny);
    assert r == PairAlong(a, b, nx, ny, overlap);
    var inx, iny := impulse * nx, impulse * ny;
    assert r.0.vx == a.vx - inx && r.1.vx == b.vx + inx;
    assert r.0.vy == a.vy - iny && r.1.vy == b.vy + iny;
    assert r.1.vx - r.0.vx == dvx + 2.0 * inx;
    assert r.1.vy - r.0.vy == dvy + 2.0 * iny;
    Scale(r.1.vx - r.0.vx, dvx + 2.0 * inx, nx);
    Scale(r.1.vy - r.0.vy, dvy + 2.0 * iny, ny);
    Rebound(dvx, dvy, nx, ny, impulse);
    assert (r.1.vx - r.0.vx) * nx + (r.1.vy - r.0.vy) * ny == if reln < 0.0 then -0.8 * reln else reln;
  }

  /** Equal factors give equal products. */
  lemma Scale(p: real, q: real, c: real)
    requires p == q
    ensures p * c == q * c
  {
  }

  /** The normal relative speed after the exchange of `impulse`, with a unit
      normal. */
  lemma Rebound(dvx: real, dvy: real, nx: real, ny: real, impulse: real)
    requires nx * nx + ny * ny == 1.0
    requires var reln := dvx * nx + dvy * ny;
      impulse == if reln < 0.0 then -reln * Restitution else 0.0
    ensures var reln := dvx * nx + dvy * ny;
      (dvx + 2.0 * (impulse * nx)) * nx + (dvy + 2.0 * (impulse * ny)) * ny == if reln < 0.0 then -0.8 * reln else reln
  {
    var c := 2.0 * impulse;
    assert c * nx == 2.0 * (impulse * nx) && c * ny == 2.0 * (impulse * ny);
    AlongNormal(dvx, dvy, nx, ny, c);
  }

  /** Two entities with the same centre are left alone: the pass never
      divides by a zero distance. */
  lemma CoincidentCentres(hypot: (real, real) -> real, a: Motion, b: Motion, minD: real)
    requires IsHypot(hypot)
    requires a.x == b.x && a.y == b.y
    ensures PairResponse(a, b, minD, hypot(b.x - a.x, b.y - a.y)) == (a, b)
  {
    var d := hypot(b.x - a.x, b.y - a.y);
    assert d * d == 0.0;
  }

  /** Reach and strength of the kick a reaction gives its neighbours. */
  const KickRadius: real := 120.0
  const KickStrength: real := 40.0

  /** The kick of `tryReact` on one entity, `dist` being `Math.hypot` of its
      offset from the reaction site (cx, cy). */
  function KickVelocity(m: Motion, cx: real, cy: real, dist: real): (r: Motion)
    ensures r.x == m.x && r.y == m.y
    ensures !(0.0 < dist < KickRadius) ==> r == m
  {
    if dist < KickRadius && dist > 0.0 then
      var k := (KickRadius - dist) / KickRadius;
      m.(vx := m.vx + ((m.x - cx) / dist) * KickStrength * k,
         vy := m.vy + ((m.y - cy) / dist) * KickStrength * k)
    else
      m
  }

  /** The kick loop of `tryReact` on the motions of the whole list: each
      entity is kicked by its own distance to the site. Nobody moves, and an
      entity whose distance is not strictly between 0 and 120 keeps its
      velocity too. */
  function KickAround(ms: seq<Motion>, cx: real, cy: real, hypot: (real, real) -> real): (r: seq<Motion>)
    ensures |r| == |ms|
    ensures forall k | 0 <= k < |ms| :: r[k].x == ms[k].x && r[k].y == ms[k].y
    ensures forall k | 0 <= k < |ms| :: !(0.0 < hypot(ms[k].x - cx, ms[k].y - cy) < KickRadius) ==> r[k] == ms[k]
  {
    seq(|ms|, k requires 0 <= k < |ms| => KickVelocity(ms[k], cx, cy, hypot(ms[k].x - cx, ms[k].y - cy)))
  }

  /** The kick moves nobody, and leaves alone every entity at the site or at
      least 120 px from it (IsHypot gives the distance its meaning). */
  lemma KickAroundKeeps(ms: seq<Motion>, cx: real, cy: real, hypot: (real, real) -> real, k: nat)
    requires IsHypot(hypot) && k < |ms|
    ensures KickAround(ms, cx, cy, hypot)[k].x == ms[k].x && KickAround(ms, cx, cy, hypot)[k].y == ms[k].y
    ensures (ms[k].x - cx) * (ms[k].x - cx) + (ms[k].y - cy) * (ms[k].y - cy) >= KickRadius * KickRadius ==>
      KickAround(ms, cx, cy, hypot)[k] == ms[k]
    ensures ms[k].x == cx && ms[k].y == cy ==> KickAround(ms, cx, cy, hypot)[k] == ms[k]
  {
    var d := hypot(ms[k].x - cx, ms[k].y - cy);
    assert 0.0 <= d && d * d == (ms[k].x - cx) * (ms[k].x - cx) + (ms[k].y - cy) * (ms[k].y - cy);
    if d < KickRadius {
      assert d * d < KickRadius * KickRadius by {
        assert d * d <= d * KickRadius;
      }
    }
  }

  /** Velocity added per unit of offset by a kick at distance dist. */
  function KickGain(dist: real): real
    requires dist > 0.0
  {
    KickStrength * (KickRadius - dist) / (KickRadius * dist)
  }

  lemma KickReassociate(u: real, dist: real)
    requires dist > 0.0
    ensures (u / dist) * KickStrength * ((KickRadius - dist) / KickRadius) == KickGain(dist) * u
  {
  }

  /** Inside the kick radius the velocity change is a positive multiple of the
      entity's offset from the site: the kick points straight away from it. */
  lemma KickOutward(m: Motion, cx: real, cy: real, dist: real)
    requires 0.0 < dist < KickRadius
    ensures KickGain(dist) > 0.0
    ensures var r := KickVelocity(m, cx, cy, dist);
      r.vx - m.vx == KickGain(dist) * (m.x - cx) && r.vy - m.vy == KickGain(dist) * (m.y - cy)
  {
    KickReassociate(m.x - cx, dist);
    KickReassociate(m.y - cy, dist);
    assert KickStrength * (KickRadius - dist) > 0.0;
    assert KickRadius * dist > 0.0;
  }
}
