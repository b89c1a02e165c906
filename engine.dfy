/** The running simulation: entities are objects whose fields `step`, the
    collision pass and the reaction kick update in place, and the simulation
    owns the list of entities that `removeSome` splices and `spawn` appends
    to. Every method is tied to the value model: `Snap` reads the list as
    bodies, `MotionOf` an entity's position and velocity. */
module Engine {

  import opened Catalog
  import opened Seqs
  import opened Store
  import opened Kinematics
  import opened Controls
  import opened Reaction
  import opened Collisions

  /** One molecule on the canvas. */
  class Entity {
    const species: Species
    const cr: real := CollisionRadius(species)
    var x: real
    var y: real
    var vx: real
    var vy: real
    var rot: real
    var vr: real

    /** `new Entity(type, x, y, vx, vy, rot, vr)`: the collision radius comes
        from the species' template. */
    constructor (species: Species, x: real, y: real, vx: real, vy: real, rot: real, vr: real)
      ensures this.species == species && cr == CollisionRadius(species)
      ensures this.x == x && this.y == y && this.vx == vx && this.vy == vy
      ensures this.rot == rot && this.vr == vr
    {
      this.species := species;
      this.x, this.y := x, y;
      this.vx, this.vy := vx, vy;
      this.rot, this.vr := rot, vr;
    }

    /** Inside the canvas of width w and height h, keeping the radius from
        every edge. */
    predicate Contained(w: real, h: real)
      reads this
    {
      cr <= x <= w - cr && cr <= y <= h - cr
    }

    /** `step(dt)` at temperature T on a w by h canvas: move, spin and damp,
        then reflect off each edge the entity crossed. */
    method Step(dt: real, T: real, w: real, h: real)
      modifies this
      ensures SteppedFrom(this, old(x), old(y), old(vx), old(vy), old(rot), old(vr), dt, T, w, h)
      ensures w >= 2.0 * cr && h >= 2.0 * cr ==> Contained(w, h)
    {
      Move(dt, T);
      Bounce(w, h);
    }

    /** The integration half of `step`: positions advance by the velocity
        scaled by the temperature's speed factor, the angle by the angular
        velocity scaled by its rotation factor, and the velocity decays. */
    method Move(dt: real, T: real)
      modifies this
      ensures Axis(x, vx) == Advance(Axis(old(x), old(vx)), dt, T)
      ensures Axis(y, vy) == Advance(Axis(old(y), old(vy)), dt, T)
      ensures rot == Turn(old(rot), old(vr), dt, T) && vr == old(vr)
    {
      var linMul := LinMul(T);
      var angMul := AngMul(T);
      x := x + vx * dt * linMul;
      y := y + vy * dt * linMul;
      rot := rot + vr * dt * angMul;
      vx := vx * Damp;
      vy := vy * Damp;
    }

    /** The kick of `tryReact` on this entity, `dd` being `Math.hypot` of its
        offset from the reaction site (cx, cy). */
    method Kick(cx: real, cy: real, dd: real)
      modifies this
      ensures MotionOf(this) == KickVelocity(old(MotionOf(this)), cx, cy, dd)
      ensures rot == old(rot) && vr == old(vr)
    {
      if dd < KickRadius && dd > 0.0 {
        var k := (KickRadius - dd) / KickRadius;
        vx := vx + ((x - cx) / dd) * KickStrength * k;
        vy := vy + ((y - cy) / dd) * KickStrength * k;
      }
    }

    /** The clamp that ends this entity's turn in `resolveCollisions`. */
    method ClampInto(w: real, h: real)
      modifies this
      ensures x == Clamp(old(x), cr, w - cr) && y == Clamp(old(y), cr, h - cr)
      ensures vx == old(vx) && vy == old(vy) && rot == old(rot) && vr == old(vr)
      ensures cr <= x && cr <= y
      ensures w >= 2.0 * cr && h >= 2.0 * cr ==> Contained(w, h)
    {
      x := Clamp(x, cr, w - cr);
      y := Clamp(y, cr, h - cr);
    }

    /** The boundary half of `step`: each axis is reflected by ReflectAxis
        between the radius and the far edge less the radius. */
    method Bounce(w: real, h: real)
      modifies this
      ensures Axis(x, vx) == ReflectAxis(old(x), old(vx), cr, w - cr)
      ensures Axis(y, vy) == ReflectAxis(old(y), old(vy), cr, h - cr)
      ensures rot == old(rot) && vr == old(vr)
      ensures w >= 2.0 * cr && h >= 2.0 * cr ==> Contained(w, h)
    {
      var r := cr;
      if x < r { x := r; vx := Abs(vx); }
      if x > w - r { x := w - r; vx := -Abs(vx); }
      if y < r { y := r; vy := Abs(vy); }
      if y > h - r { y := h - r; vy := -Abs(vy); }
    }
  }

  /** Entity e holds what `step(dt)` at temperature T on a w by h canvas
      makes of an entity at (x, y) with velocity (vx, vy), angle rot and
      angular velocity vr: each axis advanced, damped and reflected by
      ReflectAxis, the angle advanced. */
  predicate SteppedFrom(e: Entity, x: real, y: real, vx: real, vy: real, rot: real, vr: real,
                       dt: real, T: real, w: real, h: real)
    reads e
  {
    Axis(e.x, e.vx) == StepAxis(Axis(x, vx), dt, T, e.cr, w - e.cr) &&
    Axis(e.y, e.vy) == StepAxis(Axis(y, vy), dt, T, e.cr, h - e.cr) &&
    e.rot == Turn(rot, vr, dt, T) && e.vr == vr
  }

  /** A stepped entity has the motion StepMotion computes. */
  lemma SteppedMotion(e: Entity, x: real, y: real, vx: real, vy: real, rot: real, vr: real,
                      dt: real, T: real, w: real, h: real)
    requires SteppedFrom(e, x, y, vx, vy, rot, vr, dt, T, w, h)
    ensures MotionOf(e) == StepMotion(Motion(x, y, vx, vy), e.cr, dt, T, w, h)
  {
  }

  /** Entity e has the motion the kick around (cx, cy) gives an entity at
      (x, y) with velocity (vx, vy), at distance `hypot` of its offset from
      the site. */
  predicate KickedFrom(e: Entity, x: real, y: real, vx: real, vy: real, cx: real, cy: real, hypot: (real, real) -> real)
    reads e
  {
    MotionOf(e) == KickVelocity(Motion(x, y, vx, vy), cx, cy, hypot(x - cx, y - cy))
  }

  /** One pair (a, b) of `resolveCollisions`, with a before b in the list:
      an overlapping pair is pushed apart along the line of centres and, if
      approaching, exchanges an impulse along it. */
  method Collide(a: Entity, b: Entity, hypot: (real, real) -> real)
    requires a != b
    modifies a, b
    ensures (MotionOf(a), MotionOf(b)) ==
      PairResponse(old(MotionOf(a)), old(MotionOf(b)), a.cr + b.cr, hypot(old(b.x) - old(a.x), old(b.y) - old(a.y)))
    ensures a.rot == old(a.rot) && a.vr == old(a.vr) && b.rot == old(b.rot) && b.vr == old(b.vr)
  {
    ghost var m0, m1 := MotionOf(a), MotionOf(b);
    var dist := hypot(b.x - a.x, b.y - a.y);
    var minD := a.cr + b.cr;
    if dist > 0.0 && dist < minD {
      var nx, ny := (b.x - a.x) / dist, (b.y - a.y) / dist;
      var overlap := (minD - dist) * PushShare;
      Separate(a, b, nx, ny, overlap);
      Exchange(a, b, nx, ny);
    }
  }

  /** The push of an overlapping pair: each entity moves `overlap` along the
      normal (nx, ny), away from the other. */
  method Separate(a: Entity, b: Entity, nx: real, ny: real, overlap: real)
    requires a != b
    modifies a, b
    ensures (MotionOf(a), MotionOf(b)) == PushAlong(old(MotionOf(a)), old(MotionOf(b)), nx, ny, overlap)
    ensures a.rot == old(a.rot) && a.vr == old(a.vr) && b.rot == old(b.rot) && b.vr == old(b.vr)
  {
    a.x, a.y := a.x - nx * overlap, a.y - ny * overlap;
    b.x, b.y := b.x + nx * overlap, b.y + ny * overlap;
  }

  /** The velocity exchange of an approaching pair: an impulse of 0.9 times
      the normal relative speed, taken from a and given to b along (nx, ny). */
  method Exchange(a: Entity, b: Entity, nx: real, ny: real)
    requires a != b
    modifies a, b
    ensures (MotionOf(a), MotionOf(b)) == ImpulseAlong(old(MotionOf(a)), old(MotionOf(b)), nx, ny)
    ensures a.rot == old(a.rot) && a.vr == old(a.vr) && b.rot == old(b.rot) && b.vr == old(b.vr)
  {
    ghost var r := ImpulseAlong(MotionOf(a), MotionOf(b), nx, ny);
    var reln := (b.vx - a.vx) * nx + (b.vy - a.vy) * ny;
    if reln < 0.0 {
      var impulse := -reln * Restitution;
      a.vx, a.vy := a.vx - impulse * nx, a.vy - impulse * ny;
      b.vx, b.vy := b.vx + impulse * nx, b.vy + impulse * ny;
      assert MotionOf(a) == r.0;
    } else {
      assert 0.0 * nx == 0.0 && 0.0 * ny == 0.0;
    }
  }

  /** What the bookkeeping sees of an entity. */
  function BodyOf(e: Entity): Body
    reads e
  {
    Body(e.species, e.x, e.y)
  }

  /** Position and velocity of an entity. */
  function MotionOf(e: Entity): Motion
    reads e
  {
    Motion(e.x, e.y, e.vx, e.vy)
  }

  /** The motions of the list, position by position. */
  function Motions(s: seq<Entity>): (r: seq<Motion>)
    reads s
  {
    seq(|s|, k reads s requires 0 <= k < |s| => MotionOf(s[k]))
  }

  /** The first loop of `frame` on the motions of the list: each entity
      steps by its own radius, and every one that fits the canvas ends inside
      it. */
  function StepEach(ms: seq<Motion>, rs: seq<real>, dt: real, T: real, w: real, h: real): (r: seq<Motion>)
    requires |rs| == |ms|
    ensures |r| == |ms|
    ensures forall k | 0 <= k < |ms| :: w >= 2.0 * rs[k] && h >= 2.0 * rs[k] ==>
      rs[k] <= r[k].x <= w - rs[k] && rs[k] <= r[k].y <= h - rs[k]
  {
    seq(|ms|, k requires 0 <= k < |ms| => StepMotion(ms[k], rs[k], dt, T, w, h))
  }

  /** The angle and angular velocity of each entity of the list. */
  function Spins(s: seq<Entity>): (r: seq<(real, real)>)
    reads s
  {
    seq(|s|, k reads s requires 0 <= k < |s| => (s[k].rot, s[k].vr))
  }

  /** The collision radii of the list, position by position. */
  function Radii(s: seq<Entity>): seq<real>
  {
    seq(|s|, k requires 0 <= k < |s| => s[k].cr)
  }

  /** The list of entities read as bodies, position by position. */
  function Snap(s: seq<Entity>): (r: seq<Body>)
    reads s
  {
    seq(|s|, k reads s requires 0 <= k < |s| => BodyOf(s[k]))
  }

  /** Entity e is the one `spawn` makes of species t at (x, y) from draw d. */
  predicate SpawnedFrom(e: Entity, t: Species, x: real, y: real, d: SpawnDraw)
    reads e
  {
    e.species == t && MotionOf(e) == Motion(x + d.dx, y + d.dy, d.vx, d.vy) && e.rot == d.rot && e.vr == d.vr
  }

  /** The last ProductCount entities of s are the products of a reaction at
      (cx, cy) as `spawn` makes them: product k of species ProductSpecies(k),
      with offset, velocity and spin from draw k. */
  predicate SpawnedProducts(s: seq<Entity>, cx: real, cy: real, draw: nat -> SpawnDraw)
    reads s
  {
    |s| >= ProductCount &&
    var ps := s[|s| - ProductCount..];
    forall k | 0 <= k < |ps| :: SpawnedFrom(ps[k], ProductSpecies(k), cx, cy, draw(k))
  }

  /** The last ProductCount entities of s are those products after the kick
      around (cx, cy): each kicked from the motion it was spawned with, its
      angle and angular velocity as drawn. */
  predicate KickedProducts(s: seq<Entity>, cx: real, cy: real, draw: nat -> SpawnDraw, hypot: (real, real) -> real)
    reads s
  {
    |s| >= ProductCount &&
    var ps := s[|s| - ProductCount..];
    forall k | 0 <= k < |ps| ::
      ps[k].species == ProductSpecies(k) &&
      KickedFrom(ps[k], cx + draw(k).dx, cy + draw(k).dy, draw(k).vx, draw(k).vy, cx, cy, hypot) &&
      ps[k].rot == draw(k).rot && ps[k].vr == draw(k).vr
  }

  /** Appending the entities spawned from the draws appends their bodies. */
  lemma SnapSpawned(s: seq<Entity>, added: seq<Entity>, t: Species, x: real, y: real, draws: seq<SpawnDraw>)
    requires |added| == |draws|
    requires forall k | 0 <= k < |draws| :: SpawnedFrom(added[k], t, x, y, draws[k])
    ensures Snap(s + added) == Snap(s) + SpawnBodies(t, x, y, draws)
  {
    var r := Snap(s + added);
    var expected := Snap(s) + SpawnBodies(t, x, y, draws);
    forall k | 0 <= k < |r|
      ensures r[k] == expected[k]
    {
      if k >= |s| {
        assert (s + added)[k] == added[k - |s|];
      }
    }
  }

  /** Taking entities out of the list takes the same positions out of its
      bodies. */
  lemma SnapWithout(s: seq<Entity>, drop: set<int>)
    ensures Snap(Without(s, drop)) == Without(Snap(s), drop)
    decreases |s|
  {
    if s != [] {
      SnapWithout(s[..|s| - 1], drop);
      assert Snap(s)[..|s| - 1] == Snap(s[..|s| - 1]);
    }
  }

  /** The reactants one reaction takes, in the order of its `removeSome`
      calls: 3 Ag2S, then 2 Al, then 6 H2O. */
  const Packet: seq<(Species, nat)> := [(Ag2S, 3), (Al, 2), (H2O, 6)]

  /** The entities a run of `removeSome` calls around (cx, cy) leaves, as
      objects, b being the bodies of s: each call takes out the positions
      nearest the point among the bodies the previous calls left. The
      survivors are entities of s. */
  function RemoveEach(s: seq<Entity>, b: seq<Body>, packet: seq<(Species, nat)>, cx: real, cy: real): (r: seq<Entity>)
    ensures forall e | e in r :: e in s
    decreases |packet|
  {
    if packet == [] then
      s
    else
      var t, n := packet[0].0, packet[0].1;
      RemoveEach(Without(s, Elements(NearestIndices(b, t, n, cx, cy))), RemoveNearest(b, t, n, cx, cy), packet[1..], cx, cy)
  }

  /** The entities the three `removeSome` calls of a reaction at (cx, cy)
      leave: entities of s, in their order in s. */
  function ConsumeEntities(s: seq<Entity>, b: seq<Body>, cx: real, cy: real): (r: seq<Entity>)
    ensures forall e | e in r :: e in s
  {
    RemoveEach(s, b, Packet, cx, cy)
  }

  /** The entities ConsumeEntities keeps carry exactly the bodies Consume
      keeps. */
  lemma ConsumeEntitiesSnap(s: seq<Entity>, cx: real, cy: real)
    ensures Snap(ConsumeEntities(s, Snap(s), cx, cy)) == Consume(Snap(s), cx, cy)
  {
    var b := Snap(s);
    var b1 := RemoveNearest(b, Ag2S, 3, cx, cy);
    var b2 := RemoveNearest(b1, Al, 2, cx, cy);
    var d0 := Elements(NearestIndices(b, Ag2S, 3, cx, cy));
    var d1 := Elements(NearestIndices(b1, Al, 2, cx, cy));
    var d2 := Elements(NearestIndices(b2, H2O, 6, cx, cy));
    var s1 := Without(s, d0);
    var s2 := Without(s1, d1);
    var s3 := Without(s2, d2);
    SnapWithout(s, d0);
    SnapWithout(s1, d1);
    SnapWithout(s2, d2);
    assert RemoveEach(s3, RemoveNearest(b2, H2O, 6, cx, cy), Packet[3..], cx, cy) == s3;
    assert RemoveEach(s2, b2, Packet[2..], cx, cy) == s3;
    assert RemoveEach(s1, b1, Packet[1..], cx, cy) == s3;
  }

  /** The sort-and-slice steps of `removeSome` compute the nearest positions
      and their removal order. */
  lemma RemovalSteps(s: seq<Body>, t: Species, n: nat, x: real, y: real,
                     idx: seq<nat>, chosen: seq<nat>, toRemove: seq<nat>)
    requires idx == IndicesOf(s, t)
    requires chosen == Prefix(SortBy(idx, DistKey(s, x, y)), n)
    requires toRemove == SortBy(chosen, Descending)
    ensures chosen == NearestIndices(s, t, n, x, y)
    ensures toRemove == RemovalOrder(s, t, n, x, y)
    ensures Elements(toRemove) == Elements(chosen)
    ensures forall k | k in toRemove :: k < |s|
    ensures forall i, j | 0 <= i < j < |toRemove| :: toRemove[i] > toRemove[j]
  {
    assert chosen == NearestIndices(s, t, n, x, y);
    assert toRemove == RemovalOrder(s, t, n, x, y);
    forall k | k in toRemove
      ensures k < |s|
    {
      assert k in Elements(toRemove);
    }
  }

  /** The change in species t's count after k reactions. */
  function Moved(k: nat, t: Species): int {
    if k == 0 then 0 else Moved(k - 1, t) + Delta(t)
  }

  /** k reactions move each count by k times the reaction's delta. */
  lemma {:induction false} MovedIsScaled(k: nat, t: Species)
    ensures Moved(k, t) == k * Delta(t)
  {
    if k > 0 {
      MovedIsScaled(k - 1, t);
    }
  }

  /** Every count of `after` is that of `before` moved by k reactions. */
  predicate CountsMoved(before: seq<Body>, after: seq<Body>, k: nat) {
    forall t :: Count(after, t) == Count(before, t) + Moved(k, t)
  }

  /** Moves compose: k reactions followed by d more are k + d reactions. */
  lemma CountsAdvance(s0: seq<Body>, before: seq<Body>, after: seq<Body>, k: nat, d: nat)
    requires CountsMoved(s0, before, k) && CountsMoved(before, after, d)
    ensures CountsMoved(s0, after, k + d)
  {
    forall t
      ensures Count(after, t) == Count(s0, t) + Moved(k + d, t)
    {
      MovedIsScaled(k + d, t);
      MovedIsScaled(k, t);
      MovedIsScaled(d, t);
    }
  }

  /** CountsAdvance with the total number of reactions named. */
  lemma CountsChain(s0: seq<Body>, before: seq<Body>, after: seq<Body>, k: nat, d: nat, total: nat)
    requires CountsMoved(s0, before, k) && CountsMoved(before, after, d) && total == k + d
    ensures CountsMoved(s0, after, total)
  {
    CountsAdvance(s0, before, after, k, d);
  }

  /** One reaction at a site of a store holding the packet is one move. */
  lemma ReactAtMoves(s: seq<Body>, st: Site, draw: nat -> SpawnDraw)
    requires st.al < |s| && st.ag2s < |s| && HasPacket(s)
    ensures |ReactAt(s, st, draw)| == |s|
    ensures CountsMoved(s, ReactAt(s, st, draw), 1)
  {
    ReactAtCounts(s, st, draw);
  }

  /** A reaction at a site is the exchange at its midpoint. */
  lemma ReactAtUnfolds(s: seq<Body>, st: Site, draw: nat -> SpawnDraw, cx: real, cy: real)
    requires st.al < |s| && st.ag2s < |s| && (cx, cy) == Midpoint(s, st)
    ensures ReactAt(s, st, draw) == Produce(Consume(s, cx, cy), cx, cy, draw)
  {
  }

  /** Whether a try of `tryReact` drawing u at probability p reacts on the
      bodies s. */
  predicate Reacts(hypot: (real, real) -> real, s: seq<Body>, u: real, p: real) {
    u <= p && HasPacket(s) && FindSite(hypot, s).Some?
  }

  /** The bodies after the first n tries of the reaction loop of `frame`
      from s, try i drawing u(i) and draw(i). */
  function Attempts(hypot: (real, real) -> real, s: seq<Body>, p: real,
                    u: nat -> real, draw: nat -> nat -> SpawnDraw, n: nat): (r: seq<Body>)
    ensures |r| == |s|
  {
    if n == 0 then s
    else
      var before := Attempts(hypot, s, p, u, draw, n - 1);
      ReactKeepsLength(hypot, before, u(n - 1), p, draw(n - 1));
      React(hypot, before, u(n - 1), p, draw(n - 1))
  }

  /** How many of the first n tries of the reaction loop react. */
  function Reactions(hypot: (real, real) -> real, s: seq<Body>, p: real,
                     u: nat -> real, draw: nat -> nat -> SpawnDraw, n: nat): (r: nat)
    ensures r <= n
  {
    if n == 0 then 0
    else
      var reacted := Reacts(hypot, Attempts(hypot, s, p, u, draw, n - 1), u(n - 1), p);
      Reactions(hypot, s, p, u, draw, n - 1) + if reacted then 1 else 0
  }

  /** One try keeps the number of entities. */
  lemma ReactKeepsLength(hypot: (real, real) -> real, s: seq<Body>, u: real, p: real, draw: nat -> SpawnDraw)
    ensures |React(hypot, s, u, p, draw)| == |s|
  {
    if Reacts(hypot, s, u, p) {
      FindSiteIsFirst(hypot, s);
      ReactAtMoves(s, FindSite(hypot, s).value, draw);
    }
  }

  /** One try moves the counts once if it reacts, not at all otherwise. */
  lemma ReactMoves(hypot: (real, real) -> real, s: seq<Body>, u: real, p: real, draw: nat -> SpawnDraw)
    ensures CountsMoved(s, React(hypot, s, u, p, draw), if Reacts(hypot, s, u, p) then 1 else 0)
  {
    if Reacts(hypot, s, u, p) {
      var st := FindSite(hypot, s).value;
      FindSiteIsFirst(hypot, s);
      ReactAtMoves(s, st, draw);
    } else {
      forall t
        ensures Count(s, t) == Count(s, t) + Moved(0, t)
      {
      }
    }
  }

  /** The n-th try of the loop, spelled out. */
  lemma AttemptsUnfold(hypot: (real, real) -> real, s: seq<Body>, p: real,
                       u: nat -> real, draw: nat -> nat -> SpawnDraw, n: nat)
    requires n > 0
    ensures Attempts(hypot, s, p, u, draw, n) ==
      React(hypot, Attempts(hypot, s, p, u, draw, n - 1), u(n - 1), p, draw(n - 1))
  {
  }

  /** The count of the n-th try, spelled out. */
  lemma ReactionsUnfold(hypot: (real, real) -> real, s: seq<Body>, p: real,
                        u: nat -> real, draw: nat -> nat -> SpawnDraw, n: nat)
    requires n > 0
    ensures Reactions(hypot, s, p, u, draw, n) == Reactions(hypot, s, p, u, draw, n - 1) +
      if Reacts(hypot, Attempts(hypot, s, p, u, draw, n - 1), u(n - 1), p) then 1 else 0
  {
  }

  /** n tries move every count by the reaction's deltas once per try that
      reacted. */
  lemma {:induction false} AttemptsMove(hypot: (real, real) -> real, s: seq<Body>, p: real,
                                        u: nat -> real, draw: nat -> nat -> SpawnDraw, n: nat)
    ensures CountsMoved(s, Attempts(hypot, s, p, u, draw, n), Reactions(hypot, s, p, u, draw, n))
  {
    if n > 0 {
      AttemptsMove(hypot, s, p, u, draw, n - 1);
      AttemptsUnfold(hypot, s, p, u, draw, n);
      ReactionsUnfold(hypot, s, p, u, draw, n);
      var before := Attempts(hypot, s, p, u, draw, n - 1);
      var d := if Reacts(hypot, before, u(n - 1), p) then 1 else 0;
      ReactMoves(hypot, before, u(n - 1), p, draw(n - 1));
      CountsChain(s, before, Attempts(hypot, s, p, u, draw, n),
                  Reactions(hypot, s, p, u, draw, n - 1), d, Reactions(hypot, s, p, u, draw, n));
    } else {
      forall t
        ensures Count(s, t) == Count(s, t) + Moved(0, t)
      {
      }
    }
  }

  /** The simulation: the entity list and the controls the loop reads. */
  class Simulation {
    var ents: seq<Entity>
    var T: real
    var reactionMul: real
    var trapMode: bool
    var paused: bool

    /** No entity is listed twice. */
    predicate Valid()
      reads this
    {
      NoDup(ents)
    }

    /** A simulation with no entities yet at temperature 1, the multiplier at
        1.0, trap mode off and running. */
    constructor ()
      ensures Valid() && ents == [] && T == 1.0 && reactionMul == 1.0
      ensures !trapMode && !paused
    {
      ents := [];
      T := 1.0;
      reactionMul := 1.0;
      trapMode := false;
      paused := false;
    }

    /** `count(type)`: one pass over the list. */
    method Count(t: Species) returns (n: nat)
      ensures n == Store.Count(Snap(ents), t)
    {
      ghost var snap := Snap(ents);
      n := 0;
      var i := 0;
      while i < |ents|
        invariant 0 <= i <= |ents|
        invariant n == Store.Count(snap[..i], t)
      {
        CountStep(snap, i, t);
        if ents[i].species == t {
          n := n + 1;
        }
        i := i + 1;
      }
      assert snap[..i] == snap;
    }

    /** `removeSome(type, n, nearX, nearY)`: collect the positions of species
        t, keep the n nearest to the point (stable sort on the squared
        distance), and splice them out from the highest position down. */
    method RemoveSome(t: Species, n: nat, nearX: real, nearY: real)
      requires Valid()
      modifies this`ents
      ensures Valid()
      ensures ents == Without(old(ents), Elements(NearestIndices(old(Snap(ents)), t, n, nearX, nearY)))
      ensures Snap(ents) == RemoveNearest(old(Snap(ents)), t, n, nearX, nearY)
      ensures forall e | e in ents :: e in old(ents)
    {
      var toRemove := RemovalPlan(t, n, nearX, nearY);
      SpliceOut(toRemove);
      SnapWithout(old(ents), Elements(toRemove));
    }

    /** The positions `removeSome` splices, highest first: those of species t,
        stably sorted by squared distance to the point, the first n kept, then
        sorted in descending order. */
    method RemovalPlan(t: Species, n: nat, nearX: real, nearY: real) returns (toRemove: seq<nat>)
      ensures toRemove == RemovalOrder(Snap(ents), t, n, nearX, nearY)
      ensures forall k | k in toRemove :: k < |ents|
    {
      var bodies := Snap(ents);
      var idx := Positions(t);
      var chosen := Prefix(SortBy(idx, DistKey(bodies, nearX, nearY)), n);
      toRemove := SortBy(chosen, Descending);
      RemovalSteps(bodies, t, n, nearX, nearY, idx, chosen, toRemove);
    }

    /** The first loop of `removeSome`: the positions holding species t, in
        list order. */
    method Positions(t: Species) returns (idx: seq<nat>)
      ensures idx == IndicesOf(Snap(ents), t)
    {
      ghost var snap := Snap(ents);
      idx := [];
      var i: nat := 0;
      while i < |ents|
        invariant i <= |ents|
        invariant idx == IndicesOf(snap[..i], t)
      {
        IndicesStep(snap, i, t);
        assert snap[i].species == ents[i].species;
        if ents[i].species == t {
          idx := idx + [i];
        }
        i := i + 1;
      }
      assert snap[..i] == snap;
    }

    /** The splice loop of `removeSome`: positions taken in strictly
        decreasing order, so that each `splice(k, 1)` still finds its entity
        at position k. */
    method SpliceOut(toRemove: seq<nat>)
      requires Valid()
      requires forall k | k in toRemove :: k < |ents|
      requires forall i, j | 0 <= i < j < |toRemove| :: toRemove[i] > toRemove[j]
      modifies this`ents
      ensures Valid()
      ensures ents == Without(old(ents), Elements(toRemove))
      ensures forall e | e in ents :: e in old(ents)
    {
      var m := 0;
      WithoutNothing(ents, Elements(toRemove[..0]));
      while m < |toRemove|
        invariant 0 <= m <= |toRemove|
        invariant ents == Without(old(ents), Elements(toRemove[..m]))
        invariant NoDup(ents)
      {
        var k := toRemove[m];
        ghost var done := Elements(toRemove[..m]);
        assert k in toRemove;
        assert forall d | d in done :: d > k by {
          forall d | d in done ensures d > k {
            var q :| 0 <= q < m && toRemove[q] == d;
          }
        }
        WithoutSplice(old(ents), done, k);
        NoDupSplice(ents, k);
        assert Elements(toRemove[..m + 1]) == done + {k};
        ents := ents[..k] + ents[k + 1..];
        m := m + 1;
      }
      assert toRemove[..m] == toRemove;
    }

    /** `spawn(type, n, x, y)` with n = |draws|: append one fresh entity per
        draw, jittered around (x, y). */
    method Spawn(t: Species, x: real, y: real, draws: seq<SpawnDraw>)
      requires Valid()
      modifies this`ents
      ensures Valid()
      ensures |ents| == |old(ents)| + |draws|
      ensures ents[..|old(ents)|] == old(ents)
      ensures forall k | |old(ents)| <= k < |ents| :: fresh(ents[k])
      ensures forall k | 0 <= k < |draws| :: SpawnedFrom(ents[|old(ents)| + k], t, x, y, draws[k])
      ensures Snap(ents) == old(Snap(ents)) + SpawnBodies(t, x, y, draws)
      ensures forall e | e in ents :: e in old(ents) || fresh(e)
    {
      ghost var added: seq<Entity> := [];
      var i := 0;
      while i < |draws|
        invariant 0 <= i <= |draws| && |added| == i
        invariant ents == old(ents) + added
        invariant forall j | 0 <= j < |added| :: fresh(added[j])
        invariant forall e | e in ents :: e in old(ents) || fresh(e)
        invariant NoDup(ents)
        invariant forall k | 0 <= k < i :: SpawnedFrom(added[k], t, x, y, draws[k])
      {
        var d := draws[i];
        var e := new Entity(t, x + d.dx, y + d.dy, d.vx, d.vy, d.rot, d.vr);
        ents := ents + [e];
        added := added + [e];
        i := i + 1;
      }
      SnapSpawned(old(ents), added, t, x, y, draws);
    }
    /** The first loop of `frame`: `e.step(dt)` for every entity, in list
        order. */
    method StepAll(dt: real, w: real, h: real)
      requires Valid()
      modifies set e | e in ents
      ensures forall k | 0 <= k < |ents| ::
        SteppedFrom(ents[k], old(ents[k].x), old(ents[k].y), old(ents[k].vx), old(ents[k].vy), old(ents[k].rot), old(ents[k].vr), dt, T, w, h)
      ensures forall k | 0 <= k < |ents| :: w >= 2.0 * ents[k].cr && h >= 2.0 * ents[k].cr ==> ents[k].Contained(w, h)
      ensures Motions(ents) == StepEach(old(Motions(ents)), Radii(ents), dt, T, w, h)
    {
      var i := 0;
      while i < |ents|
        invariant 0 <= i <= |ents|
        invariant forall k | 0 <= k < i ::
          SteppedFrom(ents[k], old(ents[k].x), old(ents[k].y), old(ents[k].vx), old(ents[k].vy), old(ents[k].rot), old(ents[k].vr), dt, T, w, h)
        invariant forall k | 0 <= k < i :: w >= 2.0 * ents[k].cr && h >= 2.0 * ents[k].cr ==> ents[k].Contained(w, h)
        invariant forall k | i <= k < |ents| :: unchanged(ents[k])
      {
        ents[i].Step(dt, T, w, h);
        i := i + 1;
      }
      forall k | 0 <= k < |ents|
        ensures Motions(ents)[k] == StepEach(old(Motions(ents)), Radii(ents), dt, T, w, h)[k]
      {
        assert old(Motions(ents))[k] == Motion(old(ents[k].x), old(ents[k].y), old(ents[k].vx), old(ents[k].vy));
        SteppedMotion(ents[k], old(ents[k].x), old(ents[k].y), old(ents[k].vx), old(ents[k].vy), old(ents[k].rot), old(ents[k].vr), dt, T, w, h);
      }
    }

    /** `resolveCollisions()`: the list's motions become those Resolve
        computes; angles are left alone. */
    method ResolveCollisions(w: real, h: real, hypot: (real, real) -> real)
      requires Valid()
      modifies set e | e in ents
      ensures Motions(ents) == Resolve(old(Motions(ents)), Radii(ents), hypot, w, h)
      ensures Spins(ents) == old(Spins(ents))
    {
      ghost var rs := Radii(ents);
      ghost var es := ents;
      ghost var start := Motions(ents);
      var i := 0;
      while i < |ents|
        invariant 0 <= i <= |ents|
        invariant Pass(Motions(ents), rs, hypot, w, h, i) == Pass(start, rs, hypot, w, h, 0)
        invariant Spins(ents) == old(Spins(ents))
      {
        ghost var before := Motions(ents);
        PushRow(i, hypot);
        ghost var row := Motions(ents);
        assert ents == es;
        assert Radii(ents) == rs;
        assert row == Row(before, rs, hypot, i, i + 1);
        ClampEntity(i, w, h);
        assert Motions(ents) == ClampAt(row, i, rs[i], w, h);
        PassStep(before, rs, hypot, w, h, i);
        i := i + 1;
      }
    }

    /** Entity i's turn in `resolveCollisions`, before its clamp: the inner
        loop over every later entity. */
    method PushRow(i: nat, hypot: (real, real) -> real)
      requires Valid() && i < |ents|
      modifies ents
      ensures Valid()
      ensures Motions(ents) == Row(old(Motions(ents)), Radii(ents), hypot, i, i + 1)
      ensures Spins(ents) == old(Spins(ents))
    {
      ghost var rs := Radii(ents);
      ghost var target := Row(Motions(ents), rs, hypot, i, i + 1);
      var j := i + 1;
      while j < |ents|
        invariant i + 1 <= j <= |ents|
        invariant Row(Motions(ents), rs, hypot, i, j) == target
        invariant Spins(ents) == old(Spins(ents))
      {
        RowAdvance(i, j, hypot, rs, target);
        j := j + 1;
      }
    }

    /** One iteration of the inner loop, read against the row it builds. */
    method RowAdvance(i: nat, j: nat, hypot: (real, real) -> real, ghost rs: seq<real>, ghost target: seq<Motion>)
      requires Valid() && i < j < |ents| && rs == Radii(ents)
      requires Row(Motions(ents), rs, hypot, i, j) == target
      modifies ents[i], ents[j]
      ensures Valid() && Radii(ents) == rs
      ensures Row(Motions(ents), rs, hypot, i, j + 1) == target
      ensures Spins(ents) == old(Spins(ents))
    {
      ghost var before := Motions(ents);
      CollideAt(i, j, hypot);
      RowStep(before, rs, hypot, i, j);
    }

    /** The clamp that ends entity i's turn in `resolveCollisions`. */
    method ClampEntity(i: nat, w: real, h: real)
      requires Valid() && i < |ents|
      modifies ents[i]
      ensures Valid()
      ensures Motions(ents) == ClampAt(old(Motions(ents)), i, ents[i].cr, w, h)
      ensures Spins(ents) == old(Spins(ents))
    {
      var a := ents[i];
      ghost var before := Motions(ents);
      a.ClampInto(w, h);
      ghost var expected := ClampAt(before, i, a.cr, w, h);
      forall k | 0 <= k < |ents|
        ensures Motions(ents)[k] == expected[k] && Spins(ents)[k] == old(Spins(ents))[k]
      {
        if k != i {
          assert ents[k] != a;
        }
      }
      assert Motions(ents) == expected;
    }

    /** Pair (i, j) of `resolveCollisions`, i before j in the list. */
    method CollideAt(i: nat, j: nat, hypot: (real, real) -> real)
      requires Valid() && i < j < |ents|
      modifies ents[i], ents[j]
      ensures Valid()
      ensures Motions(ents) == PairAt(old(Motions(ents)), Radii(ents), hypot, i, j)
      ensures Spins(ents) == old(Spins(ents))
    {
      var a, b := ents[i], ents[j];
      ghost var before := Motions(ents);
      ghost var p := PairResponse(before[i], before[j], a.cr + b.cr, hypot(before[j].x - before[i].x, before[j].y - before[i].y));
      Collide(a, b, hypot);
      assert MotionOf(a) == p.0 && MotionOf(b) == p.1;
      ghost var expected := before[i := p.0][j := p.1];
      forall k | 0 <= k < |ents|
        ensures Motions(ents)[k] == expected[k] && Spins(ents)[k] == old(Spins(ents))[k]
      {
        if k != i && k != j {
          assert ents[k] != a && ents[k] != b;
        }
      }
      assert Motions(ents) == expected;
    }

    /** The kick loop of `tryReact` around the contact point (cx, cy), read
        entity by entity. */
    method KickAll(cx: real, cy: real, hypot: (real, real) -> real)
      requires Valid()
      modifies set e | e in ents
      ensures Valid()
      ensures Snap(ents) == old(Snap(ents))
      ensures forall e | e in ents :: KickedFrom(e, old(e.x), old(e.y), old(e.vx), old(e.vy), cx, cy, hypot) && e.rot == old(e.rot) && e.vr == old(e.vr)
    {
      KickLoop(cx, cy, hypot);
      forall e | e in ents
        ensures KickedFrom(e, old(e.x), old(e.y), old(e.vx), old(e.vy), cx, cy, hypot) && e.rot == old(e.rot) && e.vr == old(e.vr)
      {
        var k :| 0 <= k < |ents| && ents[k] == e;
        assert Motions(ents)[k] == MotionOf(e) && old(Motions(ents))[k] == old(MotionOf(e));
        assert Spins(ents)[k] == (e.rot, e.vr) && old(Spins(ents))[k] == (old(e.rot), old(e.vr));
      }
    }

    /** The kick loop of `tryReact` on the list's motions. */
    method KickLoop(cx: real, cy: real, hypot: (real, real) -> real)
      requires Valid()
      modifies set e | e in ents
      ensures Valid()
      ensures Motions(ents) == KickAround(old(Motions(ents)), cx, cy, hypot)
      ensures Spins(ents) == old(Spins(ents))
      ensures Snap(ents) == old(Snap(ents))
    {
      ghost var start := Motions(ents);
      var i := 0;
      while i < |ents|
        invariant 0 <= i <= |ents|
        invariant |Motions(ents)| == |start|
        invariant forall k | 0 <= k < |ents| ::
          Motions(ents)[k] == (if k < i then KickAround(start, cx, cy, hypot)[k] else start[k])
        invariant Spins(ents) == old(Spins(ents))
        invariant Snap(ents) == old(Snap(ents))
      {
        KickAt(i, cx, cy, hypot);
        i := i + 1;
      }
      assert Motions(ents) == KickAround(start, cx, cy, hypot);
    }

    /** The kick on entity i: `Math.hypot` of its offset from the site
        decides it. */
    method KickAt(i: nat, cx: real, cy: real, hypot: (real, real) -> real)
      requires Valid() && i < |ents|
      modifies ents[i]
      ensures Valid()
      ensures Motions(ents) == old(Motions(ents))[i := KickVelocity(old(MotionOf(ents[i])), cx, cy,
        hypot(old(ents[i].x) - cx, old(ents[i].y) - cy))]
      ensures Spins(ents) == old(Spins(ents))
      ensures Snap(ents) == old(Snap(ents))
    {
      var e := ents[i];
      ghost var before := Motions(ents);
      e.Kick(cx, cy, hypot(e.x - cx, e.y - cy));
      forall k | 0 <= k < |ents| && k != i
        ensures Motions(ents)[k] == before[k] && Spins(ents)[k] == old(Spins(ents))[k]
        ensures Snap(ents)[k] == old(Snap(ents))[k]
      {
        assert ents[k] != e;
      }
    }

    /** The inner loop of the contact search for the Al entity at position
        i: the first Ag2S entity, in list order, closer than the two radii
        plus 6. */
    method PartnerOf(i: nat, hypot: (real, real) -> real) returns (r: Option<nat>)
      requires i < |ents| && ents[i].species == Al
      ensures r == PartnerFrom(hypot, Snap(ents), i, 0)
    {
      ghost var s := Snap(ents);
      var a := ents[i];
      var j := 0;
      while j < |ents|
        invariant 0 <= j <= |ents|
        invariant PartnerFrom(hypot, s, i, j) == PartnerFrom(hypot, s, i, 0)
      {
        var b := ents[j];
        if b.species == Ag2S {
          var d := hypot(b.x - a.x, b.y - a.y);
          if d < a.cr + b.cr + ContactMargin {
            assert IsSite(hypot, s, i, j);
            return Some(j);
          }
        }
        j := j + 1;
      }
      return None;
    }

    /** The contact search of `tryReact`: Al entities in list order, each
        with its first Ag2S partner. */
    method FindContact(hypot: (real, real) -> real) returns (site: Option<Site>)
      ensures site == FindSite(hypot, Snap(ents))
    {
      ghost var s := Snap(ents);
      var i := 0;
      while i < |ents|
        invariant 0 <= i <= |ents|
        invariant SiteFrom(hypot, s, i) == SiteFrom(hypot, s, 0)
      {
        if ents[i].species == Al {
          var j := PartnerOf(i, hypot);
          if j.Some? {
            return Some(Site(i, j.value));
          }
        } else {
          assert PartnerFrom(hypot, s, i, 0).None?;
        }
        i := i + 1;
      }
      return None;
    }

    /** The body of the contact branch of `tryReact`: the packet of reactants
        nearest the contact point leaves, the products appear around it, and
        every entity then gets the kick. */
    method ReactAtSite(st: Site, draw: nat -> SpawnDraw, hypot: (real, real) -> real) returns (cx: real, cy: real)
      requires Valid() && st.al < |ents| && st.ag2s < |ents|
      modifies this`ents, set e | e in ents
      ensures Valid()
      ensures Snap(ents) == ReactAt(old(Snap(ents)), st, draw)
      ensures forall e | e in ents :: e in old(ents) || fresh(e)
      ensures (cx, cy) == Midpoint(old(Snap(ents)), st)
      ensures forall e | e in ents && e in old(ents) ::
          KickedFrom(e, old(e.x), old(e.y), old(e.vx), old(e.vy), cx, cy, hypot) && e.rot == old(e.rot) && e.vr == old(e.vr)
      ensures KickedProducts(ents, cx, cy, draw, hypot)
      ensures ents[..|ents| - ProductCount] == ConsumeEntities(old(ents), old(Snap(ents)), cx, cy)
      ensures forall k | |ents| - ProductCount <= k < |ents| :: fresh(ents[k])
    {
      var a, b := ents[st.al], ents[st.ag2s];
      cx, cy := (a.x + b.x) / 2.0, (a.y + b.y) / 2.0;
      ghost var s0 := Snap(ents);
      assert (cx, cy) == Midpoint(s0, st);
      ReactAtUnfolds(s0, st, draw, cx, cy);
      ReplaceAndKick(cx, cy, draw, hypot);
    }

    /** The packet exchange at the contact point (cx, cy) followed by the
        kick around it. */
    method ReplaceAndKick(cx: real, cy: real, draw: nat -> SpawnDraw, hypot: (real, real) -> real)
      requires Valid()
      modifies this`ents, set e | e in ents
      ensures Valid()
      ensures Snap(ents) == Produce(Consume(old(Snap(ents)), cx, cy), cx, cy, draw)
      ensures forall e | e in ents :: e in old(ents) || fresh(e)
      ensures forall e | e in ents && e in old(ents) ::
          KickedFrom(e, old(e.x), old(e.y), old(e.vx), old(e.vy), cx, cy, hypot) && e.rot == old(e.rot) && e.vr == old(e.vr)
      ensures KickedProducts(ents, cx, cy, draw, hypot)
      ensures ents[..|ents| - ProductCount] == ConsumeEntities(old(ents), old(Snap(ents)), cx, cy)
      ensures forall k | |ents| - ProductCount <= k < |ents| :: fresh(ents[k])
    {
      ReplacePacket(cx, cy, draw);
      ghost var es := ents;
      label Spawned:
      KickPacket(cx, cy, draw, hypot);
      assert ents == es;
      forall e | e in ents && e in old(ents)
        ensures KickedFrom(e, old(e.x), old(e.y), old(e.vx), old(e.vy), cx, cy, hypot)
        ensures e.rot == old(e.rot) && e.vr == old(e.vr)
      {
        assert old@Spawned(MotionOf(e)) == old(MotionOf(e));
        assert old@Spawned(e.rot) == old(e.rot) && old@Spawned(e.vr) == old(e.vr);
      }
    }

    /** The kick loop right after the products were spawned: every entity is
        kicked from its own motion, so the products are kicked from the
        motion they were spawned with. */
    method KickPacket(cx: real, cy: real, draw: nat -> SpawnDraw, hypot: (real, real) -> real)
      requires Valid() && SpawnedProducts(ents, cx, cy, draw)
      modifies set e | e in ents
      ensures Valid()
      ensures Snap(ents) == old(Snap(ents))
      ensures forall e | e in ents :: KickedFrom(e, old(e.x), old(e.y), old(e.vx), old(e.vy), cx, cy, hypot) && e.rot == old(e.rot) && e.vr == old(e.vr)
      ensures KickedProducts(ents, cx, cy, draw, hypot)
    {
      ghost var ps := ents[|ents| - ProductCount..];
      KickAll(cx, cy, hypot);
      forall k | 0 <= k < |ps|
        ensures ps[k].species == ProductSpecies(k)
        ensures KickedFrom(ps[k], cx + draw(k).dx, cy + draw(k).dy, draw(k).vx, draw(k).vy, cx, cy, hypot)
        ensures ps[k].rot == draw(k).rot && ps[k].vr == draw(k).vr
      {
        assert ps[k] in ents;
        assert old(SpawnedFrom(ps[k], ProductSpecies(k), cx, cy, draw(k)));
        assert old(MotionOf(ps[k])) == Motion(old(ps[k].x), old(ps[k].y), old(ps[k].vx), old(ps[k].vy));
      }
    }

    /** The reactants nearest the contact point (cx, cy) leave and the
        products appear around it. */
    method ReplacePacket(cx: real, cy: real, draw: nat -> SpawnDraw)
      requires Valid()
      modifies this`ents
      ensures Valid()
      ensures Snap(ents) == Produce(Consume(old(Snap(ents)), cx, cy), cx, cy, draw)
      ensures SpawnedProducts(ents, cx, cy, draw)
      ensures ents[..|ents| - ProductCount] == ConsumeEntities(old(ents), old(Snap(ents)), cx, cy)
      ensures forall k | |ents| - ProductCount <= k < |ents| :: fresh(ents[k])
      ensures forall e | e in ents :: e in old(ents) || fresh(e)
    {
      RemovePacket(cx, cy);
      SpawnPacket(cx, cy, draw);
    }

    /** The three `removeSome` calls of a reaction: 3 Ag2S, 2 Al and 6 H2O,
        each time the ones nearest the contact point (cx, cy). */
    method RemovePacket(cx: real, cy: real)
      requires Valid()
      modifies this`ents
      ensures Valid()
      ensures ents == ConsumeEntities(old(ents), old(Snap(ents)), cx, cy)
      ensures Snap(ents) == Consume(old(Snap(ents)), cx, cy)
      ensures forall e | e in ents :: e in old(ents)
    {
      ghost var s1, b1 := ents, Snap(ents);
      RemoveSome(Ag2S, 3, cx, cy);
      ghost var s2, b2 := ents, Snap(ents);
      RemoveSome(Al, 2, cx, cy);
      ghost var s3, b3 := ents, Snap(ents);
      RemoveSome(H2O, 6, cx, cy);
      assert RemoveEach(ents, Snap(ents), Packet[3..], cx, cy) == ents;
      assert RemoveEach(s3, b3, Packet[2..], cx, cy) == ents;
      assert RemoveEach(s2, b2, Packet[1..], cx, cy) == ents;
    }

    /** The three `spawn` calls of a reaction: 6 Ag, 2 AlOH3 and 3 H2S
        around (cx, cy), appended in that order, from consecutive draws. */
    method SpawnPacket(cx: real, cy: real, draw: nat -> SpawnDraw)
      requires Valid()
      modifies this`ents
      ensures Valid()
      ensures Snap(ents) == Produce(old(Snap(ents)), cx, cy, draw)
      ensures |ents| == |old(ents)| + ProductCount
      ensures ents[..|old(ents)|] == old(ents)
      ensures forall k | |old(ents)| <= k < |ents| :: fresh(ents[k])
      ensures SpawnedProducts(ents, cx, cy, draw)
      ensures forall e | e in ents :: e in old(ents) || fresh(e)
    {
      ghost var n0 := |ents|;
      Spawn(Ag, cx, cy, Draws(draw, 0, 6));
      ghost var e1 := ents;
      Spawn(AlOH3, cx, cy, Draws(draw, 6, 2));
      ghost var e2 := ents;
      Spawn(H2S, cx, cy, Draws(draw, 8, 3));
      assert ents[..n0] == e2[..n0] == e1[..n0] == old(ents);
      ghost var ps := ents[n0..];
      forall k | 0 <= k < ProductCount
        ensures fresh(ps[k]) && SpawnedFrom(ps[k], ProductSpecies(k), cx, cy, draw(k))
      {
        if k < 6 {
          assert ps[k] == e1[n0 + k];
          assert Draws(draw, 0, 6)[k] == draw(k);
        } else if k < 8 {
          assert ps[k] == e2[n0 + 6 + (k - 6)];
          assert Draws(draw, 6, 2)[k - 6] == draw(k);
        } else {
          assert ps[k] == ents[n0 + 8 + (k - 8)];
          assert Draws(draw, 8, 3)[k - 8] == draw(k);
        }
      }
    }

    /** `tryReact()` with u standing for `Math.random()` and draw for the
        spawn jitter: nothing happens when u > p, when a count is short of
        the packet or when no Al touches an Ag2S; otherwise the first
        contact pair reacts, the counts move by the reaction's deltas, and
        every entity already present that survives gets the kick around the
        contact point. */
    method TryReact(u: real, draw: nat -> SpawnDraw, hypot: (real, real) -> real) returns (reacted: bool)
      requires Valid()
      modifies this`ents, set e | e in ents
      ensures Valid()
      ensures Snap(ents) == React(hypot, old(Snap(ents)), u, ReactionProbability(T, reactionMul, trapMode), draw)
      ensures reacted <==>
        u <= ReactionProbability(T, reactionMul, trapMode) && HasPacket(old(Snap(ents))) && FindSite(hypot, old(Snap(ents))).Some?
      ensures CountsMoved(old(Snap(ents)), Snap(ents), if reacted then 1 else 0)
      ensures |ents| == |old(ents)|
      ensures !reacted ==> ents == old(ents) && forall e | e in ents :: unchanged(e)
      ensures forall e | e in ents :: e in old(ents) || fresh(e)
      ensures reacted ==>
        var m := Midpoint(old(Snap(ents)), FindSite(hypot, old(Snap(ents))).value);
        (forall e | e in ents && e in old(ents) ::
          KickedFrom(e, old(e.x), old(e.y), old(e.vx), old(e.vy), m.0, m.1, hypot) && e.rot == old(e.rot) && e.vr == old(e.vr)) &&
        KickedProducts(ents, m.0, m.1, draw, hypot) &&
        ents[..|ents| - ProductCount] == ConsumeEntities(old(ents), old(Snap(ents)), m.0, m.1) &&
        (forall k | |ents| - ProductCount <= k < |ents| :: fresh(ents[k]))
    {
      var p := ReactionProbability(T, reactionMul, trapMode);
      if u > p {
        return false;
      }
      ghost var s0 := Snap(ents);
      var ok := PacketAvailable();
      assert Snap(ents) == s0;
      if !ok {
        return false;
      }
      reacted := ReactAtFirstContact(draw, hypot);
    }

    /** The packet gate of `tryReact`: at least 3 Ag2S, 2 Al and 6 H2O,
        counted in that order. */
    method PacketAvailable() returns (ok: bool)
      ensures ok == HasPacket(Snap(ents))
    {
      var nAg2S := Count(Ag2S);
      if nAg2S < 3 {
        return false;
      }
      var nAl := Count(Al);
      if nAl < 2 {
        return false;
      }
      var nH2O := Count(H2O);
      return nH2O >= 6;
    }

    /** The contact branch of `tryReact` once the packet is there: the first
        contact pair reacts, if there is one. */
    method ReactAtFirstContact(draw: nat -> SpawnDraw, hypot: (real, real) -> real) returns (reacted: bool)
      requires Valid() && HasPacket(Snap(ents))
      modifies this`ents, set e | e in ents
      ensures Valid()
      ensures reacted <==> FindSite(hypot, old(Snap(ents))).Some?
      ensures reacted ==> Snap(ents) == ReactAt(old(Snap(ents)), FindSite(hypot, old(Snap(ents))).value, draw)
      ensures CountsMoved(old(Snap(ents)), Snap(ents), if reacted then 1 else 0)
      ensures |ents| == |old(ents)|
      ensures !reacted ==> ents == old(ents) && forall e | e in ents :: unchanged(e)
      ensures forall e | e in ents :: e in old(ents) || fresh(e)
      ensures reacted ==>
        var m := Midpoint(old(Snap(ents)), FindSite(hypot, old(Snap(ents))).value);
        (forall e | e in ents && e in old(ents) ::
          KickedFrom(e, old(e.x), old(e.y), old(e.vx), old(e.vy), m.0, m.1, hypot) && e.rot == old(e.rot) && e.vr == old(e.vr)) &&
        KickedProducts(ents, m.0, m.1, draw, hypot) &&
        ents[..|ents| - ProductCount] == ConsumeEntities(old(ents), old(Snap(ents)), m.0, m.1) &&
        (forall k | |ents| - ProductCount <= k < |ents| :: fresh(ents[k]))
    {
      ghost var s0 := Snap(ents);
      var site := FindContact(hypot);
      assert Snap(ents) == s0;
      if site.None? {
        return false;
      }
      var cx, cy := ReactAtSite(site.value, draw, hypot);
      ReactAtMoves(s0, site.value, draw);
      return true;
    }

    /** The R key: the reaction multiplier steps 1.0, 2.2, 3.2 and back. */
    method CycleReactionMultiplier()
      modifies this`reactionMul
      ensures reactionMul == NextMultiplier(old(reactionMul))
    {
      if reactionMul < 1.6 {
        reactionMul := 2.2;
      } else if reactionMul < 2.5 {
        reactionMul := 3.2;
      } else {
        reactionMul := 1.0;
      }
    }

    /** The T key: trap mode on or off. */
    method ToggleTrap()
      modifies this`trapMode
      ensures trapMode == !old(trapMode)
    {
      trapMode := !trapMode;
    }

    /** The pause button. */
    method TogglePause()
      modifies this`paused
      ensures paused == !old(paused)
    {
      paused := !paused;
    }

    /** The temperature slider. */
    method SetTemperature(v: real)
      modifies this`T
      ensures T == v
    {
      T := v;
    }

    /** One `frame(now)` with `elapsed` seconds since the last one: unless
        paused, every entity steps by the capped frame time, the collision
        pass runs, then `tryReact` is tried Tries(T) times, try i drawing
        u(i) and draw(i). The list keeps its length and each species' count
        moves by the reaction's deltas once per reaction that happened. */
    method Frame(elapsed: real, w: real, h: real, hypot: (real, real) -> real,
                 u: nat -> real, draw: nat -> nat -> SpawnDraw) returns (ghost reactions: nat)
      requires Valid()
      modifies this`ents, set e | e in ents
      ensures Valid()
      ensures old(paused) ==> reactions == 0 && ents == old(ents) && forall e | e in ents :: unchanged(e)
      ensures |ents| == |old(ents)|
      ensures reactions <= if Tries(T) < 0 then 0 else Tries(T)
      ensures forall t :: Store.Count(Snap(ents), t) == Store.Count(old(Snap(ents)), t) + reactions * Delta(t)
    {
      if paused {
        return 0;
      }
      var dt := FrameTime(elapsed);
      Move(dt, w, h, hypot);
      reactions := ReactionTries(Tries(T), u, draw, hypot);
      forall t
        ensures Store.Count(Snap(ents), t) == Store.Count(old(Snap(ents)), t) + reactions * Delta(t)
      {
        MovedIsScaled(reactions, t);
      }
    }

    /** The reaction loop of `frame`: `tryReact` n times, try i drawing u(i)
        and draw(i). The bodies end as Attempts says and counts move by the
        deltas once per reaction. */
    method ReactionTries(n: int, u: nat -> real, draw: nat -> nat -> SpawnDraw, hypot: (real, real) -> real)
      returns (ghost reactions: nat)
      requires Valid()
      modifies this`ents, set e | e in ents
      ensures Valid()
      ensures var p := ReactionProbability(T, reactionMul, trapMode);
        var tries := if n < 0 then 0 else n;
        Snap(ents) == Attempts(hypot, old(Snap(ents)), p, u, draw, tries) &&
        reactions == Reactions(hypot, old(Snap(ents)), p, u, draw, tries)
      ensures |ents| == |old(ents)|
      ensures reactions <= if n < 0 then 0 else n
      ensures CountsMoved(old(Snap(ents)), Snap(ents), reactions)
    {
      ghost var s0 := Snap(ents);
      ghost var p := ReactionProbability(T, reactionMul, trapMode);
      ghost var tries: nat := if n < 0 then 0 else n;
      RunAttempts(n, u, draw, hypot, s0, p);
      reactions := Reactions(hypot, s0, p, u, draw, tries);
      AttemptsMove(hypot, s0, p, u, draw, tries);
    }

    /** The loop itself: n tries, after which the bodies are those of the
        first n tries (none when n is negative). */
    method RunAttempts(n: int, u: nat -> real, draw: nat -> nat -> SpawnDraw, hypot: (real, real) -> real,
                       ghost s0: seq<Body>, ghost p: real)
      requires Valid() && p == ReactionProbability(T, reactionMul, trapMode) && Snap(ents) == s0
      modifies this`ents, set e | e in ents
      ensures Valid() && Snap(ents) == Attempts(hypot, s0, p, u, draw, if n < 0 then 0 else n)
      ensures forall e | e in ents :: e in old(ents) || fresh(e)
    {
      var i := 0;
      while i < n
        invariant Valid()
        invariant 0 <= i && (i == 0 || i <= n)
        invariant Snap(ents) == Attempts(hypot, s0, p, u, draw, i)
        invariant forall e | e in ents :: e in old(ents) || fresh(e)
      {
        Attempt(i, u, draw, hypot, s0, p);
        i := i + 1;
      }
    }

    /** Try i of the reaction loop: after it the bodies are those of the
        first i + 1 tries. */
    method Attempt(i: nat, u: nat -> real, draw: nat -> nat -> SpawnDraw, hypot: (real, real) -> real,
                   ghost s0: seq<Body>, ghost p: real)
      requires Valid() && p == ReactionProbability(T, reactionMul, trapMode)
      requires Snap(ents) == Attempts(hypot, s0, p, u, draw, i)
      modifies this`ents, set e | e in ents
      ensures Valid() && Snap(ents) == Attempts(hypot, s0, p, u, draw, i + 1)
      ensures forall e | e in ents :: e in old(ents) || fresh(e)
    {
      var r := TryReact(u(i), draw(i), hypot);
      AttemptsUnfold(hypot, s0, p, u, draw, i + 1);
    }

    /** The motion half of a frame: every entity steps, then the collision
        pass. The list itself, and so every count, is unchanged. */
    method Move(dt: real, w: real, h: real, hypot: (real, real) -> real)
      requires Valid()
      modifies set e | e in ents
      ensures Valid()
      ensures Motions(ents) == Resolve(StepEach(old(Motions(ents)), Radii(ents), dt, T, w, h), Radii(ents), hypot, w, h)
      ensures forall k | 0 <= k < |ents| :: Settled(MotionOf(ents[k]), ents[k].cr, w, h)
      ensures forall k | 0 <= k < |ents| ::
        ents[k].rot == Turn(old(ents[k].rot), old(ents[k].vr), dt, T) && ents[k].vr == old(ents[k].vr)
      ensures forall t :: Store.Count(Snap(ents), t) == Store.Count(old(Snap(ents)), t)
    {
      StepAll(dt, w, h);
      label Stepped:
      ResolveCollisions(w, h, hypot);
      forall k | 0 <= k < |ents|
        ensures Settled(MotionOf(ents[k]), ents[k].cr, w, h)
      {
        assert Motions(ents)[k] == MotionOf(ents[k]) && Radii(ents)[k] == ents[k].cr;
      }
      forall k | 0 <= k < |ents|
        ensures ents[k].rot == Turn(old(ents[k].rot), old(ents[k].vr), dt, T) && ents[k].vr == old(ents[k].vr)
      {
        assert old@Stepped(Spins(ents))[k] == Spins(ents)[k];
      }
      forall t
        ensures Store.Count(Snap(ents), t) == Store.Count(old(Snap(ents)), t)
      {
        CountBySpecies(Snap(ents), old(Snap(ents)), t);
      }
    }
  }
}
