/** `resolveCollisions` on values: the motions of the whole list, in list
    order, with each entity's collision radius beside it. Entity i first
    meets every later entity j in turn (PairResponse), then is clamped into
    the canvas; an entity whose turn is over is never touched again. */
module Collisions {

  import opened Kinematics

  /** Pair (i, j) of the pass applied to the motions ms, with radii rs. */
  function PairAt(ms: seq<Motion>, rs: seq<real>, hypot: (real, real) -> real, i: nat, j: nat): (r: seq<Motion>)
    requires |rs| == |ms| && i < |ms| && j < |ms|
    ensures |r| == |ms|
    ensures forall k | 0 <= k < |ms| && k != i && k != j :: r[k] == ms[k]
  {
    var p := PairResponse(ms[i], ms[j], rs[i] + rs[j], hypot(ms[j].x - ms[i].x, ms[j].y - ms[i].y));
    ms[i := p.0][j := p.1]
  }

  /** The inner loop of entity i's turn, from j to the end of the list. */
  function Row(ms: seq<Motion>, rs: seq<real>, hypot: (real, real) -> real, i: nat, j: nat): (r: seq<Motion>)
    requires |rs| == |ms| && i < j
    ensures |r| == |ms|
    ensures forall k | 0 <= k < i && k < |ms| :: r[k] == ms[k]
    decreases |ms| - j
  {
    if j >= |ms| then ms
    else Row(PairAt(ms, rs, hypot, i, j), rs, hypot, i, j + 1)
  }

  /** One iteration of the inner loop. */
  lemma RowStep(ms: seq<Motion>, rs: seq<real>, hypot: (real, real) -> real, i: nat, j: nat)
    requires |rs| == |ms| && i < j < |ms|
    ensures Row(ms, rs, hypot, i, j) == Row(PairAt(ms, rs, hypot, i, j), rs, hypot, i, j + 1)
  {
  }

  /** The clamp that ends entity i's turn: its centre is put back between
      the radius and the far edges less the radius. */
  function ClampAt(ms: seq<Motion>, i: nat, cr: real, w: real, h: real): (r: seq<Motion>)
    requires i < |ms|
    ensures |r| == |ms| && Settled(r[i], cr, w, h)
    ensures forall k | 0 <= k < |ms| && k != i :: r[k] == ms[k]
  {
    ms[i := ms[i].(x := Clamp(ms[i].x, cr, w - cr), y := Clamp(ms[i].y, cr, h - cr))]
  }

  /** Where a clamp leaves an entity of radius cr: never nearer the top or
      left edge than its radius, and fully inside whenever the canvas is at
      least a diameter wide and high. */
  predicate Settled(m: Motion, cr: real, w: real, h: real) {
    cr <= m.x && cr <= m.y &&
    (w >= 2.0 * cr && h >= 2.0 * cr ==> m.x <= w - cr && m.y <= h - cr)
  }

  /** The outer loop of the pass from entity i on. Earlier entities keep
      their motion and every entity from i on ends settled. */
  function Pass(ms: seq<Motion>, rs: seq<real>, hypot: (real, real) -> real, w: real, h: real, i: nat): (r: seq<Motion>)
    requires |rs| == |ms|
    ensures |r| == |ms|
    ensures forall k | 0 <= k < i && k < |ms| :: r[k] == ms[k]
    ensures forall k | i <= k < |ms| :: Settled(r[k], rs[k], w, h)
    decreases |ms| - i
  {
    if i >= |ms| then ms
    else Pass(ClampAt(Row(ms, rs, hypot, i, i + 1), i, rs[i], w, h), rs, hypot, w, h, i + 1)
  }

  /** One iteration of the outer loop. */
  lemma PassStep(ms: seq<Motion>, rs: seq<real>, hypot: (real, real) -> real, w: real, h: real, i: nat)
    requires |rs| == |ms| && i < |ms|
    ensures Pass(ms, rs, hypot, w, h, i) == Pass(ClampAt(Row(ms, rs, hypot, i, i + 1), i, rs[i], w, h), rs, hypot, w, h, i + 1)
  {
  }

  /** `resolveCollisions()` on the motions of the whole list. */
  function Resolve(ms: seq<Motion>, rs: seq<real>, hypot: (real, real) -> real, w: real, h: real): (r: seq<Motion>)
    requires |rs| == |ms|
    ensures |r| == |ms|
    ensures forall k | 0 <= k < |ms| :: Settled(r[k], rs[k], w, h)
  {
    Pass(ms, rs, hypot, w, h, 0)
  }

  /** Total momentum of the list (unit masses), one coordinate each. */
  function TotalVx(ms: seq<Motion>): real {
    if ms == [] then 0.0 else TotalVx(ms[..|ms| - 1]) + ms[|ms| - 1].vx
  }

  function TotalVy(ms: seq<Motion>): real {
    if ms == [] then 0.0 else TotalVy(ms[..|ms| - 1]) + ms[|ms| - 1].vy
  }

  /** Replacing one motion changes the totals by the difference. */
  lemma {:induction false} TotalUpdate(ms: seq<Motion>, i: nat, m: Motion)
    requires i < |ms|
    ensures TotalVx(ms[i := m]) == TotalVx(ms) - ms[i].vx + m.vx
    ensures TotalVy(ms[i := m]) == TotalVy(ms) - ms[i].vy + m.vy
  {
    var last := |ms| - 1;
    assert ms[i := m][..last] == if i == last then ms[..last] else ms[..last][i := m];
    if i < last {
      TotalUpdate(ms[..last], i, m);
    }
  }

  /** Clamping moves positions only: the totals stay. */
  lemma ClampKeepsMomentum(ms: seq<Motion>, i: nat, cr: real, w: real, h: real)
    requires i < |ms|
    ensures TotalVx(ClampAt(ms, i, cr, w, h)) == TotalVx(ms)
    ensures TotalVy(ClampAt(ms, i, cr, w, h)) == TotalVy(ms)
  {
    TotalUpdate(ms, i, ClampAt(ms, i, cr, w, h)[i]);
  }

  /** One pair exchanges momentum without creating any. */
  lemma PairKeepsMomentum(ms: seq<Motion>, rs: seq<real>, hypot: (real, real) -> real, i: nat, j: nat)
    requires |rs| == |ms| && i < j < |ms|
    ensures TotalVx(PairAt(ms, rs, hypot, i, j)) == TotalVx(ms)
    ensures TotalVy(PairAt(ms, rs, hypot, i, j)) == TotalVy(ms)
  {
    var p := PairResponse(ms[i], ms[j], rs[i] + rs[j], hypot(ms[j].x - ms[i].x, ms[j].y - ms[i].y));
    TotalUpdate(ms, i, p.0);
    TotalUpdate(ms[i := p.0], j, p.1);
  }

  lemma {:induction false} RowKeepsMomentum(ms: seq<Motion>, rs: seq<real>, hypot: (real, real) -> real, i: nat, j: nat)
    requires |rs| == |ms| && i < j
    ensures TotalVx(Row(ms, rs, hypot, i, j)) == TotalVx(ms)
    ensures TotalVy(Row(ms, rs, hypot, i, j)) == TotalVy(ms)
    decreases |ms| - j
  {
    if j < |ms| {
      PairKeepsMomentum(ms, rs, hypot, i, j);
      RowKeepsMomentum(PairAt(ms, rs, hypot, i, j), rs, hypot, i, j + 1);
    }
  }

  /** The collision pass conserves the total momentum of the list: pairs
      only exchange it and the clamps do not touch velocities. */
  lemma {:induction false} PassKeepsMomentum(ms: seq<Motion>, rs: seq<real>, hypot: (real, real) -> real, w: real, h: real, i: nat)
    requires |rs| == |ms|
    ensures TotalVx(Pass(ms, rs, hypot, w, h, i)) == TotalVx(ms)
    ensures TotalVy(Pass(ms, rs, hypot, w, h, i)) == TotalVy(ms)
    decreases |ms| - i
  {
    if i < |ms| {
      var row := Row(ms, rs, hypot, i, i + 1);
      RowKeepsMomentum(ms, rs, hypot, i, i + 1);
      ClampKeepsMomentum(row, i, rs[i], w, h);
      PassKeepsMomentum(ClampAt(row, i, rs[i], w, h), rs, hypot, w, h, i + 1);
    }
  }

  lemma ResolveKeepsMomentum(ms: seq<Motion>, rs: seq<real>, hypot: (real, real) -> real, w: real, h: real)
    requires |rs| == |ms|
    ensures TotalVx(Resolve(ms, rs, hypot, w, h)) == TotalVx(ms)
    ensures TotalVy(Resolve(ms, rs, hypot, w, h)) == TotalVy(ms)
  {
    PassKeepsMomentum(ms, rs, hypot, w, h, 0);
  }
}
