/** The reaction 3 Ag2S + 2 Al + 6 H2O -> 6 Ag + 2 Al(OH)3 + 3 H2S as the
    engine performs it (`tryReact`), on the store seen as values: the
    stoichiometric gate, the search for the first Al / Ag2S contact pair, and
    the exchange of the reactant packet for the product packet around the
    contact point. */
module Reaction {

  import opened Catalog
  import opened Seqs
  import opened Store
  import opened Kinematics

  datatype Option<T> = None | Some(value: T)

  /** A reaction site: the positions of an Al entity and an Ag2S entity. */
  datatype Site = Site(al: nat, ag2s: nat)

  /** Entities each species contributes to (negative) or gains from
      (positive) one reaction. */
  function Delta(t: Species): int {
    match t
    case Ag2S => -3
    case Al => -2
    case H2O => -6
    case Ag => 6
    case AlOH3 => 2
    case H2S => 3
  }

  /** The stoichiometric gate of `tryReact`: at least 3 Ag2S, 2 Al and 6 H2O. */
  predicate HasPacket(s: seq<Body>) {
    Count(s, Ag2S) >= 3 && Count(s, Al) >= 2 && Count(s, H2O) >= 6
  }

  /** The gate admits exactly the stores where no count would go negative. */
  lemma HasPacketIsLimitingReagent(s: seq<Body>)
    ensures HasPacket(s) <==> forall t :: Count(s, t) + Delta(t) >= 0
  {
    if forall t :: Count(s, t) + Delta(t) >= 0 {
      assert Count(s, Ag2S) + Delta(Ag2S) >= 0;
      assert Count(s, Al) + Delta(Al) >= 0;
      assert Count(s, H2O) + Delta(H2O) >= 0;
    }
  }

  /** The contact test of `tryReact`: centres closer than the two collision
      radii plus a 6 px margin, `hypot` being `Math.hypot`. */
  predicate InContact(hypot: (real, real) -> real, a: Body, b: Body) {
    hypot(b.x - a.x, b.y - a.y) < CollisionRadius(a.species) + CollisionRadius(b.species) + ContactMargin
  }

  /** With `hypot` the Euclidean length, the contact test is a comparison of
      squared distances: it needs no square root. */
  lemma InContactSquared(hypot: (real, real) -> real, a: Body, b: Body)
    requires IsHypot(hypot)
    ensures var dx, dy := b.x - a.x, b.y - a.y;
      var reach := CollisionRadius(a.species) + CollisionRadius(b.species) + ContactMargin;
      InContact(hypot, a, b) <==> dx * dx + dy * dy < reach * reach
  {
    var dx, dy := b.x - a.x, b.y - a.y;
    var d := hypot(dx, dy);
    assert 0.0 <= d && d * d == dx * dx + dy * dy;
    SquaresOrdered(d, CollisionRadius(a.species) + CollisionRadius(b.species) + ContactMargin);
  }

  /** For a non-negative d and a positive r, d < r exactly when d * d < r * r. */
  lemma SquaresOrdered(d: real, r: real)
    requires 0.0 <= d && 0.0 < r
    ensures d < r <==> d * d < r * r
  {
    var dd, dr, rr := d * d, d * r, r * r;
    if d < r {
      assert dd <= dr;
      assert dr < rr;
    } else {
      assert rr <= dr;
      assert dr <= dd;
    }
  }

  /** Positions i and j hold an Al and an Ag2S entity in contact. */
  predicate IsSite(hypot: (real, real) -> real, s: seq<Body>, i: nat, j: nat) {
    i < |s| && j < |s| && s[i].species == Al && s[j].species == Ag2S && InContact(hypot, s[i], s[j])
  }

  /** The inner loop of the search: the first position from j on whose Ag2S
      entity touches the Al entity at i. */
  function PartnerFrom(hypot: (real, real) -> real, s: seq<Body>, i: nat, j: nat): (r: Option<nat>)
    decreases |s| - j
    ensures r.Some? ==> j <= r.value && IsSite(hypot, s, i, r.value)
    ensures r.Some? ==> forall k: nat | j <= k < r.value :: !IsSite(hypot, s, i, k)
    ensures r.None? ==> forall k: nat | j <= k :: !IsSite(hypot, s, i, k)
  {
    if j >= |s| then None
    else if IsSite(hypot, s, i, j) then Some(j)
    else PartnerFrom(hypot, s, i, j + 1)
  }

  /** The outer loop of the search: the first Al position from i on that has
      a partner, with its first partner. */
  function SiteFrom(hypot: (real, real) -> real, s: seq<Body>, i: nat): (r: Option<Site>)
    decreases |s| - i
    ensures r.Some? ==> i <= r.value.al && IsSite(hypot, s, r.value.al, r.value.ag2s)
    ensures r.Some? ==> forall a: nat, b: nat | i <= a < r.value.al :: !IsSite(hypot, s, a, b)
    ensures r.Some? ==> forall b: nat | b < r.value.ag2s :: !IsSite(hypot, s, r.value.al, b)
    ensures r.None? ==> forall a: nat, b: nat | i <= a :: !IsSite(hypot, s, a, b)
  {
    if i >= |s| then None
    else
      match PartnerFrom(hypot, s, i, 0)
      case Some(j) => Some(Site(i, j))
      case None => SiteFrom(hypot, s, i + 1)
  }

  /** The pair `tryReact` reacts: the least contact pair in the order (Al
      position, Ag2S position), outer loop first. */
  function FindSite(hypot: (real, real) -> real, s: seq<Body>): Option<Site> {
    SiteFrom(hypot, s, 0)
  }

  /** FindSite answers exactly whether some contact pair exists, and when it
      does it picks the one the nested loops meet first. */
  lemma FindSiteIsFirst(hypot: (real, real) -> real, s: seq<Body>)
    ensures FindSite(hypot, s).None? <==> forall a: nat, b: nat :: !IsSite(hypot, s, a, b)
    ensures FindSite(hypot, s).Some? ==>
      var st := FindSite(hypot, s).value;
      IsSite(hypot, s, st.al, st.ag2s) &&
      forall a: nat, b: nat | IsSite(hypot, s, a, b) :: st.al < a || (st.al == a && st.ag2s <= b)
  {
    var r := FindSite(hypot, s);
  }

  /** The contact point: the midpoint of the two reacting entities. */
  function Midpoint(s: seq<Body>, st: Site): (r: (real, real))
    requires st.al < |s| && st.ag2s < |s|
    ensures r.0 - s[st.al].x == s[st.ag2s].x - r.0 && r.1 - s[st.al].y == s[st.ag2s].y - r.1
  {
    ((s[st.al].x + s[st.ag2s].x) / 2.0, (s[st.al].y + s[st.ag2s].y) / 2.0)
  }

  /** The three `removeSome` calls: 3 Ag2S, then 2 Al, then 6 H2O, each time
      the ones nearest the contact point. */
  function Consume(s: seq<Body>, cx: real, cy: real): seq<Body> {
    var s1 := RemoveNearest(s, Ag2S, 3, cx, cy);
    var s2 := RemoveNearest(s1, Al, 2, cx, cy);
    RemoveNearest(s2, H2O, 6, cx, cy)
  }

  /** Number of entities one reaction spawns. */
  const ProductCount: nat := 11

  /** The species of the k-th entity a reaction spawns: the three `spawn`
      calls make 6 Ag, then 2 AlOH3, then 3 H2S. Product k uses draw k of
      the stream. */
  function ProductSpecies(k: nat): Species {
    if k < 6 then Ag else if k < 8 then AlOH3 else H2S
  }

  /** The draws for n spawned entities, from position `from` of the stream. */
  function Draws(draw: nat -> SpawnDraw, from: nat, n: nat): (r: seq<SpawnDraw>)
    ensures |r| == n
  {
    seq(n, k requires 0 <= k < n => draw(from + k))
  }

  /** The three `spawn` calls: 6 Ag, 2 AlOH3, 3 H2S around the contact point,
      appended in that order. */
  function Produce(s: seq<Body>, cx: real, cy: real, draw: nat -> SpawnDraw): seq<Body> {
    s + SpawnBodies(Ag, cx, cy, Draws(draw, 0, 6))
      + SpawnBodies(AlOH3, cx, cy, Draws(draw, 6, 2))
      + SpawnBodies(H2S, cx, cy, Draws(draw, 8, 3))
  }

  /** The products follow the kept entities in spawn order: product k is of
      species ProductSpecies(k), placed at the contact point plus draw k's
      offset. */
  lemma ProduceLayout(s: seq<Body>, cx: real, cy: real, draw: nat -> SpawnDraw)
    ensures |Produce(s, cx, cy, draw)| == |s| + ProductCount
    ensures forall k | 0 <= k < ProductCount ::
      Produce(s, cx, cy, draw)[|s| + k] == Body(ProductSpecies(k), cx + draw(k).dx, cy + draw(k).dy)
  {
    var a := SpawnBodies(Ag, cx, cy, Draws(draw, 0, 6));
    var b := SpawnBodies(AlOH3, cx, cy, Draws(draw, 6, 2));
    var c := SpawnBodies(H2S, cx, cy, Draws(draw, 8, 3));
    var r := Produce(s, cx, cy, draw);
    assert r == s + (a + b + c);
    forall k | 0 <= k < ProductCount
      ensures r[|s| + k] == Body(ProductSpecies(k), cx + draw(k).dx, cy + draw(k).dy)
    {
      if k < 6 {
        assert r[|s| + k] == a[k];
      } else if k < 8 {
        assert r[|s| + k] == b[k - 6];
      } else {
        assert r[|s| + k] == c[k - 8];
      }
    }
  }

  /** The store after one reaction at site st. */
  function ReactAt(s: seq<Body>, st: Site, draw: nat -> SpawnDraw): seq<Body>
    requires st.al < |s| && st.ag2s < |s|
  {
    var (cx, cy) := Midpoint(s, st);
    Produce(Consume(s, cx, cy), cx, cy, draw)
  }

  /** `tryReact()` on the bodies: with draw u against probability p, nothing
      happens when u > p, when the packet is short or when no Al touches an
      Ag2S; otherwise exactly one reaction happens at the first contact pair. */
  function React(hypot: (real, real) -> real, s: seq<Body>, u: real, p: real, draw: nat -> SpawnDraw): (r: seq<Body>)
    ensures u > p || !HasPacket(s) || FindSite(hypot, s).None? ==> r == s
    ensures !(u > p || !HasPacket(s) || FindSite(hypot, s).None?) ==>
      r == ReactAt(s, FindSite(hypot, s).value, draw)
  {
    if u > p then s
    else if !HasPacket(s) then s
    else match FindSite(hypot, s)
      case None => s
      case Some(st) => ReactAt(s, st, draw)
  }

  /** Removing n nearest entities of species t when at least n are present
      lowers t's count by n and leaves the other counts. */
  lemma RemoveExactly(s: seq<Body>, t: Species, n: nat, x: real, y: real)
    requires Count(s, t) >= n
    ensures |RemoveNearest(s, t, n, x, y)| == |s| - n
    ensures forall u :: Count(RemoveNearest(s, t, n, x, y), u) == Count(s, u) - if u == t then n else 0
  {
    RemoveNearestCounts(s, t, n, x, y);
  }

  /** The reactant packet leaves: 3 Ag2S, 2 Al and 6 H2O fewer, 11 entities
      fewer in all. */
  lemma ConsumeCounts(s: seq<Body>, cx: real, cy: real)
    requires HasPacket(s)
    ensures |Consume(s, cx, cy)| == |s| - 11
    ensures forall t :: Count(Consume(s, cx, cy), t) == Count(s, t) + if Delta(t) < 0 then Delta(t) else 0
  {
    var s1 := RemoveNearest(s, Ag2S, 3, cx, cy);
    RemoveExactly(s, Ag2S, 3, cx, cy);
    assert Count(s1, Al) == Count(s, Al);
    var s2 := RemoveNearest(s1, Al, 2, cx, cy);
    RemoveExactly(s1, Al, 2, cx, cy);
    assert Count(s2, H2O) == Count(s, H2O);
    var s3 := RemoveNearest(s2, H2O, 6, cx, cy);
    RemoveExactly(s2, H2O, 6, cx, cy);
    ReactantSteps(s, s1, s2, s3);
  }

  /** Three removals, of 3 Ag2S, 2 Al and 6 H2O, add up to the negative part
      of the deltas. */
  lemma ReactantSteps(s: seq<Body>, s1: seq<Body>, s2: seq<Body>, s3: seq<Body>)
    requires forall u :: Count(s1, u) == Count(s, u) - if u == Ag2S then 3 else 0
    requires forall u :: Count(s2, u) == Count(s1, u) - if u == Al then 2 else 0
    requires forall u :: Count(s3, u) == Count(s2, u) - if u == H2O then 6 else 0
    ensures forall t :: Count(s3, t) == Count(s, t) + if Delta(t) < 0 then Delta(t) else 0
  {
    forall t
      ensures Count(s3, t) == Count(s, t) + if Delta(t) < 0 then Delta(t) else 0
    {
      assert Count(s1, t) == Count(s, t) - if t == Ag2S then 3 else 0;
      assert Count(s2, t) == Count(s1, t) - if t == Al then 2 else 0;
      assert Count(s3, t) == Count(s2, t) - if t == H2O then 6 else 0;
    }
  }

  /** The product packet arrives: 6 Ag, 2 AlOH3 and 3 H2S more, 11 entities
      more in all, appended after the existing ones. */
  lemma ProduceCounts(s: seq<Body>, cx: real, cy: real, draw: nat -> SpawnDraw)
    ensures |Produce(s, cx, cy, draw)| == |s| + 11
    ensures Produce(s, cx, cy, draw)[..|s|] == s
    ensures forall t :: Count(Produce(s, cx, cy, draw), t) == Count(s, t) + if Delta(t) > 0 then Delta(t) else 0
  {
    var a := SpawnBodies(Ag, cx, cy, Draws(draw, 0, 6));
    var b := SpawnBodies(AlOH3, cx, cy, Draws(draw, 6, 2));
    var c := SpawnBodies(H2S, cx, cy, Draws(draw, 8, 3));
    forall t
      ensures Count(Produce(s, cx, cy, draw), t) == Count(s, t) + if Delta(t) > 0 then Delta(t) else 0
    {
      CountAppend(s + a + b, c, t);
      CountAppend(s + a, b, t);
      CountAppend(s, a, t);
      SpawnBodiesCount(Ag, cx, cy, Draws(draw, 0, 6), t);
      SpawnBodiesCount(AlOH3, cx, cy, Draws(draw, 6, 2), t);
      SpawnBodiesCount(H2S, cx, cy, Draws(draw, 8, 3), t);
    }
  }

  /** One reaction moves every count by exactly its stoichiometric delta and
      leaves the number of entities unchanged (11 out, 11 in). */
  lemma ReactAtCounts(s: seq<Body>, st: Site, draw: nat -> SpawnDraw)
    requires st.al < |s| && st.ag2s < |s| && HasPacket(s)
    ensures |ReactAt(s, st, draw)| == |s|
    ensures forall t :: Count(ReactAt(s, st, draw), t) == Count(s, t) + Delta(t)
  {
    var (cx, cy) := Midpoint(s, st);
    ConsumeCounts(s, cx, cy);
    ProduceCounts(Consume(s, cx, cy), cx, cy, draw);
  }

  /** `tryReact` either changes nothing or performs exactly one reaction; the
      number of entities never changes. */
  lemma ReactCounts(hypot: (real, real) -> real, s: seq<Body>, u: real, p: real, draw: nat -> SpawnDraw)
    ensures |React(hypot, s, u, p, draw)| == |s|
    ensures React(hypot, s, u, p, draw) == s ||
      forall t :: Count(React(hypot, s, u, p, draw), t) == Count(s, t) + Delta(t)
    ensures React(hypot, s, u, p, draw) != s ==> u <= p && HasPacket(s) && FindSite(hypot, s).Some?
  {
    if !(u > p || !HasPacket(s) || FindSite(hypot, s).None?) {
      ReactAtCounts(s, FindSite(hypot, s).value, draw);
    }
  }

  /** A reaction conserves atoms: each delta balances silver, aluminium,
      sulphur, oxygen and hydrogen. */
  lemma DeltasConserveAtoms()
    ensures 2 * Delta(Ag2S) + Delta(Ag) == 0
    ensures Delta(Al) + Delta(AlOH3) == 0
    ensures Delta(Ag2S) + Delta(H2S) == 0
    ensures Delta(H2O) + 3 * Delta(AlOH3) == 0
    ensures 2 * Delta(H2O) + 3 * Delta(AlOH3) + 2 * Delta(H2S) == 0
  {
  }

  /** Starting from 5 Ag2S, 5 Al and 20 H2O, a reaction leaves 2 Ag2S, 3 Al,
      14 H2O, 6 Ag, 2 AlOH3 and 3 H2S. */
  lemma FirstReaction(s: seq<Body>, st: Site, draw: nat -> SpawnDraw)
    requires st.al < |s| && st.ag2s < |s|
    requires Count(s, Ag2S) == 5 && Count(s, Al) == 5 && Count(s, H2O) == 20
    requires Count(s, Ag) == 0 && Count(s, AlOH3) == 0 && Count(s, H2S) == 0
    ensures var r := ReactAt(s, st, draw);
      Count(r, Ag2S) == 2 && Count(r, Al) == 3 && Count(r, H2O) == 14 &&
      Count(r, Ag) == 6 && Count(r, AlOH3) == 2 && Count(r, H2S) == 3
  {
    ReactAtCounts(s, st, draw);
    DeltasFrom(s, ReactAt(s, st, draw));
  }

  /** The counts of r are those of s moved by one reaction's deltas, species
      by species. */
  lemma DeltasFrom(s: seq<Body>, r: seq<Body>)
    requires forall t :: Count(r, t) == Count(s, t) + Delta(t)
    ensures Count(r, Ag2S) == Count(s, Ag2S) - 3 && Count(r, Al) == Count(s, Al) - 2
    ensures Count(r, H2O) == Count(s, H2O) - 6 && Count(r, Ag) == Count(s, Ag) + 6
    ensures Count(r, AlOH3) == Count(s, AlOH3) + 2 && Count(r, H2S) == Count(s, H2S) + 3
  {
    assert Count(r, Ag2S) == Count(s, Ag2S) + Delta(Ag2S);
    assert Count(r, Al) == Count(s, Al) + Delta(Al);
    assert Count(r, H2O) == Count(s, H2O) + Delta(H2O);
    assert Count(r, Ag) == Count(s, Ag) + Delta(Ag);
    assert Count(r, AlOH3) == Count(s, AlOH3) + Delta(AlOH3);
    assert Count(r, H2S) == Count(s, H2S) + Delta(H2S);
  }
}
