/** The entity store seen as values: each entity reduced to its species and
    position (a Body), and the bookkeeping the reaction engine does on the
    store: counting a species, choosing the entities of a species nearest to a
    point (`removeSome`) and appending freshly spawned ones (`spawn`). */
module Store {

  import opened Catalog
  import opened Seqs

  /** What the bookkeeping sees of an entity. */
  datatype Body = Body(species: Species, x: real, y: real)

  /** The random values `spawn` draws for one new entity: an offset from the
      spawn point, a velocity, a rotation and an angular velocity. */
  datatype SpawnDraw = SpawnDraw(dx: real, dy: real, vx: real, vy: real, rot: real, vr: real)

  /** `count(type)`: the number of entities of species t. */
  function Count(s: seq<Body>, t: Species): (n: nat)
    ensures n <= |s|
  {
    if s == [] then 0
    else Count(s[..|s| - 1], t) + if s[|s| - 1].species == t then 1 else 0
  }

  /** Counting one more position of a prefix. */
  lemma CountStep(s: seq<Body>, i: nat, t: Species)
    requires i < |s|
    ensures Count(s[..i + 1], t) == Count(s[..i], t) + if s[i].species == t then 1 else 0
  {
    assert s[..i + 1][..i] == s[..i];
  }

  /** Count is the size of the set of positions holding species t. */
  lemma {:induction false} CountIsCardinality(s: seq<Body>, t: Species)
    ensures Count(s, t) == |set k | 0 <= k < |s| && s[k].species == t|
  {
    if s != [] {
      CountIsCardinality(s[..|s| - 1], t);
      SpeciesSetStep(s, t);
    }
  }

  /** The positions of species t grow by the last one, if it is of t. */
  lemma SpeciesSetStep(s: seq<Body>, t: Species)
    requires s != []
    ensures var init := s[..|s| - 1];
      |set k | 0 <= k < |s| && s[k].species == t| ==
      |set k | 0 <= k < |init| && init[k].species == t| + if s[|s| - 1].species == t then 1 else 0
  {
    var init := s[..|s| - 1];
    var before := set k | 0 <= k < |init| && init[k].species == t;
    var after := set k | 0 <= k < |s| && s[k].species == t;
    if s[|s| - 1].species == t {
      assert after == before + {|s| - 1};
      assert |s| - 1 !in before;
    } else {
      assert after == before;
    }
  }

  lemma {:induction false} CountAppend(a: seq<Body>, b: seq<Body>, t: Species)
    ensures Count(a + b, t) == Count(a, t) + Count(b, t)
  {
    if b != [] {
      CountAppend(a, b[..|b| - 1], t);
      assert (a + b)[..|a + b| - 1] == a + b[..|b| - 1];
      assert (a + b)[|a + b| - 1] == b[|b| - 1];
    } else {
      assert a + b == a;
    }
  }

  /** Counts depend only on the species at each position, not on positions in
      the plane: moving entities never changes a count. */
  lemma {:induction false} CountBySpecies(a: seq<Body>, b: seq<Body>, t: Species)
    requires |a| == |b|
    requires forall k | 0 <= k < |a| :: a[k].species == b[k].species
    ensures Count(a, t) == Count(b, t)
  {
    if a != [] {
      CountBySpecies(a[..|a| - 1], b[..|b| - 1], t);
    }
  }

  /** The entities whose species is not t, in store order. */
  function Others(s: seq<Body>, t: Species): (r: seq<Body>)
    ensures forall b | b in r :: b in s && b.species != t
  {
    if s == [] then []
    else Others(s[..|s| - 1], t) + if s[|s| - 1].species != t then [s[|s| - 1]] else []
  }

  /** The positions holding species t, in increasing order (the first loop of
      `removeSome`). */
  function IndicesOf(s: seq<Body>, t: Species): (r: seq<nat>)
    ensures |r| == Count(s, t)
    ensures forall k: nat :: k in r <==> k < |s| && s[k].species == t
    ensures forall i, j | 0 <= i < j < |r| :: r[i] < r[j]
  {
    if s == [] then []
    else
      var init := IndicesOf(s[..|s| - 1], t);
      assert forall i | 0 <= i < |init| :: init[i] in init && init[i] < |s| - 1;
      init + if s[|s| - 1].species == t then [|s| - 1] else []
  }

  /** Collecting one more position of a prefix. */
  lemma IndicesStep(s: seq<Body>, i: nat, t: Species)
    requires i < |s|
    ensures IndicesOf(s[..i + 1], t) == IndicesOf(s[..i], t) + if s[i].species == t then [i] else []
  {
    assert s[..i + 1][..i] == s[..i];
  }

  function Dist2(b: Body, x: real, y: real): real {
    (b.x - x) * (b.x - x) + (b.y - y) * (b.y - y)
  }

  /** The sort key of `removeSome`: the squared distance from the entity at a
      position to the point (x, y). */
  function DistKey(s: seq<Body>, x: real, y: real): nat -> real {
    (k: nat) => if k < |s| then Dist2(s[k], x, y) else 0.0
  }

  /** The sort key of the removal order: larger positions first. */
  function Descending(k: nat): real {
    -(k as real)
  }

  /** The positions `removeSome(t, n, x, y)` removes: those of species t
      sorted by squared distance to (x, y), ties in store order, the first n. */
  function NearestIndices(s: seq<Body>, t: Species, n: nat, x: real, y: real): (r: seq<nat>)
    ensures |r| == Min(n, Count(s, t))
    ensures NoDup(r)
    ensures forall k | k in r :: k < |s| && s[k].species == t
  {
    var candidates := IndicesOf(s, t);
    var sorted := SortBy<nat>(candidates, DistKey(s, x, y));
    SortByNoDup(candidates, DistKey(s, x, y));
    PrefixOf(sorted, n);
    forall k | k in sorted
      ensures k < |s| && s[k].species == t
    {
      assert k in multiset(sorted);
      assert k in candidates;
    }
    Prefix(sorted, n)
  }

  /** The order in which `removeSome` splices: the chosen positions from the
      largest to the smallest. */
  function RemovalOrder(s: seq<Body>, t: Species, n: nat, x: real, y: real): (r: seq<nat>)
    ensures Elements(r) == Elements(NearestIndices(s, t, n, x, y))
    ensures forall i, j | 0 <= i < j < |r| :: r[i] > r[j]
  {
    var chosen := NearestIndices(s, t, n, x, y);
    SameElements(SortBy(chosen, Descending), chosen);
    DescendingStrict(chosen);
    SortBy(chosen, Descending)
  }

  /** Sorting distinct positions by Descending orders them strictly downwards. */
  lemma DescendingStrict(q: seq<nat>)
    requires NoDup(q)
    ensures forall i, j | 0 <= i < j < |SortBy(q, Descending)| :: SortBy(q, Descending)[i] > SortBy(q, Descending)[j]
  {
    var r := SortBy(q, Descending);
    SortByNoDup(q, Descending);
    forall i, j | 0 <= i < j < |r|
      ensures r[i] > r[j]
    {
      assert Descending(r[i]) <= Descending(r[j]);
      assert r[i] != r[j];
    }
  }

  /** The store after `removeSome(t, n, x, y)`. */
  function RemoveNearest(s: seq<Body>, t: Species, n: nat, x: real, y: real): seq<Body> {
    Without(s, Elements(NearestIndices(s, t, n, x, y)))
  }

  /** Removing positions that all hold species t takes exactly that many
      entities, all of species t. */
  lemma WithoutOfSpecies(s: seq<Body>, drop: set<int>, t: Species, u: Species)
    requires forall d | d in drop :: 0 <= d < |s| && s[d].species == t
    ensures |Without(s, drop)| == |s| - |drop|
    ensures Count(Without(s, drop), u) == Count(s, u) - if u == t then |drop| else 0
  {
    WithoutLength(s, drop);
    WithoutCount(s, drop, t, u);
  }

  /** Dropping positions that all lie inside the sequence shortens it by
      their number. */
  lemma {:induction false} WithoutLength(s: seq<Body>, drop: set<int>)
    requires forall d | d in drop :: 0 <= d < |s|
    ensures |Without(s, drop)| == |s| - |drop|
  {
    if s == [] {
      assert forall d :: d !in drop;
      assert drop == {};
    } else {
      var last := |s| - 1;
      var rest := drop - {last};
      assert forall d | d in rest :: 0 <= d < last;
      WithoutLength(s[..last], rest);
      WithoutInRange(s[..last], drop, rest);
      if last in drop {
        DropLast(drop, last);
      } else {
        assert rest == drop;
      }
    }
  }

  /** Dropping positions of species t lowers t's count by their number and
      leaves the other counts. */
  lemma {:induction false} WithoutCount(s: seq<Body>, drop: set<int>, t: Species, u: Species)
    requires forall d | d in drop :: 0 <= d < |s| && s[d].species == t
    ensures Count(Without(s, drop), u) == Count(s, u) - if u == t then |drop| else 0
  {
    if s == [] {
      assert forall d :: d !in drop;
      assert drop == {};
    } else {
      var last := |s| - 1;
      var init := s[..last];
      var rest := drop - {last};
      assert forall d | d in rest :: 0 <= d < |init| && init[d].species == t;
      WithoutCount(init, rest, t, u);
      WithoutInRange(init, drop, rest);
      var w := Without(init, rest);
      assert Count(s, u) == Count(init, u) + if s[last].species == u then 1 else 0;
      if last in drop {
        DropLast(drop, last);
        assert Without(s, drop) == w;
      } else {
        assert rest == drop;
        LastKept(w, s[last], u);
        assert Without(s, drop) == w + [s[last]];
      }
    }
  }

  lemma DropLast(drop: set<int>, last: int)
    requires last in drop
    ensures |drop| == |drop - {last}| + 1
  {
    assert drop == (drop - {last}) + {last};
  }

  lemma LastKept(w: seq<Body>, b: Body, u: Species)
    ensures Count(w + [b], u) == Count(w, u) + if b.species == u then 1 else 0
  {
    assert (w + [b])[..|w|] == w;
  }

  /** ... and leaves every entity of another species in its place in the
      order. */
  lemma {:induction false} WithoutKeepsOthers(s: seq<Body>, drop: set<int>, t: Species)
    requires forall d | d in drop :: 0 <= d < |s| && s[d].species == t
    ensures Others(Without(s, drop), t) == Others(s, t)
  {
    if s != [] {
      var last := |s| - 1;
      var init := s[..last];
      var rest := drop - {last};
      WithoutKeepsOthers(init, rest, t);
      WithoutInRange(init, drop, rest);
      var w := Without(init, rest);
      if last in drop {
        assert Without(s, drop) == w;
      } else {
        assert Without(s, drop) == w + [s[last]];
        OthersSnoc(w, s[last], t);
      }
    }
  }

  lemma OthersSnoc(w: seq<Body>, b: Body, t: Species)
    ensures Others(w + [b], t) == Others(w, t) + if b.species != t then [b] else []
  {
    assert (w + [b])[..|w|] == w;
  }

  /** `removeSome(t, n, x, y)` removes exactly min(n, count(t)) entities, all of
      species t; the entities of other species stay, in their order. */
  lemma RemoveNearestCounts(s: seq<Body>, t: Species, n: nat, x: real, y: real)
    ensures |RemoveNearest(s, t, n, x, y)| == |s| - Min(n, Count(s, t))
    ensures Count(RemoveNearest(s, t, n, x, y), t) == Count(s, t) - Min(n, Count(s, t))
    ensures forall u | u != t :: Count(RemoveNearest(s, t, n, x, y), u) == Count(s, u)
    ensures Others(RemoveNearest(s, t, n, x, y), t) == Others(s, t)
  {
    var chosen := NearestIndices(s, t, n, x, y);
    NoDupCardinality(chosen);
    WithoutOfSpecies(s, Elements(chosen), t, t);
    forall u | u != t
      ensures Count(RemoveNearest(s, t, n, x, y), u) == Count(s, u)
    {
      WithoutOfSpecies(s, Elements(chosen), t, u);
    }
    WithoutKeepsOthers(s, Elements(chosen), t);
  }

  /** `removeSome` prefers the nearest entities: every removed entity is at
      least as close to (x, y) as every entity of species t that stays. */
  lemma RemoveNearestPrefersClosest(s: seq<Body>, t: Species, n: nat, x: real, y: real, gone: nat, kept: nat)
    requires gone in NearestIndices(s, t, n, x, y)
    requires kept < |s| && s[kept].species == t && kept !in NearestIndices(s, t, n, x, y)
    ensures Dist2(s[gone], x, y) <= Dist2(s[kept], x, y)
  {
    var key := DistKey(s, x, y);
    var sorted := SortBy(IndicesOf(s, t), key);
    assert kept in multiset(sorted);
    var q :| 0 <= q < |sorted| && sorted[q] == kept;
    var p :| 0 <= p < Min(n, |sorted|) && sorted[p] == gone;
    var chosen := Prefix(sorted, n);
    assert chosen == NearestIndices(s, t, n, x, y);
    assert forall i | 0 <= i < |chosen| :: chosen[i] in chosen;
    assert key(sorted[p]) <= key(sorted[q]);
  }

  /** The entities `spawn(t, n, x, y)` appends, one per draw, in draw order. */
  function SpawnBodies(t: Species, x: real, y: real, draws: seq<SpawnDraw>): (r: seq<Body>)
    ensures |r| == |draws|
    ensures forall k | 0 <= k < |draws| :: r[k] == Body(t, x + draws[k].dx, y + draws[k].dy)
  {
    if draws == [] then []
    else
      var d := draws[|draws| - 1];
      SpawnBodies(t, x, y, draws[..|draws| - 1]) + [Body(t, x + d.dx, y + d.dy)]
  }

  /** Spawning n entities of species t adds n to the count of t and nothing to
      any other count. */
  lemma {:induction false} SpawnBodiesCount(t: Species, x: real, y: real, draws: seq<SpawnDraw>, u: Species)
    ensures Count(SpawnBodies(t, x, y, draws), u) == if u == t then |draws| else 0
  {
    if draws != [] {
      var init := draws[..|draws| - 1];
      SpawnBodiesCount(t, x, y, init, u);
      var r := SpawnBodies(t, x, y, draws);
      assert r[..|r| - 1] == SpawnBodies(t, x, y, init);
    }
  }
}
