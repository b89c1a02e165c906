/** Generic sequence operations the engine relies on: the stable sort that
    stands for `Array.prototype.sort` with a numeric comparator, `slice(0, n)`,
    and removal of a set of positions (what a run of `splice(k, 1)` calls in
    descending index order amounts to). */
module Seqs {

  function Min(a: int, b: int): int { if a <= b then a else b }

  predicate NoDup<T(==)>(s: seq<T>) {
    forall i, j | 0 <= i < j < |s| :: s[i] != s[j]
  }

  predicate SortedBy<T>(s: seq<T>, key: T -> real) {
    forall i, j | 0 <= i < j < |s| :: key(s[i]) <= key(s[j])
  }

  /** The set of elements of a sequence. */
  function Elements<T>(s: seq<T>): set<T> {
    set x | x in s
  }

  /** Inserts `x` in front of the first element whose key is not smaller than
      its own; SortBy inserts the elements from the last to the first, so
      elements of equal key keep their original order (a stable sort). */
  function InsertBy<T(==)>(x: T, s: seq<T>, key: T -> real): (r: seq<T>)
    ensures |r| == |s| + 1
    ensures multiset(r) == multiset(s) + multiset{x}
  {
    if s == [] || key(x) <= key(s[0]) then
      [x] + s
    else
      assert s == [s[0]] + s[1..];
      [s[0]] + InsertBy(x, s[1..], key)
  }

  lemma {:induction false} InsertBySorted<T>(x: T, s: seq<T>, key: T -> real)
    requires SortedBy(s, key)
    ensures SortedBy(InsertBy(x, s, key), key)
  {
    if s != [] && key(x) > key(s[0]) {
      var rest := InsertBy(x, s[1..], key);
      InsertBySorted(x, s[1..], key);
      InsertByFrom(x, s[1..], key);
      var r := [s[0]] + rest;
      forall i, j | 0 <= i < j < |r|
        ensures key(r[i]) <= key(r[j])
      {
        if i == 0 {
          assert r[j] == rest[j - 1] && rest[j - 1] in rest;
          if rest[j - 1] != x {
            var q :| 0 <= q < |s[1..]| && s[1..][q] == rest[j - 1];
            assert s[q + 1] == rest[j - 1];
          }
        } else {
          assert r[i] == rest[i - 1] && r[j] == rest[j - 1];
        }
      }
    }
  }

  /** Every element of InsertBy(x, s) is x or an element of s. */
  lemma InsertByFrom<T>(x: T, s: seq<T>, key: T -> real)
    ensures forall y | y in InsertBy(x, s, key) :: y == x || y in s
  {
    forall y | y in InsertBy(x, s, key)
      ensures y == x || y in s
    {
      assert y in multiset(InsertBy(x, s, key));
    }
  }

  lemma {:induction false} InsertByNoDup<T>(x: T, s: seq<T>, key: T -> real)
    requires NoDup(s) && x !in s
    ensures NoDup(InsertBy(x, s, key))
  {
    if s != [] && key(x) > key(s[0]) {
      var rest := InsertBy(x, s[1..], key);
      InsertByNoDup(x, s[1..], key);
      assert s == [s[0]] + s[1..];
      assert s[0] !in multiset(rest);
    }
  }

  /** Stable insertion sort by a real-valued key: the comparator
      `(a, b) => key(a) - key(b)`. */
  function SortBy<T(==)>(s: seq<T>, key: T -> real): (r: seq<T>)
    ensures |r| == |s|
    ensures multiset(r) == multiset(s)
    ensures SortedBy(r, key)
  {
    if s == [] then
      []
    else
      assert s == [s[0]] + s[1..];
      InsertBySorted(s[0], SortBy(s[1..], key), key);
      InsertBy(s[0], SortBy(s[1..], key), key)
  }

  /** The elements of s whose key is k, in their order in s. */
  function KeyedAs<T>(s: seq<T>, key: T -> real, k: real): (r: seq<T>)
    ensures |r| <= |s|
  {
    if s == [] then [] else (if key(s[0]) == k then [s[0]] else []) + KeyedAs(s[1..], key, k)
  }

  /** InsertBy puts x in front of every element with the same key. */
  lemma {:induction false} InsertByKeyed<T>(x: T, s: seq<T>, key: T -> real, k: real)
    ensures KeyedAs(InsertBy(x, s, key), key, k) == (if key(x) == k then [x] else []) + KeyedAs(s, key, k)
  {
    var r := InsertBy(x, s, key);
    if s == [] || key(x) <= key(s[0]) {
      assert r == [x] + s && r[1..] == s;
    } else {
      var rest := InsertBy(x, s[1..], key);
      assert r == [s[0]] + rest && r[1..] == rest;
      InsertByKeyed(x, s[1..], key, k);
      if key(x) == k {
        assert key(s[0]) != k;
        assert KeyedAs(r, key, k) == KeyedAs(rest, key, k);
        assert KeyedAs(s, key, k) == KeyedAs(s[1..], key, k);
      } else {
        assert KeyedAs(rest, key, k) == KeyedAs(s[1..], key, k);
      }
    }
  }

  /** SortBy is stable: the elements of any one key come out in the order
      they went in. */
  lemma {:induction false} SortByStable<T>(s: seq<T>, key: T -> real, k: real)
    ensures KeyedAs(SortBy(s, key), key, k) == KeyedAs(s, key, k)
  {
    if s != [] {
      SortByStable(s[1..], key, k);
      InsertByKeyed(s[0], SortBy(s[1..], key), key, k);
    }
  }

  lemma {:induction false} SortByNoDup<T>(s: seq<T>, key: T -> real)
    requires NoDup(s)
    ensures NoDup(SortBy(s, key))
  {
    if s != [] {
      assert s == [s[0]] + s[1..];
      SortByNoDup(s[1..], key);
      assert s[0] !in multiset(SortBy(s[1..], key));
      InsertByNoDup(s[0], SortBy(s[1..], key), key);
    }
  }

  /** Sequences with the same multiset have the same elements. */
  lemma SameElements<T>(a: seq<T>, b: seq<T>)
    requires multiset(a) == multiset(b)
    ensures Elements(a) == Elements(b)
  {
    forall y | y in a ensures y in b { assert y in multiset(a); }
    forall y | y in b ensures y in a { assert y in multiset(b); }
  }

  /** `s.slice(0, n)`: the first n elements, or all of them when there are fewer. */
  function Prefix<T>(s: seq<T>, n: nat): (r: seq<T>)
    ensures |r| == Min(n, |s|)
    ensures forall k | 0 <= k < |r| :: r[k] == s[k]
  {
    if n <= |s| then s[..n] else s
  }

  lemma PrefixOf<T>(s: seq<T>, n: nat)
    ensures forall x | x in Prefix(s, n) :: x in s
    ensures NoDup(s) ==> NoDup(Prefix(s, n))
  {
    var r := Prefix(s, n);
    forall x | x in r ensures x in s {
      var i :| 0 <= i < |r| && r[i] == x;
      assert s[i] == x;
    }
  }

  /** `s` with the elements at the positions in `drop` taken out; the others
      keep their order. */
  function Without<T(==)>(s: seq<T>, drop: set<int>): (r: seq<T>)
    ensures |r| <= |s|
    ensures forall x | x in r :: x in s
  {
    if s == [] then
      []
    else
      var init := Without(s[..|s| - 1], drop);
      init + if |s| - 1 in drop then [] else [s[|s| - 1]]
  }

  /** Only the positions inside the sequence matter to Without. */
  lemma {:induction false} WithoutInRange<T>(s: seq<T>, a: set<int>, b: set<int>)
    requires forall k | 0 <= k < |s| :: k in a <==> k in b
    ensures Without(s, a) == Without(s, b)
  {
    if s != [] {
      WithoutInRange(s[..|s| - 1], a, b);
    }
  }

  /** Dropping no position inside the sequence leaves it as it is. */
  lemma {:induction false} WithoutNothing<T>(s: seq<T>, drop: set<int>)
    requires forall k | 0 <= k < |s| :: k !in drop
    ensures Without(s, drop) == s
  {
    if s != [] {
      WithoutNothing(s[..|s| - 1], drop);
      assert s == s[..|s| - 1] + [s[|s| - 1]];
    }
  }

  /** When every dropped position lies above k, positions 0..k survive in place. */
  lemma {:induction false} WithoutKeepsPrefix<T>(s: seq<T>, drop: set<int>, k: nat)
    requires k < |s|
    requires forall d | d in drop :: d > k
    ensures |Without(s, drop)| > k
    ensures Without(s, drop)[..k + 1] == s[..k + 1]
  {
    if |s| == k + 1 {
      WithoutNothing(s, drop);
    } else {
      WithoutKeepsPrefix(s[..|s| - 1], drop, k);
      assert s[..|s| - 1][..k + 1] == s[..k + 1];
    }
  }

  /** One `splice(k, 1)` below every position already removed: dropping k as
      well is cutting position k out of the current sequence. This is why the
      source removes in descending index order. */
  lemma {:induction false} WithoutSplice<T>(s: seq<T>, drop: set<int>, k: nat)
    requires k < |s|
    requires forall d | d in drop :: d > k
    ensures |Without(s, drop)| > k
    ensures Without(s, drop + {k}) == Without(s, drop)[..k] + Without(s, drop)[k + 1..]
  {
    WithoutKeepsPrefix(s, drop, k);
    var w := Without(s, drop);
    if |s| == k + 1 {
      var init := s[..k];
      WithoutInRange(init, drop + {k}, {});
      WithoutNothing(init, {});
      WithoutNothing(s, drop);
      assert w == s;
      assert Without(s, drop + {k}) == init;
    } else {
      var init := s[..|s| - 1];
      WithoutSplice(init, drop, k);
      WithoutKeepsPrefix(init, drop, k);
      var wi := Without(init, drop);
      var tail := if |s| - 1 in drop then [] else [s[|s| - 1]];
      assert w == wi + tail;
      assert Without(s, drop + {k}) == Without(init, drop + {k}) + tail;
      assert w[..k] == wi[..k];
      assert w[k + 1..] == wi[k + 1..] + tail;
    }
  }

  /** Cutting one position out of a duplicate-free sequence keeps it duplicate-free. */
  lemma NoDupSplice<T>(s: seq<T>, k: nat)
    requires NoDup(s) && k < |s|
    ensures NoDup(s[..k] + s[k + 1..])
  {
    var r := s[..k] + s[k + 1..];
    forall i, j | 0 <= i < j < |r|
      ensures r[i] != r[j]
    {
      var i' := if i < k then i else i + 1;
      var j' := if j < k then j else j + 1;
      assert r[i] == s[i'] && r[j] == s[j'];
    }
  }

  /** A duplicate-free sequence has as many distinct elements as positions. */
  lemma {:induction false} NoDupCardinality<T>(s: seq<T>)
    requires NoDup(s)
    ensures |Elements(s)| == |s|
  {
    if s != [] {
      var init := s[..|s| - 1];
      assert NoDup(init);
      NoDupCardinality(init);
      assert Elements(s) == Elements(init) + {s[|s| - 1]};
      assert s[|s| - 1] !in Elements(init);
    }
  }
}
