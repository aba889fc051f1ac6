/**
 * The stable sort behind the ranking step: entries are ordered by the pair
 * (same-batch frequency, common name), compared lexicographically with the
 * names in code-point order, and entries whose pairs are equal keep the order
 * they arrived in (Python's `sorted` is stable).
 */
module Ranking {
  import opened Text

  /** The sort key `(species_counts[sci], common_name)`. */
  datatype RankKey = RankKey(frequency: nat, name: string)

  /** Tuple comparison: frequency first, then the name. */
  predicate KeyLe(a: RankKey, b: RankKey)
  {
    a.frequency < b.frequency || (a.frequency == b.frequency && StrLe(a.name, b.name))
  }

  lemma KeyLeReflexive(a: RankKey)
    ensures KeyLe(a, a)
  {
    StrLeReflexive(a.name);
  }

  lemma KeyLeTotal(a: RankKey, b: RankKey)
    ensures KeyLe(a, b) || KeyLe(b, a)
  {
    StrLeTotal(a.name, b.name);
  }

  lemma KeyLeAntisymmetric(a: RankKey, b: RankKey)
    requires KeyLe(a, b) && KeyLe(b, a)
    ensures a == b
  {
    StrLeAntisymmetric(a.name, b.name);
  }

  lemma KeyLeTransitive(a: RankKey, b: RankKey, c: RankKey)
    requires KeyLe(a, b) && KeyLe(b, c)
    ensures KeyLe(a, c)
  {
    if a.frequency == b.frequency == c.frequency {
      StrLeTransitive(a.name, b.name, c.name);
    }
  }

  /** Every earlier element has a key no greater than every later one. */
  ghost predicate SortedBy<T>(xs: seq<T>, key: T -> RankKey)
  {
    forall i, j | 0 <= i < j < |xs| :: KeyLe(key(xs[i]), key(xs[j]))
  }

  /** Putting an element whose key is below all the others in front keeps a sorted sequence sorted. */
  lemma SortedHead<T>(h: T, rest: seq<T>, key: T -> RankKey)
    requires SortedBy(rest, key)
    requires forall z | z in rest :: KeyLe(key(h), key(z))
    ensures SortedBy([h] + rest, key)
  {
    var r := [h] + rest;
    forall i, j | 0 <= i < j < |r|
      ensures KeyLe(key(r[i]), key(r[j]))
    {
      if i == 0 {
        assert r[j] == rest[j - 1];
      }
    }
  }

  /** The elements of `xs` whose key is `k`, in their order in `xs`. */
  function WithKey<T>(xs: seq<T>, key: T -> RankKey, k: RankKey): seq<T>
  {
    if xs == [] then []
    else (if key(xs[0]) == k then [xs[0]] else []) + WithKey(xs[1..], key, k)
  }

  lemma WithKeyCons<T>(h: T, rest: seq<T>, key: T -> RankKey, k: RankKey)
    ensures WithKey([h] + rest, key, k) == (if key(h) == k then [h] else []) + WithKey(rest, key, k)
  {
    assert ([h] + rest)[1..] == rest;
  }

  /** `ys` keeps, for every key, the relative order that `xs` has among the elements of that key. */
  ghost predicate StableWith<T>(ys: seq<T>, xs: seq<T>, key: T -> RankKey)
  {
    forall k :: WithKey(ys, key, k) == WithKey(xs, key, k)
  }

  /** The sortedness half of the `Insert` step that stops in front of the head of `ys`. */
  lemma SortedInFront<T>(x: T, ys: seq<T>, key: T -> RankKey)
    requires ys != [] && KeyLe(key(x), key(ys[0]))
    ensures SortedBy(ys, key) ==> SortedBy([x] + ys, key)
  {
    if SortedBy(ys, key) {
      forall z | z in ys
        ensures KeyLe(key(x), key(z))
      {
        var j :| 0 <= j < |ys| && ys[j] == z;
        if j > 0 {
          KeyLeTransitive(key(x), key(ys[0]), key(z));
        }
      }
      SortedHead(x, ys, key);
    }
  }

  /**
   * Places `x` in front of the first element whose key is not below its own.
   * `x` comes from earlier in the input than every element of `ys`, so it goes
   * before the elements that tie with it.
   */
  function Insert<T>(x: T, ys: seq<T>, key: T -> RankKey): (r: seq<T>)
    ensures multiset(r) == multiset(ys) + multiset{x}
  {
    if ys == [] then [x]
    else if KeyLe(key(x), key(ys[0])) then [x] + ys
    else
      assert ys == [ys[0]] + ys[1..];
      [ys[0]] + Insert(x, ys[1..], key)
  }

  lemma {:induction false} InsertSorted<T>(x: T, ys: seq<T>, key: T -> RankKey)
    requires SortedBy(ys, key)
    ensures SortedBy(Insert(x, ys, key), key)
  {
    if ys == [] {
    } else if KeyLe(key(x), key(ys[0])) {
      SortedInFront(x, ys, key);
    } else {
      var rest := Insert(x, ys[1..], key);
      InsertSorted(x, ys[1..], key);
      KeyLeTotal(key(x), key(ys[0]));
      forall z | z in rest
        ensures KeyLe(key(ys[0]), key(z))
      {
        assert z in multiset(rest);
        if z != x {
          assert z in multiset(ys[1..]);
          var j :| 0 <= j < |ys[1..]| && ys[1..][j] == z;
          assert ys[j + 1] == z;
        }
      }
      SortedHead(ys[0], rest, key);
    }
  }

  /** Inserting `x` adds it at the front of its own key's elements and leaves every other key's elements alone. */
  lemma {:induction false} InsertWithKey<T>(x: T, ys: seq<T>, key: T -> RankKey, k: RankKey)
    ensures WithKey(Insert(x, ys, key), key, k) == (if key(x) == k then [x] else []) + WithKey(ys, key, k)
  {
    if ys == [] {
    } else if KeyLe(key(x), key(ys[0])) {
      assert Insert(x, ys, key) == [x] + ys;
      WithKeyCons(x, ys, key, k);
    } else {
      KeyLeReflexive(key(x));
      var rest := Insert(x, ys[1..], key);
      assert Insert(x, ys, key) == [ys[0]] + rest;
      InsertWithKey(x, ys[1..], key, k);
      assert WithKey(rest, key, k) == (if key(x) == k then [x] else []) + WithKey(ys[1..], key, k);
      WithKeyCons(ys[0], rest, key, k);
      assert WithKey(ys, key, k) == (if key(ys[0]) == k then [ys[0]] else []) + WithKey(ys[1..], key, k);
      if key(x) == k {
        assert key(ys[0]) != k;
        assert WithKey([ys[0]] + rest, key, k) == WithKey(rest, key, k);
        assert WithKey(ys, key, k) == WithKey(ys[1..], key, k);
      } else {
        assert WithKey(rest, key, k) == WithKey(ys[1..], key, k);
      }
    }
  }

  /** A stable insertion sort. */
  function SortBy<T>(xs: seq<T>, key: T -> RankKey): (r: seq<T>)
    ensures multiset(r) == multiset(xs)
    ensures SortedBy(r, key)
    ensures StableWith(r, xs, key)
  {
    if xs == [] then []
    else
      var rest := SortBy(xs[1..], key);
      assert xs == [xs[0]] + xs[1..];
      InsertSorted(xs[0], rest, key);
      SortByStep(xs, rest, key);
      Insert(xs[0], rest, key)
  }

  lemma SortByStep<T>(xs: seq<T>, rest: seq<T>, key: T -> RankKey)
    requires xs != [] && StableWith(rest, xs[1..], key)
    ensures StableWith(Insert(xs[0], rest, key), xs, key)
  {
    forall k
      ensures WithKey(Insert(xs[0], rest, key), key, k) == WithKey(xs, key, k)
    {
      InsertWithKey(xs[0], rest, key, k);
    }
  }

  /** Sorting input that is already in order changes nothing. */
  lemma {:induction false} SortBySortedIsIdentity<T>(xs: seq<T>, key: T -> RankKey)
    requires SortedBy(xs, key)
    ensures SortBy(xs, key) == xs
  {
    if xs != [] {
      assert SortedBy(xs[1..], key);
      SortBySortedIsIdentity(xs[1..], key);
      if xs[1..] != [] {
        assert KeyLe(key(xs[0]), key(xs[1..][0]));
      }
      assert xs == [xs[0]] + xs[1..];
    }
  }

  /** Sorting twice gives the same order as sorting once. */
  lemma SortByIdempotent<T>(xs: seq<T>, key: T -> RankKey)
    ensures SortBy(SortBy(xs, key), key) == SortBy(xs, key)
  {
    SortBySortedIsIdentity(SortBy(xs, key), key);
  }

  /**
   * Two sorted sequences holding the same elements, and agreeing on the order of
   * the elements of every key, are the same sequence: ties are broken only by
   * the per-key order, never by chance.
   */
  lemma {:induction false} SortedStableUnique<T>(ys: seq<T>, zs: seq<T>, key: T -> RankKey)
    requires SortedBy(ys, key) && SortedBy(zs, key)
    requires multiset(ys) == multiset(zs)
    requires StableWith(ys, zs, key)
    ensures ys == zs
    decreases |ys|
  {
    assert |ys| == |multiset(ys)| == |multiset(zs)| == |zs|;
    if ys != [] {
      var k0, k1 := key(ys[0]), key(zs[0]);
      HeadKeyIsLeast(ys, zs[0], key);
      HeadKeyIsLeast(zs, ys[0], key);
      KeyLeAntisymmetric(k0, k1);
      assert WithKey(ys, key, k0)[0] == ys[0];
      assert WithKey(zs, key, k0)[0] == zs[0];
      assert ys[0] == zs[0];
      forall k
        ensures WithKey(ys[1..], key, k) == WithKey(zs[1..], key, k)
      {
        var h := if key(ys[0]) == k then [ys[0]] else [];
        assert WithKey(ys, key, k) == h + WithKey(ys[1..], key, k);
        assert WithKey(zs, key, k) == h + WithKey(zs[1..], key, k);
        assert WithKey(ys[1..], key, k) == WithKey(ys, key, k)[|h|..];
        assert WithKey(zs[1..], key, k) == WithKey(zs, key, k)[|h|..];
      }
      assert ys == [ys[0]] + ys[1..];
      assert zs == [zs[0]] + zs[1..];
      assert multiset(ys) == multiset{ys[0]} + multiset(ys[1..]);
      assert multiset(zs) == multiset{ys[0]} + multiset(zs[1..]);
      assert multiset(ys[1..]) == multiset(ys) - multiset{ys[0]};
      assert multiset(zs[1..]) == multiset(zs) - multiset{ys[0]};
      SortedStableUnique(ys[1..], zs[1..], key);
    }
  }

  /** In a sorted sequence the first element's key is no greater than the key of any element. */
  lemma HeadKeyIsLeast<T>(ys: seq<T>, z: T, key: T -> RankKey)
    requires SortedBy(ys, key) && z in multiset(ys)
    ensures KeyLe(key(ys[0]), key(z))
  {
    var j :| 0 <= j < |ys| && ys[j] == z;
    if j == 0 {
      KeyLeReflexive(key(z));
    }
  }

  /** `SortBy` is exactly the stable sort: its result is the one sorted permutation that keeps every key's order. */
  lemma SortByCharacterized<T>(xs: seq<T>, ys: seq<T>, key: T -> RankKey)
    ensures ys == SortBy(xs, key) <==>
              SortedBy(ys, key) && multiset(ys) == multiset(xs) && StableWith(ys, xs, key)
  {
    var r := SortBy(xs, key);
    if SortedBy(ys, key) && multiset(ys) == multiset(xs) && StableWith(ys, xs, key) {
      SortedStableUnique(ys, r, key);
    }
  }
}
