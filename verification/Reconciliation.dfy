/**
 * The reconciliation engine: life list and observation batch in, the ranked
 * and truncated list of species to chase out. Each step is a module of its own;
 * this one composes them in the order the source runs them.
 */
module Reconciliation {
  import opened Observations
  import opened Frequencies
  import opened Ranking

  /** `MAX_BIRDS_TO_SHOW`. */
  const MaxBirdsToShow: nat := 10

  /** The sort key of an entry: `(species_counts[sci], common_name)`. */
  function Rank(counts: map<string, nat>, e: Entry): RankKey
  {
    RankKey(if e.scientificName in counts then counts[e.scientificName] else 0, e.commonName)
  }

  /** The sort key as a function, for the sort. */
  function RankBy(counts: map<string, nat>): Entry -> RankKey
  {
    e => Rank(counts, e)
  }

  /** `sorted_birds`: every new entry, rarest species first, ties by common name, then by arrival. */
  function Ranked(newBirds: seq<Entry>): seq<Entry>
  {
    SortBy(newBirds, RankBy(SpeciesCounts(newBirds)))
  }

  /** `xs[:n]`. */
  function Truncate<T>(xs: seq<T>, n: nat): (r: seq<T>)
    ensures |r| == if n < |xs| then n else |xs|
    ensures r == xs[..|r|]
  {
    if n < |xs| then xs[..n] else xs
  }

  /** The new entries of a batch against a life list. */
  function NewBirdsOf(records: seq<Record>, lifeListRows: seq<Record>): seq<Entry>
  {
    NewBirds(records, LifeListKeys(lifeListRows))
  }

  /**
   * The whole engine: the entries handed to the e-mail, `sorted_birds[:maxShow]`.
   * They are new species only, they are sorted, and they are at most `maxShow`
   * of the new entries.
   */
  function Reconcile(records: seq<Record>, lifeListRows: seq<Record>, maxShow: nat): (shown: seq<Entry>)
    ensures var newBirds := NewBirdsOf(records, lifeListRows);
            && |shown| == (if maxShow < |newBirds| then maxShow else |newBirds|)
            && multiset(shown) <= multiset(newBirds)
            && SortedBy(shown, RankBy(SpeciesCounts(newBirds)))
    ensures forall e | e in shown ::
              && e.scientificName != ""
              && e.scientificName !in LifeListKeys(lifeListRows)
              && exists i :: 0 <= i < |records| && IsNew(records[i], LifeListKeys(lifeListRows)) && e == Project(records[i])
  {
    var newBirds := NewBirdsOf(records, lifeListRows);
    var ranked := Ranked(newBirds);
    var shown := Truncate(ranked, maxShow);
    PrefixSorted(ranked, |shown|, RankBy(SpeciesCounts(newBirds)));
    PrefixSubMultiset(ranked, |shown|);
    assert forall e | e in shown :: e in multiset(newBirds);
    shown
  }

  /** The entries the e-mail receives: at most ten, the rarest of the new ones. */
  function Displayed(records: seq<Record>, lifeListRows: seq<Record>): (shown: seq<Entry>)
    ensures |shown| <= MaxBirdsToShow
    ensures |NewBirdsOf(records, lifeListRows)| <= MaxBirdsToShow ==> |shown| == |NewBirdsOf(records, lifeListRows)|
  {
    Reconcile(records, lifeListRows, MaxBirdsToShow)
  }

  lemma PrefixSorted<T>(xs: seq<T>, n: nat, key: T -> RankKey)
    requires n <= |xs| && SortedBy(xs, key)
    ensures SortedBy(xs[..n], key)
  {
  }

  lemma PrefixSubMultiset<T>(xs: seq<T>, n: nat)
    requires n <= |xs|
    ensures multiset(xs[..n]) <= multiset(xs)
  {
    assert xs == xs[..n] + xs[n..];
  }

  /** The full ranking is the stable sorted permutation of the new entries. */
  lemma RankedIsStableSort(newBirds: seq<Entry>)
    ensures var key := RankBy(SpeciesCounts(newBirds));
            var r := Ranked(newBirds);
            && multiset(r) == multiset(newBirds)
            && SortedBy(r, key)
            && StableWith(r, newBirds, key)
  {
  }

  /** Every key the sort uses is the entry's true same-batch frequency; the default of 0 is never taken. */
  lemma RankIsFrequency(newBirds: seq<Entry>, e: Entry)
    requires e in newBirds
    ensures Rank(SpeciesCounts(newBirds), e).frequency == Occurrences(newBirds, e.scientificName) >= 1
  {
    assert e.scientificName in SpeciesOf(newBirds);
  }

  /**
   * Truncation happens after the full sort: the shown entries are the first
   * ones of the full ranking, and none of the entries left out ranks before
   * any shown one.
   */
  lemma ShownAreRarest(records: seq<Record>, lifeListRows: seq<Record>, maxShow: nat)
    ensures var newBirds := NewBirdsOf(records, lifeListRows);
            var ranked := Ranked(newBirds);
            var shown := Reconcile(records, lifeListRows, maxShow);
            && shown == ranked[..|shown|]
            && forall i, j | 0 <= i < |shown| <= j < |ranked| ::
                 KeyLe(Rank(SpeciesCounts(newBirds), shown[i]), Rank(SpeciesCounts(newBirds), ranked[j]))
  {
    var newBirds := NewBirdsOf(records, lifeListRows);
    var ranked := Ranked(newBirds);
    var shown := Reconcile(records, lifeListRows, maxShow);
    assert shown == Truncate(ranked, maxShow);
    forall i, j | 0 <= i < |shown| <= j < |ranked|
      ensures KeyLe(Rank(SpeciesCounts(newBirds), shown[i]), Rank(SpeciesCounts(newBirds), ranked[j]))
    {
      assert shown[i] == ranked[i];
      assert RankBy(SpeciesCounts(newBirds))(ranked[i]) == Rank(SpeciesCounts(newBirds), ranked[i]);
    }
  }

  /** A larger display limit only shows more of the same list. */
  lemma TruncationIsMonotone(records: seq<Record>, lifeListRows: seq<Record>, m: nat, n: nat)
    requires m <= n
    ensures var shorter := Reconcile(records, lifeListRows, m);
            var longer := Reconcile(records, lifeListRows, n);
            shorter == longer[..|shorter|]
  {
    ShownAreRarest(records, lifeListRows, m);
    ShownAreRarest(records, lifeListRows, n);
  }

  /** Rarer species come first, and equal frequencies are broken by the common name in code-point order. */
  lemma TieBreakByName(records: seq<Record>, lifeListRows: seq<Record>, maxShow: nat)
    ensures var counts := SpeciesCounts(NewBirdsOf(records, lifeListRows));
            var shown := Reconcile(records, lifeListRows, maxShow);
            forall i, j | 0 <= i < j < |shown| ::
              && Rank(counts, shown[i]).frequency <= Rank(counts, shown[j]).frequency
              && (Rank(counts, shown[i]).frequency == Rank(counts, shown[j]).frequency ==>
                    Text.StrLe(shown[i].commonName, shown[j].commonName))
  {
    var counts := SpeciesCounts(NewBirdsOf(records, lifeListRows));
    var shown := Reconcile(records, lifeListRows, maxShow);
    forall i, j | 0 <= i < j < |shown|
      ensures KeyLe(Rank(counts, shown[i]), Rank(counts, shown[j]))
    {
      assert RankBy(counts)(shown[i]) == Rank(counts, shown[i]);
      assert RankBy(counts)(shown[j]) == Rank(counts, shown[j]);
    }
  }

  /** An empty batch gives an empty list, not an error. */
  lemma ReconcileEmptyBatch(lifeListRows: seq<Record>, maxShow: nat)
    ensures Reconcile([], lifeListRows, maxShow) == []
  {
  }

  /** A batch of species all on the life list gives an empty list. */
  lemma ReconcileAllKnown(records: seq<Record>, lifeListRows: seq<Record>, maxShow: nat)
    requires forall i | 0 <= i < |records| && Field(records[i], "sciName", "") != "" ::
               Field(records[i], "sciName", "") in LifeListKeys(lifeListRows)
    ensures Reconcile(records, lifeListRows, maxShow) == []
  {
    NewBirdsAllKnown(records, LifeListKeys(lifeListRows));
  }

  /**
   * Two robin sightings and one cardinal sighting against an empty life list:
   * the cardinal is seen once and the robin twice, so the cardinal comes first
   * and both robin entries follow.
   */
  lemma ScenarioCardinalBeforeRobins()
    ensures var robin := map["sciName" := "Turdus migratorius", "comName" := "Robin", "howMany" := "1"];
            var cardinal := map["sciName" := "Cardinalis cardinalis", "comName" := "Cardinal", "howMany" := "1"];
            Reconcile([robin, cardinal, robin], [], MaxBirdsToShow)
              == [Project(cardinal), Project(robin), Project(robin)]
  {
    var robin := map["sciName" := "Turdus migratorius", "comName" := "Robin", "howMany" := "1"];
    var cardinal := map["sciName" := "Cardinalis cardinalis", "comName" := "Cardinal", "howMany" := "1"];
    var r, c := Project(robin), Project(cardinal);
    assert NewBirdsOf([robin, cardinal, robin], []) == [r, c, r];
    var counts := SpeciesCounts([r, c, r]);
    assert r in [r, c, r] && c in [r, c, r];
    assert [r, c, r][1..] == [c, r] && [c, r][1..] == [r];
    assert r.scientificName[0] != c.scientificName[0];
    assert [r][1..] == [];
    assert Occurrences([r], r.scientificName) == 1;
    assert Occurrences([c, r], r.scientificName) == 1;
    assert Occurrences([r, c, r], r.scientificName) == 2;
    assert Occurrences([r], c.scientificName) == 0;
    assert Occurrences([c, r], c.scientificName) == 1;
    assert Occurrences([r, c, r], c.scientificName) == 1;
    ScenarioSort(r, c, RankBy(counts));
  }

  lemma ScenarioSort(r: Entry, c: Entry, key: Entry -> RankKey)
    requires key(r).frequency == 2 && key(c).frequency == 1
    ensures SortBy([r, c, r], key) == [c, r, r]
  {
    KeyLeReflexive(key(r));
    assert [r, c, r][1..] == [c, r] && [c, r][1..] == [r] && [r][1..] == [];
    assert SortBy([r], key) == Insert(r, [], key) == [r];
    assert SortBy([c, r], key) == Insert(c, [r], key) == [c, r];
    assert Insert(r, [r], key) == [r, r];
    assert Insert(r, [c, r], key) == [c] + Insert(r, [r], key);
  }
}
