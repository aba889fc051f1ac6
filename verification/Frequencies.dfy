/**
 * The same-batch frequency table `species_counts`: how many of the new
 * entries name each scientific name. It is the rarity measure of the ranking
 * and is local to one batch, not a global statistic.
 */
module Frequencies {
  import opened Observations

  /** How many entries of `es` name species `s`. */
  function Occurrences(es: seq<Entry>, s: string): nat
  {
    if es == [] then 0
    else (if es[0].scientificName == s then 1 else 0) + Occurrences(es[1..], s)
  }

  lemma {:induction false} OccurrencesAppend(a: seq<Entry>, b: seq<Entry>, s: string)
    ensures Occurrences(a + b, s) == Occurrences(a, s) + Occurrences(b, s)
  {
    if a == [] {
      assert a + b == b;
    } else {
      assert (a + b)[0] == a[0];
      assert (a + b)[1..] == a[1..] + b;
      OccurrencesAppend(a[1..], b, s);
    }
  }

  /** The scientific names present among the entries. */
  function SpeciesOf(es: seq<Entry>): set<string>
  {
    set e | e in es :: e.scientificName
  }

  /**
   * `species_counts`, built the way the source's loop builds it: the entries are
   * visited in order and each one adds one to its species' count, starting from 0.
   */
  function SpeciesCounts(es: seq<Entry>): (counts: map<string, nat>)
    ensures counts.Keys == SpeciesOf(es)
    ensures forall s | s in counts :: counts[s] == Occurrences(es, s) && counts[s] >= 1
  {
    if es == [] then map[]
    else
      var prefix, last := es[..|es| - 1], es[|es| - 1];
      assert es == prefix + [last];
      var counts := SpeciesCounts(prefix);
      var sci := last.scientificName;
      assert forall s :: Occurrences(es, s) == Occurrences(prefix, s) + (if s == sci then 1 else 0) by {
        forall s
          ensures Occurrences(es, s) == Occurrences(prefix, s) + (if s == sci then 1 else 0)
        {
          OccurrencesAppend(prefix, [last], s);
        }
      }
      assert SpeciesOf(es) == SpeciesOf(prefix) + {sci};
      assert sci !in counts ==> Occurrences(prefix, sci) == 0 by {
        if sci !in counts {
          OccurrencesAbsent(prefix, sci);
        }
      }
      Bump(counts, sci)
  }

  /** `species_counts[species] = species_counts.get(species, 0) + 1`. */
  function Bump(counts: map<string, nat>, sci: string): map<string, nat>
  {
    counts[sci := (if sci in counts then counts[sci] else 0) + 1]
  }

  /** One increment adds one to the sum of the counts. */
  lemma BumpSum(counts: map<string, nat>, sci: string)
    ensures SumValues(Bump(counts, sci)) == SumValues(counts) + 1
  {
    var counts' := Bump(counts, sci);
    SumValuesRemove(counts', sci);
    if sci in counts {
      SumValuesRemove(counts, sci);
      assert counts' - {sci} == counts - {sci};
    } else {
      assert counts' - {sci} == counts;
    }
  }

  /** A name that no entry carries occurs zero times. */
  lemma {:induction false} OccurrencesAbsent(es: seq<Entry>, s: string)
    requires s !in SpeciesOf(es)
    ensures Occurrences(es, s) == 0
  {
    if es != [] {
      assert es[0] in es;
      assert SpeciesOf(es[1..]) <= SpeciesOf(es) by {
        forall e | e in es[1..] ensures e in es { }
      }
      OccurrencesAbsent(es[1..], s);
    }
  }

  /** The sum of a table's counts. */
  ghost function SumValues(m: map<string, nat>): nat
    decreases |m|
  {
    if m == map[] then 0
    else
      var k :| k in m;
      m[k] + SumValues(m - {k})
  }

  /** The sum does not depend on which key is taken out first. */
  lemma {:induction false} SumValuesRemove(m: map<string, nat>, k: string)
    requires k in m
    ensures SumValues(m) == m[k] + SumValues(m - {k})
    decreases |m|
  {
    var k' :| k' in m && SumValues(m) == m[k'] + SumValues(m - {k'});
    if k' != k {
      assert |m - {k'}| == |m| - 1;
      SumValuesRemove(m - {k'}, k);
      SumValuesRemove(m - {k}, k');
      assert m - {k'} - {k} == m - {k} - {k'};
    }
  }

  /** The counts add up to the number of entries counted. */
  lemma {:induction false} SpeciesCountsTotal(es: seq<Entry>)
    ensures SumValues(SpeciesCounts(es)) == |es|
  {
    if es != [] {
      var prefix := es[..|es| - 1];
      SpeciesCountsTotal(prefix);
      BumpSum(SpeciesCounts(prefix), es[|es| - 1].scientificName);
    }
  }
}
