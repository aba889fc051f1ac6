/**
 * The two inputs of the reconciliation and the first step on them: the life
 * list becomes a set of scientific-name keys, and the nearby-observation
 * records are filtered down to the species not on it and projected into
 * display entries.
 *
 * A record (one element of the observation API's response) and a row of the
 * life-list CSV are both string-keyed dictionaries; a key that is absent from
 * the map is a missing field.
 */
module Observations {

  type Record = map<string, string>

  /** One bird to show: the dictionary built at check-and-mail.py:110-119. */
  datatype Entry = Entry(
    commonName: string,
    scientificName: string,
    location: string,
    date: string,
    count: string,
    locId: string
  )

  /** `dict.get(name, default)`. */
  function Field(rec: Record, name: string, default: string): string
  {
    if name in rec then rec[name] else default
  }

  /** The fields a record contributes to its entry; every other field is dropped. */
  const DisplayedFields: set<string> := {"comName", "sciName", "locName", "obsDt", "howMany", "locId"}

  /**
   * The key set built from the life list: the "Scientific Name" column of every
   * row, with the empty string standing in for a row that lacks the column.
   */
  function LifeListKeys(rows: seq<Record>): (keys: set<string>)
    ensures forall i | 0 <= i < |rows| :: Field(rows[i], "Scientific Name", "") in keys
    ensures forall s | s in keys :: exists i :: 0 <= i < |rows| && Field(rows[i], "Scientific Name", "") == s
  {
    if rows == [] then {}
    else
      var rest := LifeListKeys(rows[1..]);
      assert forall i | 1 <= i < |rows| :: rows[i] == rows[1..][i - 1];
      {Field(rows[0], "Scientific Name", "")} + rest
  }

  /** The record names a species (its `sciName` is truthy) that is not on the life list. */
  predicate IsNew(rec: Record, keys: set<string>)
  {
    "sciName" in rec && rec["sciName"] != "" && rec["sciName"] !in keys
  }

  /** The display entry of a record, with the source's defaults for missing fields. */
  function Project(rec: Record): Entry
  {
    Entry(
      commonName := Field(rec, "comName", "Unknown"),
      scientificName := Field(rec, "sciName", ""),
      location := Field(rec, "locName", "Unknown"),
      date := Field(rec, "obsDt", "Unknown"),
      count := Field(rec, "howMany", "X"),
      locId := Field(rec, "locId", "Unknown")
    )
  }

  /** `new_birds`: the entries of the new-species records, in input order, duplicates included. */
  function NewBirds(records: seq<Record>, keys: set<string>): (r: seq<Entry>)
    ensures |r| <= |records|
    ensures forall e | e in r :: e.scientificName != "" && e.scientificName !in keys
    ensures forall i | 0 <= i < |records| && IsNew(records[i], keys) :: Project(records[i]) in r
    ensures forall e | e in r :: exists i :: 0 <= i < |records| && IsNew(records[i], keys) && e == Project(records[i])
  {
    if records == [] then []
    else
      var rest := NewBirds(records[1..], keys);
      assert forall i | 1 <= i < |records| :: records[i] == records[1..][i - 1];
      if IsNew(records[0], keys) then [Project(records[0])] + rest else rest
  }

  /** The filter works record by record: the entries of a concatenation are the concatenated entries. */
  lemma {:induction false} NewBirdsAppend(a: seq<Record>, b: seq<Record>, keys: set<string>)
    ensures NewBirds(a + b, keys) == NewBirds(a, keys) + NewBirds(b, keys)
  {
    if a == [] {
      assert a + b == b;
    } else {
      assert (a + b)[0] == a[0];
      assert (a + b)[1..] == a[1..] + b;
      NewBirdsAppend(a[1..], b, keys);
      var h := if IsNew(a[0], keys) then [Project(a[0])] else [];
      assert NewBirds(a + b, keys) == h + NewBirds(a[1..] + b, keys);
      assert NewBirds(a, keys) == h + NewBirds(a[1..], keys);
    }
  }

  /** One record yields one entry exactly when it names a new species. */
  lemma NewBirdsSingle(rec: Record, keys: set<string>)
    ensures NewBirds([rec], keys) == if IsNew(rec, keys) then [Project(rec)] else []
  {
  }

  /** The number of entries is the number of records naming a new species. */
  function CountNew(records: seq<Record>, keys: set<string>): nat
  {
    if records == [] then 0
    else (if IsNew(records[0], keys) then 1 else 0) + CountNew(records[1..], keys)
  }

  lemma {:induction false} NewBirdsLength(records: seq<Record>, keys: set<string>)
    ensures |NewBirds(records, keys)| == CountNew(records, keys)
  {
    if records != [] {
      NewBirdsLength(records[1..], keys);
    }
  }

  /** A batch in which every named species is already on the life list yields nothing. */
  lemma {:induction false} NewBirdsAllKnown(records: seq<Record>, keys: set<string>)
    requires forall i | 0 <= i < |records| && Field(records[i], "sciName", "") != "" :: Field(records[i], "sciName", "") in keys
    ensures NewBirds(records, keys) == []
  {
    if records != [] {
      assert forall i | 0 <= i < |records[1..]| :: records[1..][i] == records[i + 1];
      NewBirdsAllKnown(records[1..], keys);
    }
  }

  /**
   * Whether the empty string is a key makes no difference: a row without a
   * scientific name can never hide an observation, because an observation
   * without one is dropped anyway.
   */
  lemma {:induction false} NewBirdsIgnoresEmptyKey(records: seq<Record>, keys: set<string>)
    ensures NewBirds(records, keys + {""}) == NewBirds(records, keys - {""})
  {
    if records != [] {
      NewBirdsIgnoresEmptyKey(records[1..], keys);
    }
  }

  /** An entry depends only on the six displayed fields of its record. */
  lemma ProjectKeepsOnlyDisplayedFields(rec: Record, other: Record)
    requires forall f | f in DisplayedFields :: (f in rec <==> f in other) && (f in rec ==> rec[f] == other[f])
    ensures Project(rec) == Project(other)
  {
  }

  /** Each displayed field is copied when present; a missing one gets its default, independently of the others. */
  lemma ProjectDefaults(rec: Record)
    ensures "sciName" in rec ==> Project(rec).scientificName == rec["sciName"]
    ensures "comName" !in rec ==> Project(rec).commonName == "Unknown"
    ensures "locName" !in rec ==> Project(rec).location == "Unknown"
    ensures "obsDt" !in rec ==> Project(rec).date == "Unknown"
    ensures "howMany" !in rec ==> Project(rec).count == "X"
    ensures "locId" !in rec ==> Project(rec).locId == "Unknown"
    ensures "comName" in rec ==> Project(rec).commonName == rec["comName"]
    ensures "locName" in rec ==> Project(rec).location == rec["locName"]
    ensures "obsDt" in rec ==> Project(rec).date == rec["obsDt"]
    ensures "howMany" in rec ==> Project(rec).count == rec["howMany"]
    ensures "locId" in rec ==> Project(rec).locId == rec["locId"]
  {
  }

}
