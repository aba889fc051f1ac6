# New-bird reconciliation, modelled in Dafny

The program checks recent eBird sightings near a fixed location against the
user's life list and e-mails the species the user has not yet seen. This
project models the part of `check-and-mail.py` that decides what the e-mail
lists, plus two small helpers from the same file:

- **Life-list keys.** The life-list CSV rows become a set of scientific names
  (`Observations.LifeListKeys`).
- **Filter and project.** Every observation record whose `sciName` is
  non-empty and not in that set becomes one display entry. Missing fields get
  the source's defaults: `"Unknown"`, or `"X"` for the count
  (`Observations.NewBirds`).
- **Frequency table.** The table counts how many new entries name each species
  in this batch (`Frequencies.SpeciesCounts`).
- **Ranking.** The entries are stably sorted by the pair (frequency, common
  name). Names compare by code point (`Ranking.SortBy`, `Text.StrLe`).
- **Truncation.** The sorted list is cut to `MAX_BIRDS_TO_SHOW = 10`
  (`Reconciliation.Reconcile`, `Reconciliation.Displayed`).
- **Recipients.** The recipient setting is split at every comma
  (`Recipients.RecipientList`).
- **Date.** `obsDt` is rewritten from `%Y-%m-%d %H:%M` to
  `%b %d, %Y at %I:%M %p`. Text that does not parse is kept unchanged
  (`ObservationDate.ReformatDate`).

Inputs are plain values. An observation record and a life-list row are each a
`map<string, string>`, and a missing field is a key absent from the map. The
observation fetch and the CSV read are outside the model; their results are
parameters.

Modules: `Wrappers` (Option), `Text` (string order), `Ranking` (the stable
sort), `Observations` (records, entries, filter), `Frequencies`,
`Reconciliation` (composition), `Recipients`, `ObservationDate`.

Behaviour worth noting:

- **Ties keep input order.** Entries with the same frequency and the same
  common name keep their input order, because `sorted` is stable. Two
  sightings of one species at different locations are an example.
  `Ranking.SortByCharacterized` states the exact behaviour: the result is the
  unique sorted permutation that keeps each key's input order.
- **A life-list row without a scientific name is not an error.** A row without
  the "Scientific Name" column is read as the key `""` rather than rejected,
  and that key never matters (`Observations.NewBirdsIgnoresEmptyKey`).
- **No delivery result.** `send_email` swallows every failure, so no delivery
  result is modelled.
- **Rarity is per batch.** The rarity measure counts sightings in this one
  batch only.

## Model

| member | source | states |
|---|---|---|
| Observations.LifeListKeys | check-and-mail.py:89 | A string is a key exactly when some row's "Scientific Name" field equals it. A row without the column contributes `""`. |
| Observations.NewBirds | check-and-mail.py:106-119 | Each entry has a non-empty scientific name outside the key set. Each new-species record's projection is in the result. Each entry is the projection of some new-species record. There are at most as many entries as records. |
| Observations.NewBirdsAppend | check-and-mail.py:106-119 | The filter works record by record: the entries of `a + b` are the entries of `a` followed by those of `b`. So input order is kept and duplicates are kept. |
| Observations.NewBirdsSingle | check-and-mail.py:109-110 | One record yields exactly its projection if it names a new species, and nothing otherwise. |
| Observations.NewBirdsLength | check-and-mail.py:106-119 | The number of entries equals the number of records that name a new species. |
| Observations.NewBirdsAllKnown | check-and-mail.py:107-109 | If every record that carries a non-empty scientific name names a species on the life list, the result is empty. |
| Observations.NewBirdsIgnoresEmptyKey | check-and-mail.py:108-109 | Whether `""` is in the key set never changes the result, because a record with an empty or missing `sciName` is dropped anyway. |
| Observations.ProjectKeepsOnlyDisplayedFields | check-and-mail.py:110-119 | Two records that agree on `comName`, `sciName`, `locName`, `obsDt`, `howMany` and `locId` give the same entry. Nothing else in a record is kept. |
| Observations.ProjectDefaults | check-and-mail.py:111-118 | For any record, each displayed field is copied when present. Independently of the other fields, a missing common name, location, date or location id becomes `"Unknown"` and a missing count becomes `"X"`. The scientific name is copied unchanged. |
| Frequencies.SpeciesCounts | check-and-mail.py:122-125 | The table's keys are exactly the scientific names present. Each count equals the number of entries with that name, so it is at least 1. |
| Frequencies.BumpSum | check-and-mail.py:125 | One increment of the table raises the sum of its counts by exactly one. |
| Frequencies.SpeciesCountsTotal | check-and-mail.py:122-125 | The counts sum to the number of entries. |
| Text.StrLeIsLexicographic | check-and-mail.py:130 | The name order agrees with the lexicographic definition. Either the first string is a prefix of the second, or at the first differing position it has the smaller code point. |
| Text.StrLeTotal | check-and-mail.py:130 | Any two names are comparable. |
| Text.StrLeTransitive | check-and-mail.py:130 | The name order is transitive. |
| Text.StrLeAntisymmetric | check-and-mail.py:130 | Names that compare both ways are equal. |
| Ranking.KeyLeTransitive | check-and-mail.py:130 | The (frequency, name) tuple order is transitive. |
| Ranking.KeyLeAntisymmetric | check-and-mail.py:130 | Tuple keys that compare both ways are equal. |
| Ranking.InsertSorted | check-and-mail.py:128-131 | Inserting one element into a sorted list keeps it sorted. |
| Ranking.InsertWithKey | check-and-mail.py:128-131 | The inserted element lands before every element with the same key, and no other key's elements are reordered. |
| Ranking.SortBy | check-and-mail.py:128-131 | The result is a permutation of the input (multiset equality) and is non-decreasing in the key. For every key, the elements with that key appear in input order (stability). |
| Ranking.SortedStableUnique | check-and-mail.py:128-131 | Two sorted sequences with the same elements and the same per-key order are identical. Ties are never broken arbitrarily. |
| Ranking.SortByCharacterized | check-and-mail.py:128-131 | A sequence is the result of the sort exactly when it is a sorted permutation of the input that keeps each key's input order. |
| Ranking.SortBySortedIsIdentity | check-and-mail.py:128-131 | Sorting an already sorted list returns it unchanged. |
| Ranking.SortByIdempotent | check-and-mail.py:128-131 | Sorting twice gives the same result as sorting once. |
| Reconciliation.Reconcile | check-and-mail.py:106-131 | The displayed list has length `min(maxShow, number of new entries)` and is a sub-multiset of the new entries. It is sorted by (frequency, name). Every shown entry names a species absent from the life list and is the projection of some record that names a new species. |
| Reconciliation.RankedIsStableSort | check-and-mail.py:128-131 | `sorted_birds` is a sorted, stable permutation of `new_birds` under the key `(species_counts[sci], common_name)`. |
| Reconciliation.RankIsFrequency | check-and-mail.py:122-131 | The sort key of every new entry is its species' count in this batch, which is at least 1. The table never lacks the key. |
| Reconciliation.ShownAreRarest | check-and-mail.py:187 | The shown list is a prefix of the fully sorted list. No entry that was cut off ranks before any shown entry. |
| Reconciliation.TruncationIsMonotone | check-and-mail.py:187 | With a smaller limit the result is a prefix of the result with a larger limit. |
| Reconciliation.TieBreakByName | check-and-mail.py:128-131 | For any two shown entries in order, the first has the lower or equal frequency. When the frequencies are equal, the first common name is no greater by code point. |
| Reconciliation.Displayed | check-and-mail.py:186-187 | The e-mail receives at most 10 entries, and receives all of them when there are at most 10. |
| Reconciliation.ReconcileEmptyBatch | check-and-mail.py:106-119 | An empty batch gives an empty list, not an error. |
| Reconciliation.ReconcileAllKnown | check-and-mail.py:106-119 | A batch in which every non-empty scientific name is on the life list gives an empty list. |
| Reconciliation.ScenarioCardinalBeforeRobins | check-and-mail.py:106-131 | Two robin records and one cardinal record, against an empty life list, come out as cardinal, robin, robin. |
| Recipients.RecipientList | check-and-mail.py:29-32 | The list has one more element than the setting has commas. No element holds a comma. Joining the elements with commas gives back the setting. A setting without a comma is the only recipient. |
| Recipients.SplitJoin | check-and-mail.py:30 | Joining the split pieces with `","` restores the string. |
| Recipients.JoinSplit | check-and-mail.py:30 | Splitting the join of a non-empty list of comma-free pieces gives back the pieces, empty pieces included. |
| Recipients.SplitCount | check-and-mail.py:30 | The split has one more piece than the string has commas. |
| Recipients.SplitWithoutComma | check-and-mail.py:29-32 | Without a comma the split is the one-element list, so both branches of the source agree. |
| ObservationDate.ParseStamp | check-and-mail.py:208 | An accepted string is exactly the zero-padded 24-hour form of the valid moment it yields. Month 1-12, a day that exists in that month, year at least 1, hour below 24, minute below 60. |
| ObservationDate.ParseFormat24 | check-and-mail.py:208 | Every valid moment, written in `%Y-%m-%d %H:%M`, is read back as itself. |
| ObservationDate.ReformatDate | check-and-mail.py:205-211 | Text that does not parse is returned unchanged. Text that parses becomes a 24-character string different from the input. |
| ObservationDate.ReformatWellFormed | check-and-mail.py:205-211 | The 24-hour form of a valid moment is shown as `Mon DD, YYYY at hh:MM AM/PM` for that moment. |
| ObservationDate.ReformatFallback | check-and-mail.py:210-211 | Text that is not the 24-hour form of any valid moment is shown as it came. |
| ObservationDate.Clock12RoundTrip | check-and-mail.py:209 | The `%I`/`%p` pair determines the hour: 0 is 12 AM, 12 is 12 PM, 13-23 are 01-11 PM. |
| ObservationDate.RenderInjective | check-and-mail.py:209 | Two different valid moments never get the same 12-hour rendering. |

## Left out

- `download_lists.py` in full. It is the login scrape and the CSV download: HTTP requests, HTML parsing, a cookie jar, file writes and argument parsing. Its logic depends on library behaviour outside this model.
- Observation fetch (`get_nearby_observations`, check-and-mail.py:95): an external API client. Its result is the `records` parameter.
- Life-list read (`read_csv_file`, check-and-mail.py:52-62): file I/O and the `csv` module. Its result is the `lifeListRows` parameter.
- The language-model request and the parsing of its reply (check-and-mail.py:134-182): network I/O with opaque output.
- E-mail delivery (`send_email`, check-and-mail.py:280-310): a network call that swallows every error.
- The HTML template and the `datetime.now()` header date (check-and-mail.py:201, 213-277): text templating and clock access.
- Configuration: environment loading, the missing-key errors and the placeholder-key check (check-and-mail.py:9-26, 67-75).
- The latitude and longitude constants (check-and-mail.py:39-40): floating point values, unused by the logic.
- The control flow of `main`. When no language-model key is set, `content` is read at line 187 without having been assigned, so `main` raises a `NameError` before the e-mail is built.
- Field values that are `None`. A JSON `null` or a short CSV row yields `None`, and a map of strings cannot hold it. At equal frequency, a `None` common name compared with a string name makes the tuple comparison raise; two `None` names compare equal and raise nothing.
- `howMany` is a number in the API's response. Here it is a string, because it is only displayed.
- ObservationDate.ParseStamp: accepts only the zero-padded form with one space. `strptime` also accepts one-digit month, day, hour and minute fields, a space-padded day, any run of whitespace for the space, and non-ASCII decimal digits. The model shows such text unchanged where the program would reformat it.
- ObservationDate.ReformatDate: always writes the year with four digits. How `%Y` renders years below 1000 depends on the platform's C library.
- Month and AM/PM names are English. The program's `%b` and `%p` follow the process locale.
