# SNP feasibility checker — a Dafny model

This project models the core of the SNP feasibility checker, a small Python
library that answers one question for a genetics study: which of the target
SNPs (single-nucleotide polymorphisms, named by ids such as `rs429358`) can
be genotyped on the arrays the study has access to?

Two components are modelled:

- the **array catalogue** (`src/snp_checker/catalogue.py`). It is a registry
  of genotyping arrays keyed by array name, each with the set of SNP ids its
  manifest lists. It covers registering and looking up records, the sorted
  list of names, the reverse lookup from a SNP to the arrays holding it, the
  count of distinct SNPs across all arrays, and building a record from the
  rows of a manifest;
- the **feasibility checker** (`src/snp_checker/checker.py`). It builds one
  coverage entry per target SNP, saying which arrays hold it and which do
  not. It also counts the available targets, lists the unavailable ones,
  counts hits per array, computes the feasibility rate, and intersects the
  targets with one array (`check_overlap`).

Modules, one file each:

| file | module | contents |
|---|---|---|
| `sequences.dfy` | `Sequences` | distinctness, element sets, order-preserving subsequences, `MapSeq` |
| `text.dfy` | `Text` | Python's `str` ordering (`Below`), `sorted` on distinct names, `str.strip()` |
| `catalogue.dfy` | `ArrayCatalogue` | `ArrayRecord`, the catalogue and its operations, manifest filtering |
| `checker.dfy` | `FeasibilityChecker` | `SnpCoverage`, `FeasibilityReport`, `check`, `check_overlap` |
| `scenarios.dfy` | `Scenarios` | the fixture of the repository's unit tests and the answers those tests expect |

The catalogue's Python dict is modelled as the insertion order of the names
(`order`) beside the name-to-record map (`arrays`). The two are tied together
by `WellFormed`, so `Catalogue` is a subset type. A dict keeps an overwritten
key where it first appeared, and `find_arrays_containing` reports arrays in
that order, so the model keeps it too. `sorted` on strings is lexicographic
by code point; `Text.Below` models it and is proved to be a strict total
order. `str.strip()` drops the characters for which `str.isspace` holds.
`Text.IsSpace` lists those characters.

Each operation is stated against an independent partner. Examples:

- `sorted` is proved to be the only ascending list of the names;
- the list comprehension in `find_arrays_containing` is proved to be the
  only order-preserving list of the matching names;
- the union count is bounded by each array's size and by the sum of sizes,
  and a target counts as available exactly when it lies in that union
  (`FeasibilityChecker.CoveredIffInUnion`);
- `check` is stated against prefix-recursive reference definitions of the
  available count, the unavailable list and the hit counts. Lemmas relate
  those definitions to one another and to `check_overlap`.

## Model

| member | source | states |
|---|---|---|
| ArrayCatalogue.Empty | src/snp_checker/catalogue.py:39-40 | a catalogue built with no records has no arrays |
| ArrayCatalogue.SnpSet | src/snp_checker/catalogue.py:22-24 | `snp_set` is the record's id set; it has no contract of its own and is used by `CheckOverlap`, whose contract states the intersection with it |
| ArrayCatalogue.GetArray | src/snp_checker/catalogue.py:81-82 | `get_array` returns None exactly for an unregistered name; otherwise it returns the record filed under that name, whose `array_name` is that name |
| ArrayCatalogue.Register | src/snp_checker/catalogue.py:45-47 | after `register`, looking up the record's name gives the record. Every other name gives what it gave before. The name set grows by at most that one name. The insertion order is only extended, so an overwrite keeps the old position |
| ArrayCatalogue.RegisterAll | src/snp_checker/catalogue.py:41-43 | the constructor loop, one `register` per record in list order; it has no contract of its own, and `RegisterAllKeys` and `RegisterAllLastWins` state its key set and its values |
| ArrayCatalogue.RegisterAllKeys | src/snp_checker/catalogue.py:41-43 | registering a list of records leaves exactly the earlier names plus the names in the list |
| ArrayCatalogue.RegisterAllLastWins | src/snp_checker/catalogue.py:41-43 | when a list of records repeats a name, the last record with that name is the one kept |
| ArrayCatalogue.FromRecords | src/snp_checker/catalogue.py:39-43 | the constructor registers exactly the names in the list; each name maps to the last record carrying it |
| ArrayCatalogue.ArrayNames | src/snp_checker/catalogue.py:84-86 | `array_names` is strictly ascending and holds exactly the registered names, each once |
| ArrayCatalogue.ArrayNamesUnique | src/snp_checker/catalogue.py:84-86 | any strictly ascending list of exactly the registered names equals `array_names`, so the result does not depend on insertion order |
| ArrayCatalogue.Containing | src/snp_checker/catalogue.py:90-93 | the filter keeps exactly the names whose record holds the SNP, in the order it walks them |
| ArrayCatalogue.FindArraysContaining | src/snp_checker/catalogue.py:88-93 | `find_arrays_containing` lists exactly the registered arrays holding the SNP. It keeps their insertion order and lists none twice |
| ArrayCatalogue.FindArraysContainingUnique | src/snp_checker/catalogue.py:88-93 | the result of `find_arrays_containing` is the only order-preserving sublist of the insertion order with those names |
| ArrayCatalogue.UnionOver | src/snp_checker/catalogue.py:98-100 | the accumulated union holds a SNP iff some array visited holds it |
| ArrayCatalogue.TotalUniqueSnps | src/snp_checker/catalogue.py:95-101 | `total_unique_snps` is the size of the set of SNP ids held by any registered array |
| ArrayCatalogue.UnionOverBound | src/snp_checker/catalogue.py:98-101 | the size of the union is at most the sum of the sizes of the unioned sets |
| ArrayCatalogue.TotalUniqueSnpsBounds | src/snp_checker/catalogue.py:95-101 | the total is at least the size of each array's set and at most the sum of all sizes; it is 0 for an empty catalogue |
| ArrayCatalogue.RegisterNewArraySnps | src/snp_checker/catalogue.py:95-101 | registering an array under a new name adds exactly its SNPs to the union over all arrays |
| ArrayCatalogue.RegisterNewArrayTotal | src/snp_checker/catalogue.py:95-101 | registering an array under a new name raises the distinct-SNP count by exactly the number of its SNPs that no array held before |
| ArrayCatalogue.CleanIdsTrimmed | src/snp_checker/catalogue.py:70-72 | every id kept from a manifest column is non-empty and has no surrounding whitespace |
| ArrayCatalogue.ManifestIds | src/snp_checker/catalogue.py:66-72 | the loop over rows collects exactly the non-blank stripped cells of the column, as a set |
| ArrayCatalogue.CleanIdsSnoc | src/snp_checker/catalogue.py:69-72 | one more row adds its stripped cell to the set, when the cell is not blank, and nothing else |
| ArrayCatalogue.Cell | src/snp_checker/catalogue.py:70 | `row.get(snp_column, "")`; it has no contract of its own, and `ManifestRecord`, `LoadManifest` and `MissingColumnIsEmpty` state the ids read through it, a missing column giving no ids |
| ArrayCatalogue.ManifestRecord | src/snp_checker/catalogue.py:66-77 | the manifest record carries the given name, and its `snp_count` equals the number of ids. Its ids are exactly the non-empty stripped cells of the column, each non-empty and stripped |
| ArrayCatalogue.MissingColumnIsEmpty | src/snp_checker/catalogue.py:70-77 | a column no row has gives a record with no SNPs and count 0, with no error |
| ArrayCatalogue.LoadManifest | src/snp_checker/catalogue.py:66-79 | `load_manifest_csv` returns a record carrying the given name and a count equal to its number of ids. Its ids are exactly the non-empty stripped cells of the column. The record is filed under the name, overwriting any earlier one; every other name is untouched and the name set gains only that name |
| Text.BelowIrreflexive | src/snp_checker/catalogue.py:86 | no string sorts before itself |
| Text.BelowTransitive | src/snp_checker/catalogue.py:86 | the string order used by `sorted` is transitive |
| Text.BelowTotal | src/snp_checker/catalogue.py:86 | any two different strings are ordered one way or the other |
| Text.BelowAsymmetric | src/snp_checker/catalogue.py:86 | two strings are never each below the other |
| Text.StrictlySortedDistinct | src/snp_checker/catalogue.py:86 | a strictly ascending list of names has no repeats |
| Text.SubsequenceSorted | src/snp_checker/checker.py:72 | filtering an ascending list keeps it ascending |
| Text.Insert | src/snp_checker/catalogue.py:86 | inserting a new name into an ascending list keeps it ascending and adds exactly that name |
| Text.SortDistinct | src/snp_checker/catalogue.py:86 | sorting distinct names gives an ascending list with the same names and the same length |
| Text.SortedUnique | src/snp_checker/catalogue.py:86 | two strictly ascending lists with the same elements are equal |
| Text.TrimStartShape | src/snp_checker/catalogue.py:70 | stripping the front removes only whitespace and stops at a non-space character |
| Text.TrimEndShape | src/snp_checker/catalogue.py:70 | stripping the back removes only whitespace and stops at a non-space character |
| Text.Strip | src/snp_checker/catalogue.py:70 | `strip()` returns a string that is empty or starts and ends with a non-space character, and is no longer than its input |
| Text.TrimStartSkips | src/snp_checker/catalogue.py:70 | leading whitespace makes no difference to the front strip |
| Text.TrimEndSkips | src/snp_checker/catalogue.py:70 | trailing whitespace makes no difference to the back strip |
| Text.TrimStartBlank | src/snp_checker/catalogue.py:70-71 | an all-whitespace cell strips to nothing |
| Text.StripWrapped | src/snp_checker/catalogue.py:70 | `strip()` of a trimmed core wrapped in whitespace on both sides returns exactly the core |
| Text.StripIdempotent | src/snp_checker/catalogue.py:70 | stripping an already stripped id changes nothing |
| Text.StripEmptyIff | src/snp_checker/catalogue.py:70-71 | a cell is dropped (strips to "") exactly when it is all whitespace |
| Sequences.MapSeq | src/snp_checker/checker.py:70-79 | building one entry per target keeps the length, and entry i is the entry for target i |
| Sequences.DistinctCard | src/snp_checker/catalogue.py:86 | a list without repeats has as many elements as its element set |
| Sequences.DisjointConcat | src/snp_checker/checker.py:71-72 | two lists without repeats and with no common element concatenate to one without repeats, holding both sets |
| Sequences.SubsequenceElems | src/snp_checker/catalogue.py:90-93 | a filtered list holds only elements of the list it filters |
| Sequences.SubsequenceDistinct | src/snp_checker/catalogue.py:90-93 | filtering a list without repeats gives a list without repeats |
| Sequences.SubsequenceUnique | src/snp_checker/catalogue.py:90-93 | two filters of the same repeat-free list that keep the same elements are equal |
| FeasibilityChecker.CoverageFraction | src/snp_checker/checker.py:27-32 | `coverage_fraction` is 0 for an entry listing no arrays. Otherwise it is the number of arrays present divided by the number listed, which lies in [0, 1] |
| FeasibilityChecker.FeasibilityRate | src/snp_checker/checker.py:45-49 | `feasibility_rate` is 0 with no targets and otherwise available/targets. It lies in [0, 1] whenever the available count is between 0 and the target count |
| FeasibilityChecker.IsAvailable | src/snp_checker/checker.py:23-25 | `is_available` holds when the present list is non-empty; it has no contract of its own, and `AvailableIffCovered` and `CoveragePartition` state that for a built entry this is exactly "some registered array holds the SNP" |
| FeasibilityChecker.CoverageOf | src/snp_checker/checker.py:71-78 | the coverage entry built for one target; it has no contract of its own, and `CoveragePartition` and `CoverageListsEachArrayOnce` state its two lists |
| FeasibilityChecker.Missing | src/snp_checker/checker.py:72 | the comprehension keeps exactly the names not listed as present, in their sorted order |
| FeasibilityChecker.CoveragePartition | src/snp_checker/checker.py:70-81 | a coverage entry lists as present exactly the arrays holding the SNP, in insertion order, and as missing exactly the others, in ascending order. It is available iff some array holds the SNP |
| FeasibilityChecker.CoverageListsEachArrayOnce | src/snp_checker/checker.py:70-78 | a coverage entry lists every registered array exactly once across its two lists, so their lengths add up to the number of arrays |
| FeasibilityChecker.JoinDisjoint | src/snp_checker/checker.py:71-78 | two repeat-free, disjoint lists that together cover a key set list each key once and have as many entries as the set |
| FeasibilityChecker.AvailableIffCovered | src/snp_checker/checker.py:24-25 | a SNP is available (its present list is non-empty) iff some registered array holds it |
| FeasibilityChecker.CoveredIffInUnion | src/snp_checker/checker.py:81 | a target is available exactly when it lies in the union of all arrays' SNPs that `total_unique_snps` (catalogue.py:95-101) counts |
| FeasibilityChecker.CountsAddUp | src/snp_checker/checker.py:81-86 | every target is counted as available or listed as unavailable, never both: the two add up to the number of targets |
| FeasibilityChecker.HitsAtMostAvailable | src/snp_checker/checker.py:81-84 | an array's hit count never exceeds the available count |
| FeasibilityChecker.AllHitsAtMostAvailable | src/snp_checker/checker.py:81-88 | every entry of the array summary is at most the available count |
| FeasibilityChecker.UnavailableAppend | src/snp_checker/checker.py:85-86 | the unavailable list of two target lists run one after the other is the concatenation of their lists |
| FeasibilityChecker.UnavailableOccurrences | src/snp_checker/checker.py:85-86 | a target no array holds is listed as often as it occurs among the targets; a held target is never listed |
| FeasibilityChecker.CheckOverlap | src/snp_checker/checker.py:91-100 | `check_overlap` is empty for an unknown array. Otherwise it contains exactly the targets the array holds |
| FeasibilityChecker.OverlapAtMostHits | src/snp_checker/checker.py:81-84 | an array's overlap with the targets is at most its hit count, and equal to it when no target repeats |
| FeasibilityChecker.OverlapSnoc | src/snp_checker/checker.py:100 | one more target joins the overlap exactly when the array holds it |
| FeasibilityChecker.CountStep | src/snp_checker/checker.py:81-86 | one more target adds one to the available count or appends it to the unavailable list, according to whether an array holds it |
| FeasibilityChecker.HitsStep | src/snp_checker/checker.py:81-84 | adding one hit to each array holding the next target turns the hit counts of a prefix into those of the longer prefix |
| FeasibilityChecker.AddHits | src/snp_checker/checker.py:83-84 | the inner loop adds exactly one hit to each array it is given and leaves the other counts and the key set alone |
| FeasibilityChecker.ScanOne | src/snp_checker/checker.py:71-86 | one pass of the loop body keeps the entries, the count, the unavailable list and the hit counts equal to the reference definitions over one more target |
| FeasibilityChecker.ScanTargets | src/snp_checker/checker.py:67-87 | the loop builds one entry per target and the reference available count, unavailable list and hit counts, seeded with 0 for every array |
| FeasibilityChecker.Check | src/snp_checker/checker.py:64-89 | `check` gives one coverage entry per target, in order. Its available count, unavailable list and per-array hit counts are the reference definitions. The count and the list add up to the number of targets. The summary has a key for every registered array and each hit count lies in [0, available]. The feasibility rate lies in [0, 1] and is 0 with no targets |
| Scenarios.SampleRegistered | tests/test_checker.py:7-11 | registering GSA_v3 and then Axiom_UKB yields the two-array fixture, in that insertion order |
| Scenarios.SampleLookup | tests/test_checker.py:15-18 | GSA_v3 is among the array names and looks up to its record (count 650000); an unknown name looks up to None |
| Scenarios.SampleFind | tests/test_checker.py:20-29 | the shared SNP is found on GSA_v3 then Axiom_UKB; an unknown SNP is found on no array |
| Scenarios.SampleTotal | tests/test_checker.py:31-34 | the fixture holds 4 distinct SNPs |
| Scenarios.SampleManifest | tests/test_checker.py:36-42 | a manifest with ids rs111 and rs222 loads as a record of 2 SNPs including rs111 |
| Scenarios.SampleAvailability | tests/test_checker.py:46-58 | by the reference definitions that `check` is stated against: the shared SNP alone is 1 available and none unavailable; with an unknown SNP it is 1 available and the unknown one listed |
| Scenarios.SampleCheckShared | tests/test_checker.py:46-51 | `check` of the shared SNP reports 1 available, nothing unavailable and a feasibility rate of exactly 1 |
| Scenarios.SampleCheckPartial | tests/test_checker.py:53-58 | `check` of the shared SNP and an unknown one reports 1 available, lists the unknown one as unavailable, and has rate 1/2 |
| Scenarios.SampleOverlap | tests/test_checker.py:60-64 | three targets overlap GSA_v3 in exactly rs429358 and rs7412 |
| Scenarios.SampleOverlapUnknownArray | tests/test_checker.py:66-70 | an array that does not exist overlaps with nothing |
| Scenarios.SampleFraction | tests/test_checker.py:72-74 | an entry present on two arrays and missing from one has coverage fraction exactly 2/3 |

## Left out

- `src/snp_checker/estimator.py` (Hardy-Weinberg estimates of carrier and homozygote counts in a cohort, each a floating-point product truncated by `int(...)`) is not part of this model; it does not touch the catalogue or the checker.
- `src/snp_checker/__init__.py` only re-exports names and is not part of this model.
- File I/O in `load_manifest_csv`: opening the file and parsing it with `csv.DictReader` are outside the model. `LoadManifest` takes the already-parsed rows, each a map from header to cell.
- A data row shorter than the header makes `csv.DictReader` fill the missing cells with `None`, and `.strip()` on `None` raises. Since this belongs to CSV parsing, the model treats a missing key only as `row.get`'s default `""`.
- Default arguments: every value is passed explicitly. The model has no defaults for `snp_column="snp_id"` of `load_manifest_csv`, for `snp_count=0` and `snp_ids=frozenset()` of `ArrayRecord`, or for the empty-list, zero and empty-dict field defaults of `SNPCoverage` and `FeasibilityReport`.
- Iteration order of `array_summary`: the source builds it from the sorted names, so the dict iterates in ascending name order. `FeasibilityReport.arraySummary` is a Dafny `map`, which has no order; its keys and values are modelled, and their order is not.
- Floats: `coverage_fraction` and `feasibility_rate` are modelled with Dafny's exact `real` division, not IEEE-754 doubles.
- Mutation and aliasing: `register`, `load_manifest_csv` and the constructor return a new catalogue value instead of updating one in place, and `check` reads the catalogue without changing it. Records returned by `get_array` being shared with the caller is not modelled.
- `ArrayCatalogue(arrays=None)` and `ArrayCatalogue([])` are both the empty list of records in `FromRecords`.
- `snp_count` is stored as given by `register` and the constructor, which never compare it with the id set. Only `load_manifest_csv` computes it, setting it to the number of ids it collected, as `ManifestRecord` states.
- Type checks that Python does not perform, such as a non-string array name, have no counterpart: the model's types rule them out.
