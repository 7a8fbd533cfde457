# Pokémon type coverage: a verified model of the effectiveness engine

The tool lets a player pick a set of attacking types. For every defender (one type or
a pair of types) it shows how well the best of those attacks does. The engine behind
this is the `CoverageTable` component, and `App` holds the list of selected types.
This project models both in Dafny.

- **Catalog** (`catalog.dfy`): the type catalog (`Object.keys(typeData)`) and the
  defender × attacker table (`typeEffectiveness`). Both come from data files, so here
  they are one `Chart` parameter: a sequence of distinct type ids and a nested map.
- **Coverage** (`coverage.dfy`): `calculateMaxEffectiveness`, the value of one grid
  cell. It is `null` below the diagonal, `'-'` with nothing selected, and otherwise
  the best multiplier of a selected attacker.
- **Breakdown** (`breakdown.dfy`): `getEffectivenessForType`, the catalog attackers that
  hit a defender for exactly 2× or 4×. Also the weakness score that
  `sortTypesByEffectiveness` derives from it.
- **StableSort** (`stable_sort.dfy`): `Array.prototype.sort` with a comparator
  `key(b) - key(a)`. This is an in-place stable sort by descending key.
- **Groups** (`groups.dfy`): `findTypesByEffectiveness`, which files the canonical
  defenders into the 0.25 / 0.5 / 1 lists. Also `sortTypesByEffectiveness`.
- **Summary** (`summary.dfy`): `calculateTypeEffectivenessSummary`, which counts, per
  attacking type, the entries of a list that it hits for 4× and for 2×.
- **Format** (`format.dfy`): `formatEffectiveness`, the text of a cell. This covers
  `toString`, `toFixed(2)` and the `/\.?0+$/` replacement. Its partner is a decimal
  reader, used to prove that the text reads back as the value.
- **Selection** (`selection.dfy`): the `selectedTypes` state with `handleTypeClick`
  (toggle) and `handleReset`.

Multipliers are exact `real`s. The code compares them only with `===` and `Math.max`,
and every value is 0 or a power of two, so exact arithmetic agrees with the binary doubles.
A cell is the datatype `Cell = Hidden | Dash | Mult(value)` for `null`, `'-'` and a
number. An entry of a list is `Defender = Single(t) | Dual(d1, d2)` for a bare type or
a two-element array. A JavaScript `Map` is a list of (key, count) pairs in
first-insertion order.

## Model

| member | source | states |
|---|---|---|
| Catalog.IndexOf | src/components/CoverageTable.js:25 | `indexOf` returns -1 exactly for a missing element. Otherwise it returns the first position holding the element. |
| Catalog.IndexOfNoDup | src/components/CoverageTable.js:25 | In the duplicate-free catalog, `indexOf` of the type at position i is i. |
| Coverage.MaxOf | src/components/CoverageTable.js:32-39 | `Math.max` of a non-empty list is an element of the list and bounds every element. |
| Coverage.MaxEffectiveness | src/components/CoverageTable.js:24-40 | The cell is `null` iff index(d1) > index(d2). It is `'-'` iff the cell is on or above the diagonal (index(d1) ≤ index(d2)) and nothing is selected. Otherwise it is a number that bounds every selected attacker's multiplier and equals one of them. The per-attacker list that `Math.max` receives (the `attackTypes.map(...)` at lines 32-33 and 37-38) is `Coverage.Column`: one entry per selected attacker, in selection order. |
| Breakdown.Multiplier | src/components/CoverageTable.js:46-48 | The breakdown's multiplier for a single type, or a pair of distinct types, equals the grid's multiplier (`Coverage.Combined`, lines 33 and 38) for the same defender. A pair of one type twice gives the square of the single value. |
| Coverage.SingleTypeCell | src/components/CoverageTable.js:31-35 | For d1 == d2 and a non-empty selection, the cell is the maximum of the single table values, not of their squares. |
| Coverage.CombinedIsMultiplier | src/components/CoverageTable.js:31-39 | The multiplier of one attacker, `Coverage.Combined`, is the single table value (line 33) or the product of both (line 38). With table entries from {0, 1/2, 1, 2}, it is one of 0, 1/4, 1/2, 1, 2 and 4. |
| Coverage.CellIsMultiplier | src/components/CoverageTable.js:24-40 | With table entries from {0, 1/2, 1, 2}, every numeric cell is one of the six multipliers. |
| Coverage.MirroredCells | src/components/CoverageTable.js:25-39 | For d1 != d2, exactly one of the cells (d1, d2) and (d2, d1) is shown. The shown one is the best multiplier for both orders of the pair. |
| Coverage.CellDependsOnMembersOnly | src/components/CoverageTable.js:29-39 | Two selections with the same members give the same cell, whatever their order or repetitions. |
| Breakdown.HitsAmongMembers | src/components/CoverageTable.js:45-54 | An attacker is among the hits of a list of types iff it is in the list and its multiplier equals m. |
| Breakdown.HitsAmongPrefixOrdered | src/components/CoverageTable.js:45-54 | The hits among the first i catalog types come in strictly increasing catalog position, all below i. |
| Breakdown.ListedMembership | src/components/CoverageTable.js:46-53 | An attacker is listed under m iff it is a catalog type whose multiplier equals m. The multiplier is the product of both values, or the single value when d2 is falsy. |
| Breakdown.ListedInCatalogOrder | src/components/CoverageTable.js:45-54 | Each list holds every attacker at most once, in catalog order. |
| Breakdown.ListsDisjoint | src/components/CoverageTable.js:50-53 | No attacker is listed under both 2 and 4. |
| Breakdown.GetEffectivenessForType | src/components/CoverageTable.js:42-57 | The result has no keys other than 2 and 4. Key 2 (resp. 4) exists iff some catalog attacker hits for exactly 2× (resp. 4×), and its list is exactly those attackers in catalog order. |
| Breakdown.EffectivenessScore | src/components/CoverageTable.js:248-253 | The entry is unpacked by `Breakdown.Unpack`, the `Array.isArray(typePair) ? typePair : [typePair, null]` at line 249. The score is 2·(number of 4× attackers) + (number of 2× attackers). A missing key counts as 0. |
| StableSort.WithKeyConcat | src/components/CoverageTable.js:247-256 | The elements with one key, taken from a concatenation, are those taken from each part, in order. |
| StableSort.SwapKeepsOrderPerKey | src/components/CoverageTable.js:247-256 | Exchanging two neighbours with different keys keeps the order of every group of equal keys. |
| StableSort.SameByKeyKeepsOrder | src/components/CoverageTable.js:247-256 | In a stable rearrangement, two elements with one key occur in the same relative order as in the input. |
| StableSort.SameByKeyIsPermutation | src/components/CoverageTable.js:247-256 | A stable rearrangement is a permutation. |
| StableSort.StableSortIsUnique | src/components/CoverageTable.js:247-256 | Two lists sorted by descending key that are stable rearrangements of each other are equal. So any stable sort gives the same result as this one. |
| StableSort.SortDescending | src/components/CoverageTable.js:247-256 | Sorts the array in place into non-increasing key order. Equal keys keep their input order. |
| StableSort.InsertAt | src/components/CoverageTable.js:247-256 | One insertion pass extends the sorted prefix by one element and keeps the order within equal keys. It leaves the elements after position i untouched. |
| Groups.PairAtFacts | src/components/CoverageTable.js:144-146 | The entry for cell (i, j) with i ≤ j is a bare type on the diagonal and the pair `[d1, d2]` otherwise. It is canonical and sits at row i, column j. |
| Groups.RowEntriesMembers | src/components/CoverageTable.js:135-150 | A row's first j cells file exactly the canonical entries of that row, left of column j, whose cell is m. |
| Groups.GridEntriesMembers | src/components/CoverageTable.js:134-151 | The first i rows file exactly the canonical entries above row i whose cell is m. |
| Groups.RowEntriesOrdered | src/components/CoverageTable.js:135-150 | A row files its entries in increasing column order. |
| Groups.GridEntriesOrdered | src/components/CoverageTable.js:134-151 | The grid files its entries in row-major order. |
| Groups.BucketMembership | src/components/CoverageTable.js:136-147 | An entry is in the list for m iff it is canonical and its cell is m. Canonical means a bare type, or a pair of distinct types in catalog order. |
| Groups.BucketRowMajor | src/components/CoverageTable.js:134-151 | Each list is in row-major catalog order and has no duplicates. |
| Groups.BucketsDisjoint | src/components/CoverageTable.js:143-147 | No defender is filed under two multipliers. |
| Groups.EmptySelectionFilesNothing | src/components/CoverageTable.js:131-154 | With nothing selected, every list stays empty. |
| Groups.FindTypesByEffectiveness | src/components/CoverageTable.js:131-154 | The three lists built by the nested walk are the 0.25, 0.5 and 1 lists characterised above. |
| Groups.FileRow | src/components/CoverageTable.js:135-150 | The inner walk appends, to each list, the row's entries for that list. |
| Groups.FileCell | src/components/CoverageTable.js:136-148 | One cell appends its entry to the list named by its cell value, and to no other list. |
| Groups.SortTypesByEffectiveness | src/components/CoverageTable.js:246-257 | The sorted list is a permutation of the input and is non-increasing in weakness score. Entries with equal scores keep their input order. |
| Summary.IncrementCounts | src/components/CoverageTable.js:169-172 | A `set(a, (get(a) or 0) + 1)`, modelled by `Summary.Increment`, raises the count of a by one and leaves every other count unchanged. |
| Summary.CountOf | src/components/CoverageTable.js:171 | `get(a) \|\| 0` is 0 for a missing key. It is positive for a present key when every count is positive. |
| Summary.IncrementNames | src/components/CoverageTable.js:169-172 | Such a `set` keeps the key order and appends a key that was not present. |
| Summary.AddAllCounts | src/components/CoverageTable.js:168-173 | After the inner loop, a key's count has grown by its number of occurrences in the breakdown list. |
| Summary.TallyCounts | src/components/CoverageTable.js:162-176 | The map for m gives each attacking type the number of entries whose breakdown lists it under m. |
| Summary.TallyEntries | src/components/CoverageTable.js:162-176 | The map's keys are distinct catalog types. Each count is that number and is positive. Every type with a positive number is a key. |
| Summary.RecordAttackers | src/components/CoverageTable.js:167-174 | The inner loop performs one counting `set` per listed attacker, in list order. |
| Summary.SummaryKeyMatchesComparator | src/components/CoverageTable.js:179-182 | For distinct catalog types, the corrected sort key puts x first iff the intended comparator does (count descending, then catalog index). |
| Summary.SortedByIntendedOrder | src/components/CoverageTable.js:179-182 | A list sorted by that key is strictly ordered by count descending, then catalog index ascending. |
| Summary.SortedEntries | src/components/CoverageTable.js:179-182 | Sorting the map's entries in the intended order (count descending, then catalog index) gives a sorted, stable permutation of them. This is the corrected comparator, not the one written at line 180. |
| Summary.SortedTallyIsSummaryList | src/components/CoverageTable.js:178-183 | Any sorted permutation of the map is the summary list for m: exactly the attackers with positive counts, each once with its count, in the intended order. |
| Summary.CalculateTypeEffectivenessSummary | src/components/CoverageTable.js:156-184 | Both result lists (4× and 2×) hold exactly the attacking types that hit some entry, each once with the number of entries it hits. Lists are ordered by count descending and catalog order among equal counts. Each entry is unpacked by `Breakdown.Unpack`, the `Array.isArray` test at line 163. |
| Summary.TieTermIsDead | src/components/CoverageTable.js:180 | The comparator as written, `Summary.CompareAsWritten`, looks the counts up in the catalog with strict equality (`Summary.JsIndexOf`). No count is a type name, so its tie term is always `-1 - -1 = 0` and it equals the plain count comparator. |
| Summary.AsWrittenSummaryList | src/components/CoverageTable.js:178-183 | For every input, any stable sort of the map by the comparator as written holds exactly the attackers with positive counts, each once with its count. It orders them by count descending. Among equal counts, the order is the map's first-insertion order, not catalog order. |
| Summary.InsertionOrderKept | src/components/CoverageTable.js:179-182 | After a stable sort by count, two entries with equal counts keep the order in which their keys entered the map. |
| Summary.AsWrittenIgnoresCatalogOrder | src/components/CoverageTable.js:179-182 | As written, the 2× summary over [B, A] in catalog [A, B] is [B, A], even though the tie is between A and B and A comes first in the catalog. |
| Summary.IntendedOrdersTiesByCatalog | src/components/CoverageTable.js:179-182 | In the corrected order, the same summary is [A, B]. |
| Format.FormatEffectiveness | src/components/CoverageTable.js:59-64 | The text is empty exactly for a hidden (`null`) cell. Its round trip is `Format.FormatRoundTrip`, and the texts of the six multipliers are `Format.FormatIntegralCells`, `Format.FormatHalf` and `Format.FormatQuarter`. |
| Format.IntToString | src/components/CoverageTable.js:62 | `toString` of an integer is a minus sign exactly for a negative value, then decimal digits. It reads back as the integer (`Format.IntegerRoundTrip`). |
| Format.ToFixed2 | src/components/CoverageTable.js:63 | `toFixed(2)` gives at least four characters ending in a point and two digits. The text starts with a minus sign exactly for a negative value and never starts with the point. |
| Format.StripZeros | src/components/CoverageTable.js:63 | The replacement keeps a prefix of the text and removes only a tail that `/\.?0+$/` matches. The kept prefix ends at the leftmost match. |
| Format.MatchFrom | src/components/CoverageTable.js:63 | The regular expression search returns the leftmost position where `/\.?0+$/` matches, or the end of the text. |
| Format.NatToStringValue | src/components/CoverageTable.js:62 | The decimal digits of n read back as n. |
| Format.IntegerRoundTrip | src/components/CoverageTable.js:62 | The text of an integer reads back as a numeral with its sign and magnitude. |
| Format.ToFixed2Shape | src/components/CoverageTable.js:63 | `toFixed(2)` of a value with at most two decimals is its sign, its whole part, a point and its two hundredths digits. |
| Format.StripFraction | src/components/CoverageTable.js:63 | On `sign whole . d1 d2` with d1 d2 not both zero, the replacement removes only a trailing zero digit. |
| Format.NonIntegerText | src/components/CoverageTable.js:59-64 | A non-integer value with at most two decimals is shown as sign, whole part, point and its hundredths without a trailing zero. |
| Format.FormatRoundTrip | src/components/CoverageTable.js:59-64 | The text of every value with at most two decimals reads back as that value. |
| Format.FormatIntegralCells | src/components/CoverageTable.js:60-62 | `null` is shown as "" and `'-'` as "-". The multipliers 4, 2, 1 and 0 are shown as "4", "2", "1" and "0". |
| Format.FormatHalf | src/components/CoverageTable.js:63 | 0.5 is shown as "0.5": the trailing zero of "0.50" is stripped. |
| Format.FormatQuarter | src/components/CoverageTable.js:63 | 0.25 is shown as "0.25". |
| Selection.Without | src/App.js:21 | The filter keeps exactly the elements other than t, and is no longer than its input. |
| Selection.WithoutConcat | src/App.js:21 | The filter distributes over concatenation, so the kept types keep their relative order. |
| Selection.WithoutSplices | src/App.js:21 | Removing the only occurrence of t from p + [t] + q gives p + q. |
| Selection.TypeSelection.constructor | src/App.js:16 | The selection starts empty. |
| Selection.TypeSelection.HandleTypeClick | src/App.js:18-24 | A click replaces the selection by its toggle and keeps it free of duplicates. The toggle removes t when present and appends it otherwise. |
| Selection.TypeSelection.HandleReset | src/App.js:26-28 | Reset empties the selection from any state. |
| Selection.Toggled | src/App.js:19-23 | After a click on t, t is selected iff it was not before. Every other type keeps its membership. |
| Selection.ToggleKeepsNoDup | src/App.js:19-23 | A click keeps a duplicate-free selection duplicate-free. |
| Selection.ToggleRemoves | src/App.js:20-21 | A click on a selected type takes it out, and the types before and after it keep their order. |
| Selection.ToggleTwiceAbsent | src/App.js:20-22 | Two clicks on an unselected type restore the selection exactly. |
| Selection.ToggleTwicePresent | src/App.js:20-22 | Two clicks on a selected type move it to the end rather than restoring the selection. |
| Selection.SelectionBound | src/App.js:19-23 | A duplicate-free selection of catalog types is no longer than the catalog. |

## Left out

- Rendering is not modelled: the JSX and MUI markup, `renderTypeTag`, `renderTypeSummary`, `renderWeaknessInfo`, `renderTypesList` and `getCellStyle`. It is presentation only.
- The resize listener and the DOM width probe are not modelled, nor the chunking of summaries by `maxItemsPerRow`. They are browser I/O and layout.
- The contents of `typeData` and `typeEffectiveness` are not part of this model. The catalog and table are a parameter.
- `Coverage.CellIsMultiplier` and `Coverage.CombinedIsMultiplier` assume every single-type entry of the table is 0, 1/2, 1 or 2. The data file that would settle this is not part of this model.
- `App` holds one flat list of selected attacking types. The model covers that list and the `CoverageTable` engine, and nothing else in the application.
- Floating point is not modelled. Multipliers are exact reals, which agree with the doubles for the values the table can produce.
- `Format.IntToString` and `Format.ToFixed2` do not model the exponent notation that JavaScript uses at 10^21 and above. They do not model binary rounding either. Neither can arise for the six multipliers.
- `Format.FormatRoundTrip` is stated only for values with at most two decimals. Other values lose digits in `toFixed(2)`, so they do not read back exactly.
- `Groups.SortTypesByEffectiveness` sorts by the key `Score`. The source comparator instead calls `getEffectivenessForType` on every comparison. `Breakdown.EffectivenessScore` proves that this call computes `Score`.
- `StableSort.SortDescending` is an insertion sort. The engine's sort algorithm is not specified beyond stability. `StableSort.StableSortIsUnique` shows that every stable sort gives this same result.
- In `Summary.CalculateTypeEffectivenessSummary`, the loop `[4, 2].forEach` is written as two statements, one for 4 and one for 2. The result object with keys 4 and 2 is a pair of lists.
- `Summary.CalculateTypeEffectivenessSummary` and `Summary.SortedEntries` sort ties by catalog order, the evidently intended behaviour. The order as written at line 180 is stated for all inputs by `Summary.AsWrittenSummaryList`, under Findings.
- React's state updater and re-rendering are not modelled. A click is a method call on the selection object.

## Findings

| source | as written | input that shows it | evidently intended | confidence | as-written member | corrected member |
|---|---|---|---|---|---|---|
| src/components/CoverageTable.js:179-182 | The comparator `([, a], [, b]) => b - a \|\| types.indexOf(a) - types.indexOf(b)` binds `a` and `b` to the counts. Its tie term therefore looks numbers up among the type names and is always `-1 - -1 = 0`. Ties stay in the map's first-insertion order. | Catalog [A, B], each type 2× weak to itself only. List [B, A]. The 2× summary is [B×1, A×1], with B first even though A comes first in the catalog. | Equal counts are ordered by catalog position of the type. | not executed | Summary.TieTermIsDead, Summary.AsWrittenSummaryList, Summary.AsWrittenIgnoresCatalogOrder | Summary.SummaryKeyMatchesComparator, Summary.SortedEntries, Summary.SortedTallyIsSummaryList, Summary.IntendedOrdersTiesByCatalog, Summary.CalculateTypeEffectivenessSummary |
