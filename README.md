# Crimes-CODE correlation core in Dafny

Crimes-CODE is a Dash dashboard over a SQLite table of crime events
(`code_data`). Its "correlation between cities" tab rests on one
precomputation, `pre_calculo_correlacao` in `main.py`, and two callbacks that
display its results. This project models that core:

* **Grouped counts** (`grouped.dfy`, module `GroupedCounts`): the rows
  `(city_name, offense_type, Count(*))` of the grouped, ordered query. Also
  `CityRows` for the per-city filter `d = filtered_data[city_name == city]`, and
  `Lookup` for `d[offense_type == crime]["Count(*)"].values[0]`. `Lookup`
  returns `None` where `.values[0]` raises. `Count` is the value stored after
  the `except` turns that failure into 0.
* **Label lists** (`labels.dfy`, module `Labels`): `Distinct` is pandas
  `unique()`, which keeps the order of first appearance. `SortedDistinct` is
  `np.sort(...unique())`, and also how `pd.crosstab` orders its labels.
  `LexLess` is the code-point string order used by `np.sort` and by SQLite's
  binary `ORDER BY`.
* **Fingerprint matrix** (`fingerprint.dfy`, module `Fingerprints`): the
  nested loops that build `E`. `E` has one column per city in `cidades` and
  one slot per offense type in `crimes`. Each slot holds the looked-up count,
  or 0.
* **Contingency table** (`contingency.dfy`, module `Contingency`):
  `pd.crosstab(..., aggfunc='mean')` as the constructor of a
  `ContingencyTable` object whose missing cells are NaN, then
  `fillna(0, inplace=True)` as a method that updates the cells in place.
* **Display** (`display.dfy`, module `Display`):
  * the copy of `possible_offenses` whose labels are cut in place to 20
    characters, and the count table built from it;
  * the ordered list of map links drawn from the selected city to every
    other city, with the self-link drawn last.

## Model

| member | source | states |
|---|---|---|
| `Labels.Distinct` | main.py:59-60 | `unique()`: no value twice, exactly the values of the column, kept in the order in which each first appears |
| `Labels.SortedDistinct` | main.py:31-34 | `np.sort(unique())`: strictly increasing, and exactly the values of the column |
| `Labels.DistinctSameLength` | main.py:31-34 | `unique()` of a column and its sorted distinct list have the same length, so the label list inserted into `E` at main.py:542 has the right length |
| `Labels.DistinctOfSortedIsSortedDistinct` | main.py:42-44 | for a column already in non-decreasing order, `unique()` equals the sorted distinct list |
| `GroupedCounts.CityRows` | main.py:66 | the rows kept by the city filter are exactly the rows of that city |
| `GroupedCounts.CityRowsAppend` | main.py:66 | the filter keeps the original order: filtering a concatenation concatenates the filtered parts |
| `GroupedCounts.CityRowsSingle` | main.py:66 | a single row is kept, once, exactly when it belongs to the city. With `CityRowsAppend`, this fixes the filter's order and multiplicity |
| `GroupedCounts.CountFirstMatch` | main.py:66-75 | the stored value for (city, offense) is the count of the first row, in query order, with that city and that offense type |
| `GroupedCounts.Count` | main.py:72-75 | the stored value: the lookup's count, or 0 where the lookup fails. Its contract gives 0 for a pair with no row; `CountFirstMatch` and `CountAbsent` pin it down completely |
| `GroupedCounts.Lookup` | main.py:72-75 | the lookup succeeds iff some row has the offense; on success it gives the count of the first such row |
| `GroupedCounts.CountOfRow` | main.py:71-75 | with GROUP BY's distinct pairs, the stored value for a group's (city, offense) is that group's `Count(*)` |
| `GroupedCounts.CountAbsent` | main.py:74-75 | a (city, offense) pair with no group is stored as 0 |
| `GroupedCounts.CountZeroIffAbsent` | main.py:71-75 | with distinct groups and counts of at least 1, a stored 0 means exactly that the pair has no group |
| `GroupedCounts.OrderedPairsDistinct` | main.py:42-44 | rows ordered strictly by (city, offense) never repeat a pair |
| `Fingerprints.BuildFingerprints` | main.py:59-77 | `cidades` and `crimes` are the `unique()` lists. `E` has a column exactly for each city in `cidades`, each of length `len(crimes)`. Slot k of city c holds c's looked-up count of `crimes[k]`. With distinct groups, each column adds up to the city's total |
| `Fingerprints.FingerprintSums` | main.py:64-77 | with distinct groups, every column of a fingerprint matrix sums to its city's number of events |
| `Fingerprints.SumCountsIsCityTotal` | main.py:71-75 | over a duplicate-free offense list covering the city's groups, the stored values add up to the city's total: no count is lost or counted twice |
| `Fingerprints.FingerprintSlot` | main.py:71-75 | a slot holds the group's count when the group exists and 0 when it does not. With positive counts, a slot is 0 only when the group is absent |
| `Fingerprints.CidadesAreSorted` | main.py:59 | with the query's ORDER BY, `cidades` is strictly sorted and equals the sorted city list |
| `Fingerprints.CrimesSortedWhenFirstCityCoversAll` | main.py:60 | if the first city's groups cover every offense type, `crimes` equals the sorted offense list |
| `Fingerprints.CrimesNotSortedInGeneral` | main.py:60 | for the ordered rows (A,b), (A,c), (B,a), `crimes` is [b, c, a] while the sorted offense list is [a, b, c] |
| `Fingerprints.ExampleFingerprints` | main.py:59-77 | the matrix of those rows is A = [1, 1, 0], B = [0, 0, 1] over `crimes` = [b, c, a] |
| `Contingency.CrossTab` | main.py:46-47 | the crosstab has a cell exactly for each observed (city, offense) pair, and that cell holds the group's count. The mean of one count is the count |
| `Contingency.CrossTabInGrid` | main.py:46-47 | every crosstab cell lies within its sorted label grid |
| `Contingency.ContingencyTable.constructor` | main.py:46-47 | the table's index is the sorted city list, its columns are the sorted offense list, and its cells are the crosstab's. The table is valid: labels strictly sorted and no cell outside the grid |
| `Contingency.ContingencyTable.FillNa` | main.py:49 | in place, on a valid table: the labels are unchanged, and each existing cell keeps its value. Every label combination now has a cell; the missing ones get the fill value. The table stays valid |
| `Contingency.BuildContingencyTable` | main.py:46-49 | crosstab, then fillna(0), gives the dense table over the sorted labels |
| `Contingency.DenseCell` | main.py:46-49 | a cell exists exactly for an observed city and an observed offense type. It equals the stored count, and it is 0 for a pair with no group |
| `Contingency.TableAgreesWithFingerprints` | main.py:46-77 | the table and the fingerprint matrix hold the same numbers: `table[c][crimes[k]] == E[c][k]` |
| `Contingency.TableRowSum` | main.py:46-49 | each row of the filled table sums to the city's number of events |
| `Contingency.TableColumnSum` | main.py:46-49 | each column of the filled table sums to the offense type's number of events |
| `Contingency.TableGrandTotal` | main.py:46-49 | the sum of all cells is the total number of events |
| `Display.Truncate` | main.py:539 | `s[:20]`: a prefix of `s` of length `min(len(s), 20)`; a short label is unchanged |
| `Display.TruncateInPlace` | main.py:538-539 | after the loop, every element is its old value cut to 20 characters |
| `Display.TruncatedCopy` | main.py:537-539 | the copy holds the cut labels, and `possible_offenses` itself is left unchanged |
| `Display.CountTable` | main.py:541-547 | record k carries label k, then row k of every city column in `cidades` order |
| `Display.CountTableAsWritten` | main.py:537-547 | the table as the callback builds it, labelled with the cut sorted offense list: one record per sorted offense type. `CountTableAsWrittenShows` states what each record holds |
| `Display.CountTableCorrected` | main.py:537-547 | the table labelled with `crimes` gives every record the right label and, in each city column, that city's count of that offense |
| `Display.CountTableAsWrittenMatchesWhenSorted` | main.py:537-547 | the table as written is labelled correctly whenever `crimes` equals the sorted offense list |
| `Display.CountTableAsWrittenShows` | main.py:537-547 | for any fingerprint matrix, the table as written has one record per offense type. Record k is labelled with the k-th sorted offense type, but in every city column it holds the count of `crimes[k]` |
| `Display.CountTableAsWrittenMislabels` | main.py:537-547 | for rows (A,b), (A,c), (B,a), the table as written gives label "a" to the record holding A's count of "b". The labels do not match the counts |
| `Display.Partners` | main.py:592-594 | the cities visited by the loop, which are every listed city other than the selected one |
| `Display.CityLinks` | main.py:591-631 | links are produced iff the selected city and every listed city have a position. Otherwise the result names a city with no position. The links are (city1, c) for each other city c in list order, then (city1, city1) last |
| `Display.PartnersSkipSelf` | main.py:592-631 | for a selected city listed once, the other cities are the list with it removed, so the links number exactly `len(possible_cities)` and every city ends exactly one link |

## Left out

- The SQL queries are not modelled. The grouped rows are an input. What the query guarantees is stated as predicates:
  - `PairsDistinct`: GROUP BY yields each pair once;
  - `OrderedByCityThenOffense`: the ORDER BY;
  - `CountsPositive`: `Count(*)` is at least 1.
- Lemmas that need these facts take them as `requires`.
- The label lists `possible_offenses` and `possible_cities` come from their own `SELECT DISTINCT` queries (main.py:31-34). Here they are the sorted distinct lists of the grouped rows' columns. Both queries read the same table, so they have the same values.
- The per-city mean positions (main.py:54-56) are an input map `positions`; the averaging itself is not modelled.
- `chi2_contingency` (main.py:51) and `E.corr()` (main.py:80) are floating-point statistics and are not modelled.
- The colour of each link (`cmap(corr_table[city1][city2])`), its text and styling, and the map centre (main.py:634-637) are not modelled. Neither is the `KeyError` the correlation lookup could raise.
- Crosstab cells are floats in pandas. Here they are natural numbers, which is exact, because each mean is taken over one integer count.
- Counts are unbounded integers. SQLite's 64-bit counts cannot overflow for any realistic table.
- `Count` models the bare `except:` as catching only the failed `.values[0]` lookup; no other exception can arise in that statement for well-formed rows.
- The `E` DataFrame is a map from city to its column, with `cidades` giving the column order. Pandas indexes are not modelled.
- The Dash layout, the other tabs and callbacks, and `csv2sqlite.py` are outside this model.

## Findings

| source | as written | input that shows it | evidently intended | confidence | as-written member | corrected member |
|---|---|---|---|---|---|---|
| main.py:537-542 | The count table labels the rows of `E` with the sorted `possible_offenses`. But `E`'s rows follow `crimes`, the order in which offense types first appear in the grouped rows. | grouped rows (A,b,1), (A,c,1), (B,a,1): `crimes` = [b, c, a] and the labels are [a, b, c], so the record "a" shows A = 1 although A has no "a" events | label each row with the offense it was built for (`crimes`, cut to 20 characters) | not executed | `Display.CountTableAsWrittenShows` (with `Display.CountTableAsWrittenMislabels`) | `Display.CountTableCorrected` |
