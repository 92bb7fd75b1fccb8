# Duplicate parts app: a verified Dafny model of its row processing

The application shows three views of inventory spreadsheets that have been parsed into rows
(one header per column, each cell typed dynamically as a string, number, boolean or empty):

- **DuplicatePartsAnalyzer** groups the summary rows by `Part`.
  - It keeps the parts that occur in more than one row.
  - A count matrix is projected for every such part: the `Branch`, `Description` and count columns, each with its falsy fallback.
  - Statistics are taken over the difference values: mean, population variance, coefficient of variation, min, max and range.
  - The resulting records are narrowed by a part-number filter and a location filter.
  - A location picker lists the distinct non-empty `Branch` cells.
- **PlannerVarianceMatrix** and **PartVarianceMatrix** show the rows flat.
  - A chain of optional filters narrows them: substring filters on text columns, and "the chosen column parses to a non-zero number".
  - Clicking a column header toggles `sortConfig` and stably re-sorts the shown rows.

Modules:

| module | file | what it holds |
|---|---|---|
| `JsValues` | `js_values.dfy` | JavaScript cells, truthiness, `\|\|` fallback, ASCII lower-casing, `includes`, `String()` for the cells it can render, `parseFloat` over the longest decimal prefix, and how the comparator's `<` compares cells: `null`, booleans and numbers as numbers, strings by UTF-16 code units |
| `Sequences` | `sequences.dfy` | `Array.prototype.filter` (`Select`), `[...new Set(xs)]` (`Distinct`), subsequences |
| `TableSort` | `table_sort.dfy` | the `sortConfig` toggle, the three-way comparator, and the stable sort `Array.prototype.sort` performs with it (section 22.1.3.27 of ECMA-262, 10th edition, requires stability) |
| `Dispersion` | `dispersion.dfy` | sum, mean, variance, min, max, range, the squared coefficient of variation, the per-row colour and percentage |
| `DuplicatePartsAnalyzer` | `duplicate_parts.dfy` | `findDuplicates`, `filteredDuplicates` and the unique-location list, all pure functions |
| `PlannerMatrix` | `planner_matrix.dfy` | class `PlannerVarianceMatrix`, whose methods change the component's state |
| `PartMatrix` | `part_matrix.dfy` | class `PartVarianceMatrix`, whose methods change the component's state |

How JavaScript is modelled:

- **Group order.** `_.groupBy` followed by `Object.entries` lists integer-like keys first. The model does not fix the order. `FindDuplicates` takes the key listing `order` as a parameter, and `EnumeratesParts` says what a valid listing is: every key once, and only keys.
- **Stateful filters and sort.** In each matrix view, the state is a class; its fields are the component's `useState` slots. The filter effect is `ApplyFilters`, which narrows a local copy one switched-on filter at a time, in the source's order. A filter change is `SetFilters`, the parse callback is `Load`, and a header click is `HandleSort`. `Valid()` is the invariant every method keeps: the shown rows are a permutation of what the filters select from the data, unless the part view has crashed (see below), in which case the shown rows are the stale ones.
- **Comparisons.** The sort comparator's `<` and `>` compare the `SortKey` of each cell. `null`, booleans and numbers become numbers, as ToNumber makes them (`null` and `false` are 0, `true` is 1), so a blank cell sorts where 0 would. Strings become their UTF-16 code units. Rows whose keys are equal tie, and the stable sort keeps tied rows in order.
- **Thrown errors.** `toLowerCase` throws on a value that is not a string:
  - In the duplicate filter, the location test `item.Branch.toLowerCase()` throws for a truthy non-string `Branch`. This is an `Outcome.TypeError`, kept with JavaScript's exact order of evaluation: both tests of the callback run before the `&&`, and `some` stops at the first match.
  - In `PartVarianceMatrix`, `item.Part.toLowerCase()` throws for a non-string `Part`. A throw inside a React effect unmounts the component, so it sets the class's `crashed` flag.

## Model

| member | source | states |
|---|---|---|
| JsValues.IncludesAt | src/components/DuplicatePartsAnalyzer.js:100-102 | `s.includes(sub)` holds iff `sub` starts at some position of `s`; in particular (ContainsEmpty) every text contains the empty filter |
| JsValues.OrFallback | src/components/DuplicatePartsAnalyzer.js:113-117 | `v \|\| fallback` is one of its operands, truthy iff either is, and falsy only as the fallback itself: `location` and `description` come out a truthy cell or `''`, each count a truthy cell or `0` |
| JsValues.TrimStart | src/components/PlannerVarianceMatrix.js:84 | `parseFloat`'s leading white-space skip drops exactly the white space at the front: every dropped character is white space, and what remains is a suffix that does not start with white space |
| JsValues.NatTextValue | src/components/DuplicatePartsAnalyzer.js:148 | the decimal text `String()` gives a natural number reads back as that number |
| JsValues.Text | src/components/DuplicatePartsAnalyzer.js:148 | definition of `String(v)` for strings, booleans, `null`, `undefined` and whole numbers below 10^21; TextParses and IntTextParses state its round trip with `parseFloat` |
| JsValues.DigitsParse | src/components/PlannerVarianceMatrix.js:84 | a run of digits alone parses to its decimal value |
| JsValues.IntTextParses | src/components/PartVarianceMatrix.js:77 | `parseFloat(String(n))` is `n` for every whole number `n` |
| JsValues.TextParses | src/components/PartVarianceMatrix.js:77 | for every number cell `String()` renders, `parseFloat` of that text agrees with `parseFloat` of the number itself |
| JsValues.ParseDecimal | src/components/PlannerVarianceMatrix.js:84 | definition of `parseFloat` on text: the longest StrDecimalLiteral prefix after the leading white space; NumericPrefix, NoDigitsIsNaN and IntTextParses state what it reads |
| JsValues.ParseFloat | src/components/PlannerVarianceMatrix.js:84-85 | definition of `parseFloat(v)`: a number reads as itself, a string through ParseDecimal, and `true`, `false`, `null` and `undefined` (whose text has no digits) as NaN |
| JsValues.ParseLettersIsNaN | src/components/PlannerVarianceMatrix.js:84-85 | an example of NoDigitsIsNaN: `parseFloat("abc")` is NaN, so the variance filter drops the cell |
| JsValues.NoDigitsIsNaN | src/components/PlannerVarianceMatrix.js:84-85 | `parseFloat` of text that starts with no white space, sign, digit, point or `Infinity` is NaN |
| JsValues.NumericPrefix | src/components/PlannerVarianceMatrix.js:84-85 | digits followed by text that does not continue the number parse to the digits' value; the rest is ignored (helpers UnsignedStart and NegativeStart read the sign) |
| JsValues.ParseNumericPrefix | src/components/PlannerVarianceMatrix.js:84-85 | an example of NumericPrefix: `parseFloat("12abc")` is 12 |
| JsValues.SortKey | src/components/PlannerVarianceMatrix.js:104-107 | definition of what `<` compares a cell as: `null`, booleans and numbers as the numbers ToNumber gives, strings as their UTF-16 code units (`Utf16`), `undefined` below both |
| JsValues.Less | src/components/PlannerVarianceMatrix.js:104 | definition of `a[key] < b[key]` on two cells, through their SortKeys; the lemmas below make it a strict weak order |
| JsValues.UnitsLessIrreflexive | src/components/PlannerVarianceMatrix.js:104 | string `<` (code-unit order) is irreflexive |
| JsValues.UnitsLessTransitive | src/components/PlannerVarianceMatrix.js:104 | string `<` is transitive |
| JsValues.UnitsLessTotal | src/components/PlannerVarianceMatrix.js:104-107 | of two different code-unit sequences one is `<` the other |
| JsValues.LessIrreflexive | src/components/PlannerVarianceMatrix.js:104 | no cell is `<` itself |
| JsValues.LessTransitive | src/components/PlannerVarianceMatrix.js:104 | the cell order is transitive |
| JsValues.LessTotal | src/components/PlannerVarianceMatrix.js:104-107 | of two cells that compare as different values, one is below the other |
| JsValues.LessAsymmetric | src/components/PlannerVarianceMatrix.js:104-107 | `a < b` and `a > b` never both hold |
| JsValues.LessTies | src/components/PlannerVarianceMatrix.js:104-110 | neither cell is `<` the other exactly when both compare as the same value, which is when the comparator returns 0 |
| JsValues.NullAndBooleansAreNumbers | src/components/PlannerVarianceMatrix.js:104-107 | against every cell, `null` compares exactly like 0, `false` like 0 and `true` like 1 |
| JsValues.AstralBeforeHighPlane | src/components/PlannerVarianceMatrix.js:104 | strings compare by UTF-16 code units: a character above U+FFFF sorts before every character from U+E000 to U+FFFF |
| Sequences.Select | src/components/PlannerVarianceMatrix.js:71-73 | definition of `s.filter(p)`; the Select lemmas below state what it keeps |
| Sequences.Distinct | src/components/DuplicatePartsAnalyzer.js:48 | definition of `[...new Set(xs)]`; DistinctMembers, DistinctNoDuplicates and DistinctOrder state its contents and order |
| Sequences.SelectIsSubsequence | src/components/PlannerVarianceMatrix.js:71-87 | `filter` returns a subsequence of its input |
| Sequences.SelectMembers | src/components/PlannerVarianceMatrix.js:71-87 | an element is in a filter's output iff it is in the input and passes |
| Sequences.SelectIdempotent | src/components/PlannerVarianceMatrix.js:71-87 | filtering twice with one predicate equals filtering once |
| Sequences.SelectFuse | src/components/PlannerVarianceMatrix.js:68-87 | two chained filters equal one filter by the conjunction |
| Sequences.SelectOrder | src/components/DuplicatePartsAnalyzer.js:48 | `filter` keeps the relative order of the elements it keeps |
| Sequences.SelectNoDuplicates | src/components/DuplicatePartsAnalyzer.js:48 | filtering a repeat-free list leaves it repeat-free |
| Sequences.DistinctMembers | src/components/DuplicatePartsAnalyzer.js:48 | `[...new Set(xs)]` holds exactly the elements of `xs` |
| Sequences.DistinctNoDuplicates | src/components/DuplicatePartsAnalyzer.js:48 | `[...new Set(xs)]` has no repeats |
| Sequences.DistinctOrder | src/components/DuplicatePartsAnalyzer.js:48 | `[...new Set(xs)]` lists elements in the order of their first occurrence |
| Sequences.SelectDistinct | src/components/DuplicatePartsAnalyzer.js:48 | filtering after `new Set` gives the same list, in the same order, as filtering before it |
| TableSort.NextConfig | src/components/PlannerVarianceMatrix.js:96-101 | definition of the click toggle; SameKeyFlips, OtherKeyAscends and ClicksAlternate state its behaviour |
| TableSort.SameKeyFlips | src/components/PlannerVarianceMatrix.js:96-101 | a click on the sorted column keeps the key and flips the direction |
| TableSort.OtherKeyAscends | src/components/PlannerVarianceMatrix.js:96-101 | a click on another column, or the first click, sorts that column ascending |
| TableSort.ClicksAlternate | src/components/PartVarianceMatrix.js:88-94 | repeated clicks on one column alternate asc, desc, asc, ... starting with asc |
| TableSort.Compare | src/components/PlannerVarianceMatrix.js:103-111 | definition of the comparator; CompareAntisymmetric, CompareTransitive and CompareDescending state its laws |
| TableSort.CompareAntisymmetric | src/components/PlannerVarianceMatrix.js:103-111 | swapping the rows negates the comparator; it returns 0 exactly when the two cells compare as the same value (`Cell`), so `null` ties with 0 |
| TableSort.CompareTransitive | src/components/PlannerVarianceMatrix.js:103-111 | the comparator is transitive, strictly so when one step is strict |
| TableSort.CompareDescending | src/components/PlannerVarianceMatrix.js:104-109 | descending comparison is ascending comparison with the rows swapped |
| TableSort.StableSort | src/components/PlannerVarianceMatrix.js:103-113 | definition of `[...filteredData].sort(comparator)`; SortPermutes, SortSorts, SortStable and SortCharacterized make it the one sorted, stable permutation |
| TableSort.SortPermutes | src/components/PlannerVarianceMatrix.js:103-113 | the sorted rows are a permutation of the shown rows |
| TableSort.SortSorts | src/components/PlannerVarianceMatrix.js:103-113 | the sorted rows are ordered by `row[key]` in the chosen direction |
| TableSort.SortStable | src/components/PartVarianceMatrix.js:96-104 | rows whose cells tie keep their relative order |
| TableSort.SortedUnique | src/components/PartVarianceMatrix.js:96-104 | two sorted lists with the same runs of tied rows are equal |
| TableSort.SortCharacterized | src/components/PartVarianceMatrix.js:96-104 | any sorted list with the input's runs of tied rows is the sort's result |
| TableSort.SortOfSorted | src/components/PartVarianceMatrix.js:96-104 | sorting an already sorted list changes nothing |
| TableSort.SortIdempotent | src/components/PartVarianceMatrix.js:96-104 | sorting twice in one direction equals sorting once |
| TableSort.DistinctCellsReverse | src/components/PlannerVarianceMatrix.js:103-113 | when no two rows tie on `row[key]`, the descending sort is the ascending sort reversed |
| TableSort.SecondClickReverses | src/components/PlannerVarianceMatrix.js:95-113 | without ties, a second click on a column reverses the first click's result |
| TableSort.TiesKeepOrder | src/components/PlannerVarianceMatrix.js:103-111 | a list whose rows all tie on `row[key]` is left as it is, in both directions |
| TableSort.SecondClickKeepsTies | src/components/PlannerVarianceMatrix.js:95-113 | for two different tied rows, the second click leaves them in place, so the descending sort is not the reverse of the ascending sort |
| Dispersion.Mean | src/components/DuplicatePartsAnalyzer.js:122 | definition of the mean; MeanBetween bounds it |
| Dispersion.Variance | src/components/DuplicatePartsAnalyzer.js:123 | definition of the population variance; VarianceNonNegative and VarianceZeroIff state its sign |
| Dispersion.Min | src/components/DuplicatePartsAnalyzer.js:137 | definition of `Math.min(...values)`; MinIsLowest and MinIsMember characterise it |
| Dispersion.Max | src/components/DuplicatePartsAnalyzer.js:138 | definition of `Math.max(...values)`; MaxIsHighest and MaxIsMember characterise it |
| Dispersion.CvSquared | src/components/DuplicatePartsAnalyzer.js:127-128 | definition of the squared coefficient of variation with the `mean !== 0` guard; CvNonNegative states its sign and zeros |
| Dispersion.Sq | src/components/DuplicatePartsAnalyzer.js:123 | `Math.pow(x, 2)` is never negative, and is positive unless `x` is 0 |
| Dispersion.Describe | src/components/DuplicatePartsAnalyzer.js:121-139 | the record's fields are the mean (sum over n), the population variance, the squared CV, `Math.min`, `Math.max` and their difference, of the values; hence variance and squared CV are non-negative, min <= mean <= max, range >= 0, min and max are values of the group, and CV is 0 when the mean is 0 |
| Dispersion.SumSquaresNonNegative | src/components/DuplicatePartsAnalyzer.js:123 | the sum of squared deviations is non-negative |
| Dispersion.VarianceNonNegative | src/components/DuplicatePartsAnalyzer.js:123 | the population variance is non-negative |
| Dispersion.CvNonNegative | src/components/DuplicatePartsAnalyzer.js:127-128 | the squared CV is non-negative, and 0 exactly when the mean is 0 (the guard) or the variance is 0 |
| Dispersion.MinIsLowest | src/components/DuplicatePartsAnalyzer.js:137 | no value is below `Math.min` |
| Dispersion.MinIsMember | src/components/DuplicatePartsAnalyzer.js:137 | `Math.min` is one of the values |
| Dispersion.MaxIsHighest | src/components/DuplicatePartsAnalyzer.js:138 | no value is above `Math.max` |
| Dispersion.MaxIsMember | src/components/DuplicatePartsAnalyzer.js:138 | `Math.max` is one of the values |
| Dispersion.SumAtLeast | src/components/DuplicatePartsAnalyzer.js:122 | values that are all at least `lo` sum to at least `n * lo` |
| Dispersion.SumAtMost | src/components/DuplicatePartsAnalyzer.js:122 | values that are all at most `hi` sum to at most `n * hi` |
| Dispersion.SumAbove | src/components/DuplicatePartsAnalyzer.js:122 | if one of those values is above `lo`, the sum is above `n * lo` |
| Dispersion.MeanBetween | src/components/DuplicatePartsAnalyzer.js:122-138 | the mean lies between min and max |
| Dispersion.SumSquaresPositive | src/components/DuplicatePartsAnalyzer.js:123 | one value away from the mean makes the squared deviations positive |
| Dispersion.SumSquaresOfConstant | src/components/DuplicatePartsAnalyzer.js:123 | equal values have no squared deviation |
| Dispersion.ConstantIffNoRange | src/components/DuplicatePartsAnalyzer.js:137-139 | min equals max iff all values are equal |
| Dispersion.VarianceZeroIff | src/components/DuplicatePartsAnalyzer.js:123-139 | the variance is 0 iff the range is 0 |
| Dispersion.DeviationTone | src/components/DuplicatePartsAnalyzer.js:246-254 | green iff the count is above the mean; red iff below |
| Dispersion.DeviationPercent | src/components/DuplicatePartsAnalyzer.js:247-249 | 0 when the mean is 0; otherwise its sign is the sign of the count's deviation from the mean |
| Dispersion.GreenHasRed | src/components/DuplicatePartsAnalyzer.js:245-254 | deviations balance out: when one row of a group is green, another is red |
| DuplicatePartsAnalyzer.ColumnSelect | src/components/DuplicatePartsAnalyzer.js:48 | `rows.map(item => item[field])` commutes with a filter on that field's cells: the column of the passing rows is the column filtered (used by UniqueLocationsOfBranchedRows) |
| DuplicatePartsAnalyzer.MembersAre | src/components/DuplicatePartsAnalyzer.js:83 | a group holds exactly the rows whose `Part` is its key, as a subsequence of the rows |
| DuplicatePartsAnalyzer.FirstSeenEnumerates | src/components/DuplicatePartsAnalyzer.js:83-94 | listing the parts in first-seen order is a valid key listing |
| DuplicatePartsAnalyzer.OccurringPartIsKey | src/components/DuplicatePartsAnalyzer.js:83-94 | every part that occurs is a group key |
| DuplicatePartsAnalyzer.FindField | src/components/DuplicatePartsAnalyzer.js:100-102 | nothing iff no header equals the canonical name or contains the fragment; otherwise the first such header (and, by FoundFieldNonEmpty, a non-empty one, so the `field ? ... : 0` tests take their first branch) |
| DuplicatePartsAnalyzer.CountCell | src/components/DuplicatePartsAnalyzer.js:115-117 | 0 when the header is missing or the cell is falsy, otherwise the cell itself |
| DuplicatePartsAnalyzer.Project | src/components/DuplicatePartsAnalyzer.js:112-118 | `location` and `description` fall back to `''` when falsy; the three counts come from the found headers |
| DuplicatePartsAnalyzer.Counts | src/components/DuplicatePartsAnalyzer.js:112-118 | one count entry for each item, in item order |
| DuplicatePartsAnalyzer.Numbers | src/components/DuplicatePartsAnalyzer.js:121-123 | the values as exact numbers, present iff every value is a number |
| DuplicatePartsAnalyzer.StatsOf | src/components/DuplicatePartsAnalyzer.js:121-139 | statistics are present iff every difference value of the group is a number |
| DuplicatePartsAnalyzer.StatsPresent | src/components/DuplicatePartsAnalyzer.js:115-123 | the statistics read one value per item, its difference cell with the `\|\| 0` fallback; a group has statistics iff every item's difference cell is a number, is falsy, or there is no difference header |
| DuplicatePartsAnalyzer.MakeDuplicate | src/components/DuplicatePartsAnalyzer.js:96-140 | definition of one duplicate record; DuplicateShape and StatsPresent state its fields |
| DuplicatePartsAnalyzer.FindDuplicates | src/components/DuplicatePartsAnalyzer.js:94-141 | definition of `findDuplicates` over a key listing; DuplicateShape, ReportedKeysAre, DuplicateFoundIff, DuplicateKeysDistinct and GroupSizesSum state its result |
| DuplicatePartsAnalyzer.DuplicateShape | src/components/DuplicatePartsAnalyzer.js:94-140 | each record has a listed key, at least 2 items, exactly that part's rows, one count entry per item, and the statistics of those counts |
| DuplicatePartsAnalyzer.ReportedKeysAre | src/components/DuplicatePartsAnalyzer.js:94-96 | the reported part numbers are exactly the listed keys whose part occurs more than once, in listing order (helper ReportedKeys unfolds one key) |
| DuplicatePartsAnalyzer.DuplicateFound | src/components/DuplicatePartsAnalyzer.js:94-95 | a key is reported iff it is listed and its part occurs at least twice |
| DuplicatePartsAnalyzer.DuplicateFoundIff | src/components/DuplicatePartsAnalyzer.js:83-95 | for any valid key listing, a part is reported iff it occurs at least twice; a part seen once never is |
| DuplicatePartsAnalyzer.DuplicateKeysDistinct | src/components/DuplicatePartsAnalyzer.js:83-96 | no part is reported twice |
| DuplicatePartsAnalyzer.TotalItemsConcat | src/components/DuplicatePartsAnalyzer.js:94-96 | the item count of two record lists adds up |
| DuplicatePartsAnalyzer.TotalItemsCountsRows | src/components/DuplicatePartsAnalyzer.js:83-96 | the records of distinct keys hold as many items as there are rows in those keys' duplicated groups |
| DuplicatePartsAnalyzer.GroupSizesSum | src/components/DuplicatePartsAnalyzer.js:83-96 | the group sizes sum to the number of rows whose part occurs at least twice |
| DuplicatePartsAnalyzer.PartMatch | src/components/DuplicatePartsAnalyzer.js:147-148 | definition of the part test; KeepIff states it together with the location test |
| DuplicatePartsAnalyzer.Keep | src/components/DuplicatePartsAnalyzer.js:147-155 | definition of the filter callback, with its throw; KeepIff, BranchMatchThrows and TextBranchesMatch state it |
| DuplicatePartsAnalyzer.FilterDuplicates | src/components/DuplicatePartsAnalyzer.js:146-156 | definition of `filteredDuplicates`; FilterThrows, FilterKeeps, FilterIdempotent and FilterNoFilters state its result |
| DuplicatePartsAnalyzer.FilterNoFilters | src/components/DuplicatePartsAnalyzer.js:146-156 | with two empty filters every duplicate passes |
| DuplicatePartsAnalyzer.FilterThrows | src/components/DuplicatePartsAnalyzer.js:146-156 | the filter throws iff its callback throws on some duplicate |
| DuplicatePartsAnalyzer.NoLocationNoThrow | src/components/DuplicatePartsAnalyzer.js:150-153 | without a location filter the filter never throws |
| DuplicatePartsAnalyzer.FilterKeeps | src/components/DuplicatePartsAnalyzer.js:146-156 | the result is a subsequence of the duplicates and holds exactly those the callback accepts |
| DuplicatePartsAnalyzer.FilterIdempotent | src/components/DuplicatePartsAnalyzer.js:146-156 | filtering the result again changes nothing |
| DuplicatePartsAnalyzer.KeepIff | src/components/DuplicatePartsAnalyzer.js:146-156 | with text branches, a duplicate passes iff its part number contains the part filter and, if a location is chosen, some item's non-empty `Branch` contains it, ignoring case |
| DuplicatePartsAnalyzer.TextBranchesMatch | src/components/DuplicatePartsAnalyzer.js:150-153 | with text branches, the location test holds iff some item's non-empty `Branch` contains the location, ignoring case |
| DuplicatePartsAnalyzer.BranchMatchThrows | src/components/DuplicatePartsAnalyzer.js:151-153 | the location test throws iff some item has a truthy non-string `Branch` and every item before it fails to match |
| DuplicatePartsAnalyzer.UniqueLocations | src/components/DuplicatePartsAnalyzer.js:48 | definition of the location list; UniqueLocationsMembers and UniqueLocationsOrder state its contents and order |
| DuplicatePartsAnalyzer.UniqueLocationsMembers | src/components/DuplicatePartsAnalyzer.js:48 | the picker has no repeats, and lists exactly the truthy `Branch` cells |
| DuplicatePartsAnalyzer.UniqueLocationsOfBranchedRows | src/components/DuplicatePartsAnalyzer.js:48 | the picker is the list of distinct `Branch` cells of the rows whose `Branch` is truthy |
| DuplicatePartsAnalyzer.UniqueLocationsOrder | src/components/DuplicatePartsAnalyzer.js:48 | the picker lists locations in the order of their first occurrence |
| PlannerMatrix.Keeps | src/components/PlannerVarianceMatrix.js:70-86 | definition of the three switched-on filter tests; QueryMembers and NonTextRejected state their effect |
| PlannerMatrix.Query | src/components/PlannerVarianceMatrix.js:66-89 | definition of the rows the filters select; ApplyFilters is proved to compute it |
| PlannerMatrix.QueryMembers | src/components/PlannerVarianceMatrix.js:67-89 | the filtered rows are a subsequence of the data; a row is kept iff it passes every switched-on filter |
| PlannerMatrix.QueryNoFilters | src/components/PlannerVarianceMatrix.js:67-89 | with all three fields empty the result is the data itself |
| PlannerMatrix.QueryIdempotent | src/components/PlannerVarianceMatrix.js:68-89 | applying the filters to their own output changes nothing |
| PlannerMatrix.NonTextRejected | src/components/PlannerVarianceMatrix.js:70-80 | a row whose `Part number` or `Planner` is not a string never passes a switched-on filter on that column |
| PlannerMatrix.VarianceFieldsAre | src/components/PlannerVarianceMatrix.js:37 | the variance columns are the headers other than `Planner` and `Part number`, in header order |
| PlannerMatrix.PlannerVarianceMatrix.constructor | src/components/PlannerVarianceMatrix.js:6-16 | the initial state: no data, empty filters, no sort, no error |
| PlannerMatrix.PlannerVarianceMatrix.ApplyFilters | src/components/PlannerVarianceMatrix.js:66-93 | the shown rows become exactly what the filters select from the data, in data order, dropping any earlier sort; nothing else changes |
| PlannerMatrix.PlannerVarianceMatrix.SetFilters | src/components/PlannerVarianceMatrix.js:58-93 | new filters are stored and the shown rows re-computed from the data |
| PlannerMatrix.PlannerVarianceMatrix.Load | src/components/PlannerVarianceMatrix.js:32-43 | non-empty rows replace the data, the variance columns and the shown rows; no rows set the "No data found" error and keep everything else |
| PlannerMatrix.PlannerVarianceMatrix.HandleSort | src/components/PlannerVarianceMatrix.js:95-113 | `sortConfig` takes the toggle's next value; the shown rows become their stable sort, a sorted permutation of the old ones |
| PartMatrix.Keeps | src/components/PartVarianceMatrix.js:69-79 | definition of the two switched-on filter tests; QueryMembers and PartFilterOnText state their effect |
| PartMatrix.Query | src/components/PartVarianceMatrix.js:65-83 | definition of the rows the filters select; ApplyFilters is proved to compute it |
| PartMatrix.QueryMembers | src/components/PartVarianceMatrix.js:66-82 | the filtered rows are a subsequence of the data; a row is kept iff it passes every switched-on filter |
| PartMatrix.QueryNoFilters | src/components/PartVarianceMatrix.js:66-82 | with both fields empty the result is the data itself |
| PartMatrix.QueryIdempotent | src/components/PartVarianceMatrix.js:66-82 | applying the filters to their own output changes nothing |
| PartMatrix.PartFilterOnText | src/components/PartVarianceMatrix.js:69-73 | on text parts, a row passes the part filter iff its `Part` contains the filter, ignoring case |
| PartMatrix.LocationFieldsAre | src/components/PartVarianceMatrix.js:36 | the location columns are the headers other than `Part`, in header order |
| PartMatrix.PartVarianceMatrix.constructor | src/components/PartVarianceMatrix.js:6-15 | the initial state: no data, empty filters, no sort, no error |
| PartMatrix.PartVarianceMatrix.ApplyFilters | src/components/PartVarianceMatrix.js:65-86 | the shown rows become exactly what the filters select from the data, dropping any earlier sort; with a part filter and a non-string `Part` the effect throws instead |
| PartMatrix.PartVarianceMatrix.SetFilters | src/components/PartVarianceMatrix.js:57-86 | new filters are stored and the shown rows re-computed, or the effect throws as above |
| PartMatrix.PartVarianceMatrix.Load | src/components/PartVarianceMatrix.js:31-42 | non-empty rows replace the data, the location columns and the shown rows; no rows set the "No data found" error and keep everything else |
| PartMatrix.PartVarianceMatrix.HandleSort | src/components/PartVarianceMatrix.js:88-106 | `sortConfig` takes the toggle's next value; the shown rows become their stable sort, a sorted permutation of the old ones |

## Left out

- The `console.log` calls are not modelled, in `findDuplicates` or in the loaders. They only write diagnostics to the console.
- Loading is not modelled: `fetch`, the CSV text, the `loading` flag and the parse- and fetch-error messages. These are asynchronous I/O and a foreign parser. The parsed rows and headers are inputs to `Load` and to `FindDuplicates`.
- The JSX rendering is not modelled, apart from the deviation colour and percentage of each count.
- `handleFilterChange` is modelled as `SetFilters` receiving the whole new filter record. The name/value event plumbing is UI.
- The duplicate view's own state updates (`setData`, `setDuplicates`, `setUniqueLocations`) are modelled as the return values of pure functions, because that view has no other state logic.
- The key order of `Object.entries` is not modelled. It puts integer-like keys first, in numeric order. `FindDuplicates` takes any listing that satisfies `EnumeratesParts`.
- Group keys are not coerced with `String()`. `_.groupBy` turns keys into strings, which would merge `"12"` and `12` into one group. The model groups by the cell value itself.
- DuplicatePartsAnalyzer.PartMatch: it reads the key through `Text`. For fractional and very large numbers `Text` gives no text, and the part filter then rejects the duplicate. In JavaScript, `String()` would give the number's shortest round-trip decimal.
- Lower-casing is ASCII only. Full Unicode case mapping is not modelled.
- `parseFloat` reads the decimal prefix exactly, as a real. Rounding to double precision is not modelled, so a value that underflows to 0 counts as non-zero.
- `Num` has no NaN, and its cells are exact reals.
- Dispersion.CvSquared: the coefficient of variation is kept as its square. This avoids the square root, and the `mean !== 0` guard is modelled exactly.
- DuplicatePartsAnalyzer.StatsOf: when a difference value is not a number, the statistics are left out and are `None`. JavaScript would concatenate strings or coerce booleans inside `reduce`.
- The `toFixed(2)` formatting of the percentage is not modelled.
- JsValues.Less: two comparisons of JavaScript's `<` are not orders, and the model orders them instead. When one side is `undefined`, `<` is false both ways, so `undefined` ties with every cell; the model puts it below every other cell. A string against a number, boolean or `null` is compared as a number (a string that does not read as a number then ties with them); the model puts every string above every number. Null, booleans and numbers, and two strings, compare as in JavaScript.
- Strings are Dafny strings, sequences of Unicode scalar values. `Utf16` gives their UTF-16 code units, but a JavaScript string holding a lone surrogate has no counterpart in the model.
- PlannerMatrix.PlannerVarianceMatrix.Load and PartMatrix.PartVarianceMatrix.Load: `Load` leaves `sortConfig` as it was. The code does not reset the sort when new data arrives, and neither does the model.
- PartMatrix.PartVarianceMatrix.HandleSort: a crashed component gets no clicks. The method does not require `!crashed`; it sorts anyway and leaves the flag alone.
