# Incident dashboard core, in Dafny

A verified model of the data side of an ITSM incident dashboard
(`script.js`). The page loads two tables:

- an incident table, with one row per Site, Time frame, Group, Category and
  Sub Cat, an incident `Count` and a mean duration `Hours`;
- a relation table of Source → Target edges between categories and
  subcategories.

The model covers what the page computes from these tables:

- the filter state: one option list per filter key, each option a value
  with a `selected` flag;
- how the initial draw, the reset button and the three kinds of checkbox
  (an option, "Select All", "Top 10") change the filter state;
- the automatic choice of the two busiest Groups of every selected
  Category;
- the row filter;
- the per-key statistics (`computeStats`), the Sankey and network-node
  averages, and the top-N choices made for the summary prompt;
- the category connection summary.

Modules:

- `Wrappers`: `Option`, `Min`.
- `Seqs`: distinctness, first-appearance deduplication (`new Set` order) and
  subsequences.
- `Sorting`: a stable insertion sort standing in for `Array.prototype.sort`,
  and code-point string order.
- `Incidents`: rows, relations and the filter keys.
- `Stats`: grouping, `computeStats`, top-N by count and `adjustHoursAndSize`.
- `Filters`: the filter state and every transition, as functions, with
  lemmas.
- `Dashboard`: the page as a class whose methods update `data` and
  `filters` in place. Each method is proved to produce the state its
  `Filters` function describes.
- `Network`: the node statistics of `drawNetwork`.
- `Summary`: the per-category data and the network summary behind the
  summary prompt.

## Model

Some functions have no row of their own, because the lemma in a row states their contract: `Summary.RelatedCategories` (by `Summary.RelatedMembers` and `Summary.RelatedMultiplicity`), `Summary.AddEdge` (by `Summary.ConnectionsStepAt`), `Filters.ApplyTopGroups` (by `Filters.ApplyTopGroupsSpec`) and `Network.NodeStats` (by the `Network.Node…` lemmas), `Stats.WeightedAvg` (by its own contract, `Stats.ComputeStats` and `Stats.WeightedAvgBounds`), `Network.Rollup` (by `Network.RollupMatchesStats`), `Summary.Relevant` (by `Summary.SummaryIgnoresIrrelevant`), `Summary.SubCatTargets` (by `Summary.SummarySubCats`), `Filters.TopGroupKeys` (by `Filters.TopGroupKeysSpec`) and `Filters.TopGroupSet` (by `Filters.AllCategoriesVisited` and `Filters.TopGroupSetBound`). Likewise each `…Spec` lemma covers the function it names.

| member | source | states |
|---|---|---|
| Dashboard.Dashboard.constructor | script.js:29-36 | Before any upload, both tables are absent and `filters` is the empty object. |
| Dashboard.Dashboard.UploadIncidents | script.js:50-53 | Stores the incident table and redraws. Once both tables are present, the filters are exactly the reset state of the new rows; otherwise nothing else changes. |
| Dashboard.Dashboard.UploadRelations | script.js:56-59 | Stores the relation table and redraws. Once both tables are present, the filters are the reset state of the incident rows; otherwise they are untouched. |
| Dashboard.Dashboard.Draw | script.js:62-68 | Does nothing while a table is missing. Otherwise the filters become `ResetState`: initialised, then drawn. |
| Dashboard.Dashboard.ResetFilters | script.js:92-99 | The listener is registered with no guard, so the reset may be clicked at any time. When the incident table is present, the filters become `ResetState(incidents)` whatever they were before, and the dropdowns count as drawn. Before any incident upload `initializeFilters` fails on the missing table before assigning a key, so nothing changes. The tables are untouched either way. |
| Dashboard.Dashboard.InitializeFilters | script.js:77-89 | The loop over the filter keys leaves exactly `Initial(incidents)`: one option list per key, overwriting the old lists. The result is well formed. |
| Dashboard.Dashboard.DrawFilters | script.js:142-149 | Renders every key in turn, then selects the top groups. The final state equals `Filters.DrawFilters` of the old state. |
| Dashboard.Dashboard.RenderFilterOptions | script.js:153-158 | Sorts one key's options in place into display order. Every other key is untouched. |
| Dashboard.Dashboard.AssignFlags | script.js:209 | The `forEach` that sets each option's flag to `f(value)` changes only that key, keeps the values, and sets every flag. |
| Dashboard.Dashboard.SelectTopGroups | script.js:238-275 | First clears Group, with an early return when no category is selected. Then it selects exactly the collected top groups and re-renders Group. The result equals `ApplyTopGroups`. |
| Dashboard.CollectTopGroups | script.js:250-266 | The loop over categories in first-appearance order, adding the top two groups of each selected one, yields exactly `TopGroupSet` of the selection. |
| Dashboard.Dashboard.SetOption | script.js:177-179 | `find` then assign: only the first option with that value gets the new flag. A missing value changes nothing. |
| Dashboard.Dashboard.AfterChange | script.js:180-181 | A Category change re-runs `selectTopGroups`; then the key is re-rendered. The result is `Changed` of the state before the flag update. |
| Dashboard.Dashboard.Toggle | script.js:175-183 | Once the dropdowns are drawn, an option checkbox leaves exactly `AfterToggle` and keeps the state well formed. |
| Dashboard.Dashboard.SelectAll | script.js:205-213 | Once the dropdowns are drawn, a "Select All" checkbox leaves exactly `AfterSelectAll` and keeps the state well formed. |
| Dashboard.Dashboard.TopTen | script.js:217-228 | Once the dropdowns are drawn, the "Top 10" checkbox leaves exactly `AfterTopTen` and keeps the state well formed. |
| Dashboard.Dashboard.Visible | script.js:278-289 | A row is shown iff it is an incident that passes every filter key. A passing row is kept as many times as it occurs in the table. |
| Dashboard.Dashboard.DrawNetwork | script.js:373-440 | No node changes when no row passes the filters. Otherwise every node gets `NodeStats` of the visible rows. |
| Filters.InitialOptionsSpec | script.js:77-88 | Each key offers the column's distinct non-empty values, once each and in ascending order. All are selected except under Group, where none is. |
| Filters.InitialSpec | script.js:77-89 | `initializeFilters` leaves a well-formed map over the four filter keys. Each key offers exactly the column's non-empty values, with everything selected except Group. |
| Filters.NonEmptyValues | script.js:79-82 | A value is kept iff it is non-empty and occurs in the column. |
| Filters.SortOptionsSpec | script.js:158 | The options sort is a permutation that keeps the values and the selection. It puts selected options before unselected ones and collates the values within each half. |
| Filters.RenderAllSpec | script.js:143 | Rendering permutes the visited keys into display order and leaves the other keys alone. |
| Filters.RelabelSpec | script.js:209 | Setting every flag to `f(value)` keeps the values in order and selects exactly the values satisfying `f`. |
| Filters.FindOption | script.js:178 | `find` returns the first option with the value, or reports none. No earlier option has it. |
| Filters.SetFirstSpec | script.js:177-179 | The toggled value joins the selection when checked and leaves it otherwise. An absent value changes nothing, and the values are kept. |
| Filters.SelectedValues | script.js:239 | The selected values are exactly the values of the selected options. |
| Filters.TopGroupKeysSpec | script.js:250-264 | A category's chosen groups are distinct groups of that category, as many as it has up to two. No group left out has a larger ΣCount than a chosen one. A group left out with the same ΣCount as a chosen one first appears after it among the category's rows. |
| Filters.UnionOverSpec | script.js:257-266 | Folding over the categories, adding the top groups of the selected ones, gives the union over the selected categories that occur. |
| Filters.AllCategoriesVisited | script.js:259-266 | The fold over the rollup's categories equals `TopGroupSet` of the selection, so selected categories with no rows add nothing. |
| Filters.TopGroupSetBound | script.js:259-266 | At most two groups are added per selected category. |
| Filters.ApplyTopGroupsSpec | script.js:238-275 | Only Group changes, and it keeps its domain. Its selection becomes the offered members of the top groups of the selected categories: none when none is selected, and at most two per category. It ends in display order. |
| Filters.DrawFiltersSpec | script.js:102-150 | Drawing keeps every domain and every selection except Group's. Group takes the top groups of the selected categories, and every key ends sorted. |
| Filters.ResetSpec | script.js:95-99 | After a reset every key offers the column's non-empty values in display order. Site, Time frame and Category select all of them; Group selects the offered members of the top two of every category. |
| Filters.ResetShows | script.js:95-99 | After a reset, a row with non-empty cells whose Group is among the top two of its category is shown. |
| Filters.ResetHidesEmptyCell | script.js:82 | After a reset, a row with an empty Site, Time frame or Category is hidden whenever another row has a non-empty value there. |
| Filters.ChangedSpec | script.js:179-181 | The changed key takes the new selection and is re-sorted. Under Category, Group is recomputed. No other key changes, and no domain changes. |
| Filters.ToggleSpec | script.js:175-183 | An option toggle adds the value to its key's selection or removes it. Other keys stay unchanged, except Group after a Category change, where it becomes the top groups of the new category selection. |
| Filters.SelectAllSpec | script.js:205-213 | Checking "Select All" selects the key's whole domain and unchecking clears it. The effect on Group is the same as for a toggle. |
| Filters.TopTenSpec | script.js:217-228 | Only allow-listed categories stay selected. The allow-list is empty, so Category and Group end with empty selections; Site and Time frame are unchanged. |
| Filters.AdmitsSpec | script.js:286 | A key admits a value iff its selection is empty or contains the value. |
| Filters.FilteredIncidents | script.js:278-289 | The result is a subsequence of the rows (order kept). It holds exactly the rows that every key admits, each as many times as it occurs in the table. |
| Filters.FilterKeepsAll | script.js:284-288 | When every row passes, the filter returns the table unchanged. |
| Filters.FilterIdempotent | script.js:284-288 | Filtering twice is the same as filtering once. |
| Filters.FilterCoveringSelections | script.js:284-288 | When every key's selection covers all the row values, every row is shown. |
| Stats.ComputeStats | script.js:726-741 | There is one entry per distinct value of the column, and the entries come in order of first appearance of their key. Each entry holds its group's ΣCount and weighted mean duration. |
| Stats.StatsTotalCount | script.js:726-741 | The entries' counts add up to the table's total incident count. |
| Stats.WeightedAvgBounds | script.js:739 | A weighted average with a positive count lies between the smallest and the largest `Hours`. |
| Stats.WeightedExample | script.js:726-741 | {Count 2, 3 h} and {Count 1, 9 h} in one group give Count 3 and an average of 5 h. |
| Stats.TopN | script.js:745 | Sort by descending Count, then slice: the result has min(n, length) entries in descending order, drawn from the input. No entry left out counts more than one kept. |
| Stats.TopNPrefersEarlier | script.js:262 | The sort is stable, so among entries tied on Count the kept ones come first in the input. |
| Stats.TopNTieOrder | script.js:745 | The sort is stable: a kept entry that ties on Count with an entry left out comes earlier in the input. |
| Stats.TopNKeyOrder | script.js:250-263 | Of two keys with the same total, one kept by the top-N choice over `computeStats` and one left out, the kept one comes first in the rollup's key order. |
| Stats.TopNDistinctKeys | script.js:262-263 | A top-N choice over entries with distinct keys has distinct keys. |
| Stats.TopTwoTieExample | script.js:262-263 | The counts {10, 7, 7, 1} keep the 10 and the first 7. |
| Stats.AdjustHoursAndSize | script.js:335-342 | In place, every item's `Hours` becomes its group's weighted average (none for a zero count) and its `size` the group's ΣCount. |
| Sorting.SortBySorted | script.js:158 | The stand-in for `Array.prototype.sort` returns a sorted permutation under any total preorder. |
| Sorting.SortByStable | script.js:262 | Elements that compare equal keep their input order. |
| Sorting.SortedTiesBefore | script.js:745 | Two equal-comparing elements that the sorted result lists in one order occur in that order in the input. |
| Sorting.StrLeTotalPreorder | script.js:83 | The comparator-less `.sort()` string order is total and transitive. |
| Seqs.Dedup | script.js:79-83 | `[...new Set(xs)]` keeps exactly the elements of `xs`, each once. An element listed before another occurs in `xs` before every occurrence of the other. |
| Network.Average | script.js:422 | `TotalHours / Count` is none (NaN) iff Count is 0; otherwise the average times the count is the total. |
| Network.RollupMatchesStats | script.js:385-401 | The per-Category and per-Sub-Cat rollups have the same keys as `computeStats`, with the same counts and averages. |
| Network.AssignNodeStats | script.js:373-440 | Returns without drawing, and changes no node, iff no row is visible. Otherwise every node is annotated in place with `NodeStats`. |
| Network.NodeOfCategory | script.js:416-423 | A node named after a category carries that category's statistics, even when a subcategory has the same name. |
| Network.NodeOfSubCat | script.js:424-431 | A node named only after a subcategory carries that subcategory's statistics. |
| Network.NodeUnmatched | script.js:432-439 | A node matching neither gets TotalHours 0, Count 0 and AvgHours 0. |
| Network.NodeAverage | script.js:414-440 | In every case the node keeps its value, its average times its count is its total, and a zero count means zero hours. |
| Network.NodeAverageBounds | script.js:414-431 | A matched node's average lies between the shortest and the longest row duration. |
| Summary.RelatedMembers | script.js:507-509 | `x` is related to `c` iff there is a relation `c → x` or `x → c`. |
| Summary.RelatedMultiplicity | script.js:507-509 | `x` appears once per relation `c → x`, plus once per relation `x → c` when `x ≠ c`. |
| Summary.CategoryDataOf | script.js:497-516 | A category gets no entry (the `continue`) iff no filtered row belongs to it. |
| Summary.CategoryDataCounts | script.js:501-504 | The Time frame, Site and Group breakdowns of an entry each sum to the category's incident count. |
| Summary.FormatTopStats | script.js:744-746 | The printed entries are the top five by Count, and there are none iff there are no stats. |
| Summary.FormatCategoryStats | script.js:758-806 | Prints the top two time frames, sites and groups, and every related category. |
| Summary.NetworkSummaryOf | script.js:829-835 | There is one line per selected category, in order, naming that category. |
| Summary.CountConnections | script.js:816-826 | A vertex has an entry iff some relevant relation touches it. Its entry is the deduplicated list of the other endpoints of those relations. |
| Summary.ConnectionsStepAt | script.js:817-824 | One relation adds its target to its source's neighbour set and its source to its target's. Afterwards a name has an entry iff some relation so far links it, and the entry is those partners deduplicated in first-appearance order. |
| Summary.PrepareNetworkSummary | script.js:809-852 | The summary built in one pass equals `NetworkSummaryOf`. |
| Summary.SummaryMatchesRelated | script.js:829-835 | A selected category's connections are the distinct entries of its related-categories list over all relations. |
| Summary.SummaryNeighbours | script.js:816-835 | A category's connections are distinct, and `x` is listed iff a relation joins the category and `x`. |
| Summary.SummarySymmetric | script.js:821-825 | Between two selected categories, each lists the other or neither does. |
| Summary.SummaryIgnoresIrrelevant | script.js:811-813 | Appending a relation that touches no selected category leaves the summary unchanged. |
| Summary.SummarySubCats | script.js:838-842 | The related subcategories are distinct, and are exactly the targets of relations whose source is selected. They are listed in the order of the first such relation reaching each. |

## Left out

- CSV reading (`readCSV`, `d3.autoType`) and the file inputs: an upload hands the model its parsed rows. An empty or null cell is the empty string, and a non-numeric `Count` or `Hours` is not modelled.
- Dimension cells (Site, Time frame, Group, Category, Sub Cat) are assumed to stay strings. `d3.autoType` turns a numeric, `true`/`false` or ISO-date-like cell into a number, a boolean or a Date, and the source then behaves differently in two ways.
  - The options sort (script.js:158) compares `(a.value || '')` with `localeCompare`. A falsy value (`0`, `false`) becomes `''` and sorts as the empty string. A truthy non-string (a non-zero number, `true`, a Date) has no `localeCompare`, so the sort throws whenever the comparator reaches that step with such a value as its left operand.
  - A checkbox value is a string, so the strict comparison in the option lookup (script.js:178) never matches such an option and its flag is not changed. The rest of the handler still runs (script.js:179-182). For a Category option, `selectTopGroups` then resets every Group flag to the top groups of the unchanged Category selection, discarding manual Group choices.
- The DOM: the HTML of `drawFilters` and `renderFilterOptions`, the search box, the dropdowns, the tooltips, the spinner and the "Select All" box that "Top 10" unchecks.
- `update()`: the Sankey, network and k-partite drawing. `kpartite` builds the network nodes from the relations; here those nodes are an input array, and only the statistics written onto them are modelled.
- The colour scale, the threshold input and the radius scale: presentation only.
- `num0`, `num2`, the text of the summary prompt and the LLM calls: string formatting and network I/O. The summary is modelled as the entries and lists the text is built from.
- `localeCompare` is a parameter, `collate`, assumed to be a total preorder, because ICU collation cannot be written down here. `.sort()` with no comparator uses code-point order (`StrLe`) over characters, not UTF-16 code units.
- JavaScript NaN is `None`. The `d3.sum` handling of null or NaN cells is not modelled.
- Numbers are exact here. `Count` and `Hours` are IEEE-754 doubles in JavaScript, while the model takes `Count` as a `nat` and `Hours` as a `real`, and computes sums and quotients (`d3.sum` at script.js:731-732 and 388-398, the averages at script.js:739, 422 and 430) without rounding. For example, one row with Count 3 and Hours 0.1 has the double average `0.30000000000000004 / 3 = 0.10000000000000002`, above that row's Hours.
- Stats.WeightedAvgBounds, Network.NodeAverageBounds: the average lies between the smallest and largest Hours only in exact arithmetic. Double rounding can put it just outside, as in the example above.
- Stats.WeightedAvg, Network.Average, Network.NodeAverage: `average · count == total` holds only in exact arithmetic. In doubles, `(7/25)*25` is `7.000000000000001`.
- `Count` is assumed to be a non-negative integer. A negative or fractional Count, which `d3.autoType` would read from the CSV, is not modelled. With such counts the total could be zero for a non-empty group, which would make the averages NaN. With non-negative integer counts, every ΣCount below 2^53 is exact in doubles, so the top-N and top-group choices, which compare ΣCount, agree with the program.
- `connectionCounts` and `categoryData` are plain JavaScript objects, so a value such as `"constructor"` would hit an inherited property. The model uses maps without a prototype.
- Summary.FormatTopStats: `sort` reorders the caller's array in place. The model returns the chosen entries as a value and does not model that side effect.
- Summary.FormatCategoryStats: the same in-place sort of the three breakdowns is not modelled.
- The "Top 10" handler takes its key from the element id. Only the Category dropdown has that checkbox, so the model fixes the key to Category.
- After a reset, a row with an empty Site, Time frame or Category is hidden whenever that column has a non-empty value elsewhere (`Filters.ResetHidesEmptyCell`). Empty cells are never offered as options, so selecting every option does not show every row.
