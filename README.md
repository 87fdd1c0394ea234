# Mock-Dashboard, modelled in Dafny

Mock-Dashboard is a single React component (`src/App.jsx`). It shows
enrollment figures for nine Nova Scotia universities in three views:
- a grouped bar chart;
- a pie chart over one chosen enrollment category;
- a sortable table with one checkbox per university.

The checkboxes decide which universities the two charts show. The table
always lists all nine universities, sorted by the active column.

This project models the component's data and state logic:

- **Records** (`records.dfy`): the hard-coded dataset, exactly as the source
  lists it. Each record has a name and four counts: full-time undergraduate
  `ftu`, full-time graduate `ftg`, part-time undergraduate `ptu` and
  part-time graduate `ptg`. The module also holds the count fields, their
  property keys and chart labels, and a proof that no two names are equal.
- **Selection** (`selection.dfy`): the list of ticked names, and the
  checkbox toggle `handleChange`. A ticked name is removed. Any other name
  is appended at the end.
- **Views** (`views.dfy`): the three derived views.
  - `filteredData` keeps the records whose name is ticked.
  - `barData` is the transpose of the kept records: one row per count
    field, each mapping university name to count.
  - `pieData` gives one slice per kept record, valued in the chosen field.
- **Ordering** (`ordering.dfy`):
  - the table's sort state;
  - the header-click state machine `handleSort`;
  - the table comparator: property lookup by key, a missing value
    compares equal, strings are lowercased, descending order swaps the sign.
- **Sorting** (`sorting.dfy`): `[...data].sort(comparator)`.
  - `Sorted` is a stable insertion sort, which serves as the reference
    definition. The module proves it ordered, a permutation, stable,
    idempotent, and the reverse of the ascending order when there are no
    ties. Any ordered, stable permutation of the input equals it, so it
    stands for whatever stable sort the JavaScript engine uses.
  - `SortInPlace` sorts an array in place. It is proved equal to `Sorted`.
- **Palette** (`palette.dfy`): the nine-colour palette and the positional
  lookup `colors[idx % colors.length]`.
- **App** (`app.dfy`): the component's four pieces of state as the fields
  of a `Dashboard` class: `selected`, `pieGroup`, `sortKey` and
  `sortOrder`.
  - Its constructor sets the `useState` defaults.
  - Its methods are the event handlers.
  - Its functions are the derived views and the header arrow.
- **Scenarios** (`scenarios.dfy`): end-to-end situations on the real dataset.
  - At start, Dalhousie has the largest pie slice.
  - With only two universities ticked, every bar cluster has two bars and
    the pie has two slices.
  - With nothing ticked, only the labels are left.
  - One click on the name header puts "Université Sainte-Anne" first.

JavaScript's string `<` compares UTF-16 code units. Every name in the
dataset lies in the Basic Multilingual Plane, so comparing Dafny `char`s
gives the same order. `toLowerCase` is modelled for ASCII letters only;
every other character is kept, which is exact for this dataset's names.

The name sort follows the code: lowercased names compared code unit by code
unit. Descending by name, "Université Sainte-Anne" therefore comes first.
It sorts after "University of King's College" because, after the shared
prefix "universit", 'é' (U+00E9) is larger than 'y' (U+0079). Only a
collation that folds accents, comparing 'é' as 'e', would put King's College
first.
`NameClickPutsSainteAnneFirst` proves the order the code actually gives.

## Model

| member | source | states |
|---|---|---|
| Records.Names | src/App.jsx:50 | `data.map((d) => d.name)`: same length, position by position the records' names |
| Records.Count | src/App.jsx:75-87 | `u[f]`: the count of field `f`, the `i`-th of the record's four counts for the `i`-th field in chart order |
| Records.KeyOf | src/App.jsx:42-47 | the property key of field `f` is the key of the `f`-th pie group |
| Records.KeyOfInjective | src/App.jsx:42-47 | different fields have different keys |
| Records.Label | src/App.jsx:74-86 | the bar group label of field `f`; the pie group with the same key shows the same label (`src/App.jsx:43-46`) |
| Records.TagsIncrease | src/App.jsx:18-40 | in a list whose name tags increase step by step, a later name's tag is larger than an earlier one's |
| Records.DataNamesDistinct | src/App.jsx:18-40 | the nine dataset names are pairwise distinct, so names identify records |
| Selection.Without | src/App.jsx:57 | `prev.filter((n) => n !== name)`: exactly the other names are kept, and the list never grows |
| Selection.Toggled | src/App.jsx:55-59 | the toggled name flips between in and out; every other name keeps its membership; a name not yet selected is appended at the end |
| Selection.WithoutAbsent | src/App.jsx:57 | removing an absent name leaves the list unchanged |
| Selection.WithoutAppend | src/App.jsx:57 | removal distributes over concatenation |
| Selection.WithoutNoDup | src/App.jsx:57 | removal keeps a duplicate-free list duplicate-free |
| Selection.ToggleKeepsOthersInOrder | src/App.jsx:55-59 | with the toggled name set aside, the list is unchanged, so the other names keep their order |
| Selection.ToggleKeepsNoDup | src/App.jsx:55-59 | a toggle never creates a duplicate |
| Selection.ToggleTwiceRestoresUnselected | src/App.jsx:55-59 | ticking an unticked name and unticking it again restores the list exactly |
| Selection.ToggleAll | src/App.jsx:55-59 | a session of checkbox clicks, one toggle each; a name never clicked keeps its membership |
| Selection.InitialSelection | src/App.jsx:50 | the initial selection is a valid selection (dataset names only, each once) and holds the name of every dataset record |
| Selection.SessionKeepsSelectionValid | src/App.jsx:55-59 | any sequence of dataset-checkbox clicks keeps the selection duplicate-free and within the dataset |
| Views.Filter | src/App.jsx:70 | a record is kept exactly when it is in the data and its name is selected |
| Views.FilterIsSubsequence | src/App.jsx:70 | the kept records appear in dataset order |
| Views.FilterAllSelected | src/App.jsx:70 | when every name is selected, the filter returns the dataset unchanged |
| Views.HeadNameFresh | src/App.jsx:70 | with distinct names, no later record shares the first record's name |
| Views.FilterNamesDistinct | src/App.jsx:70 | the filter keeps names distinct |
| Views.IntersectAddFresh | src/App.jsx:70 | adding a fresh name to a name set grows its intersection with the selection by one exactly when the name is selected |
| Views.NameSetCons | src/App.jsx:70 | with distinct names, the name set splits into the first name and the rest's names, disjointly |
| Views.FilterLength | src/App.jsx:70 | the number of kept records equals the number of dataset names that are selected |
| Views.FilterNames | src/App.jsx:70 | the kept records' names are exactly the dataset names that are selected |
| Views.Column | src/App.jsx:75 | `Object.fromEntries(filteredData.map(...))` has exactly the kept names as keys |
| Views.ColumnAt | src/App.jsx:75 | with distinct names, each kept record's entry holds its own count |
| Views.Pivot | src/App.jsx:72-89 | four rows, labelled with the four group labels in source order, each keyed by the kept names |
| Views.RowOf | src/App.jsx:72-89 | every count field has its row, in the order of the four rows |
| Views.PivotIsTranspose | src/App.jsx:72-89 | in the row of field `f`, the bar named after a kept record holds that record's count of `f` |
| Views.PieProject | src/App.jsx:91-94 | one slice per kept record |
| Views.PieProjectAt | src/App.jsx:91-94 | slice `i` is the name and chosen-field count of kept record `i` |
| Views.PieAgreesWithBars | src/App.jsx:72-94 | each pie slice's value equals the bar of the same name in the row of the chosen field |
| Ordering.Flip | src/App.jsx:63 | the other direction |
| Ordering.ClickHeader | src/App.jsx:61-68 | the clicked key becomes active; the direction flips when it was already active, else it resets to descending |
| Ordering.ClickActiveTwice | src/App.jsx:61-68 | two clicks on the active column restore the sort state |
| Ordering.HeaderClickScenario | src/App.jsx:52-53 | from the default: name click gives descending by name, a second click gives ascending, a click on another column gives descending there |
| Ordering.Lookup | src/App.jsx:112-113 | `u[key]` is the name for "name" and the matching count for the four count keys; every other key finds nothing (see "Left out" for inherited property names) |
| Ordering.LowerChar | src/App.jsx:116-117 | an ASCII capital maps to the small letter at the same alphabet position; every other character is kept; no capital is left |
| Ordering.Lower | src/App.jsx:116-117 | lowercasing keeps the length |
| Ordering.StrLess | src/App.jsx:119-120 | JavaScript's `<` on strings; a string is never less than an equal one, so in particular not less than itself |
| Ordering.StrLessProperPrefix | src/App.jsx:119-120 | a proper prefix comes first |
| Ordering.LowerAt | src/App.jsx:116-117 | lowercasing works character by character |
| Ordering.StrLessAsymmetric | src/App.jsx:119-120 | string `<` is asymmetric |
| Ordering.StrLessTransitive | src/App.jsx:119-120 | string `<` is transitive |
| Ordering.StrLessTotal | src/App.jsx:119-120 | of two different strings one is less than the other |
| Ordering.StrLessAtFirstDifference | src/App.jsx:119-120 | strings are ordered by their first differing character |
| Ordering.Folded | src/App.jsx:115-118 | a string becomes its `Lower` form, of the same length; numbers pass unchanged; the kind of value is kept |
| Ordering.Less | src/App.jsx:119-120 | `<` holds only between values of the same kind and never between equal values |
| Ordering.Compare | src/App.jsx:111-122 | the comparator returns -1, 0 or 1; what it compares is stated by `CompareCount`, `CompareName` and `CompareMissingKey` |
| Ordering.CompareCount | src/App.jsx:112-121 | on a count column: equal counts tie; otherwise ascending puts the smaller count first and descending the larger |
| Ordering.CompareName | src/App.jsx:112-121 | on the name column: a tie exactly when the lowercased names are equal; `a` first exactly when its lowercased name is smaller (ascending) or larger (descending) under string `<` |
| Ordering.CompareMissingKey | src/App.jsx:112-114 | a key that is none of the five properties makes every pair compare equal |
| Ordering.CompareAntisymmetric | src/App.jsx:111-122 | swapping the arguments negates the comparator |
| Ordering.CompareDescIsReversedAsc | src/App.jsx:119-120 | descending is ascending with the sign swapped |
| Ordering.CompareRespectsTies | src/App.jsx:111-122 | tied elements compare alike with every third element |
| Ordering.CompareTransitive | src/App.jsx:111-122 | "comes no later than" is transitive, so the comparator is consistent |
| Sorting.Insert | src/App.jsx:111 | inserting adds one element, and the last element is the inserted one or the old last |
| Sorting.Sorted | src/App.jsx:111 | the sort keeps the length |
| Sorting.Tied | src/App.jsx:111 | there are no more rows tied with a pivot than rows |
| Sorting.OrderedSnoc | src/App.jsx:111 | appending an element that may follow the last keeps a sequence ordered |
| Sorting.OrderedInit | src/App.jsx:111 | the prefix of an ordered sequence is ordered |
| Sorting.InsertOrdered | src/App.jsx:111 | inserting into an ordered sequence keeps it ordered |
| Sorting.InsertPastLastOrdered | src/App.jsx:111 | moving the last element behind an ordered insertion keeps the result ordered |
| Sorting.SortedIsOrdered | src/App.jsx:111-122 | the sorted rows are ordered under the comparator |
| Sorting.InsertPermutes | src/App.jsx:111 | inserting adds exactly the inserted element |
| Sorting.SortedIsPermutation | src/App.jsx:111 | the sorted rows are a permutation of the data |
| Sorting.TiedSnoc | src/App.jsx:111 | the rows tied with a pivot grow by the appended row exactly when it ties |
| Sorting.NotBothTied | src/App.jsx:111-122 | two elements in strict order cannot both tie with the same pivot |
| Sorting.InsertTied | src/App.jsx:111 | inserting adds the inserted element at the end of the rows tied with any pivot |
| Sorting.SortedIsStable | src/App.jsx:111-122 | stability: for every pivot, the rows tied with it keep their dataset order |
| Sorting.SortedOfOrdered | src/App.jsx:111 | sorting an ordered sequence changes nothing |
| Sorting.SortedIdempotent | src/App.jsx:111 | sorting twice is sorting once |
| Sorting.SortedByMissingKey | src/App.jsx:114 | a key no record has leaves the rows in dataset order |
| Sorting.OrderedAllPairs | src/App.jsx:111-122 | in an ordered sequence every earlier row comes no later than every later row |
| Sorting.OrderedByCount | src/App.jsx:111-122 | rows ordered by a count column have non-decreasing counts ascending and non-increasing counts descending |
| Sorting.OrderedByName | src/App.jsx:111-122 | rows ordered by name: ascending, no lowercased name is smaller than the one before it; descending, none is larger |
| Sorting.SortedFollowsColumn | src/App.jsx:111-122 | the sorted table's counts, or lowercased names, run in the direction of the active column |
| Sorting.LeastComesFirst | src/App.jsx:111-122 | a row that the comparator puts strictly before every other row is sorted first |
| Sorting.ChainUnique | src/App.jsx:111 | two chains with the same elements, under a relation whose ties are equal elements, are identical |
| Sorting.OrderedUnique | src/App.jsx:111-122 | with no ties between different rows, there is only one ordered arrangement |
| Sorting.CompareReflexive | src/App.jsx:111-122 | every record compares equal to itself |
| Sorting.TiedLast | src/App.jsx:111 | the last row, when tied with a pivot, is the last of the rows tied with it |
| Sorting.LastIsGreatest | src/App.jsx:111-122 | in an ordered sequence no row has to follow the last one |
| Sorting.TiedInit | src/App.jsx:111 | sequences with the same last row and the same tied rows have the same tied rows before it |
| Sorting.StableOrderedUnique | src/App.jsx:111-122 | two ordered permutations of each other that agree on the order of every group of tied rows are equal |
| Sorting.StableSortIsSorted | src/App.jsx:111-122 | any ordered, stable permutation of the rows, as any stable sort returns, is the reference sort |
| Sorting.Reversed | src/App.jsx:111 | reversal keeps length and elements |
| Sorting.ReversedAt | src/App.jsx:111 | position `i` of the reversal is position `n-1-i` of the original |
| Sorting.ReversedAscIsDesc | src/App.jsx:119-120 | reversing an ascending order gives a descending order |
| Sorting.DescTiesAreEqual | src/App.jsx:119-121 | no ties between different rows ascending means none descending |
| Sorting.SortedDescIsReversedAsc | src/App.jsx:119-121 | with no ties between different rows, descending order is ascending order reversed |
| Sorting.InsertAfterPrefix | src/App.jsx:111 | insertion puts the element right after the last row it may follow |
| Sorting.ShiftStep | src/App.jsx:111 | shifting a row that must follow the inserted element moves the gap one place left |
| Sorting.FillGap | src/App.jsx:111 | dropping the element into the gap completes the insertion |
| Sorting.InsertAt | src/App.jsx:111 | in place: the array becomes the insertion of `a[i]` into `a[..i]`, and the rest is unchanged |
| Sorting.SortStep | src/App.jsx:111 | one outer step extends the sorted prefix by one row |
| Sorting.SortInPlace | src/App.jsx:111-122 | in place: the array becomes the reference sort of its old contents |
| Palette.ColorIndex | src/App.jsx:177 | `idx % colors.length` is a palette index congruent to `idx`, and it is `idx` itself below nine |
| Palette.ColorFor | src/App.jsx:96-106 | every position gets a palette colour |
| Palette.ColorsCycle | src/App.jsx:204 | positions nine apart share a colour |
| Palette.PaletteDistinct | src/App.jsx:96-106 | the nine colours are distinct |
| Palette.ColorsDistinctWithinCycle | src/App.jsx:278 | positions less than nine apart get different colours |
| App.Dashboard.constructor | src/App.jsx:50-53 | the defaults: every name ticked, pie on full-time undergraduates, table by that column descending |
| App.Dashboard.HandleChange | src/App.jsx:55-59 | the selection becomes the toggle of the clicked name; a valid selection stays valid when the clicked name is a dataset name, as every table checkbox's is (`src/App.jsx:272`) |
| App.Dashboard.HandleSort | src/App.jsx:61-68 | the sort state becomes the header-click transition of the old one |
| App.Dashboard.SetPieGroup | src/App.jsx:219 | the pie shows the chosen field |
| App.Dashboard.FilteredData | src/App.jsx:70 | the selected records, in dataset order, with distinct names, as many as the selected dataset names |
| App.Dashboard.BarData | src/App.jsx:72-89 | four labelled rows, each keyed by the names of the selected records |
| App.Dashboard.PieData | src/App.jsx:91-94 | one slice per selected record, valued in the current pie field |
| App.Dashboard.SortedData | src/App.jsx:111-122 | the table rows: the reference sort of the dataset, a permutation of it, ordered, and stable; it sorts a fresh copy and changes no state |
| App.Dashboard.ArrowFor | src/App.jsx:125-138 | a filled arrow exactly on the active column, pointing up exactly when the order is ascending |
| App.BarDataIsTranspose | src/App.jsx:72-89 | in the row of field `f`, the bar of a selected record holds that record's count of `f` |
| Scenarios.AllTickedViewIsDataset | src/App.jsx:70 | with every name ticked, the filtered view is the dataset |
| Scenarios.AllTickedPie | src/App.jsx:91-94 | with every name ticked, the pie has one slice per institution, in dataset order |
| Scenarios.InitialPieLargestSliceIsDalhousie | src/App.jsx:21 | at start Dalhousie's slice, 14588, is the largest |
| Scenarios.DalhousieLargestFtu | src/App.jsx:18-40 | Dalhousie has the most full-time undergraduates |
| Scenarios.AcadiaAndNscadNames | src/App.jsx:19-29 | Acadia and NSCAD are two distinct dataset names |
| Scenarios.TwoSelectedNames | src/App.jsx:70 | with only Acadia and NSCAD ticked, the filtered view holds exactly those two |
| Scenarios.TwoSelectedGiveTwoBarsAndTwoSlices | src/App.jsx:72-94 | with only Acadia and NSCAD ticked, each of the four bar clusters has their two bars and the pie two slices |
| Scenarios.EmptySelectionLeavesOnlyLabels | src/App.jsx:72-94 | with nothing ticked, every bar row holds only its label and the pie is empty |
| Scenarios.LowerLessAt | src/App.jsx:116-120 | lowercased names are ordered at their first lowercased difference |
| Scenarios.SainteAnneLastByName | src/App.jsx:38-39 | by lowercased name, "Université Sainte-Anne" comes after every other institution |
| Scenarios.SainteAnneFirstDescending | src/App.jsx:119-120 | descending by name, the comparator puts Sainte-Anne before every other institution |
| Scenarios.NameClickPutsSainteAnneFirst | src/App.jsx:61-68 | one click on the name header sorts by name descending, with "Université Sainte-Anne" first |

## Left out

- Rendering (JSX, layout, CSS, recharts components, tooltips and legends, `src/App.jsx:146-293`): presentation only. The views are modelled as the data handed to the charts and table.
- Pie percentage label (`renderPieLabel`, `src/App.jsx:108-109`): floating-point formatting, not modelled.
- Internationalisation and the language toggle (`src/App.jsx:14-16, 140-144`): it changes only displayed strings. `src/i18n.js` is not part of this model.
- React `useState` mechanics (asynchronous batching, functional updaters, re-rendering) are not modelled. Each handler is an atomic update of the `Dashboard` fields.
- Ordering.Lower: `toLowerCase` is modelled for ASCII letters only. Full Unicode case mapping is not. No dataset name has a non-ASCII capital, so the dataset's order is unaffected.
- Ordering.Lookup: JavaScript's `u[key]` also finds inherited properties such as "constructor" or "toString", which the model treats as missing. Both records then yield the same inherited value, neither `<` nor `>` holds, and the comparator returns 0, as the model does. The headers only ever pass the five column keys (`src/App.jsx:235-259`).
- Ordering.StrLess: orders by Dafny `char`, which matches JavaScript's UTF-16 code-unit order only for characters in the Basic Multilingual Plane. Locale collation (`localeCompare`) is not used by the source and is not modelled.
- The JavaScript engine's sort algorithm: the language fixes only that `sort` is stable. The model uses a stable insertion sort. `StableSortIsSorted` shows that any stable sort by the same comparator returns the same table, so no behaviour depends on this choice.
- App.Dashboard.BarData: each bar row is a label plus a name-to-count map. The source spreads names into the same object as its `group` key, so a university named "group" would overwrite the label. No dataset name is "group", so the collision cannot arise with the fixed data and is not modelled.
- App.Dashboard.SetPieGroup: the pie field is one of the four count fields, because the radio buttons (`src/App.jsx:212-219`) offer only those. The `sortKey`, by contrast, stays a string, so the comparator's missing-value branch stays reachable.
- The pie chart's value `u[pieGroup]` for an arbitrary key is not modelled beyond the four fields, for the same reason.
