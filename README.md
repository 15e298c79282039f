# Steel grade comparison: a verified model of the widget's logic

The widget lists a fixed catalog of three structural steel grades (A36, A572-50, A992). A search box filters the list by id or type. Clicking a grade toggles it in a selection. For the selected grades the widget draws one strength-versus-temperature line each and shows one properties card each. The repository holds the widget twice:

- `app.js`: a React component whose state setters receive freshly computed values;
- `script.js`: plain DOM code that keeps the selection and the search term in two globals and updates them in place.

This project models the logic both files share, with the rendering stripped away.

- `seqs.dfy` (module `Seqs`): the JavaScript array operations the widget uses. These are `filter`, the index search inside `find`, `indexOf` and `splice(i, 1)`. The module also defines what they keep: no duplicates, and subsequence order.
- `text.dfy` (module `Text`): `toLowerCase` on ASCII, `includes` (related to a reference substring definition), and `join`.
- `grades.dfy` (module `Grades`): the catalog record and literal (identical in both files), and lookup by id. It also holds the catalog invariants (unique ids; every grade sampled, in ascending order, at exactly the five chart temperatures), the list rows and the detail cards.
- `component.dfy` (module `SteelGradeComparison`), `app.js` in pure form:
  - the filtered list;
  - the toggle, which builds a new list;
  - the chart lines;
  - the properties panel and its empty-selection placeholder.
- `dom_script.dfy` (module `DomScript`), `script.js` in imperative form: class `ComparisonState` holds the two globals as fields.
  - The input handler and `toggleGrade` are methods that update them.
  - `renderChart` is a method with the nested loops of the pivot.
  - The list and the cards are functions that read the state.
  - Lemmas tie each of these to the component view: the search handler and the list filter show the same grades, the toggle gives the same selection on a duplicate-free array, the chart rows hold the points of the component's lines, and the cards are the shared `Details`.
- `scenarios.dfy` (module `SteelGradeScenarios`): the searches "high" and "a9" worked on the shipped catalog.

Toggling twice. Toggling an id twice restores the selection only when the id was not selected or was the last one selected. Otherwise the first toggle removes the id and the second appends it at the end, so the id moves:

- `ToggleTwiceRestoresIff` and `ToggledTwiceRestoresIff` state the exact condition, in both directions;
- `ToggleTwiceReorders` shows `["A36", "A992"]` becoming `["A992", "A36"]`.

Neither file shows a grade's type on its card, and neither does the model.

The two toggles differ as well:

- `app.js` removes a selected id with `filter`, which drops every occurrence;
- `script.js` uses `splice` at the first index, which drops one occurrence.

`ToggledAgreesWithComponent` proves they agree on every duplicate-free selection. Every reachable selection is duplicate-free: `Replay` for any run of clicks, and the class invariant `Valid`.

## Model

| member | source | states |
|---|---|---|
| Seqs.Filter | app.js:71-74 | `Array.prototype.filter`: every kept element is from the input and satisfies the predicate, every input element satisfying it is kept, and the result is a subsequence of the input (order kept); each kept element occurs as often as in the input, each rejected one not at all |
| Seqs.Without | app.js:78 | `filter(g => g !== grade)`: the id no longer occurs, nothing new appears, every other element is kept, each as often as before (multiset with the id's count set to zero), in the original order (subsequence) |
| Seqs.FirstIndex | app.js:152 | the index search inside `find`: -1 exactly when no element satisfies the predicate, otherwise the first index that does |
| Seqs.IndexOf | script.js:180 | `indexOf`: between -1 and the last index; -1 exactly when the id is absent, otherwise the index of its first occurrence |
| Seqs.RemoveAt | script.js:184 | `splice(index, 1)`: one shorter, elements before the index unchanged, elements after it shifted down by one |
| Seqs.RemoveAtIsSubsequence | script.js:184 | splicing keeps the remaining elements in order and removes exactly one occurrence of the spliced element (multiset difference) |
| Seqs.FilterRejectingOne | app.js:78 | filtering with a predicate that rejects exactly one position equals splicing that position out |
| Seqs.WithoutUniqueIsRemoveAt | app.js:78 | on a duplicate-free list, filtering out an element equals splicing out its index |
| Seqs.WithoutAppended | app.js:76-82 | filtering out an id just appended to a list without it gives the list back |
| Seqs.SubsequenceNoDup | app.js:71-74 | a subsequence of a duplicate-free list is duplicate-free |
| Seqs.SubsequenceMultiset | app.js:71-74 | a subsequence holds no element more often than its source |
| Text.Lower | script.js:68 | ASCII `toLowerCase`: same length, no capital left, each capital moved up by 32 and every other character unchanged |
| Text.LowerChar | script.js:68 | ASCII `toLowerCase` on one character: capitals move up by 32, everything else is unchanged |
| Text.LowerIsLowerCase | script.js:68 | a lower-cased string holds no capital letter |
| Text.LowerFixesLowerCase | script.js:68 | lower-casing leaves a string unchanged exactly when it has no capital letter |
| Text.LowerIdempotent | script.js:68 | lower-casing twice is lower-casing once |
| Text.Includes | app.js:72-73 | `includes` holds exactly when the term occurs in the string at some index (reference substring definition), both directions |
| Text.SubstringOfTail | app.js:72-73 | when the string does not start with the term, the term occurs in it exactly when it occurs in its tail, and never in the empty string |
| Text.IncludesEmpty | app.js:71-74 | every string includes the empty string |
| Text.MissingCharExcludes | app.js:72-73 | a term containing a character the string lacks is not included |
| Text.LowerLacks | app.js:72-73 | a character absent from a string in both cases is absent from its lower-cased form |
| Text.Join | app.js:182 | `join`: no parts give the empty string, one part gives that part, and every part occurs in the joined text |
| Text.JoinedPartsOccur | app.js:182 | prefixing a joined text with a part and the separator keeps every part a substring and adds the new one |
| Text.JoinSnoc | app.js:182 | `join` builds left to right: appending a part appends the separator and the part |
| Grades.Ids | app.js:20-69 | the catalog's ids, one per grade, in catalog order |
| Grades.Temps | script.js:11-17 | a grade's sample temperatures, one per sample, in order |
| Grades.Find | app.js:152 | `find(g => g.grade === id)`: none exactly when no grade has that id, otherwise a catalog grade with that id |
| Grades.SampleAt | script.js:110 | `temperatureData.find(t => t.temp === temp)`: none exactly when no sample is at that temperature, otherwise a sample at it |
| Grades.StrengthOf | script.js:109-111 | the nested lookup: none for an unknown id; some exactly when the id is found and its grade has a sample at the temperature; the value is that sample's strength |
| Grades.CatalogWellFormed | script.js:2-51 | the shipped catalog has unique ids, and every grade is sampled at exactly 0, 200, 400, 600, 800 degrees in strictly ascending order |
| Grades.CatalogIdsUnique | app.js:20-69 | the ids A36, A572-50, A992 are distinct |
| Grades.CatalogSampled | script.js:11-49 | each grade's sample temperatures are exactly the chart temperatures |
| Grades.ChartTemperaturesAscending | script.js:104 | samples taken at the chart temperatures are strictly ascending by temperature |
| Grades.FindUnique | script.js:153 | with unique ids, `find` by a grade's id returns that very grade |
| Grades.StrengthDefined | script.js:109-111 | on a well-formed catalog the nested lookup of a listed id at the k-th chart temperature succeeds and yields the grade's k-th sample, and its strength |
| Grades.CatalogStrengthDefined | script.js:106-112 | the same for the shipped catalog, so the pivot's lookups never fail |
| Grades.ListItems | app.js:105-121 | one list row per shown grade, in order, with its id and type, marked selected exactly when its id is in the selection |
| Grades.Details | app.js:169-186 | one card per selected id, in selection order, each with the fields of the grade found by that id and its applications joined by ", " |
| SteelGradeComparison.Matches | app.js:71-74 | a grade matches exactly when the lower-cased term is a substring of its lower-cased id or of its lower-cased type |
| SteelGradeComparison.FilteredGrades | app.js:71-74 | every shown grade is in the catalog and matches, every matching catalog grade is shown, the list is a subsequence of the catalog, and each matching grade occurs as often as in the catalog, each other one not at all |
| SteelGradeComparison.FilteredGradesEmpty | app.js:71-74 | the empty term shows the whole catalog unchanged |
| SteelGradeComparison.FilteredGradesNoDuplicates | app.js:71-74 | filtering never repeats a grade and keeps a duplicate-free catalog duplicate-free |
| SteelGradeComparison.ToggleGrade | app.js:76-82 | a selected id is removed with every other id kept in order and as often as before; an unselected id is appended at the end |
| SteelGradeComparison.ToggleKeepsNoDup | app.js:76-82 | toggling keeps the selection duplicate-free |
| SteelGradeComparison.ToggleOffRemovesOne | app.js:77-78 | on a duplicate-free selection, toggling a selected id removes exactly its position |
| SteelGradeComparison.ToggleTwiceUnselected | app.js:79-80 | toggling an unselected id twice restores the selection exactly |
| SteelGradeComparison.ToggleTwiceSelected | app.js:76-82 | toggling a selected id twice moves it to the end |
| SteelGradeComparison.MovedToEnd | app.js:76-82 | splicing out a position of a duplicate-free list and appending its element gives the list back exactly when it was the last position |
| SteelGradeComparison.ToggleTwiceRestoresIff | app.js:76-82 | a double toggle restores a duplicate-free selection if and only if the id was unselected or last |
| SteelGradeComparison.ToggleTwiceReorders | app.js:76-82 | A36 toggled twice in `["A36", "A992"]` gives `["A992", "A36"]` |
| SteelGradeComparison.Series | app.js:151-164 | one line per selected id, in selection order, named by the id, whose data is exactly the temperature data of the grade with that id |
| SteelGradeComparison.SeriesUsesCatalogEntry | app.js:152-156 | on the shipped catalog a line's data is that of the one catalog entry carrying its id |
| SteelGradeComparison.PropertiesPanel | app.js:126-189 | the placeholder exactly when nothing is selected; otherwise the lines are exactly the chart series and the cards exactly the detail cards of the selection, as many of each as selected ids, named in selection order |
| SteelGradeComparison.SelectionScenario | app.js:76-82 | selecting A36, then A992, then A36 again leaves `["A992"]` |
| SteelGradeComparison.DetailsScenario | app.js:169-186 | with A36 selected the one card shows a yield strength of 36000 and "Construction, General Purpose" |
| SteelGradeComparison.A36Applications | app.js:182 | A36's applications join to "Construction, General Purpose" |
| SteelGradeScenarios.CatalogText | app.js:20-69 | the shipped catalog's ids and types, in order: A36 carbon steel, A572-50 high-strength low-alloy, A992 structural steel |
| SteelGradeScenarios.CatalogMatches | app.js:71-74 | "high" matches only A572-50 (through its type); "a9" matches only A992 |
| SteelGradeScenarios.OnlyMiddleShown | app.js:71-74 | on three grades, a term only the middle one matches shows that one alone |
| SteelGradeScenarios.OnlyLastShown | app.js:71-74 | on three grades, a term only the last one matches shows that one alone |
| SteelGradeScenarios.SearchHighScenario | app.js:71-74 | searching "high" shows exactly `[A572-50]` |
| SteelGradeScenarios.SearchA9Scenario | app.js:71-74 | searching "a9" shows exactly `[A992]` |
| DomScript.ListMatches | script.js:75-76 | a grade matches the stored term exactly when the term is a substring of its lower-cased id or of its lower-cased type |
| DomScript.FilterGrades | script.js:74-77 | every listed grade is in the catalog, carries a catalog id and matches the stored term, every matching grade is listed, in catalog order, each as often as in the catalog |
| DomScript.FilterAgreesWithComponent | script.js:67-77 | lower-casing at input and filtering on lower-cased fields lists exactly the grades the component view shows for the raw input |
| DomScript.Toggled | script.js:179-185 | an absent id is pushed at the end; a present id is spliced out at its first index (`indexOf`), so it loses exactly one occurrence and the rest stay in order |
| DomScript.ToggledAgreesWithComponent | script.js:179-185 | on a duplicate-free array, `splice` at the first index and the component's `filter` give the same selection |
| DomScript.ToggledKeepsNoDup | script.js:179-185 | toggling in place keeps the array duplicate-free |
| DomScript.ToggledTwiceUnselected | script.js:181-184 | pushing an absent id and splicing it back out restores the array |
| DomScript.ToggledTwiceRestoresIff | script.js:179-185 | a double toggle restores a duplicate-free array if and only if the id was absent or last |
| DomScript.Replay | script.js:179-185 | from the initial empty array, every run of clicks leaves the array duplicate-free and holding only clicked ids |
| DomScript.PivotAgreesWithSeries | script.js:106-112 | the strength the pivot's nested lookup finds for the j-th selected id at the k-th chart temperature is the k-th point of the j-th line of the component's `Series` (app.js:151-164) |
| DomScript.PivotRowExtended | script.js:108-111 | one step of the inner loop turns a row for the first j ids into a row for the first j + 1 ids |
| DomScript.ComparisonState.constructor | script.js:54-55 | the state starts with an empty selection and an empty search term |
| DomScript.ComparisonState.OnSearchInput | script.js:67-70 | the stored term is the lower-cased input, the selection is untouched, and the list then shows what the component view shows for the raw input |
| DomScript.ComparisonState.RenderGradesList | script.js:73-91 | one row per matching grade, the k-th row showing the id and type of the k-th matching grade, each a catalog id, marked selected exactly when its id is selected |
| DomScript.ComparisonState.ToggleGrade | script.js:179-185 | the array becomes the toggled selection, the term is untouched, and the state stays valid |
| DomScript.ComparisonState.RenderChart | script.js:93-114 | the empty state exactly when nothing is selected; otherwise exactly five rows in temperature order, each mapping every selected id (and no other key) to the strength its grade's lookup finds at the row's temperature, and one line per selected id |
| DomScript.ComparisonState.DataPoint | script.js:106-113 | the row for the t-th temperature maps exactly the selected ids to the strengths their lookups find there, and each of those is the grade's t-th sample strength (so no lookup fails) |
| DomScript.ComparisonState.RenderPropertiesDetails | script.js:151-177 | exactly the detail cards of the selection: one per selected id, in selection order, each with its grade's applications joined by ", " |

## Left out

- React and the DOM are left out: `useState`, JSX, Recharts components, `ReactDOM.render` and `innerHTML` templates are presentation through foreign libraries. The model keeps only the data they are handed: rows, lines, chart rows, cards and the placeholder.
- The stroke colours from `Math.random` are left out: they are nondeterministic and cosmetic.
- `toLocaleString` formatting and the text shown for `carbonContent` are left out: the formatting depends on the locale. `carbonContent` is carried as a `real` field and never rendered as text.
- DOM lookups, listener registration, the resize handler and `offsetWidth` are left out: they are I/O and layout.
- `toLowerCase` is modelled on ASCII letters only. Unicode case folding is not modelled; every catalog string is ASCII.
- Unknown ids are not validated by the source, whose `find(...)` would then yield `undefined` and throw. The model instead requires every selected id to be in the catalog. Click handlers only ever pass catalog ids.
- The re-rendering calls at the end of `toggleGrade` and of the input handler are not part of `DomScript.ComparisonState.ToggleGrade` or `DomScript.ComparisonState.OnSearchInput`. Those methods change state only; the renders are the separate members `RenderGradesList`, `RenderChart` and `RenderPropertiesDetails`, which read the new state.
- A chart row in `script.js` is one object holding the key `temp` and one key per id. The model keeps `temp` apart from the map of strengths, so a grade whose id was literally `temp` would collide in the source but not in the model. No catalog id is `temp`.
