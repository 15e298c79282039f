/** The plain-DOM view (`script.js`): the same widget written against two
    global variables that its event handlers update in place. The globals
    become the fields of `ComparisonState`; the handlers and render
    functions become its methods and functions. */
module DomScript {
  import opened Seqs
  import opened Text
  import opened Grades
  import SteelGradeComparison

  // ---------------------------------------------------------------------
  // Search filter over a term that is stored lower-cased
  // ---------------------------------------------------------------------

  /** `renderGradesList`'s test: only the grade's fields are lower-cased here, because the
      input handler stores the search term lower-cased already. */
  function ListMatches(g: SteelGrade, searchTerm: string): (r: bool)
    ensures r <==> IsSubstring(searchTerm, Lower(g.grade)) || IsSubstring(searchTerm, Lower(g.steelType))
  {
    Includes(Lower(g.grade), searchTerm) || Includes(Lower(g.steelType), searchTerm)
  }

  /** The grades `renderGradesList` shows: those that match, in catalog order. */
  function FilterGrades(catalog: seq<SteelGrade>, searchTerm: string): (r: seq<SteelGrade>)
    ensures forall k :: 0 <= k < |r| ==> r[k] in catalog && ListMatches(r[k], searchTerm)
    ensures forall k :: 0 <= k < |catalog| && ListMatches(catalog[k], searchTerm) ==> catalog[k] in r
    ensures IsSubsequence(r, catalog)
    ensures forall k :: 0 <= k < |r| ==> r[k].grade in Ids(catalog)
    ensures forall g :: g in catalog ==>
      multiset(r)[g] == if ListMatches(g, searchTerm) then multiset(catalog)[g] else 0
  {
    var r := Filter(catalog, (g: SteelGrade) => ListMatches(g, searchTerm));
    assert forall k :: 0 <= k < |r| ==> r[k].grade in Ids(catalog) by {
      forall k | 0 <= k < |r| ensures r[k].grade in Ids(catalog) {
        var j :| 0 <= j < |catalog| && catalog[j] == r[k];
        assert Ids(catalog)[j] == r[k].grade;
      }
    }
    r
  }

  /** Lower-casing at input and filtering on lower-cased fields shows exactly the grades the
      component view shows for the raw input. */
  lemma FilterAgreesWithComponent(catalog: seq<SteelGrade>, value: string)
    ensures FilterGrades(catalog, Lower(value)) == SteelGradeComparison.FilteredGrades(catalog, value)
  {
    LowerIdempotent(value);
    FilterCongruent(catalog,
      (g: SteelGrade) => ListMatches(g, Lower(value)),
      (g: SteelGrade) => SteelGradeComparison.Matches(g, value));
  }

  // ---------------------------------------------------------------------
  // Toggle in place: indexOf, then push or splice
  // ---------------------------------------------------------------------

  /** The selection after `toggleGrade`: absent ids are pushed, a present id loses the one
      occurrence at its first index and nothing else moves. */
  function Toggled(selected: seq<string>, id: string): (r: seq<string>)
    ensures id !in selected ==> r == selected + [id]
    ensures id in selected ==> multiset(r) == multiset(selected) - multiset{id}
    ensures id in selected ==> IsSubsequence(r, selected)
    ensures id in selected ==> var i := IndexOf(selected, id); 0 <= i && r == RemoveAt(selected, i)
  {
    var index := IndexOf(selected, id);
    if index == -1 then selected + [id]
    else
      RemoveAtIsSubsequence(selected, index);
      RemoveAt(selected, index)
  }

  /** `splice` at the first index and the component's `filter` agree on a duplicate-free selection. */
  lemma ToggledAgreesWithComponent(selected: seq<string>, id: string)
    requires NoDup(selected)
    ensures Toggled(selected, id) == SteelGradeComparison.ToggleGrade(selected, id)
  {
    if id in selected {
      var i := IndexOf(selected, id);
      WithoutUniqueIsRemoveAt(selected, i);
    }
  }

  lemma ToggledKeepsNoDup(selected: seq<string>, id: string)
    requires NoDup(selected)
    ensures NoDup(Toggled(selected, id))
  {
    ToggledAgreesWithComponent(selected, id);
    SteelGradeComparison.ToggleKeepsNoDup(selected, id);
  }

  /** A double toggle of an unselected id pushes it and splices it back out. */
  lemma ToggledTwiceUnselected(selected: seq<string>, id: string)
    requires id !in selected
    ensures Toggled(Toggled(selected, id), id) == selected
  {
    assert IndexOf(selected + [id], id) == |selected|;
  }

  /** As in the component view, a double toggle restores a duplicate-free array exactly when the
      id was absent or sat at the end; otherwise it moves the id to the end. */
  lemma ToggledTwiceRestoresIff(selected: seq<string>, id: string)
    requires NoDup(selected)
    ensures Toggled(Toggled(selected, id), id) == selected <==>
      id !in selected || selected[|selected| - 1] == id
  {
    ToggledAgreesWithComponent(selected, id);
    ToggledKeepsNoDup(selected, id);
    ToggledAgreesWithComponent(Toggled(selected, id), id);
    SteelGradeComparison.ToggleTwiceRestoresIff(selected, id);
  }

  /** The selection after a run of clicks, starting from the initial empty array. Whatever the
      clicks, it is duplicate-free and holds only clicked ids. */
  function Replay(clicks: seq<string>): (r: seq<string>)
    ensures NoDup(r)
    ensures forall id :: id in r ==> id in clicks
    decreases |clicks|
  {
    if clicks == [] then []
    else
      var before, id := Replay(clicks[..|clicks| - 1]), clicks[|clicks| - 1];
      ToggledKeepsNoDup(before, id);
      assert forall x :: x in clicks[..|clicks| - 1] ==> x in clicks;
      if id in before then
        SubsequenceMembers(Toggled(before, id), before);
        Toggled(before, id)
      else
        Toggled(before, id)
  }

  // ---------------------------------------------------------------------
  // The chart pivot
  // ---------------------------------------------------------------------

  /** One element of `chartData`: `{ temp, [gradeId]: strength, ... }`. */
  datatype ChartRow = ChartRow(temp: int, strengths: map<string, int>)

  /** What `renderChart` hands on: the empty-state message, or the rows and one line per id. */
  datatype ChartView = EmptyState | LineChart(data: seq<ChartRow>, dataKeys: seq<string>)

  /** A row for `temp` holds exactly the selected ids, each mapped to the strength found by
      looking the grade up and then its sample at `temp`. */
  ghost predicate IsPivotRow(row: ChartRow, catalog: seq<SteelGrade>, selected: seq<string>, temp: int) {
    row.temp == temp &&
    (forall id :: id in row.strengths <==> id in selected) &&
    (forall id :: id in row.strengths ==> StrengthOf(catalog, id, temp) == Some(row.strengths[id]))
  }

  /** The row shows, for each selected id, the strength of its grade's `k`-th sample. */
  ghost predicate ShowsSamples(row: ChartRow, catalog: seq<SteelGrade>, selected: seq<string>, k: nat) {
    forall id :: id in selected ==>
      Find(catalog, id).Some? && id in row.strengths &&
      k < |Find(catalog, id).value.temperatureData| &&
      row.strengths[id] == Find(catalog, id).value.temperatureData[k].strength
  }

  /** The pivot and the component's chart agree: the strength the nested lookup finds for the
      `j`-th selected id at the `k`-th chart temperature, which a pivot row stores under that id,
      is the `k`-th point of the `j`-th line of `Series`. */
  lemma PivotAgreesWithSeries(selected: seq<string>, k: nat, j: nat)
    requires AllListed(SteelGrades, selected) && k < |Temperatures| && j < |selected|
    ensures k < |SteelGradeComparison.Series(SteelGrades, selected)[j].data|
    ensures StrengthOf(SteelGrades, selected[j], Temperatures[k]) ==
      Some(SteelGradeComparison.Series(SteelGrades, selected)[j].data[k].strength)
  {
    CatalogStrengthDefined(selected[j], k);
  }

  /** One step of the inner `forEach`: a partial row for the first `j` ids, extended with the
      `j`-th id's strength, is a partial row for the first `j + 1` ids. */
  lemma PivotRowExtended(before: map<string, int>, after: map<string, int>, catalog: seq<SteelGrade>,
                         selected: seq<string>, j: nat, temp: int, strength: int)
    requires j < |selected| && after == before[selected[j] := strength]
    requires forall id :: id in before <==> id in selected[..j]
    requires forall id :: id in before ==> StrengthOf(catalog, id, temp) == Some(before[id])
    requires StrengthOf(catalog, selected[j], temp) == Some(strength)
    ensures forall id :: id in after <==> id in selected[..j + 1]
    ensures forall id :: id in after ==> StrengthOf(catalog, id, temp) == Some(after[id])
  {
    assert selected[..j + 1] == selected[..j] + [selected[j]];
  }

  // ---------------------------------------------------------------------
  // The global state and its handlers
  // ---------------------------------------------------------------------

  class ComparisonState {
    var selectedGrades: seq<string>
    var searchTerm: string

    /** The selection is duplicate-free and drawn from the catalog; the term is stored lower-cased. */
    ghost predicate Valid()
      reads this
    {
      NoDup(selectedGrades) && AllListed(SteelGrades, selectedGrades) && IsLowerCase(searchTerm)
    }

    /** `let selectedGrades = []; let searchTerm = '';` */
    constructor ()
      ensures Valid()
      ensures selectedGrades == [] && searchTerm == ""
    {
      selectedGrades := [];
      searchTerm := "";
    }

    /** The search input's handler stores the lower-cased value; the list it re-renders then
        shows what the component view shows for the raw value. */
    method OnSearchInput(value: string)
      requires Valid()
      modifies this
      ensures Valid()
      ensures searchTerm == Lower(value) && selectedGrades == old(selectedGrades)
      ensures FilterGrades(SteelGrades, searchTerm) == SteelGradeComparison.FilteredGrades(SteelGrades, value)
    {
      LowerIsLowerCase(value);
      FilterAgreesWithComponent(SteelGrades, value);
      searchTerm := Lower(value);
    }

    /** `renderGradesList`: the matching grades, each marked selected or not. */
    function RenderGradesList(): (rows: seq<ListItem>)
      reads this
      ensures |rows| == |FilterGrades(SteelGrades, searchTerm)|
      ensures forall k :: 0 <= k < |rows| ==>
        rows[k].grade == FilterGrades(SteelGrades, searchTerm)[k].grade &&
        rows[k].steelType == FilterGrades(SteelGrades, searchTerm)[k].steelType
      ensures forall k :: 0 <= k < |rows| ==>
        rows[k].grade in Ids(SteelGrades) && (rows[k].selected <==> rows[k].grade in selectedGrades)
    {
      ListItems(FilterGrades(SteelGrades, searchTerm), selectedGrades)
    }

    /** `toggleGrade`: `indexOf`, then `push` when absent or `splice(index, 1)` when present. */
    method ToggleGrade(grade: string)
      requires Valid() && grade in Ids(SteelGrades)
      modifies this
      ensures Valid()
      ensures selectedGrades == Toggled(old(selectedGrades), grade) && searchTerm == old(searchTerm)
    {
      ToggledKeepsNoDup(selectedGrades, grade);
      var index := IndexOf(selectedGrades, grade);
      if index == -1 {
        selectedGrades := selectedGrades + [grade];
      } else {
        selectedGrades := RemoveAt(selectedGrades, index);
      }
    }

    /** `renderChart`: the empty state when nothing is selected; otherwise one row per chart
        temperature, in order, built by the outer `forEach`, and one line per selected id. */
    method RenderChart() returns (view: ChartView)
      requires Valid()
      ensures view.EmptyState? <==> selectedGrades == []
      ensures view.LineChart? ==> view.dataKeys == selectedGrades && |view.data| == |Temperatures|
      ensures view.LineChart? ==> forall k :: 0 <= k < |view.data| ==>
        IsPivotRow(view.data[k], SteelGrades, selectedGrades, Temperatures[k])
    {
      if |selectedGrades| == 0 {
        return EmptyState;
      }
      var chartData: seq<ChartRow> := [];
      var temperatures := Temperatures;
      var t := 0;
      while t < |temperatures|
        invariant 0 <= t <= |temperatures|
        invariant |chartData| == t
        invariant forall k :: 0 <= k < t ==> IsPivotRow(chartData[k], SteelGrades, selectedGrades, Temperatures[k])
      {
        var row := DataPoint(t);
        chartData := chartData + [row];
        t := t + 1;
      }
      view := LineChart(chartData, selectedGrades);
    }

    /** The inner `forEach` of `renderChart` for the `t`-th chart temperature: `{ temp }`, then
        each selected id mapped to its grade's strength at that temperature. */
    method DataPoint(t: nat) returns (row: ChartRow)
      requires Valid() && t < |Temperatures|
      ensures IsPivotRow(row, SteelGrades, selectedGrades, Temperatures[t])
      ensures ShowsSamples(row, SteelGrades, selectedGrades, t)
    {
      var temp := Temperatures[t];
      var dataPoint: map<string, int> := map[];
      var j := 0;
      while j < |selectedGrades|
        invariant 0 <= j <= |selectedGrades|
        invariant forall id :: id in dataPoint <==> id in selectedGrades[..j]
        invariant forall id :: id in dataPoint ==> StrengthOf(SteelGrades, id, temp) == Some(dataPoint[id])
      {
        var gradeId := selectedGrades[j];
        CatalogStrengthDefined(gradeId, t);
        var grade := Find(SteelGrades, gradeId).value;
        var strengthData := SampleAt(grade.temperatureData, temp);
        var before := dataPoint;
        dataPoint := dataPoint[gradeId := strengthData.value.strength];
        PivotRowExtended(before, dataPoint, SteelGrades, selectedGrades, j, temp, strengthData.value.strength);
        j := j + 1;
      }
      assert selectedGrades[..j] == selectedGrades;
      row := ChartRow(temp, dataPoint);
      forall id | id in selectedGrades
        ensures Find(SteelGrades, id).Some? && id in row.strengths
        ensures t < |Find(SteelGrades, id).value.temperatureData|
        ensures row.strengths[id] == Find(SteelGrades, id).value.temperatureData[t].strength
      {
        CatalogStrengthDefined(id, t);
      }
    }

    /** `renderPropertiesDetails`: one card per selected id, in selection order. */
    function RenderPropertiesDetails(): (cards: seq<DetailCard>)
      reads this
      requires Valid()
      ensures cards == Details(SteelGrades, selectedGrades)
      ensures |cards| == |selectedGrades|
      ensures forall k :: 0 <= k < |cards| ==>
        cards[k].grade == selectedGrades[k] &&
        Find(SteelGrades, selectedGrades[k]).Some? &&
        cards[k].applications == Join(Find(SteelGrades, selectedGrades[k]).value.applications, ", ")
    {
      Details(SteelGrades, selectedGrades)
    }
  }
}
