/** The component view (`app.js`): everything it derives from its two pieces
    of state, the search term and the selected ids, as pure functions. The
    state setters receive the values computed here. */
module SteelGradeComparison {
  import opened Seqs
  import opened Text
  import opened Grades

  // ---------------------------------------------------------------------
  // Search filter
  // ---------------------------------------------------------------------

  /** `filteredGrades`'s test: the lower-cased id or the lower-cased type includes the
      lower-cased term, that is, has it as a substring. */
  function Matches(g: SteelGrade, searchTerm: string): (r: bool)
    ensures r <==>
      IsSubstring(Lower(searchTerm), Lower(g.grade)) || IsSubstring(Lower(searchTerm), Lower(g.steelType))
  {
    Includes(Lower(g.grade), Lower(searchTerm)) || Includes(Lower(g.steelType), Lower(searchTerm))
  }

  /** `filteredGrades`: the grades that match, in catalog order, each as often as the catalog holds it. */
  function FilteredGrades(catalog: seq<SteelGrade>, searchTerm: string): (r: seq<SteelGrade>)
    ensures forall k :: 0 <= k < |r| ==> r[k] in catalog && Matches(r[k], searchTerm)
    ensures forall k :: 0 <= k < |catalog| && Matches(catalog[k], searchTerm) ==> catalog[k] in r
    ensures IsSubsequence(r, catalog)
    ensures forall g :: g in catalog ==>
      multiset(r)[g] == if Matches(g, searchTerm) then multiset(catalog)[g] else 0
  {
    Filter(catalog, (g: SteelGrade) => Matches(g, searchTerm))
  }

  /** An empty term shows the whole catalog unchanged, since every string includes "". */
  lemma FilteredGradesEmpty(catalog: seq<SteelGrade>)
    ensures FilteredGrades(catalog, "") == catalog
  {
    var p := (g: SteelGrade) => Matches(g, "");
    forall g | g in catalog ensures p(g) {
      IncludesEmpty(Lower(g.grade));
    }
    FilterKeepsAll(catalog, p);
  }

  /** Filtering never repeats a grade more often than the catalog holds it, and keeps a
      duplicate-free catalog duplicate-free. */
  lemma FilteredGradesNoDuplicates(catalog: seq<SteelGrade>, searchTerm: string)
    ensures multiset(FilteredGrades(catalog, searchTerm)) <= multiset(catalog)
    ensures NoDup(catalog) ==> NoDup(FilteredGrades(catalog, searchTerm))
  {
    SubsequenceMultiset(FilteredGrades(catalog, searchTerm), catalog);
    if NoDup(catalog) {
      SubsequenceNoDup(FilteredGrades(catalog, searchTerm), catalog);
    }
  }

  // ---------------------------------------------------------------------
  // Selection toggle
  // ---------------------------------------------------------------------

  /** `toggleGrade`: a selected id is filtered out, an unselected one is appended. */
  function ToggleGrade(selected: seq<string>, id: string): (r: seq<string>)
    ensures id in selected ==> id !in r && IsSubsequence(r, selected)
    ensures id in selected ==> forall k :: 0 <= k < |selected| && selected[k] != id ==> selected[k] in r
    ensures id in selected ==> multiset(r) == multiset(selected)[id := 0]
    ensures id !in selected ==> r == selected + [id]
  {
    if id in selected then Without(selected, id) else selected + [id]
  }

  /** Toggling keeps the selection duplicate-free. */
  lemma ToggleKeepsNoDup(selected: seq<string>, id: string)
    requires NoDup(selected)
    ensures NoDup(ToggleGrade(selected, id))
  {
    if id in selected {
      SubsequenceNoDup(ToggleGrade(selected, id), selected);
    }
  }

  /** On a duplicate-free selection, toggling a selected id removes exactly its one occurrence. */
  lemma ToggleOffRemovesOne(selected: seq<string>, i: nat)
    requires NoDup(selected) && i < |selected|
    ensures ToggleGrade(selected, selected[i]) == RemoveAt(selected, i)
  {
    WithoutUniqueIsRemoveAt(selected, i);
  }

  /** Toggling an unselected id twice restores the selection exactly. */
  lemma ToggleTwiceUnselected(selected: seq<string>, id: string)
    requires id !in selected
    ensures ToggleGrade(ToggleGrade(selected, id), id) == selected
  {
    assert id in selected + [id];
    WithoutAppended(selected, id);
  }

  /** Toggling a selected id twice moves it to the end: remove, then append. */
  lemma ToggleTwiceSelected(selected: seq<string>, i: nat)
    requires NoDup(selected) && i < |selected|
    ensures ToggleGrade(ToggleGrade(selected, selected[i]), selected[i]) == RemoveAt(selected, i) + [selected[i]]
  {
    ToggleOffRemovesOne(selected, i);
  }

  /** A double toggle restores a duplicate-free selection exactly when the id was not selected
      or was the last one selected. */
  lemma ToggleTwiceRestoresIff(selected: seq<string>, id: string)
    requires NoDup(selected)
    ensures ToggleGrade(ToggleGrade(selected, id), id) == selected <==>
      id !in selected || selected[|selected| - 1] == id
  {
    if id !in selected {
      ToggleTwiceUnselected(selected, id);
    } else {
      var i := IndexOf(selected, id);
      ToggleTwiceSelected(selected, i);
      MovedToEnd(selected, i);
    }
  }

  /** Splicing out position `i` and appending its element gives the list back exactly when `i`
      is the last position. */
  lemma MovedToEnd(s: seq<string>, i: nat)
    requires NoDup(s) && i < |s|
    ensures RemoveAt(s, i) + [s[i]] == s <==> i == |s| - 1
  {
    var moved := RemoveAt(s, i) + [s[i]];
    if i < |s| - 1 {
      assert moved[|s| - 1] == s[i];
      assert s[|s| - 1] != s[i];
    }
  }

  /** Selecting A36 and then A36 again is not the identity once A992 follows it. */
  lemma ToggleTwiceReorders()
    ensures ToggleGrade(ToggleGrade(["A36", "A992"], "A36"), "A36") == ["A992", "A36"]
  {
    ToggleTwiceSelected(["A36", "A992"], 0);
  }

  // ---------------------------------------------------------------------
  // Chart lines, detail cards and the empty-selection placeholder
  // ---------------------------------------------------------------------

  /** One `<Line>`: named by the grade id, plotting that grade's temperature samples. */
  datatype Line = Line(name: string, data: seq<Sample>)

  /** The chart's lines: one per selected id, in selection order. */
  function Series(catalog: seq<SteelGrade>, selected: seq<string>): (r: seq<Line>)
    requires AllListed(catalog, selected)
    ensures |r| == |selected|
    ensures forall k :: 0 <= k < |selected| ==>
      r[k].name == selected[k] && Find(catalog, selected[k]).Some? &&
      r[k].data == Find(catalog, selected[k]).value.temperatureData
  {
    seq(|selected|, k requires 0 <= k < |selected| => Line(selected[k], Find(catalog, selected[k]).value.temperatureData))
  }

  /** On the shipped catalog a line's data is the temperature data of the catalog entry with that id. */
  lemma SeriesUsesCatalogEntry(selected: seq<string>, k: nat, j: nat)
    requires AllListed(SteelGrades, selected) && k < |selected| && j < |SteelGrades|
    requires SteelGrades[j].grade == selected[k]
    ensures Series(SteelGrades, selected)[k] == Line(selected[k], SteelGrades[j].temperatureData)
  {
    CatalogWellFormed();
    FindUnique(SteelGrades, j);
  }

  /** The "Properties Comparison" panel: a placeholder, or the chart and the cards. */
  datatype Panel = Placeholder | Comparison(lines: seq<Line>, cards: seq<DetailCard>)

  function PropertiesPanel(catalog: seq<SteelGrade>, selected: seq<string>): (r: Panel)
    requires AllListed(catalog, selected)
    ensures r.Placeholder? <==> |selected| == 0
    ensures r.Comparison? ==> |r.lines| == |r.cards| == |selected| > 0
    ensures r.Comparison? ==> forall k :: 0 <= k < |selected| ==> r.lines[k].name == r.cards[k].grade == selected[k]
    ensures r.Comparison? ==> r.lines == Series(catalog, selected) && r.cards == Details(catalog, selected)
  {
    if |selected| == 0 then Placeholder
    else Comparison(Series(catalog, selected), Details(catalog, selected))
  }

  /** The walk-through: select A36, then A992, then A36 again. */
  lemma SelectionScenario()
    ensures ToggleGrade([], "A36") == ["A36"]
    ensures ToggleGrade(["A36"], "A992") == ["A36", "A992"]
    ensures ToggleGrade(["A36", "A992"], "A36") == ["A992"]
  {
    ToggleOffRemovesOne(["A36", "A992"], 0);
  }

  /** With A36 selected, the one card shows A36's yield strength and joined applications. */
  lemma DetailsScenario()
    ensures AllListed(SteelGrades, ["A36"])
    ensures |Details(SteelGrades, ["A36"])| == 1
    ensures Details(SteelGrades, ["A36"])[0].yieldStrength == 36000
    ensures Details(SteelGrades, ["A36"])[0].applications == "Construction, General Purpose"
  {
    assert Ids(SteelGrades)[0] == "A36";
    CatalogIdsUnique();
    FindUnique(SteelGrades, 0);
    var card := Details(SteelGrades, ["A36"])[0];
    assert card.applications == Join(SteelGrades[0].applications, ", ");
    A36Applications();
  }

  lemma A36Applications()
    ensures Join(SteelGrades[0].applications, ", ") == "Construction, General Purpose"
  {
    assert SteelGrades[0].applications == ["Construction", "General Purpose"];
    assert ["Construction", "General Purpose"][1..] == ["General Purpose"];
  }
}
