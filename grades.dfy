/** The steel grade catalog both views are built on: the grade record, the
    fixed three-grade catalog literal, lookup by id (`find`), and the two
    projections both views render (the list rows and the detail cards). */
module Grades {
  import opened Seqs
  import opened Text

  datatype Option<T> = None | Some(value: T)

  /** One point of a grade's strength-versus-temperature curve (degrees F, psi). */
  datatype Sample = Sample(temp: int, strength: int)

  /** A catalog entry. `steelType` is the source's `type` field. */
  datatype SteelGrade = SteelGrade(
    grade: string,
    steelType: string,
    yieldStrength: int,
    tensileStrength: int,
    elongation: int,
    carbonContent: real,
    applications: seq<string>,
    temperatureData: seq<Sample>)

  /** The catalog literal (identical in both views). */
  const SteelGrades: seq<SteelGrade> := [
    SteelGrade("A36", "Carbon Steel", 36000, 58000, 20, 0.26,
      ["Construction", "General Purpose"],
      [Sample(0, 40000), Sample(200, 38000), Sample(400, 35000), Sample(600, 30000), Sample(800, 25000)]),
    SteelGrade("A572-50", "High-Strength Low-Alloy", 50000, 65000, 21, 0.23,
      ["Bridges", "Buildings"],
      [Sample(0, 52000), Sample(200, 50000), Sample(400, 47000), Sample(600, 42000), Sample(800, 35000)]),
    SteelGrade("A992", "Structural Steel", 50000, 65000, 21, 0.23,
      ["Structural Shapes", "I-Beams"],
      [Sample(0, 52000), Sample(200, 50000), Sample(400, 46000), Sample(600, 41000), Sample(800, 34000)])
  ]

  /** The temperatures the chart pivots on. */
  const Temperatures: seq<int> := [0, 200, 400, 600, 800]

  /** The ids of a catalog, in catalog order. */
  function Ids(catalog: seq<SteelGrade>): (r: seq<string>)
    ensures |r| == |catalog|
    ensures forall k :: 0 <= k < |catalog| ==> r[k] == catalog[k].grade
  {
    seq(|catalog|, k requires 0 <= k < |catalog| => catalog[k].grade)
  }

  /** The sample temperatures of one grade, in order. */
  function Temps(samples: seq<Sample>): (r: seq<int>)
    ensures |r| == |samples|
    ensures forall k :: 0 <= k < |samples| ==> r[k] == samples[k].temp
  {
    seq(|samples|, k requires 0 <= k < |samples| => samples[k].temp)
  }

  /** Every id in `ids` names some grade of the catalog. */
  predicate AllListed(catalog: seq<SteelGrade>, ids: seq<string>) {
    forall id :: id in ids ==> id in Ids(catalog)
  }

  predicate StrictlyAscending(samples: seq<Sample>) {
    forall i, j :: 0 <= i < j < |samples| ==> samples[i].temp < samples[j].temp
  }

  /** The catalog invariants: ids are unique, and every grade is sampled,
      in ascending order, at exactly the chart temperatures. */
  predicate WellFormed(catalog: seq<SteelGrade>) {
    NoDup(Ids(catalog)) &&
    forall g :: g in catalog ==> StrictlyAscending(g.temperatureData) && Temps(g.temperatureData) == Temperatures
  }

  /** The shipped catalog satisfies the catalog invariants. */
  lemma CatalogWellFormed()
    ensures WellFormed(SteelGrades)
  {
    CatalogIdsUnique();
    CatalogSampled();
    forall g | g in SteelGrades ensures StrictlyAscending(g.temperatureData) {
      ChartTemperaturesAscending(g.temperatureData);
    }
  }

  lemma CatalogIdsUnique()
    ensures NoDup(Ids(SteelGrades))
  {
    assert Ids(SteelGrades) == ["A36", "A572-50", "A992"];
  }

  lemma CatalogSampled()
    ensures forall g :: g in SteelGrades ==> Temps(g.temperatureData) == Temperatures
  {
    assert Temps(SteelGrades[0].temperatureData) == Temperatures;
    assert Temps(SteelGrades[1].temperatureData) == Temperatures;
    assert Temps(SteelGrades[2].temperatureData) == Temperatures;
  }

  /** Samples taken at exactly the chart temperatures are in ascending order. */
  lemma ChartTemperaturesAscending(samples: seq<Sample>)
    requires Temps(samples) == Temperatures
    ensures StrictlyAscending(samples)
  {
    forall i, j | 0 <= i < j < |samples| ensures samples[i].temp < samples[j].temp {
      assert samples[i].temp == Temperatures[i] && samples[j].temp == Temperatures[j];
    }
  }

  /** `catalog.find(g => g.grade === id)`: the first grade with that id, if any. */
  function Find(catalog: seq<SteelGrade>, id: string): (r: Option<SteelGrade>)
    ensures r.None? <==> id !in Ids(catalog)
    ensures r.Some? ==> r.value in catalog && r.value.grade == id
  {
    var k := FirstIndex(catalog, (g: SteelGrade) => g.grade == id);
    if k < 0 then None else Some(catalog[k])
  }

  /** With unique ids, `find` by id returns the one grade carrying that id. */
  lemma FindUnique(catalog: seq<SteelGrade>, k: nat)
    requires NoDup(Ids(catalog)) && k < |catalog|
    ensures Find(catalog, catalog[k].grade) == Some(catalog[k])
  {
    var f := FirstIndex(catalog, (g: SteelGrade) => g.grade == catalog[k].grade);
    assert Ids(catalog)[f] == Ids(catalog)[k];
  }

  /** `temperatureData.find(t => t.temp === temp)`: the first sample at that temperature, if any. */
  function SampleAt(samples: seq<Sample>, temp: int): (r: Option<Sample>)
    ensures r.None? <==> temp !in Temps(samples)
    ensures r.Some? ==> r.value in samples && r.value.temp == temp
  {
    var k := FirstIndex(samples, (s: Sample) => s.temp == temp);
    if k < 0 then None else Some(samples[k])
  }

  /** The strength a chart row shows for one id: find the grade, then its sample at `temp`. */
  function StrengthOf(catalog: seq<SteelGrade>, id: string, temp: int): (r: Option<int>)
    ensures id !in Ids(catalog) ==> r.None?
    ensures r.Some? <==> Find(catalog, id).Some? && temp in Temps(Find(catalog, id).value.temperatureData)
    ensures r.Some? ==> Sample(temp, r.value) in Find(catalog, id).value.temperatureData
  {
    match Find(catalog, id)
    case None => None
    case Some(g) =>
      match SampleAt(g.temperatureData, temp)
      case None => None
      case Some(s) => Some(s.strength)
  }

  /** The nested lookup in the chart pivot never fails on a well-formed catalog: every listed id
      has a sample at every chart temperature, and that sample is the grade's only one there. */
  lemma StrengthDefined(catalog: seq<SteelGrade>, id: string, k: nat)
    requires WellFormed(catalog) && id in Ids(catalog) && k < |Temperatures|
    ensures Find(catalog, id).Some? && k < |Find(catalog, id).value.temperatureData|
    ensures SampleAt(Find(catalog, id).value.temperatureData, Temperatures[k]) == Some(Find(catalog, id).value.temperatureData[k])
    ensures StrengthOf(catalog, id, Temperatures[k]) == Some(Find(catalog, id).value.temperatureData[k].strength)
  {
    var g := Find(catalog, id).value;
    assert Temps(g.temperatureData) == Temperatures;
    assert Temperatures[k] in Temps(g.temperatureData);
    var s := SampleAt(g.temperatureData, Temperatures[k]).value;
    var f := FirstIndex(g.temperatureData, (s: Sample) => s.temp == Temperatures[k]);
    assert g.temperatureData[f] == s;
    assert f == k;
  }

  /** The shipped catalog instance of `StrengthDefined`. */
  lemma CatalogStrengthDefined(id: string, k: nat)
    requires id in Ids(SteelGrades) && k < |Temperatures|
    ensures Find(SteelGrades, id).Some? && k < |Find(SteelGrades, id).value.temperatureData|
    ensures SampleAt(Find(SteelGrades, id).value.temperatureData, Temperatures[k]) == Some(Find(SteelGrades, id).value.temperatureData[k])
    ensures StrengthOf(SteelGrades, id, Temperatures[k]) == Some(Find(SteelGrades, id).value.temperatureData[k].strength)
  {
    CatalogWellFormed();
    StrengthDefined(SteelGrades, id, k);
  }

  // ---------------------------------------------------------------------
  // What both views render from the catalog and the selection
  // ---------------------------------------------------------------------

  /** One entry of the "Available Grades" list: id, type, and whether it is selected. */
  datatype ListItem = ListItem(grade: string, steelType: string, selected: bool)

  /** The list rows, one per shown grade, marked by `selectedGrades.includes(grade.grade)`. */
  function ListItems(shown: seq<SteelGrade>, selected: seq<string>): (r: seq<ListItem>)
    ensures |r| == |shown|
    ensures forall k :: 0 <= k < |shown| ==>
      r[k].grade == shown[k].grade && r[k].steelType == shown[k].steelType &&
      (r[k].selected <==> shown[k].grade in selected)
  {
    seq(|shown|, k requires 0 <= k < |shown| => ListItem(shown[k].grade, shown[k].steelType, shown[k].grade in selected))
  }

  /** One properties card: the displayed fields, with `applications` joined by ", ". */
  datatype DetailCard = DetailCard(
    grade: string,
    yieldStrength: int,
    tensileStrength: int,
    elongation: int,
    carbonContent: real,
    applications: string)

  /** `selectedGrades.map(gradeId => card of catalog.find(...))`: one card per selected id, in
      selection order, each showing the fields of the grade with that id. */
  function Details(catalog: seq<SteelGrade>, selected: seq<string>): (r: seq<DetailCard>)
    requires AllListed(catalog, selected)
    ensures |r| == |selected|
    ensures forall k :: 0 <= k < |selected| ==>
      Find(catalog, selected[k]).Some? &&
      var g := Find(catalog, selected[k]).value;
      r[k].grade == selected[k] && r[k].yieldStrength == g.yieldStrength &&
      r[k].tensileStrength == g.tensileStrength && r[k].elongation == g.elongation &&
      r[k].carbonContent == g.carbonContent && r[k].applications == Join(g.applications, ", ")
  {
    seq(|selected|, k requires 0 <= k < |selected| =>
      var g := Find(catalog, selected[k]).value;
      DetailCard(g.grade, g.yieldStrength, g.tensileStrength, g.elongation, g.carbonContent, Join(g.applications, ", ")))
  }
}
