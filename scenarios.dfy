/** Walk-throughs of the component view on the shipped catalog: the
    search terms "high" and "a9". */
module SteelGradeScenarios {
  import opened Seqs
  import opened Text
  import opened Grades
  import opened SteelGradeComparison

  lemma LowerSearchTerms()
    ensures Lower("high") == "high" && Lower("a9") == "a9"
  {
  }

  /** The ids and types of the shipped catalog. */
  lemma CatalogText()
    ensures SteelGrades[0].grade == "A36" && SteelGrades[0].steelType == "Carbon Steel"
    ensures SteelGrades[1].grade == "A572-50" && SteelGrades[1].steelType == "High-Strength Low-Alloy"
    ensures SteelGrades[2].grade == "A992" && SteelGrades[2].steelType == "Structural Steel"
  {
  }

  /** A field with no "h" in either case does not match "high". */
  lemma LacksHigh(f: string)
    requires 'h' !in f && 'H' !in f
    ensures !Includes(Lower(f), Lower("high"))
  {
    LowerSearchTerms();
    LowerLacks(f, 'h');
    MissingCharExcludes(Lower(f), "high", 0);
  }

  /** A field with no "9" does not match "a9". */
  lemma LacksA9(f: string)
    requires '9' !in f
    ensures !Includes(Lower(f), Lower("a9"))
  {
    LowerSearchTerms();
    LowerLacks(f, '9');
    MissingCharExcludes(Lower(f), "a9", 1);
  }

  /** A field whose first characters lower-case to the term matches it. */
  lemma PrefixMatches(f: string, t: string)
    requires |t| <= |f| && Lower(f[..|t|]) == Lower(t)
    ensures Includes(Lower(f), Lower(t))
  {
    assert Lower(f)[..|t|] == Lower(f[..|t|]);
  }

  /** "A36" and "Carbon Steel" include neither term. */
  lemma A36Text()
    ensures !Includes(Lower("A36"), Lower("high")) && !Includes(Lower("Carbon Steel"), Lower("high"))
    ensures !Includes(Lower("A36"), Lower("a9")) && !Includes(Lower("Carbon Steel"), Lower("a9"))
  {
    LacksHigh("A36");
    LacksHigh("Carbon Steel");
    LacksA9("A36");
    LacksA9("Carbon Steel");
  }

  /** "High-Strength Low-Alloy" starts with "high"; neither it nor "A572-50" includes "a9". */
  lemma A572Text()
    ensures Includes(Lower("High-Strength Low-Alloy"), Lower("high"))
    ensures !Includes(Lower("A572-50"), Lower("a9")) && !Includes(Lower("High-Strength Low-Alloy"), Lower("a9"))
  {
    assert "High-Strength Low-Alloy"[..4] == "High";
    PrefixMatches("High-Strength Low-Alloy", "high");
    LacksA9("A572-50");
    LacksA9("High-Strength Low-Alloy");
  }

  /** "A992" starts with "a9"; neither it nor "Structural Steel" includes "high". */
  lemma A992Text()
    ensures Includes(Lower("A992"), Lower("a9"))
    ensures !Includes(Lower("A992"), Lower("high")) && !Includes(Lower("Structural Steel"), Lower("high"))
  {
    assert "A992"[..2] == "A9";
    PrefixMatches("A992", "a9");
    LacksHigh("A992");
    LacksHigh("Structural Steel");
  }

  /** A36 matches neither term, A572-50 only "high" (through its type), A992 only "a9". */
  lemma CatalogMatches()
    ensures !Matches(SteelGrades[0], "high") && Matches(SteelGrades[1], "high") && !Matches(SteelGrades[2], "high")
    ensures !Matches(SteelGrades[0], "a9") && !Matches(SteelGrades[1], "a9") && Matches(SteelGrades[2], "a9")
  {
    CatalogText();
    A36Text();
    A572Text();
    A992Text();
  }

  /** On a three-grade catalog, a term that only the middle grade matches shows that grade alone. */
  lemma OnlyMiddleShown(catalog: seq<SteelGrade>, term: string)
    requires |catalog| == 3
    requires !Matches(catalog[0], term) && Matches(catalog[1], term) && !Matches(catalog[2], term)
    ensures FilteredGrades(catalog, term) == [catalog[1]]
  {
    var p := (g: SteelGrade) => Matches(g, term);
    var tail := catalog[1..];
    assert tail[0] == catalog[1] && tail[1..][0] == catalog[2] && tail[1..][1..] == [];
    assert Filter(tail[1..], p) == [];
    assert Filter(tail, p) == [catalog[1]];
    assert Filter(catalog, p) == Filter(tail, p);
  }

  /** On a three-grade catalog, a term that only the last grade matches shows that grade alone. */
  lemma OnlyLastShown(catalog: seq<SteelGrade>, term: string)
    requires |catalog| == 3
    requires !Matches(catalog[0], term) && !Matches(catalog[1], term) && Matches(catalog[2], term)
    ensures FilteredGrades(catalog, term) == [catalog[2]]
  {
    var p := (g: SteelGrade) => Matches(g, term);
    var tail := catalog[1..];
    assert tail[0] == catalog[1] && tail[1..][0] == catalog[2] && tail[1..][1..] == [];
    assert Filter(tail[1..], p) == [catalog[2]];
    assert Filter(tail, p) == [catalog[2]];
    assert Filter(catalog, p) == Filter(tail, p);
  }

  /** Searching "high" shows only A572-50, found through its type "High-Strength Low-Alloy". */
  lemma SearchHighScenario()
    ensures FilteredGrades(SteelGrades, "high") == [SteelGrades[1]]
    ensures SteelGrades[1].grade == "A572-50"
  {
    CatalogMatches();
    CatalogText();
    OnlyMiddleShown(SteelGrades, "high");
  }

  /** Searching "a9" shows only A992. */
  lemma SearchA9Scenario()
    ensures FilteredGrades(SteelGrades, "a9") == [SteelGrades[2]]
    ensures SteelGrades[2].grade == "A992"
  {
    CatalogMatches();
    CatalogText();
    OnlyLastShown(SteelGrades, "a9");
  }
}
