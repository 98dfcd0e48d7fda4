/**
 * The engineers table: for each province, the number of computer,
 * mechanical and electrical engineers (the totals of the rows whose label
 * contains the type's occupation code), their sum, that sum per head of
 * population (0 when the population is 0), the province's display name and
 * its map coordinates.
 */
module Engineers {
  import opened Counts
  import opened Labels
  import opened Lookup
  import opened Frames
  import opened Ratios

  /** One row of the table. */
  datatype EngineerRow = EngineerRow(province: string, abbrev: string, provinceName: string,
                                     totalEngineers: nat, perCapita: real,
                                     byType: map<string, nat>, coord: Coord)

  /** The `totals` dictionary, filled one engineer type at a time. */
  function TypeCounts(totals: seq<Entry>, types: seq<(string, string)>): map<string, nat> {
    if types == [] then map[]
    else
      var (kind, code) := types[|types| - 1];
      TypeCounts(totals, types[..|types| - 1])[kind := SumWhere(totals, AnyCode([code]))]
  }

  /** The number of engineers of all the given types together. */
  function TypeSum(totals: seq<Entry>, types: seq<(string, string)>): nat {
    if types == [] then 0
    else TypeSum(totals, types[..|types| - 1]) + SumWhere(totals, AnyCode([types[|types| - 1].1]))
  }

  /**
   * The row one province gives. The abbreviation is looked up before the
   * table is cleaned; the display name and the coordinates after the counts.
   */
  function EngineerRows(name: string, file: string, t: seq<RawRow>): Result<seq<EngineerRow>, Error> {
    if name !in ProvinceAbbrev then Err(UnknownProvince(name))
    else
      var abbrev := ProvinceAbbrev[name];
      match CleanColumn(t, TotalGender)
      case Err(i) => Err(BadCount(file, TotalGender, i))
      case Ok(totals) =>
        if |t| == 0 then Err(NoRows(file))
        else if abbrev !in AbbrevToName || abbrev !in ProvinceCoords then Err(UnknownAbbrev(abbrev))
        else
          var engineers := TypeSum(totals, EngineerOccupations);
          Ok([EngineerRow(name, abbrev, AbbrevToName[abbrev], engineers, Share(engineers, totals[0].count),
                          TypeCounts(totals, EngineerOccupations), ProvinceCoords[abbrev])])
  }

  // ---------------------------------------------------------------------------
  // The loops of the source.

  /**
   * One pass of the province loop: count each engineer type into a
   * dictionary, then add up the dictionary's values.
   */
  method EngineersForProvince(name: string, file: string, t: seq<RawRow>) returns (r: Result<seq<EngineerRow>, Error>)
    ensures r == EngineerRows(name, file, t)
  {
    if name !in ProvinceAbbrev {
      return Err(UnknownProvince(name));
    }
    var abbrev := ProvinceAbbrev[name];
    var cleaned := CleanColumn(t, TotalGender);
    if cleaned.Err? {
      return Err(BadCount(file, TotalGender, cleaned.error));
    }
    var totals := cleaned.value;
    if |t| == 0 {
      return Err(NoRows(file));
    }
    var population := totals[0].count;
    var counts := CountTypes(totals, EngineerOccupations);
    GroupNamesDistinct();
    var engineers := AddCounts(totals, EngineerOccupations, counts);
    if abbrev !in AbbrevToName || abbrev !in ProvinceCoords {
      return Err(UnknownAbbrev(abbrev));
    }
    r := Ok([EngineerRow(name, abbrev, AbbrevToName[abbrev], engineers, Share(engineers, population),
                         counts, ProvinceCoords[abbrev])]);
  }

  /** The source's `for eng_type, noc_code in ENGINEER_OCCUPATIONS.items()` loop filling `totals`. */
  method CountTypes(totals: seq<Entry>, types: seq<(string, string)>) returns (counts: map<string, nat>)
    ensures counts == TypeCounts(totals, types)
  {
    counts := map[];
    for k := 0 to |types|
      invariant counts == TypeCounts(totals, types[..k])
    {
      assert types[..k + 1][..k] == types[..k];
      var (kind, code) := types[k];
      counts := counts[kind := SumWhere(totals, AnyCode([code]))];
    }
    assert types[..|types|] == types;
  }

  /** The source's `sum(totals.values())`: with distinct type names, the dictionary's values add up to the total over the types. */
  method AddCounts(totals: seq<Entry>, types: seq<(string, string)>, counts: map<string, nat>) returns (engineers: nat)
    requires forall i, j :: 0 <= i < j < |types| ==> types[i].0 != types[j].0
    requires counts == TypeCounts(totals, types)
    ensures engineers == TypeSum(totals, types)
  {
    engineers := 0;
    for k := 0 to |types|
      invariant engineers == TypeSum(totals, types[..k])
    {
      assert types[..k + 1][..k] == types[..k];
      TypeCountsAt(totals, types, k);
      engineers := engineers + counts[types[k].0];
    }
    assert types[..|types|] == types;
  }

  /** `process_engineer_data`: the provinces visited in order, one row each. */
  method ProcessEngineers(files: map<string, seq<RawRow>>, ps: seq<(string, string)>) returns (r: Result<seq<EngineerRow>, Error>)
    ensures r == Gather(files, ps, EngineerRows)
  {
    var acc: seq<EngineerRow> := [];
    for k := 0 to |ps|
      invariant Gather(files, ps[..k], EngineerRows) == Ok(acc)
    {
      GatherStep(files, ps, EngineerRows, k);
      var (name, file) := ps[k];
      if file !in files {
        GatherErrSticks(files, ps, EngineerRows, k + 1);
        return Err(MissingFile(file));
      }
      var rows := EngineersForProvince(name, file, files[file]);
      if rows.Err? {
        GatherErrSticks(files, ps, EngineerRows, k + 1);
        return Err(rows.error);
      }
      acc := acc + rows.value;
    }
    assert ps[..|ps|] == ps;
    r := Ok(acc);
  }

  // ---------------------------------------------------------------------------
  // What the table means.

  /** With distinct type names, each type's entry is the total of the rows whose label contains its code. */
  lemma {:induction false} TypeCountsAt(totals: seq<Entry>, types: seq<(string, string)>, k: nat)
    requires forall i, j :: 0 <= i < j < |types| ==> types[i].0 != types[j].0
    requires k < |types|
    ensures types[k].0 in TypeCounts(totals, types)
    ensures TypeCounts(totals, types)[types[k].0] == SumWhere(totals, AnyCode([types[k].1]))
    decreases |types|
  {
    var init := types[..|types| - 1];
    if k < |types| - 1 {
      assert init[k] == types[k];
      TypeCountsAt(totals, init, k);
    }
  }

  /** The dictionary has exactly the engineer types as keys. */
  lemma {:induction false} TypeCountsKeys(totals: seq<Entry>, types: seq<(string, string)>)
    ensures forall s :: s in TypeCounts(totals, types) <==> exists k :: 0 <= k < |types| && types[k].0 == s
    decreases |types|
  {
    if types != [] {
      var init := types[..|types| - 1];
      TypeCountsKeys(totals, init);
      assert forall k :: 0 <= k < |init| ==> init[k] == types[k];
    }
  }

  /** The total never falls below one type's count: each type adds its rows on top. */
  lemma {:induction false} TypeSumCovers(totals: seq<Entry>, types: seq<(string, string)>, k: nat)
    requires k < |types|
    ensures SumWhere(totals, AnyCode([types[k].1])) <= TypeSum(totals, types)
    decreases |types|
  {
    var init := types[..|types| - 1];
    if k < |types| - 1 {
      assert init[k] == types[k];
      TypeSumCovers(totals, init, k);
    }
  }

  /**
   * A province gives its row exactly when it has an abbreviation, its total
   * cells can be read and its table has a first row (every abbreviation has a
   * display name and coordinates).
   */
  lemma {:induction false} EngineerRowsOkIff(name: string, file: string, t: seq<RawRow>)
    ensures EngineerRows(name, file, t).Ok? <==>
              name in ProvinceAbbrev && |t| > 0 && forall i :: 0 <= i < |t| ==> CleanCount(t[i].total).Some?
  {
    CleanColumnOkIff(t, TotalGender);
    AbbrevsHaveCoordsAndNames();
  }

  /**
   * The dictionary of the three engineer types holds each type's count, and
   * the total is the sum of its three values.
   */
  lemma {:induction false} EngineerCounts(totals: seq<Entry>)
    ensures var counts := TypeCounts(totals, EngineerOccupations);
            (forall s :: s in counts <==> exists k :: 0 <= k < |EngineerOccupations| && EngineerOccupations[k].0 == s) &&
            (forall k :: 0 <= k < |EngineerOccupations| ==>
               EngineerOccupations[k].0 in counts &&
               counts[EngineerOccupations[k].0] == SumWhere(totals, AnyCode([EngineerOccupations[k].1])) &&
               counts[EngineerOccupations[k].0] <= TypeSum(totals, EngineerOccupations)) &&
            "Computer Engineers" in counts && "Mechanical Engineers" in counts && "Electrical Engineers" in counts &&
            TypeSum(totals, EngineerOccupations) ==
              counts["Computer Engineers"] + counts["Mechanical Engineers"] + counts["Electrical Engineers"]
  {
    var types := EngineerOccupations;
    GroupNamesDistinct();
    TypeCountsKeys(totals, types);
    var counts := TypeCounts(totals, types);
    forall k | 0 <= k < |types|
      ensures types[k].0 in counts && counts[types[k].0] == SumWhere(totals, AnyCode([types[k].1]))
      ensures SumWhere(totals, AnyCode([types[k].1])) <= TypeSum(totals, types)
    {
      TypeCountsAt(totals, types, k);
      TypeSumCovers(totals, types, k);
    }
    TypeSumOfThree(totals, types);
    assert types[0].0 == "Computer Engineers" && types[1].0 == "Mechanical Engineers" && types[2].0 == "Electrical Engineers";
  }

  /** Three types add up one after another. */
  lemma {:induction false} TypeSumOfThree(totals: seq<Entry>, types: seq<(string, string)>)
    requires |types| == 3
    ensures TypeSum(totals, types) == SumWhere(totals, AnyCode([types[0].1])) +
                                      SumWhere(totals, AnyCode([types[1].1])) +
                                      SumWhere(totals, AnyCode([types[2].1]))
  {
    var two, one := types[..2], types[..1];
    assert two[..1] == one && one[..0] == [];
    assert TypeSum(totals, one) == SumWhere(totals, AnyCode([types[0].1]));
    assert TypeSum(totals, two) == TypeSum(totals, one) + SumWhere(totals, AnyCode([types[1].1]));
  }

  /**
   * The row a province gives: its abbreviation, display name and coordinates
   * from the lookup tables; one count per engineer type, the total of the
   * rows whose label contains that type's code; the total of the three
   * counts; and that total as a share of the first row's population (which
   * times the population gives the total back, or 0 for no population).
   */
  lemma {:induction false} EngineerRowsValue(name: string, file: string, t: seq<RawRow>)
    requires EngineerRows(name, file, t).Ok?
    ensures name in ProvinceAbbrev && CleanColumn(t, TotalGender).Ok? && |t| > 0 && CleanCount(t[0].total).Some?
    ensures var rows := EngineerRows(name, file, t).value;
            var totals := CleanColumn(t, TotalGender).value;
            var abbrev := ProvinceAbbrev[name];
            |rows| == 1 && rows[0].province == name && rows[0].abbrev == abbrev &&
            abbrev in AbbrevToName && rows[0].provinceName == AbbrevToName[abbrev] &&
            abbrev in ProvinceCoords && rows[0].coord == ProvinceCoords[abbrev] &&
            rows[0].byType == TypeCounts(totals, EngineerOccupations) &&
            rows[0].totalEngineers == TypeSum(totals, EngineerOccupations)
    ensures var row := EngineerRows(name, file, t).value[0];
            row.perCapita == Share(row.totalEngineers, CleanCount(t[0].total).value)
  {
    CleanColumnOkIff(t, TotalGender);
    CleanColumnValues(t, TotalGender);
    AbbrevsHaveCoordsAndNames();
  }

  /** A successful run has one row per province, in the order visited. */
  lemma EngineerTableShape(files: map<string, seq<RawRow>>, ps: seq<(string, string)>)
    requires Gather(files, ps, EngineerRows).Ok?
    ensures var rows := Gather(files, ps, EngineerRows).value;
            |rows| == |ps| && forall k :: 0 <= k < |rows| ==> rows[k].province == ps[k].0
  {
    forall k | 0 <= k < |ps| && Province(files, ps[k], EngineerRows).Ok?
      ensures |Province(files, ps[k], EngineerRows).value| == 1
    {
      EngineerRowsValue(ps[k].0, ps[k].1, files[ps[k].1]);
    }
    GatherFixedWidth(files, ps, EngineerRows, 1);
    var rows := Gather(files, ps, EngineerRows).value;
    forall k | 0 <= k < |rows|
      ensures rows[k].province == ps[k].0
    {
      EngineerRowsValue(ps[k].0, ps[k].1, files[ps[k].1]);
      assert rows[k] == rows[k..k + 1][0];
    }
  }

  // ---------------------------------------------------------------------------
  // A worked example: 2,000 computer engineers in a population of 2,000,000.
  // The gender cells are not read by this table, so they need not be numbers.

  const PerCapitaTable: seq<RawRow> := [
    RawRow("Total", "2,000,000", "-", "-"),
    RawRow("21311 Computer engineers", "2,000", "-", "-")
  ]

  /** Only the computer-engineer code selects a row of the example, the second. */
  lemma {:induction false} PerCapitaMatches(k: nat)
    requires k < |EngineerOccupations|
    ensures !MatchesAnyCode("Total", [EngineerOccupations[k].1])
    ensures MatchesAnyCode("21311 Computer engineers", [EngineerOccupations[k].1]) == (k == 0)
  {
    var codes := [EngineerOccupations[k].1];
    assert |codes[0]| == 5 && AllDigits(codes[0]);
    NoDigitMatchesNoGroup("Total", codes);
    assert "21311 Computer engineers" == "21311" + " Computer engineers";
    UnitLabelMatchesGroup("21311", " Computer engineers", codes);
  }

  /** Each engineer type's count in the example. */
  lemma {:induction false} PerCapitaSums(es: seq<Entry>, k: nat)
    requires |es| == 2 && k < |EngineerOccupations|
    requires es[0] == Entry("Total", 2000000)
    requires es[1] == Entry("21311 Computer engineers", 2000)
    ensures SumWhere(es, AnyCode([EngineerOccupations[k].1])) == [2000, 0, 0][k]
  {
    var m := AnyCode([EngineerOccupations[k].1]);
    assert es == [es[0]] + [es[1]];
    PerCapitaMatches(k);
    SumWhereConcat([es[0]], [es[1]], m);
    SumWhereSingle(es[0], m);
    SumWhereSingle(es[1], m);
  }

    /** The example's two total cells read as 2,000,000 and 2,000. */
  lemma PerCapitaCells()
    ensures CleanCount("2,000,000") == Some(2000000) && CleanCount("2,000") == Some(2000)
  {
    assert Pad3(0) == "000";
    assert Grouped(2000) == "2,000" by {
      assert Grouped(2) == "2";
    }
    assert Grouped(2000000) == "2,000,000";
    GroupedRoundTrip(2000);
    GroupedRoundTrip(2000000);
  }

  /** The example's total column reads 2,000,000 and 2,000, so Alberta gives its row. */
  lemma {:induction false} PerCapitaCleans(t: seq<RawRow>)
    requires t == PerCapitaTable
    ensures EngineerRows("Alberta", "Alberta.csv", t).Ok?
    ensures CleanColumn(t, TotalGender).Ok? && |CleanColumn(t, TotalGender).value| == 2
    ensures var es := CleanColumn(t, TotalGender).value;
            es[0] == Entry("Total", 2000000) && es[1] == Entry("21311 Computer engineers", 2000)
  {
    PerCapitaCells();
    assert Cell(t[0], TotalGender) == "2,000,000" && Cell(t[1], TotalGender) == "2,000";
    EngineerRowsOkIff("Alberta", "Alberta.csv", t);
    CleanColumnOkIff(t, TotalGender);
    CleanColumnValues(t, TotalGender);
  }

  /** Any table whose total column cleans to the example's totals gives 2,000 engineers and 0.001 per head. */
  lemma {:induction false} PerCapitaFigures(name: string, file: string, t: seq<RawRow>)
    requires EngineerRows(name, file, t).Ok?
    requires CleanColumn(t, TotalGender).Ok? && |CleanColumn(t, TotalGender).value| == 2
    requires var es := CleanColumn(t, TotalGender).value;
             es[0] == Entry("Total", 2000000) && es[1] == Entry("21311 Computer engineers", 2000)
    ensures |EngineerRows(name, file, t).value| == 1
    ensures var row := EngineerRows(name, file, t).value[0];
            row.totalEngineers == 2000 && row.perCapita == 0.001 &&
            row.provinceName == AbbrevToName[ProvinceAbbrev[name]] &&
            row.coord == ProvinceCoords[ProvinceAbbrev[name]]
  {
    EngineerRowsValue(name, file, t);
    CleanColumnValues(t, TotalGender);
    var es := CleanColumn(t, TotalGender).value;
    assert CleanCount(t[0].total).value == 2000000;
    PerCapitaSums(es, 0);
    PerCapitaSums(es, 1);
    PerCapitaSums(es, 2);
    TypeSumOfThree(es, EngineerOccupations);
    assert Share(2000, 2000000) == 0.001;
  }

  /** The example gives 2,000 engineers in all and 0.001 engineers per head. */
  lemma {:induction false} PerCapitaExample(t: seq<RawRow>)
    requires t == PerCapitaTable
    ensures EngineerRows("Alberta", "Alberta.csv", t).Ok?
    ensures |EngineerRows("Alberta", "Alberta.csv", t).value| == 1
    ensures var row := EngineerRows("Alberta", "Alberta.csv", t).value[0];
            row.totalEngineers == 2000 && row.perCapita == 0.001 &&
            row.provinceName == "Alberta" && row.coord == Coord(53.9333, -116.5765)
  {
    assert "Alberta" in ProvinceAbbrev && ProvinceAbbrev["Alberta"] == "AB";
    assert "AB" in AbbrevToName && AbbrevToName["AB"] == "Alberta";
    assert "AB" in ProvinceCoords && ProvinceCoords["AB"] == Coord(53.9333, -116.5765);
    PerCapitaCleans(t);
    PerCapitaFigures("Alberta", "Alberta.csv", t);
  }
}
