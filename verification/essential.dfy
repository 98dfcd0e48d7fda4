/**
 * The essential-services table: for each province, the share of its
 * population working as nurses, police officers and firefighters. A row
 * counts for a service when one of the service's occupation codes occurs in
 * its label; the population is the total of the table's first row.
 */
module Essential {
  import opened Counts
  import opened Labels
  import opened Lookup
  import opened Frames
  import opened Ratios

  /**
   * One row of the table: the province, its abbreviation (absent when the
   * abbreviation table has no entry, where pandas would put NaN) and the
   * population share of each service.
   */
  datatype EssentialRow = EssentialRow(province: string, abbrev: Option<string>, shares: map<string, Quotient>)

  function AbbrevOf(name: string): Option<string> {
    if name in ProvinceAbbrev then Some(ProvinceAbbrev[name]) else None
  }

  /** The `services` dictionary, filled one service at a time. */
  function ServiceShares(totals: seq<Entry>, population: nat, services: seq<(string, seq<string>)>): map<string, Quotient> {
    if services == [] then map[]
    else
      var (service, codes) := services[|services| - 1];
      ServiceShares(totals, population, services[..|services| - 1])[service := Divide(SumWhere(totals, AnyCode(codes)), population)]
  }

  /** The rows one province gives: exactly one, or the error that stops the run. */
  function EssentialRows(name: string, file: string, t: seq<RawRow>): Result<seq<EssentialRow>, Error> {
    match CleanAll(t, [TotalGender, Men, Women])
    case Err(e) => Err(BadCount(file, e.0, e.1))
    case Ok(cols) =>
      if |t| == 0 then Err(NoRows(file))
      else
        var totals := cols[TotalGender];
        Ok([EssentialRow(name, AbbrevOf(name), ServiceShares(totals, totals[0].count, EssentialOccupations))])
  }

  // ---------------------------------------------------------------------------
  // The loops of the source.

  /** One pass of the province loop: clean the three count columns, then fill the services dictionary. */
  method EssentialForProvince(name: string, file: string, t: seq<RawRow>) returns (r: Result<seq<EssentialRow>, Error>)
    ensures r == EssentialRows(name, file, t)
  {
    var cleaned := CleanColumns(t, [TotalGender, Men, Women]);
    if cleaned.Err? {
      return Err(BadCount(file, cleaned.error.0, cleaned.error.1));
    }
    if |t| == 0 {
      return Err(NoRows(file));
    }
    assert TotalGender in [TotalGender, Men, Women];
    var totals := cleaned.value[TotalGender];
    var services := FillServices(totals, totals[0].count, EssentialOccupations);
    r := Ok([EssentialRow(name, AbbrevOf(name), services)]);
  }

  /** The source's `for service, codes in ESSENTIAL_OCCUPATIONS.items()` loop filling `services`. */
  method FillServices(totals: seq<Entry>, population: nat, services: seq<(string, seq<string>)>)
    returns (shares: map<string, Quotient>)
    ensures shares == ServiceShares(totals, population, services)
  {
    shares := map[];
    for k := 0 to |services|
      invariant shares == ServiceShares(totals, population, services[..k])
    {
      assert services[..k + 1][..k] == services[..k];
      var (service, codes) := services[k];
      shares := shares[service := Divide(SumWhere(totals, AnyCode(codes)), population)];
    }
    assert services[..|services|] == services;
  }

  /**
   * `load_and_process_data`, essential-services part: the provinces visited in
   * order (PROVINCE_FILES in the pipeline), one row each.
   */
  method ProcessEssential(files: map<string, seq<RawRow>>, ps: seq<(string, string)>) returns (r: Result<seq<EssentialRow>, Error>)
    ensures r == Gather(files, ps, EssentialRows)
  {
    var acc: seq<EssentialRow> := [];
    for k := 0 to |ps|
      invariant Gather(files, ps[..k], EssentialRows) == Ok(acc)
    {
      GatherStep(files, ps, EssentialRows, k);
      var (name, file) := ps[k];
      if file !in files {
        GatherErrSticks(files, ps, EssentialRows, k + 1);
        return Err(MissingFile(file));
      }
      var rows := EssentialForProvince(name, file, files[file]);
      if rows.Err? {
        GatherErrSticks(files, ps, EssentialRows, k + 1);
        return Err(rows.error);
      }
      acc := acc + rows.value;
    }
    assert ps[..|ps|] == ps;
    r := Ok(acc);
  }

  // ---------------------------------------------------------------------------
  // What the table means.

  /** With distinct service names, each service's entry is the sum of its matched totals divided by the population. */
  lemma {:induction false} ServiceSharesAt(totals: seq<Entry>, population: nat, services: seq<(string, seq<string>)>, k: nat)
    requires forall i, j :: 0 <= i < j < |services| ==> services[i].0 != services[j].0
    requires k < |services|
    ensures services[k].0 in ServiceShares(totals, population, services)
    ensures ServiceShares(totals, population, services)[services[k].0] ==
              Divide(SumWhere(totals, AnyCode(services[k].1)), population)
    decreases |services|
  {
    var init := services[..|services| - 1];
    if k < |services| - 1 {
      assert init[k] == services[k];
      ServiceSharesAt(totals, population, init, k);
    }
  }

  /** The services dictionary has exactly the services as keys. */
  lemma {:induction false} ServiceSharesKeys(totals: seq<Entry>, population: nat, services: seq<(string, seq<string>)>)
    ensures forall s :: s in ServiceShares(totals, population, services) <==>
              exists k :: 0 <= k < |services| && services[k].0 == s
    decreases |services|
  {
    if services != [] {
      var init := services[..|services| - 1];
      ServiceSharesKeys(totals, population, init);
      assert forall k :: 0 <= k < |init| ==> init[k] == services[k];
    }
  }

  /** A province gives a row exactly when its three count columns can be read and its table has a first row. */
  lemma EssentialRowsOkIff(name: string, file: string, t: seq<RawRow>)
    ensures EssentialRows(name, file, t).Ok? <==>
              |t| > 0 && forall i :: 0 <= i < |t| ==>
                CleanCount(t[i].total).Some? && CleanCount(t[i].men).Some? && CleanCount(t[i].women).Some?
  {
    var cols := [TotalGender, Men, Women];
    assert EssentialRows(name, file, t).Ok? <==> CleanAll(t, cols).Ok? && |t| > 0;
    CleanAllOkIff(t, cols);
    assert CleanAll(t, cols).Ok? <==>
             CleanColumn(t, TotalGender).Ok? && CleanColumn(t, Men).Ok? && CleanColumn(t, Women).Ok?
    by {
      assert cols[0] == TotalGender && cols[1] == Men && cols[2] == Women;
    }
    CleanColumnOkIff(t, TotalGender);
    CleanColumnOkIff(t, Men);
    CleanColumnOkIff(t, Women);
    assert forall i :: 0 <= i < |t| ==>
      Cell(t[i], TotalGender) == t[i].total && Cell(t[i], Men) == t[i].men && Cell(t[i], Women) == t[i].women;
  }

  /**
   * The row a province gives names the province and its abbreviation, and holds
   * one entry per service: the sum of the totals of the rows whose label
   * contains one of the service's codes, divided by the first row's total.
   * That quotient is a number exactly when the population is not 0.
   */
  lemma EssentialRowsValue(name: string, file: string, t: seq<RawRow>)
    requires EssentialRows(name, file, t).Ok?
    ensures CleanColumn(t, TotalGender).Ok? && |t| > 0 && CleanCount(t[0].total).Some?
    ensures var rows := EssentialRows(name, file, t).value;
            var totals := CleanColumn(t, TotalGender).value;
            var population := CleanCount(t[0].total).value;
            |rows| == 1 && rows[0].province == name && rows[0].abbrev == AbbrevOf(name) &&
            (forall s :: s in rows[0].shares <==>
               exists k :: 0 <= k < |EssentialOccupations| && EssentialOccupations[k].0 == s) &&
            forall k :: 0 <= k < |EssentialOccupations| ==>
              rows[0].shares[EssentialOccupations[k].0] == Divide(SumWhere(totals, AnyCode(EssentialOccupations[k].1)), population) &&
              (rows[0].shares[EssentialOccupations[k].0].Finite? <==> population > 0)
  {
    var cols := [TotalGender, Men, Women];
    CleanAllOkIff(t, cols);
    CleanAllValues(t, cols);
    CleanColumnValues(t, TotalGender);
    var totals := CleanColumn(t, TotalGender).value;
    assert totals == CleanAll(t, cols).value[TotalGender];
    var population := CleanCount(t[0].total).value;
    assert totals[0].count == population;
    GroupNamesDistinct();
    ServiceSharesKeys(totals, population, EssentialOccupations);
    var shares := ServiceShares(totals, population, EssentialOccupations);
    forall k | 0 <= k < |EssentialOccupations|
      ensures EssentialOccupations[k].0 in shares
      ensures shares[EssentialOccupations[k].0] == Divide(SumWhere(totals, AnyCode(EssentialOccupations[k].1)), population)
    {
      ServiceSharesAt(totals, population, EssentialOccupations, k);
    }
  }

  /** A successful run has one row per province, in the order visited, each naming its province. */
  lemma EssentialTableShape(files: map<string, seq<RawRow>>, ps: seq<(string, string)>)
    requires Gather(files, ps, EssentialRows).Ok?
    ensures var rows := Gather(files, ps, EssentialRows).value;
            |rows| == |ps| &&
            forall k :: 0 <= k < |rows| ==> rows[k].province == ps[k].0 && rows[k].abbrev == AbbrevOf(ps[k].0)
  {
    forall k | 0 <= k < |ps| && Province(files, ps[k], EssentialRows).Ok?
      ensures |Province(files, ps[k], EssentialRows).value| == 1
    {
      EssentialRowsValue(ps[k].0, ps[k].1, files[ps[k].1]);
    }
    GatherFixedWidth(files, ps, EssentialRows, 1);
    var rows := Gather(files, ps, EssentialRows).value;
    forall k | 0 <= k < |rows|
      ensures rows[k].province == ps[k].0 && rows[k].abbrev == AbbrevOf(ps[k].0)
    {
      EssentialRowsValue(ps[k].0, ps[k].1, files[ps[k].1]);
      assert rows[k] == rows[k..k + 1][0];
    }
  }

  /** A province's row: one row, for the named province, with its abbreviation, and a population read from the first total. */
  lemma EssentialRowShape(name: string, file: string, t: seq<RawRow>)
    requires EssentialRows(name, file, t).Ok?
    ensures CleanColumn(t, TotalGender).Ok? && |t| > 0 && CleanCount(t[0].total).Some?
    ensures var rows := EssentialRows(name, file, t).value;
            |rows| == 1 && rows[0].province == name && rows[0].abbrev == AbbrevOf(name)
  {
    EssentialRowsValue(name, file, t);
  }

  /** Service k's entry in a province's row: its matched totals over the population. */
  lemma EssentialShareAt(name: string, file: string, t: seq<RawRow>, k: nat)
    requires EssentialRows(name, file, t).Ok? && k < |EssentialOccupations|
    ensures CleanColumn(t, TotalGender).Ok? && |t| > 0 && CleanCount(t[0].total).Some?
    ensures var shares := EssentialRows(name, file, t).value[0].shares;
            EssentialOccupations[k].0 in shares &&
            shares[EssentialOccupations[k].0] ==
              Divide(SumWhere(CleanColumn(t, TotalGender).value, AnyCode(EssentialOccupations[k].1)),
                     CleanCount(t[0].total).value)
  {
    EssentialRowsValue(name, file, t);
    assert EssentialOccupations[k].0 in EssentialRows(name, file, t).value[0].shares;
  }

  // ---------------------------------------------------------------------------
  // A worked example: a population of 10,000 with 1,000 registered nurses and
  // 500 police officers. Every count column holds a cell with a separator, so
  // each column is read as text.

  const ExampleTable: seq<RawRow> := [
    RawRow("Total", "10,000", "5,000", "5,000"),
    RawRow("31301 Registered nurses", "1,000", "100", "900"),
    RawRow("42100 Police officers", "500", "400", "100")
  ]

  /** The cells of the example's total row. */
  lemma ExampleTotalCells()
    ensures CleanCount("10,000") == Some(10000) && CleanCount("5,000") == Some(5000)
  {
    assert Pad3(0) == "000";
    assert Grouped(10000) == "10,000" by {
      assert Grouped(10) == "10";
    }
    assert Grouped(5000) == "5,000" by {
      assert Grouped(5) == "5";
    }
    GroupedRoundTrip(10000);
    GroupedRoundTrip(5000);
  }

  /** The cells of the example's nurses row. */
  lemma ExampleNursesCells()
    ensures CleanCount("1,000") == Some(1000) && CleanCount("100") == Some(100) && CleanCount("900") == Some(900)
  {
    assert Pad3(0) == "000";
    assert Grouped(1000) == "1,000" by {
      assert Grouped(1) == "1";
    }
    assert Grouped(100) == "100" && Grouped(900) == "900";
    GroupedRoundTrip(1000);
    GroupedRoundTrip(100);
    GroupedRoundTrip(900);
  }

  /** The cells of the example's police row. */
  lemma ExamplePoliceCells()
    ensures CleanCount("500") == Some(500) && CleanCount("400") == Some(400) && CleanCount("100") == Some(100)
  {
    assert Grouped(500) == "500" && Grouped(400) == "400" && Grouped(100) == "100";
    GroupedRoundTrip(500);
    GroupedRoundTrip(400);
    GroupedRoundTrip(100);
  }

  /** Every occupation code of a service is five digits long. */
  lemma EssentialCodesFiveDigits(k: nat)
    requires k < |EssentialOccupations|
    ensures forall j :: 0 <= j < |EssentialOccupations[k].1| ==>
              |EssentialOccupations[k].1[j]| == 5 && AllDigits(EssentialOccupations[k].1[j])
  {
  }

  /** The total row matches no service. */
  lemma {:induction false} ExampleTotalMatchesNone(k: nat)
    requires k < |EssentialOccupations|
    ensures !MatchesAnyCode("Total", EssentialOccupations[k].1)
  {
    EssentialCodesFiveDigits(k);
    NoDigitMatchesNoGroup("Total", EssentialOccupations[k].1);
  }

  /** The nurses row matches the nurses service only. */
  lemma {:induction false} ExampleNursesMatch(k: nat)
    requires k < |EssentialOccupations|
    ensures MatchesAnyCode("31301 Registered nurses", EssentialOccupations[k].1) == (k == 0)
  {
    EssentialCodesFiveDigits(k);
    assert "31301 Registered nurses" == "31301" + " Registered nurses";
    UnitLabelMatchesGroup("31301", " Registered nurses", EssentialOccupations[k].1);
  }

  /** The police row matches the police service only. */
  lemma {:induction false} ExamplePoliceMatch(k: nat)
    requires k < |EssentialOccupations|
    ensures MatchesAnyCode("42100 Police officers", EssentialOccupations[k].1) == (k == 1)
  {
    EssentialCodesFiveDigits(k);
    assert "42100 Police officers" == "42100" + " Police officers";
    UnitLabelMatchesGroup("42100", " Police officers", EssentialOccupations[k].1);
  }

  /** Every cell of the example reads as a count. */
  lemma {:induction false} ExampleCellsRead(t: seq<RawRow>)
    requires t == ExampleTable
    ensures forall i :: 0 <= i < |t| ==>
              CleanCount(t[i].total).Some? && CleanCount(t[i].men).Some? && CleanCount(t[i].women).Some?
  {
    forall i | 0 <= i < |t|
      ensures CleanCount(t[i].total).Some? && CleanCount(t[i].men).Some? && CleanCount(t[i].women).Some?
    {
      if i == 0 {
        assert t[i] == RawRow("Total", "10,000", "5,000", "5,000");
        ExampleTotalCells();
      } else if i == 1 {
        assert t[i] == RawRow("31301 Registered nurses", "1,000", "100", "900");
        ExampleNursesCells();
      } else {
        assert t[i] == RawRow("42100 Police officers", "500", "400", "100");
        ExamplePoliceCells();
      }
    }
  }

  /** Every cell of the example reads as a count, so Alberta gives its row. */
  lemma {:induction false} ExampleReadable(t: seq<RawRow>)
    requires t == ExampleTable
    ensures EssentialRows("Alberta", "Alberta.csv", t).Ok?
  {
    ExampleCellsRead(t);
    EssentialRowsOkIff("Alberta", "Alberta.csv", t);
  }

  /** The example's total column reads 10000, 1000 and 500. */
  lemma {:induction false} ExampleCleans(t: seq<RawRow>)
    requires t == ExampleTable
    ensures EssentialRows("Alberta", "Alberta.csv", t).Ok?
    ensures CleanColumn(t, TotalGender).Ok? && |CleanColumn(t, TotalGender).value| == 3
    ensures var es := CleanColumn(t, TotalGender).value;
            es[0] == Entry("Total", 10000) &&
            es[1] == Entry("31301 Registered nurses", 1000) &&
            es[2] == Entry("42100 Police officers", 500)
  {
    ExampleReadable(t);
    ExampleCellsRead(t);
    CleanColumnOkIff(t, TotalGender);
    CleanColumnValues(t, TotalGender);
    ExampleTotalCells();
    ExampleNursesCells();
    ExamplePoliceCells();
    assert Cell(t[0], TotalGender) == "10,000" && Cell(t[1], TotalGender) == "1,000" && Cell(t[2], TotalGender) == "500";
  }

  /** Nurses select the second row, police the third, firefighters none. */
  lemma {:induction false} ExampleSums(es: seq<Entry>, k: nat)
    requires |es| == 3 && k < |EssentialOccupations|
    requires es[0] == Entry("Total", 10000)
    requires es[1] == Entry("31301 Registered nurses", 1000)
    requires es[2] == Entry("42100 Police officers", 500)
    ensures SumWhere(es, AnyCode(EssentialOccupations[k].1)) == if k == 0 then 1000 else if k == 1 then 500 else 0
  {
    var m := AnyCode(EssentialOccupations[k].1);
    assert es == [es[0]] + [es[1]] + [es[2]];
    ExampleTotalMatchesNone(k);
    ExampleNursesMatch(k);
    ExamplePoliceMatch(k);
    SumWhereConcat([es[0]] + [es[1]], [es[2]], m);
    SumWhereConcat([es[0]], [es[1]], m);
    SumWhereSingle(es[0], m);
    SumWhereSingle(es[1], m);
    SumWhereSingle(es[2], m);
  }

  /** Any table whose total column cleans to the example's totals gives the example's ratios. */
  lemma {:induction false} ExampleShares(name: string, file: string, t: seq<RawRow>)
    requires EssentialRows(name, file, t).Ok?
    requires CleanColumn(t, TotalGender).Ok? && |CleanColumn(t, TotalGender).value| == 3
    requires var es := CleanColumn(t, TotalGender).value;
             es[0] == Entry("Total", 10000) &&
             es[1] == Entry("31301 Registered nurses", 1000) &&
             es[2] == Entry("42100 Police officers", 500)
    ensures |EssentialRows(name, file, t).value| == 1
    ensures EssentialRows(name, file, t).value[0].abbrev == AbbrevOf(name)
    ensures var shares := EssentialRows(name, file, t).value[0].shares;
            "Nurses" in shares && "Police" in shares && "Firefighters" in shares &&
            shares["Nurses"] == Finite(0.1) &&
            shares["Police"] == Finite(0.05) &&
            shares["Firefighters"] == Finite(0.0)
  {
    EssentialRowShape(name, file, t);
    var es := CleanColumn(t, TotalGender).value;
    CleanColumnValues(t, TotalGender);
    assert Cell(t[0], TotalGender) == t[0].total;
    assert CleanCount(t[0].total) == Some(10000);
    assert Divide(1000, 10000) == Finite(0.1) && Divide(500, 10000) == Finite(0.05) && Divide(0, 10000) == Finite(0.0);
    assert EssentialOccupations[0].0 == "Nurses" && EssentialOccupations[1].0 == "Police" &&
           EssentialOccupations[2].0 == "Firefighters";
    EssentialShareAt(name, file, t, 0);
    ExampleSums(es, 0);
    EssentialShareAt(name, file, t, 1);
    ExampleSums(es, 1);
    EssentialShareAt(name, file, t, 2);
    ExampleSums(es, 2);
  }

  /** The example table for Alberta gives Nurses 0.1, Police 0.05 and Firefighters 0. */
  lemma {:induction false} EssentialExample(t: seq<RawRow>)
    requires t == ExampleTable
    ensures EssentialRows("Alberta", "Alberta.csv", t).Ok?
    ensures |EssentialRows("Alberta", "Alberta.csv", t).value| == 1
    ensures var row := EssentialRows("Alberta", "Alberta.csv", t).value[0];
            row.abbrev == Some("AB") &&
            "Nurses" in row.shares && "Police" in row.shares && "Firefighters" in row.shares &&
            row.shares["Nurses"] == Finite(0.1) &&
            row.shares["Police"] == Finite(0.05) &&
            row.shares["Firefighters"] == Finite(0.0)
  {
    assert AbbrevOf("Alberta") == Some("AB");
    ExampleCleans(t);
    ExampleShares("Alberta", "Alberta.csv", t);
  }
}
