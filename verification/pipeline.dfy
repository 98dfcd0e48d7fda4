/**
 * The dashboard's start-up: the four derived tables built one after another
 * from the same province files (essential services, gender by category,
 * engineers, occupation percentages). The first failure stops the run.
 */
module Pipeline {
  import opened Counts
  import opened Labels
  import opened Lookup
  import opened Frames
  import opened Essential
  import opened Gender
  import opened Engineers
  import opened Occupations

  /** The four tables the charts draw from. */
  datatype Dashboard = Dashboard(essential: seq<EssentialRow>, gender: seq<GenderRow>,
                                 engineers: seq<EngineerRow>, occupations: seq<OccupationRow>)

  /** The four tables over the given provinces, or the first error. */
  function BuildTables(files: map<string, seq<RawRow>>, ps: seq<(string, string)>): Result<Dashboard, Error> {
    match Gather(files, ps, EssentialRows)
    case Err(e) => Err(e)
    case Ok(essential) =>
      match Gather(files, ps, GenderRows)
      case Err(e) => Err(e)
      case Ok(gender) =>
        match Gather(files, ps, EngineerRows)
        case Err(e) => Err(e)
        case Ok(engineers) =>
          match Gather(files, ps, OccupationRows)
          case Err(e) => Err(e)
          case Ok(occupations) => Ok(Dashboard(essential, gender, engineers, occupations))
  }

  /** A table every one of whose cells can be read and that has a first row. */
  predicate Readable(t: seq<RawRow>) {
    |t| > 0 && forall i :: 0 <= i < |t| ==>
      CleanCount(t[i].total).Some? && CleanCount(t[i].men).Some? && CleanCount(t[i].women).Some?
  }

  /** Every province listed has an abbreviation. */
  predicate KnownProvinces(ps: seq<(string, string)>) {
    forall k :: 0 <= k < |ps| ==> ps[k].0 in ProvinceAbbrev
  }

  /** Building the tables one after another, as the module-level statements of the source do. */
  method RunTables(files: map<string, seq<RawRow>>, ps: seq<(string, string)>) returns (r: Result<Dashboard, Error>)
    ensures r == BuildTables(files, ps)
  {
    var essential := ProcessEssential(files, ps);
    if essential.Err? {
      return Err(essential.error);
    }
    var gender := ProcessGender(files, ps);
    if gender.Err? {
      return Err(gender.error);
    }
    var engineers := ProcessEngineers(files, ps);
    if engineers.Err? {
      return Err(engineers.error);
    }
    var occupations := ProcessOccupations(files, ps);
    if occupations.Err? {
      return Err(occupations.error);
    }
    r := Ok(Dashboard(essential.value, gender.value, engineers.value, occupations.value));
  }

  /** The dashboard's data: the four tables over the thirteen provinces and territories. */
  method RunDashboard(files: map<string, seq<RawRow>>) returns (r: Result<Dashboard, Error>)
    ensures r == BuildTables(files, ProvinceFiles)
  {
    r := RunTables(files, ProvinceFiles);
  }

  // ---------------------------------------------------------------------------
  // What a run gives.

  /** The thirteen provinces all have abbreviations. */
  lemma ProvinceFilesKnown()
    ensures KnownProvinces(ProvinceFiles)
  {
    ProvinceAbbrevInjective();
  }

  /** A readable table has a first row, a readable total column and readable men and women columns. */
  lemma ReadableSplits(t: seq<RawRow>)
    ensures Readable(t) <==>
              |t| > 0 && (forall i :: 0 <= i < |t| ==> CleanCount(t[i].total).Some?) &&
              (forall i :: 0 <= i < |t| ==> CleanCount(t[i].men).Some? && CleanCount(t[i].women).Some?)
  {
  }

  /** For any province, the essential-services table gives its row exactly when its file is there and readable. */
  lemma {:induction false} ProvinceEssentialOkIff(files: map<string, seq<RawRow>>, p: (string, string))
    ensures Province(files, p, EssentialRows).Ok? <==> p.1 in files && Readable(files[p.1])
  {
    if p.1 in files {
      var t := files[p.1];
      assert Province(files, p, EssentialRows) == EssentialRows(p.0, p.1, t);
      EssentialRowsOkIff(p.0, p.1, t);
    }
  }

  /** For a province with an abbreviation and a readable file, the other three tables give their rows. */
  lemma {:induction false} ProvinceOthersOk(files: map<string, seq<RawRow>>, p: (string, string))
    requires p.0 in ProvinceAbbrev
    requires p.1 in files && Readable(files[p.1])
    ensures Province(files, p, GenderRows).Ok? && Province(files, p, EngineerRows).Ok? &&
            Province(files, p, OccupationRows).Ok?
  {
    var t := files[p.1];
    ReadableSplits(t);
    assert Province(files, p, GenderRows) == GenderRows(p.0, p.1, t);
    GenderRowsOkIff(p.0, p.1, t);
    assert Province(files, p, EngineerRows) == EngineerRows(p.0, p.1, t);
    EngineerRowsOkIff(p.0, p.1, t);
    assert Province(files, p, OccupationRows) == OccupationRows(p.0, p.1, t);
    OccupationRowsOkIff(p.0, p.1, t);
  }

  /** For a province with an abbreviation, each table gives its rows exactly when its file is readable. */
  lemma {:induction false} ProvinceOkIff(files: map<string, seq<RawRow>>, p: (string, string))
    requires p.0 in ProvinceAbbrev
    ensures (Province(files, p, EssentialRows).Ok? && Province(files, p, GenderRows).Ok? &&
             Province(files, p, EngineerRows).Ok? && Province(files, p, OccupationRows).Ok?) <==>
            p.1 in files && Readable(files[p.1])
    ensures Province(files, p, EssentialRows).Ok? <==> p.1 in files && Readable(files[p.1])
    ensures p.1 in files && Readable(files[p.1]) ==>
              Province(files, p, GenderRows).Ok? && Province(files, p, EngineerRows).Ok? &&
              Province(files, p, OccupationRows).Ok?
  {
    ProvinceEssentialOkIff(files, p);
    if p.1 in files && Readable(files[p.1]) {
      ProvinceOthersOk(files, p);
    }
  }

  /**
   * A run over provinces that all have abbreviations succeeds exactly when
   * every province's file is there, has a first row and every count cell of
   * it can be read.
   */
  lemma {:induction false} BuildTablesOkIff(files: map<string, seq<RawRow>>, ps: seq<(string, string)>)
    requires KnownProvinces(ps)
    ensures BuildTables(files, ps).Ok? <==> forall k :: 0 <= k < |ps| ==> ps[k].1 in files && Readable(files[ps[k].1])
  {
    GatherOkIff(files, ps, EssentialRows);
    GatherOkIff(files, ps, GenderRows);
    GatherOkIff(files, ps, EngineerRows);
    GatherOkIff(files, ps, OccupationRows);
    forall k | 0 <= k < |ps| {
      ProvinceOkIff(files, ps[k]);
    }
  }

  /**
   * A successful run has one essential-services row and one engineers row
   * per province and nine occupation rows per province, and every
   * essential-services row has its abbreviation.
   */
  lemma {:induction false} BuildTablesShape(files: map<string, seq<RawRow>>, ps: seq<(string, string)>)
    requires KnownProvinces(ps)
    requires BuildTables(files, ps).Ok?
    ensures var d := BuildTables(files, ps).value;
            |d.essential| == |ps| && |d.engineers| == |ps| && |d.occupations| == 9 * |ps| &&
            forall k :: 0 <= k < |ps| ==> d.essential[k].province == ps[k].0 && d.essential[k].abbrev.Some?
  {
    EssentialTableShape(files, ps);
    EngineerTableShape(files, ps);
    OccupationTableShape(files, ps);
  }

  /**
   * With the thirteen provinces the lookups never fail: a run stops only on
   * a missing file, an unreadable count cell or an empty table, and a
   * successful one has 13, 13 and 117 rows in its essential-services,
   * engineers and occupation tables.
   */
  lemma DashboardOkIff(files: map<string, seq<RawRow>>)
    ensures BuildTables(files, ProvinceFiles).Ok? <==>
              forall k :: 0 <= k < |ProvinceFiles| ==> ProvinceFiles[k].1 in files && Readable(files[ProvinceFiles[k].1])
    ensures BuildTables(files, ProvinceFiles).Ok? ==>
              var d := BuildTables(files, ProvinceFiles).value;
              |d.essential| == 13 && |d.engineers| == 13 && |d.occupations| == 117
  {
    ProvinceFilesKnown();
    ProvinceFilesDistinct();
    BuildTablesOkIff(files, ProvinceFiles);
    if BuildTables(files, ProvinceFiles).Ok? {
      BuildTablesShape(files, ProvinceFiles);
    }
  }
}
