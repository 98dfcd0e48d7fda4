/**
 * The gender-by-category table: for each province and each of the ten broad
 * occupation categories that some label of the province's table starts
 * with ("<code> "), the men and women counted under that category, their
 * total, and each gender's share of the total (0 when the total is 0).
 */
module Gender {
  import opened Counts
  import opened Labels
  import opened Lookup
  import opened Frames
  import opened Ratios

  /** One row of the table. */
  datatype GenderRow = GenderRow(province: string, abbrev: string, category: string, code: nat,
                                 menShare: real, womenShare: real, total: nat)

  /** The categories, in their order, that select a non-empty part of the table. */
  function MatchedCategories(t: seq<RawRow>, cats: seq<(nat, string)>): seq<(nat, string)> {
    if cats == [] then []
    else
      var last := cats[|cats| - 1];
      MatchedCategories(t, cats[..|cats| - 1]) + (if AnyMatch(t, CategoryPrefix(last.0)) then [last] else [])
  }

  /**
   * The inner loop over the categories: one row per category whose mask is
   * not empty. The abbreviation is looked up only for such a row, so an
   * unknown province fails only when it has a row to give.
   */
  function CategoryRows(name: string, t: seq<RawRow>, men: seq<Entry>, women: seq<Entry>,
                        cats: seq<(nat, string)>): Result<seq<GenderRow>, Error>
  {
    if cats == [] then Ok([])
    else
      match CategoryRows(name, t, men, women, cats[..|cats| - 1])
      case Err(e) => Err(e)
      case Ok(acc) =>
        var (code, category) := cats[|cats| - 1];
        if !AnyMatch(t, CategoryPrefix(code)) then Ok(acc)
        else if name !in ProvinceAbbrev then Err(UnknownProvince(name))
        else Ok(acc + [CategoryRow(name, men, women, (code, category))])
  }

  /** The row of one category: the men and the women of the rows it selects, their total and their shares of it. */
  function CategoryRow(name: string, men: seq<Entry>, women: seq<Entry>, cat: (nat, string)): GenderRow
    requires name in ProvinceAbbrev
  {
    var m, w := SumWhere(men, CategoryPrefix(cat.0)), SumWhere(women, CategoryPrefix(cat.0));
    GenderRow(name, ProvinceAbbrev[name], cat.1, cat.0, Share(m, m + w), Share(w, m + w), m + w)
  }

  /** The rows one province gives: clean the two gender columns, then visit the categories. */
  function GenderRows(name: string, file: string, t: seq<RawRow>): Result<seq<GenderRow>, Error> {
    match CleanAll(t, [Men, Women])
    case Err(e) => Err(BadCount(file, e.0, e.1))
    case Ok(cols) => CategoryRows(name, t, cols[Men], cols[Women], NocCategories)
  }

  /**
   * What a row says about its category: it names the province, its
   * abbreviation and the category; its total is the men plus the women of
   * the rows the category selects; and each share is that gender's part of
   * the total.
   */
  predicate RowDescribes(r: GenderRow, name: string, men: seq<Entry>, women: seq<Entry>, cat: (nat, string)) {
    var m, w := SumWhere(men, CategoryPrefix(cat.0)), SumWhere(women, CategoryPrefix(cat.0));
    r.province == name && name in ProvinceAbbrev && r.abbrev == ProvinceAbbrev[name] &&
    r.code == cat.0 && r.category == cat.1 && r.total == m + w &&
    r.menShare == Share(m, r.total) && r.womenShare == Share(w, r.total)
  }

  /** The two shares of a row split its total: they add to 1, or are both 0 when the total is 0. */
  predicate SplitsTotal(r: GenderRow) {
    (r.total > 0 ==> r.menShare + r.womenShare == 1.0) &&
    (r.total == 0 ==> r.menShare == 0.0 && r.womenShare == 0.0) &&
    0.0 <= r.menShare <= 1.0 && 0.0 <= r.womenShare <= 1.0
  }

  // ---------------------------------------------------------------------------
  // The loops of the source.

  /** The category loop, over any list of categories. */
  method CategoryLoop(name: string, t: seq<RawRow>, men: seq<Entry>, women: seq<Entry>, cats: seq<(nat, string)>)
    returns (r: Result<seq<GenderRow>, Error>)
    ensures r == CategoryRows(name, t, men, women, cats)
  {
    var acc: seq<GenderRow> := [];
    for k := 0 to |cats|
      invariant CategoryRows(name, t, men, women, cats[..k]) == Ok(acc)
    {
      assert cats[..k + 1][..k] == cats[..k];
      var (code, category) := cats[k];
      if AnyMatch(t, CategoryPrefix(code)) {
        if name !in ProvinceAbbrev {
          CategoryRowsErrSticks(name, t, men, women, cats, k + 1);
          return Err(UnknownProvince(name));
        }
        var m, w := SumWhere(men, CategoryPrefix(code)), SumWhere(women, CategoryPrefix(code));
        acc := acc + [GenderRow(name, ProvinceAbbrev[name], category, code, Share(m, m + w), Share(w, m + w), m + w)];
      }
    }
    assert cats[..|cats|] == cats;
    r := Ok(acc);
  }

  /** One pass of the province loop: clean the gender columns, then visit the ten categories. */
  method GenderForProvince(name: string, file: string, t: seq<RawRow>) returns (r: Result<seq<GenderRow>, Error>)
    ensures r == GenderRows(name, file, t)
  {
    var cleaned := CleanColumns(t, [Men, Women]);
    if cleaned.Err? {
      return Err(BadCount(file, cleaned.error.0, cleaned.error.1));
    }
    assert Men in [Men, Women] && Women in [Men, Women];
    r := CategoryLoop(name, t, cleaned.value[Men], cleaned.value[Women], NocCategories);
  }

  /** `process_task2_data`: the provinces visited in order, their category rows concatenated. */
  method ProcessGender(files: map<string, seq<RawRow>>, ps: seq<(string, string)>) returns (r: Result<seq<GenderRow>, Error>)
    ensures r == Gather(files, ps, GenderRows)
  {
    var acc: seq<GenderRow> := [];
    for k := 0 to |ps|
      invariant Gather(files, ps[..k], GenderRows) == Ok(acc)
    {
      GatherStep(files, ps, GenderRows, k);
      var (name, file) := ps[k];
      if file !in files {
        GatherErrSticks(files, ps, GenderRows, k + 1);
        return Err(MissingFile(file));
      }
      var rows := GenderForProvince(name, file, files[file]);
      if rows.Err? {
        GatherErrSticks(files, ps, GenderRows, k + 1);
        return Err(rows.error);
      }
      acc := acc + rows.value;
    }
    assert ps[..|ps|] == ps;
    r := Ok(acc);
  }

  // ---------------------------------------------------------------------------
  // What the table means.

  /** Once the category loop fails, it fails with that error to the end. */
  lemma {:induction false} CategoryRowsErrSticks(name: string, t: seq<RawRow>, men: seq<Entry>, women: seq<Entry>,
                                                 cats: seq<(nat, string)>, k: nat)
    requires k <= |cats| && CategoryRows(name, t, men, women, cats[..k]).Err?
    ensures CategoryRows(name, t, men, women, cats) == CategoryRows(name, t, men, women, cats[..k])
    decreases |cats| - k
  {
    if k < |cats| {
      var init := cats[..|cats| - 1];
      assert init[..k] == cats[..k];
      CategoryRowsErrSticks(name, t, men, women, init, k);
    } else {
      assert cats[..k] == cats;
    }
  }

  /** A category is kept exactly when it is listed and some label of the table starts with its code and a space. */
  lemma {:induction false} MatchedCategoriesMembers(t: seq<RawRow>, cats: seq<(nat, string)>)
    ensures forall x :: x in MatchedCategories(t, cats) <==> x in cats && AnyMatch(t, CategoryPrefix(x.0))
    decreases |cats|
  {
    if cats != [] {
      var init := cats[..|cats| - 1];
      MatchedCategoriesMembers(t, init);
      assert cats == init + [cats[|cats| - 1]];
    }
  }

  /** Keeping categories keeps their order: codes that increase along the list increase along what is kept. */
  lemma {:induction false} MatchedCategoriesOrdered(t: seq<RawRow>, cats: seq<(nat, string)>)
    requires forall i, j :: 0 <= i < j < |cats| ==> cats[i].0 < cats[j].0
    ensures forall i, j :: 0 <= i < j < |MatchedCategories(t, cats)| ==>
              MatchedCategories(t, cats)[i].0 < MatchedCategories(t, cats)[j].0
    decreases |cats|
  {
    if cats != [] {
      var init := cats[..|cats| - 1];
      var last := cats[|cats| - 1];
      MatchedCategoriesOrdered(t, init);
      MatchedCategoriesMembers(t, init);
      var kept := MatchedCategories(t, init);
      forall i | 0 <= i < |kept| ensures kept[i].0 < last.0 {
        assert kept[i] in init;
      }
    }
  }

  /**
   * The category loop succeeds unless a category has rows and the province
   * has no abbreviation, and then fails on the unknown province.
   */
  lemma {:induction false} CategoryRowsOkIff(name: string, t: seq<RawRow>, men: seq<Entry>, women: seq<Entry>,
                                             cats: seq<(nat, string)>)
    ensures CategoryRows(name, t, men, women, cats).Ok? <==> MatchedCategories(t, cats) == [] || name in ProvinceAbbrev
    ensures CategoryRows(name, t, men, women, cats).Err? ==>
              CategoryRows(name, t, men, women, cats).error == UnknownProvince(name)
    decreases |cats|
  {
    if cats != [] {
      var init, last := cats[..|cats| - 1], cats[|cats| - 1];
      CategoryRowsOkIff(name, t, men, women, init);
      var kept := MatchedCategories(t, init);
      if AnyMatch(t, CategoryPrefix(last.0)) {
        assert MatchedCategories(t, cats) == kept + [last];
      } else {
        assert MatchedCategories(t, cats) == kept;
      }
    }
  }

  /** A successful category loop gives one row per kept category, in order. */
  lemma {:induction false} CategoryRowsValue(name: string, t: seq<RawRow>, men: seq<Entry>, women: seq<Entry>,
                                             cats: seq<(nat, string)>)
    requires CategoryRows(name, t, men, women, cats).Ok?
    ensures var rows, kept := CategoryRows(name, t, men, women, cats).value, MatchedCategories(t, cats);
            |rows| == |kept| && (rows != [] ==> name in ProvinceAbbrev) &&
            forall j :: 0 <= j < |rows| ==> rows[j] == CategoryRow(name, men, women, kept[j])
    decreases |cats|
  {
    if cats != [] {
      var init, last := cats[..|cats| - 1], cats[|cats| - 1];
      CategoryRowsValue(name, t, men, women, init);
      var acc, kept := CategoryRows(name, t, men, women, init).value, MatchedCategories(t, init);
      if AnyMatch(t, CategoryPrefix(last.0)) {
        var row := CategoryRow(name, men, women, last);
        var rows, kept' := acc + [row], kept + [last];
        assert CategoryRows(name, t, men, women, cats).value == rows;
        assert MatchedCategories(t, cats) == kept';
        forall j | 0 <= j < |rows| ensures rows[j] == CategoryRow(name, men, women, kept'[j]) {
          if j < |acc| {
            assert rows[j] == acc[j] && kept'[j] == kept[j];
          } else {
            assert rows[j] == row && kept'[j] == last;
          }
        }
      } else {
        assert CategoryRows(name, t, men, women, cats).value == acc;
        assert MatchedCategories(t, cats) == kept;
      }
    }
  }

  /** A category's row describes that category. */
  lemma CategoryRowDescribes(name: string, men: seq<Entry>, women: seq<Entry>, cat: (nat, string))
    requires name in ProvinceAbbrev
    ensures RowDescribes(CategoryRow(name, men, women, cat), name, men, women, cat)
  {
  }

  /** Each row's two shares split its total. */
  lemma DescribedRowSplits(r: GenderRow, name: string, men: seq<Entry>, women: seq<Entry>, cat: (nat, string))
    requires RowDescribes(r, name, men, women, cat)
    ensures SplitsTotal(r)
  {
    SharesComplement(SumWhere(men, CategoryPrefix(cat.0)), SumWhere(women, CategoryPrefix(cat.0)));
  }

  /**
   * A province gives rows exactly when its gender cells can be read and,
   * should any category have rows, it has an abbreviation.
   */
  lemma {:induction false} GenderRowsOkIff(name: string, file: string, t: seq<RawRow>)
    ensures GenderRows(name, file, t).Ok? <==>
              (forall i :: 0 <= i < |t| ==> CleanCount(t[i].men).Some? && CleanCount(t[i].women).Some?) &&
              (MatchedCategories(t, NocCategories) == [] || name in ProvinceAbbrev)
  {
    var cols := [Men, Women];
    CleanAllOkIff(t, cols);
    assert CleanAll(t, cols).Ok? <==> CleanColumn(t, Men).Ok? && CleanColumn(t, Women).Ok? by {
      assert cols[0] == Men && cols[1] == Women;
    }
    CleanColumnOkIff(t, Men);
    CleanColumnOkIff(t, Women);
    assert forall i :: 0 <= i < |t| ==> Cell(t[i], Men) == t[i].men && Cell(t[i], Women) == t[i].women;
    if CleanAll(t, cols).Ok? {
      var v := CleanAll(t, cols).value;
      assert GenderRows(name, file, t) == CategoryRows(name, t, v[Men], v[Women], NocCategories);
      CategoryRowsOkIff(name, t, v[Men], v[Women], NocCategories);
    } else {
      assert GenderRows(name, file, t).Err?;
    }
  }

  /** Every row of a category table describes its category and splits its total, for categories with one-digit codes. */
  lemma {:induction false} CategoryRowsDescribe(name: string, t: seq<RawRow>, men: seq<Entry>, women: seq<Entry>,
                                                cats: seq<(nat, string)>)
    requires CategoryRows(name, t, men, women, cats).Ok?
    requires forall k :: 0 <= k < |cats| ==> cats[k].0 < 10
    ensures var rows, kept := CategoryRows(name, t, men, women, cats).value, MatchedCategories(t, cats);
            |rows| == |kept| &&
            forall j :: 0 <= j < |rows| ==>
              RowDescribes(rows[j], name, men, women, kept[j]) && SplitsTotal(rows[j]) && rows[j].code < 10
  {
    CategoryRowsValue(name, t, men, women, cats);
    MatchedCategoriesMembers(t, cats);
    var rows, kept := CategoryRows(name, t, men, women, cats).value, MatchedCategories(t, cats);
    forall j | 0 <= j < |rows|
      ensures RowDescribes(rows[j], name, men, women, kept[j])
      ensures SplitsTotal(rows[j]) && rows[j].code < 10
    {
      CategoryRowDescribes(name, men, women, kept[j]);
      DescribedRowSplits(rows[j], name, men, women, kept[j]);
      assert kept[j] in cats;
    }
  }

  /** Categories listed in increasing code order give rows in increasing code order. */
  lemma {:induction false} CategoryRowsOrdered(name: string, t: seq<RawRow>, men: seq<Entry>, women: seq<Entry>,
                                               cats: seq<(nat, string)>)
    requires CategoryRows(name, t, men, women, cats).Ok?
    requires forall i, j :: 0 <= i < j < |cats| ==> cats[i].0 < cats[j].0
    ensures var rows := CategoryRows(name, t, men, women, cats).value;
            forall i, j :: 0 <= i < j < |rows| ==> rows[i].code < rows[j].code
  {
    CategoryRowsValue(name, t, men, women, cats);
    MatchedCategoriesOrdered(t, cats);
  }

  /**
   * The rows of one province: one per category that some label starts with,
   * in category order, so no category appears twice; each counts the men and
   * women of the rows under its category and splits the total between them.
   */
  lemma GenderRowsValue(name: string, file: string, t: seq<RawRow>)
    requires GenderRows(name, file, t).Ok?
    ensures CleanColumn(t, Men).Ok? && CleanColumn(t, Women).Ok?
    ensures var rows := GenderRows(name, file, t).value;
            var kept := MatchedCategories(t, NocCategories);
            |rows| == |kept| &&
            (forall j :: 0 <= j < |rows| ==>
               RowDescribes(rows[j], name, CleanColumn(t, Men).value, CleanColumn(t, Women).value, kept[j]) &&
               SplitsTotal(rows[j]) && rows[j].code < 10) &&
            forall i, j :: 0 <= i < j < |rows| ==> rows[i].code < rows[j].code
  {
    CleanAllOkIff(t, [Men, Women]);
    CleanAllValues(t, [Men, Women]);
    var cols := CleanAll(t, [Men, Women]).value;
    assert Men in cols && Women in cols;
    var men, women := cols[Men], cols[Women];
    assert men == CleanColumn(t, Men).value && women == CleanColumn(t, Women).value;
    assert GenderRows(name, file, t) == CategoryRows(name, t, men, women, NocCategories);
    NocCategoriesWellFormed();
    CategoryRowsDescribe(name, t, men, women, NocCategories);
    CategoryRowsOrdered(name, t, men, women, NocCategories);
  }

  /** Every row of the whole table splits its total between men and women and names one of the ten categories. */
  lemma GenderTableSplits(files: map<string, seq<RawRow>>, ps: seq<(string, string)>, r: GenderRow)
    requires Gather(files, ps, GenderRows).Ok? && r in Gather(files, ps, GenderRows).value
    ensures SplitsTotal(r) && r.code < 10
    ensures exists k :: 0 <= k < |ps| && r.province == ps[k].0
  {
    GatherRowsFrom(files, ps, GenderRows, r);
    var k :| 0 <= k < |ps| && Province(files, ps[k], GenderRows).Ok? && r in Province(files, ps[k], GenderRows).value;
    var t := files[ps[k].1];
    GenderRowsValue(ps[k].0, ps[k].1, t);
    var rows := GenderRows(ps[k].0, ps[k].1, t).value;
    var j :| 0 <= j < |rows| && rows[j] == r;
  }
}
