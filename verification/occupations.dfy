/**
 * The occupation-percentage table: for each province and each broad
 * category 1 to 9 (category 0 is skipped), the total of the rows whose label
 * starts with the category's digit, as a percentage of the total of all the
 * province's rows (0 when that is 0). The row names the province by its
 * abbreviation and the category by the text after its first space.
 */
module Occupations {
  import opened Counts
  import opened Labels
  import opened Lookup
  import opened Frames
  import opened Ratios

  /** One row of the table; the percentage is kept exact, before rounding. */
  datatype OccupationRow = OccupationRow(province: string, occupation: string, percentage: real)

  /** `s.split(' ', 1)[1]`: the text after the first space. */
  function AfterFirstSpace(s: string): (r: string)
    requires ' ' in s
    ensures exists i :: 0 <= i < |s| && s[i] == ' ' && r == s[i + 1..] && ' ' !in s[..i]
  {
    if s[0] == ' ' then s[1..]
    else
      assert s == [s[0]] + s[1..];
      var r := AfterFirstSpace(s[1..]);
      var i :| 0 <= i < |s[1..]| && s[1..][i] == ' ' && r == s[1..][i + 1..] && ' ' !in s[1..][..i];
      assert s[..i + 1] == [s[0]] + s[1..][..i];
      r
  }

  predicate SpacedNames(cats: seq<(nat, string)>) {
    forall k :: 0 <= k < |cats| ==> ' ' in cats[k].1
  }

  /** The rows of one province for the given categories, category 0 left out. */
  function PercentRows(abbrev: string, totals: seq<Entry>, cats: seq<(nat, string)>): seq<OccupationRow>
    requires SpacedNames(cats)
  {
    if cats == [] then []
    else
      var (code, category) := cats[|cats| - 1];
      PercentRows(abbrev, totals, cats[..|cats| - 1]) +
      (if code == 0 then []
       else [OccupationRow(abbrev, AfterFirstSpace(category), Percent(SumWhere(totals, FirstChar(code)), SumAll(totals)))])
  }

  /**
   * The rows one province gives. The abbreviation is looked up before the
   * table is cleaned; no first row is needed, so an empty table gives nine
   * rows of 0.
   */
  function OccupationRows(name: string, file: string, t: seq<RawRow>): Result<seq<OccupationRow>, Error> {
    if name !in ProvinceAbbrev then Err(UnknownProvince(name))
    else
      match CleanColumn(t, TotalGender)
      case Err(i) => Err(BadCount(file, TotalGender, i))
      case Ok(totals) =>
        NocNamesSpaced();
        Ok(PercentRows(ProvinceAbbrev[name], totals, NocCategories))
  }

  /** Every category name holds a space, so the name after it can always be taken. */
  lemma NocNamesSpaced()
    ensures SpacedNames(NocCategories)
  {
    NocCategoriesWellFormed();
    forall k | 0 <= k < |NocCategories| ensures ' ' in NocCategories[k].1 {
      CategoryNameAfterCode(NocCategories[k].1, k);
    }
  }

  // ---------------------------------------------------------------------------
  // The loops of the source.

  /** The category loop, over any list of categories. */
  method CategoryLoop(abbrev: string, totals: seq<Entry>, cats: seq<(nat, string)>) returns (rows: seq<OccupationRow>)
    requires SpacedNames(cats)
    ensures rows == PercentRows(abbrev, totals, cats)
  {
    rows := [];
    for k := 0 to |cats|
      invariant rows == PercentRows(abbrev, totals, cats[..k])
    {
      assert cats[..k + 1][..k] == cats[..k];
      var (code, category) := cats[k];
      if code == 0 {
        continue;
      }
      var total := SumWhere(totals, FirstChar(code));
      var provinceTotal := SumAll(totals);
      rows := rows + [OccupationRow(abbrev, AfterFirstSpace(category), Percent(total, provinceTotal))];
    }
    assert cats[..|cats|] == cats;
  }

  /** One pass of the province loop: look up the abbreviation, clean the total column, visit the categories. */
  method OccupationsForProvince(name: string, file: string, t: seq<RawRow>) returns (r: Result<seq<OccupationRow>, Error>)
    ensures r == OccupationRows(name, file, t)
  {
    if name !in ProvinceAbbrev {
      return Err(UnknownProvince(name));
    }
    var abbrev := ProvinceAbbrev[name];
    var cleaned := CleanColumn(t, TotalGender);
    if cleaned.Err? {
      return Err(BadCount(file, TotalGender, cleaned.error));
    }
    NocNamesSpaced();
    var rows := CategoryLoop(abbrev, cleaned.value, NocCategories);
    r := Ok(rows);
  }

  /** `process_occupation_data`: the provinces visited in order, nine rows each. */
  method ProcessOccupations(files: map<string, seq<RawRow>>, ps: seq<(string, string)>) returns (r: Result<seq<OccupationRow>, Error>)
    ensures r == Gather(files, ps, OccupationRows)
  {
    var acc: seq<OccupationRow> := [];
    for k := 0 to |ps|
      invariant Gather(files, ps[..k], OccupationRows) == Ok(acc)
    {
      GatherStep(files, ps, OccupationRows, k);
      var (name, file) := ps[k];
      if file !in files {
        GatherErrSticks(files, ps, OccupationRows, k + 1);
        return Err(MissingFile(file));
      }
      var rows := OccupationsForProvince(name, file, files[file]);
      if rows.Err? {
        GatherErrSticks(files, ps, OccupationRows, k + 1);
        return Err(rows.error);
      }
      acc := acc + rows.value;
    }
    assert ps[..|ps|] == ps;
    r := Ok(acc);
  }

  // ---------------------------------------------------------------------------
  // The name after the first space.

  /** A name whose first part holds no space splits back into that part, a space and the rest. */
  lemma {:induction false} AfterFirstSpaceOf(head: string, rest: string)
    requires ' ' !in head
    ensures ' ' in head + " " + rest
    ensures AfterFirstSpace(head + " " + rest) == rest
    decreases |head|
  {
    var s := head + " " + rest;
    assert s[|head|] == ' ';
    if head == [] {
      assert s[1..] == rest;
    } else {
      assert s[0] == head[0];
      assert s[1..] == head[1..] + " " + rest;
      AfterFirstSpaceOf(head[1..], rest);
    }
  }

  /** A category name "k <name>" for a one-digit k holds a space, and the text after the first one is <name>. */
  lemma {:induction false} CategoryNameAfterCode(s: string, k: nat)
    requires k < 10 && HasCategoryPrefix(s, k)
    ensures ' ' in s
    ensures AfterFirstSpace(s) == s[2..]
    ensures s == NatToDigits(k) + " " + AfterFirstSpace(s)
  {
    DigitsOfSmall(k);
    assert s == [s[0]] + " " + s[2..] by {
      assert s[..2] == [DigitChar(k)] + " ";
      assert s[1] == s[..2][1];
    }
    AfterFirstSpaceOf([s[0]], s[2..]);
  }

  // ---------------------------------------------------------------------------
  // What the table means.

  /**
   * With category 0 listed first and every other code non-zero, the rows are
   * those of categories 1 onwards, in order: each gives the share, in
   * percent, of the rows whose label starts with the category's digit.
   */
  lemma {:induction false} PercentRowsAt(abbrev: string, totals: seq<Entry>, cats: seq<(nat, string)>)
    requires SpacedNames(cats) && |cats| > 0 && cats[0].0 == 0
    requires forall k :: 0 < k < |cats| ==> cats[k].0 != 0
    ensures |PercentRows(abbrev, totals, cats)| == |cats| - 1
    ensures forall j :: 0 <= j < |cats| - 1 ==>
              PercentRows(abbrev, totals, cats)[j] ==
                OccupationRow(abbrev, AfterFirstSpace(cats[j + 1].1),
                              Percent(SumWhere(totals, FirstChar(cats[j + 1].0)), SumAll(totals)))
    decreases |cats|
  {
    if |cats| > 1 {
      var init := cats[..|cats| - 1];
      assert forall k :: 0 <= k < |init| ==> init[k] == cats[k];
      PercentRowsAt(abbrev, totals, init);
    }
  }

  /** A province gives its rows exactly when it has an abbreviation and its total cells can be read. */
  lemma {:induction false} OccupationRowsOkIff(name: string, file: string, t: seq<RawRow>)
    ensures OccupationRows(name, file, t).Ok? <==>
              name in ProvinceAbbrev && forall i :: 0 <= i < |t| ==> CleanCount(t[i].total).Some?
  {
    CleanColumnOkIff(t, TotalGender);
  }

  /**
   * The rows a province gives: one for each category 1 to 9, in order, named
   * by its abbreviation; the percentage is the total of the rows whose label
   * starts with the category's digit out of the total of all rows, between 0
   * and 100, and 0 when the province total is 0.
   */
  lemma {:induction false} OccupationRowsValue(name: string, file: string, t: seq<RawRow>)
    requires OccupationRows(name, file, t).Ok?
    ensures name in ProvinceAbbrev && CleanColumn(t, TotalGender).Ok?
    ensures var rows := OccupationRows(name, file, t).value;
            var totals := CleanColumn(t, TotalGender).value;
            |rows| == 9 &&
            forall j :: 0 <= j < 9 ==>
              rows[j].province == ProvinceAbbrev[name] &&
              rows[j].percentage == Percent(SumWhere(totals, FirstChar(j + 1)), SumAll(totals)) &&
              0.0 <= rows[j].percentage <= 100.0 &&
              (SumAll(totals) == 0 ==> rows[j].percentage == 0.0)
  {
    var totals := CleanColumn(t, TotalGender).value;
    NocNamesSpaced();
    NocCategoriesWellFormed();
    PercentRowsAt(ProvinceAbbrev[name], totals, NocCategories);
    var rows := OccupationRows(name, file, t).value;
    forall j | 0 <= j < 9
      ensures 0.0 <= rows[j].percentage <= 100.0
    {
      assert SumWhere(totals, FirstChar(j + 1)) <= SumAll(totals);
    }
  }

  /** Row j is named after category j + 1: that category's label is its digit, a space and the row's name. */
  lemma {:induction false} OccupationRowsNames(name: string, file: string, t: seq<RawRow>)
    requires OccupationRows(name, file, t).Ok?
    ensures var rows := OccupationRows(name, file, t).value;
            |rows| == 9 &&
            forall j :: 0 <= j < 9 ==> NocCategories[j + 1].1 == NatToDigits(j + 1) + " " + rows[j].occupation
  {
    var totals := CleanColumn(t, TotalGender).value;
    NocNamesSpaced();
    NocCategoriesWellFormed();
    PercentRowsAt(ProvinceAbbrev[name], totals, NocCategories);
    var rows := OccupationRows(name, file, t).value;
    forall j | 0 <= j < 9
      ensures NocCategories[j + 1].1 == NatToDigits(j + 1) + " " + rows[j].occupation
    {
      CategoryNameAfterCode(NocCategories[j + 1].1, j + 1);
    }
  }

  /** A successful run has nine rows per province: province k's rows sit at 9k to 9k + 8. */
  lemma OccupationTableShape(files: map<string, seq<RawRow>>, ps: seq<(string, string)>)
    requires Gather(files, ps, OccupationRows).Ok?
    ensures var rows := Gather(files, ps, OccupationRows).value;
            |rows| == 9 * |ps| &&
            forall k :: 0 <= k < |ps| ==>
              ps[k].0 in ProvinceAbbrev &&
              forall j :: 9 * k <= j < 9 * k + 9 ==> rows[j].province == ProvinceAbbrev[ps[k].0]
  {
    forall k | 0 <= k < |ps| && Province(files, ps[k], OccupationRows).Ok?
      ensures |Province(files, ps[k], OccupationRows).value| == 9
    {
      OccupationRowsValue(ps[k].0, ps[k].1, files[ps[k].1]);
    }
    GatherFixedWidth(files, ps, OccupationRows, 9);
    var rows := Gather(files, ps, OccupationRows).value;
    forall k | 0 <= k < |ps|
      ensures ps[k].0 in ProvinceAbbrev
      ensures forall j :: 9 * k <= j < 9 * k + 9 ==> rows[j].province == ProvinceAbbrev[ps[k].0]
    {
      OccupationRowsValue(ps[k].0, ps[k].1, files[ps[k].1]);
      var mine := rows[9 * k..9 * k + 9];
      forall j | 9 * k <= j < 9 * k + 9 ensures rows[j].province == ProvinceAbbrev[ps[k].0] {
        assert rows[j] == mine[j - 9 * k];
      }
    }
  }

  // ---------------------------------------------------------------------------
  // The nine percentages together.

  /** The sum of the percentages of some rows. */
  function PercentTotal(rows: seq<OccupationRow>): real {
    if rows == [] then 0.0 else PercentTotal(rows[..|rows| - 1]) + rows[|rows| - 1].percentage
  }

  /** The codes of the categories that give a row. */
  function NonZeroCodes(cats: seq<(nat, string)>): seq<nat> {
    if cats == [] then []
    else
      var code := cats[|cats| - 1].0;
      NonZeroCodes(cats[..|cats| - 1]) + (if code == 0 then [] else [code])
  }

  /** The totals selected by each code, added up over the codes. */
  function CodesSum(es: seq<Entry>, codes: seq<nat>): nat {
    if codes == [] then 0
    else CodesSum(es, codes[..|codes| - 1]) + SumWhere(es, FirstChar(codes[|codes| - 1]))
  }

  /** One row's count, taken once for each code that selects it. */
  function RowPart(e: Entry, codes: seq<nat>): nat {
    if codes == [] then 0
    else RowPart(e, codes[..|codes| - 1]) + (if FirstCharIs(e.occupation, codes[|codes| - 1]) then e.count else 0)
  }

  predicate DistinctCodes(codes: seq<nat>) {
    forall i, j :: 0 <= i < j < |codes| ==> codes[i] != codes[j]
  }

  /** Adding up by code and then by row is adding up by row and then by code. */
  lemma {:induction false} CodesSumLastRow(es: seq<Entry>, codes: seq<nat>)
    requires es != []
    ensures CodesSum(es, codes) == CodesSum(es[..|es| - 1], codes) + RowPart(es[|es| - 1], codes)
    decreases |codes|
  {
    if codes != [] {
      CodesSumLastRow(es, codes[..|codes| - 1]);
    }
  }

  /** An empty column gives nothing under any code. */
  lemma {:induction false} CodesSumEmpty(codes: seq<nat>)
    ensures CodesSum([], codes) == 0
    decreases |codes|
  {
    if codes != [] {
      CodesSumEmpty(codes[..|codes| - 1]);
    }
  }

  /** Adding one more code adds its total. */
  lemma CodesSumSnoc(es: seq<Entry>, codes: seq<nat>, c: nat)
    ensures CodesSum(es, codes + [c]) == CodesSum(es, codes) + SumWhere(es, FirstChar(c))
  {
    assert (codes + [c])[..|codes|] == codes;
  }

  /** Adding one more row adds its percentage. */
  lemma PercentTotalSnoc(rows: seq<OccupationRow>, r: OccupationRow)
    ensures PercentTotal(rows + [r]) == PercentTotal(rows) + r.percentage
  {
    assert (rows + [r])[..|rows|] == rows;
  }

  /** One more row with its own percentage of the same whole adds its part to the whole's share. */
  lemma PercentTotalAddRow(rows: seq<OccupationRow>, r: OccupationRow, sum: nat, part: nat, whole: nat)
    requires PercentTotal(rows) == Percent(sum, whole) && r.percentage == Percent(part, whole)
    ensures PercentTotal(rows + [r]) == Percent(sum + part, whole)
  {
    PercentTotalSnoc(rows, r);
    PercentAdditive(sum, part, whole);
  }

  /** A row that no code selects counts nothing. */
  lemma {:induction false} RowPartUnselected(e: Entry, codes: seq<nat>)
    requires forall k :: 0 <= k < |codes| ==> !FirstCharIs(e.occupation, codes[k])
    ensures RowPart(e, codes) == 0
    decreases |codes|
  {
    if codes != [] {
      RowPartUnselected(e, codes[..|codes| - 1]);
    }
  }

  /** With distinct codes a row is selected at most once: a label has one first character. */
  lemma {:induction false} RowPartAtMostOnce(e: Entry, codes: seq<nat>)
    requires DistinctCodes(codes)
    ensures RowPart(e, codes) <= e.count
    decreases |codes|
  {
    if codes != [] {
      var init, last := codes[..|codes| - 1], codes[|codes| - 1];
      if FirstCharIs(e.occupation, last) {
        forall k | 0 <= k < |init| ensures !FirstCharIs(e.occupation, init[k]) {
          assert init[k] == codes[k] != codes[|codes| - 1] == last;
          FirstCharDeterminesCode(e.occupation, init[k], last);
        }
        RowPartUnselected(e, init);
      } else {
        RowPartAtMostOnce(e, init);
      }
    }
  }

  /**
   * The first-character classes of distinct codes are disjoint, so their
   * totals add up to no more than the whole column; a row that none of them
   * selects is left over on top.
   */
  lemma {:induction false} CodesSumBound(es: seq<Entry>, codes: seq<nat>, i: nat)
    requires DistinctCodes(codes)
    requires i < |es| ==> forall k :: 0 <= k < |codes| ==> !FirstCharIs(es[i].occupation, codes[k])
    ensures CodesSum(es, codes) <= SumAll(es)
    ensures i < |es| ==> CodesSum(es, codes) + es[i].count <= SumAll(es)
    decreases |es|
  {
    if es == [] {
      CodesSumEmpty(codes);
    } else {
      var init, last := es[..|es| - 1], es[|es| - 1];
      CodesSumLastRow(es, codes);
      if i == |es| - 1 {
        RowPartUnselected(last, codes);
        CodesSumBound(init, codes, |init|);
      } else {
        RowPartAtMostOnce(last, codes);
        if i < |init| {
          assert init[i] == es[i];
        }
        CodesSumBound(init, codes, i);
      }
    }
  }

  /** The percentages of the rows add up to the percentage of the codes' totals together. */
  lemma {:induction false} PercentRowsTotal(abbrev: string, totals: seq<Entry>, cats: seq<(nat, string)>)
    requires SpacedNames(cats)
    ensures PercentTotal(PercentRows(abbrev, totals, cats)) == Percent(CodesSum(totals, NonZeroCodes(cats)), SumAll(totals))
    decreases |cats|
  {
    if cats != [] {
      var init := cats[..|cats| - 1];
      assert SpacedNames(init) by {
        assert forall k :: 0 <= k < |init| ==> init[k] == cats[k];
      }
      PercentRowsTotal(abbrev, totals, init);
      PercentRowsTotalStep(abbrev, totals, cats);
    }
  }

  /** The step of PercentRowsTotal: the last category adds its row's percentage and its code's totals, or nothing. */
  lemma {:induction false} PercentRowsTotalStep(abbrev: string, totals: seq<Entry>, cats: seq<(nat, string)>)
    requires SpacedNames(cats) && cats != []
    requires SpacedNames(cats[..|cats| - 1])
    requires PercentTotal(PercentRows(abbrev, totals, cats[..|cats| - 1])) ==
               Percent(CodesSum(totals, NonZeroCodes(cats[..|cats| - 1])), SumAll(totals))
    ensures PercentTotal(PercentRows(abbrev, totals, cats)) == Percent(CodesSum(totals, NonZeroCodes(cats)), SumAll(totals))
  {
    var init := cats[..|cats| - 1];
    var (code, category) := cats[|cats| - 1];
    var before := PercentRows(abbrev, totals, init);
    var codes := NonZeroCodes(init);
    if code != 0 {
      var part := SumWhere(totals, FirstChar(code));
      var r := OccupationRow(abbrev, AfterFirstSpace(category), Percent(part, SumAll(totals)));
      assert PercentRows(abbrev, totals, cats) == before + [r];
      assert NonZeroCodes(cats) == codes + [code];
      CodesSumSnoc(totals, codes, code);
      assert CodesSum(totals, NonZeroCodes(cats)) == CodesSum(totals, codes) + part;
      PercentTotalAddRow(before, r, CodesSum(totals, codes), part, SumAll(totals));
    } else {
      assert PercentRows(abbrev, totals, cats) == before + [] == before;
      assert NonZeroCodes(cats) == codes + [] == codes;
    }
  }

  /** Codes that increase along the categories increase along those kept, and each kept code is a listed, non-zero one. */
  lemma {:induction false} NonZeroCodesIncrease(cats: seq<(nat, string)>)
    requires forall i, j :: 0 <= i < j < |cats| ==> cats[i].0 < cats[j].0
    ensures forall i, j :: 0 <= i < j < |NonZeroCodes(cats)| ==> NonZeroCodes(cats)[i] < NonZeroCodes(cats)[j]
    ensures forall j :: 0 <= j < |NonZeroCodes(cats)| ==>
              NonZeroCodes(cats)[j] != 0 && exists k :: 0 <= k < |cats| && cats[k].0 == NonZeroCodes(cats)[j]
    decreases |cats|
  {
    if cats != [] {
      var init := cats[..|cats| - 1];
      var last := cats[|cats| - 1].0;
      NonZeroCodesIncrease(init);
      var kept := NonZeroCodes(init);
      forall j | 0 <= j < |kept|
        ensures kept[j] < last
        ensures exists k :: 0 <= k < |cats| && cats[k].0 == kept[j]
      {
        var k :| 0 <= k < |init| && init[k].0 == kept[j];
        assert init[k] == cats[k];
      }
      assert cats[|cats| - 1].0 == last;
    }
  }

  /** Categories 1 to 9 give rows, each once and in that order. */
  lemma NocNonZeroCodes()
    ensures NonZeroCodes(NocCategories) == [1, 2, 3, 4, 5, 6, 7, 8, 9]
    ensures DistinctCodes(NonZeroCodes(NocCategories))
    ensures forall j :: 0 <= j < |NonZeroCodes(NocCategories)| ==> 0 < NonZeroCodes(NocCategories)[j] < 10
  {
    NocCategoriesWellFormed();
    NonZeroCodesIncrease(NocCategories);
    var c: seq<(nat, string)> := NocCategories;
    assert NonZeroCodes(c[..1]) == [] by {
      assert c[..1][..0] == [];
    }
    assert NonZeroCodes(c[..2]) == [1] by {
      assert c[..2][..1] == c[..1];
    }
    assert NonZeroCodes(c[..3]) == [1, 2] by {
      assert c[..3][..2] == c[..2];
    }
    assert NonZeroCodes(c[..4]) == [1, 2, 3] by {
      assert c[..4][..3] == c[..3];
    }
    assert NonZeroCodes(c[..5]) == [1, 2, 3, 4] by {
      assert c[..5][..4] == c[..4];
    }
    assert NonZeroCodes(c[..6]) == [1, 2, 3, 4, 5] by {
      assert c[..6][..5] == c[..5];
    }
    assert NonZeroCodes(c[..7]) == [1, 2, 3, 4, 5, 6] by {
      assert c[..7][..6] == c[..6];
    }
    assert NonZeroCodes(c[..8]) == [1, 2, 3, 4, 5, 6, 7] by {
      assert c[..8][..7] == c[..7];
    }
    assert NonZeroCodes(c[..9]) == [1, 2, 3, 4, 5, 6, 7, 8] by {
      assert c[..9][..8] == c[..8];
    }
    assert NonZeroCodes(c[..10]) == [1, 2, 3, 4, 5, 6, 7, 8, 9] by {
      assert c[..10][..9] == c[..9];
    }
    assert c[..10] == c;
  }

  /**
   * The nine percentages of a province add up to at most 100, since no row
   * counts towards two categories. They add up to less than 100 as soon as
   * some row with a positive total, such as the all-occupations row, starts
   * with no digit from 1 to 9.
   */
  lemma {:induction false} OccupationPercentagesBounded(name: string, file: string, t: seq<RawRow>, i: nat)
    requires OccupationRows(name, file, t).Ok?
    ensures PercentTotal(OccupationRows(name, file, t).value) <= 100.0
    ensures i < |t| && CleanCount(t[i].total).Some? && CleanCount(t[i].total).value > 0 &&
            (t[i].occupation == [] || !('1' <= t[i].occupation[0] <= '9')) ==>
              PercentTotal(OccupationRows(name, file, t).value) < 100.0
  {
    CleanColumnOkIff(t, TotalGender);
    CleanColumnValues(t, TotalGender);
    var totals := CleanColumn(t, TotalGender).value;
    NocNamesSpaced();
    NocNonZeroCodes();
    var codes := NonZeroCodes(NocCategories);
    PercentRowsTotal(ProvinceAbbrev[name], totals, NocCategories);
    var selected := CodesSum(totals, codes);
    if i < |t| && CleanCount(t[i].total).value > 0 && (t[i].occupation == [] || !('1' <= t[i].occupation[0] <= '9')) {
      forall k | 0 <= k < |codes| ensures !FirstCharIs(totals[i].occupation, codes[k]) {
        FirstCharNeedsDigit(totals[i].occupation, codes[k]);
      }
      CodesSumBound(totals, codes, i);
      PercentBelowWhole(selected, SumAll(totals));
    } else {
      CodesSumBound(totals, codes, |totals|);
    }
  }
}
