/**
 * A province's census table as the dashboard handles it: rows of an
 * occupation label and three count cells that are still text. Cleaning a
 * count column turns it into numbers or fails on the first unreadable cell.
 * A filtered sum adds up the cleaned counts of the rows whose label passes
 * one of the three label tests. Finally every derived table is built by
 * visiting the thirteen province files in order and concatenating the rows
 * each province gives; the first failure aborts the whole run.
 */
module Frames {
  import opened Counts
  import opened Labels

  /** The count columns: "Total - Gender", "Men+ 10" and "Women+ 11". */
  datatype Column = TotalGender | Men | Women

  /** One row as read from a table file: the occupation label and the three count cells as text. */
  datatype RawRow = RawRow(occupation: string, total: string, men: string, women: string)

  /** One cell of a cleaned count column, with the occupation label of its row. */
  datatype Entry = Entry(occupation: string, count: nat)

  datatype Result<T, E> = Ok(value: T) | Err(error: E)

  /** Why a run of the pipeline stops; the source raises and nothing is produced. */
  datatype Error =
    | MissingFile(file: string)                        // reading a table file that is not there
    | BadCount(file: string, column: Column, row: nat) // a count cell that is not a number once separators are gone
    | NoRows(file: string)                             // asking for the population row of an empty table
    | UnknownProvince(name: string)                    // a province missing from the abbreviation table
    | UnknownAbbrev(abbrev: string)                    // an abbreviation missing from the name or coordinate table

  function Cell(r: RawRow, c: Column): string {
    match c
    case TotalGender => r.total
    case Men => r.men
    case Women => r.women
  }

  // ---------------------------------------------------------------------------
  // Cleaning count columns.

  /**
   * One column cleaned: every cell read with CleanCount, or the index of the
   * first cell that cannot be read. CleanColumnOkIff, CleanColumnValues and
   * CleanColumnFirstBad state what it gives.
   */
  function CleanColumn(t: seq<RawRow>, c: Column): (r: Result<seq<Entry>, nat>)
    ensures r.Ok? ==> |r.value| == |t|
  {
    if t == [] then Ok([])
    else
      match CleanColumn(t[..|t| - 1], c)
      case Err(i) => Err(i)
      case Ok(es) =>
        match CleanCount(Cell(t[|t| - 1], c))
        case None => Err(|t| - 1)
        case Some(n) => Ok(es + [Entry(t[|t| - 1].occupation, n)])
  }

  /** Cleaning a column succeeds exactly when every cell can be read. */
  lemma {:induction false} CleanColumnOkIff(t: seq<RawRow>, c: Column)
    ensures CleanColumn(t, c).Ok? <==> forall i :: 0 <= i < |t| ==> CleanCount(Cell(t[i], c)).Some?
    decreases |t|
  {
    if t != [] {
      var init, last := t[..|t| - 1], t[|t| - 1];
      assert forall i :: 0 <= i < |init| ==> init[i] == t[i];
      CleanColumnOkIff(init, c);
      if CleanColumn(init, c).Err? {
        var bad :| 0 <= bad < |init| && CleanCount(Cell(init[bad], c)).None?;
        assert CleanCount(Cell(t[bad], c)).None?;
      }
    }
  }

  /** A cleaned column keeps each row's label and holds each cell's value. */
  lemma {:induction false} CleanColumnValues(t: seq<RawRow>, c: Column)
    requires CleanColumn(t, c).Ok?
    ensures forall i :: 0 <= i < |t| ==>
              CleanCount(Cell(t[i], c)).Some? && CleanColumn(t, c).value[i] == Entry(t[i].occupation, CleanCount(Cell(t[i], c)).value)
    decreases |t|
  {
    if t != [] {
      var init, last := t[..|t| - 1], t[|t| - 1];
      assert forall i :: 0 <= i < |init| ==> init[i] == t[i];
      var es := CleanColumn(init, c).value;
      CleanColumnValues(init, c);
      var out := es + [Entry(last.occupation, CleanCount(Cell(last, c)).value)];
      assert CleanColumn(t, c).value == out;
      assert forall i :: 0 <= i < |init| ==> out[i] == es[i];
    }
  }

  /** A column that cannot be cleaned is reported at its first unreadable cell. */
  lemma {:induction false} CleanColumnFirstBad(t: seq<RawRow>, c: Column)
    requires CleanColumn(t, c).Err?
    ensures var bad := CleanColumn(t, c).error;
            bad < |t| && CleanCount(Cell(t[bad], c)).None? &&
            forall i :: 0 <= i < bad ==> CleanCount(Cell(t[i], c)).Some?
    decreases |t|
  {
    var init, last := t[..|t| - 1], t[|t| - 1];
    assert forall i :: 0 <= i < |init| ==> init[i] == t[i];
    if CleanColumn(init, c).Err? {
      CleanColumnFirstBad(init, c);
    } else {
      CleanColumnOkIff(init, c);
    }
  }

  /**
   * Several columns cleaned one after another: the cleaned columns by name,
   * or the first column (in the given order) that fails, with its first bad
   * row. CleanAllOkIff, CleanAllValues and CleanAllFirstError state what it
   * gives.
   */
  function CleanAll(t: seq<RawRow>, cols: seq<Column>): (r: Result<map<Column, seq<Entry>>, (Column, nat)>)
    ensures r.Ok? ==> forall c :: c in r.value <==> c in cols
    ensures r.Ok? ==> forall c :: c in r.value ==> |r.value[c]| == |t|
  {
    if cols == [] then Ok(map[])
    else
      var init, c := cols[..|cols| - 1], cols[|cols| - 1];
      match CleanAll(t, init)
      case Err(e) => Err(e)
      case Ok(m) =>
        match CleanColumn(t, c)
        case Err(i) => Err((c, i))
        case Ok(es) =>
          assert forall d :: d in cols <==> d in init || d == c;
          Ok(m[c := es])
  }

  /** Cleaning several columns succeeds exactly when each column can be cleaned. */
  lemma {:induction false} CleanAllOkIff(t: seq<RawRow>, cols: seq<Column>)
    ensures CleanAll(t, cols).Ok? <==> forall k :: 0 <= k < |cols| ==> CleanColumn(t, cols[k]).Ok?
    decreases |cols|
  {
    if cols != [] {
      var init, c := cols[..|cols| - 1], cols[|cols| - 1];
      assert forall k :: 0 <= k < |init| ==> init[k] == cols[k];
      CleanAllOkIff(t, init);
    }
  }

  /** Cleaned columns are held under their own names. */
  lemma {:induction false} CleanAllValues(t: seq<RawRow>, cols: seq<Column>)
    requires CleanAll(t, cols).Ok?
    ensures forall c :: c in CleanAll(t, cols).value ==> CleanColumn(t, c) == Ok(CleanAll(t, cols).value[c])
    decreases |cols|
  {
    if cols != [] {
      var init, c := cols[..|cols| - 1], cols[|cols| - 1];
      CleanAllValues(t, init);
      assert CleanAll(t, cols).value == CleanAll(t, init).value[c := CleanColumn(t, c).value];
    }
  }

  /**
   * Cleaning several columns that fails names the first failing column, in the
   * given order, and that column's first bad row.
   */
  lemma {:induction false} CleanAllFirstError(t: seq<RawRow>, cols: seq<Column>)
    requires CleanAll(t, cols).Err?
    ensures var e := CleanAll(t, cols).error;
            exists k :: (0 <= k < |cols| && cols[k] == e.0 && CleanColumn(t, cols[k]) == Err(e.1) &&
                         forall j :: 0 <= j < k ==> CleanColumn(t, cols[j]).Ok?)
    decreases |cols|
  {
    var init, c := cols[..|cols| - 1], cols[|cols| - 1];
    assert forall k :: 0 <= k < |init| ==> init[k] == cols[k];
    match CleanAll(t, init)
    case Err(e) =>
      CleanAllFirstError(t, init);
      var k :| 0 <= k < |init| && init[k] == e.0 && CleanColumn(t, init[k]) == Err(e.1) &&
               forall j :: 0 <= j < k ==> CleanColumn(t, init[j]).Ok?;
      assert cols[k] == e.0 && CleanColumn(t, cols[k]) == Err(e.1);
    case Ok(m) =>
      CleanAllOkIff(t, init);
      assert CleanColumn(t, cols[|cols| - 1]) == Err(CleanAll(t, cols).error.1);
  }

  /** The source's `for col in num_cols: df[col] = <cleaned df[col]>`, one column at a time. */
  method CleanColumns(t: seq<RawRow>, cols: seq<Column>) returns (r: Result<map<Column, seq<Entry>>, (Column, nat)>)
    ensures r == CleanAll(t, cols)
  {
    var cleaned: map<Column, seq<Entry>> := map[];
    for k := 0 to |cols|
      invariant CleanAll(t, cols[..k]) == Ok(cleaned)
    {
      assert cols[..k + 1][..k] == cols[..k];
      var column := CleanColumn(t, cols[k]);
      if column.Err? {
        CleanAllErrSticks(t, cols, k + 1);
        return Err((cols[k], column.error));
      }
      cleaned := cleaned[cols[k] := column.value];
    }
    assert cols[..|cols|] == cols;
    r := Ok(cleaned);
  }

  /** Once a prefix of the columns fails, cleaning all of them fails the same way. */
  lemma {:induction false} CleanAllErrSticks(t: seq<RawRow>, cols: seq<Column>, k: nat)
    requires k <= |cols| && CleanAll(t, cols[..k]).Err?
    ensures CleanAll(t, cols) == CleanAll(t, cols[..k])
    decreases |cols| - k
  {
    if k < |cols| {
      var init := cols[..|cols| - 1];
      assert init[..k] == cols[..k];
      CleanAllErrSticks(t, init, k);
    } else {
      assert cols[..k] == cols;
    }
  }

  // ---------------------------------------------------------------------------
  // Filtered sums.

  /** The three label tests, as selectors of rows. */
  datatype Matcher =
    | AnyCode(codes: seq<string>)  // str.contains('|'.join(codes))
    | CategoryPrefix(code: nat)    // str.startswith(f"{code} ")
    | FirstChar(code: nat)         // str[0] == str(code)

  predicate Matches(m: Matcher, text: string) {
    match m
    case AnyCode(codes) => MatchesAnyCode(text, codes)
    case CategoryPrefix(code) => HasCategoryPrefix(text, code)
    case FirstChar(code) => FirstCharIs(text, code)
  }

  /** The sum of a whole cleaned column. */
  function SumAll(es: seq<Entry>): nat {
    if es == [] then 0 else SumAll(es[..|es| - 1]) + es[|es| - 1].count
  }

  /** The sum of the cleaned counts of the rows whose label passes m: `df[mask][col].sum()`. */
  function SumWhere(es: seq<Entry>, m: Matcher): (s: nat)
    ensures s <= SumAll(es)
    ensures (forall i :: 0 <= i < |es| ==> !Matches(m, es[i].occupation)) ==> s == 0
  {
    if es == [] then 0
    else
      var last := es[|es| - 1];
      assert forall i :: 0 <= i < |es| - 1 ==> es[..|es| - 1][i] == es[i];
      SumWhere(es[..|es| - 1], m) + (if Matches(m, last.occupation) then last.count else 0)
  }

  /** Some row of the table passes m: the mask selects a non-empty frame. */
  predicate AnyMatch(t: seq<RawRow>, m: Matcher) {
    exists i :: 0 <= i < |t| && Matches(m, t[i].occupation)
  }

  /** A filtered sum adds up row by row: the sum over a concatenation is the sum of the sums. */
  lemma {:induction false} SumWhereConcat(a: seq<Entry>, b: seq<Entry>, m: Matcher)
    ensures SumWhere(a + b, m) == SumWhere(a, m) + SumWhere(b, m)
    decreases |b|
  {
    if b == [] {
      assert a + b == a;
    } else {
      var init := b[..|b| - 1];
      assert (a + b)[..|a + b| - 1] == a + init;
      SumWhereConcat(a, init, m);
    }
  }

  /** On one row the filtered sum is that row's count when it matches and 0 otherwise. */
  lemma SumWhereSingle(e: Entry, m: Matcher)
    ensures SumWhere([e], m) == if Matches(m, e.occupation) then e.count else 0
  {
    assert [e][..0] == [];
  }

  // ---------------------------------------------------------------------------
  // Visiting the thirteen provinces.

  /** The table stored under a file name, or the error of reading a missing file. */
  function Load(files: map<string, seq<RawRow>>, file: string): (r: Result<seq<RawRow>, Error>)
    ensures r.Ok? <==> file in files
    ensures r.Ok? ==> r.value == files[file]
    ensures r.Err? ==> r.error == MissingFile(file)
  {
    if file in files then Ok(files[file]) else Err(MissingFile(file))
  }

  /**
   * The rows of a derived table: for each (province, file) in turn, load the
   * file and append the rows the province gives; stop at the first failure.
   */
  function Gather<R>(files: map<string, seq<RawRow>>, ps: seq<(string, string)>,
                     rows: (string, string, seq<RawRow>) -> Result<seq<R>, Error>): Result<seq<R>, Error>
  {
    if ps == [] then Ok([])
    else
      match Gather(files, ps[..|ps| - 1], rows)
      case Err(e) => Err(e)
      case Ok(acc) =>
        var (name, file) := ps[|ps| - 1];
        match Load(files, file)
        case Err(e) => Err(e)
        case Ok(t) =>
          match rows(name, file, t)
          case Err(e) => Err(e)
          case Ok(more) => Ok(acc + more)
  }

  /** One province's contribution: its file loaded and its rows computed. */
  function Province<R>(files: map<string, seq<RawRow>>, p: (string, string),
                       rows: (string, string, seq<RawRow>) -> Result<seq<R>, Error>): Result<seq<R>, Error>
  {
    match Load(files, p.1)
    case Err(e) => Err(e)
    case Ok(t) => rows(p.0, p.1, t)
  }

  /** One more province: the run over the first k + 1 provinces extends the run over the first k by province k's rows. */
  lemma GatherStep<R>(files: map<string, seq<RawRow>>, ps: seq<(string, string)>,
                      rows: (string, string, seq<RawRow>) -> Result<seq<R>, Error>, k: nat)
    requires k < |ps| && Gather(files, ps[..k], rows).Ok?
    ensures Gather(files, ps[..k + 1], rows) ==
              if Province(files, ps[k], rows).Ok?
              then Ok(Gather(files, ps[..k], rows).value + Province(files, ps[k], rows).value)
              else Province(files, ps[k], rows)
  {
    assert ps[..k + 1][..k] == ps[..k];
  }

  /** Once a prefix of the provinces fails, the whole run fails with that error. */
  lemma {:induction false} GatherErrSticks<R>(files: map<string, seq<RawRow>>, ps: seq<(string, string)>,
                                              rows: (string, string, seq<RawRow>) -> Result<seq<R>, Error>, k: nat)
    requires k <= |ps| && Gather(files, ps[..k], rows).Err?
    ensures Gather(files, ps, rows) == Gather(files, ps[..k], rows)
    decreases |ps| - k
  {
    if k < |ps| {
      var init := ps[..|ps| - 1];
      assert init[..k] == ps[..k];
      GatherErrSticks(files, init, rows, k);
    } else {
      assert ps[..k] == ps;
    }
  }

  /** A run succeeds exactly when every province loads and gives its rows. */
  lemma {:induction false} GatherOkIff<R>(files: map<string, seq<RawRow>>, ps: seq<(string, string)>,
                                          rows: (string, string, seq<RawRow>) -> Result<seq<R>, Error>)
    ensures Gather(files, ps, rows).Ok? <==> forall k :: 0 <= k < |ps| ==> Province(files, ps[k], rows).Ok?
    decreases |ps|
  {
    if ps != [] {
      var init := ps[..|ps| - 1];
      GatherOkIff(files, init, rows);
      assert forall k :: 0 <= k < |init| ==> init[k] == ps[k];
    }
  }

  /**
   * When every province gives exactly w rows, a successful run has w rows per
   * province: province k's rows fill positions w*k up to w*k + w, in order.
   */
  lemma {:induction false} GatherFixedWidth<R>(files: map<string, seq<RawRow>>, ps: seq<(string, string)>,
                                               rows: (string, string, seq<RawRow>) -> Result<seq<R>, Error>, w: nat)
    requires forall k :: 0 <= k < |ps| && Province(files, ps[k], rows).Ok? ==> |Province(files, ps[k], rows).value| == w
    requires Gather(files, ps, rows).Ok?
    ensures |Gather(files, ps, rows).value| == w * |ps|
    ensures forall k :: 0 <= k < |ps| ==>
              Province(files, ps[k], rows).Ok? && w * k + w <= |Gather(files, ps, rows).value| &&
              Gather(files, ps, rows).value[w * k..w * k + w] == Province(files, ps[k], rows).value
    decreases |ps|
  {
    if ps != [] {
      var n := |ps| - 1;
      var init := ps[..n];
      assert forall k :: 0 <= k < |init| ==> init[k] == ps[k];
      assert Gather(files, init, rows).Ok?;
      GatherFixedWidth(files, init, rows, w);
      GatherOkIff(files, ps, rows);
      var acc := Gather(files, init, rows).value;
      var more := Province(files, ps[n], rows).value;
      var g := Gather(files, ps, rows).value;
      assert g == acc + more;
      assert w * n + w == w * |ps|;
      forall k | 0 <= k < |ps|
        ensures w * k + w <= |g| && g[w * k..w * k + w] == Province(files, ps[k], rows).value
      {
        if k < n {
          MulMono(w, k + 1, n);
          assert acc[w * k..w * k + w] == Province(files, init[k], rows).value;
          assert g[w * k..w * k + w] == acc[w * k..w * k + w];
        } else {
          assert g[w * k..] == more;
        }
      }
    }
  }

  lemma MulMono(w: nat, a: nat, b: nat)
    requires a <= b
    ensures w * a <= w * b
  {
  }

  /** Every row of a successful run is a row of some province. */
  lemma {:induction false} GatherRowsFrom<R>(files: map<string, seq<RawRow>>, ps: seq<(string, string)>,
                                             rows: (string, string, seq<RawRow>) -> Result<seq<R>, Error>, x: R)
    requires Gather(files, ps, rows).Ok? && x in Gather(files, ps, rows).value
    ensures exists k :: 0 <= k < |ps| && Province(files, ps[k], rows).Ok? && x in Province(files, ps[k], rows).value
    decreases |ps|
  {
    var n := |ps| - 1;
    var init := ps[..n];
    assert init[..] == ps[..n];
    var acc := Gather(files, init, rows).value;
    var more := Province(files, ps[n], rows).value;
    if x in acc {
      GatherRowsFrom(files, init, rows, x);
      var k :| 0 <= k < |init| && Province(files, init[k], rows).Ok? && x in Province(files, init[k], rows).value;
      assert init[k] == ps[k];
    } else {
      assert x in more;
    }
  }
}
