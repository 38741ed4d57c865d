/**
 * Extra vendor files uploaded at run time: each readable file that has every
 * required column is conformed to the base table's columns and appended;
 * the others are reported and skipped.
 */
module Upload {
  import opened Wrappers

  /** A row: its value in each column it has; a missing entry is NaN. */
  type Row = map<string, Option<string>>

  /** A table: its column names in order and its rows. */
  datatype Frame = Frame(columns: seq<string>, rows: seq<Row>)

  /** An uploaded file: its name and its table, or nothing when it cannot be read as CSV. */
  datatype File = File(name: string, contents: Option<Frame>)

  /** What the sidebar reports for one file. */
  datatype Notice =
    | Rejected(name: string, missing: set<string>)
    | Added(name: string, count: nat)
    | Unreadable(name: string)

  /** The columns the comparison needs. */
  const Required: seq<string> := [
    "vendor", "product_name", "spec_raw", "price_usd",
    "dose_mg_per_vial", "vials_per_kit", "total_mg_per_kit", "price_per_mg"]

  /** The required columns a table lacks. */
  function MissingRequired(extra: Frame): (m: set<string>)
    ensures forall c :: c in m <==> c in Required && c !in extra.columns
  {
    set c | c in Required && c !in extra.columns
  }

  /** The value of column `c` in a row of a table with columns `columns`; NaN when the table has no such column. */
  function CellOf(columns: seq<string>, row: Row, c: string): Option<string>
  {
    if c in columns && c in row then row[c] else None
  }

  /**
   * An uploaded table made to fit the base columns: every base column is
   * taken from the upload when it has it and is NaN otherwise, and every
   * other column of the upload is dropped.
   */
  function Conform(extra: Frame, baseCols: seq<string>): (rows: seq<Row>)
    ensures |rows| == |extra.rows|
  {
    seq(|extra.rows|, i requires 0 <= i < |extra.rows| =>
      map c | c in baseCols :: CellOf(extra.columns, extra.rows[i], c))
  }

  /** Lines 81-101 for one file: the table after it and what the sidebar says. */
  function AddFile(df: Frame, f: File): (Frame, Notice)
  {
    match f.contents
    case None => (df, Unreadable(f.name))
    case Some(extra) =>
      if MissingRequired(extra) != {} then (df, Rejected(f.name, MissingRequired(extra)))
      else (Frame(df.columns, df.rows + Conform(extra, df.columns)), Added(f.name, |extra.rows|))
  }

  /**
   * A file is added exactly when it can be read and has every required
   * column; then its rows come after the existing ones, each holding, for
   * every base column, the uploaded value or NaN when the upload lacks the
   * column. Otherwise the table is left as it was. The columns never change.
   */
  lemma AddFileSpec(df: Frame, f: File)
    ensures AddFile(df, f).0.columns == df.columns
    ensures AddFile(df, f).1.Added? <==> f.contents.Some? && forall c :: c in Required ==> c in f.contents.value.columns
    ensures !AddFile(df, f).1.Added? ==> AddFile(df, f).0 == df
    ensures AddFile(df, f).1.Rejected? ==> AddFile(df, f).1.missing != {}
    ensures AddFile(df, f).1.Added? ==>
      var r := AddFile(df, f).0;
      var extra := f.contents.value;
      && |r.rows| == |df.rows| + |extra.rows| == |df.rows| + AddFile(df, f).1.count
      && r.rows[..|df.rows|] == df.rows
      && forall i, c :: 0 <= i < |extra.rows| && c in df.columns ==>
           c in r.rows[|df.rows| + i] &&
           r.rows[|df.rows| + i][c] == (if c in extra.columns && c in extra.rows[i] then extra.rows[i][c] else None)
    ensures AddFile(df, f).1.Added? ==>
      forall i :: |df.rows| <= i < |AddFile(df, f).0.rows| ==> AddFile(df, f).0.rows[i].Keys == (set c | c in df.columns)
  {
    if f.contents.Some? {
      var extra := f.contents.value;
      if MissingRequired(extra) == {} {
        var r := AddFile(df, f).0;
        assert r.rows[..|df.rows|] == df.rows;
        forall i | |df.rows| <= i < |r.rows|
          ensures r.rows[i].Keys == (set c | c in df.columns)
        {
          assert r.rows[i] == Conform(extra, df.columns)[i - |df.rows|];
        }
      } else {
        var c :| c in MissingRequired(extra);
      }
    }
  }

  /** The number of rows the notices report added. */
  function AddedCount(notices: seq<Notice>): nat
  {
    if notices == [] then 0
    else AddedCount(notices[..|notices| - 1]) + (if notices[|notices| - 1].Added? then notices[|notices| - 1].count else 0)
  }

  /** Every file in turn. */
  function AddAll(df: Frame, files: seq<File>): (Frame, seq<Notice>)
  {
    if files == [] then (df, [])
    else
      var (before, notices) := AddAll(df, files[..|files| - 1]);
      var (after, notice) := AddFile(before, files[|files| - 1]);
      (after, notices + [notice])
  }

  /**
   * Adding the files keeps the columns and the existing rows, reports one
   * notice per file, and grows the table by exactly the rows the notices
   * report added.
   */
  lemma {:induction false} AddAllSpec(df: Frame, files: seq<File>)
    ensures AddAll(df, files).0.columns == df.columns
    ensures |AddAll(df, files).1| == |files|
    ensures |AddAll(df, files).0.rows| == |df.rows| + AddedCount(AddAll(df, files).1)
    ensures AddAll(df, files).0.rows[..|df.rows|] == df.rows
  {
    if files != [] {
      var init := files[..|files| - 1];
      var (before, notices) := AddAll(df, init);
      AddAllSpec(df, init);
      AddFileSpec(before, files[|files| - 1]);
      var (after, notice) := AddFile(before, files[|files| - 1]);
      assert (notices + [notice])[..|notices|] == notices;
      assert after.rows[..|before.rows|] == before.rows;
      assert after.rows[..|df.rows|] == before.rows[..|df.rows|];
    }
  }

  /** The loop of lines 80-103. */
  method AddUploads(df: Frame, files: seq<File>) returns (r: Frame, notices: seq<Notice>)
    ensures (r, notices) == AddAll(df, files)
  {
    r := df;
    notices := [];
    var k := 0;
    while k < |files|
      invariant 0 <= k <= |files|
      invariant (r, notices) == AddAll(df, files[..k])
    {
      assert files[..k + 1][..k] == files[..k];
      var f := files[k];
      k := k + 1;
      if f.contents.None? {
        notices := notices + [Unreadable(f.name)];
        continue;
      }
      var extra := f.contents.value;
      var missing := MissingRequired(extra);
      if missing != {} {
        notices := notices + [Rejected(f.name, missing)];
        continue;
      }
      r := Frame(r.columns, r.rows + Conform(extra, r.columns));
      notices := notices + [Added(f.name, |extra.rows|)];
    }
    assert files[..k] == files;
  }
}
