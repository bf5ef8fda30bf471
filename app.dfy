/**
 * The web front end's sheet logic: loading with the three identity columns
 * guaranteed, marking a scanned learner present in today's column, and the
 * queries behind the Today and Tracking views. Barcodes are compared after
 * normalisation.
 */
module App {
  import opened Text
  import opened Seqs
  import opened Wrappers
  import opened Barcodes
  import opened Dates
  import opened Sheets

  // ---------- Loading ----------

  /** The names of `cols` that `have` lacks, each once, in the order of `cols`. */
  function Missing(have: seq<string>, cols: seq<string>): (r: seq<string>)
    ensures forall c :: c in r <==> c in cols && c !in have
    ensures NoDuplicates(r)
  {
    if cols == [] then []
    else
      var m := Missing(have, cols[..|cols| - 1]);
      var c := cols[|cols| - 1];
      assert forall x :: x in cols <==> x in cols[..|cols| - 1] || x == c;
      if c in have || c in m then m
      else
        NoDuplicatesSnoc(m, c);
        m + [c]
  }

  /**
   * `ensure_date_column` for each name of `cols` in turn: the absent names
   * are appended in order, each empty in every row, and every old cell is
   * kept.
   */
  function WithColumnsEnsured(t: Table, cols: seq<string>): (r: Table)
    ensures r.columns == t.columns + Missing(t.columns, cols)
    ensures forall c :: c in cols ==> c in r.columns
    ensures |r.rows| == |t.rows|
    ensures forall i, c :: 0 <= i < |t.rows| && c in t.columns ==> Cell(r.rows[i], c) == Cell(t.rows[i], c)
    ensures forall i, c :: 0 <= i < |t.rows| && c in r.columns && c !in t.columns ==> Cell(r.rows[i], c) == ""
    ensures (forall c :: c in cols ==> c in t.columns) ==> r == t
    ensures WellFormed(t) ==> WellFormed(r)
  {
    if cols == [] then t
    else
      var p := cols[..|cols| - 1];
      var c := cols[|cols| - 1];
      assert forall x :: x in cols <==> x in p || x == c;
      var q := WithColumnsEnsured(t, p);
      var r := WithColumnEnsured(q, c);
      assert c in q.columns <==> c in t.columns || c in Missing(t.columns, p);
      r
  }

  /** The missing names keep the order of `cols`: any two of them occur in that order there. */
  lemma {:induction false} MissingInOrder(have: seq<string>, cols: seq<string>)
    ensures OrderedWithin(Missing(have, cols), cols)
  {
    if cols != [] {
      var n := |cols| - 1;
      var p, c := cols[..n], cols[n];
      var m, r := Missing(have, p), Missing(have, cols);
      MissingInOrder(have, p);
      assert OrderedWithin(m, p);
      forall i, j | 0 <= i < j < |r|
        ensures exists a, b :: 0 <= a < b < |cols| && cols[a] == r[i] && cols[b] == r[j]
      {
        if j < |m| {
          assert r[i] == m[i] && r[j] == m[j];
          var a, b :| 0 <= a < b < |p| && p[a] == m[i] && p[b] == m[j];
          assert cols[a] == r[i] && cols[b] == r[j];
        } else {
          assert r == m + [c] && r[i] == m[i] && r[j] == c;
          assert m[i] in m;
          var a :| 0 <= a < |p| && p[a] == m[i];
          assert cols[a] == r[i] && cols[n] == r[j];
        }
      }
      assert OrderedWithin(r, cols);
    }
  }

  const IdentityCols: seq<string> := [BarcodeCol, NameCol, SurnameCol]

  /** The identity columns a sheet lacks are appended as Barcode, Name, Surname, each only when absent. */
  lemma MissingIdentity(have: seq<string>)
    ensures Missing(have, IdentityCols)
      == (if BarcodeCol in have then [] else [BarcodeCol])
       + (if NameCol in have then [] else [NameCol])
       + (if SurnameCol in have then [] else [SurnameCol])
  {
    var ids := IdentityCols;
    assert BarcodeCol[0] != NameCol[0] && BarcodeCol[0] != SurnameCol[0] && NameCol[0] != SurnameCol[0];
    var b := if BarcodeCol in have then [] else [BarcodeCol];
    var n := if NameCol in have then [] else [NameCol];
    assert ids[..1][..0] == [];
    assert Missing(have, ids[..1]) == b;
    assert ids[..2][..1] == ids[..1];
    assert Missing(have, ids[..2]) == b + n;
    assert ids[..2] == ids[..|ids| - 1];
  }

  /**
   * `load_sheet`: the empty frame for a missing file; otherwise the stored
   * table with Barcode, Name and Surname appended, empty, where absent.
   */
  function Loaded(content: Option<Table>): (t: Table)
    ensures content.None? ==> t == Table([], [])
    ensures content.Some? ==> BarcodeCol in t.columns && NameCol in t.columns && SurnameCol in t.columns
    ensures content.Some? && (forall c :: c in IdentityCols ==> c in content.value.columns) ==> t == content.value
    ensures content.Some? ==> t.columns == content.value.columns + Missing(content.value.columns, IdentityCols)
    ensures content.Some? ==> var have := content.value.columns;
      t.columns == have + (if BarcodeCol in have then [] else [BarcodeCol])
                        + (if NameCol in have then [] else [NameCol])
                        + (if SurnameCol in have then [] else [SurnameCol])
    ensures content.Some? ==> |t.rows| == |content.value.rows|
    ensures content.Some? ==> forall i, c :: 0 <= i < |t.rows| && c in content.value.columns ==>
      Cell(t.rows[i], c) == Cell(content.value.rows[i], c)
    ensures content.Some? ==> forall i, c :: 0 <= i < |t.rows| && c in t.columns && c !in content.value.columns ==>
      Cell(t.rows[i], c) == ""
  {
    match content
    case None => Table([], [])
    case Some(t) =>
      IdentityColumnsAppended(t);
      WithColumnsEnsured(t, IdentityCols)
  }

  lemma IdentityColumnsAppended(t: Table)
    ensures WithColumnsEnsured(t, IdentityCols).columns
      == t.columns + (if BarcodeCol in t.columns then [] else [BarcodeCol])
                   + (if NameCol in t.columns then [] else [NameCol])
                   + (if SurnameCol in t.columns then [] else [SurnameCol])
  {
    var have := t.columns;
    var b := if BarcodeCol in have then [] else [BarcodeCol];
    var n := if NameCol in have then [] else [NameCol];
    var u := if SurnameCol in have then [] else [SurnameCol];
    MissingIdentity(have);
    assert have + ((b + n) + u) == ((have + b) + n) + u;
  }

  /** `load_sheet` as the handlers run it: the loop that adds the missing columns. */
  method LoadSheet(content: Option<Table>) returns (sheet: Sheet)
    ensures fresh(sheet)
    ensures sheet.Value() == Loaded(content)
  {
    if content.None? {
      sheet := new Sheet(Table([], []));
      return;
    }
    var t := content.value;
    sheet := new Sheet(t);
    for k := 0 to |IdentityCols|
      invariant sheet.Value() == WithColumnsEnsured(t, IdentityCols[..k])
    {
      WithColumnsEnsuredStep(t, IdentityCols, k);
      sheet.EnsureColumn(IdentityCols[k]);
    }
    assert IdentityCols[..|IdentityCols|] == IdentityCols;
  }

  lemma WithColumnsEnsuredStep(t: Table, cols: seq<string>, k: nat)
    requires k < |cols|
    ensures WithColumnsEnsured(t, cols[..k + 1]) == WithColumnEnsured(WithColumnsEnsured(t, cols[..k]), cols[k])
  {
    assert cols[..k + 1][..k] == cols[..k];
  }

  /** pandas' `df.empty`: no rows or no columns. */
  predicate IsEmptyFrame(t: Table)
  {
    |t.rows| == 0 || |t.columns| == 0
  }

  // ---------- Marking present ----------

  /** The row's barcode and the scan are equal once both are normalised. */
  predicate Matches(r: Row, scan: string)
  {
    Norm(Cell(r, BarcodeCol)) == Norm(scan)
  }

  /** `df.index[df["Barcode"].apply(_norm) == _norm(scan)]`, in row order. */
  function Hits(rows: seq<Row>, scan: string): (r: seq<nat>)
    ensures forall k :: 0 <= k < |r| ==> r[k] < |rows|
    ensures forall i :: 0 <= i < |rows| ==> (i in r <==> Matches(rows[i], scan))
    ensures forall j, k :: 0 <= j < k < |r| ==> r[j] < r[k]
  {
    Positions(seq(|rows|, i requires 0 <= i < |rows| => Matches(rows[i], scan)))
  }

  /** The sheet after the marking loop: every matched row marked, the others untouched. */
  function MarkedTable(t: Table, col: string, scan: string): (r: Table)
    ensures MarkEffect(t, r, col, scan)
  {
    Table(t.columns, seq(|t.rows|, i requires 0 <= i < |t.rows| =>
      if Matches(t.rows[i], scan) then MarkRow(t.rows[i], col) else t.rows[i]))
  }

  /** What the message says of one matched row. */
  datatype Report = Report(row: nat, who: string, already: bool)

  /** The row's label, or its barcode in brackets when the label is blank. */
  function Who(r: Row): (who: string)
    ensures who != ""
  {
    var l := LabelForRow(r);
    if l == "" then "[" + Cell(r, BarcodeCol) + "]" else l
  }

  /** One report per hit, in row order, taken from the sheet before marking. */
  function Reports(rows: seq<Row>, col: string, hits: seq<nat>): seq<Report>
    requires forall k :: 0 <= k < |hits| ==> hits[k] < |rows|
  {
    seq(|hits|, k requires 0 <= k < |hits| =>
      Report(hits[k], Who(rows[hits[k]]), IsOne(Cell(rows[hits[k]], col))))
  }

  /** `mark_present`'s result; `Marked` is `(True, message)`, the others `(False, message)`. */
  datatype AppOutcome = EmptyScan | SheetEmpty | IdNotFound | Marked(reports: seq<Report>)

  /**
   * `mark_present(scan, path)` on the date given: the outcome and the file's
   * content afterwards. The file is written only on success.
   */
  function MarkPresentSpec(content: Option<Table>, scan: string, day: nat, month: nat): (r: (AppOutcome, Option<Table>))
    requires ValidDate(day, month)
    ensures AllSpace(scan) ==> r == (EmptyScan, content)
    ensures !r.0.Marked? ==> r.1 == content
    ensures r.0.Marked? ==> r.1.Some? && |r.0.reports| > 0
  {
    StripIsTrimmed(scan);
    if Strip(scan) == "" then (EmptyScan, content)
    else
      var t := Loaded(content);
      if IsEmptyFrame(t) then (SheetEmpty, content)
      else
        var col := AppTodayLabel(day, month);
        var t1 := WithColumnEnsured(t, col);
        var hits := Hits(t1.rows, scan);
        if hits == [] then (IdNotFound, content)
        else (Marked(Reports(t1.rows, col, hits)), Some(MarkedTable(t1, col, scan)))
  }

  /** `mark_present` over the file. */
  method MarkPresent(file: SheetFile, scan: string, day: nat, month: nat) returns (outcome: AppOutcome)
    requires ValidDate(day, month)
    modifies file
    ensures (outcome, file.content) == MarkPresentSpec(old(file.content), scan, day, month)
  {
    if Strip(scan) == "" {
      return EmptyScan;
    }
    var sheet := LoadSheet(file.content);
    if |sheet.rows| == 0 || |sheet.columns| == 0 {
      return SheetEmpty;
    }
    var col := AppTodayLabel(day, month);
    sheet.EnsureColumn(col);
    var hits := Hits(sheet.rows, scan);
    if hits == [] {
      return IdNotFound;
    }
    ghost var t1 := sheet.Value();
    var reports := MarkHits(sheet, col, hits);
    MarkedAtHits(t1, col, scan);
    file.content := Some(sheet.Value());
    return Marked(reports);
  }

  lemma MarkedAtHits(t: Table, col: string, scan: string)
    ensures Table(t.columns, MarkedAt(t.rows, col, Hits(t.rows, scan))) == MarkedTable(t, col, scan)
  {
  }

  /** The loop of `mark_present` over the matched rows, in increasing row order. */
  method MarkHits(sheet: Sheet, col: string, hits: seq<nat>) returns (reports: seq<Report>)
    requires col in sheet.columns
    requires forall k :: 0 <= k < |hits| ==> hits[k] < |sheet.rows|
    requires forall j, k :: 0 <= j < k < |hits| ==> hits[j] < hits[k]
    modifies sheet
    ensures sheet.Value() == Table(old(sheet.columns), MarkedAt(old(sheet.rows), col, hits))
    ensures reports == Reports(old(sheet.rows), col, hits)
  {
    ghost var t := sheet.Value();
    reports := [];
    for k := 0 to |hits|
      invariant sheet.columns == t.columns
      invariant sheet.rows == MarkedAt(t.rows, col, hits[..k])
      invariant reports == Reports(t.rows, col, hits[..k])
    {
      var i := hits[k];
      NotInPrefix(hits, k);
      MarkedAtStep(t.rows, col, hits[..k], i);
      ReportsStep(t.rows, col, hits[..k], i);
      var who := Who(sheet.rows[i]);
      var already := sheet.MarkCell(i, col);
      reports := reports + [Report(i, who, already)];
    }
    assert hits[..|hits|] == hits;
  }

  lemma ReportsStep(rows: seq<Row>, col: string, done: seq<nat>, i: nat)
    requires i < |rows| && forall k :: 0 <= k < |done| ==> done[k] < |rows|
    ensures Reports(rows, col, done + [i])
      == Reports(rows, col, done) + [Report(i, Who(rows[i]), IsOne(Cell(rows[i], col)))]
  {
  }

  // ---------- Properties of marking ----------

  /** Today's label is never one of the identity columns. */
  lemma TodayIsNotIdentity(day: nat, month: nat)
    requires ValidDate(day, month)
    ensures AppTodayLabel(day, month) !in IdentityCols
  {
    AppLabelIsTodayLabel(day, month);
    var l := TodayLabel(day, month);
    assert IsDigit(l[0]) by { assert l[0] == l[..|Decimal(day)|][0]; }
    assert BarcodeCol[0] == 'B' && NameCol[0] == 'N' && SurnameCol[0] == 'S';
  }

  /** "Empty or not found" is reported exactly for a non-blank scan and an empty frame. */
  lemma MarkPresentSheetEmpty(content: Option<Table>, scan: string, day: nat, month: nat)
    requires ValidDate(day, month)
    ensures MarkPresentSpec(content, scan, day, month).0 == SheetEmpty
      <==> !AllSpace(scan) && IsEmptyFrame(Loaded(content))
  {
    StripIsTrimmed(scan);
  }

  /** "Student ID not found" is reported exactly when no row's normalised barcode equals the scan's. */
  lemma MarkPresentNotFound(content: Option<Table>, scan: string, day: nat, month: nat)
    requires ValidDate(day, month)
    ensures MarkPresentSpec(content, scan, day, month).0 == IdNotFound <==>
      (!AllSpace(scan) && !IsEmptyFrame(Loaded(content))
       && forall i :: 0 <= i < |Loaded(content).rows| ==> !Matches(Loaded(content).rows[i], scan))
  {
    StripIsTrimmed(scan);
    TodayIsNotIdentity(day, month);
    assert AppTodayLabel(day, month) != BarcodeCol by {
      assert IdentityCols[0] == BarcodeCol;
    }
    NoHitsAfterEnsure(Loaded(content), AppTodayLabel(day, month), scan);
  }

  /** Adding a column other than Barcode does not change which rows match. */
  lemma NoHitsAfterEnsure(t: Table, col: string, scan: string)
    requires col != BarcodeCol
    ensures Hits(WithColumnEnsured(t, col).rows, scan) == [] <==> forall i :: 0 <= i < |t.rows| ==> !Matches(t.rows[i], scan)
  {
    SameHits(WithColumnEnsured(t, col).rows, t.rows, scan);
    HitsEmpty(t.rows, scan);
  }

  lemma HitsEmpty(rows: seq<Row>, scan: string)
    ensures Hits(rows, scan) == [] <==> forall i :: 0 <= i < |rows| ==> !Matches(rows[i], scan)
  {
    var hits := Hits(rows, scan);
    if hits != [] {
      assert hits[0] in hits;
    }
  }

  /**
   * `after` is `before` with every matched row present in `col` (a cell that
   * already read as present is kept as it was, any other now holds exactly
   * "1") and every other cell as it was.
   */
  ghost predicate MarkEffect(before: Table, after: Table, col: string, scan: string)
  {
    && after.columns == before.columns
    && |after.rows| == |before.rows|
    && (forall i :: 0 <= i < |before.rows| && Matches(before.rows[i], scan) ==>
          IsOne(Cell(after.rows[i], col))
          && Cell(after.rows[i], col) == (if IsOne(Cell(before.rows[i], col)) then Cell(before.rows[i], col) else "1"))
    && (forall i, c :: 0 <= i < |before.rows| && (c != col || !Matches(before.rows[i], scan)) ==>
          Cell(after.rows[i], c) == Cell(before.rows[i], c))
  }

  /** One report per matched row, in row order, saying whether it was already present. */
  predicate ReportsFaithful(before: Table, col: string, scan: string, reports: seq<Report>)
  {
    && seq(|reports|, k requires 0 <= k < |reports| => reports[k].row) == Hits(before.rows, scan)
    && forall k :: 0 <= k < |reports| && reports[k].row < |before.rows| ==>
         && reports[k].who == Who(before.rows[reports[k].row])
         && (reports[k].already <==> IsOne(Cell(before.rows[reports[k].row], col)))
  }

  lemma MarkedTableEffect(t: Table, col: string, scan: string)
    ensures ReportsFaithful(t, col, scan, Reports(t.rows, col, Hits(t.rows, scan)))
  {
  }

  /**
   * A successful `mark_present` saves the sheet with today's column present
   * and only the matched rows' today cells changed, and reports every matched
   * row.
   */
  lemma MarkPresentMarks(content: Option<Table>, scan: string, day: nat, month: nat)
    requires ValidDate(day, month)
    requires MarkPresentSpec(content, scan, day, month).0.Marked?
    ensures AppTodayLabel(day, month) in MarkPresentSpec(content, scan, day, month).1.value.columns
    ensures MarkEffect(WithColumnEnsured(Loaded(content), AppTodayLabel(day, month)),
      MarkPresentSpec(content, scan, day, month).1.value, AppTodayLabel(day, month), scan)
    ensures ReportsFaithful(WithColumnEnsured(Loaded(content), AppTodayLabel(day, month)),
      AppTodayLabel(day, month), scan, MarkPresentSpec(content, scan, day, month).0.reports)
  {
    MarkedTableEffect(WithColumnEnsured(Loaded(content), AppTodayLabel(day, month)), AppTodayLabel(day, month), scan);
  }

  /** Every report of a repeated scan, marked as already present. */
  function AllAlready(reports: seq<Report>): (r: seq<Report>)
    ensures |r| == |reports|
    ensures forall k :: 0 <= k < |r| ==> r[k] == reports[k].(already := true)
  {
    seq(|reports|, k requires 0 <= k < |reports| => reports[k].(already := true))
  }

  /**
   * Scanning the same code again on the same day changes nothing: the file
   * stays as the first scan left it and every matched row is reported as
   * already marked.
   */
  lemma MarkPresentIdempotent(content: Option<Table>, scan: string, day: nat, month: nat)
    requires ValidDate(day, month)
    requires MarkPresentSpec(content, scan, day, month).0.Marked?
    ensures MarkPresentSpec(MarkPresentSpec(content, scan, day, month).1, scan, day, month)
      == (Marked(AllAlready(MarkPresentSpec(content, scan, day, month).0.reports)),
          MarkPresentSpec(content, scan, day, month).1)
  {
    var col := AppTodayLabel(day, month);
    var t1 := WithColumnEnsured(Loaded(content), col);
    assert Strip(scan) != "";
    assert MarkPresentSpec(content, scan, day, month)
      == (Marked(Reports(t1.rows, col, Hits(t1.rows, scan))), Some(MarkedTable(t1, col, scan)));
    RemarkOnTable(t1, scan, day, month);
  }

  /** The second scan, against the table the first one wrote. */
  lemma RemarkOnTable(t1: Table, scan: string, day: nat, month: nat)
    requires ValidDate(day, month)
    requires Strip(scan) != "" && BarcodeCol in t1.columns && NameCol in t1.columns && SurnameCol in t1.columns
    requires AppTodayLabel(day, month) in t1.columns && Hits(t1.rows, scan) != []
    ensures var col := AppTodayLabel(day, month);
      MarkPresentSpec(Some(MarkedTable(t1, col, scan)), scan, day, month)
      == (Marked(AllAlready(Reports(t1.rows, col, Hits(t1.rows, scan)))), Some(MarkedTable(t1, col, scan)))
  {
    var col := AppTodayLabel(day, month);
    TodayIsNotIdentity(day, month);
    var m := MarkedTable(t1, col, scan);
    MarkedTableEffect(t1, col, scan);
    SameHits(m.rows, t1.rows, scan);
    MarkPresentOnTable(m, scan, day, month);
    RemarkFixpoint(t1, m, col, scan);
    RemarkReports(t1, m, col, scan);
  }

  /** A scan against a sheet that already has today's column and a matching row. */
  lemma MarkPresentOnTable(m: Table, scan: string, day: nat, month: nat)
    requires ValidDate(day, month)
    requires Strip(scan) != "" && BarcodeCol in m.columns && NameCol in m.columns && SurnameCol in m.columns
    requires AppTodayLabel(day, month) in m.columns && Hits(m.rows, scan) != []
    ensures MarkPresentSpec(Some(m), scan, day, month)
      == (Marked(Reports(m.rows, AppTodayLabel(day, month), Hits(m.rows, scan))),
          Some(MarkedTable(m, AppTodayLabel(day, month), scan)))
  {
    assert Loaded(Some(m)) == m;
  }

  lemma RemarkFixpoint(t: Table, m: Table, col: string, scan: string)
    requires MarkEffect(t, m, col, scan) && Hits(m.rows, scan) == Hits(t.rows, scan)
    requires col != BarcodeCol
    ensures MarkedTable(m, col, scan) == m
  {
    forall i | 0 <= i < |m.rows| ensures MarkedTable(m, col, scan).rows[i] == m.rows[i] {
      if Matches(m.rows[i], scan) {
        assert Matches(t.rows[i], scan);
      }
    }
  }

  lemma RemarkReports(t: Table, m: Table, col: string, scan: string)
    requires MarkEffect(t, m, col, scan)
    requires col != BarcodeCol && col != NameCol && col != SurnameCol
    ensures Reports(m.rows, col, Hits(t.rows, scan)) == AllAlready(Reports(t.rows, col, Hits(t.rows, scan)))
  {
    var hits := Hits(t.rows, scan);
    SameWho(m, t);
    forall k | 0 <= k < |hits| ensures IsOne(Cell(m.rows[hits[k]], col)) {
      assert hits[k] in hits;
    }
  }

  lemma SameHits(a: seq<Row>, b: seq<Row>, scan: string)
    requires |a| == |b| && forall i :: 0 <= i < |a| ==> Cell(a[i], BarcodeCol) == Cell(b[i], BarcodeCol)
    ensures Hits(a, scan) == Hits(b, scan)
  {
    assert seq(|a|, i requires 0 <= i < |a| => Matches(a[i], scan))
        == seq(|b|, i requires 0 <= i < |b| => Matches(b[i], scan));
  }

  lemma SameWho(a: Table, b: Table)
    requires |a.rows| == |b.rows|
    requires forall i :: 0 <= i < |a.rows| ==> Cell(a.rows[i], NameCol) == Cell(b.rows[i], NameCol)
    requires forall i :: 0 <= i < |a.rows| ==> Cell(a.rows[i], SurnameCol) == Cell(b.rows[i], SurnameCol)
    requires forall i :: 0 <= i < |a.rows| ==> Cell(a.rows[i], BarcodeCol) == Cell(b.rows[i], BarcodeCol)
    ensures forall i :: 0 <= i < |a.rows| ==> Who(a.rows[i]) == Who(b.rows[i])
  {
  }

  // ---------- The Today view: present and absent ----------

  const GradeCol := "Grade"
  const AreaCol := "Area"

  /**
   * The Grade and Area filters of `get_present_absent`: each applies only
   * when its argument is non-empty ("" stands for an argument not given)
   * and the column exists, and then compares the cell exactly.
   */
  predicate Selected(t: Table, r: Row, grade: string, area: string)
  {
    && (grade == "" || GradeCol !in t.columns || Cell(r, GradeCol) == grade)
    && (area == "" || AreaCol !in t.columns || Cell(r, AreaCol) == area)
  }

  function Selection(t: Table, rows: seq<Row>, grade: string, area: string): (r: seq<Row>)
    ensures forall x :: x in r <==> x in rows && Selected(t, x, grade, area)
    ensures forall x :: multiset(r)[x] == if Selected(t, x, grade, area) then multiset(rows)[x] else 0
    ensures multiset(r) <= multiset(rows)
  {
    if rows == [] then []
    else
      var p := Selection(t, rows[..|rows| - 1], grade, area);
      var x := rows[|rows| - 1];
      assert rows == rows[..|rows| - 1] + [x];
      if Selected(t, x, grade, area) then p + [x] else p
  }

  /** The rows kept stay in table order: the filter distributes over concatenation. */
  lemma {:induction false} SelectionAppend(t: Table, a: seq<Row>, b: seq<Row>, grade: string, area: string)
    ensures Selection(t, a + b, grade, area) == Selection(t, a, grade, area) + Selection(t, b, grade, area)
  {
    if b == [] {
      assert a + b == a;
    } else {
      var n := |b| - 1;
      var last := if Selected(t, b[n], grade, area) then [b[n]] else [];
      SelectionAppend(t, a, b[..n], grade, area);
      SelectionSnoc(t, a, b, grade, area);
      SelectionLast(t, b, grade, area);
      Glue(Selection(t, a + b, grade, area), Selection(t, a, grade, area), Selection(t, b, grade, area),
           Selection(t, b[..n], grade, area), last);
    }
  }

  lemma SelectionSnoc(t: Table, a: seq<Row>, b: seq<Row>, grade: string, area: string)
    requires b != []
    ensures var n := |b| - 1;
      Selection(t, a + b, grade, area)
        == Selection(t, a + b[..n], grade, area) + (if Selected(t, b[n], grade, area) then [b[n]] else [])
  {
    var ab, n := a + b, |b| - 1;
    var front, x := ab[..|ab| - 1], ab[|ab| - 1];
    assert front == a + b[..n] && x == b[n];
    SelectionLast(t, ab, grade, area);
  }

  lemma SelectionLast(t: Table, s: seq<Row>, grade: string, area: string)
    requires s != []
    ensures var x := s[|s| - 1];
      Selection(t, s, grade, area) == Selection(t, s[..|s| - 1], grade, area) + (if Selected(t, x, grade, area) then [x] else [])
  {
  }

  /** A single row is kept exactly when it passes both filters. */
  lemma SelectionOne(t: Table, x: Row, grade: string, area: string)
    ensures Selection(t, [x], grade, area) == if Selected(t, x, grade, area) then [x] else []
  {
    assert [x][..0] == [];
  }

  datatype PresentAbsent = PresentAbsent(present: seq<Row>, absent: seq<Row>)

  /** `get_present_absent(df, date_col, grade, area)`. */
  function GetPresentAbsent(t: Table, dateCol: string, grade: string, area: string): (r: PresentAbsent)
    ensures dateCol !in t.columns ==> r == PresentAbsent([], t.rows)
    ensures dateCol in t.columns ==> forall x :: x in r.present <==>
      x in t.rows && Selected(t, x, grade, area) && Cell(x, dateCol) == "1"
    ensures dateCol in t.columns ==> forall x :: x in r.absent <==>
      x in t.rows && Selected(t, x, grade, area) && Cell(x, dateCol) != "1"
  {
    if dateCol !in t.columns then PresentAbsent([], t.rows)
    else
      var s := Selection(t, t.rows, grade, area);
      PresentAbsent(WithMark(s, dateCol, true), WithMark(s, dateCol, false))
  }

  /**
   * Present and absent are disjoint and together are exactly the filtered
   * rows, each row as often as it occurs.
   */
  lemma PresentAbsentPartition(t: Table, dateCol: string, grade: string, area: string)
    requires dateCol in t.columns
    ensures var r := GetPresentAbsent(t, dateCol, grade, area);
      && multiset(r.present) + multiset(r.absent) == multiset(Selection(t, t.rows, grade, area))
      && multiset(r.present) * multiset(r.absent) == multiset{}
  {
    var r := GetPresentAbsent(t, dateCol, grade, area);
    WithMarkSplits(Selection(t, t.rows, grade, area), dateCol);
    forall x | x in multiset(r.present) ensures x !in multiset(r.absent) {
      assert x in r.present;
    }
  }

  /**
   * Both lists keep the sheet's row order: splitting the sheet's rows
   * anywhere splits each list at the same place, so with `PresentAbsentOne`
   * each list is the sheet's qualifying rows in sheet order.
   */
  lemma PresentAbsentInOrder(t: Table, dateCol: string, grade: string, area: string, a: seq<Row>, b: seq<Row>)
    requires dateCol in t.columns && t.rows == a + b
    ensures var r := GetPresentAbsent(t, dateCol, grade, area);
      && r.present == WithMark(Selection(t, a, grade, area), dateCol, true)
                      + WithMark(Selection(t, b, grade, area), dateCol, true)
      && r.absent == WithMark(Selection(t, a, grade, area), dateCol, false)
                     + WithMark(Selection(t, b, grade, area), dateCol, false)
  {
    SelectionAppend(t, a, b, grade, area);
    WithMarkAppend(Selection(t, a, grade, area), Selection(t, b, grade, area), dateCol, true);
    WithMarkAppend(Selection(t, a, grade, area), Selection(t, b, grade, area), dateCol, false);
  }

  /** A single row lands in exactly one list when it passes the filters, and in neither otherwise. */
  lemma PresentAbsentOne(t: Table, x: Row, dateCol: string, grade: string, area: string)
    ensures WithMark(Selection(t, [x], grade, area), dateCol, true)
      == if Selected(t, x, grade, area) && Cell(x, dateCol) == "1" then [x] else []
    ensures WithMark(Selection(t, [x], grade, area), dateCol, false)
      == if Selected(t, x, grade, area) && Cell(x, dateCol) != "1" then [x] else []
  {
    SelectionOne(t, x, grade, area);
    WithMarkOne(x, dateCol, true);
    WithMarkOne(x, dateCol, false);
  }

  // ---------- Filter options ----------

  function NonBlank(values: seq<string>): (r: seq<string>)
    ensures forall v :: v in r <==> v in values && !AllSpace(v)
    ensures multiset(r) <= multiset(values)
  {
    if values == [] then []
    else
      var p := NonBlank(values[..|values| - 1]);
      var v := values[|values| - 1];
      assert values == values[..|values| - 1] + [v];
      if AllSpace(v) then p else p + [v]
  }

  /**
   * `unique_sorted(series)`: "(All)" followed by the distinct values that are
   * not blank, in increasing string order.
   */
  function UniqueSorted(values: seq<string>): (r: seq<string>)
    ensures |r| >= 1 && r[0] == "(All)"
    ensures forall v :: v in r[1..] <==> v in values && !AllSpace(v)
    ensures forall i, j :: 1 <= i < j < |r| ==> StrLt(r[i], r[j])
  {
    UniqueSortedFacts(values);
    ["(All)"] + Sort(NonBlank(Distinct(values)), StrLe)
  }

  lemma UniqueSortedFacts(values: seq<string>)
    ensures var r := ["(All)"] + Sort(NonBlank(Distinct(values)), StrLe);
      && (forall v :: v in r[1..] <==> v in values && !AllSpace(v))
      && (forall i, j :: 1 <= i < j < |r| ==> StrLt(r[i], r[j]))
  {
    var d := Distinct(values);
    var vals := NonBlank(d);
    var sorted := Sort(vals, StrLe);
    var r := ["(All)"] + sorted;
    NoDuplicatesByCount(d);
    assert forall x :: multiset(vals)[x] <= multiset(d)[x];
    NoDuplicatesByCount(vals);
    StrLeIsTotalOrder();
    assert Total(StrLe) && Transitive(StrLe);
    SortSorted(vals, StrLe);
    SortKeepsNoDuplicates(vals, StrLe);
    assert r[1..] == sorted;
    forall v ensures v in sorted <==> v in vals {
      assert v in sorted <==> v in multiset(sorted);
      assert v in vals <==> v in multiset(vals);
    }
    StrictlySortedShift(sorted);
  }

  lemma StrictlySortedShift(sorted: seq<string>)
    requires NoDuplicates(sorted) && SortedBy(sorted, StrLe)
    ensures var r := ["(All)"] + sorted; forall i, j :: 1 <= i < j < |r| ==> StrLt(r[i], r[j])
  {
    var r := ["(All)"] + sorted;
    forall i, j | 1 <= i < j < |r| ensures StrLt(r[i], r[j]) {
      assert r[i] == sorted[i - 1] && r[j] == sorted[j - 1];
    }
  }

  // ---------- Tracking ----------

  /** The columns `get_date_columns` keeps, in sheet order. */
  function DateNames(cols: seq<string>): (r: seq<string>)
    ensures forall c :: c in r <==> c in cols && IsDateColumnName(c)
    ensures multiset(r) <= multiset(cols)
  {
    if cols == [] then []
    else
      var p := DateNames(cols[..|cols| - 1]);
      var c := cols[|cols| - 1];
      assert cols == cols[..|cols| - 1] + [c];
      if IsDateColumnName(c) then p + [c] else p
  }

  /** The date-named columns keep their sheet order: the filter distributes over concatenation. */
  lemma {:induction false} DateNamesAppend(a: seq<string>, b: seq<string>)
    ensures DateNames(a + b) == DateNames(a) + DateNames(b)
  {
    if b == [] {
      assert a + b == a;
    } else {
      var n := |b| - 1;
      var last := if IsDateColumnName(b[n]) then [b[n]] else [];
      DateNamesAppend(a, b[..n]);
      DateNamesSnoc(a, b);
      DateNamesLast(b);
      Glue(DateNames(a + b), DateNames(a), DateNames(b), DateNames(b[..n]), last);
    }
  }

  lemma DateNamesSnoc(a: seq<string>, b: seq<string>)
    requires b != []
    ensures var n := |b| - 1;
      DateNames(a + b) == DateNames(a + b[..n]) + (if IsDateColumnName(b[n]) then [b[n]] else [])
  {
    var ab, n := a + b, |b| - 1;
    DateNamesLast(ab);
    assert ab[|ab| - 1] == b[n];
    assert ab[..|ab| - 1] == a + b[..n];
  }

  lemma DateNamesLast(s: seq<string>)
    requires s != []
    ensures var c := s[|s| - 1];
      DateNames(s) == DateNames(s[..|s| - 1]) + (if IsDateColumnName(c) then [c] else [])
  {
  }

  /** A single column is kept exactly when it is date-named. */
  lemma DateNamesOne(c: string)
    ensures DateNames([c]) == if IsDateColumnName(c) then [c] else []
  {
    assert [c][..0] == [];
  }

  /** Sort keys compared with unparsable labels first; only parsable labels reach the sort. */
  predicate KeyLe(a: Option<nat>, b: Option<nat>)
  {
    match (a, b)
    case (None, _) => true
    case (Some(_), None) => false
    case (Some(x), Some(y)) => x <= y
  }

  /** Ordering by `tm_yday` as the source computes it (year 1900). */
  predicate ColumnBeforeAsWritten(a: string, b: string)
  {
    KeyLe(DayOfYearAsWritten(a), DayOfYearAsWritten(b))
  }

  /** Ordering by day of the year on the leap calendar. */
  predicate ColumnBefore(a: string, b: string)
  {
    KeyLe(DayOfYear(a), DayOfYear(b))
  }

  /**
   * `get_date_columns(df)` as written: the date-named columns, stably
   * sorted by day of the year; `None` where `strptime` raises.
   */
  function DateColumnsAsWritten(cols: seq<string>): (r: Option<seq<string>>)
    ensures r.Some? <==> forall k :: 0 <= k < |DateNames(cols)| ==> DayOfYearAsWritten(DateNames(cols)[k]).Some?
    ensures r.Some? ==> multiset(r.value) == multiset(DateNames(cols))
  {
    var names := DateNames(cols);
    if forall k :: 0 <= k < |names| ==> DayOfYearAsWritten(names[k]).Some? then Some(Sort(names, ColumnBeforeAsWritten))
    else
      var k :| 0 <= k < |names| && DayOfYearAsWritten(names[k]).None?;
      assert names == DateNames(cols);
      assert !DayOfYearAsWritten(DateNames(cols)[k]).Some?;
      None
  }

  /** `get_date_columns` with a parse that accepts 29 February. */
  function DateColumns(cols: seq<string>): (r: Option<seq<string>>)
    ensures r.Some? <==> forall k :: 0 <= k < |DateNames(cols)| ==> DayOfYear(DateNames(cols)[k]).Some?
    ensures r.Some? ==> multiset(r.value) == multiset(DateNames(cols)) && SortedBy(r.value, ColumnBefore)
  {
    var names := DateNames(cols);
    if forall k :: 0 <= k < |names| ==> DayOfYear(names[k]).Some? then
      ColumnBeforeIsPreorder();
      SortSorted(names, ColumnBefore);
      Some(Sort(names, ColumnBefore))
    else
      var k :| 0 <= k < |names| && DayOfYear(names[k]).None?;
      assert names == DateNames(cols);
      assert !DayOfYear(DateNames(cols)[k]).Some?;
      None
  }

  lemma ColumnBeforeIsPreorder()
    ensures Total(ColumnBefore) && Transitive(ColumnBefore)
  {
    assert forall a, b :: KeyLe(a, b) || KeyLe(b, a);
    assert forall a, b, c :: KeyLe(a, b) && KeyLe(b, c) ==> KeyLe(a, c);
  }

  /**
   * The date columns are every date-named column of the sheet, each once
   * per occurrence, in day-of-year order; columns on the same day keep
   * their sheet order.
   */
  lemma DateColumnsSorted(cols: seq<string>)
    requires DateColumns(cols).Some?
    ensures multiset(DateColumns(cols).value) == multiset(DateNames(cols))
    ensures forall c :: c in DateColumns(cols).value <==> c in cols && IsDateColumnName(c)
    ensures forall c :: c in DateColumns(cols).value ==> DayOfYear(c).Some?
    ensures SortedBy(DateColumns(cols).value, ColumnBefore)
    ensures forall a :: TiesOf(DateColumns(cols).value, ColumnBefore, a) == TiesOf(DateNames(cols), ColumnBefore, a)
  {
    var names := DateNames(cols);
    var r := Sort(names, ColumnBefore);
    ColumnBeforeIsPreorder();
    SortSorted(names, ColumnBefore);
    forall a ensures TiesOf(r, ColumnBefore, a) == TiesOf(names, ColumnBefore, a) {
      SortStable(names, ColumnBefore, a);
    }
    forall c ensures c in r <==> c in names {
      assert c in r <==> c in multiset(r);
      assert c in names <==> c in multiset(names);
    }
    forall c | c in names ensures DayOfYear(c).Some? {
      var k :| 0 <= k < |names| && names[k] == c;
    }
  }

  /** Wherever the source's `get_date_columns` returns, the corrected one returns the same list. */
  lemma DateColumnsAgreeWithSource(cols: seq<string>)
    requires DateColumnsAsWritten(cols).Some?
    ensures DateColumns(cols) == DateColumnsAsWritten(cols)
  {
    var names := DateNames(cols);
    forall k | 0 <= k < |names| ensures DayOfYear(names[k]).Some? {
      DayOfYearAgreesWithSource(names[k], names[k]);
    }
    forall a, b | a in names && b in names ensures ColumnBeforeAsWritten(a, b) == ColumnBefore(a, b) {
      var i, j :| 0 <= i < |names| && names[i] == a && 0 <= j < |names| && names[j] == b;
      DayOfYearAgreesWithSource(a, b);
    }
    SortAgrees(names, ColumnBeforeAsWritten, ColumnBefore);
  }

  /** A sheet with a column for 29 February breaks the source's tracking view, not the corrected one. */
  lemma LeapDayColumnBreaksTracking(rows: seq<Row>)
    ensures DateColumnsAsWritten([BarcodeCol, TodayLabel(29, 2)]).None?
    ensures DateColumns([BarcodeCol, TodayLabel(29, 2)]) == Some([TodayLabel(29, 2)])
    ensures ComputeTrackingAsWritten(Table([BarcodeCol, TodayLabel(29, 2)], rows)).None?
    ensures ComputeTracking(Table([BarcodeCol, TodayLabel(29, 2)], rows)).Some?
  {
    var l := TodayLabel(29, 2);
    LeapDayRejectedAsWritten();
    TodayLabelParses(29, 2);
    assert DayOfYear(l).Some?;
    LeapSheetDateNames();
    OneDateColumn([BarcodeCol, l], l);
  }

  /** A sheet with a single date-named column: both versions list it exactly when they can parse it. */
  lemma OneDateColumn(cols: seq<string>, l: string)
    requires DateNames(cols) == [l]
    ensures DateColumnsAsWritten(cols) == if DayOfYearAsWritten(l).Some? then Some([l]) else None
    ensures DateColumns(cols) == if DayOfYear(l).Some? then Some([l]) else None
  {
    assert Sort([l], ColumnBefore) == [l];
    assert Sort([l], ColumnBeforeAsWritten) == [l];
  }

  lemma LeapSheetDateNames()
    ensures DateNames([BarcodeCol, TodayLabel(29, 2)]) == [TodayLabel(29, 2)]
  {
    TodayLabelIsDateName(29, 2);
    assert BarcodeCol[0] == 'B';
    NotDateNameByHead(BarcodeCol);
    DateNamesPair(BarcodeCol, TodayLabel(29, 2));
  }

  lemma DateNamesPair(a: string, b: string)
    requires !IsDateColumnName(a) && IsDateColumnName(b)
    ensures DateNames([a, b]) == [b]
  {
    assert [a, b][..1] == [a] && [a][..0] == [];
  }

  /** A row of the tracking summary; the attendance percentage is not modelled. */
  datatype TrackingRow = TrackingRow(
    name: string, surname: string, barcode: string,
    present: nat, absent: nat, lastPresent: string)

  /** For each date column, whether the row's stripped cell is "1". */
  function PresentFlags(r: Row, cols: seq<string>): (f: seq<bool>)
    ensures |f| == |cols|
    ensures forall j :: 0 <= j < |cols| ==> f[j] == IsOne(Cell(r, cols[j]))
  {
    seq(|cols|, j requires 0 <= j < |cols| => IsOne(Cell(r, cols[j])))
  }

  const NoneYet := "—"

  /**
   * One summary row: the identity cells, how many date columns read "1",
   * how many do not, and the latest date column that does.
   */
  function Track(r: Row, cols: seq<string>): (t: TrackingRow)
    ensures t.present == |set j | 0 <= j < |cols| && IsOne(Cell(r, cols[j]))|
    ensures t.present + t.absent == |cols|
    ensures t.name == Cell(r, NameCol) && t.surname == Cell(r, SurnameCol) && t.barcode == Cell(r, BarcodeCol)
  {
    var f := PresentFlags(r, cols);
    var n := CountTrue(f);
    CountTrueIsSize(f);
    assert (set j | 0 <= j < |f| && f[j]) == (set j | 0 <= j < |cols| && IsOne(Cell(r, cols[j])));
    TrackingRow(Cell(r, NameCol), Cell(r, SurnameCol), Cell(r, BarcodeCol), n, |cols| - n,
      match LastTrue(f)
      case None => NoneYet
      case Some(k) => cols[k])
  }

  /**
   * The body of `compute_tracking` once the date columns are known: no rows
   * when there are none, otherwise one summary row per sheet row in sheet
   * order; `None` where the date columns could not be computed.
   */
  function TrackingOver(t: Table, dates: Option<seq<string>>): (r: Option<seq<TrackingRow>>)
    ensures r.None? <==> dates.None?
    ensures r.Some? && dates.value == [] ==> r.value == []
    ensures r.Some? && dates.value != [] ==>
      |r.value| == |t.rows| && forall i :: 0 <= i < |t.rows| ==> r.value[i] == Track(t.rows[i], dates.value)
  {
    match dates
    case None => None
    case Some(cols) =>
      if cols == [] then Some([])
      else Some(seq(|t.rows|, i requires 0 <= i < |t.rows| => Track(t.rows[i], cols)))
  }

  /** `compute_tracking(df)` as the source computes it, with the year-1900 date parse. */
  function ComputeTrackingAsWritten(t: Table): (r: Option<seq<TrackingRow>>)
    ensures r.None? <==> DateColumnsAsWritten(t.columns).None?
    ensures r.Some? && DateColumnsAsWritten(t.columns).value == [] ==> r.value == []
    ensures r.Some? && DateColumnsAsWritten(t.columns).value != [] ==> |r.value| == |t.rows|
  {
    TrackingOver(t, DateColumnsAsWritten(t.columns))
  }

  /** `compute_tracking(df)` over the date columns of the leap-aware parse. */
  function ComputeTracking(t: Table): (r: Option<seq<TrackingRow>>)
    ensures r.None? <==> DateColumns(t.columns).None?
    ensures r.Some? && DateColumns(t.columns).value == [] ==> r.value == []
    ensures r.Some? && DateColumns(t.columns).value != [] ==> |r.value| == |t.rows|
  {
    TrackingOver(t, DateColumns(t.columns))
  }

  /** Wherever the source's tracking view succeeds, the corrected one shows the same summary. */
  lemma TrackingAgreesWithSource(t: Table)
    requires ComputeTrackingAsWritten(t).Some?
    ensures ComputeTracking(t) == ComputeTrackingAsWritten(t)
  {
    DateColumnsAgreeWithSource(t.columns);
  }

  /**
   * Each summary row counts the row's present date columns; present and
   * absent add up to the number of date columns; "last present" is the
   * latest date column marked present, or "—" when there is none.
   */
  lemma TrackingRowFacts(t: Table, i: nat)
    requires ComputeTracking(t).Some? && i < |ComputeTracking(t).value|
    ensures var cols, row := DateColumns(t.columns).value, ComputeTracking(t).value[i];
      && row.present == |set j | 0 <= j < |cols| && IsOne(Cell(t.rows[i], cols[j]))|
      && row.present + row.absent == |cols|
      && (row.present == 0 <==> forall j :: 0 <= j < |cols| ==> !IsOne(Cell(t.rows[i], cols[j])))
      && (row.present == |cols| <==> forall j :: 0 <= j < |cols| ==> IsOne(Cell(t.rows[i], cols[j])))
      && (row.lastPresent == NoneYet <==> row.present == 0)
      && row.name == Cell(t.rows[i], NameCol) && row.surname == Cell(t.rows[i], SurnameCol)
      && row.barcode == Cell(t.rows[i], BarcodeCol)
  {
    var cols := DateColumns(t.columns).value;
    NoDateColumnIsNoneYet(t.columns);
    var f := PresentFlags(t.rows[i], cols);
    match LastTrue(f)
    case None =>
    case Some(k) => assert cols[k] != NoneYet;
  }

  /** "Last present" is the latest date column whose stripped cell is "1". */
  lemma TrackingLastPresent(t: Table, i: nat)
    requires ComputeTracking(t).Some? && i < |ComputeTracking(t).value|
    requires ComputeTracking(t).value[i].present > 0
    ensures var cols, row := DateColumns(t.columns).value, ComputeTracking(t).value[i];
      exists k :: 0 <= k < |cols| && cols[k] == row.lastPresent && IsOne(Cell(t.rows[i], cols[k]))
        && forall j :: k < j < |cols| ==> !IsOne(Cell(t.rows[i], cols[j]))
  {
    var cols := DateColumns(t.columns).value;
    var f := PresentFlags(t.rows[i], cols);
    var k := LastTrue(f).value;
    assert f[k];
  }

  lemma NoDateColumnIsNoneYet(cols: seq<string>)
    requires DateColumns(cols).Some?
    ensures forall k :: 0 <= k < |DateColumns(cols).value| ==> DateColumns(cols).value[k] != NoneYet
  {
    var r := DateColumns(cols).value;
    DateColumnsSorted(cols);
    forall k | 0 <= k < |r| ensures r[k] != NoneYet {
      assert r[k] in r;
      var d := DashIndex(r[k]);
      assert IsDigit(r[k][..d][0]);
    }
  }
}
