/**
 * The command-line scanner (attendance_scanner.py): scan-in only, matching
 * the stripped scan against the Barcode cells exactly, saving only when a
 * cell changed, and listing today's present learners by name.
 */
module Scanner {
  import opened Text
  import opened Seqs
  import opened Wrappers
  import opened Dates
  import opened Sheets

  // ---------- Loading ----------

  /**
   * The column fixing of `load_sheet`: Barcode inserted as the second column
   * (the first when there is none), then Name and Surname appended, each
   * only when missing.
   */
  function FixColumns(t: Table): (r: Table)
    ensures var b := BarcodeEnsured(t).columns;
      r.columns == b + (if NameCol in b then [] else [NameCol]) + (if SurnameCol in b then [] else [SurnameCol])
    ensures BarcodeCol in r.columns && NameCol in r.columns && SurnameCol in r.columns
    ensures BarcodeCol !in t.columns && |t.columns| > 0 ==> r.columns[1] == BarcodeCol
    ensures BarcodeCol !in t.columns && |t.columns| == 0 ==> r.columns[0] == BarcodeCol
    ensures BarcodeCol in t.columns && NameCol in t.columns && SurnameCol in t.columns ==> r == t
    ensures |r.rows| == |t.rows|
    ensures forall i, c :: 0 <= i < |t.rows| && c in t.columns ==> Cell(r.rows[i], c) == Cell(t.rows[i], c)
    ensures forall i, c :: 0 <= i < |t.rows| && c in r.columns && c !in t.columns ==> Cell(r.rows[i], c) == ""
    ensures WellFormed(t) ==> WellFormed(r)
  {
    FixedColumnsKeepCells(t);
    FixedColumnsAddEmptyCells(t);
    FixedColumnsOrder(t);
    WithColumnEnsured(WithColumnEnsured(BarcodeEnsured(t), NameCol), SurnameCol)
  }

  lemma FixedColumnsOrder(t: Table)
    ensures var b := BarcodeEnsured(t);
      var r := WithColumnEnsured(WithColumnEnsured(b, NameCol), SurnameCol);
      && r.columns == b.columns + (if NameCol in b.columns then [] else [NameCol])
                                + (if SurnameCol in b.columns then [] else [SurnameCol])
      && (BarcodeCol !in t.columns && |t.columns| > 0 ==> r.columns[1] == BarcodeCol)
      && (BarcodeCol !in t.columns && |t.columns| == 0 ==> r.columns[0] == BarcodeCol)
  {
    var b := BarcodeEnsured(t);
    EnsureNameColumns(b);
    var r := WithColumnEnsured(WithColumnEnsured(b, NameCol), SurnameCol);
    assert r.columns[..|b.columns|] == b.columns;
  }

  lemma FixedColumnsKeepCells(t: Table)
    ensures var r := WithColumnEnsured(WithColumnEnsured(BarcodeEnsured(t), NameCol), SurnameCol);
      forall i, c :: 0 <= i < |t.rows| && c in t.columns ==> Cell(r.rows[i], c) == Cell(t.rows[i], c)
  {
    EnsureNameColumns(BarcodeEnsured(t));
  }

  lemma FixedColumnsAddEmptyCells(t: Table)
    ensures var r := WithColumnEnsured(WithColumnEnsured(BarcodeEnsured(t), NameCol), SurnameCol);
      forall i, c :: 0 <= i < |t.rows| && c in r.columns && c !in t.columns ==> Cell(r.rows[i], c) == ""
  {
    var b := BarcodeEnsured(t);
    EnsureNameColumns(b);
    var r := WithColumnEnsured(WithColumnEnsured(b, NameCol), SurnameCol);
    forall i, c | 0 <= i < |t.rows| && c in r.columns && c !in t.columns
      ensures Cell(r.rows[i], c) == ""
    {
      if c in b.columns {
        assert Cell(b.rows[i], c) == "";
      }
    }
  }

  /** Name, then Surname, appended where absent: empty new cells, every other cell kept. */
  lemma EnsureNameColumns(b: Table)
    ensures var r := WithColumnEnsured(WithColumnEnsured(b, NameCol), SurnameCol);
      && r.columns == b.columns + (if NameCol in b.columns then [] else [NameCol])
                                + (if SurnameCol in b.columns then [] else [SurnameCol])
      && |r.rows| == |b.rows|
      && (forall i, c :: 0 <= i < |b.rows| && c in b.columns ==> Cell(r.rows[i], c) == Cell(b.rows[i], c))
      && (forall i, c :: 0 <= i < |b.rows| && c in r.columns && c !in b.columns ==> Cell(r.rows[i], c) == "")
      && (WellFormed(b) ==> WellFormed(r))
  {
    var n := WithColumnEnsured(b, NameCol);
    assert n.columns == b.columns + (if NameCol in b.columns then [] else [NameCol]);
    assert SurnameCol in n.columns <==> SurnameCol in b.columns;
  }

  /** The Barcode step of `load_sheet`: inserted second, or first in a sheet without columns. */
  function BarcodeEnsured(t: Table): (r: Table)
    ensures BarcodeCol in r.columns && forall c :: c in t.columns ==> c in r.columns
    ensures BarcodeCol !in t.columns ==> |r.columns| == |t.columns| + 1
    ensures BarcodeCol !in t.columns && |t.columns| > 0 ==> r.columns[1] == BarcodeCol
    ensures BarcodeCol !in t.columns && |t.columns| == 0 ==> r.columns[0] == BarcodeCol
    ensures BarcodeCol !in t.columns ==>
      var p := if |t.columns| > 0 then 1 else 0;
      r.columns == t.columns[..p] + [BarcodeCol] + t.columns[p..]
    ensures BarcodeCol in t.columns ==> r == t
    ensures |r.rows| == |t.rows|
    ensures forall i, c :: 0 <= i < |t.rows| && c in t.columns ==> Cell(r.rows[i], c) == Cell(t.rows[i], c)
    ensures forall i, c :: 0 <= i < |t.rows| && c in r.columns && c !in t.columns ==> Cell(r.rows[i], c) == ""
    ensures WellFormed(t) ==> WellFormed(r)
  {
    if BarcodeCol in t.columns then t else WithColumn(t, if |t.columns| > 0 then 1 else 0, BarcodeCol)
  }

  /** `load_sheet` as the scanner runs it on an existing file. */
  method LoadSheet(t: Table) returns (sheet: Sheet)
    ensures fresh(sheet)
    ensures sheet.Value() == FixColumns(t)
  {
    sheet := new Sheet(t);
    if BarcodeCol !in sheet.columns {
      var at := if |sheet.columns| > 0 then 1 else 0;
      sheet.InsertColumn(at, BarcodeCol);
    }
    sheet.EnsureColumn(NameCol);
    sheet.EnsureColumn(SurnameCol);
  }

  // ---------- Marking present ----------

  /** `df.index[df["Barcode"].astype(str) == code]`: exact equality, no normalisation. */
  function ExactHits(rows: seq<Row>, code: string): (r: seq<nat>)
    ensures forall k :: 0 <= k < |r| ==> r[k] < |rows|
    ensures forall i :: 0 <= i < |rows| ==> (i in r <==> Cell(rows[i], BarcodeCol) == code)
    ensures forall j, k :: 0 <= j < k < |r| ==> r[j] < r[k]
  {
    Positions(seq(|rows|, i requires 0 <= i < |rows| => Cell(rows[i], BarcodeCol) == code))
  }

  /** The hits whose today cell reads as present (`already`) or not (`!already`), in order. */
  function HitsWhere(rows: seq<Row>, col: string, hits: seq<nat>, already: bool): (r: seq<nat>)
    ensures forall i :: i in r <==> i in hits && i < |rows| && IsOne(Cell(rows[i], col)) == already
    ensures |r| <= |hits|
  {
    if hits == [] then []
    else
      var p := HitsWhere(rows, col, hits[..|hits| - 1], already);
      var h := hits[|hits| - 1];
      assert forall i :: i in hits <==> i in hits[..|hits| - 1] || i == h;
      if h < |rows| && IsOne(Cell(rows[h], col)) == already then p + [h] else p
  }

  /** The sheet as loaded, with today's column ensured. */
  function ScanTable(t: Table, day: nat, month: nat): (r: Table)
    requires ValidDate(day, month)
    ensures TodayLabel(day, month) in r.columns && BarcodeCol in r.columns
    ensures NameCol in r.columns && SurnameCol in r.columns
    ensures |r.rows| == |t.rows|
  {
    WithColumnEnsured(FixColumns(t), TodayLabel(day, month))
  }

  /**
   * A scan that matched: the matched rows, those already present, and those
   * newly marked. `|newly|` is `marked_count`.
   */
  datatype ScanOutcome =
    | EmptyScan
    | SheetMissing
    | NotFound
    | Scanned(matches: seq<nat>, already: seq<nat>, newly: seq<nat>)

  /**
   * The scan against the rows of the loaded sheet: not found when no Barcode
   * cell equals the stripped scan; otherwise every such row, split into those
   * already present today and those to be marked.
   */
  function ScanOn(rows: seq<Row>, s: string, col: string): (o: ScanOutcome)
    ensures o.NotFound? || o.Scanned?
    ensures o.NotFound? <==> forall i :: 0 <= i < |rows| ==> Cell(rows[i], BarcodeCol) != s
    ensures o.Scanned? ==>
      && (forall k :: 0 <= k < |o.matches| ==> o.matches[k] < |rows|)
      && (forall j, k :: 0 <= j < k < |o.matches| ==> o.matches[j] < o.matches[k])
      && (forall i :: 0 <= i < |rows| ==> (i in o.matches <==> Cell(rows[i], BarcodeCol) == s))
      && (forall i :: i in o.already <==> i in o.matches && IsOne(Cell(rows[i], col)))
      && (forall i :: i in o.newly <==> i in o.matches && !IsOne(Cell(rows[i], col)))
      && |o.already| + |o.newly| == |o.matches|
  {
    var hits := ExactHits(rows, s);
    if hits == [] then NotFound
    else
      assert hits[0] in hits;
      HitsWhereSplits(rows, col, hits);
      Scanned(hits, HitsWhere(rows, col, hits, true), HitsWhere(rows, col, hits, false))
  }

  /**
   * `mark_present(code)` on the date given: the outcome and the file's
   * content afterwards (`None` is a missing file). The file is written only
   * when some cell changed, and then holds the loaded sheet with the matched
   * rows marked.
   */
  function ScanSpec(content: Option<Table>, code: string, day: nat, month: nat): (r: (ScanOutcome, Option<Table>))
    requires ValidDate(day, month)
    ensures AllSpace(code) ==> r == (EmptyScan, content)
    ensures !AllSpace(code) && content.None? ==> r == (SheetMissing, content)
    ensures !AllSpace(code) && content.Some? ==>
      r.0 == ScanOn(ScanTable(content.value, day, month).rows, Strip(code), TodayLabel(day, month))
    ensures r.1 != content ==> r.0.Scanned? && |r.0.newly| > 0
    ensures r.0.Scanned? && |r.0.newly| == 0 ==> r.1 == content
    ensures r.0.Scanned? && |r.0.newly| > 0 ==>
      && content.Some?
      && r.1 == Some(Table(ScanTable(content.value, day, month).columns,
                           MarkedAt(ScanTable(content.value, day, month).rows, TodayLabel(day, month), r.0.matches)))
  {
    StripIsTrimmed(code);
    var s := Strip(code);
    if s == "" then (EmptyScan, content)
    else if content.None? then (SheetMissing, content)
    else
      var col := TodayLabel(day, month);
      var t := ScanTable(content.value, day, month);
      var o := ScanOn(t.rows, s, col);
      if o.Scanned? && |o.newly| > 0 then (o, Some(Table(t.columns, MarkedAt(t.rows, col, o.matches))))
      else (o, content)
  }

  lemma {:induction false} HitsWhereSplits(rows: seq<Row>, col: string, hits: seq<nat>)
    requires forall k :: 0 <= k < |hits| ==> hits[k] < |rows|
    ensures |HitsWhere(rows, col, hits, true)| + |HitsWhere(rows, col, hits, false)| == |hits|
  {
    if hits != [] {
      HitsWhereSplits(rows, col, hits[..|hits| - 1]);
    }
  }

  /** `mark_present(code)` over the file, with the counting loop over the matched rows. */
  method MarkPresent(file: SheetFile, code: string, day: nat, month: nat) returns (outcome: ScanOutcome)
    requires ValidDate(day, month)
    modifies file
    ensures (outcome, file.content) == ScanSpec(old(file.content), code, day, month)
  {
    var s := Strip(code);
    if s == "" {
      return EmptyScan;
    }
    if file.content.None? {
      return SheetMissing;
    }
    var sheet := LoadSheet(file.content.value);
    var col := TodayLabel(day, month);
    sheet.EnsureColumn(col);
    var hits := ExactHits(sheet.rows, s);
    if hits == [] {
      return NotFound;
    }
    ghost var t := sheet.Value();
    var already, newly := MarkMatches(sheet, col, hits);
    outcome := Scanned(hits, already, newly);
    if |newly| > 0 {
      file.content := Some(sheet.Value());
    }
  }

  /**
   * The loop of `mark_present`: each matched row already present is
   * reported, every other one is set to "1" and counted.
   */
  method MarkMatches(sheet: Sheet, col: string, hits: seq<nat>) returns (already: seq<nat>, newly: seq<nat>)
    requires col in sheet.columns
    requires forall k :: 0 <= k < |hits| ==> hits[k] < |sheet.rows|
    requires forall j, k :: 0 <= j < k < |hits| ==> hits[j] < hits[k]
    modifies sheet
    ensures sheet.Value() == Table(old(sheet.columns), MarkedAt(old(sheet.rows), col, hits))
    ensures already == HitsWhere(old(sheet.rows), col, hits, true)
    ensures newly == HitsWhere(old(sheet.rows), col, hits, false)
  {
    ghost var rows0 := sheet.rows;
    already, newly := [], [];
    var markedCount := 0;
    for k := 0 to |hits|
      invariant sheet.columns == old(sheet.columns)
      invariant sheet.rows == MarkedAt(rows0, col, hits[..k])
      invariant already == HitsWhere(rows0, col, hits[..k], true)
      invariant newly == HitsWhere(rows0, col, hits[..k], false)
      invariant markedCount == |newly|
    {
      var i := hits[k];
      MatchStep(rows0, col, hits, k, sheet.rows, already, newly);
      var wasOne := sheet.MarkCell(i, col);
      if wasOne {
        already := already + [i];
      } else {
        newly := newly + [i];
        markedCount := markedCount + 1;
      }
    }
    assert hits[..|hits|] == hits;
  }

  /** One turn of the loop of `MarkMatches`, stated over the matches handled so far. */
  lemma MatchStep(rows: seq<Row>, col: string, hits: seq<nat>, k: nat,
                  cur: seq<Row>, already: seq<nat>, newly: seq<nat>)
    requires forall j :: 0 <= j < |hits| ==> hits[j] < |rows|
    requires forall j, l :: 0 <= j < l < |hits| ==> hits[j] < hits[l]
    requires k < |hits| && cur == MarkedAt(rows, col, hits[..k])
    requires already == HitsWhere(rows, col, hits[..k], true)
    requires newly == HitsWhere(rows, col, hits[..k], false)
    ensures hits[k] < |cur| && cur[hits[k]] == rows[hits[k]]
    ensures MarkedAt(rows, col, hits[..k + 1]) == cur[hits[k] := MarkRow(cur[hits[k]], col)]
    ensures IsOne(Cell(cur[hits[k]], col)) ==>
      already + [hits[k]] == HitsWhere(rows, col, hits[..k + 1], true)
      && newly == HitsWhere(rows, col, hits[..k + 1], false)
    ensures !IsOne(Cell(cur[hits[k]], col)) ==>
      already == HitsWhere(rows, col, hits[..k + 1], true)
      && newly + [hits[k]] == HitsWhere(rows, col, hits[..k + 1], false)
  {
    NotInPrefix(hits, k);
    MarkedAtStep(rows, col, hits[..k], hits[k]);
    HitsWhereStep(rows, col, hits[..k], hits[k]);
  }

  lemma HitsWhereStep(rows: seq<Row>, col: string, done: seq<nat>, i: nat)
    requires i < |rows| && forall k :: 0 <= k < |done| ==> done[k] < |rows|
    ensures HitsWhere(rows, col, done + [i], true)
      == HitsWhere(rows, col, done, true) + (if IsOne(Cell(rows[i], col)) then [i] else [])
    ensures HitsWhere(rows, col, done + [i], false)
      == HitsWhere(rows, col, done, false) + (if IsOne(Cell(rows[i], col)) then [] else [i])
  {
    assert (done + [i])[..|done|] == done;
  }

  // ---------- Properties of scanning ----------

  lemma TodayIsNotIdentity(day: nat, month: nat)
    requires ValidDate(day, month)
    ensures TodayLabel(day, month) != BarcodeCol
    ensures TodayLabel(day, month) != NameCol && TodayLabel(day, month) != SurnameCol
  {
    var l := TodayLabel(day, month);
    assert IsDigit(l[0]) by { assert l[0] == l[..|Decimal(day)|][0]; }
    assert BarcodeCol[0] == 'B' && NameCol[0] == 'N' && SurnameCol[0] == 'S';
  }

  /** When the file is written, it holds the loaded sheet with exactly the matched rows' today cells set. */
  lemma ScanSaves(content: Option<Table>, code: string, day: nat, month: nat)
    requires ValidDate(day, month)
    requires ScanSpec(content, code, day, month).0.Scanned? && |ScanSpec(content, code, day, month).0.newly| > 0
    ensures var r, t := ScanSpec(content, code, day, month), ScanTable(content.value, day, month);
      && r.1 == Some(Table(t.columns, MarkedAt(t.rows, TodayLabel(day, month), r.0.matches)))
      && TodayLabel(day, month) in r.1.value.columns
      && |r.1.value.rows| == |t.rows|
      && (forall i :: 0 <= i < |t.rows| && i in r.0.matches ==> IsOne(Cell(r.1.value.rows[i], TodayLabel(day, month))))
      && (forall i, c :: 0 <= i < |t.rows| && (c != TodayLabel(day, month) || i !in r.0.matches) ==>
            Cell(r.1.value.rows[i], c) == Cell(t.rows[i], c))
  {
    var col := TodayLabel(day, month);
    var t := ScanTable(content.value, day, month);
    MarkedAtEffect(t.rows, col, ScanSpec(content, code, day, month).0.matches);
  }

  lemma HitsWhereNoneNew(rows: seq<Row>, col: string, hits: seq<nat>)
    requires forall k :: 0 <= k < |hits| ==> hits[k] < |rows| && IsOne(Cell(rows[hits[k]], col))
    ensures HitsWhere(rows, col, hits, false) == []
  {
  }

  lemma SameExactHits(a: seq<Row>, b: seq<Row>, code: string)
    requires |a| == |b| && forall i :: 0 <= i < |a| ==> Cell(a[i], BarcodeCol) == Cell(b[i], BarcodeCol)
    ensures ExactHits(a, code) == ExactHits(b, code)
  {
    assert seq(|a|, i requires 0 <= i < |a| => Cell(a[i], BarcodeCol) == code)
        == seq(|b|, i requires 0 <= i < |b| => Cell(b[i], BarcodeCol) == code);
  }

  /** A sheet that already has every column the scan needs loads unchanged. */
  lemma ScanTableOfLoaded(t: Table, day: nat, month: nat)
    requires ValidDate(day, month)
    requires BarcodeCol in t.columns && NameCol in t.columns && SurnameCol in t.columns
    requires TodayLabel(day, month) in t.columns
    ensures ScanTable(t, day, month) == t
  {
  }

  /** Scanning again rows that a scan has marked finds the same rows, all already present. */
  lemma RescanMarked(rows: seq<Row>, s: string, col: string)
    requires col != BarcodeCol
    requires ScanOn(rows, s, col).Scanned?
    ensures var o := ScanOn(rows, s, col);
      var o2 := ScanOn(MarkedAt(rows, col, o.matches), s, col);
      o2.Scanned? && o2.matches == o.matches && o2.newly == []
  {
    var hits := ScanOn(rows, s, col).matches;
    var m := MarkedAt(rows, col, hits);
    MarkedAtEffect(rows, col, hits);
    SameExactHits(m, rows, s);
    forall k | 0 <= k < |hits| ensures IsOne(Cell(m[hits[k]], col)) {
      assert hits[k] in hits;
    }
    HitsWhereNoneNew(m, col, hits);
  }

  /** Scanning the same code again the same day marks nothing and leaves the file as it was. */
  lemma RepeatScanIsNoOp(content: Option<Table>, code: string, day: nat, month: nat)
    requires ValidDate(day, month)
    requires ScanSpec(content, code, day, month).0.Scanned?
    ensures ScanSpec(ScanSpec(content, code, day, month).1, code, day, month).1 == ScanSpec(content, code, day, month).1
    ensures ScanSpec(ScanSpec(content, code, day, month).1, code, day, month).0.Scanned?
    ensures ScanSpec(ScanSpec(content, code, day, month).1, code, day, month).0.newly == []
    ensures ScanSpec(ScanSpec(content, code, day, month).1, code, day, month).0.matches
      == ScanSpec(content, code, day, month).0.matches
  {
    var col := TodayLabel(day, month);
    TodayIsNotIdentity(day, month);
    var t := ScanTable(content.value, day, month);
    var o := ScanOn(t.rows, Strip(code), col);
    if |o.newly| > 0 {
      var m := Table(t.columns, MarkedAt(t.rows, col, o.matches));
      ScanTableOfLoaded(m, day, month);
      RescanMarked(t.rows, Strip(code), col);
    }
  }

  // ---------- Echoing the marked rows ----------

  /**
   * The echo after saving as written: every matched row whose today cell
   * now reads as present, which is every matched row.
   */
  function EchoAsWritten(after: seq<Row>, col: string, matches: seq<nat>): (r: seq<nat>)
    ensures forall i :: i in r <==> i in matches && i < |after| && IsOne(Cell(after[i], col))
  {
    HitsWhere(after, col, matches, true)
  }

  /**
   * Once the sheet is saved, the echo as written also announces as "marked
   * PRESENT" each matched row that was already present and was reported so.
   */
  lemma EchoRepeatsAlreadyPresent(content: Option<Table>, code: string, day: nat, month: nat, i: nat)
    requires ValidDate(day, month)
    requires ScanSpec(content, code, day, month).0.Scanned?
    requires |ScanSpec(content, code, day, month).0.newly| > 0
    requires i in ScanSpec(content, code, day, month).0.already
    ensures var o, col := ScanSpec(content, code, day, month).0, TodayLabel(day, month);
      var t := ScanTable(content.value, day, month);
      i in EchoAsWritten(MarkedAt(t.rows, col, o.matches), col, o.matches) && i !in o.newly
  {
    var col := TodayLabel(day, month);
    var t := ScanTable(content.value, day, month);
    MarkedAtEffect(t.rows, col, ScanSpec(content, code, day, month).0.matches);
  }

  /** Two learners sharing a barcode, the first already present today: the echo names both. */
  lemma EchoExample()
    ensures var col, a, b := "1-Jan", map[BarcodeCol := "7", "1-Jan" := "1"], map[BarcodeCol := "7", "1-Jan" := ""];
      var o := ScanOn([a, b], "7", col);
      o.Scanned? && 0 in o.already && 1 in o.newly
      && 0 in EchoAsWritten(MarkedAt([a, b], col, o.matches), col, o.matches) && 0 !in o.newly
  {
    var col, a, b := "1-Jan", map[BarcodeCol := "7", "1-Jan" := "1"], map[BarcodeCol := "7", "1-Jan" := ""];
    assert Cell(a, BarcodeCol) == "7" && Cell(b, BarcodeCol) == "7";
    assert Cell(a, col) == "1" && Cell(b, col) == "";
    assert Trimmed("1") by { assert "1"[0] == '1'; }
    StripOfTrimmed("1");
    StripIsTrimmed("");
    var o := ScanOn([a, b], "7", col);
    assert o.Scanned? && 0 in o.matches && 1 in o.matches;
    assert 0 in o.already && 0 !in o.newly && 1 in o.newly;
    MarkedAtEffect([a, b], col, o.matches);
    assert IsOne(Cell(MarkedAt([a, b], col, o.matches)[0], col));
  }

  /**
   * The echo as intended lists the newly marked rows: exactly the rows the
   * saved sheet changes.
   */
  lemma NewlyAreChangedRows(content: Option<Table>, code: string, day: nat, month: nat)
    requires ValidDate(day, month)
    requires ScanSpec(content, code, day, month).0.Scanned? && |ScanSpec(content, code, day, month).0.newly| > 0
    ensures var r, t := ScanSpec(content, code, day, month), ScanTable(content.value, day, month);
      forall i :: 0 <= i < |t.rows| ==> (i in r.0.newly <==> r.1.value.rows[i] != t.rows[i])
  {
    NewlyChanged(ScanTable(content.value, day, month).rows, Strip(code), TodayLabel(day, month));
  }

  lemma NewlyChanged(rows: seq<Row>, s: string, col: string)
    requires ScanOn(rows, s, col).Scanned?
    ensures var o := ScanOn(rows, s, col);
      forall i :: 0 <= i < |rows| ==> (i in o.newly <==> MarkedAt(rows, col, o.matches)[i] != rows[i])
  {
    var o := ScanOn(rows, s, col);
    forall i | 0 <= i < |rows| ensures i in o.newly <==> MarkedAt(rows, col, o.matches)[i] != rows[i] {
      ChangedIffNewly(rows, col, o.matches, o.newly, i);
    }
  }

  /** A row changes exactly when it is matched and its cell did not yet read as present. */
  lemma ChangedIffNewly(rows: seq<Row>, col: string, matches: seq<nat>, newly: seq<nat>, i: nat)
    requires i < |rows| && (i in newly <==> i in matches && !IsOne(Cell(rows[i], col)))
    ensures i in newly <==> MarkedAt(rows, col, matches)[i] != rows[i]
  {
    if i in newly {
      assert IsOne(Cell(MarkedAt(rows, col, matches)[i], col));
    }
  }

  // ---------- Today's list ----------

  /** `sort_values(by=["Name", "Surname"])`: by Name, then by Surname. */
  predicate RowBefore(a: Row, b: Row)
  {
    StrLt(Cell(a, NameCol), Cell(b, NameCol))
    || (Cell(a, NameCol) == Cell(b, NameCol) && StrLe(Cell(a, SurnameCol), Cell(b, SurnameCol)))
  }

  lemma RowBeforeIsPreorder()
    ensures Total(RowBefore) && Transitive(RowBefore)
  {
    StrLeIsTotalOrder();
  }

  datatype TodayListing = NoSheet | NoScansYet | Listing(rows: seq<Row>)

  /** `show_today_list` on the date given: the rows listed, in order. */
  function TodayList(content: Option<Table>, day: nat, month: nat): (r: TodayListing)
    requires ValidDate(day, month)
    ensures content.None? <==> r.NoSheet?
    ensures r.NoScansYet? <==> content.Some? && TodayLabel(day, month) !in FixColumns(content.value).columns
    ensures r.Listing? ==> |r.rows| <= |content.value.rows|
  {
    if content.None? then NoSheet
    else
      var t := FixColumns(content.value);
      var col := TodayLabel(day, month);
      if col !in t.columns then NoScansYet
      else
        WithMarkShorter(t.rows, col);
        Listing(Sort(WithMark(t.rows, col, true), RowBefore))
  }

  lemma {:induction false} WithMarkShorter(rows: seq<Row>, col: string)
    ensures |WithMark(rows, col, true)| <= |rows|
  {
    WithMarkSplits(rows, col);
    assert |multiset(WithMark(rows, col, true))| <= |multiset(rows)|;
  }

  /**
   * Today's list holds each row of the loaded sheet whose today cell is
   * exactly "1", as often as it occurs, ordered by Name then Surname.
   */
  lemma TodayListFacts(content: Option<Table>, day: nat, month: nat)
    requires ValidDate(day, month)
    requires TodayList(content, day, month).Listing?
    ensures var l, t := TodayList(content, day, month).rows, FixColumns(content.value);
      && multiset(l) == multiset(WithMark(t.rows, TodayLabel(day, month), true))
      && (forall x :: x in l <==> x in t.rows && Cell(x, TodayLabel(day, month)) == "1")
      && SortedBy(l, RowBefore)
      && forall a :: TiesOf(l, RowBefore, a) == TiesOf(WithMark(t.rows, TodayLabel(day, month), true), RowBefore, a)
  {
    var t := FixColumns(content.value);
    var p := WithMark(t.rows, TodayLabel(day, month), true);
    var l := Sort(p, RowBefore);
    RowBeforeIsPreorder();
    SortSorted(p, RowBefore);
    forall a ensures TiesOf(l, RowBefore, a) == TiesOf(p, RowBefore, a) {
      SortStable(p, RowBefore, a);
    }
    forall x ensures x in l <==> x in p {
      assert x in l <==> x in multiset(l);
      assert x in p <==> x in multiset(p);
    }
  }
}
