/**
 * The database layer of db.py without SQL: the learners table keyed by
 * normalised barcode, the attendance marks, the IN/OUT log, the wide sheet
 * pivoted from the marks, and seeding the learners from a CSV-shaped table.
 */
module Db {
  import opened Text
  import opened Seqs
  import opened Wrappers
  import opened Barcodes
  import opened Sheets
  import opened InOut

  /** A row of `learners`; `barcode` is the primary key, stored normalised. */
  datatype Learner = Learner(barcode: string, name: string, surname: string,
                             grade: string, area: string, dob: string)

  /** A row of `attendance`. */
  datatype Mark = Mark(barcode: string, dateLabel: string, dateStr: string, timeStr: string, mark: string)

  /** Why a write to `learners` raised: a row without a Barcode, or a repeated key. */
  datatype DbError = MissingColumn(column: string) | DuplicateKey(key: string)

  const GradeCol := "Grade"
  const AreaCol := "Area"
  const DobCol := "Date Of Birth"
  /** The stored name of the date-of-birth column, shown when the table is empty. */
  const DobStored := "Date_Of_Birth"

  function Keys(ls: seq<Learner>): (r: seq<string>)
    ensures |r| == |ls| && forall i :: 0 <= i < |ls| ==> r[i] == ls[i].barcode
  {
    seq(|ls|, i requires 0 <= i < |ls| => ls[i].barcode)
  }

  // ---------- Replacing the learners ----------

  /** The key an input row is stored under: `norm_barcode(r["Barcode"])`. */
  function KeyOf(r: Row): (k: string)
    ensures k != "" && (k == "0" || k[0] != '0')
  {
    Norm(Cell(r, BarcodeCol))
  }

  /** The learner an input row becomes; a missing column reads as "". */
  function LearnerOf(r: Row): (l: Learner)
    ensures l.barcode == KeyOf(r)
    ensures l.name == Cell(r, NameCol) && l.surname == Cell(r, SurnameCol)
    ensures l.grade == Cell(r, GradeCol) && l.area == Cell(r, AreaCol) && l.dob == Cell(r, DobCol)
  {
    Learner(KeyOf(r), Cell(r, NameCol), Cell(r, SurnameCol), Cell(r, GradeCol), Cell(r, AreaCol), Cell(r, DobCol))
  }

  function RowKeys(rows: seq<Row>): (r: seq<string>)
    ensures |r| == |rows| && forall i :: 0 <= i < |rows| ==> r[i] == KeyOf(rows[i])
  {
    seq(|rows|, i requires 0 <= i < |rows| => KeyOf(rows[i]))
  }

  /** The first position whose key already occurred earlier, if any. */
  function FirstRepeat(keys: seq<string>): (r: Option<nat>)
    ensures r.None? <==> NoDuplicates(keys)
    ensures r.Some? ==> r.value < |keys| && keys[r.value] in keys[..r.value] && NoDuplicates(keys[..r.value])
  {
    if keys == [] then None
    else
      var n := |keys| - 1;
      var p := FirstRepeat(keys[..n]);
      assert forall i :: 0 <= i < n ==> keys[..n][i] == keys[i];
      match p
      case Some(j) =>
        assert keys[..n][..j] == keys[..j];
        Some(j)
      case None =>
        if keys[n] in keys[..n] then Some(n)
        else
          assert forall i :: 0 <= i < n ==> keys[i] != keys[n];
          None
  }

  lemma {:induction false} FirstRepeatExtends(keys: seq<string>, n: nat)
    requires n <= |keys| && FirstRepeat(keys[..n]).Some?
    ensures FirstRepeat(keys) == FirstRepeat(keys[..n])
    decreases |keys|
  {
    if n < |keys| {
      var m := |keys| - 1;
      assert keys[..m][..n] == keys[..n];
      FirstRepeatExtends(keys[..m], n);
      FirstRepeatOfSome(keys);
    } else {
      assert keys[..n] == keys;
    }
  }

  lemma FirstRepeatOfSome(keys: seq<string>)
    requires keys != [] && FirstRepeat(keys[..|keys| - 1]).Some?
    ensures FirstRepeat(keys) == FirstRepeat(keys[..|keys| - 1])
  {
  }

  /** One step of the insert loop: a repeated key is the first repeat of the whole input. */
  lemma FirstRepeatStep(keys: seq<string>, i: nat)
    requires i < |keys| && FirstRepeat(keys[..i]).None?
    ensures keys[..i + 1] == keys[..i] + [keys[i]]
    ensures keys[i] in keys[..i] ==> FirstRepeat(keys) == Some(i)
    ensures keys[i] !in keys[..i] ==> FirstRepeat(keys[..i + 1]).None?
  {
    assert keys[..i + 1] == keys[..i] + [keys[i]];
    assert keys[..i + 1][..i] == keys[..i];
    if keys[i] in keys[..i] {
      FirstRepeatExtends(keys, i + 1);
    }
  }

  /**
   * What `replace_learners_from_df` stores: every input row, in order, with
   * its barcode normalised; it raises when rows lack a Barcode column or two
   * rows share a normalised barcode.
   */
  function LearnersFrom(t: Table): (r: Result<seq<Learner>, DbError>)
    ensures r == Err(MissingColumn(BarcodeCol)) <==> |t.rows| > 0 && BarcodeCol !in t.columns
    ensures r.Ok? <==> (|t.rows| == 0 || BarcodeCol in t.columns) && NoDuplicates(RowKeys(t.rows))
    ensures r.Ok? ==> |r.value| == |t.rows| && NoDuplicates(Keys(r.value))
    ensures r.Ok? ==> forall i :: 0 <= i < |t.rows| ==> r.value[i] == LearnerOf(t.rows[i])
    ensures r.Err? && r.error.DuplicateKey? ==>
      exists i, j :: 0 <= i < j < |t.rows| && KeyOf(t.rows[i]) == r.error.key && KeyOf(t.rows[j]) == r.error.key
  {
    var keys := RowKeys(t.rows);
    if |t.rows| > 0 && BarcodeCol !in t.columns then Err(MissingColumn(BarcodeCol))
    else
      match FirstRepeat(keys)
      case Some(j) =>
        var i :| 0 <= i < j && keys[..j][i] == keys[j];
        assert keys[i] == keys[j];
        Err(DuplicateKey(keys[j]))
      case None =>
        var ls := seq(|t.rows|, i requires 0 <= i < |t.rows| => LearnerOf(t.rows[i]));
        assert Keys(ls) == keys;
        Ok(ls)
  }

  /** Deleting the rows whose key is `key`: every other row, in order. */
  function Without(ls: seq<Learner>, key: string): (r: seq<Learner>)
    ensures forall l :: l in r <==> l in ls && l.barcode != key
    ensures |r| <= |ls|
    ensures key !in Keys(ls) ==> r == ls
  {
    if ls == [] then []
    else
      var n := |ls| - 1;
      var p := Without(ls[..n], key);
      assert ls == ls[..n] + [ls[n]];
      assert key in Keys(ls[..n]) ==> key in Keys(ls) by {
        assert Keys(ls) == Keys(ls[..n]) + [ls[n].barcode];
      }
      if ls[n].barcode == key then p else p + [ls[n]]
  }

  /** The learners kept stay in table order: the delete distributes over concatenation. */
  lemma {:induction false} WithoutAppend(a: seq<Learner>, b: seq<Learner>, key: string)
    ensures Without(a + b, key) == Without(a, key) + Without(b, key)
  {
    if b == [] {
      assert a + b == a;
    } else {
      var n := |b| - 1;
      var last := if b[n].barcode == key then [] else [b[n]];
      WithoutAppend(a, b[..n], key);
      WithoutSnoc(a, b, key);
      WithoutLast(b, key);
      Glue(Without(a + b, key), Without(a, key), Without(b, key), Without(b[..n], key), last);
    }
  }

  lemma WithoutSnoc(a: seq<Learner>, b: seq<Learner>, key: string)
    requires b != []
    ensures var n := |b| - 1;
      Without(a + b, key) == Without(a + b[..n], key) + (if b[n].barcode == key then [] else [b[n]])
  {
    var ab, n := a + b, |b| - 1;
    WithoutLast(ab, key);
    assert ab[|ab| - 1] == b[n];
    assert ab[..|ab| - 1] == a + b[..n];
  }

  lemma WithoutLast(s: seq<Learner>, key: string)
    requires s != []
    ensures var l := s[|s| - 1];
      Without(s, key) == Without(s[..|s| - 1], key) + (if l.barcode == key then [] else [l])
  {
  }

  /** A single learner is kept exactly when its key differs. */
  lemma WithoutOne(l: Learner, key: string)
    ensures Without([l], key) == if l.barcode == key then [] else [l]
  {
    assert [l][..0] == [];
  }

  /** With unique keys, a delete removes one row when the key is present and none otherwise. */
  lemma {:induction false} WithoutRemovesAtMostOne(ls: seq<Learner>, key: string)
    requires NoDuplicates(Keys(ls))
    ensures |ls| - |Without(ls, key)| == if key in Keys(ls) then 1 else 0
    ensures NoDuplicates(Keys(Without(ls, key)))
    decreases |ls|
  {
    if ls != [] {
      var n := |ls| - 1;
      var q := ls[..n];
      assert Keys(ls) == Keys(q) + [ls[n].barcode];
      NoDuplicatesSnoc(Keys(q), ls[n].barcode);
      WithoutRemovesAtMostOne(q, key);
      var p := Without(q, key);
      if ls[n].barcode != key {
        assert Keys(p + [ls[n]]) == Keys(p) + [ls[n].barcode];
        KeysOfSubset(p, q);
        NoDuplicatesSnoc(Keys(p), ls[n].barcode);
      }
    }
  }

  lemma KeysOfSubset(p: seq<Learner>, q: seq<Learner>)
    requires forall l :: l in p ==> l in q
    ensures forall x :: x in Keys(p) ==> x in Keys(q)
  {
    forall x | x in Keys(p) ensures x in Keys(q) {
      var i :| 0 <= i < |p| && Keys(p)[i] == x;
      assert p[i] in q;
      var j :| 0 <= j < |q| && q[j] == p[i];
      assert Keys(q)[j] == x;
    }
  }

  // ---------- The wide sheet ----------

  /** The columns of the learners sheet as `get_learners_df` renames them. */
  const LearnerColumns := [BarcodeCol, NameCol, SurnameCol, GradeCol, AreaCol, DobCol]
  /** The columns of an empty learners table, which is not renamed. */
  const StoredColumns := [BarcodeCol, NameCol, SurnameCol, GradeCol, AreaCol, DobStored]

  function LearnerRow(l: Learner): Row
  {
    map[BarcodeCol := l.barcode, NameCol := l.name, SurnameCol := l.surname,
        GradeCol := l.grade, AreaCol := l.area, DobCol := l.dob]
  }

  /** `get_learners_df`. */
  function LearnersTable(ls: seq<Learner>): (t: Table)
    ensures ls == [] ==> t == Table(StoredColumns, [])
    ensures ls != [] ==> t.columns == LearnerColumns && |t.rows| == |ls|
    ensures forall i :: 0 <= i < |t.rows| ==>
      && Cell(t.rows[i], BarcodeCol) == ls[i].barcode && Cell(t.rows[i], NameCol) == ls[i].name
      && Cell(t.rows[i], SurnameCol) == ls[i].surname && Cell(t.rows[i], GradeCol) == ls[i].grade
      && Cell(t.rows[i], AreaCol) == ls[i].area && Cell(t.rows[i], DobCol) == ls[i].dob
  {
    if ls == [] then Table(StoredColumns, [])
    else Table(LearnerColumns, seq(|ls|, i requires 0 <= i < |ls| => LearnerRow(ls[i])))
  }

  function MarkLabels(marks: seq<Mark>): (r: seq<string>)
    ensures |r| == |marks| && forall i :: 0 <= i < |marks| ==> r[i] == marks[i].dateLabel
  {
    seq(|marks|, i requires 0 <= i < |marks| => marks[i].dateLabel)
  }

  /** The pivot's date columns: each label once, in increasing string order. */
  function Labels(marks: seq<Mark>): (r: seq<string>)
    ensures forall x :: x in r <==> x in MarkLabels(marks)
    ensures forall i, j :: 0 <= i < j < |r| ==> StrLt(r[i], r[j])
  {
    SortedDistinctFacts(MarkLabels(marks));
    Sort(Distinct(MarkLabels(marks)), StrLe)
  }

  lemma SortedDistinctFacts(s: seq<string>)
    ensures var r := Sort(Distinct(s), StrLe);
      && (forall x :: x in r <==> x in s)
      && (forall i, j :: 0 <= i < j < |r| ==> StrLt(r[i], r[j]))
  {
    var d := Distinct(s);
    var r := Sort(d, StrLe);
    StrLeIsTotalOrder();
    assert Total(StrLe) && Transitive(StrLe);
    SortSorted(d, StrLe);
    SortKeepsNoDuplicates(d, StrLe);
    forall x ensures x in r <==> x in d {
      assert x in r <==> x in multiset(r);
      assert x in d <==> x in multiset(d);
    }
  }

  /** `aggfunc="last"`: the mark of the last row for this barcode and label, if any. */
  function LastMark(marks: seq<Mark>, barcode: string, dateLabel: string): (v: Option<string>)
    ensures v.None? <==> forall k :: 0 <= k < |marks| ==> marks[k].barcode != barcode || marks[k].dateLabel != dateLabel
    ensures v.Some? ==> exists k :: (0 <= k < |marks| && marks[k].barcode == barcode && marks[k].dateLabel == dateLabel
      && v.value == marks[k].mark
      && forall j :: k < j < |marks| ==> marks[j].barcode != barcode || marks[j].dateLabel != dateLabel)
  {
    var flags := seq(|marks|, i requires 0 <= i < |marks| => marks[i].barcode == barcode && marks[i].dateLabel == dateLabel);
    assert forall i :: 0 <= i < |marks| ==> (flags[i] <==> marks[i].barcode == barcode && marks[i].dateLabel == dateLabel);
    match LastTrue(flags)
    case None => None
    case Some(k) =>
      assert flags[k];
      Some(marks[k].mark)
  }

  /** The merged cell: the last mark, "" (`fillna`) where there is none. */
  function WideCell(marks: seq<Mark>, barcode: string, dateLabel: string): (c: string)
    ensures (forall k :: 0 <= k < |marks| ==> marks[k].barcode != barcode || marks[k].dateLabel != dateLabel) ==> c == ""
    ensures (exists k :: 0 <= k < |marks| && marks[k].barcode == barcode && marks[k].dateLabel == dateLabel) ==>
      exists k :: (0 <= k < |marks| && marks[k].barcode == barcode && marks[k].dateLabel == dateLabel
        && c == marks[k].mark
        && forall j :: k < j < |marks| ==> marks[j].barcode != barcode || marks[j].dateLabel != dateLabel)
  {
    match LastMark(marks, barcode, dateLabel)
    case None => ""
    case Some(v) => v
  }

  /**
   * `get_wide_sheet`: the learners table, and when there are learners and
   * marks, one more column per label holding each learner's last mark.
   */
  function WideSheet(ls: seq<Learner>, marks: seq<Mark>): (t: Table)
    requires forall k :: 0 <= k < |marks| ==> marks[k].dateLabel !in LearnerColumns
    ensures ls == [] || marks == [] ==> t == LearnersTable(ls)
  {
    if ls == [] || marks == [] then LearnersTable(ls)
    else
      var labels := Labels(marks);
      Table(LearnerColumns + labels,
            seq(|ls|, i requires 0 <= i < |ls| =>
              LearnerRow(ls[i]) + map lab | lab in labels :: WideCell(marks, ls[i].barcode, lab)))
  }

  /** One row of the merge: the learner's own cells, then one cell per label. */
  lemma WideRowFacts(l: Learner, marks: seq<Mark>, labels: seq<string>)
    requires forall lab :: lab in labels ==> lab !in LearnerColumns
    ensures var m := LearnerRow(l) + map lab | lab in labels :: WideCell(marks, l.barcode, lab);
      && (forall c :: c in LearnerColumns ==> Cell(m, c) == Cell(LearnerRow(l), c))
      && (forall lab :: lab in labels ==> Cell(m, lab) == WideCell(marks, l.barcode, lab))
      && m.Keys == set c | c in LearnerColumns + labels
  {
    var m := LearnerRow(l) + map lab | lab in labels :: WideCell(marks, l.barcode, lab);
    assert LearnerRow(l).Keys == set c | c in LearnerColumns;
    assert forall c :: c in LearnerColumns + labels <==> c in LearnerColumns || c in labels;
  }

  lemma LearnerColumnsDistinct()
    ensures NoDuplicates(LearnerColumns)
  {
    var heads := seq(6, i requires 0 <= i < 6 => LearnerColumns[i][0]);
    assert heads == ['B', 'N', 'S', 'G', 'A', 'D'];
  }

  /** The wide sheet's columns: the learner columns, then the labels, none twice. */
  lemma WideColumnsDistinct(marks: seq<Mark>)
    requires forall k :: 0 <= k < |marks| ==> marks[k].dateLabel !in LearnerColumns
    ensures forall lab :: lab in Labels(marks) ==> lab !in LearnerColumns
    ensures NoDuplicates(LearnerColumns + Labels(marks))
  {
    var labels := Labels(marks);
    forall lab | lab in labels ensures lab !in LearnerColumns {
      var k :| 0 <= k < |marks| && MarkLabels(marks)[k] == lab;
    }
    var cs := LearnerColumns + labels;
    LearnerColumnsDistinct();
    forall i, j | 0 <= i < j < |cs| ensures cs[i] != cs[j] {
      if j < 6 {
        assert cs[i] == LearnerColumns[i] && cs[j] == LearnerColumns[j];
      } else if i < 6 {
        assert cs[j] in labels;
      } else {
        assert StrLt(labels[i - 6], labels[j - 6]);
      }
    }
  }

  /**
   * With learners and marks, the wide sheet keeps every learner, in order,
   * with their own fields, then the labels in increasing order, each cell
   * holding the learner's last mark for that label or "".
   */
  lemma WideSheetFacts(ls: seq<Learner>, marks: seq<Mark>)
    requires forall k :: 0 <= k < |marks| ==> marks[k].dateLabel !in LearnerColumns
    requires ls != [] && marks != []
    ensures var t := WideSheet(ls, marks);
      && t.columns == LearnerColumns + Labels(marks)
      && |t.rows| == |ls|
      && (forall i, c :: 0 <= i < |ls| && c in LearnerColumns ==> Cell(t.rows[i], c) == Cell(LearnersTable(ls).rows[i], c))
      && (forall i, lab :: 0 <= i < |ls| && lab in Labels(marks) ==> Cell(t.rows[i], lab) == WideCell(marks, ls[i].barcode, lab))
      && WellFormed(t)
  {
    var labels := Labels(marks);
    var t := WideSheet(ls, marks);
    WideColumnsDistinct(marks);
    forall i | 0 <= i < |ls|
      ensures forall c :: c in LearnerColumns ==> Cell(t.rows[i], c) == Cell(LearnersTable(ls).rows[i], c)
      ensures forall lab :: lab in labels ==> Cell(t.rows[i], lab) == WideCell(marks, ls[i].barcode, lab)
      ensures t.rows[i].Keys == set c | c in LearnerColumns + labels
    {
      WideRowFacts(ls[i], marks, labels);
      assert LearnersTable(ls).rows[i] == LearnerRow(ls[i]);
    }
  }

  // ---------- Seeding from a CSV ----------

  /** No later name in `hs` equals the name at `k`. */
  predicate LastWithName(hs: seq<string>, k: nat)
    requires k < |hs|
  {
    forall j :: k < j < |hs| ==> hs[j] != hs[k]
  }

  lemma LastWithNamePrefix(hs: seq<string>)
    requires hs != []
    ensures forall k :: 0 <= k < |hs| - 1 && LastWithName(hs, k) ==>
      LastWithName(hs[..|hs| - 1], k) && hs[k] != hs[|hs| - 1] && hs[..|hs| - 1][k] == hs[k]
  {
  }

  /** A row re-keyed from `cols` to the names `hs`; a later column wins a clash. */
  function Rekey(r: Row, cols: seq<string>, hs: seq<string>): (m: Row)
    requires |hs| == |cols|
    ensures forall k :: 0 <= k < |cols| && LastWithName(hs, k) ==> Cell(m, hs[k]) == Cell(r, cols[k])
  {
    if cols == [] then map[]
    else
      var n := |cols| - 1;
      var p := Rekey(r, cols[..n], hs[..n]);
      LastWithNamePrefix(hs);
      p[hs[n] := Cell(r, cols[n])]
  }

  /**
   * `csv_df.columns = [c.strip() for c in csv_df.columns]`: each column keeps
   * its cells under its stripped name, unless a later column strips to the
   * same name.
   */
  function StripHeaders(t: Table): (r: Table)
    ensures |r.columns| == |t.columns| && forall k :: 0 <= k < |t.columns| ==> r.columns[k] == Strip(t.columns[k])
    ensures |r.rows| == |t.rows|
    ensures forall i, k :: 0 <= i < |t.rows| && 0 <= k < |t.columns| && LastWithName(r.columns, k) ==>
      Cell(r.rows[i], r.columns[k]) == Cell(t.rows[i], t.columns[k])
  {
    var hs := seq(|t.columns|, k requires 0 <= k < |t.columns| => Strip(t.columns[k]));
    Table(hs, seq(|t.rows|, i requires 0 <= i < |t.rows| => Rekey(t.rows[i], t.columns, hs)))
  }

  /** The columns the seed keeps, in its order. */
  const SeedColumns := [NameCol, SurnameCol, BarcodeCol, GradeCol, AreaCol, DobCol]

  /** A cell of the filled CSV: the column's cell, or "" for a column the fill added. */
  function SeedCell(t: Table, i: nat, c: string): string
    requires i < |t.rows|
  {
    if c in t.columns then Cell(t.rows[i], c) else ""
  }

  /** Row `i` of `csv_df[SeedColumns]` after the fill. */
  function SeedRow(t: Table, i: nat): (m: Row)
    requires i < |t.rows|
    ensures m.Keys == set c | c in SeedColumns
    ensures forall c :: c in SeedColumns ==> Cell(m, c) == SeedCell(t, i, c)
  {
    map c | c in SeedColumns :: SeedCell(t, i, c)
  }

  /**
   * `seed_learners_from_csv_if_empty` up to the replace: the table handed to
   * `replace_learners_from_df` (the stripped-header CSV with Grade, Area and
   * Date Of Birth filled with "" where missing, cut down to the seed
   * columns), or `None` when it does nothing (learners exist, no CSV, or
   * Name, Surname or Barcode missing).
   */
  function SeedPlan(learnersEmpty: bool, csv: Option<Table>): (p: Option<Table>)
    ensures p.Some? <==> (learnersEmpty && csv.Some?
      && NameCol in StripHeaders(csv.value).columns && SurnameCol in StripHeaders(csv.value).columns
      && BarcodeCol in StripHeaders(csv.value).columns)
    ensures p.Some? ==> p.value.columns == SeedColumns && |p.value.rows| == |csv.value.rows|
    ensures p.Some? ==> forall i, c :: 0 <= i < |csv.value.rows| && c in SeedColumns ==>
      Cell(p.value.rows[i], c) == SeedCell(StripHeaders(csv.value), i, c)
  {
    if !learnersEmpty || csv.None? then None
    else
      var t := StripHeaders(csv.value);
      if !(NameCol in t.columns && SurnameCol in t.columns && BarcodeCol in t.columns) then None
      else Some(Table(SeedColumns, seq(|t.rows|, i requires 0 <= i < |t.rows| => SeedRow(t, i))))
  }

  /** The insert loop of `replace_learners_from_df`: each row in turn, stopping at the first that raises. */
  method InsertAll(t: Table) returns (r: Result<seq<Learner>, DbError>)
    ensures r == LearnersFrom(t)
  {
    if |t.rows| > 0 && BarcodeCol !in t.columns {
      return Err(MissingColumn(BarcodeCol));
    }
    ghost var keys := RowKeys(t.rows);
    var inserted: seq<Learner> := [];
    for i := 0 to |t.rows|
      invariant |inserted| == i && forall j :: 0 <= j < i ==> inserted[j] == LearnerOf(t.rows[j])
      invariant Keys(inserted) == keys[..i]
      invariant FirstRepeat(keys[..i]).None?
    {
      var key := KeyOf(t.rows[i]);
      InsertStep(t, inserted, i);
      if key in Keys(inserted) {
        return Err(DuplicateKey(key));
      }
      AppendLearner(t, inserted, i);
      inserted := inserted + [LearnerOf(t.rows[i])];
    }
    assert keys[..|t.rows|] == keys;
    LearnersFromNoRepeat(t, inserted);
    return Ok(inserted);
  }

  /** One turn of the loop of `InsertAll`: the row's key either repeats an inserted one or extends them. */
  lemma InsertStep(t: Table, inserted: seq<Learner>, i: nat)
    requires |t.rows| == 0 || BarcodeCol in t.columns
    requires i < |t.rows| && Keys(inserted) == RowKeys(t.rows)[..i] && FirstRepeat(RowKeys(t.rows)[..i]).None?
    ensures KeyOf(t.rows[i]) in Keys(inserted) ==> LearnersFrom(t) == Err(DuplicateKey(KeyOf(t.rows[i])))
    ensures KeyOf(t.rows[i]) !in Keys(inserted) ==>
      Keys(inserted + [LearnerOf(t.rows[i])]) == RowKeys(t.rows)[..i + 1]
      && FirstRepeat(RowKeys(t.rows)[..i + 1]).None?
  {
    var keys := RowKeys(t.rows);
    FirstRepeatStep(keys, i);
    if KeyOf(t.rows[i]) in Keys(inserted) {
      LearnersFromRepeat(t, i);
    } else {
      assert Keys(inserted + [LearnerOf(t.rows[i])]) == Keys(inserted) + [keys[i]];
    }
  }

  lemma AppendLearner(t: Table, inserted: seq<Learner>, i: nat)
    requires i < |t.rows|
    requires |inserted| == i && forall j :: 0 <= j < i ==> inserted[j] == LearnerOf(t.rows[j])
    ensures var s := inserted + [LearnerOf(t.rows[i])];
      |s| == i + 1 && forall j :: 0 <= j < i + 1 ==> s[j] == LearnerOf(t.rows[j])
  {
  }

  lemma LearnersFromNoRepeat(t: Table, inserted: seq<Learner>)
    requires |t.rows| == 0 || BarcodeCol in t.columns
    requires FirstRepeat(RowKeys(t.rows)).None?
    requires |inserted| == |t.rows| && forall j :: 0 <= j < |t.rows| ==> inserted[j] == LearnerOf(t.rows[j])
    ensures LearnersFrom(t) == Ok(inserted)
  {
    assert LearnersFrom(t).Ok?;
    assert inserted == LearnersFrom(t).value;
  }

  lemma LearnersFromRepeat(t: Table, i: nat)
    requires |t.rows| == 0 || BarcodeCol in t.columns
    requires FirstRepeat(RowKeys(t.rows)) == Some(i)
    ensures LearnersFrom(t) == Err(DuplicateKey(KeyOf(t.rows[i])))
  {
  }

  // ---------- The database ----------

  /** The three tables the app writes, held in memory. */
  class Database {
    var learners: seq<Learner>
    var marks: seq<Mark>
    var log: seq<LogEntry>

    /** `Barcode` is the primary key of `learners`. */
    ghost predicate Valid()
      reads this
    {
      NoDuplicates(Keys(learners))
    }

    /** `init_db` on a new file: three empty tables. */
    constructor()
      ensures Valid()
      ensures learners == [] && marks == [] && log == []
    {
      learners, marks, log := [], [], [];
    }

    /**
     * `replace_learners_from_df`: delete every learner, insert each row in
     * turn; an insert that raises leaves the transaction uncommitted, so the
     * table keeps its old rows.
     */
    method ReplaceLearners(t: Table) returns (r: Result<(), DbError>)
      requires Valid()
      modifies this
      ensures Valid()
      ensures LearnersFrom(t).Ok? ==> r.Ok? && learners == LearnersFrom(t).value
      ensures LearnersFrom(t).Err? ==> r == Err(LearnersFrom(t).error) && learners == old(learners)
      ensures marks == old(marks) && log == old(log)
    {
      var inserted := InsertAll(t);
      if inserted.Err? {
        return Err(inserted.error);
      }
      learners := inserted.value;
      r := Ok(());
    }

    /** `delete_learner_by_barcode`: the number of rows removed, at most one. */
    method DeleteLearner(barcode: string) returns (count: nat)
      requires Valid()
      modifies this
      ensures Valid()
      ensures learners == Without(old(learners), Norm(barcode))
      ensures count == |old(learners)| - |learners|
      ensures count == if Norm(barcode) in Keys(old(learners)) then 1 else 0
      ensures marks == old(marks) && log == old(log)
    {
      var nb := Norm(barcode);
      WithoutRemovesAtMostOne(learners, nb);
      var before := |learners|;
      learners := Without(learners, nb);
      count := before - |learners|;
    }

    /** `insert_present_mark`: one mark "1" under the normalised barcode. */
    method InsertPresentMark(dateLabel: string, dateStr: string, timeStr: string, barcode: string)
      modifies this
      ensures marks == old(marks) + [Mark(Norm(barcode), dateLabel, dateStr, timeStr, "1")]
      ensures learners == old(learners) && log == old(log)
    {
      marks := marks + [Mark(Norm(barcode), dateLabel, dateStr, timeStr, "1")];
    }

    /** `append_inout_log` as intended (the seven-field insert). */
    method AppendInOut(ts: string, date: string, time: string, barcode: string,
                       name: string, surname: string, action: string)
      modifies this
      ensures log == Append(old(log), ts, date, time, barcode, name, surname, action)
      ensures learners == old(learners) && marks == old(marks)
    {
      log := Append(log, ts, date, time, barcode, name, surname, action);
    }

    /**
     * `seed_learners_from_csv_if_empty`: when the learners table is empty, the
     * CSV exists and has Name, Surname and Barcode columns, replace the
     * learners with the projected CSV rows; otherwise do nothing.
     */
    method SeedFromCsv(csv: Option<Table>) returns (r: Result<(), DbError>)
      requires Valid()
      modifies this
      ensures Valid()
      ensures SeedPlan(old(learners) == [], csv).None? ==> r.Ok? && learners == old(learners)
      ensures SeedPlan(old(learners) == [], csv).Some? ==>
        var from := LearnersFrom(SeedPlan(old(learners) == [], csv).value);
        (from.Ok? ==> r.Ok? && learners == from.value) && (from.Err? ==> r == Err(from.error) && learners == old(learners))
      ensures marks == old(marks) && log == old(log)
    {
      var plan := SeedPlan(learners == [], csv);
      if plan.None? {
        return Ok(());
      }
      r := ReplaceLearners(plan.value);
    }
  }

  /** A seeded learner carries the CSV row's fields, "" for a missing optional column. */
  lemma SeededLearners(csv: Option<Table>)
    requires SeedPlan(true, csv).Some? && LearnersFrom(SeedPlan(true, csv).value).Ok?
    ensures var ls, t := LearnersFrom(SeedPlan(true, csv).value).value, StripHeaders(csv.value);
      && |ls| == |t.rows|
      && forall i :: 0 <= i < |ls| ==>
        ls[i] == Learner(Norm(Cell(t.rows[i], BarcodeCol)), Cell(t.rows[i], NameCol), Cell(t.rows[i], SurnameCol),
                         SeedCell(t, i, GradeCol), SeedCell(t, i, AreaCol), SeedCell(t, i, DobCol))
  {
    var p := SeedPlan(true, csv).value;
    var t := StripHeaders(csv.value);
    var ls := LearnersFrom(p).value;
    forall i | 0 <= i < |ls|
      ensures ls[i] == Learner(Norm(Cell(t.rows[i], BarcodeCol)), Cell(t.rows[i], NameCol), Cell(t.rows[i], SurnameCol),
                               SeedCell(t, i, GradeCol), SeedCell(t, i, AreaCol), SeedCell(t, i, DobCol))
    {
      assert ls[i] == LearnerOf(p.rows[i]);
      assert p.rows[i] == SeedRow(t, i);
      assert NameCol in SeedColumns && SurnameCol in SeedColumns && BarcodeCol in SeedColumns;
      assert GradeCol in SeedColumns && AreaCol in SeedColumns && DobCol in SeedColumns;
    }
  }
}
