/**
 * The attendance sheet: a table of string cells with an ordered list of
 * column names, as pandas holds it after `read_csv(dtype=str).fillna("")`.
 * `Table` is the value; `Sheet` is the DataFrame the scan handlers update in
 * place; `SheetFile` is the CSV file on disk (missing or holding a table).
 */
module Sheets {
  import opened Text
  import opened Seqs
  import opened Wrappers

  /** One row, keyed by column name. */
  type Row = map<string, string>

  datatype Table = Table(columns: seq<string>, rows: seq<Row>)

  const BarcodeCol := "Barcode"
  const NameCol := "Name"
  const SurnameCol := "Surname"

  /** A row's cell; `Series.get(col, "")` for a column the row lacks. */
  function Cell(r: Row, col: string): string
  {
    if col in r then r[col] else ""
  }

  /** Column names are distinct and every row has exactly the table's columns. */
  predicate WellFormed(t: Table)
  {
    && NoDuplicates(t.columns)
    && forall i :: 0 <= i < |t.rows| ==> t.rows[i].Keys == set c | c in t.columns
  }

  /**
   * `df.insert(pos, col, "")`, or `df[col] = ""` when `pos` is the end: a new
   * column, empty in every row, at position `pos`.
   */
  function WithColumn(t: Table, pos: nat, col: string): (r: Table)
    requires pos <= |t.columns|
    ensures r.columns == t.columns[..pos] + [col] + t.columns[pos..]
    ensures col in r.columns && forall c :: c in t.columns ==> c in r.columns
    ensures |r.rows| == |t.rows|
    ensures forall i :: 0 <= i < |t.rows| ==> Cell(r.rows[i], col) == ""
    ensures forall i, c :: 0 <= i < |t.rows| && c != col ==> Cell(r.rows[i], c) == Cell(t.rows[i], c)
    ensures WellFormed(t) && col !in t.columns ==> WellFormed(r)
  {
    var r := Table(t.columns[..pos] + [col] + t.columns[pos..],
                   seq(|t.rows|, i requires 0 <= i < |t.rows| => t.rows[i][col := ""]));
    WithColumnWellFormed(t, pos, col, r);
    assert r.columns[pos] == col;
    assert t.columns == t.columns[..pos] + t.columns[pos..];
    r
  }

  lemma WithColumnWellFormed(t: Table, pos: nat, col: string, r: Table)
    requires pos <= |t.columns|
    requires r.columns == t.columns[..pos] + [col] + t.columns[pos..]
    requires |r.rows| == |t.rows| && forall i :: 0 <= i < |t.rows| ==> r.rows[i] == t.rows[i][col := ""]
    ensures WellFormed(t) && col !in t.columns ==> WellFormed(r)
  {
    if WellFormed(t) && col !in t.columns {
      assert t.columns == t.columns[..pos] + t.columns[pos..];
      assert (set c | c in r.columns) == (set c | c in t.columns) + {col};
      assert multiset(r.columns) == multiset(t.columns) + multiset{col};
      NoDuplicatesByCount(t.columns);
      NoDuplicatesByCount(r.columns);
    }
  }

  /** `ensure_date_column(df, col)` (and the per-column steps of `load_sheet`): append `col` if absent. */
  function WithColumnEnsured(t: Table, col: string): (r: Table)
    ensures col in r.columns
    ensures col in t.columns ==> r == t
    ensures col !in t.columns ==> r.columns == t.columns + [col]
    ensures |r.rows| == |t.rows|
    ensures forall i :: 0 <= i < |t.rows| && col !in t.columns ==> Cell(r.rows[i], col) == ""
    ensures forall i, c :: 0 <= i < |t.rows| && c != col ==> Cell(r.rows[i], c) == Cell(t.rows[i], c)
    ensures forall c :: c in t.columns ==> c in r.columns
    ensures forall i, c :: 0 <= i < |t.rows| && c in t.columns ==> Cell(r.rows[i], c) == Cell(t.rows[i], c)
    ensures WellFormed(t) ==> WellFormed(r)
  {
    if col in t.columns then t
    else
      assert t.columns[..|t.columns|] + [col] + t.columns[|t.columns|..] == t.columns + [col];
      WithColumn(t, |t.columns|, col)
  }

  /** Adding a column twice is adding it once. */
  lemma WithColumnEnsuredIdempotent(t: Table, col: string)
    ensures WithColumnEnsured(WithColumnEnsured(t, col), col) == WithColumnEnsured(t, col)
  {
  }

  /**
   * `label_for_row`: stripped name and surname joined by one space, then
   * stripped again; so one of them alone when the other is blank, and ""
   * when both are.
   */
  function LabelForRow(r: Row): (who: string)
    ensures var n, s := Strip(Cell(r, NameCol)), Strip(Cell(r, SurnameCol));
      who == if n == "" then s else if s == "" then n else n + " " + s
    ensures who == "" <==> AllSpace(Cell(r, NameCol)) && AllSpace(Cell(r, SurnameCol))
  {
    LabelFacts(Cell(r, NameCol), Cell(r, SurnameCol));
    Strip(Strip(Cell(r, NameCol)) + " " + Strip(Cell(r, SurnameCol)))
  }

  lemma LabelFacts(name: string, surname: string)
    ensures var n, s := Strip(name), Strip(surname);
      && Strip(n + " " + s) == (if n == "" then s else if s == "" then n else n + " " + s)
      && (Strip(n + " " + s) == "" <==> AllSpace(name) && AllSpace(surname))
  {
    StripIsTrimmed(name);
    StripIsTrimmed(surname);
    JoinedLabel(Strip(name), Strip(surname));
  }

  lemma JoinedLabel(n: string, s: string)
    requires Trimmed(n) && Trimmed(s)
    ensures Strip(n + " " + s) == if n == "" then s else if s == "" then n else n + " " + s
  {
    if n == "" {
      assert n + " " + s == " " + s + "";
      StripIgnoresPadding(" ", s, "");
      StripOfTrimmed(s);
    } else if s == "" {
      assert n + " " + s == "" + n + " ";
      StripIgnoresPadding("", n, " ");
      StripOfTrimmed(n);
    } else {
      var j := n + " " + s;
      assert j[0] == n[0] && j[|j| - 1] == s[|s| - 1];
      StripOfTrimmed(j);
    }
  }

  // ---------- Marking ----------

  /** A cell that reads as present once stripped. */
  predicate IsOne(s: string)
  {
    Strip(s) == "1"
  }

  /** A matched row: "1" written unless the cell already reads as present. */
  function MarkRow(r: Row, col: string): (m: Row)
    ensures IsOne(Cell(m, col))
    ensures IsOne(Cell(r, col)) ==> m == r
    ensures !IsOne(Cell(r, col)) ==> Cell(m, col) == "1"
    ensures forall c :: c != col ==> Cell(m, c) == Cell(r, c)
    ensures m.Keys == r.Keys + {col}
  {
    if IsOne(Cell(r, col)) then r
    else
      assert Trimmed("1") by { assert "1"[0] == '1'; }
      StripOfTrimmed("1");
      r[col := "1"]
  }

  /** `rows` with the rows at the positions in `hits` marked. */
  function MarkedAt(rows: seq<Row>, col: string, hits: seq<nat>): seq<Row>
  {
    seq(|rows|, i requires 0 <= i < |rows| => if i in hits then MarkRow(rows[i], col) else rows[i])
  }

  lemma MarkedAtStep(rows: seq<Row>, col: string, done: seq<nat>, i: nat)
    requires i < |rows| && i !in done
    ensures |MarkedAt(rows, col, done)| == |rows|
    ensures MarkedAt(rows, col, done)[i] == rows[i]
    ensures MarkedAt(rows, col, done + [i]) == MarkedAt(rows, col, done)[i := MarkRow(rows[i], col)]
  {
    var a, b := MarkedAt(rows, col, done), MarkedAt(rows, col, done + [i]);
    forall j | 0 <= j < |rows| ensures b[j] == a[i := MarkRow(rows[i], col)][j] {
      assert j in done + [i] <==> j in done || j == i;
    }
  }

  /**
   * Marking the rows at `hits`: each of them reads as present afterwards (a
   * cell that already did is left as it was, any other now holds exactly
   * "1"); every other cell is as it was.
   */
  lemma MarkedAtEffect(rows: seq<Row>, col: string, hits: seq<nat>)
    ensures |MarkedAt(rows, col, hits)| == |rows|
    ensures forall i :: 0 <= i < |rows| && i in hits ==>
      IsOne(Cell(MarkedAt(rows, col, hits)[i], col))
      && Cell(MarkedAt(rows, col, hits)[i], col) == (if IsOne(Cell(rows[i], col)) then Cell(rows[i], col) else "1")
    ensures forall i, c :: 0 <= i < |rows| && (c != col || i !in hits) ==>
      Cell(MarkedAt(rows, col, hits)[i], c) == Cell(rows[i], c)
  {
  }

  /** The rows whose cell in `col` is exactly "1" (`present`), or not (`!present`). */
  function WithMark(rows: seq<Row>, col: string, present: bool): (r: seq<Row>)
    ensures forall x :: x in r <==> x in rows && (Cell(x, col) == "1") == present
    ensures forall x :: multiset(r)[x] == if (Cell(x, col) == "1") == present then multiset(rows)[x] else 0
  {
    if rows == [] then []
    else
      var p := WithMark(rows[..|rows| - 1], col, present);
      var x := rows[|rows| - 1];
      assert rows == rows[..|rows| - 1] + [x];
      if (Cell(x, col) == "1") == present then p + [x] else p
  }

  /** The rows kept stay in table order: the filter distributes over concatenation. */
  lemma {:induction false} WithMarkAppend(a: seq<Row>, b: seq<Row>, col: string, present: bool)
    ensures WithMark(a + b, col, present) == WithMark(a, col, present) + WithMark(b, col, present)
  {
    if b == [] {
      assert a + b == a;
    } else {
      var n := |b| - 1;
      var last := if (Cell(b[n], col) == "1") == present then [b[n]] else [];
      WithMarkAppend(a, b[..n], col, present);
      WithMarkSnoc(a, b, col, present);
      WithMarkLast(b, col, present);
      Glue(WithMark(a + b, col, present), WithMark(a, col, present), WithMark(b, col, present),
           WithMark(b[..n], col, present), last);
    }
  }

  lemma WithMarkSnoc(a: seq<Row>, b: seq<Row>, col: string, present: bool)
    requires b != []
    ensures var n := |b| - 1;
      WithMark(a + b, col, present)
        == WithMark(a + b[..n], col, present) + (if (Cell(b[n], col) == "1") == present then [b[n]] else [])
  {
    var ab, n := a + b, |b| - 1;
    var front, x := ab[..|ab| - 1], ab[|ab| - 1];
    assert front == a + b[..n] && x == b[n];
    WithMarkLast(ab, col, present);
  }

  lemma WithMarkLast(s: seq<Row>, col: string, present: bool)
    requires s != []
    ensures var x := s[|s| - 1];
      WithMark(s, col, present) == WithMark(s[..|s| - 1], col, present) + (if (Cell(x, col) == "1") == present then [x] else [])
  {
  }

  /** A single row is kept exactly when its mark matches. */
  lemma WithMarkOne(x: Row, col: string, present: bool)
    ensures WithMark([x], col, present) == if (Cell(x, col) == "1") == present then [x] else []
  {
    assert [x][..0] == [];
  }

  lemma {:induction false} WithMarkSplits(rows: seq<Row>, col: string)
    ensures multiset(WithMark(rows, col, true)) + multiset(WithMark(rows, col, false)) == multiset(rows)
  {
    if rows != [] {
      var x := rows[|rows| - 1];
      assert rows == rows[..|rows| - 1] + [x];
      WithMarkSplits(rows[..|rows| - 1], col);
    }
  }

  /** The DataFrame a handler loads, changes in place and may write back. */
  class Sheet {
    var columns: seq<string>
    var rows: seq<Row>

    function Value(): Table
      reads this
    {
      Table(columns, rows)
    }

    constructor (t: Table)
      ensures Value() == t
    {
      columns := t.columns;
      rows := t.rows;
    }

    /** `df.insert(pos, col, "")`. */
    method InsertColumn(pos: nat, col: string)
      requires pos <= |columns|
      modifies this
      ensures Value() == WithColumn(old(Value()), pos, col)
    {
      var t := WithColumn(Value(), pos, col);
      columns, rows := t.columns, t.rows;
    }

    /** `if col not in df.columns: df[col] = ""`. */
    method EnsureColumn(col: string)
      modifies this
      ensures Value() == WithColumnEnsured(old(Value()), col)
    {
      if col !in columns {
        InsertColumn(|columns|, col);
      }
    }

    /** `df.at[i, col] = v`. */
    method SetCell(i: nat, col: string, v: string)
      requires i < |rows| && col in columns
      modifies this
      ensures columns == old(columns)
      ensures rows == old(rows)[i := old(rows)[i][col := v]]
    {
      rows := rows[i := rows[i][col := v]];
    }

    /** One matched row: report whether its cell already reads as present, and write "1" if not. */
    method MarkCell(i: nat, col: string) returns (already: bool)
      requires i < |rows| && col in columns
      modifies this
      ensures already == IsOne(Cell(old(rows)[i], col))
      ensures columns == old(columns)
      ensures rows == old(rows)[i := MarkRow(old(rows)[i], col)]
    {
      already := IsOne(Cell(rows[i], col));
      if already {
        assert rows[i := MarkRow(rows[i], col)] == rows;
      } else {
        SetCell(i, col, "1");
      }
    }
  }

  /** The CSV file the handlers read and write: `None` when it does not exist. */
  class SheetFile {
    var content: Option<Table>

    constructor (content: Option<Table>)
      ensures this.content == content
    {
      this.content := content;
    }
  }
}
