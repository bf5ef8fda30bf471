/**
 * The IN/OUT log of db.py: entries appended with a timestamp, the next
 * action for a learner on a day (the opposite of the latest entry, IN when
 * there is none), and who is currently in.
 */
module InOut {
  import opened Text
  import opened Seqs
  import opened Wrappers
  import opened Barcodes

  /** A row of `inout_log`; `barcode` is stored normalised. */
  datatype LogEntry = LogEntry(ts: string, date: string, time: string, barcode: string,
                               name: string, surname: string, action: string)

  const InAction := "IN"
  const OutAction := "OUT"

  /** The entries for `barcode` on `date`, as flags over the log. */
  function Selected(log: seq<LogEntry>, barcode: string, date: string): (r: seq<bool>)
    ensures |r| == |log|
    ensures forall i :: 0 <= i < |log| ==> (r[i] <==> log[i].barcode == barcode && log[i].date == date)
  {
    seq(|log|, i requires 0 <= i < |log| => log[i].barcode == barcode && log[i].date == date)
  }

  /**
   * `ORDER BY ts_iso DESC LIMIT 1` among the selected entries: one with the
   * greatest timestamp; among equal timestamps the one appended last.
   */
  function Latest(log: seq<LogEntry>, sel: seq<bool>): (k: Option<nat>)
    requires |sel| == |log|
    ensures k.None? <==> forall j :: 0 <= j < |sel| ==> !sel[j]
    ensures k.Some? ==> k.value < |log| && sel[k.value]
    ensures k.Some? ==> forall j :: 0 <= j < |log| && sel[j] ==> StrLe(log[j].ts, log[k.value].ts)
    ensures k.Some? ==> forall j :: k.value < j < |log| && sel[j] ==> log[j].ts != log[k.value].ts
  {
    if log == [] then None
    else
      var n := |log| - 1;
      var p := Latest(log[..n], sel[..n]);
      StrLeIsTotalOrder();
      assert forall j :: 0 <= j < n ==> sel[..n][j] == sel[j] && log[..n][j] == log[j];
      if !sel[n] then p
      else if p.None? || StrLe(log[p.value].ts, log[n].ts) then Some(n)
      else p
  }

  /** `determine_next_action(barcode, date)`. */
  function NextAction(log: seq<LogEntry>, barcode: string, date: string): (a: string)
    ensures a == InAction || a == OutAction
  {
    var sel := Selected(log, Norm(barcode), date);
    match Latest(log, sel)
    case None => InAction
    case Some(k) => if log[k].action == InAction then OutAction else InAction
  }

  /** Whether the latest entry for `barcode` (stored form) on `date` is IN. */
  predicate IsIn(log: seq<LogEntry>, barcode: string, date: string)
  {
    var k := Latest(log, Selected(log, barcode, date));
    k.Some? && log[k.value].action == InAction
  }

  /** The next action is OUT exactly when the learner is in. */
  lemma NextActionIsOutIffIn(log: seq<LogEntry>, barcode: string, date: string)
    ensures NextAction(log, barcode, date) == OutAction <==> IsIn(log, Norm(barcode), date)
  {
    assert InAction != OutAction by { assert InAction[0] != OutAction[0]; }
  }

  /** On a day with no entry for the learner the next action is IN. */
  lemma FirstOfDayIsIn(log: seq<LogEntry>, barcode: string, date: string)
    requires forall i :: 0 <= i < |log| ==> log[i].barcode != Norm(barcode) || log[i].date != date
    ensures NextAction(log, barcode, date) == InAction
  {
  }

  // ---------- Who is in ----------

  /** The barcode of each entry, in order. */
  function BarcodesOf(es: seq<LogEntry>): seq<string>
  {
    seq(|es|, i requires 0 <= i < |es| => es[i].barcode)
  }

  /** The barcodes of the entries on `date`, in log order, repeats included. */
  function DayBarcodes(log: seq<LogEntry>, date: string): (r: seq<string>)
    ensures forall b :: b in r <==> exists i :: 0 <= i < |log| && log[i].date == date && log[i].barcode == b
  {
    if log == [] then []
    else
      var n := |log| - 1;
      var p := DayBarcodes(log[..n], date);
      assert forall i :: 0 <= i < n ==> log[..n][i] == log[i];
      if log[n].date == date then p + [log[n].barcode] else p
  }

  /** The latest entry of each of `bs` on `date` whose action is IN, in the order of `bs`. */
  function InOf(log: seq<LogEntry>, date: string, bs: seq<string>): (r: seq<LogEntry>)
    ensures forall e :: e in r ==>
      e.barcode in bs && IsIn(log, e.barcode, date) && e == log[Latest(log, Selected(log, e.barcode, date)).value]
    ensures forall b :: b in bs && IsIn(log, b, date) ==> b in BarcodesOf(r)
    ensures NoDuplicates(bs) ==> NoDuplicates(BarcodesOf(r))
  {
    if bs == [] then []
    else
      var n := |bs| - 1;
      var p := InOf(log, date, bs[..n]);
      var b := bs[n];
      assert forall x :: x in bs <==> x in bs[..n] || x == b;
      if IsIn(log, b, date) then
        var e := log[Latest(log, Selected(log, b, date)).value];
        var r := p + [e];
        assert BarcodesOf(r) == BarcodesOf(p) + [b];
        assert NoDuplicates(bs) ==> b !in bs[..n];
        assert NoDuplicates(bs) ==> NoDuplicates(bs[..n]) by {
          if NoDuplicates(bs) {
            forall i, j | 0 <= i < j < n ensures bs[..n][i] != bs[..n][j] {
              assert bs[..n][i] == bs[i] && bs[..n][j] == bs[j];
            }
          }
        }
        r
      else
        assert NoDuplicates(bs) ==> NoDuplicates(bs[..n]) by {
          if NoDuplicates(bs) {
            forall i, j | 0 <= i < j < n ensures bs[..n][i] != bs[..n][j] {
              assert bs[..n][i] == bs[i] && bs[..n][j] == bs[j];
            }
          }
        }
        p
  }

  /**
   * `get_currently_in(date)`: for each learner whose latest entry that day is
   * IN, that entry (barcode, name, surname), each learner once.
   */
  function CurrentlyIn(log: seq<LogEntry>, date: string): (r: seq<LogEntry>)
    ensures forall e :: e in r ==> e in log && e.date == date && e.action == InAction
    ensures forall e :: e in r ==>
      IsIn(log, e.barcode, date) && e == log[Latest(log, Selected(log, e.barcode, date)).value]
    ensures NoDuplicates(BarcodesOf(r))
    ensures forall b :: b in BarcodesOf(r) <==> IsIn(log, b, date)
  {
    var bs := Distinct(DayBarcodes(log, date));
    var r := InOf(log, date, bs);
    forall b | IsIn(log, b, date) ensures b in bs {
      var k := Latest(log, Selected(log, b, date)).value;
      assert log[k].date == date && log[k].barcode == b;
    }
    forall b | b in BarcodesOf(r) ensures IsIn(log, b, date) {
      var i :| 0 <= i < |r| && BarcodesOf(r)[i] == b;
      assert r[i] in r;
    }
    r
  }

  /** The next action is OUT exactly when the learner is listed as currently in. */
  lemma NextActionIsOutIffCurrentlyIn(log: seq<LogEntry>, barcode: string, date: string)
    ensures NextAction(log, barcode, date) == OutAction <==> Norm(barcode) in BarcodesOf(CurrentlyIn(log, date))
  {
    NextActionIsOutIffIn(log, barcode, date);
  }

  // ---------- Appending ----------

  /** The number of `?` placeholders in the INSERT of `append_inout_log`, and the values bound to them. */
  const Placeholders := 6
  const BoundValues := 7

  /**
   * `append_inout_log` as written: the INSERT binds seven values to six
   * placeholders, which SQLite rejects, so every call fails.
   */
  function AppendAsWritten(log: seq<LogEntry>, ts: string, date: string, time: string, barcode: string,
                           name: string, surname: string, action: string): (r: Result<seq<LogEntry>, string>)
    ensures r.Err?
  {
    if BoundValues != Placeholders then Err("Incorrect number of bindings supplied")
    else Ok(log + [LogEntry(ts, date, time, Norm(barcode), name, surname, action)])
  }

  /** `append_inout_log` as intended: one entry with the barcode normalised. */
  function Append(log: seq<LogEntry>, ts: string, date: string, time: string, barcode: string,
                  name: string, surname: string, action: string): (r: seq<LogEntry>)
    ensures |r| == |log| + 1 && r[..|log|] == log
    ensures r[|log|] == LogEntry(ts, date, time, Norm(barcode), name, surname, action)
  {
    log + [LogEntry(ts, date, time, Norm(barcode), name, surname, action)]
  }

  /** An entry for another learner or another day leaves the next action unchanged. */
  lemma AppendOtherKeepsNextAction(log: seq<LogEntry>, ts: string, date: string, time: string, barcode: string,
                                   name: string, surname: string, action: string, other: string, day: string)
    requires Norm(barcode) != Norm(other) || date != day
    ensures NextAction(Append(log, ts, date, time, barcode, name, surname, action), other, day)
         == NextAction(log, other, day)
  {
    var l := Append(log, ts, date, time, barcode, name, surname, action);
    var sel := Selected(l, Norm(other), day);
    assert l[..|log|] == log;
    assert sel[..|log|] == Selected(log, Norm(other), day);
  }

  /** An entry whose timestamp is later than every other is the latest for its learner and day. */
  lemma AppendLaterIsLatest(log: seq<LogEntry>, ts: string, date: string, time: string, barcode: string,
                            name: string, surname: string, action: string)
    requires forall i :: 0 <= i < |log| ==> StrLt(log[i].ts, ts)
    ensures var l := Append(log, ts, date, time, barcode, name, surname, action);
      Latest(l, Selected(l, Norm(barcode), date)) == Some(|log|)
  {
    var l := Append(log, ts, date, time, barcode, name, surname, action);
    var sel := Selected(l, Norm(barcode), date);
    StrLeIsTotalOrder();
  }

  // ---------- Toggling ----------

  /** A scan at the kiosk: append the next action for the learner. */
  function Toggle(log: seq<LogEntry>, ts: string, date: string, time: string, barcode: string,
                  name: string, surname: string): (r: seq<LogEntry>)
    ensures |r| == |log| + 1 && r[..|log|] == log
    ensures r[|log|].action == NextAction(log, barcode, date)
  {
    Append(log, ts, date, time, barcode, name, surname, NextAction(log, barcode, date))
  }

  /** Timestamps strictly increase along the log. */
  predicate TsIncreasing(log: seq<LogEntry>)
  {
    forall i, j :: 0 <= i < j < |log| ==> StrLt(log[i].ts, log[j].ts)
  }

  /** The action the alternation expects at entry `i`: IN after an even number of earlier entries for the same learner and day. */
  function Expected(log: seq<LogEntry>, i: nat): string
    requires i < |log|
  {
    if CountTrue(Selected(log[..i], log[i].barcode, log[i].date)) % 2 == 0 then InAction else OutAction
  }

  /** Each learner's actions on each day run IN, OUT, IN, … in log order. */
  predicate Alternating(log: seq<LogEntry>)
  {
    forall i :: 0 <= i < |log| ==> log[i].action == Expected(log, i)
  }

  lemma {:induction false} CountTrueSnoc(flags: seq<bool>, b: bool)
    ensures CountTrue(flags + [b]) == CountTrue(flags) + (if b then 1 else 0)
  {
    assert (flags + [b])[..|flags|] == flags;
  }

  /**
   * When timestamps increase, the latest entry is the last one in log order,
   * and the selected entries before it are one fewer than all of them.
   */
  lemma {:induction false} LatestIsLast(log: seq<LogEntry>, sel: seq<bool>)
    requires |sel| == |log| && TsIncreasing(log)
    requires Latest(log, sel).Some?
    ensures var k := Latest(log, sel).value;
      (forall j :: k < j < |log| ==> !sel[j]) && CountTrue(sel[..k]) + 1 == CountTrue(sel)
    decreases |log|
  {
    var k := Latest(log, sel).value;
    StrLeIsTotalOrder();
    assert forall j :: k < j < |log| ==> !sel[j];
    CountAfterLast(sel, k);
  }

  lemma {:induction false} CountAfterLast(sel: seq<bool>, k: nat)
    requires k < |sel| && sel[k]
    requires forall j :: k < j < |sel| ==> !sel[j]
    ensures CountTrue(sel[..k]) + 1 == CountTrue(sel)
    decreases |sel|
  {
    var n := |sel| - 1;
    assert sel == sel[..n] + [sel[n]];
    CountTrueSnoc(sel[..n], sel[n]);
    if k < n {
      assert sel[..n][..k] == sel[..k];
      CountAfterLast(sel[..n], k);
    } else {
      assert sel[..n] == sel[..k];
    }
  }

  /** On an alternating log, the next action is IN after an even number of the learner's entries that day. */
  lemma NextActionAlternates(log: seq<LogEntry>, barcode: string, date: string)
    requires Alternating(log) && TsIncreasing(log)
    ensures NextAction(log, barcode, date)
         == if CountTrue(Selected(log, Norm(barcode), date)) % 2 == 0 then InAction else OutAction
  {
    var sel := Selected(log, Norm(barcode), date);
    assert InAction != OutAction by { assert InAction[0] != OutAction[0]; }
    match Latest(log, sel)
    case None =>
      assert CountTrue(sel) == 0;
    case Some(k) =>
      LatestIsLast(log, sel);
      assert log[k].action == Expected(log, k);
      LatestActionParity(log, Norm(barcode), date, k);
  }

  /** An alternating entry is IN exactly when an odd number of the learner's entries that day end with it. */
  lemma LatestActionParity(log: seq<LogEntry>, b: string, date: string, k: nat)
    requires k < |log| && log[k].barcode == b && log[k].date == date
    requires log[k].action == Expected(log, k)
    requires CountTrue(Selected(log, b, date)[..k]) + 1 == CountTrue(Selected(log, b, date))
    ensures log[k].action == if CountTrue(Selected(log, b, date)) % 2 == 0 then OutAction else InAction
  {
    var sel := Selected(log, b, date);
    var c := CountTrue(sel[..k]);
    assert Selected(log[..k], b, date) == sel[..k];
    ParityStep(c, CountTrue(sel));
  }

  lemma ParityStep(c: nat, n: nat)
    requires n == c + 1
    ensures n % 2 == 0 <==> c % 2 != 0
  {
  }

  lemma ExpectedOfPrefix(log: seq<LogEntry>, l: seq<LogEntry>)
    requires |log| <= |l| && l[..|log|] == log
    ensures forall i :: 0 <= i < |log| ==> Expected(l, i) == Expected(log, i)
  {
    forall i | 0 <= i < |log| ensures Expected(l, i) == Expected(log, i) {
      assert l[..i] == log[..i];
    }
  }

  /**
   * Scanning in increasing timestamp order keeps every learner's day
   * alternating, starting with IN.
   */
  lemma ToggleKeepsAlternating(log: seq<LogEntry>, ts: string, date: string, time: string, barcode: string,
                               name: string, surname: string)
    requires Alternating(log) && TsIncreasing(log)
    requires forall i :: 0 <= i < |log| ==> StrLt(log[i].ts, ts)
    ensures Alternating(Toggle(log, ts, date, time, barcode, name, surname))
    ensures TsIncreasing(Toggle(log, ts, date, time, barcode, name, surname))
  {
    var l := Toggle(log, ts, date, time, barcode, name, surname);
    var n := |log|;
    ExpectedOfPrefix(log, l);
    assert l[n].action == Expected(l, n) by {
      assert Selected(l[..n], l[n].barcode, l[n].date) == Selected(log, Norm(barcode), date);
      NextActionAlternates(log, barcode, date);
    }
    TsIncreasingSnoc(log, l);
  }

  lemma TsIncreasingSnoc(log: seq<LogEntry>, l: seq<LogEntry>)
    requires TsIncreasing(log) && |l| == |log| + 1 && l[..|log|] == log
    requires forall i :: 0 <= i < |log| ==> StrLt(log[i].ts, l[|log|].ts)
    ensures TsIncreasing(l)
  {
    forall i, j | 0 <= i < j < |l| ensures StrLt(l[i].ts, l[j].ts) {
      assert l[i] == log[i];
      if j < |log| {
        assert l[j] == log[j];
      }
    }
  }
}
