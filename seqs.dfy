/**
 * Sequence helpers shared by the queries: a stable insertion sort over a
 * caller-supplied ordering (Python's `sorted` and pandas' `sort_values`),
 * and `unique()`-style removal of repeated values.
 */
module Seqs {
  import opened Wrappers

  ghost predicate Total<T(!new)>(le: (T, T) -> bool)
  {
    forall a, b :: le(a, b) || le(b, a)
  }

  ghost predicate Transitive<T(!new)>(le: (T, T) -> bool)
  {
    forall a, b, c :: le(a, b) && le(b, c) ==> le(a, c)
  }

  predicate SortedBy<T>(s: seq<T>, le: (T, T) -> bool)
  {
    forall i, j :: 0 <= i < j < |s| ==> le(s[i], s[j])
  }

  /** Inserts `x` before the first element it is ordered before. */
  function Insert<T>(x: T, s: seq<T>, le: (T, T) -> bool): (r: seq<T>)
    ensures multiset(r) == multiset(s) + multiset{x}
    ensures |r| == |s| + 1
  {
    if s == [] then [x]
    else if le(x, s[0]) then [x] + s
    else
      var t := Insert(x, s[1..], le);
      assert s == [s[0]] + s[1..];
      [s[0]] + t
  }

  /**
   * Insertion sort: each element is inserted ahead of the elements it is
   * ordered before, so elements that compare equal keep their input order.
   */
  function Sort<T>(s: seq<T>, le: (T, T) -> bool): (r: seq<T>)
    ensures multiset(r) == multiset(s)
    ensures |r| == |s|
  {
    if s == [] then []
    else
      assert s == [s[0]] + s[1..];
      Insert(s[0], Sort(s[1..], le), le)
  }

  lemma {:induction false} InsertSorted<T(!new)>(x: T, s: seq<T>, le: (T, T) -> bool)
    requires Total(le) && Transitive(le)
    requires SortedBy(s, le)
    ensures SortedBy(Insert(x, s, le), le)
  {
    if s != [] && !le(x, s[0]) {
      var t := Insert(x, s[1..], le);
      InsertSorted(x, s[1..], le);
      assert le(s[0], x);
      forall k | 0 <= k < |t| ensures le(s[0], t[k]) {
        assert t[k] in multiset(t);
        assert t[k] in multiset(s[1..]) + multiset{x};
        if t[k] != x {
          assert t[k] in s[1..];
        }
      }
    }
  }

  /** The sort's output is ordered, for any total preorder. */
  lemma {:induction false} SortSorted<T(!new)>(s: seq<T>, le: (T, T) -> bool)
    requires Total(le) && Transitive(le)
    ensures SortedBy(Sort(s, le), le)
  {
    if s != [] {
      SortSorted(s[1..], le);
      InsertSorted(s[0], Sort(s[1..], le), le);
    }
  }

  /** The elements of `s` that compare equal to `a` under `le`, in the order of `s`. */
  function TiesOf<T(!new)>(s: seq<T>, le: (T, T) -> bool, a: T): (r: seq<T>)
    ensures forall x :: x in r <==> x in s && le(x, a) && le(a, x)
  {
    if s == [] then []
    else (if le(s[0], a) && le(a, s[0]) then [s[0]] else []) + TiesOf(s[1..], le, a)
  }

  lemma {:induction false} InsertTies<T(!new)>(x: T, s: seq<T>, le: (T, T) -> bool, a: T)
    requires Total(le) && Transitive(le)
    requires SortedBy(s, le)
    ensures TiesOf(Insert(x, s, le), le, a) == (if le(x, a) && le(a, x) then [x] else []) + TiesOf(s, le, a)
  {
    if s == [] {
    } else if le(x, s[0]) {
      assert ([x] + s)[1..] == s;
    } else {
      var t := Insert(x, s[1..], le);
      assert Insert(x, s, le) == [s[0]] + t;
      assert ([s[0]] + t)[1..] == t;
      assert SortedBy(s[1..], le);
      InsertTies(x, s[1..], le, a);
      var tx := if le(x, a) && le(a, x) then [x] else [];
      var ts := if le(s[0], a) && le(a, s[0]) then [s[0]] else [];
      assert TiesOf(s, le, a) == ts + TiesOf(s[1..], le, a);
      var rest := TiesOf(s[1..], le, a);
      assert TiesOf([s[0]] + t, le, a) == ts + (tx + rest);
      assert !(le(x, a) && le(a, s[0]));
      if tx == [] {
        assert tx + rest == rest && tx + (ts + rest) == ts + rest;
      } else {
        assert ts == [];
        assert ts + (tx + rest) == tx + rest && ts + rest == rest;
      }
    }
  }

  /** The sort is stable: elements that compare equal keep their input order. */
  lemma {:induction false} SortStable<T(!new)>(s: seq<T>, le: (T, T) -> bool, a: T)
    requires Total(le) && Transitive(le)
    ensures TiesOf(Sort(s, le), le, a) == TiesOf(s, le, a)
  {
    if s != [] {
      SortStable(s[1..], le, a);
      SortSorted(s[1..], le);
      InsertTies(s[0], Sort(s[1..], le), le, a);
    }
  }

  lemma {:induction false} InsertAgrees<T>(x: T, s: seq<T>, le1: (T, T) -> bool, le2: (T, T) -> bool)
    requires forall b :: b in s ==> le1(x, b) == le2(x, b)
    ensures Insert(x, s, le1) == Insert(x, s, le2)
  {
    if s != [] {
      assert s[0] in s;
      assert forall b :: b in s[1..] ==> b in s;
      InsertAgrees(x, s[1..], le1, le2);
    }
  }

  /** Two orderings that agree on the elements of `s` sort `s` identically. */
  lemma {:induction false} SortAgrees<T>(s: seq<T>, le1: (T, T) -> bool, le2: (T, T) -> bool)
    requires forall a, b :: a in s && b in s ==> le1(a, b) == le2(a, b)
    ensures Sort(s, le1) == Sort(s, le2)
  {
    if s != [] {
      assert forall b :: b in s[1..] ==> b in s;
      SortAgrees(s[1..], le1, le2);
      var t := Sort(s[1..], le1);
      forall b | b in t ensures le1(s[0], b) == le2(s[0], b) {
        assert b in multiset(t);
        assert b in s[1..];
      }
      InsertAgrees(s[0], t, le1, le2);
    }
  }

  /** The indices of `flags` that hold `true`, in increasing order. */
  function Positions(flags: seq<bool>): (r: seq<nat>)
    ensures forall k :: 0 <= k < |r| ==> r[k] < |flags|
    ensures forall i :: 0 <= i < |flags| ==> (i in r <==> flags[i])
    ensures forall j, k :: 0 <= j < k < |r| ==> r[j] < r[k]
  {
    if flags == [] then []
    else
      var p := Positions(flags[..|flags| - 1]);
      if flags[|flags| - 1] then p + [|flags| - 1] else p
  }

  /** In a strictly increasing sequence, an element does not occur before its own position. */
  lemma NotInPrefix(s: seq<nat>, k: nat)
    requires k < |s| && forall j, l :: 0 <= j < l < |s| ==> s[j] < s[l]
    ensures s[..k + 1] == s[..k] + [s[k]]
    ensures s[k] !in s[..k]
  {
    assert s[..k + 1] == s[..k] + [s[k]];
    forall j | 0 <= j < k ensures s[..k][j] != s[k] {
      assert s[j] < s[k];
    }
  }

  /** Regrouping a concatenation, for filters that peel off their last element. */
  lemma Glue<T>(ab: seq<T>, a: seq<T>, b: seq<T>, front: seq<T>, last: seq<T>)
    requires ab == (a + front) + last && b == front + last
    ensures ab == a + b
  {
    assert (a + front) + last == a + (front + last);
  }

  /** How many of `flags` hold `true`. */
  function CountTrue(flags: seq<bool>): (n: nat)
    ensures n <= |flags|
    ensures n == 0 <==> forall j :: 0 <= j < |flags| ==> !flags[j]
    ensures n == |flags| <==> forall j :: 0 <= j < |flags| ==> flags[j]
  {
    if flags == [] then 0
    else CountTrue(flags[..|flags| - 1]) + (if flags[|flags| - 1] then 1 else 0)
  }

  /** The count is the number of indices that hold `true`. */
  lemma {:induction false} CountTrueIsSize(flags: seq<bool>)
    ensures CountTrue(flags) == |set j | 0 <= j < |flags| && flags[j]|
  {
    if flags != [] {
      var n := |flags| - 1;
      var p := flags[..n];
      CountTrueIsSize(p);
      var a := set j | 0 <= j < |p| && p[j];
      var b := set j | 0 <= j < |flags| && flags[j];
      if flags[n] {
        assert b == a + {n};
      } else {
        assert b == a;
      }
    }
  }

  /** The last index of `flags` that holds `true`, if any. */
  function LastTrue(flags: seq<bool>): (k: Option<nat>)
    ensures k.Some? ==> k.value < |flags| && flags[k.value]
    ensures k.Some? ==> forall j :: k.value < j < |flags| ==> !flags[j]
    ensures k.None? <==> forall j :: 0 <= j < |flags| ==> !flags[j]
  {
    if flags == [] then None
    else if flags[|flags| - 1] then Some(|flags| - 1)
    else LastTrue(flags[..|flags| - 1])
  }

  /** Any two elements of `r` occur in the same order in `s`. */
  predicate OrderedWithin<T(==)>(r: seq<T>, s: seq<T>)
  {
    forall i, j :: 0 <= i < j < |r| ==> exists a, b :: 0 <= a < b < |s| && s[a] == r[i] && s[b] == r[j]
  }

  predicate NoDuplicates<T(==)>(s: seq<T>)
  {
    forall i, j :: 0 <= i < j < |s| ==> s[i] != s[j]
  }

  /** A sequence has no repeated value exactly when its multiset counts each value at most once. */
  lemma {:induction false} NoDuplicatesByCount<T>(s: seq<T>)
    ensures NoDuplicates(s) <==> forall x :: multiset(s)[x] <= 1
  {
    if s != [] {
      var p := s[..|s| - 1];
      var y := s[|s| - 1];
      assert s == p + [y];
      NoDuplicatesByCount(p);
      if NoDuplicates(s) {
        assert y !in p;
        forall x ensures multiset(s)[x] <= 1 {
          assert multiset(s)[x] == multiset(p)[x] + multiset([y])[x];
        }
      } else {
        var i, j :| 0 <= i < j < |s| && s[i] == s[j];
        if j == |s| - 1 {
          assert s[i] in p;
          assert multiset(s)[y] == multiset(p)[y] + 1;
        } else {
          assert !NoDuplicates(p) by { assert p[i] == p[j]; }
          var x :| multiset(p)[x] > 1;
          assert multiset(s)[x] >= multiset(p)[x];
        }
      }
    }
  }

  lemma NoDuplicatesSnoc<T>(s: seq<T>, x: T)
    ensures NoDuplicates(s + [x]) <==> NoDuplicates(s) && x !in s
  {
    var t := s + [x];
    assert forall i :: 0 <= i < |s| ==> t[i] == s[i];
    if NoDuplicates(t) {
      forall i | 0 <= i < |s| ensures s[i] != x {
        assert t[i] != t[|s|];
      }
    }
  }

  /** Sorting never introduces a repeated value. */
  lemma SortKeepsNoDuplicates<T>(s: seq<T>, le: (T, T) -> bool)
    requires NoDuplicates(s)
    ensures NoDuplicates(Sort(s, le))
  {
    NoDuplicatesByCount(s);
    NoDuplicatesByCount(Sort(s, le));
  }

  /** `pd.Series.unique()`: each value once, at its first occurrence. */
  function Distinct<T(==,!new)>(s: seq<T>): (r: seq<T>)
    ensures forall x :: x in r <==> x in s
    ensures NoDuplicates(r)
  {
    if s == [] then []
    else
      var d := Distinct(s[..|s| - 1]);
      assert forall x :: x in s <==> x in s[..|s| - 1] || x == s[|s| - 1];
      if s[|s| - 1] in d then d else d + [s[|s| - 1]]
  }
}
