/**
 * Barcode normalisation. The web app's `_norm` (app.py) and the database
 * layer's `norm_barcode` (db.py) both strip surrounding whitespace, then
 * leading zeros, and turn an empty remainder into "0"; `norm_barcode` also
 * maps a missing value to "".
 */
module Barcodes {
  import opened Text
  import opened Wrappers

  /** `_norm(code)`. */
  function Norm(code: string): (r: string)
    ensures r != ""
    ensures r == "0" || r[0] != '0'
    ensures !IsSpace(r[|r| - 1])
  {
    var t := Strip(code);
    StripRightLast(StripLeft(code));
    LastKept(t);
    var s := StripLeadingZeros(t);
    if s == "" then "0" else s
  }

  lemma LastKept(s: string)
    ensures var r := StripLeadingZeros(s); r != "" ==> r[|r| - 1] == s[|s| - 1]
  {
  }

  /** `norm_barcode(b)`, with `None` standing for Python's `None`. */
  function NormBarcode(b: Option<string>): (r: string)
    ensures b.None? <==> r == ""
    ensures b.Some? ==> r == Norm(b.value)
  {
    match b
    case None => ""
    case Some(s) => Norm(s)
  }

  /**
   * Normalising is idempotent on every result that does not start with
   * whitespace; whitespace can only reach the front from inside the code.
   */
  lemma NormOfNormal(r: string)
    requires Trimmed(r) && r != "" && (r == "0" || r[0] != '0')
    ensures Norm(r) == r
  {
    StripOfTrimmed(r);
    var s := StripLeadingZeros(r);
    if r == "0" {
      assert r[1..] == "";
      assert s == "";
    } else {
      assert s == r;
    }
  }

  lemma NormIdempotent(code: string)
    requires !IsSpace(Norm(code)[0])
    ensures Norm(Norm(code)) == Norm(code)
  {
    NormOfNormal(Norm(code));
  }

  /** Whitespace inside a code can survive to the front, so `_norm` is not idempotent in general. */
  lemma NormNotIdempotent()
    ensures Norm("0 1") == " 1"
    ensures Norm(" 1") == "1"
  {
    NormOfZeroSpaceOne();
    NormOfSpaceOne();
  }

  lemma NormOfZeroSpaceOne()
    ensures Norm("0 1") == " 1"
  {
    var a, b := "0 1", " 1";
    assert a[0] == '0' && a[2] == '1' && a[1..] == b;
    assert !IsSpace(a[0]) && !IsSpace(a[|a| - 1]);
    StripOfTrimmed(a);
    assert StripLeadingZeros(b) == b;
    assert StripLeadingZeros(a) == b;
  }

  lemma NormOfSpaceOne()
    ensures Norm(" 1") == "1"
  {
    var b, c := " 1", "1";
    assert b[0] == ' ' && b[1..] == c;
    assert !IsSpace(c[0]);
    StripOfTrimmed(c);
    assert StripLeft(b) == StripLeft(c);
    assert StripLeadingZeros(c) == c;
  }

  /** Surrounding whitespace never changes the normalised code. */
  lemma NormIgnoresPadding(w1: string, code: string, w2: string)
    requires AllSpace(w1) && AllSpace(w2)
    ensures Norm(w1 + code + w2) == Norm(code)
  {
    StripIgnoresPadding(w1, code, w2);
  }

  lemma {:induction false} StripRightPrepend(p: string, s: string)
    requires StripRight(s) != ""
    ensures StripRight(p + s) == p + StripRight(s)
    decreases |s|
  {
    if IsSpace(s[|s| - 1]) {
      assert (p + s)[..|p + s| - 1] == p + s[..|s| - 1];
      StripRightPrepend(p, s[..|s| - 1]);
    }
  }

  /** Leading zeros in front of a code that does not start with whitespace are ignored. */
  lemma NormIgnoresLeadingZeros(z: string, code: string)
    requires AllZeros(z)
    requires code == "" || !IsSpace(code[0])
    ensures Norm(z + code) == Norm(code)
  {
    StripLeftOfTrimmed(code);
    if code == "" {
      assert z + code == z;
      if z != "" {
        StripLeftOfTrimmed(z);
        StripRightOfTrimmed(z);
      }
      StripLeadingZerosPadded(z, "");
      assert z + "" == z;
    } else {
      StripRightKeepsHead(code);
      StripRightPrepend(z, code);
      assert (z + code)[0] == (if z != "" then '0' else code[0]);
      StripLeftOfTrimmed(z + code);
      StripLeadingZerosPadded(z, Strip(code));
    }
  }
}
