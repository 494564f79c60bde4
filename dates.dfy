/**
 * Calendar dates as the task list handles them: ISO 8601 `YYYY-MM-DD`
 * strings (what a date input yields and what the date part of
 * `toISOString()` is), compared with the string `<` operator. The point of
 * this module is that, on such strings, `<` is chronological order.
 */
module IsoDates {
  import opened JsStrings

  predicate IsDigit(c: char) {
    '0' <= c <= '9'
  }

  predicate AllDigits(s: string) {
    forall i :: 0 <= i < |s| ==> IsDigit(s[i])
  }

  function DigitValue(c: char): int {
    c as int - '0' as int
  }

  /** The decimal number a string of digits spells, most significant first. */
  function Num(s: string): int
  {
    if s == [] then 0 else 10 * Num(s[..|s| - 1]) + DigitValue(s[|s| - 1])
  }

  /** For digit strings of one length, `<` on the strings is `<` on the
      numbers they spell, and equal numbers mean equal strings. */
  lemma {:induction false} DigitsCompare(a: string, b: string)
    requires |a| == |b| && AllDigits(a) && AllDigits(b)
    ensures Less(a, b) <==> Num(a) < Num(b)
    ensures a == b <==> Num(a) == Num(b)
  {
    if a != [] {
      var n := |a| - 1;
      var a', b' := a[..n], b[..n];
      assert AllDigits(a') && AllDigits(b');
      DigitsCompare(a', b');
      assert a == a' + a[n..] && b == b' + b[n..];
      LessConcat(a', a[n..], b', b[n..]);
      assert 0 <= DigitValue(a[n]) <= 9 && 0 <= DigitValue(b[n]) <= 9;
      if a' == b' && a[n] != b[n] {
        assert a[n..] == [a[n]] && b[n..] == [b[n]];
        assert Less(a[n..], b[n..]) == (a[n] < b[n]);
      }
    }
  }

  /** A `YYYY-MM-DD` string. */
  predicate IsIsoDate(s: string) {
    && |s| == 10 && s[4] == '-' && s[7] == '-'
    && AllDigits(s[..4]) && AllDigits(s[5..7]) && AllDigits(s[8..])
  }

  function Year(s: string): int requires IsIsoDate(s) { Num(s[..4]) }
  function Month(s: string): int requires IsIsoDate(s) { Num(s[5..7]) }
  function Day(s: string): int requires IsIsoDate(s) { Num(s[8..]) }

  /** Chronological order of two dates: year first, then month, then day. */
  predicate Before(a: string, b: string)
    requires IsIsoDate(a) && IsIsoDate(b)
  {
    || Year(a) < Year(b)
    || (Year(a) == Year(b) && Month(a) < Month(b))
    || (Year(a) == Year(b) && Month(a) == Month(b) && Day(a) < Day(b))
  }

  lemma {:induction false} NumNonNegative(s: string)
    requires AllDigits(s)
    ensures Num(s) >= 0
  {
    if s != [] {
      assert AllDigits(s[..|s| - 1]);
      NumNonNegative(s[..|s| - 1]);
    }
  }

  lemma {:induction false} NumZeros(s: string)
    requires forall i :: 0 <= i < |s| ==> s[i] == '0'
    ensures Num(s) == 0
  {
    if s != [] {
      NumZeros(s[..|s| - 1]);
    }
  }

  /** "0000-00-00", the key the date sort gives an undated task, is below
      every other `YYYY-MM-DD` date. */
  lemma ZeroDateFirst(d: string)
    requires IsIsoDate(d) && d != "0000-00-00"
    ensures Less("0000-00-00", d)
  {
    var z := "0000-00-00";
    assert IsIsoDate(z);
    assert z[..4] == "0000" && z[5..7] == "00" && z[8..] == "00";
    NumZeros(z[..4]);
    NumZeros(z[5..7]);
    NumZeros(z[8..]);
    NumNonNegative(d[..4]);
    NumNonNegative(d[5..7]);
    NumNonNegative(d[8..]);
    IsoLessIsChronological(z, d);
  }

  /** Comparing two ISO dates as strings is comparing them as dates, which
      is what makes the `date < today` test of the validator meaningful. */
  lemma IsoLessIsChronological(a: string, b: string)
    requires IsIsoDate(a) && IsIsoDate(b)
    ensures Less(a, b) <==> Before(a, b)
    ensures a == b <==> (Year(a) == Year(b) && Month(a) == Month(b) && Day(a) == Day(b))
  {
    DigitsCompare(a[..4], b[..4]);
    DigitsCompare(a[5..7], b[5..7]);
    DigitsCompare(a[8..], b[8..]);
    assert a == a[..4] + (a[4..5] + (a[5..7] + (a[7..8] + a[8..])));
    assert b == b[..4] + (b[4..5] + (b[5..7] + (b[7..8] + b[8..])));
    assert a[4..5] == b[4..5] == "-" && a[7..8] == b[7..8] == "-";
    LessConcat(a[..4], a[4..], b[..4], b[4..]);
    LessConcat(a[4..5], a[5..], b[4..5], b[5..]);
    LessConcat(a[5..7], a[7..], b[5..7], b[7..]);
    LessConcat(a[7..8], a[8..], b[7..8], b[8..]);
    assert a[4..] == a[4..5] + a[5..] && b[4..] == b[4..5] + b[5..];
    assert a[5..] == a[5..7] + a[7..] && b[5..] == b[5..7] + b[7..];
    assert a[7..] == a[7..8] + a[8..] && b[7..] == b[7..8] + b[8..];
  }
}
