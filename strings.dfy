/**
 * The two JavaScript string primitives the task list relies on:
 * `String.prototype.trim` (used on the task name) and the relational
 * `<` operator on strings (used to compare ISO dates, and as the ordinal
 * stand-in for `localeCompare` on date strings).
 */
module JsStrings {

  /** WhiteSpace and LineTerminator code points, the set `trim` strips:
      TAB, VT, FF, SPACE, NBSP, ZWNBSP, the other Zs space separators,
      LF, CR, LINE SEPARATOR and PARAGRAPH SEPARATOR. */
  predicate IsWhitespace(c: char) {
    || c == '\U{9}' || c == '\U{B}' || c == '\U{C}' || c == ' '
    || c == '\U{A0}' || c == '\U{FEFF}'
    || c == '\U{1680}' || ('\U{2000}' <= c <= '\U{200A}') || c == '\U{202F}'
    || c == '\U{205F}' || c == '\U{3000}'
    || c == '\U{A}' || c == '\U{D}' || c == '\U{2028}' || c == '\U{2029}'
  }

  /** A string with nothing but whitespace in it (the empty string too). */
  predicate Blank(s: string) {
    forall i :: 0 <= i < |s| ==> IsWhitespace(s[i])
  }

  /** The number of whitespace characters `s` starts with. */
  function LeadingBlanks(s: string): (n: nat)
    ensures n <= |s|
    ensures forall i :: 0 <= i < n ==> IsWhitespace(s[i])
    ensures n == |s| || !IsWhitespace(s[n])
  {
    if s != [] && IsWhitespace(s[0]) then 1 + LeadingBlanks(s[1..]) else 0
  }

  /** The number of whitespace characters `s` ends with. */
  function TrailingBlanks(s: string): (n: nat)
    ensures n <= |s|
    ensures forall i :: |s| - n <= i < |s| ==> IsWhitespace(s[i])
    ensures n == |s| || !IsWhitespace(s[|s| - n - 1])
  {
    if s != [] && IsWhitespace(s[|s| - 1]) then 1 + TrailingBlanks(s[..|s| - 1]) else 0
  }

  /** `s.trim()`: `s` with its leading and trailing whitespace cut off, so
      the result neither starts nor ends with whitespace and is empty
      exactly when `s` is all whitespace. */
  function Trim(s: string): (r: string)
    ensures r == [] <==> Blank(s)
    ensures r == [] || (!IsWhitespace(r[0]) && !IsWhitespace(r[|r| - 1]))
    ensures exists lo {:trigger s[lo..lo + |r|]} ::
      && 0 <= lo <= |s| - |r| && r == s[lo..lo + |r|]
      && Blank(s[..lo]) && Blank(s[lo + |r|..])
  {
    var lo := LeadingBlanks(s);
    var t := s[lo..];
    var n := TrailingBlanks(t);
    var r := t[..|t| - n];
    assert r == s[lo..lo + |r|];
    assert Blank(s[..lo]);
    assert Blank(s[lo + |r|..]) by {
      assert s[lo + |r|..] == t[|t| - n..];
    }
    r
  }

  /** Trimming an already trimmed string changes nothing, so trimming the
      name both before and inside validation is the same as trimming once. */
  lemma TrimIdempotent(s: string)
    ensures Trim(Trim(s)) == Trim(s)
  {
    var r := Trim(s);
    if r != [] {
      assert LeadingBlanks(r) == 0;
      assert TrailingBlanks(r) == 0;
    }
  }

  /** The relational `a < b` on strings: ordinal comparison of the first
      differing character, a proper prefix being smaller. */
  function Less(a: string, b: string): (r: bool)
    ensures a <= b ==> (r <==> |a| < |b|)
  {
    if a == [] then b != []
    else if b == [] then false
    else if a[0] == b[0] then Less(a[1..], b[1..])
    else a[0] < b[0]
  }

  lemma {:induction false} LessIrreflexive(a: string)
    ensures !Less(a, a)
  {
    if a != [] {
      LessIrreflexive(a[1..]);
    }
  }

  lemma {:induction false} LessTransitive(a: string, b: string, c: string)
    requires Less(a, b) && Less(b, c)
    ensures Less(a, c)
  {
    if a != [] && b != [] && c != [] && a[0] == b[0] == c[0] {
      LessTransitive(a[1..], b[1..], c[1..]);
    }
  }

  /** `<` is a strict total order: of two different strings one is smaller. */
  lemma {:induction false} LessTotal(a: string, b: string)
    requires a != b
    ensures Less(a, b) || Less(b, a)
  {
    if a != [] && b != [] && a[0] == b[0] {
      assert a == [a[0]] + a[1..] && b == [b[0]] + b[1..];
      LessTotal(a[1..], b[1..]);
    }
  }

  lemma LessAsymmetric(a: string, b: string)
    requires Less(a, b)
    ensures !Less(b, a)
  {
    if Less(b, a) {
      LessTransitive(a, b, a);
      LessIrreflexive(a);
    }
  }

  /** Comparing two strings that are split at the same length: the first
      parts decide unless they are equal, in which case the rest decides. */
  lemma {:induction false} LessConcat(p: string, q: string, p': string, q': string)
    requires |p| == |p'|
    ensures Less(p + q, p' + q') == if p == p' then Less(q, q') else Less(p, p')
  {
    if p != [] {
      assert (p + q)[1..] == p[1..] + q;
      assert (p' + q')[1..] == p'[1..] + q';
      LessConcat(p[1..], q, p'[1..], q');
      if p[0] == p'[0] && p[1..] == p'[1..] {
        assert p == p';
      }
    } else {
      assert p + q == q && p' + q' == q';
    }
  }
}
