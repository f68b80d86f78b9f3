/** The string operations the task list relies on: `String.prototype.trim`,
    `toLowerCase` (ASCII letters only), `includes`, and the ordering of
    `YYYY-MM-DD` due dates. */
module Text {

  /** The code points `String.prototype.trim` strips: the WhiteSpace
      (tab, vertical tab, form feed, space, no-break space, byte order mark
      and the Unicode space separators) and LineTerminator code points of
      ECMAScript. */
  predicate IsWhite(c: char) {
    c == '\t' || c == '\n' || c == '\U{B}' || c == '\U{C}' || c == '\r' || c == ' '
    || c == '\U{A0}' || c == '\U{1680}' || ('\U{2000}' <= c <= '\U{200A}')
    || c == '\U{2028}' || c == '\U{2029}' || c == '\U{202F}' || c == '\U{205F}'
    || c == '\U{3000}' || c == '\U{FEFF}'
  }

  function TrimStart(s: string): (r: string)
    ensures r == [] || !IsWhite(r[0])
  {
    if s != [] && IsWhite(s[0]) then TrimStart(s[1..]) else s
  }

  function TrimEnd(s: string): (r: string)
    ensures r == [] || !IsWhite(r[|r| - 1])
  {
    if s != [] && IsWhite(s[|s| - 1]) then TrimEnd(s[..|s| - 1]) else s
  }

  /** `s.trim()`: `s` without its leading and trailing white space. */
  function Trim(s: string): (r: string)
    ensures r == [] || (!IsWhite(r[0]) && !IsWhite(r[|r| - 1]))
  {
    var t := TrimStart(s);
    TrimEndFront(t);
    TrimEnd(t)
  }

  /** `r` is `s[i..j]`, and everything before `i` and from `j` on is white
      space. */
  ghost predicate StripsWhite(s: string, r: string, i: int, j: int) {
    0 <= i <= j <= |s| && r == s[i..j]
    && (forall k :: 0 <= k < i ==> IsWhite(s[k]))
    && (forall k :: j <= k < |s| ==> IsWhite(s[k]))
  }

  /** The position where `TrimStart` cuts `s`. */
  lemma {:induction false} TrimStartCut(s: string) returns (i: nat)
    ensures StripsWhite(s, TrimStart(s), i, |s|)
  {
    if s != [] && IsWhite(s[0]) {
      var i' := TrimStartCut(s[1..]);
      i := i' + 1;
      assert s[1..][i'..] == s[i..];
      assert forall k :: 1 <= k < i ==> s[k] == s[1..][k - 1];
    } else {
      i := 0;
    }
  }

  /** The position where `TrimEnd` cuts `s`. */
  lemma {:induction false} TrimEndCut(s: string) returns (j: nat)
    ensures StripsWhite(s, TrimEnd(s), 0, j)
  {
    if s != [] && IsWhite(s[|s| - 1]) {
      var n := |s| - 1;
      j := TrimEndCut(s[..n]);
      assert s[..n][..j] == s[..j];
      assert forall k :: j <= k < n ==> s[k] == s[..n][k];
    } else {
      j := |s|;
    }
  }

  /** Trimming the end keeps the first character of what is left. */
  lemma TrimEndFront(s: string)
    ensures TrimEnd(s) == [] || TrimEnd(s)[0] == s[0]
  {
    var j := TrimEndCut(s);
  }

  /** Trimming removes only white space, and only at the two ends: the
      result is a slice of `s` with nothing but white space around it. */
  lemma TrimInfix(s: string)
    ensures exists i, j :: StripsWhite(s, Trim(s), i, j)
  {
    var t := TrimStart(s);
    var i := TrimStartCut(s);
    var j := TrimEndCut(t);
    assert s[i..][..j] == s[i..i + j];
    assert forall k :: i + j <= k < |s| ==> s[k] == t[k - i];
    assert StripsWhite(s, Trim(s), i, i + j);
  }

  /** JavaScript's `!s.trim()`: the string is empty or all white space. */
  predicate IsBlank(s: string) {
    Trim(s) == ""
  }

  lemma {:induction false} TrimStartEmpty(s: string)
    ensures TrimStart(s) == "" <==> forall i :: 0 <= i < |s| ==> IsWhite(s[i])
  {
    if s != [] && IsWhite(s[0]) {
      TrimStartEmpty(s[1..]);
      assert forall i :: 1 <= i < |s| ==> s[i] == s[1..][i - 1];
    }
  }

  lemma {:induction false} TrimEndEmpty(s: string)
    ensures TrimEnd(s) == "" <==> forall i :: 0 <= i < |s| ==> IsWhite(s[i])
  {
    if s != [] && IsWhite(s[|s| - 1]) {
      TrimEndEmpty(s[..|s| - 1]);
      assert forall i :: 0 <= i < |s| - 1 ==> s[i] == s[..|s| - 1][i];
    }
  }

  /** Input is rejected as blank exactly when every character is white space. */
  lemma BlankIffAllWhite(s: string)
    ensures IsBlank(s) <==> forall i :: 0 <= i < |s| ==> IsWhite(s[i])
  {
    TrimStartEmpty(s);
    var t := TrimStart(s);
    TrimEndEmpty(t);
    if t != [] {
      assert !IsWhite(t[0]);
    }
  }

  /** `String.prototype.toLowerCase` on ASCII letters. */
  function LowerChar(c: char): char {
    if 'A' <= c <= 'Z' then (c as int + 32) as char else c
  }

  /** `c` and `d` are the same character up to the case of an ASCII letter. */
  predicate SameIgnoringCase(c: char, d: char) {
    c == d
    || ('A' <= c <= 'Z' && d as int == c as int + 32)
    || ('A' <= d <= 'Z' && c as int == d as int + 32)
  }

  /** `s.toLowerCase()`: each character of `s`, with every ASCII capital
      replaced by its small letter. The two ensures together determine `r`. */
  function Lower(s: string): (r: string)
    ensures |r| == |s|
    ensures forall i :: 0 <= i < |s| ==> !('A' <= r[i] <= 'Z') && SameIgnoringCase(s[i], r[i])
  {
    seq(|s|, i requires 0 <= i < |s| => LowerChar(s[i]))
  }

  /** Two characters lower-case to the same character exactly when they
      differ at most in the case of an ASCII letter. */
  lemma LowerCharSame(c: char, d: char)
    ensures LowerChar(c) == LowerChar(d) <==> SameIgnoringCase(c, d)
  {
  }

  /** Lower-casing twice is lower-casing once. */
  lemma LowerIdempotent(s: string)
    ensures Lower(Lower(s)) == Lower(s)
  {
    assert forall i :: 0 <= i < |s| ==> LowerChar(Lower(s)[i]) == Lower(s)[i];
  }

  /** `s.includes(t)`: `t` occurs in `s` at the front or further on. */
  predicate Includes(s: string, t: string) {
    t <= s || (s != [] && Includes(s[1..], t))
  }

  /** `t` occurs in `s` starting at position `i`. */
  predicate OccursAt(s: string, t: string, i: int) {
    0 <= i && i + |t| <= |s| && s[i..i + |t|] == t
  }

  /** `Includes` is the usual "occurs at some position" relation. */
  lemma {:induction false} IncludesAt(s: string, t: string)
    ensures Includes(s, t) <==> exists i :: OccursAt(s, t, i)
  {
    if t <= s {
      assert OccursAt(s, t, 0);
    } else if s == [] {
    } else {
      IncludesAt(s[1..], t);
      if exists i :: OccursAt(s, t, i) {
        var i :| OccursAt(s, t, i);
        assert i != 0;
        assert OccursAt(s[1..], t, i - 1);
      }
      if Includes(s[1..], t) {
        var i :| OccursAt(s[1..], t, i);
        assert OccursAt(s, t, i + 1);
      }
    }
  }

  /** `t` occurs in `s` starting at position `i`, ignoring the case of
      ASCII letters. */
  predicate OccursIgnoringCaseAt(s: string, t: string, i: int) {
    0 <= i && i + |t| <= |s| && forall k :: 0 <= k < |t| ==> SameIgnoringCase(s[i + k], t[k])
  }

  /** Searching lower-cased text for a lower-cased term finds exactly the
      positions where the term occurs up to the case of ASCII letters. */
  lemma IncludesLowerAt(s: string, t: string)
    ensures Includes(Lower(s), Lower(t)) <==> exists i :: OccursIgnoringCaseAt(s, t, i)
  {
    IncludesAt(Lower(s), Lower(t));
    forall i | 0 <= i && i + |t| <= |s|
      ensures OccursAt(Lower(s), Lower(t), i) <==> OccursIgnoringCaseAt(s, t, i)
    {
      var w := Lower(s)[i..i + |t|];
      forall k | 0 <= k < |t|
        ensures w[k] == Lower(t)[k] <==> SameIgnoringCase(s[i + k], t[k])
      {
        LowerCharSame(s[i + k], t[k]);
      }
      if OccursIgnoringCaseAt(s, t, i) {
        assert w == Lower(t);
      }
    }
  }

  /** The empty search term occurs in every text. */
  lemma IncludesEmpty(s: string)
    ensures Includes(s, "")
  {
  }

  /** Lexicographic comparison by code point, returning -1, 0 or 1. On the
      `YYYY-MM-DD` strings a date input produces this is chronological order. */
  function LexCmp(a: string, b: string): (r: int)
    ensures -1 <= r <= 1
    ensures r == 0 <==> a == b
  {
    if a == [] then (if b == [] then 0 else -1)
    else if b == [] then 1
    else if a[0] < b[0] then -1
    else if a[0] > b[0] then 1
    else
      assert a == [a[0]] + a[1..] && b == [b[0]] + b[1..];
      LexCmp(a[1..], b[1..])
  }

  /** `LexCmp` orders by the first position where the strings differ, by
      code point, with a proper prefix first. */
  lemma {:induction false} LexCmpFirstDifference(a: string, b: string, k: nat)
    requires k <= |a| && k <= |b| && a[..k] == b[..k]
    requires k == |a| < |b| || (k < |a| && k < |b| && a[k] < b[k])
    ensures LexCmp(a, b) == -1
  {
    if k > 0 {
      assert a[0] == a[..k][0] && b[0] == b[..k][0];
      assert a[1..][..k - 1] == a[..k][1..] && b[1..][..k - 1] == b[..k][1..];
      LexCmpFirstDifference(a[1..], b[1..], k - 1);
    }
  }

  /** Swapping the arguments negates the comparison. */
  lemma {:induction false} LexCmpAntisymmetric(a: string, b: string)
    ensures LexCmp(b, a) == -LexCmp(a, b)
  {
    if a != [] && b != [] && a[0] == b[0] {
      LexCmpAntisymmetric(a[1..], b[1..]);
    }
  }

  /** "Not after" is transitive. */
  lemma {:induction false} LexCmpTransitive(a: string, b: string, c: string)
    requires LexCmp(a, b) <= 0 && LexCmp(b, c) <= 0
    ensures LexCmp(a, c) <= 0
  {
    if a != [] && b != [] && c != [] && a[0] == b[0] && b[0] == c[0] {
      LexCmpTransitive(a[1..], b[1..], c[1..]);
    }
  }
}
