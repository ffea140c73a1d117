/** The string operations the department screen applies to names,
    `String.prototype.trim` and `String.prototype.toLowerCase`, plus
    `startsWith` for the keyspace prefix. */
module JsText {

  /** The characters `trim` removes: ECMAScript's WhiteSpace and
      LineTerminator productions (tab, VT, FF, space, NBSP, BOM, the Zs
      separators, LF, CR, LS, PS). */
  predicate IsWhitespace(c: char)
  {
    || c == '\t' || c == '\U{000B}' || c == '\U{000C}' || c == ' '
    || c == '\U{00A0}' || c == '\U{FEFF}' || c == '\U{1680}'
    || ('\U{2000}' <= c <= '\U{200A}')
    || c == '\U{202F}' || c == '\U{205F}' || c == '\U{3000}'
    || c == '\n' || c == '\r' || c == '\U{2028}' || c == '\U{2029}'
  }

  predicate AllWhitespace(s: string)
  {
    forall i :: 0 <= i < |s| ==> IsWhitespace(s[i])
  }

  /** No whitespace at either end of `s`. */
  predicate NoEdgeWhitespace(s: string)
  {
    s == [] || (!IsWhitespace(s[0]) && !IsWhitespace(s[|s| - 1]))
  }

  /** Where `trim` starts: the index of the first character at or after
      `i` that is not whitespace, or |s| if there is none. */
  function SkipLeading(s: string, i: nat): (n: nat)
    requires i <= |s|
    ensures i <= n <= |s|
    decreases |s| - i
  {
    if i < |s| && IsWhitespace(s[i]) then SkipLeading(s, i + 1) else i
  }

  /** Where `trim` ends: one past the last character before `j` that is
      not whitespace, or 0 if there is none. */
  function SkipTrailing(s: string, j: nat): (n: nat)
    requires j <= |s|
    ensures n <= j
  {
    if j > 0 && IsWhitespace(s[j - 1]) then SkipTrailing(s, j - 1) else j
  }

  /** The forward scan passes only whitespace and stops at a character
      that is not. */
  lemma {:induction false} LeadingFacts(s: string, i: nat)
    requires i <= |s|
    ensures forall k :: i <= k < SkipLeading(s, i) ==> IsWhitespace(s[k])
    ensures SkipLeading(s, i) < |s| ==> !IsWhitespace(s[SkipLeading(s, i)])
    decreases |s| - i
  {
    if i < |s| && IsWhitespace(s[i]) {
      LeadingFacts(s, i + 1);
    }
  }

  /** The backward scan passes only whitespace and stops after a
      character that is not. */
  lemma {:induction false} TrailingFacts(s: string, j: nat)
    requires j <= |s|
    ensures forall k :: SkipTrailing(s, j) <= k < j ==> IsWhitespace(s[k])
    ensures SkipTrailing(s, j) > 0 ==> !IsWhitespace(s[SkipTrailing(s, j) - 1])
  {
    if j > 0 && IsWhitespace(s[j - 1]) {
      TrailingFacts(s, j - 1);
    }
  }

  /** The forward scan stops at the only such place. */
  lemma {:induction false} LeadingUnique(s: string, i: nat, n: nat)
    requires i <= n <= |s|
    requires forall k :: i <= k < n ==> IsWhitespace(s[k])
    requires n < |s| ==> !IsWhitespace(s[n])
    ensures SkipLeading(s, i) == n
    decreases n - i
  {
    if i < n {
      LeadingUnique(s, i + 1, n);
    }
  }

  /** The backward scan stops at the only such place. */
  lemma {:induction false} TrailingUnique(s: string, j: nat, n: nat)
    requires n <= j <= |s|
    requires forall k :: n <= k < j ==> IsWhitespace(s[k])
    requires n > 0 ==> !IsWhitespace(s[n - 1])
    ensures SkipTrailing(s, j) == n
  {
    if n < j {
      TrailingUnique(s, j - 1, n);
    }
  }

  /** `s.trim()`: `s` without its leading and trailing whitespace. */
  function Trim(s: string): (r: string)
    ensures |r| <= |s|
  {
    var a := SkipLeading(s, 0);
    var e := SkipTrailing(s, |s|);
    if a < e then s[a..e] else []
  }

  /** The trimmed string has no whitespace at either end, and it is empty
      exactly when `s` is all whitespace. */
  lemma TrimShape(s: string)
    ensures NoEdgeWhitespace(Trim(s))
    ensures Trim(s) == [] <==> AllWhitespace(s)
  {
    var a, e := SkipLeading(s, 0), SkipTrailing(s, |s|);
    LeadingFacts(s, 0);
    TrailingFacts(s, |s|);
    if a < e {
      var r := s[a..e];
      assert r[0] == s[a] && r[|r| - 1] == s[e - 1];
    }
  }

  /** Any two cuts split a string into three consecutive pieces. */
  lemma SplitThree(s: string, a: nat, e: nat)
    requires a <= e <= |s|
    ensures s == s[..a] + s[a..e] + s[e..]
  {
  }

  /** `trim` only cuts whitespace from the two ends: the input is the
      trimmed text with some whitespace before it and some after it. */
  lemma TrimPadding(s: string)
    ensures exists p, q :: AllWhitespace(p) && AllWhitespace(q) && s == p + Trim(s) + q
  {
    var p, q := TrimSplit(s);
  }

  /** `s` is its leading whitespace, then `Trim(s)`, then whitespace. */
  lemma TrimSplit(s: string) returns (p: string, q: string)
    ensures AllWhitespace(p) && AllWhitespace(q)
    ensures s == p + Trim(s) + q
  {
    var a, e := SkipLeading(s, 0), SkipTrailing(s, |s|);
    LeadingFacts(s, 0);
    TrailingFacts(s, |s|);
    if a < e {
      p, q := s[..a], s[e..];
      SplitThree(s, a, e);
      forall k | 0 <= k < |q| ensures IsWhitespace(q[k]) {
        assert q[k] == s[e + k];
      }
    } else {
      p, q := s, [];
      assert s == p + [] + q;
    }
  }

  /** Two runs of whitespace make one. */
  lemma AllWhitespaceConcat(a: string, b: string)
    requires AllWhitespace(a) && AllWhitespace(b)
    ensures AllWhitespace(a + b)
  {
    forall i | |a| <= i < |a + b| ensures IsWhitespace((a + b)[i]) {
      assert (a + b)[i] == b[i - |a|];
    }
  }

  /** Whitespace around a string with no whitespace at its ends is exactly
      what `trim` removes. */
  lemma TrimOfPadded(p: string, r: string, q: string)
    requires AllWhitespace(p) && AllWhitespace(q)
    requires r != [] && NoEdgeWhitespace(r)
    ensures Trim(p + r + q) == r
  {
    var s := p + r + q;
    var e := |p| + |r|;
    forall k | 0 <= k < |p| ensures IsWhitespace(s[k]) {
      assert s[k] == p[k];
    }
    assert s[|p|] == r[0];
    LeadingUnique(s, 0, |p|);
    forall k | e <= k < |s| ensures IsWhitespace(s[k]) {
      assert s[k] == q[k - e];
    }
    assert s[e - 1] == r[|r| - 1];
    TrailingUnique(s, |s|, e);
    assert s[|p|..e] == r;
  }

  /** A string with no whitespace at its ends is left alone by `trim`. */
  lemma TrimFixesTrimmed(s: string)
    requires NoEdgeWhitespace(s)
    ensures Trim(s) == s
  {
    if s != [] {
      TrimOfPadded([], s, []);
      assert [] + s + [] == s;
    }
  }

  /** Trimming twice is trimming once. */
  lemma TrimIdempotent(s: string)
    ensures Trim(Trim(s)) == Trim(s)
  {
    TrimShape(s);
    TrimFixesTrimmed(Trim(s));
  }
  /** The upper-case letters the model lower-cases: the ASCII letters
      and the upper-case letters of Latin-1 (U+00C0..U+00DE except the
      multiplication sign U+00D7). */
  predicate IsUpper(c: char)
  {
    'A' <= c <= 'Z' || ('\U{00C0}' <= c <= '\U{00DE}' && c != '\U{00D7}')
  }

  /** `toLowerCase` on one character: an upper-case letter becomes its
      own small letter, 32 code points further on, which is not
      upper-case; every other character is kept. */
  function LowerChar(c: char): (r: char)
    ensures !IsUpper(r)
    ensures !IsUpper(c) ==> r == c
    ensures IsUpper(c) ==> r as int == c as int + 32
    ensures 'A' <= c <= 'Z' ==> 'a' <= r <= 'z'
  {
    if IsUpper(c) then (c as int + 32) as char else c
  }

  /** Two characters lower-case alike exactly when they are equal or one
      is the other's upper-case form, so distinct letters stay distinct. */
  lemma LowerCharCollides(c: char, d: char)
    ensures LowerChar(c) == LowerChar(d) <==>
      c == d || (IsUpper(c) && d as int == c as int + 32) || (IsUpper(d) && c as int == d as int + 32)
  {
  }

  /** `toLowerCase` never turns whitespace into something else or the
      other way round. */
  lemma LowerKeepsWhitespace(c: char)
    ensures IsWhitespace(LowerChar(c)) <==> IsWhitespace(c)
  {
  }

  /** `s.toLowerCase()`, character by character. The result has the same
      length, no upper-case letter is left in it, and every character
      that was not upper-case stays where it was. */
  function Lower(s: string): (r: string)
    ensures |r| == |s|
    ensures forall i :: 0 <= i < |r| ==> !IsUpper(r[i])
    ensures forall i :: 0 <= i < |s| && !IsUpper(s[i]) ==> r[i] == s[i]
    ensures forall i :: 0 <= i < |s| && IsUpper(s[i]) ==> r[i] as int == s[i] as int + 32
  {
    seq(|s|, i requires 0 <= i < |s| => LowerChar(s[i]))
  }

  /** Lower-casing text that is already lower-case changes nothing. */
  lemma {:induction false} LowerIdempotent(s: string)
    ensures Lower(Lower(s)) == Lower(s)
  {
    var r := Lower(s);
    assert forall i :: 0 <= i < |r| ==> Lower(r)[i] == r[i];
  }

  /** The form two names are compared in: `s.trim().toLowerCase()`. */
  function Fold(s: string): string
  {
    Lower(Trim(s))
  }

  /** Folding an already trimmed name gives the same string as folding
      the raw input, so a stored (trimmed) name collides with every raw
      spelling of it. */
  lemma FoldOfTrim(s: string)
    ensures Fold(Trim(s)) == Fold(s)
  {
    TrimIdempotent(s);
  }

  /** Moving the padding of a string into the padding around it. */
  lemma Regroup(a: string, b: string, c: string, d: string, e: string)
    ensures a + (b + c + d) + e == (a + b) + c + (d + e)
  {
  }

  /** Whitespace put around a name changes neither its trimmed nor its
      folded form. */
  lemma TrimIgnoresPadding(pad1: string, s: string, pad2: string)
    requires AllWhitespace(pad1) && AllWhitespace(pad2)
    ensures Trim(pad1 + s + pad2) == Trim(s)
    ensures Fold(pad1 + s + pad2) == Fold(s)
  {
    TrimShape(s);
    if AllWhitespace(s) {
      AllWhitespaceConcat(pad1, s);
      AllWhitespaceConcat(pad1 + s, pad2);
      TrimShape(pad1 + s + pad2);
    } else {
      var p, q := TrimSplit(s);
      var r := Trim(s);
      Regroup(pad1, p, r, q, pad2);
      AllWhitespaceConcat(pad1, p);
      AllWhitespaceConcat(q, pad2);
      TrimOfPadded(pad1 + p, r, q + pad2);
    }
  }

  /** `s` and `t` have whitespace at the same positions. */
  predicate SameShape(s: string, t: string)
  {
    |s| == |t| && forall i :: 0 <= i < |s| ==> (IsWhitespace(s[i]) <==> IsWhitespace(t[i]))
  }

  /** Strings with whitespace at the same positions are trimmed at the
      same positions. */
  lemma TrimSameCuts(s: string, t: string)
    requires SameShape(s, t)
    ensures SkipLeading(s, 0) == SkipLeading(t, 0)
    ensures SkipTrailing(s, |s|) == SkipTrailing(t, |t|)
  {
    LeadingFacts(s, 0);
    LeadingUnique(t, 0, SkipLeading(s, 0));
    TrailingFacts(s, |s|);
    TrailingUnique(t, |t|, SkipTrailing(s, |s|));
  }

  /** Strings that agree after `toLowerCase` have whitespace at the same
      positions. */
  lemma CaseKeepsShape(s: string, t: string)
    requires |s| == |t| && forall j :: 0 <= j < |s| ==> LowerChar(s[j]) == LowerChar(t[j])
    ensures SameShape(s, t)
  {
    forall j | 0 <= j < |s| ensures IsWhitespace(s[j]) <==> IsWhitespace(t[j]) {
      LowerKeepsWhitespace(s[j]);
      LowerKeepsWhitespace(t[j]);
    }
  }

  /** The comparison ignores letter case: two strings that agree
      character by character after `toLowerCase` fold alike. */
  lemma FoldIgnoresCase(s: string, t: string)
    requires |s| == |t| && forall j :: 0 <= j < |s| ==> LowerChar(s[j]) == LowerChar(t[j])
    ensures Fold(s) == Fold(t)
  {
    CaseKeepsShape(s, t);
    TrimSameCuts(s, t);
    var a, e := SkipLeading(s, 0), SkipTrailing(s, |s|);
    if a < e {
      LowerSlicesAgree(s, t, a, e);
    }
  }

  /** Slices at the same place of strings that agree after `toLowerCase`
      agree after `toLowerCase`. */
  lemma LowerSlicesAgree(s: string, t: string, a: nat, e: nat)
    requires |s| == |t| && forall j :: 0 <= j < |s| ==> LowerChar(s[j]) == LowerChar(t[j])
    requires a <= e <= |s|
    ensures Lower(s[a..e]) == Lower(t[a..e])
  {
    var u, v := s[a..e], t[a..e];
    forall j | 0 <= j < |u| ensures Lower(u)[j] == Lower(v)[j] {
      assert u[j] == s[a + j] && v[j] == t[a + j];
    }
  }

  /** `s.startsWith(prefix)`. */
  predicate StartsWith(s: string, prefix: string)
  {
    |prefix| <= |s| && s[..|prefix|] == prefix
  }

  /** `startsWith` holds exactly when `s` is `prefix` followed by some
      string. */
  lemma StartsWithMeansPrefix(s: string, prefix: string)
    ensures StartsWith(s, prefix) <==> exists rest :: s == prefix + rest
  {
    if StartsWith(s, prefix) {
      assert s == prefix + s[|prefix|..];
    }
    if exists rest :: s == prefix + rest {
      var rest :| s == prefix + rest;
      assert s[..|prefix|] == prefix;
    }
  }
}
