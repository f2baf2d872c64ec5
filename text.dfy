/**
 * String helpers shared by the server (Python) and the client (JavaScript):
 * case folding, stripping a set of characters from either end, and substring
 * search. Strings are sequences of Unicode scalar values.
 */
module Text {

  /** The character classes the program strips. */
  datatype CharClass =
    | PySpace     // Python's `str.isspace`, removed by `str.strip()`
    | JsSpace     // JavaScript's WhiteSpace and LineTerminator: `\s`, removed by `trim()`
    | SentenceEnd // the argument of `rstrip(".!?")`

  predicate InClass(c: char, cls: CharClass) {
    match cls
    case PySpace =>
      '\t' <= c <= '\r' || '\U{1C}' <= c <= ' ' || c == '\U{85}' || c == '\U{A0}' ||
      c == '\U{1680}' || '\U{2000}' <= c <= '\U{200A}' || c == '\U{2028}' || c == '\U{2029}' ||
      c == '\U{202F}' || c == '\U{205F}' || c == '\U{3000}'
    case JsSpace =>
      '\t' <= c <= '\r' || c == ' ' || c == '\U{A0}' || c == '\U{1680}' ||
      '\U{2000}' <= c <= '\U{200A}' || c == '\U{2028}' || c == '\U{2029}' ||
      c == '\U{202F}' || c == '\U{205F}' || c == '\U{3000}' || c == '\U{FEFF}'
    case SentenceEnd =>
      c == '.' || c == '!' || c == '?'
  }

  predicate IsUpper(c: char) { 'A' <= c <= 'Z' }

  predicate IsLetter(c: char) { 'A' <= c <= 'Z' || 'a' <= c <= 'z' }

  /** A character class that case folding cannot move a character into or out of. */
  predicate NoLetters(drop: CharClass) { forall c :: InClass(c, drop) ==> !IsLetter(c) }

  /** Lower-cases one character (ASCII letters only). */
  function LowerChar(c: char): (d: char)
    ensures !IsUpper(d)
    ensures IsLetter(d) == IsLetter(c)
    ensures !IsUpper(c) ==> d == c
  {
    if IsUpper(c) then (c as int + 32) as char else c
  }

  /** Python's `s.lower()`, restricted to ASCII letters. */
  function Lower(s: string): (r: string)
    ensures |r| == |s|
    ensures forall i :: 0 <= i < |s| ==> r[i] == LowerChar(s[i])
  {
    if s == [] then [] else [LowerChar(s[0])] + Lower(s[1..])
  }

  lemma LowerAppend(a: string, b: string)
    ensures Lower(a + b) == Lower(a) + Lower(b)
  {
  }

  /** Text without upper-case letters is left as it is by case folding. */
  lemma LowerWithoutUpper(s: string)
    requires forall k :: 0 <= k < |s| ==> !IsUpper(s[k])
    ensures Lower(s) == s
  {
  }

  /** Removes the leading characters that belong to `drop` (Python `lstrip(chars)`). */
  function StripLeft(s: string, drop: CharClass): (r: string)
    ensures |r| <= |s|
    ensures r != [] ==> !InClass(r[0], drop)
  {
    if s != [] && InClass(s[0], drop) then StripLeft(s[1..], drop) else s
  }

  /** Removes the trailing characters that belong to `drop` (Python `rstrip(chars)`). */
  function StripRight(s: string, drop: CharClass): (r: string)
    ensures |r| <= |s|
    ensures r != [] ==> r[0] == s[0] && !InClass(r[|r| - 1], drop)
  {
    if s != [] && InClass(s[|s| - 1], drop) then StripRight(s[..|s| - 1], drop) else s
  }

  /** Removes the characters of class `drop` from both ends (Python `strip()`, JavaScript `trim()`). */
  function Strip(s: string, drop: CharClass): (r: string)
    ensures |r| <= |s|
    ensures r != [] ==> !InClass(r[0], drop) && !InClass(r[|r| - 1], drop)
  {
    StripRight(StripLeft(s, drop), drop)
  }

  /** `StripLeft` stops at the first character outside `drop`, whichever index that is. */
  lemma {:induction false} StripLeftAt(s: string, drop: CharClass, i: nat)
    requires i <= |s|
    requires forall k :: 0 <= k < i ==> InClass(s[k], drop)
    requires i < |s| ==> !InClass(s[i], drop)
    ensures StripLeft(s, drop) == s[i..]
  {
    if i > 0 {
      assert InClass(s[0], drop);
      assert s[1..][i - 1..] == s[i..];
      StripLeftAt(s[1..], drop, i - 1);
    }
  }

  /** `StripRight` stops at the last character outside `drop`, whichever index that is. */
  lemma {:induction false} StripRightAt(s: string, drop: CharClass, j: nat)
    requires j <= |s|
    requires forall k :: j <= k < |s| ==> InClass(s[k], drop)
    requires j > 0 ==> !InClass(s[j - 1], drop)
    ensures StripRight(s, drop) == s[..j]
    decreases |s|
  {
    if j < |s| {
      assert InClass(s[|s| - 1], drop);
      assert s[..|s| - 1][..j] == s[..j];
      StripRightAt(s[..|s| - 1], drop, j);
    }
  }

  /** `StripLeft` removes exactly the longest prefix of `drop` characters. */
  lemma {:induction false} StripLeftSpan(s: string, drop: CharClass) returns (i: nat)
    ensures i <= |s| && StripLeft(s, drop) == s[i..]
    ensures forall k :: 0 <= k < i ==> InClass(s[k], drop)
    ensures i < |s| ==> !InClass(s[i], drop)
  {
    if s != [] && InClass(s[0], drop) {
      var i' := StripLeftSpan(s[1..], drop);
      i := i' + 1;
      assert s[1..][i'..] == s[i..];
      forall k | 0 <= k < i ensures InClass(s[k], drop) {
        if k > 0 { assert s[k] == s[1..][k - 1]; }
      }
    } else {
      i := 0;
    }
  }

  /** `StripRight` removes exactly the longest suffix of `drop` characters. */
  lemma {:induction false} StripRightSpan(s: string, drop: CharClass) returns (j: nat)
    ensures j <= |s| && StripRight(s, drop) == s[..j]
    ensures forall k :: j <= k < |s| ==> InClass(s[k], drop)
    ensures j > 0 ==> !InClass(s[j - 1], drop)
    decreases |s|
  {
    if s != [] && InClass(s[|s| - 1], drop) {
      j := StripRightSpan(s[..|s| - 1], drop);
      assert s[..|s| - 1][..j] == s[..j];
      forall k | j <= k < |s| ensures InClass(s[k], drop) {
        if k < |s| - 1 { assert s[k] == s[..|s| - 1][k]; }
      }
    } else {
      j := |s|;
    }
  }

  /** A string made only of characters of class `drop` strips to the empty string. */
  lemma {:induction false} StripAllOf(s: string, drop: CharClass)
    requires forall k :: 0 <= k < |s| ==> InClass(s[k], drop)
    ensures Strip(s, drop) == []
  {
    StripLeftAt(s, drop, |s|);
  }

  /** A non-empty `s[i..j]` surrounded only by characters of class `drop` is what `Strip` keeps. */
  lemma {:induction false} StripKeeps(s: string, drop: CharClass, i: nat, j: nat)
    requires i < j <= |s|
    requires forall k :: 0 <= k < i ==> InClass(s[k], drop)
    requires forall k :: j <= k < |s| ==> InClass(s[k], drop)
    requires !InClass(s[i], drop) && !InClass(s[j - 1], drop)
    ensures Strip(s, drop) == s[i..j]
  {
    StripLeftAt(s, drop, i);
    var l := s[i..];
    forall k | j - i <= k < |l| ensures InClass(l[k], drop) {
      assert l[k] == s[i + k];
    }
    assert l[j - i - 1] == s[j - 1];
    StripRightAt(l, drop, j - i);
    assert l[..j - i] == s[i..j];
  }

  /**
   * Stripping has exactly one possible result: whenever `s[i..j]` is
   * surrounded by characters of class `drop` and does not itself begin or end with
   * one, it is what `Strip` returns.
   */
  lemma {:induction false} StripUnique(s: string, drop: CharClass, i: nat, j: nat)
    requires i <= j <= |s|
    requires forall k :: 0 <= k < i ==> InClass(s[k], drop)
    requires forall k :: j <= k < |s| ==> InClass(s[k], drop)
    requires i < j ==> !InClass(s[i], drop) && !InClass(s[j - 1], drop)
    ensures Strip(s, drop) == s[i..j]
  {
    if i == j {
      StripAllOf(s, drop);
    } else {
      StripKeeps(s, drop, i, j);
    }
  }

  /**
   * Where `Strip` cuts: it keeps `s[i..j]`, which neither begins nor ends with
   * a character of `drop`, and everything it removes around it is of `drop`.
   */
  lemma {:induction false} StripSpan(s: string, drop: CharClass) returns (i: nat, j: nat)
    ensures i <= j <= |s| && Strip(s, drop) == s[i..j]
    ensures forall k :: 0 <= k < i ==> InClass(s[k], drop)
    ensures forall k :: j <= k < |s| ==> InClass(s[k], drop)
    ensures i < j ==> !InClass(s[i], drop) && !InClass(s[j - 1], drop)
  {
    i := StripLeftSpan(s, drop);
    var l := s[i..];
    var m := StripRightSpan(l, drop);
    j := i + m;
    assert l[..m] == s[i..j];
    forall k | j <= k < |s| ensures InClass(s[k], drop) {
      assert s[k] == l[k - i];
    }
    if i < j {
      assert s[j - 1] == l[m - 1];
    }
  }

  /** Stripping one class from both ends and then another from the right keeps a slice. */
  lemma StripTwiceSpan(s: string, both: CharClass, right: CharClass) returns (i: nat)
    ensures var r := StripRight(Strip(s, both), right);
      i + |r| <= |s| && r == s[i..i + |r|]
  {
    var j;
    i, j := StripSpan(s, both);
    var t := Strip(s, both);
    var n := StripRightSpan(t, right);
    assert t[..n] == s[i..i + n];
  }

  lemma MiddleSlice(pre: string, s: string, post: string, i: nat, j: nat)
    requires i <= j <= |s|
    ensures (pre + s + post)[|pre| + i..|pre| + j] == s[i..j]
  {
  }

  /** Surrounding a stripped span with stripped characters keeps it a stripped span. */
  lemma PaddedSpan(pre: string, s: string, post: string, drop: CharClass, i: nat, j: nat)
    requires i <= j <= |s|
    requires forall k :: 0 <= k < |pre| ==> InClass(pre[k], drop)
    requires forall k :: 0 <= k < |post| ==> InClass(post[k], drop)
    requires forall k :: 0 <= k < i ==> InClass(s[k], drop)
    requires forall k :: j <= k < |s| ==> InClass(s[k], drop)
    requires i < j ==> !InClass(s[i], drop) && !InClass(s[j - 1], drop)
    ensures var t, n := pre + s + post, |pre|;
      (forall k :: 0 <= k < n + i ==> InClass(t[k], drop)) &&
      (forall k :: n + j <= k < |t| ==> InClass(t[k], drop)) &&
      (i < j ==> !InClass(t[n + i], drop) && !InClass(t[n + j - 1], drop))
  {
    var t, n := pre + s + post, |pre|;
    forall k | 0 <= k < n + i ensures InClass(t[k], drop) {
      if k < n { assert t[k] == pre[k]; } else { assert t[k] == s[k - n]; }
    }
    forall k | n + j <= k < |t| ensures InClass(t[k], drop) {
      if k < n + |s| { assert t[k] == s[k - n]; } else { assert t[k] == post[k - n - |s|]; }
    }
  }

  /** Padding made only of stripped characters never changes the result of `Strip`. */
  lemma {:induction false} StripIgnoresPadding(pre: string, s: string, post: string, drop: CharClass)
    requires forall k :: 0 <= k < |pre| ==> InClass(pre[k], drop)
    requires forall k :: 0 <= k < |post| ==> InClass(post[k], drop)
    ensures Strip(pre + s + post, drop) == Strip(s, drop)
  {
    var i, j := StripSpan(s, drop);
    PaddedSpan(pre, s, post, drop, i, j);
    StripUnique(pre + s + post, drop, |pre| + i, |pre| + j);
    MiddleSlice(pre, s, post, i, j);
  }

  /** Case folding never moves a character into or out of a class without letters. */
  lemma LowerKeepsMembership(s: string, drop: CharClass)
    requires NoLetters(drop)
    ensures forall k :: 0 <= k < |s| ==> (InClass(Lower(s)[k], drop) <==> InClass(s[k], drop))
  {
    forall k | 0 <= k < |s| ensures InClass(Lower(s)[k], drop) <==> InClass(s[k], drop) {
      assert IsLetter(Lower(s)[k]) == IsLetter(s[k]);
    }
  }

  lemma LowerSlice(s: string, i: nat, j: nat)
    requires i <= j <= |s|
    ensures Lower(s[i..j]) == Lower(s)[i..j]
  {
    var a, b := Lower(s[i..j]), Lower(s)[i..j];
    forall k | 0 <= k < |a| ensures a[k] == b[k] {
      assert s[i..j][k] == s[i + k];
    }
  }

  /**
   * Case folding and stripping commute when no letter is stripped:
   * `s.strip().lower() == s.lower().strip()`.
   */
  lemma {:induction false} LowerStripCommute(s: string, drop: CharClass)
    requires NoLetters(drop)
    ensures Lower(Strip(s, drop)) == Strip(Lower(s), drop)
  {
    var i, j := StripSpan(s, drop);
    LowerKeepsMembership(s, drop);
    StripUnique(Lower(s), drop, i, j);
    LowerSlice(s, i, j);
  }

  predicate StartsWith(s: string, p: string) { |p| <= |s| && s[..|p|] == p }

  /** Whether a text starts with `p` is decided by any prefix of it at least as long as `p`. */
  lemma StartsWithPrefixOf(s: string, u: string, p: string)
    requires |p| <= |u| <= |s| && s[..|u|] == u
    ensures StartsWith(s, p) <==> StartsWith(u, p)
  {
    assert s[..|p|] == u[..|p|];
  }

  /** Python's `p in s` for strings: `p` occurs somewhere in `s`. */
  predicate Contains(s: string, p: string)
    decreases |s|
  {
    StartsWith(s, p) || (s != [] && Contains(s[1..], p))
  }

  /** `Contains` holds exactly when `p` occurs at some index of `s`. */
  lemma {:induction false} ContainsAt(s: string, p: string, i: nat)
    requires i + |p| <= |s| && s[i..i + |p|] == p
    ensures Contains(s, p)
  {
    if i > 0 {
      assert s[1..][i - 1..i - 1 + |p|] == p;
      ContainsAt(s[1..], p, i - 1);
    }
  }

  /** Anything placed between two strings is contained in the result. */
  lemma ContainsInfix(a: string, p: string, b: string)
    ensures Contains(a + p + b, p)
  {
    assert (a + p + b)[|a|..|a| + |p|] == p;
    ContainsAt(a + p + b, p, |a|);
  }

  /** Appending text keeps every occurrence. */
  lemma {:induction false} ContainsAppend(a: string, p: string, b: string)
    requires Contains(a, p)
    ensures Contains(a + b, p)
    decreases |a|
  {
    if StartsWith(a, p) {
      assert (a + b)[..|p|] == a[..|p|];
    } else {
      assert (a + b)[1..] == a[1..] + b;
      ContainsAppend(a[1..], p, b);
    }
  }

  /** Prepending text keeps every occurrence. */
  lemma {:induction false} ContainsPrepend(a: string, b: string, p: string)
    requires Contains(b, p)
    ensures Contains(a + b, p)
    decreases |a|
  {
    if a != [] {
      assert (a + b)[1..] == a[1..] + b;
      ContainsPrepend(a[1..], b, p);
    } else {
      assert a + b == b;
    }
  }
}
