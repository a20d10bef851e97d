/** Character classes and the two string normalisations the system relies on:
    JavaScript's `String.prototype.trim` (and the `\s` class of its regular
    expressions) and `String.prototype.toLowerCase`, the latter restricted to
    ASCII letters. */
module Strings {

  /** The characters JavaScript's `\s` matches and `trim` removes: the
      WhiteSpace and LineTerminator code points of ECMAScript. */
  predicate IsWhitespace(c: char) {
    || c == ' ' || c == '\t' || c == '\n' || c == '\r'
    || c == '\U{000B}' || c == '\U{000C}' || c == '\U{00A0}' || c == '\U{1680}'
    || ('\U{2000}' <= c <= '\U{200A}')
    || c == '\U{2028}' || c == '\U{2029}' || c == '\U{202F}' || c == '\U{205F}'
    || c == '\U{3000}' || c == '\U{FEFF}'
  }

  predicate IsUpper(c: char) { 'A' <= c <= 'Z' }

  predicate IsLower(c: char) { 'a' <= c <= 'z' }

  predicate IsDigit(c: char) { '0' <= c <= '9' }

  /** The class `[A-Za-z]`. */
  predicate IsLetter(c: char) { IsUpper(c) || IsLower(c) }

  predicate AllWhitespace(s: string) {
    forall i | 0 <= i < |s| :: IsWhitespace(s[i])
  }

  predicate NoWhitespace(s: string) {
    forall i | 0 <= i < |s| :: !IsWhitespace(s[i])
  }

  /** Neither starts nor ends with whitespace. */
  predicate Trimmed(s: string) {
    s == [] || (!IsWhitespace(s[0]) && !IsWhitespace(s[|s| - 1]))
  }

  predicate NoUpper(s: string) {
    forall i | 0 <= i < |s| :: !IsUpper(s[i])
  }

  /** `toLowerCase` on one character (ASCII letters only). */
  function LowerChar(c: char): (d: char)
    ensures !IsUpper(d)
    ensures IsUpper(c) ==> IsLower(d) && d as int == c as int + 32
    ensures !IsUpper(c) ==> d == c
  {
    if IsUpper(c) then (c as int + 32) as char else c
  }

  /** `toLowerCase` on a string (ASCII letters only). */
  function Lower(s: string): (r: string)
    ensures |r| == |s|
    ensures NoUpper(r)
    ensures forall i | 0 <= i < |s| :: IsUpper(s[i]) ==> r[i] as int == s[i] as int + 32
    ensures forall i | 0 <= i < |s| :: !IsUpper(s[i]) ==> r[i] == s[i]
    ensures forall i | 0 <= i < |s| :: IsWhitespace(r[i]) <==> IsWhitespace(s[i])
  {
    seq(|s|, i requires 0 <= i < |s| => LowerChar(s[i]))
  }

  /** Leading whitespace removed. */
  function TrimStart(s: string): (r: string)
    decreases |s|
  {
    if |s| > 0 && IsWhitespace(s[0]) then TrimStart(s[1..]) else s
  }

  /** Trailing whitespace removed. */
  function TrimEnd(s: string): (r: string)
    decreases |s|
  {
    if |s| > 0 && IsWhitespace(s[|s| - 1]) then TrimEnd(s[..|s| - 1]) else s
  }

  /** What `TrimStart` drops is whitespace, and what it keeps is a suffix
      that does not start with whitespace. */
  lemma {:induction false} TrimStartSpec(s: string)
    ensures |TrimStart(s)| <= |s| && TrimStart(s) == s[|s| - |TrimStart(s)|..]
    ensures AllWhitespace(s[..|s| - |TrimStart(s)|])
    ensures TrimStart(s) == [] || !IsWhitespace(TrimStart(s)[0])
    decreases |s|
  {
    if |s| > 0 && IsWhitespace(s[0]) {
      TrimStartSpec(s[1..]);
      var n := |s| - |TrimStart(s)|;
      assert s[1..][..n - 1] == s[1..n];
      assert forall i | 1 <= i < n :: s[..n][i] == s[1..n][i - 1];
    } else {
      assert s[..0] == [];
    }
  }

  /** What `TrimEnd` drops is whitespace, and what it keeps is a prefix that
      does not end with whitespace. */
  lemma {:induction false} TrimEndSpec(s: string)
    ensures |TrimEnd(s)| <= |s| && TrimEnd(s) == s[..|TrimEnd(s)|]
    ensures AllWhitespace(s[|TrimEnd(s)|..])
    ensures TrimEnd(s) == [] || !IsWhitespace(TrimEnd(s)[|TrimEnd(s)| - 1])
    decreases |s|
  {
    if |s| > 0 && IsWhitespace(s[|s| - 1]) {
      var t := s[..|s| - 1];
      TrimEndSpec(t);
      var n := |TrimEnd(s)|;
      assert forall i | n <= i < |s| - 1 :: s[i] == t[i];
      assert t[..n] == s[..n];
    } else {
      assert s[|s|..] == [];
    }
  }

  /** `trim`: whitespace removed at both ends, nothing else changed. */
  function Trim(s: string): (r: string)
    ensures |r| <= |s|
    ensures Trimmed(r)
    ensures r == [] <==> AllWhitespace(s)
  {
    var t := TrimStart(s);
    var r := TrimEnd(t);
    TrimStartSpec(s);
    TrimEndSpec(t);
    assert r != [] ==> r[0] == t[0];
    assert t == [] ==> AllWhitespace(s) by {
      if t == [] { assert s[..|s| - |t|] == s; }
    }
    assert AllWhitespace(s) ==> t == [];
    assert r == [] ==> AllWhitespace(t) by {
      if r == [] { assert t[|r|..] == t; }
    }
    assert AllWhitespace(t) ==> t == [];
    r
  }

  /** Trimming a string that is already trimmed changes nothing. */
  lemma TrimIdempotent(s: string)
    ensures Trim(Trim(s)) == Trim(s)
  {
    TrimOfTrimmed(Trim(s));
  }

  /** A string that neither starts nor ends with whitespace is its own trim. */
  lemma TrimOfTrimmed(s: string)
    requires Trimmed(s)
    ensures Trim(s) == s
  {
    assert TrimStart(s) == s;
    assert TrimEnd(s) == s;
  }

  /** A string without any whitespace is its own trim. */
  lemma TrimWithoutWhitespace(s: string)
    requires NoWhitespace(s)
    ensures Trim(s) == s
  {
    TrimOfTrimmed(s);
  }

  /** Lowercasing twice is lowercasing once. */
  lemma LowerIdempotent(s: string)
    ensures Lower(Lower(s)) == Lower(s)
  {
  }

  /** A string without capitals is its own lowercase. */
  lemma LowerOfNoUpper(s: string)
    requires NoUpper(s)
    ensures Lower(s) == s
  {
  }

  /** What `trim` keeps is a contiguous piece of its input, and everything
      it drops on either side of that piece is whitespace. */
  lemma TrimIsInfix(s: string) returns (k: nat)
    ensures k + |Trim(s)| <= |s| && Trim(s) == s[k..k + |Trim(s)|]
    ensures AllWhitespace(s[..k]) && AllWhitespace(s[k + |Trim(s)|..])
  {
    var t := TrimStart(s);
    TrimStartSpec(s);
    TrimEndSpec(t);
    k := |s| - |t|;
    assert t == s[k..];
    var r := TrimEnd(t);
    assert r == t[..|r|];
    assert Trim(s) == r;
    forall i | 0 <= i < |r|
      ensures r[i] == s[k + i]
    {
      assert r[i] == t[i];
    }
    assert r == s[k..k + |r|];
    var tail := s[k + |r|..];
    forall i | 0 <= i < |tail|
      ensures IsWhitespace(tail[i])
    {
      assert tail[i] == t[|r| + i];
    }
  }

  /** Trimming a string without capitals leaves it without capitals. */
  lemma TrimKeepsNoUpper(s: string)
    requires NoUpper(s)
    ensures NoUpper(Trim(s))
  {
    var k := TrimIsInfix(s);
    assert forall i | 0 <= i < |Trim(s)| :: Trim(s)[i] == s[k + i];
  }

  lemma {:induction false} TrimStartLower(s: string)
    ensures TrimStart(Lower(s)) == Lower(TrimStart(s))
    decreases |s|
  {
    if |s| > 0 && IsWhitespace(s[0]) {
      assert Lower(s)[1..] == Lower(s[1..]);
      TrimStartLower(s[1..]);
    }
  }

  lemma {:induction false} TrimEndLower(s: string)
    ensures TrimEnd(Lower(s)) == Lower(TrimEnd(s))
    decreases |s|
  {
    if |s| > 0 && IsWhitespace(s[|s| - 1]) {
      assert Lower(s)[..|s| - 1] == Lower(s[..|s| - 1]);
      TrimEndLower(s[..|s| - 1]);
    }
  }

  /** The schema's two setters on `email` (lowercase, trim) commute, so the
      order in which they apply does not matter. */
  lemma TrimLowerCommute(s: string)
    ensures Trim(Lower(s)) == Lower(Trim(s))
  {
    TrimStartLower(s);
    TrimEndLower(TrimStart(s));
  }

  /** Whitespace before and after a trimmed string, in any amounts, is
      exactly what `trim` removes. */
  lemma TrimOfPadded(pre: string, s: string, post: string)
    requires AllWhitespace(pre) && AllWhitespace(post)
    requires s != [] && !IsWhitespace(s[0]) && !IsWhitespace(s[|s| - 1])
    ensures Trim(pre + s + post) == s
  {
    assert pre + s + post == pre + (s + post);
    TrimStartOfPadded(pre, s + post);
    TrimEndOfPadded(s, post);
  }

  lemma {:induction false} TrimStartOfPadded(pad: string, s: string)
    requires AllWhitespace(pad) && (s == [] || !IsWhitespace(s[0]))
    ensures TrimStart(pad + s) == s
    decreases |pad|
  {
    if pad != [] {
      assert (pad + s)[1..] == pad[1..] + s;
      TrimStartOfPadded(pad[1..], s);
    } else {
      assert pad + s == s;
    }
  }

  lemma {:induction false} TrimEndOfPadded(s: string, pad: string)
    requires AllWhitespace(pad) && (s == [] || !IsWhitespace(s[|s| - 1]))
    ensures TrimEnd(s + pad) == s
    decreases |pad|
  {
    if pad != [] {
      assert (s + pad)[..|s + pad| - 1] == s + pad[..|pad| - 1];
      TrimEndOfPadded(s, pad[..|pad| - 1]);
    } else {
      assert s + pad == s;
    }
  }

}
