/**
 * Query normalisation: `wordInput.value.trim().toLowerCase()`.
 * The normalised query is what the widget tests for emptiness, shows in the
 * loading and not-found messages, and puts in the request path.
 */
module Query {

  /**
   * The characters JavaScript's `String.prototype.trim` removes: the
   * WhiteSpace code points (tab, vertical tab, form feed, space, no-break
   * space, byte order mark and the space separators U+1680, U+2000-U+200A,
   * U+202F, U+205F, U+3000) and the LineTerminator code points (line feed,
   * carriage return, line separator, paragraph separator).
   */
  const Whitespace: set<char> := {
    '\t', '\n', '\U{000B}', '\U{000C}', '\r', ' ', '\U{00A0}', '\U{1680}',
    '\U{2000}', '\U{2001}', '\U{2002}', '\U{2003}', '\U{2004}', '\U{2005}',
    '\U{2006}', '\U{2007}', '\U{2008}', '\U{2009}', '\U{200A}',
    '\U{2028}', '\U{2029}', '\U{202F}', '\U{205F}', '\U{3000}', '\U{FEFF}'
  }

  predicate IsWhitespace(c: char) {
    c in Whitespace
  }

  predicate AllWhitespace(s: string) {
    forall i :: 0 <= i < |s| ==> IsWhitespace(s[i])
  }

  /** Neither end of `s` is a whitespace character. */
  predicate Trimmed(s: string) {
    s == [] || (!IsWhitespace(s[0]) && !IsWhitespace(s[|s| - 1]))
  }

  /** `r` sits at offset `a` of `s` with only whitespace before and after it. */
  ghost predicate PaddedBy(s: string, r: string, a: nat) {
    && a + |r| <= |s|
    && (forall i :: 0 <= i < |r| ==> s[a + i] == r[i])
    && (forall i :: 0 <= i < a ==> IsWhitespace(s[i]))
    && (forall i :: a + |r| <= i < |s| ==> IsWhitespace(s[i]))
  }

  /** Drops the leading whitespace. */
  function TrimStart(s: string): (r: string)
    ensures |r| <= |s| && r == s[|s| - |r|..]
    ensures r == [] || !IsWhitespace(r[0])
    ensures AllWhitespace(s[..|s| - |r|])
  {
    if |s| > 0 && IsWhitespace(s[0]) then
      var r := TrimStart(s[1..]);
      assert s[..|s| - |r|] == [s[0]] + s[1..][..|s| - 1 - |r|];
      r
    else s
  }

  /** Drops the trailing whitespace. */
  function TrimEnd(s: string): (r: string)
    ensures |r| <= |s| && r == s[..|r|]
    ensures r == [] || !IsWhitespace(r[|r| - 1])
    ensures AllWhitespace(s[|r|..])
  {
    if |s| > 0 && IsWhitespace(s[|s| - 1]) then
      var r := TrimEnd(s[..|s| - 1]);
      assert s[|r|..] == s[..|s| - 1][|r|..] + [s[|s| - 1]];
      r
    else s
  }

  /** A suffix `t` after whitespace, cut down to a prefix `r` before whitespace, is padded in `s`. */
  lemma PaddedFromEnds(s: string, t: string, r: string)
    requires |t| <= |s| && t == s[|s| - |t|..] && AllWhitespace(s[..|s| - |t|])
    requires |r| <= |t| && r == t[..|r|] && AllWhitespace(t[|r|..])
    ensures PaddedBy(s, r, |s| - |t|)
  {
    var a := |s| - |t|;
    forall i | 0 <= i < |r| ensures s[a + i] == r[i] {
      assert r[i] == t[i];
    }
    forall i | 0 <= i < a ensures IsWhitespace(s[i]) {
      assert s[..a][i] == s[i];
    }
    forall i | a + |r| <= i < |s| ensures IsWhitespace(s[i]) {
      assert t[|r|..][i - a - |r|] == s[i];
    }
  }

  /** The core left by dropping whitespace from both ends sits padded in `s`. */
  lemma TrimEndsPadded(s: string)
    ensures PaddedBy(s, TrimEnd(TrimStart(s)), |s| - |TrimStart(s)|)
  {
    PaddedFromEnds(s, TrimStart(s), TrimEnd(TrimStart(s)));
  }

  /** A padded core is empty exactly when the whole string is whitespace. */
  lemma PaddedEmpty(s: string, r: string, a: nat)
    requires PaddedBy(s, r, a) && Trimmed(r)
    ensures r == [] <==> AllWhitespace(s)
  {
    if r != [] {
      assert s[a + 0] == r[0];
    } else {
      forall i | 0 <= i < |s| ensures IsWhitespace(s[i]) {
        if a <= i { assert a + |r| <= i; }
      }
    }
  }

  /** `String.prototype.trim`. */
  function Trim(s: string): (r: string)
    ensures |r| <= |s|
    ensures Trimmed(r)
    ensures exists a: nat :: PaddedBy(s, r, a)
    ensures r == [] <==> AllWhitespace(s)
  {
    TrimEndsPadded(s);
    PaddedEmpty(s, TrimEnd(TrimStart(s)), |s| - |TrimStart(s)|);
    TrimEnd(TrimStart(s))
  }

  /** A padded core that starts with a non-whitespace character starts after any whitespace-only prefix. */
  lemma PaddedStart(s: string, r: string, a: nat, b: nat)
    requires PaddedBy(s, r, a) && r != [] && !IsWhitespace(r[0])
    requires b <= |s| && forall i :: 0 <= i < b ==> IsWhitespace(s[i])
    ensures b <= a
  {
    assert s[a + 0] == r[0];
  }

  /** A padded core that ends with a non-whitespace character ends before any whitespace-only suffix. */
  lemma PaddedEnd(s: string, r: string, a: nat, e: nat)
    requires PaddedBy(s, r, a) && r != [] && !IsWhitespace(r[|r| - 1])
    requires forall i :: e <= i < |s| ==> IsWhitespace(s[i])
    ensures a + |r| <= e
  {
    assert s[a + (|r| - 1)] == r[|r| - 1];
  }

  /** Two cores of the same length padded at the same offset are equal. */
  lemma PaddedSame(s: string, r: string, t: string, a: nat)
    requires PaddedBy(s, r, a) && PaddedBy(s, t, a) && |r| == |t|
    ensures r == t
  {
    forall i | 0 <= i < |r| ensures r[i] == t[i] {
      assert s[a + i] == r[i];
    }
  }

  /** Two whitespace-padded cores of `s` with no whitespace at their ends are equal. */
  lemma PaddedCoreUnique(s: string, r: string, a: nat, t: string, b: nat)
    requires PaddedBy(s, r, a) && Trimmed(r)
    requires PaddedBy(s, t, b) && Trimmed(t)
    ensures r == t
  {
    PaddedEmpty(s, r, a);
    PaddedEmpty(s, t, b);
    if r != [] {
      // both cores start at the first and end at the last non-whitespace character of `s`
      PaddedStart(s, r, a, b);
      PaddedStart(s, t, b, a);
      PaddedEnd(s, r, a, b + |t|);
      PaddedEnd(s, t, b, a + |r|);
      PaddedSame(s, r, t, a);
    }
  }

  /**
   * Trimming has exactly one answer: any whitespace-padded core of `s` with
   * no whitespace at either end is `Trim(s)`.
   */
  lemma TrimUnique(s: string, r: string, a: nat)
    requires PaddedBy(s, r, a) && Trimmed(r)
    ensures r == Trim(s)
  {
    var t := Trim(s);
    var b: nat :| PaddedBy(s, t, b);
    PaddedCoreUnique(s, r, a, t, b);
  }

  predicate IsUpper(c: char) {
    'A' <= c <= 'Z'
  }

  predicate NoUpper(s: string) {
    forall i :: 0 <= i < |s| ==> !IsUpper(s[i])
  }

  /** ASCII `toLowerCase` of one character. */
  function LowerChar(c: char): (l: char)
    ensures !IsUpper(l)
    ensures IsUpper(c) ==> 'a' <= l <= 'z' && l as int - c as int == 32
    ensures !IsUpper(c) ==> l == c
  {
    if IsUpper(c) then (c as int + ('a' as int - 'A' as int)) as char else c
  }

  /** Lowering a character never makes or unmakes whitespace. */
  lemma LowerCharWhitespace(c: char)
    ensures IsWhitespace(LowerChar(c)) == IsWhitespace(c)
  {
  }

  /** `String.prototype.toLowerCase`, restricted to ASCII letters. */
  function Lower(s: string): (r: string)
    ensures |r| == |s|
    ensures forall i :: 0 <= i < |s| ==> r[i] == LowerChar(s[i])
    ensures NoUpper(r)
  {
    if s == [] then [] else [LowerChar(s[0])] + Lower(s[1..])
  }

  /** A string that has no upper-case letters is its own lower-case form. */
  lemma {:induction false} LowerOfLower(s: string)
    requires NoUpper(s)
    ensures Lower(s) == s
  {
    if s != [] {
      LowerOfLower(s[1..]);
    }
  }

  /** Lowering keeps a trimmed string trimmed. */
  lemma LowerTrimmed(t: string)
    requires Trimmed(t)
    ensures Trimmed(Lower(t))
  {
    if t != [] {
      LowerCharWhitespace(t[0]);
      LowerCharWhitespace(t[|t| - 1]);
    }
  }

  /** The query `searchWord` works with. */
  function Normalize(input: string): (q: string)
    ensures NoUpper(q)
    ensures Trimmed(q)
    ensures q == [] <==> AllWhitespace(input)
    ensures |q| <= |input|
  {
    var t := Trim(input);
    LowerTrimmed(t);
    Lower(t)
  }

  /** Normalising an already normalised query changes nothing. */
  lemma NormalizeIdempotent(input: string)
    ensures Normalize(Normalize(input)) == Normalize(input)
  {
    var q := Normalize(input);
    assert PaddedBy(q, q, 0) by { assert q[..0] == [] && q[|q|..] == []; }
    TrimUnique(q, q, 0);
    LowerOfLower(q);
  }
}
