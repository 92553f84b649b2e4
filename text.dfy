/**
 * String helpers the backend relies on: JavaScript's `String.prototype.trim`
 * (applied by the schemas' `trim: true` and by the CSV import) and
 * `String.prototype.replace` with a string pattern (used to strip the
 * `Bearer ` scheme from the Authorization header).
 */
module Text {

  /** The characters `trim` removes: ECMAScript WhiteSpace and LineTerminator. */
  predicate IsSpace(c: char) {
    c == ' ' || c == '\t' || c == '\n' || c == '\r'
    || c == '\U{000B}' || c == '\U{000C}' || c == '\U{00A0}' || c == '\U{FEFF}'
    || c == '\U{1680}' || ('\U{2000}' <= c <= '\U{200A}')
    || c == '\U{2028}' || c == '\U{2029}' || c == '\U{202F}' || c == '\U{205F}' || c == '\U{3000}'
  }

  /** Neither end of `s` is white space. */
  predicate IsTrimmed(s: string) {
    s == [] || (!IsSpace(s[0]) && !IsSpace(s[|s| - 1]))
  }

  predicate AllSpace(s: string) {
    forall k :: 0 <= k < |s| ==> IsSpace(s[k])
  }

  /** `s` without its leading white space. */
  function TrimStart(s: string): (r: string)
    ensures |r| <= |s| && r == s[|s| - |r|..]
    ensures r == [] || !IsSpace(r[0])
    ensures AllSpace(s[..|s| - |r|])
    decreases |s|
  {
    if s != [] && IsSpace(s[0]) then
      var r := TrimStart(s[1..]);
      assert s[..|s| - |r|] == [s[0]] + s[1..][..|s| - 1 - |r|];
      r
    else s
  }

  /** `s` without its trailing white space. */
  function TrimEnd(s: string): (r: string)
    ensures |r| <= |s| && r == s[..|r|]
    ensures r == [] || !IsSpace(r[|r| - 1])
    ensures AllSpace(s[|r|..])
    decreases |s|
  {
    if s != [] && IsSpace(s[|s| - 1]) then
      var r := TrimEnd(s[..|s| - 1]);
      assert s[|r|..] == s[..|s| - 1][|r|..] + [s[|s| - 1]];
      r
    else s
  }

  /**
   * JavaScript `s.trim()`: the longest infix of `s` with no white space at
   * either end. It is empty exactly when `s` is blank.
   */
  function Trim(s: string): (r: string)
    ensures IsTrimmed(r)
    ensures |r| <= |s|
    ensures r == [] <==> AllSpace(s)
  {
    var t := TrimStart(s);
    TrimBlank(s, t, TrimEnd(t));
    TrimKeepsTrimmed(s);
    TrimEnd(t)
  }

  /**
   * What `Trim` returns is taken from `s`: the infix left between a blank
   * prefix and a blank suffix.
   */
  lemma TrimIsInfix(s: string)
    ensures exists i, j :: 0 <= i <= j <= |s| && Trim(s) == s[i..j] && AllSpace(s[..i]) && AllSpace(s[j..])
  {
    var t := TrimStart(s);
    var r := TrimEnd(t);
    var i, j := |s| - |t|, |s| - |t| + |r|;
    InfixOfSuffix(s, t, r);
    assert r == s[i..j] && AllSpace(s[..i]);
    assert AllSpace(s[j..]) by { assert AllSpace(t[|r|..]); }
  }

  lemma TrimBlank(s: string, t: string, r: string)
    requires t == TrimStart(s) && r == TrimEnd(t)
    ensures IsTrimmed(r)
    ensures r == [] <==> AllSpace(s)
  {
    if r == [] {
      assert t == t[|r|..];
      assert s[..|s| - |t|] == s;
    } else {
      assert r[0] == t[0] == s[|s| - |t|];
    }
  }

  /** A suffix of `s` cut short is an infix of `s`, and what was cut is a suffix of `s`. */
  lemma InfixOfSuffix<T>(s: seq<T>, t: seq<T>, r: seq<T>)
    requires |t| <= |s| && t == s[|s| - |t|..]
    requires |r| <= |t| && r == t[..|r|]
    ensures r == s[|s| - |t|..|s| - |t| + |r|]
    ensures t[|r|..] == s[|s| - |t| + |r|..]
  {
  }

  lemma TrimKeepsTrimmed(s: string)
    ensures IsTrimmed(s) ==> TrimEnd(TrimStart(s)) == s
  {
    if IsTrimmed(s) && s != [] {
      assert TrimStart(s) == s;
      assert TrimEnd(s) == s;
    }
  }

  /** `trim` leaves a string that is already trimmed as it is. */
  lemma TrimmedUnchanged(s: string)
    requires IsTrimmed(s)
    ensures Trim(s) == s
  {
    TrimKeepsTrimmed(s);
  }

  /** Trimming twice is trimming once. */
  lemma TrimIdempotent(s: string)
    ensures Trim(Trim(s)) == Trim(s)
  {
    TrimmedUnchanged(Trim(s));
  }

  /** Whether `pat` occurs in `s` starting at index `i`. */
  predicate OccursAt(s: string, pat: string, i: nat) {
    i + |pat| <= |s| && s[i..i + |pat|] == pat
  }

  /**
   * JavaScript `s.replace(pat, '')` with a non-empty string pattern: the first
   * occurrence of `pat`, wherever it is, is cut out; without one, `s` is
   * returned as it is.
   */
  function RemoveFirst(s: string, pat: string): (r: string)
    requires pat != []
    ensures (forall i: nat :: !OccursAt(s, pat, i)) ==> r == s
    ensures OccursAt(s, pat, 0) ==> r == s[|pat|..]
    ensures |r| == |s| || |r| == |s| - |pat|
    ensures forall i: nat :: OccursAt(s, pat, i) && (forall j: nat :: j < i ==> !OccursAt(s, pat, j)) ==>
      r == s[..i] + s[i + |pat|..]
    decreases |s|
  {
    if |s| < |pat| then s
    else if s[..|pat|] == pat then assert OccursAt(s, pat, 0); s[|pat|..]
    else
      var rest := RemoveFirst(s[1..], pat);
      NoneInTail(s, pat);
      RemoveFirstStep(s, pat, rest);
      [s[0]] + rest
  }

  /** An occurrence in `s[1..]` is an occurrence in `s`, one place further on. */
  lemma OccursInTail(s: string, pat: string, i: nat)
    requires s != []
    ensures OccursAt(s[1..], pat, i) <==> OccursAt(s, pat, i + 1)
  {
    if i + |pat| <= |s[1..]| {
      assert s[1..][i..i + |pat|] == s[i + 1..i + 1 + |pat|];
    }
  }

  /** Without an occurrence in `s`, there is none in `s[1..]`. */
  lemma NoneInTail(s: string, pat: string)
    requires s != []
    ensures (forall i: nat :: !OccursAt(s, pat, i)) ==> forall i: nat :: !OccursAt(s[1..], pat, i)
  {
    forall i: nat ensures OccursAt(s[1..], pat, i) ==> OccursAt(s, pat, i + 1) {
      OccursInTail(s, pat, i);
    }
  }

  /**
   * When `pat` does not start `s`, the first occurrence in `s` is one place
   * further on than the first occurrence in `s[1..]`, so cutting it out of
   * the tail and putting `s[0]` back cuts it out of `s`.
   */
  lemma RemoveFirstStep(s: string, pat: string, rest: string)
    requires pat != [] && |pat| <= |s| && s[..|pat|] != pat
    requires forall i: nat :: OccursAt(s[1..], pat, i) && (forall j: nat :: j < i ==> !OccursAt(s[1..], pat, j)) ==>
      rest == s[1..][..i] + s[1..][i + |pat|..]
    ensures forall i: nat :: OccursAt(s, pat, i) && (forall j: nat :: j < i ==> !OccursAt(s, pat, j)) ==>
      [s[0]] + rest == s[..i] + s[i + |pat|..]
  {
    forall i: nat | OccursAt(s, pat, i) && (forall j: nat :: j < i ==> !OccursAt(s, pat, j))
      ensures [s[0]] + rest == s[..i] + s[i + |pat|..]
    {
      assert i != 0 by { assert !OccursAt(s, pat, 0); }
      OccursInTail(s, pat, i - 1);
      forall j: nat | j < i - 1 ensures !OccursAt(s[1..], pat, j) {
        OccursInTail(s, pat, j);
      }
      assert rest == s[1..][..i - 1] + s[1..][i - 1 + |pat|..];
      assert s[..i] == [s[0]] + s[1..][..i - 1];
      assert s[i + |pat|..] == s[1..][i - 1 + |pat|..];
    }
  }
}
