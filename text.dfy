/**
 * String helpers shared by the validators and the form: the JavaScript notion of
 * white space (used by both the `\s` regular-expression class and `String.prototype.trim`),
 * trimming, and counting occurrences of a character.
 */
module Text {

  /** ECMAScript WhiteSpace (tab, vertical tab, form feed, space, no-break space,
      zero-width no-break space and every Unicode "Zs" space separator) together with
      LineTerminator (line feed, carriage return, line separator, paragraph separator). */
  predicate IsWhitespace(c: char) {
    || c == '\t' || c == '\n' || c == '\U{B}' || c == '\U{C}' || c == '\r'
    || c == ' ' || c == '\U{A0}' || c == '\U{1680}'
    || ('\U{2000}' <= c <= '\U{200A}')
    || c == '\U{2028}' || c == '\U{2029}' || c == '\U{202F}' || c == '\U{205F}'
    || c == '\U{3000}' || c == '\U{FEFF}'
  }

  predicate AllWhitespace(s: string) {
    forall i :: 0 <= i < |s| ==> IsWhitespace(s[i])
  }

  predicate NoWhitespace(s: string) {
    forall i :: 0 <= i < |s| ==> !IsWhitespace(s[i])
  }

  /** Neither the first nor the last character is white space. */
  predicate NoEdgeWhitespace(s: string) {
    s == [] || (!IsWhitespace(s[0]) && !IsWhitespace(s[|s| - 1]))
  }

  /** Drops leading white space: the result is a suffix of `s` and what was dropped is all white space. */
  function TrimStart(s: string): (r: string)
    ensures |r| <= |s| && r == s[|s| - |r|..]
    ensures AllWhitespace(s[..|s| - |r|])
    ensures r == [] || !IsWhitespace(r[0])
    decreases |s|
  {
    if |s| > 0 && IsWhitespace(s[0]) then
      var r := TrimStart(s[1..]);
      assert s[..|s| - |r|] == [s[0]] + s[1..][..|s| - 1 - |r|];
      r
    else
      s
  }

  /** Drops trailing white space: the result is a prefix of `s` and what was dropped is all white space. */
  function TrimEnd(s: string): (r: string)
    ensures |r| <= |s| && r == s[..|r|]
    ensures AllWhitespace(s[|r|..])
    ensures r == [] || !IsWhitespace(r[|r| - 1])
    decreases |s|
  {
    if |s| > 0 && IsWhitespace(s[|s| - 1]) then
      var r := TrimEnd(s[..|s| - 1]);
      assert s[|r|..] == s[..|s| - 1][|r|..] + [s[|s| - 1]];
      r
    else
      s
  }

  /** `String.prototype.trim`. */
  function Trim(s: string): (r: string)
    ensures |r| <= |s|
    ensures NoEdgeWhitespace(r)
  {
    var t := TrimStart(s);
    var r := TrimEnd(t);
    assert r != [] ==> r[0] == t[0];
    r
  }

  /** `r` is `s` with a white-space prefix of length `p` and a white-space suffix cut off,
      and `r` itself neither starts nor ends with white space. */
  predicate IsTrimmedSlice(s: string, r: string, p: int) {
    && 0 <= p && p + |r| <= |s|
    && r == s[p..p + |r|]
    && AllWhitespace(s[..p])
    && AllWhitespace(s[p + |r|..])
    && NoEdgeWhitespace(r)
  }

  lemma {:induction false} TrimStartSkipsPrefix(s: string, p: nat)
    requires p < |s| && AllWhitespace(s[..p]) && !IsWhitespace(s[p])
    ensures TrimStart(s) == s[p..]
    decreases p
  {
    if p > 0 {
      assert IsWhitespace(s[..p][0]);
      assert s[1..][..p - 1] == s[1..p];
      TrimStartSkipsPrefix(s[1..], p - 1);
      assert s[1..][p - 1..] == s[p..];
    }
  }

  lemma {:induction false} TrimEndSkipsSuffix(s: string, q: nat)
    requires 0 < q <= |s| && AllWhitespace(s[q..]) && !IsWhitespace(s[q - 1])
    ensures TrimEnd(s) == s[..q]
    decreases |s| - q
  {
    if q < |s| {
      assert IsWhitespace(s[q..][|s| - 1 - q]);
      assert s[..|s| - 1][q..] == s[q..|s| - 1];
      TrimEndSkipsSuffix(s[..|s| - 1], q);
      assert s[..|s| - 1][..q] == s[..q];
    }
  }

  lemma {:induction false} TrimStartOfWhitespace(s: string)
    requires AllWhitespace(s)
    ensures TrimStart(s) == []
    decreases |s|
  {
    if |s| > 0 {
      TrimStartOfWhitespace(s[1..]);
    }
  }

  /** A string trims to the empty string exactly when it is all white space. */
  lemma TrimEmptyIff(s: string)
    ensures Trim(s) == [] <==> AllWhitespace(s)
  {
    var t := TrimStart(s);
    if AllWhitespace(s) {
      TrimStartOfWhitespace(s);
    }
    if Trim(s) == [] {
      assert AllWhitespace(t);
      assert s == s[..|s| - |t|] + t;
    }
  }

  /** `Trim(s)` is a trimmed slice of `s`: it keeps a contiguous run of `s` and drops only
      white space on either side. */
  lemma TrimIsTrimmedSlice(s: string)
    ensures IsTrimmedSlice(s, Trim(s), |s| - |TrimStart(s)|)
  {
    var t := TrimStart(s);
    var r := Trim(s);
    var p := |s| - |t|;
    assert r == t[..|r|];
    assert s[p..p + |r|] == t[..|r|];
    assert s[p + |r|..] == t[|r|..];
  }

  /** Any trimmed slice of `s` is `Trim(s)`, so `IsTrimmedSlice` characterises `Trim`. */
  lemma TrimmedSliceIsTrim(s: string, r: string, p: int)
    requires IsTrimmedSlice(s, r, p)
    ensures r == Trim(s)
  {
    if r == [] {
      assert s == s[..p] + s[p..];
      assert AllWhitespace(s);
      TrimEmptyIff(s);
    } else {
      TrimStartSkipsPrefix(s, p);
      var t := s[p..];
      assert t[..|r|] == r && t[|r|..] == s[p + |r|..];
      TrimEndSkipsSuffix(t, |r|);
    }
  }

  /** Trimming twice is trimming once. */
  lemma TrimIdempotent(s: string)
    ensures Trim(Trim(s)) == Trim(s)
  {
    var r := Trim(s);
    assert r[..0] == [] && r[0..|r|] == r && r[|r|..] == [];
    TrimmedSliceIsTrim(r, r, 0);
  }

  /** Number of occurrences of `c` in `s`. */
  function Count(s: string, c: char): (n: nat)
    ensures n <= |s|
    ensures n == 0 <==> c !in s
    decreases |s|
  {
    if s == [] then 0
    else
      assert s == s[..|s| - 1] + [s[|s| - 1]];
      Count(s[..|s| - 1], c) + (if s[|s| - 1] == c then 1 else 0)
  }

  lemma {:induction false} CountConcat(a: string, b: string, c: char)
    ensures Count(a + b, c) == Count(a, c) + Count(b, c)
    decreases |b|
  {
    if b != [] {
      var b' := b[..|b| - 1];
      assert (a + b)[..|a + b| - 1] == a + b';
      CountConcat(a, b', c);
    } else {
      assert a + b == a;
    }
  }
}
