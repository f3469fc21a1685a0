/** The JavaScript string primitives the form relies on: the `\s` class,
    `String.prototype.trim`, `replace(/\s/g, '')` and `startsWith`. */
module Text {
  import Seqs

  /** ECMAScript WhiteSpace and LineTerminator code points: the set both `\s`
      and `trim` use (space separators as of the Unicode version the engine ships). */
  const WhitespaceChars: set<char> := {
    '\t', '\n', '\U{000B}', '\U{000C}', '\r', ' ', '\U{00A0}', '\U{1680}',
    '\U{2000}', '\U{2001}', '\U{2002}', '\U{2003}', '\U{2004}', '\U{2005}',
    '\U{2006}', '\U{2007}', '\U{2008}', '\U{2009}', '\U{200A}',
    '\U{2028}', '\U{2029}', '\U{202F}', '\U{205F}', '\U{3000}', '\U{FEFF}'
  }

  /** Whether `c` is matched by `\s` (and removed by `trim`). */
  predicate IsWhitespace(c: char) {
    c in WhitespaceChars
  }

  /** Every character of `s` is whitespace (vacuously so for `""`). */
  predicate AllWhitespace(s: string) {
    forall i :: 0 <= i < |s| ==> IsWhitespace(s[i])
  }

  /** No character of `s` is whitespace. */
  predicate NoWhitespace(s: string) {
    forall i :: 0 <= i < |s| ==> !IsWhitespace(s[i])
  }

  /** `s` without its leading whitespace. */
  function TrimStart(s: string): (r: string)
    ensures |r| <= |s| && r == s[|s| - |r|..]
    ensures forall i :: 0 <= i < |s| - |r| ==> IsWhitespace(s[i])
    ensures |r| > 0 ==> !IsWhitespace(r[0])
  {
    if |s| > 0 && IsWhitespace(s[0]) then
      var r := TrimStart(s[1..]);
      assert forall i :: 1 <= i < |s| ==> s[i] == s[1..][i - 1];
      r
    else s
  }

  /** `s` without its trailing whitespace. */
  function TrimEnd(s: string): (r: string)
    ensures |r| <= |s| && r == s[..|r|]
    ensures forall i :: |r| <= i < |s| ==> IsWhitespace(s[i])
    ensures |r| > 0 ==> !IsWhitespace(r[|r| - 1])
  {
    if |s| > 0 && IsWhitespace(s[|s| - 1]) then
      var r := TrimEnd(s[..|s| - 1]);
      assert forall i :: 0 <= i < |s| - 1 ==> s[i] == s[..|s| - 1][i];
      r
    else s
  }

  /** `s.trim()`: a contiguous slice of `s` with only whitespace around it and no
      whitespace at either end; empty exactly when `s` is all whitespace. */
  function Trim(s: string): (r: string)
    ensures exists a :: 0 <= a <= |s| - |r| && r == s[a..][..|r|]
                        && (forall i :: 0 <= i < a ==> IsWhitespace(s[i]))
                        && (forall i :: a + |r| <= i < |s| ==> IsWhitespace(s[i]))
    ensures |r| > 0 ==> !IsWhitespace(r[0]) && !IsWhitespace(r[|r| - 1])
    ensures |r| == 0 <==> AllWhitespace(s)
  {
    TrimSlice(s);
    TrimEnds(s);
    TrimEmpty(s);
    TrimEnd(TrimStart(s))
  }

  /** The trimmed text sits in `s` with only whitespace before and after it. */
  lemma TrimSlice(s: string)
    ensures var r := TrimEnd(TrimStart(s));
      exists a :: 0 <= a <= |s| - |r| && r == s[a..][..|r|]
                  && (forall i :: 0 <= i < a ==> IsWhitespace(s[i]))
                  && (forall i :: a + |r| <= i < |s| ==> IsWhitespace(s[i]))
  {
    var t := TrimStart(s);
    SliceAround(s, |s| - |t|, t, TrimEnd(t));
  }

  /** A prefix `r` of the suffix `t == s[a..]`, with whitespace before `a` and
      after `r` within `t`, has only whitespace around it in `s`. */
  lemma SliceAround(s: string, a: int, t: string, r: string)
    requires 0 <= a <= |s| && t == s[a..]
    requires forall i :: 0 <= i < a ==> IsWhitespace(s[i])
    requires |r| <= |t| && r == t[..|r|]
    requires forall i :: |r| <= i < |t| ==> IsWhitespace(t[i])
    ensures exists a :: 0 <= a <= |s| - |r| && r == s[a..][..|r|]
                        && (forall i :: 0 <= i < a ==> IsWhitespace(s[i]))
                        && (forall i :: a + |r| <= i < |s| ==> IsWhitespace(s[i]))
  {
    forall i | a + |r| <= i < |s| ensures IsWhitespace(s[i]) {
      assert s[i] == t[i - a];
    }
    assert r == s[a..][..|r|];
  }

  /** Neither end of the trimmed text is whitespace. */
  lemma TrimEnds(s: string)
    ensures var r := TrimEnd(TrimStart(s));
      |r| > 0 ==> !IsWhitespace(r[0]) && !IsWhitespace(r[|r| - 1])
  {
    var t := TrimStart(s);
    var r := TrimEnd(t);
    if |r| > 0 {
      assert r[0] == t[0];
    }
  }

  /** The trimmed text is empty exactly when everything was whitespace. */
  lemma TrimEmpty(s: string)
    ensures |TrimEnd(TrimStart(s))| == 0 <==> AllWhitespace(s)
  {
    var t := TrimStart(s);
    var r := TrimEnd(t);
    var a := |s| - |t|;
    if |r| == 0 {
      assert |t| == 0;
    } else {
      assert s[a] == t[0];
    }
  }

  /** `!s.trim()`: the string is empty once trimmed. */
  function IsBlank(s: string): (b: bool)
    ensures b <==> AllWhitespace(s)
  {
    TrimEmpty(s);
    |Trim(s)| == 0
  }

  /** `s.replace(/\s/g, '')`: the non-whitespace characters of `s`, in order. */
  function RemoveWhitespace(s: string): (r: string)
    ensures NoWhitespace(r)
    ensures |r| <= |s|
    ensures forall i :: 0 <= i < |s| && !IsWhitespace(s[i]) ==> s[i] in r
  {
    Seqs.FilterKey(s, IsWhitespace, false)
  }

  /** Removing whitespace keeps every other character, in its original order,
      and invents none. */
  lemma RemoveWhitespaceSelectsInOrder(s: string)
    ensures exists idx :: Seqs.IsEmbedding(RemoveWhitespace(s), s, idx)
                       && (forall j :: 0 <= j < |s| ==> (!IsWhitespace(s[j]) <==> j in idx))
  {
    var idx := Seqs.MatchPositions(s, IsWhitespace, false);
    Seqs.MatchPositionsEmbed(s, IsWhitespace, false);
    Seqs.MatchPositionsExact(s, IsWhitespace, false);
    assert Seqs.IsEmbedding(RemoveWhitespace(s), s, idx);
  }

  /** Removing whitespace keeps a string with none unchanged. */
  lemma RemoveWhitespaceKeepsClean(s: string)
    requires NoWhitespace(s)
    ensures RemoveWhitespace(s) == s
  {
    Seqs.FilterKeyAll(s, IsWhitespace, false);
  }

  /** `s.startsWith(prefix)`. */
  predicate StartsWith(s: string, prefix: string) {
    |prefix| <= |s| && s[..|prefix|] == prefix
  }
}
