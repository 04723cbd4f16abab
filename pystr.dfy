/** The Python `str` operations the generator relies on, stated over
    sequences of characters.  Case mapping covers ASCII letters only;
    whitespace follows `str.isspace`. */
module PyStr {

  /** `c.isspace()`: the ASCII separators 0x09-0x0D and 0x1C-0x1F, the
      space, and the Unicode white-space characters. */
  predicate IsSpace(c: char)
  {
    || c == ' '
    || ('\t' <= c <= '\r')
    || ('\U{1C}' <= c <= '\U{1F}')
    || c == '\U{85}' || c == '\U{A0}' || c == '\U{1680}'
    || ('\U{2000}' <= c <= '\U{200A}')
    || c == '\U{2028}' || c == '\U{2029}' || c == '\U{202F}'
    || c == '\U{205F}' || c == '\U{3000}'
  }

  predicate IsUpper(c: char) { 'A' <= c <= 'Z' }

  predicate IsLower(c: char) { 'a' <= c <= 'z' }

  /** A cased character: one that has an upper- and a lower-case form. */
  predicate IsCased(c: char) { IsUpper(c) || IsLower(c) }

  function LowerChar(c: char): char
  {
    if IsUpper(c) then (c as int + 32) as char else c
  }

  function UpperChar(c: char): char
  {
    if IsLower(c) then (c as int - 32) as char else c
  }

  /** `s.lower()` */
  function Lower(s: string): string
  {
    seq(|s|, i requires 0 <= i < |s| => LowerChar(s[i]))
  }

  /** `s.startswith(p)` */
  predicate StartsWith(s: string, p: string)
  {
    |p| <= |s| && s[..|p|] == p
  }

  /** `n` occurs in `h` starting at index `i`. */
  predicate OccursAt(h: string, n: string, i: int)
  {
    0 <= i && i + |n| <= |h| && h[i..i + |n|] == n
  }

  /** `n in h`: `n` occurs in `h` as a contiguous substring. */
  predicate Contains(h: string, n: string)
  {
    exists i | 0 <= i <= |h| - |n| :: OccursAt(h, n, i)
  }

  /** `s.lstrip()` */
  function TrimStart(s: string): (r: string)
    ensures |r| <= |s| && r == s[|s| - |r|..]
    ensures forall k :: 0 <= k < |s| - |r| ==> IsSpace(s[k])
    ensures r != [] ==> !IsSpace(r[0])
  {
    if s != [] && IsSpace(s[0]) then TrimStart(s[1..]) else s
  }

  /** `s.rstrip()` */
  function TrimEnd(s: string): (r: string)
    ensures |r| <= |s| && r == s[..|r|]
    ensures forall k :: |r| <= k < |s| ==> IsSpace(s[k])
    ensures r != [] ==> !IsSpace(r[|r| - 1])
  {
    if s != [] && IsSpace(s[|s| - 1]) then TrimEnd(s[..|s| - 1]) else s
  }

  /** `s.strip()` */
  function Strip(s: string): string
  {
    TrimEnd(TrimStart(s))
  }

  /** `s.replace(a, b)` for single characters. */
  function ReplaceChar(s: string, a: char, b: char): string
  {
    seq(|s|, i requires 0 <= i < |s| => if s[i] == a then b else s[i])
  }

  /** `s.title()`: a character becomes upper case when it is first or the
      character before it is not cased, lower case otherwise. */
  function Title(s: string): string
  {
    seq(|s|, i requires 0 <= i < |s| =>
      if i > 0 && IsCased(s[i - 1]) then LowerChar(s[i]) else UpperChar(s[i]))
  }

  /** `s.split(sep)` with an explicit separator: one more part than there
      are separators, and `[""]` for the empty string. */
  function Split(s: string, sep: char): (parts: seq<string>)
    ensures |parts| >= 1
    ensures forall i :: 0 <= i < |parts| ==> sep !in parts[i]
  {
    if s == [] then [[]]
    else
      var rest := Split(s[1..], sep);
      if s[0] == sep then [[]] + rest
      else [[s[0]] + rest[0]] + rest[1..]
  }

  /** `sep.join(parts)` */
  function Join(parts: seq<string>, sep: char): string
  {
    if parts == [] then []
    else if |parts| == 1 then parts[0]
    else parts[0] + [sep] + Join(parts[1..], sep)
  }

  /** `s.replace(pat, rep)`: every occurrence of `pat`, scanning left to
      right without overlap and without rescanning inserted text. */
  function ReplaceAll(s: string, pat: string, rep: string): string
    requires pat != []
    decreases |s|
  {
    if |s| < |pat| then s
    else if s[..|pat|] == pat then rep + ReplaceAll(s[|pat|..], pat, rep)
    else [s[0]] + ReplaceAll(s[1..], pat, rep)
  }

  // ---------------------------------------------------------------------
  // Properties

  /** `r` is `s[i..j]`, with only white space outside the slice. */
  predicate TrimmedTo(s: string, r: string, i: int, j: int)
  {
    && 0 <= i <= j <= |s| && r == s[i..j]
    && (forall k :: 0 <= k < i ==> IsSpace(s[k]))
    && (forall k :: j <= k < |s| ==> IsSpace(s[k]))
  }

  lemma TrimStartTrims(s: string)
    ensures TrimmedTo(s, TrimStart(s), |s| - |TrimStart(s)|, |s|)
  {
  }

  lemma TrimEndTrims(t: string)
    ensures TrimmedTo(t, TrimEnd(t), 0, |TrimEnd(t)|)
  {
  }

  /** Trimming the end of a suffix left after leading white space gives a
      trimmed slice of the original. */
  lemma TrimmedCompose(s: string, t: string, r: string, i: int)
    requires TrimmedTo(s, t, i, |s|) && TrimmedTo(t, r, 0, |r|)
    ensures TrimmedTo(s, r, i, i + |r|)
  {
    forall k | i + |r| <= k < |s|
      ensures IsSpace(s[k])
    {
      assert s[k] == t[k - i];
    }
    forall k | 0 <= k < |r|
      ensures r[k] == s[i + k]
    {
      assert r[k] == t[k];
    }
  }

  lemma StripSlice(s: string)
    ensures TrimmedTo(s, Strip(s), |s| - |TrimStart(s)|, |s| - |TrimStart(s)| + |Strip(s)|)
  {
    TrimStartTrims(s);
    assert TrimmedTo(TrimStart(s), Strip(s), 0, |Strip(s)|) by {
      TrimEndTrims(TrimStart(s));
    }
    TrimmedCompose(s, TrimStart(s), Strip(s), |s| - |TrimStart(s)|);
  }

  lemma StripEnds(s: string)
    ensures Strip(s) != [] ==> !IsSpace(Strip(s)[0]) && !IsSpace(Strip(s)[|Strip(s)| - 1])
  {
    var t := TrimStart(s);
    var r := TrimEnd(t);
    if r != [] {
      assert r[0] == t[0];
    }
  }

  /** `strip` removes exactly the white space at both ends. */
  lemma StripSpec(s: string)
    ensures exists i, j :: TrimmedTo(s, Strip(s), i, j)
    ensures Strip(s) != [] ==> !IsSpace(Strip(s)[0]) && !IsSpace(Strip(s)[|Strip(s)| - 1])
  {
    StripSlice(s);
    StripEnds(s);
  }

  /** Replacing a character acts on each side of one of its occurrences
      independently. */
  lemma ReplaceCharAround(x: string, y: string, a: char, b: char)
    ensures ReplaceChar(x + [a] + y, a, b) == ReplaceChar(x, a, b) + [b] + ReplaceChar(y, a, b)
  {
    var s := x + [a] + y;
    forall i | |x| < i < |s|
      ensures s[i] == y[i - |x| - 1]
    {
    }
  }

  lemma ReplaceCharAbsent(s: string, a: char, b: char)
    requires a !in s
    ensures ReplaceChar(s, a, b) == s
  {
  }

  /** A space ends a word: the title-casing of each side is independent. */
  lemma TitleAroundSpace(x: string, y: string)
    ensures Title(x + " " + y) == Title(x) + " " + Title(y)
  {
    var s := x + " " + y;
    var r := Title(x) + " " + Title(y);
    forall i | 0 <= i < |s|
      ensures Title(s)[i] == r[i]
    {
      if i > |x| + 1 {
        assert s[i] == y[i - |x| - 1] && s[i - 1] == y[i - |x| - 2];
      } else if i < |x| && i > 0 {
        assert s[i] == x[i] && s[i - 1] == x[i - 1];
      }
    }
  }

  /** A word of lower-case letters is title-cased by capitalising its first
      letter. */
  lemma TitleLowerWord(w: string)
    requires w != []
    requires forall i :: 0 <= i < |w| ==> IsLower(w[i])
    ensures Title(w) == [UpperChar(w[0])] + w[1..]
  {
  }

  lemma {:induction false} JoinSplit(s: string, sep: char)
    ensures Join(Split(s, sep), sep) == s
  {
    if s != [] {
      JoinSplit(s[1..], sep);
      var rest := Split(s[1..], sep);
      var parts := Split(s, sep);
      if s[0] == sep {
        assert parts == [[]] + rest;
        assert parts[1..] == rest;
        assert Join(parts, sep) == [] + [sep] + Join(rest, sep);
        assert s == [s[0]] + s[1..];
      } else {
        assert parts == [[s[0]] + rest[0]] + rest[1..];
        if |rest| == 1 {
          assert Join(parts, sep) == [s[0]] + rest[0];
        } else {
          assert parts[1..] == rest[1..];
          assert Join(rest, sep) == rest[0] + [sep] + Join(rest[1..], sep);
          assert Join(parts, sep) == ([s[0]] + rest[0]) + [sep] + Join(rest[1..], sep);
        }
        assert s == [s[0]] + s[1..];
      }
    }
  }
  lemma {:induction false} SplitWithoutSep(a: string, sep: char)
    requires sep !in a
    ensures Split(a, sep) == [a]
  {
    if a != [] {
      SplitWithoutSep(a[1..], sep);
      assert a == [a[0]] + a[1..];
    }
  }

  lemma {:induction false} SplitAfterPart(a: string, b: string, sep: char)
    requires sep !in a
    ensures Split(a + [sep] + b, sep) == [a] + Split(b, sep)
  {
    if a != [] {
      assert (a + [sep] + b)[1..] == a[1..] + [sep] + b;
      SplitAfterPart(a[1..], b, sep);
      assert a == [a[0]] + a[1..];
    } else {
      assert (a + [sep] + b)[1..] == b;
    }
  }

  /** Splitting a join gives the parts back, when no part holds the
      separator and there is at least one part. */
  lemma {:induction false} SplitJoin(parts: seq<string>, sep: char)
    requires parts != []
    requires forall i :: 0 <= i < |parts| ==> sep !in parts[i]
    ensures Split(Join(parts, sep), sep) == parts
  {
    if |parts| == 1 {
      SplitWithoutSep(parts[0], sep);
    } else {
      SplitJoin(parts[1..], sep);
      SplitAfterPart(parts[0], Join(parts[1..], sep), sep);
    }
  }

  /** A needle whose prefix is `p` can only occur where `p` occurs. */
  lemma ContainsPrefix(h: string, p: string, q: string)
    requires Contains(h, p + q)
    ensures Contains(h, p)
  {
    var i :| 0 <= i <= |h| - |p + q| && OccursAt(h, p + q, i);
    assert h[i..i + |p|] == (p + q)[..|p|];
    assert OccursAt(h, p, i);
  }

  /** Text without an occurrence of `pat` passes through `replace` unchanged. */
  lemma {:induction false} ReplaceAbsent(s: string, pat: string, rep: string)
    requires pat != []
    requires forall i :: !OccursAt(s, pat, i)
    ensures ReplaceAll(s, pat, rep) == s
    decreases |s|
  {
    if |s| >= |pat| {
      assert !OccursAt(s, pat, 0);
      forall i
        ensures !OccursAt(s[1..], pat, i)
      {
        if OccursAt(s[1..], pat, i) {
          assert s[1..][i..i + |pat|] == s[i + 1..i + 1 + |pat|];
          assert OccursAt(s, pat, i + 1);
        }
      }
      ReplaceAbsent(s[1..], pat, rep);
    }
  }

  /** An occurrence in the tail of a text is an occurrence in the text, one
      place further on. */
  lemma OccursInTail(s: string, pat: string, i: int)
    requires s != [] && OccursAt(s[1..], pat, i)
    ensures OccursAt(s, pat, i + 1)
  {
    assert s[1..][i..i + |pat|] == s[i + 1..i + 1 + |pat|];
  }

  /** An occurrence after a leading `pat` is an occurrence in the whole. */
  lemma OccursAfterPat(pat: string, suffix: string, i: int)
    requires OccursAt(suffix, pat, i)
    ensures OccursAt(pat + suffix, pat, i + |pat|)
  {
    assert suffix[i..i + |pat|] == (pat + suffix)[i + |pat|..i + |pat| + |pat|];
  }

  /** `replace` on a text that starts with its only occurrence of `pat`. */
  lemma ReplaceAtStart(pat: string, suffix: string, rep: string)
    requires pat != []
    requires forall i :: OccursAt(pat + suffix, pat, i) ==> i == 0
    ensures ReplaceAll(pat + suffix, pat, rep) == rep + suffix
  {
    var s := pat + suffix;
    assert s[..|pat|] == pat;
    assert s[|pat|..] == suffix;
    forall i
      ensures !OccursAt(suffix, pat, i)
    {
      if OccursAt(suffix, pat, i) {
        OccursAfterPat(pat, suffix, i);
      }
    }
    ReplaceAbsent(suffix, pat, rep);
  }

  /** `replace` on a text holding `pat` exactly once, right after `prefix`,
      puts `rep` in its place and leaves everything else as it was; what
      `rep` contains is never scanned. */
  lemma {:induction false} ReplaceSingle(prefix: string, pat: string, suffix: string, rep: string)
    requires pat != []
    requires forall i :: OccursAt(prefix + pat + suffix, pat, i) ==> i == |prefix|
    ensures ReplaceAll(prefix + pat + suffix, pat, rep) == prefix + rep + suffix
    decreases |prefix|
  {
    if prefix == [] {
      assert prefix + pat + suffix == pat + suffix;
      ReplaceAtStart(pat, suffix, rep);
    } else {
      var s := prefix + pat + suffix;
      var tail := prefix[1..] + pat + suffix;
      assert s[1..] == tail;
      assert !OccursAt(s, pat, 0);
      forall i | OccursAt(tail, pat, i)
        ensures i == |prefix[1..]|
      {
        OccursInTail(s, pat, i);
      }
      ReplaceSingle(prefix[1..], pat, suffix, rep);
      assert ReplaceAll(s, pat, rep) == [s[0]] + ReplaceAll(tail, pat, rep);
      assert prefix == [prefix[0]] + prefix[1..];
    }
  }
}
