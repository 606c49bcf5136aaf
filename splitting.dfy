/**
 * How the loader cuts the file content into records: the three separator
 * strategies of `AocParser::new`, each modelled on the Rust standard-library
 * splitter it calls (`str::lines`, `str::split_whitespace`, `str::split`).
 */
module Splitting {
  import opened Wrappers

  datatype Separator = Str(pat: string) | Whitespace | Newline

  /** `char::is_whitespace`: the characters with the Unicode White_Space property. */
  predicate IsWhitespace(c: char) {
    var n := c as int;
    (0x09 <= n <= 0x0D) || n == 0x20 || n == 0x85 || n == 0xA0 || n == 0x1680
    || (0x2000 <= n <= 0x200A) || n == 0x2028 || n == 0x2029 || n == 0x202F
    || n == 0x205F || n == 0x3000
  }

  /** A non-empty run of non-whitespace characters. */
  predicate IsWord(w: string) {
    |w| > 0 && forall i :: 0 <= i < |w| ==> !IsWhitespace(w[i])
  }

  /** `pat` occurs in `s` starting at index `j`. */
  predicate OccursAt(s: string, pat: string, j: int) {
    0 <= j && j + |pat| <= |s| && s[j..j + |pat|] == pat
  }

  ghost predicate Contains(s: string, pat: string) {
    exists j :: OccursAt(s, pat, j)
  }

  // ---------------------------------------------------------------------
  // Searching and joining
  // ---------------------------------------------------------------------

  /** An occurrence past the first character is an occurrence in the tail, one place further left. */
  lemma OccursAtTail(s: string, pat: string, j: int)
    requires |s| > 0 && j > 0
    ensures OccursAt(s, pat, j) <==> OccursAt(s[1..], pat, j - 1)
  {
    if j + |pat| <= |s| {
      assert s[1..][j - 1..j - 1 + |pat|] == s[j..j + |pat|];
    }
  }

  /** The leftmost occurrence of `pat` in `s`, as the searcher behind `split` finds it. */
  function FindFirst(s: string, pat: string): (r: Option<nat>)
    ensures r.Some? ==> OccursAt(s, pat, r.value)
    ensures r.Some? ==> forall j :: 0 <= j < r.value ==> !OccursAt(s, pat, j)
    ensures r.None? ==> forall j :: !OccursAt(s, pat, j)
    decreases |s|
  {
    if |s| < |pat| then
      None
    else if s[..|pat|] == pat then
      Some(0)
    else
      var tail := FindFirst(s[1..], pat);
      assert forall j :: j > 0 ==> (OccursAt(s, pat, j) <==> OccursAt(s[1..], pat, j - 1)) by {
        forall j | j > 0 ensures OccursAt(s, pat, j) <==> OccursAt(s[1..], pat, j - 1) {
          OccursAtTail(s, pat, j);
        }
      }
      if tail.None? then None else Some(tail.value + 1)
  }

  /** Any occurrence at least as far left as every other one is the one `FindFirst` finds. */
  lemma FindFirstIsLeftmost(s: string, pat: string, i: nat)
    requires OccursAt(s, pat, i)
    requires forall j :: 0 <= j < i ==> !OccursAt(s, pat, j)
    ensures FindFirst(s, pat) == Some(i)
  {
  }

  /** The records glued back together with `sep` between neighbours (`slice::join`). */
  function Join(parts: seq<string>, sep: string): string
  {
    if |parts| == 0 then []
    else if |parts| == 1 then parts[0]
    else parts[0] + sep + Join(parts[1..], sep)
  }

  /** All records glued together with nothing in between. */
  function Concat(parts: seq<string>): string
  {
    if |parts| == 0 then [] else parts[0] + Concat(parts[1..])
  }

  lemma {:induction false} ConcatAppend(a: seq<string>, b: seq<string>)
    ensures Concat(a + b) == Concat(a) + Concat(b)
  {
    if |a| == 0 {
      assert a + b == b;
    } else {
      assert (a + b)[1..] == a[1..] + b;
      ConcatAppend(a[1..], b);
    }
  }

  lemma {:induction false} JoinEmptySeparator(parts: seq<string>)
    ensures Join(parts, []) == Concat(parts)
  {
    if |parts| > 1 {
      JoinEmptySeparator(parts[1..]);
    }
  }

  /** Number of non-overlapping occurrences of a non-empty `pat`, scanning left to right. */
  function CountOccurrences(s: string, pat: string): nat
    requires |pat| > 0
    decreases |s|
  {
    if |s| < |pat| then 0
    else if s[..|pat|] == pat then 1 + CountOccurrences(s[|pat|..], pat)
    else CountOccurrences(s[1..], pat)
  }

  /** Counting occurrences is the same as repeatedly jumping past the leftmost one. */
  lemma {:induction false} CountOccurrencesFromFirst(s: string, pat: string)
    requires |pat| > 0
    ensures CountOccurrences(s, pat) ==
      match FindFirst(s, pat)
      case None => 0
      case Some(i) => 1 + CountOccurrences(s[i + |pat|..], pat)
    decreases |s|
  {
    if |s| < |pat| || s[..|pat|] == pat {
    } else {
      CountOccurrencesFromFirst(s[1..], pat);
      match FindFirst(s[1..], pat)
      case None =>
      case Some(i) =>
        assert s[1..][i + |pat|..] == s[i + 1 + |pat|..];
    }
  }

  // ---------------------------------------------------------------------
  // Separator::Str(pat) — `str::split(pat)`
  // ---------------------------------------------------------------------

  /** One one-character record per character of `s`. */
  function EachChar(s: string): (r: seq<string>)
    ensures |r| == |s|
    ensures forall k :: 0 <= k < |s| ==> r[k] == [s[k]]
  {
    if s == [] then [] else [[s[0]]] + EachChar(s[1..])
  }

  lemma {:induction false} ConcatEachChar(s: string)
    ensures Concat(EachChar(s)) == s
  {
    if s != [] {
      ConcatEachChar(s[1..]);
      assert ([[s[0]]] + EachChar(s[1..]))[1..] == EachChar(s[1..]);
    }
  }

  /**
   * `s.split(pat)`: the fragments between the non-overlapping leftmost
   * occurrences of `pat`; empty fragments are kept, and there is always at
   * least one. An empty `pat` matches at every character boundary, so the
   * result is an empty fragment, one fragment per character, and another
   * empty fragment.
   */
  function SplitStr(s: string, pat: string): (r: seq<string>)
    ensures |r| >= 1
    decreases |s|
  {
    if pat == [] then
      [[]] + EachChar(s) + [[]]
    else
      match FindFirst(s, pat)
      case None => [s]
      case Some(i) => [s[..i]] + SplitStr(s[i + |pat|..], pat)
  }

  /** With the empty pattern, joining the fragments gives back the content. */
  lemma JoinSplitEmptyPattern(s: string)
    ensures Join(SplitStr(s, []), []) == s
  {
    var parts := [[]] + EachChar(s) + [[]];
    JoinEmptySeparator(parts);
    ConcatAppend([[]] + EachChar(s), [[]]);
    ConcatAppend([[]], EachChar(s));
    ConcatEachChar(s);
  }

  lemma JoinCons(first: string, rest: seq<string>, sep: string)
    requires |rest| >= 1
    ensures Join([first] + rest, sep) == first + sep + Join(rest, sep)
  {
    assert ([first] + rest)[1..] == rest;
  }

  lemma Reassemble(s: string, i: nat, pat: string)
    requires OccursAt(s, pat, i)
    ensures s == s[..i] + pat + s[i + |pat|..]
  {
    assert s == s[..i] + s[i..i + |pat|] + s[i + |pat|..];
  }

  /** Joining the fragments with the pattern gives back the content, byte for byte. */
  lemma JoinSplitStr(s: string, pat: string)
    ensures Join(SplitStr(s, pat), pat) == s
  {
    if |pat| == 0 {
      assert pat == [];
      JoinSplitEmptyPattern(s);
    } else {
      JoinSplitNonEmptyPattern(s, pat);
    }
  }

  lemma {:induction false} JoinSplitNonEmptyPattern(s: string, pat: string)
    requires |pat| > 0
    ensures Join(SplitStr(s, pat), pat) == s
    decreases |s|
  {
    if FindFirst(s, pat).Some? {
      var i := FindFirst(s, pat).value;
      var rest := SplitStr(s[i + |pat|..], pat);
      assert SplitStr(s, pat) == [s[..i]] + rest;
      JoinSplitNonEmptyPattern(s[i + |pat|..], pat);
      JoinCons(s[..i], rest, pat);
      Reassemble(s, i, pat);
    } else {
      assert SplitStr(s, pat) == [s];
    }
  }

  /** With a non-empty pattern there is one more fragment than there are occurrences. */
  lemma {:induction false} SplitStrCount(s: string, pat: string)
    requires |pat| > 0
    ensures |SplitStr(s, pat)| == CountOccurrences(s, pat) + 1
    decreases |s|
  {
    CountOccurrencesFromFirst(s, pat);
    if FindFirst(s, pat).Some? {
      var i := FindFirst(s, pat).value;
      var rest := s[i + |pat|..];
      assert SplitStr(s, pat) == [s[..i]] + SplitStr(rest, pat);
      assert CountOccurrences(s, pat) == 1 + CountOccurrences(rest, pat);
      SplitStrCount(rest, pat);
    } else {
      assert SplitStr(s, pat) == [s];
    }
  }

  /** An occurrence inside a prefix is an occurrence in the whole text. */
  lemma OccursInPrefix(t: string, u: string, pat: string, j: int)
    requires 0 <= j && j + |pat| <= |t|
    ensures OccursAt(t + u, pat, j) <==> OccursAt(t, pat, j)
  {
    assert (t + u)[j..j + |pat|] == t[j..j + |pat|];
  }

  /** The text before the leftmost occurrence holds no occurrence. */
  lemma NothingBeforeFirst(s: string, pat: string, i: nat)
    requires |pat| > 0 && FindFirst(s, pat) == Some(i)
    ensures !Contains(s[..i], pat)
  {
    forall j | OccursAt(s[..i], pat, j) ensures false {
      assert s[..i][j..j + |pat|] == s[j..j + |pat|];
      assert OccursAt(s, pat, j);
    }
  }

  /** Text appended after an occurrence does not move the leftmost one. */
  lemma FindFirstExtend(t: string, u: string, pat: string)
    requires FindFirst(t, pat).Some?
    ensures FindFirst(t + u, pat) == FindFirst(t, pat)
  {
    var i := FindFirst(t, pat).value;
    OccursInPrefix(t, u, pat, i);
    forall j | 0 <= j < i ensures !OccursAt(t + u, pat, j) {
      OccursInPrefix(t, u, pat, j);
    }
    FindFirstIsLeftmost(t + u, pat, i);
  }

  /** With a non-empty pattern no fragment contains the pattern. */
  lemma {:induction false} SplitStrFragmentsFree(s: string, pat: string)
    requires |pat| > 0
    ensures forall k :: 0 <= k < |SplitStr(s, pat)| ==> !Contains(SplitStr(s, pat)[k], pat)
    decreases |s|
  {
    var r := SplitStr(s, pat);
    if FindFirst(s, pat).Some? {
      var i := FindFirst(s, pat).value;
      var rest := SplitStr(s[i + |pat|..], pat);
      assert r == [s[..i]] + rest;
      SplitStrFragmentsFree(s[i + |pat|..], pat);
      NothingBeforeFirst(s, pat, i);
      forall k | 0 <= k < |r| ensures !Contains(r[k], pat) {
        if k > 0 {
          assert r[k] == rest[k - 1];
        }
      }
    } else {
      assert r == [s];
    }
  }

  /**
   * With the empty pattern there are |s| + 2 fragments: an empty one, then
   * fragment k holding character k - 1 of `s`, then another empty one.
   */
  lemma SplitStrEmptyPatternCount(s: string)
    ensures |SplitStr(s, [])| == |s| + 2
    ensures SplitStr(s, [])[0] == [] && SplitStr(s, [])[|s| + 1] == []
    ensures forall k :: 1 <= k <= |s| ==> SplitStr(s, [])[k] == [s[k - 1]]
  {
  }

  /** The cut after fragment `k` is at the leftmost occurrence in what remains. */
  lemma {:induction false} SplitStrCutAt(s: string, pat: string, k: nat)
    requires |pat| > 0 && k < |SplitStr(s, pat)| - 1
    ensures FindFirst(Join(SplitStr(s, pat)[k..], pat), pat) == Some(|SplitStr(s, pat)[k]|)
    decreases |s|
  {
    var r := SplitStr(s, pat);
    var i := FindFirst(s, pat).value;
    var rest := SplitStr(s[i + |pat|..], pat);
    assert r == [s[..i]] + rest;
    if k == 0 {
      JoinSplitNonEmptyPattern(s, pat);
      assert r[0..] == r && |r[0]| == i;
    } else {
      SplitStrCutAt(s[i + |pat|..], pat, k - 1);
      assert r[k..] == rest[k - 1..] && r[k] == rest[k - 1];
    }
  }

  /**
   * Each cut is made at the leftmost occurrence: the text from fragment k
   * onwards has its first occurrence of `pat` right after fragment k.
   */
  lemma SplitStrCutsLeftmost(s: string, pat: string)
    requires |pat| > 0
    ensures var r := SplitStr(s, pat);
      forall k :: 0 <= k < |r| - 1 ==> FindFirst(Join(r[k..], pat), pat) == Some(|r[k]|)
  {
    forall k | 0 <= k < |SplitStr(s, pat)| - 1
      ensures FindFirst(Join(SplitStr(s, pat)[k..], pat), pat) == Some(|SplitStr(s, pat)[k]|)
    {
      SplitStrCutAt(s, pat, k);
    }
  }

  // ---------------------------------------------------------------------
  // Separator::Whitespace — `str::split_whitespace`
  // ---------------------------------------------------------------------

  /** Length of the run of non-whitespace characters at the start of `s`. */
  function WordLen(s: string): (n: nat)
    ensures n <= |s|
    ensures forall i :: 0 <= i < n ==> !IsWhitespace(s[i])
    ensures n < |s| ==> IsWhitespace(s[n])
  {
    if s == [] || IsWhitespace(s[0]) then 0 else 1 + WordLen(s[1..])
  }

  /** `s.split_whitespace()`: the maximal whitespace-free runs of `s`, in order. */
  function SplitWhitespace(s: string): (r: seq<string>)
    ensures r == [] <==> forall i :: 0 <= i < |s| ==> IsWhitespace(s[i])
    decreases |s|
  {
    if s == [] then
      []
    else if IsWhitespace(s[0]) then
      var r := SplitWhitespace(s[1..]);
      assert forall i :: 1 <= i < |s| ==> s[i] == s[1..][i - 1];
      r
    else
      var n := WordLen(s);
      [s[..n]] + SplitWhitespace(s[n..])
  }

  /** Whitespace before the first word produces nothing. */
  lemma {:induction false} SplitWhitespaceSkip(ws: string, b: string)
    requires forall i :: 0 <= i < |ws| ==> IsWhitespace(ws[i])
    ensures SplitWhitespace(ws + b) == SplitWhitespace(b)
  {
    if ws != [] {
      assert (ws + b)[0] == ws[0];
      assert (ws + b)[1..] == ws[1..] + b;
      assert forall i :: 0 <= i < |ws[1..]| ==> ws[1..][i] == ws[i + 1];
      SplitWhitespaceSkip(ws[1..], b);
      assert IsWhitespace((ws + b)[0]);
      assert SplitWhitespace(ws + b) == SplitWhitespace((ws + b)[1..]);
    } else {
      assert ws + b == b;
    }
  }

  /** A word followed by any non-empty run of whitespace is one record, and splitting goes on after the run. */
  lemma SplitWhitespaceWordThen(w: string, ws: string, b: string)
    requires IsWord(w)
    requires |ws| > 0 && forall i :: 0 <= i < |ws| ==> IsWhitespace(ws[i])
    ensures SplitWhitespace(w + ws + b) == [w] + SplitWhitespace(b)
  {
    var s := w + ws + b;
    assert forall i :: 0 <= i < |w| ==> s[i] == w[i];
    assert s[|w|] == ws[0];
    var n := WordLen(s);
    assert n == |w|;
    assert s[..n] == w;
    assert s[n..] == ws + b;
    SplitWhitespaceSkip(ws, b);
  }

  /** A word on its own is one record. */
  lemma SplitWhitespaceSingleWord(w: string)
    requires IsWord(w)
    ensures SplitWhitespace(w) == [w]
  {
    assert WordLen(w) == |w|;
    assert w[..|w|] == w;
  }

  /** Every record is non-empty and holds no whitespace character. */
  lemma {:induction false} SplitWhitespaceWords(s: string)
    ensures forall k :: 0 <= k < |SplitWhitespace(s)| ==> IsWord(SplitWhitespace(s)[k])
    decreases |s|
  {
    if s == [] {
    } else if IsWhitespace(s[0]) {
      SplitWhitespaceWords(s[1..]);
    } else {
      SplitWhitespaceWords(s[WordLen(s)..]);
    }
  }

  /** The content with every whitespace character dropped. */
  function RemoveWhitespace(s: string): string
  {
    if s == [] then []
    else (if IsWhitespace(s[0]) then [] else [s[0]]) + RemoveWhitespace(s[1..])
  }

  lemma {:induction false} RemoveWhitespaceAppend(a: string, b: string)
    ensures RemoveWhitespace(a + b) == RemoveWhitespace(a) + RemoveWhitespace(b)
  {
    if a == [] {
      assert a + b == b;
    } else {
      assert (a + b)[1..] == a[1..] + b;
      RemoveWhitespaceAppend(a[1..], b);
    }
  }

  lemma {:induction false} RemoveWhitespaceOfWord(w: string)
    requires forall i :: 0 <= i < |w| ==> !IsWhitespace(w[i])
    ensures RemoveWhitespace(w) == w
  {
    if w != [] {
      RemoveWhitespaceOfWord(w[1..]);
    }
  }

  /** The records, read in order, are exactly the non-whitespace characters of the content. */
  lemma {:induction false} SplitWhitespaceConcat(s: string)
    ensures Concat(SplitWhitespace(s)) == RemoveWhitespace(s)
    decreases |s|
  {
    if s == [] {
    } else if IsWhitespace(s[0]) {
      SplitWhitespaceConcat(s[1..]);
    } else {
      var n := WordLen(s);
      SplitWhitespaceConcat(s[n..]);
      assert s == s[..n] + s[n..];
      RemoveWhitespaceAppend(s[..n], s[n..]);
      RemoveWhitespaceOfWord(s[..n]);
      assert ([s[..n]] + SplitWhitespace(s[n..]))[1..] == SplitWhitespace(s[n..]);
    }
  }

  /** Words joined by single spaces are split back into the same words. */
  lemma {:induction false} SplitWhitespaceJoin(words: seq<string>)
    requires forall k :: 0 <= k < |words| ==> IsWord(words[k])
    ensures SplitWhitespace(Join(words, " ")) == words
  {
    if |words| == 0 {
    } else {
      var w := words[0];
      var s := Join(words, " ");
      var tail := if |words| == 1 then [] else " " + Join(words[1..], " ");
      assert s == w + tail;
      var n := WordLen(s);
      assert forall i :: 0 <= i < |w| ==> s[i] == w[i];
      assert |words| > 1 ==> s[|w|] == ' ';
      assert n == |w|;
      assert s[..n] == w;
      assert s[n..] == tail;
      if |words| > 1 {
        var rest := Join(words[1..], " ");
        assert tail[1..] == rest;
        SplitWhitespaceJoin(words[1..]);
        assert SplitWhitespace(tail) == words[1..];
      }
    }
  }

  // ---------------------------------------------------------------------
  // Separator::Newline — `str::lines`
  // ---------------------------------------------------------------------

  /** Drop one '\r' that ends a line terminated by '\n'. */
  function StripCr(line: string): string
  {
    if |line| > 0 && line[|line| - 1] == '\r' then line[..|line| - 1] else line
  }

  /**
   * `s.lines()`: the pieces of `s` ended by '\n' (the last piece need not
   * be ended), with the '\n' removed and then one '\r' before it; an empty
   * content has no lines and a final '\n' opens no further line.
   */
  function Lines(s: string): (r: seq<string>)
    ensures r == [] <==> s == []
    decreases |s|
  {
    if s == [] then
      []
    else
      match FindFirst(s, "\n")
      case None => [s]
      case Some(i) => [StripCr(s[..i])] + Lines(s[i + 1..])
  }

  lemma NoNewlineBefore(s: string, i: nat)
    requires forall j :: 0 <= j < i ==> !OccursAt(s, "\n", j)
    requires i <= |s|
    ensures '\n' !in s[..i]
  {
    forall j | 0 <= j < i ensures s[j] != '\n' {
      if s[j] == '\n' {
        assert s[j..j + 1] == "\n";
        assert OccursAt(s, "\n", j);
      }
    }
  }

  /** No record contains a line feed. */
  lemma {:induction false} LinesNoNewline(s: string)
    ensures forall k :: 0 <= k < |Lines(s)| ==> '\n' !in Lines(s)[k]
    decreases |s|
  {
    if s != [] {
      match FindFirst(s, "\n")
      case None =>
        NoNewlineBefore(s, |s|);
        assert s[..|s|] == s;
      case Some(i) =>
        NoNewlineBefore(s, i);
        LinesNoNewline(s[i + 1..]);
    }
  }

  lemma LastCharOfNewlineSuffix(s: string, i: nat)
    requires OccursAt(s, "\n", i)
    ensures s[i] == '\n'
    ensures i + 1 < |s| ==> s[i + 1..][|s| - i - 2] == s[|s| - 1]
  {
    assert s[i..i + 1] == [s[i]];
  }

  /** One record per line feed, plus one for an unterminated last line: a final '\n' adds no empty record. */
  lemma {:induction false} LinesCount(s: string)
    ensures |Lines(s)| == CountOccurrences(s, "\n") + (if s != [] && s[|s| - 1] != '\n' then 1 else 0)
    decreases |s|
  {
    if s != [] {
      CountOccurrencesFromFirst(s, "\n");
      if FindFirst(s, "\n").Some? {
        var i := FindFirst(s, "\n").value;
        var rest := s[i + 1..];
        assert |Lines(s)| == 1 + |Lines(rest)|;
        assert CountOccurrences(s, "\n") == 1 + CountOccurrences(rest, "\n");
        LinesCount(rest);
        LastCharOfNewlineSuffix(s, i);
      } else {
        assert Lines(s) == [s];
        assert !OccursAt(s, "\n", |s| - 1);
        assert s[|s| - 1..|s|] == [s[|s| - 1]];
      }
    }
  }

  /** In a text without a line feed, an appended one is the first. */
  lemma NewlineAtEnd(t: string)
    requires FindFirst(t, "\n").None?
    ensures FindFirst(t + "\n", "\n") == Some(|t|)
  {
    assert (t + "\n")[|t|..|t| + 1] == "\n";
    forall j | 0 <= j < |t| ensures !OccursAt(t + "\n", "\n", j) {
      OccursInPrefix(t, "\n", "\n", j);
    }
    FindFirstIsLeftmost(t + "\n", "\n", |t|);
  }

  /** A line feed after a last line that does not end in '\r' or '\n' changes nothing. */
  lemma {:induction false} LinesTrailingNewline(t: string)
    requires t != [] && t[|t| - 1] != '\n' && t[|t| - 1] != '\r'
    ensures Lines(t + "\n") == Lines(t)
    decreases |t|
  {
    var s := t + "\n";
    if FindFirst(t, "\n").Some? {
      var i := FindFirst(t, "\n").value;
      FindFirstExtend(t, "\n", "\n");
      assert t[i..i + 1] == [t[i]];
      assert i < |t| - 1;
      var rest := t[i + 1..];
      assert Lines(t) == [StripCr(t[..i])] + Lines(rest);
      assert s[..i] == t[..i];
      assert s[i + 1..] == rest + "\n";
      assert Lines(s) == [StripCr(t[..i])] + Lines(rest + "\n");
      LinesTrailingNewline(rest);
    } else {
      NewlineAtEnd(t);
      assert Lines(t) == [t];
      assert s[..|t|] == t;
      assert s[|t| + 1..] == [];
      assert Lines(s) == [StripCr(t)] + Lines([]);
    }
  }

  /** Every line followed by '\n', glued together: the text a list of lines is written as. */
  function Unlines(lines: seq<string>): string
  {
    if lines == [] then [] else lines[0] + "\n" + Unlines(lines[1..])
  }

  /** Lines written with a terminating '\n' each are read back unchanged. */
  lemma {:induction false} LinesUnlines(lines: seq<string>)
    requires forall k :: 0 <= k < |lines| ==> '\n' !in lines[k]
    requires forall k :: 0 <= k < |lines| ==> lines[k] == [] || lines[k][|lines[k]| - 1] != '\r'
    ensures Lines(Unlines(lines)) == lines
  {
    if lines != [] {
      var l := lines[0];
      var s := Unlines(lines);
      assert s == l + "\n" + Unlines(lines[1..]);
      assert s[|l|..|l| + 1] == "\n";
      forall j | 0 <= j < |l| ensures !OccursAt(s, "\n", j) {
        assert s[j..j + 1] == [l[j]];
      }
      FindFirstIsLeftmost(s, "\n", |l|);
      assert s[..|l|] == l;
      assert s[|l| + 1..] == Unlines(lines[1..]);
      LinesUnlines(lines[1..]);
    }
  }

  /**
   * `lines()` as `split("\n")` with its empty last fragment dropped and the
   * '\r' removed from the end of each '\n'-terminated fragment.
   */
  function TerminatedFragments(parts: seq<string>): seq<string>
    requires |parts| >= 1
  {
    var last := parts[|parts| - 1];
    Map(StripCr, parts[..|parts| - 1]) + (if last == [] then [] else [last])
  }

  function Map(f: string -> string, xs: seq<string>): (r: seq<string>)
    ensures |r| == |xs| && forall k :: 0 <= k < |xs| ==> r[k] == f(xs[k])
  {
    if xs == [] then [] else [f(xs[0])] + Map(f, xs[1..])
  }

  lemma TerminatedFragmentsCons(first: string, rest: seq<string>)
    requires |rest| >= 1
    ensures TerminatedFragments([first] + rest) == [StripCr(first)] + TerminatedFragments(rest)
  {
    var parts := [first] + rest;
    assert parts[..|parts| - 1] == [first] + rest[..|rest| - 1];
    assert parts[|parts| - 1] == rest[|rest| - 1];
    assert Map(StripCr, [first] + rest[..|rest| - 1]) == [StripCr(first)] + Map(StripCr, rest[..|rest| - 1]);
  }

  /** `lines()` agrees with the literal split on "\n" followed by that clean-up. */
  lemma {:induction false} LinesViaSplit(s: string)
    ensures Lines(s) == TerminatedFragments(SplitStr(s, "\n"))
    decreases |s|
  {
    if s == [] {
      assert FindFirst(s, "\n") == None;
    } else if FindFirst(s, "\n").Some? {
      var i := FindFirst(s, "\n").value;
      var rest := SplitStr(s[i + 1..], "\n");
      assert SplitStr(s, "\n") == [s[..i]] + rest;
      assert Lines(s) == [StripCr(s[..i])] + Lines(s[i + 1..]);
      LinesViaSplit(s[i + 1..]);
      TerminatedFragmentsCons(s[..i], rest);
    } else {
      assert SplitStr(s, "\n") == [s];
    }
  }

  // ---------------------------------------------------------------------
  // The dispatch of `AocParser::new`
  // ---------------------------------------------------------------------

  /**
   * The records `new` makes of the content: literal fragments that join back
   * into the content, whitespace-free words holding all its other
   * characters in order, or lines without '\n' with no record added by a
   * final line feed.
   */
  function Split(content: string, sep: Separator): (r: seq<string>)
    ensures sep.Str? ==> Join(r, sep.pat) == content
    ensures sep.Str? && |sep.pat| > 0 ==> |r| == CountOccurrences(content, sep.pat) + 1
    ensures sep.Whitespace? ==> forall k :: 0 <= k < |r| ==> IsWord(r[k])
    ensures sep.Whitespace? ==> Concat(r) == RemoveWhitespace(content)
    ensures sep.Newline? ==> forall k :: 0 <= k < |r| ==> '\n' !in r[k]
    ensures sep.Newline? ==>
      |r| == CountOccurrences(content, "\n") + (if content != [] && content[|content| - 1] != '\n' then 1 else 0)
  {
    match sep
    case Newline =>
      LinesNoNewline(content);
      LinesCount(content);
      Lines(content)
    case Whitespace =>
      SplitWhitespaceWords(content);
      SplitWhitespaceConcat(content);
      SplitWhitespace(content)
    case Str(pat) =>
      JoinSplitStr(content, pat);
      if |pat| > 0 then
        SplitStrCount(content, pat);
        SplitStr(content, pat)
      else
        SplitStr(content, pat)
  }
}
