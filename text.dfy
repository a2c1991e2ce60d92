/**
 * Python's `str` operations that the blog and the authoring tool rely on,
 * restricted to ASCII: whitespace as `str.isspace`, `strip`, `lstrip`,
 * `split()` with no argument, `splitlines`, `join`, `lower`, `isalnum`,
 * `startswith`, and the ordering `<` on strings.
 */
module Text {

  // ---------------------------------------------------------------------------
  // Sequences
  // ---------------------------------------------------------------------------

  lemma HeadTail<T>(s: seq<T>)
    requires |s| > 0
    ensures s == [s[0]] + s[1..]
  {
  }

  /** A slice grows by one element at its end. */
  lemma SliceExtend<T>(s: seq<T>, a: nat, b: nat)
    requires a <= b < |s|
    ensures s[a..b + 1] == s[a..b] + [s[b]]
  {
  }

  /** A suffix of a suffix of `s` is a suffix of `s`, and ends like `s`. */
  lemma SuffixOfSuffix<T>(s: seq<T>, t: seq<T>, u: seq<T>)
    requires |t| <= |s| && t == s[|s| - |t|..]
    requires |u| <= |t| && u == t[|t| - |u|..]
    ensures u == s[|s| - |u|..]
    ensures u != [] ==> u[|u| - 1] == s[|s| - 1]
  {
  }

  // ---------------------------------------------------------------------------
  // Characters
  // ---------------------------------------------------------------------------

  /** `c.isspace()` on ASCII: space, tab, newline, vertical tab, form feed,
      carriage return, and the separators 0x1C to 0x1F. */
  predicate IsSpace(c: char)
  {
    c == ' ' || ('\t' <= c <= '\r') || ('\U{1C}' <= c <= '\U{1F}')
  }

  /** The characters at which `str.splitlines` ends a line, on ASCII. */
  predicate IsLineBreak(c: char)
  {
    ('\n' <= c <= '\r') || ('\U{1C}' <= c <= '\U{1E}')
  }

  predicate IsUpper(c: char) { 'A' <= c <= 'Z' }

  predicate IsLowerAlnum(c: char) { ('a' <= c <= 'z') || ('0' <= c <= '9') }

  /** `c.isalnum()` on ASCII. */
  predicate IsAlnum(c: char) { IsLowerAlnum(c) || IsUpper(c) }

  /** `c.lower()` on ASCII. */
  function LowerChar(c: char): (r: char)
    ensures !IsUpper(r)
    ensures IsUpper(c) ==> r as int == c as int + 32
    ensures !IsUpper(c) ==> r == c
  {
    if IsUpper(c) then (c as int + 32) as char else c
  }

  /** `s.lower()` on ASCII. */
  function Lower(s: string): (r: string)
    ensures |r| == |s|
    ensures forall i :: 0 <= i < |s| ==> r[i] == LowerChar(s[i])
  {
    seq(|s|, i requires 0 <= i < |s| => LowerChar(s[i]))
  }

  // ---------------------------------------------------------------------------
  // Prefixes and stripping
  // ---------------------------------------------------------------------------

  /** `s.startswith(p)`. */
  predicate StartsWith(s: string, p: string)
  {
    |p| <= |s| && s[..|p|] == p
  }

  /** Every character of `s` is whitespace (so `not s.strip()`). */
  predicate IsBlank(s: string)
  {
    forall i :: 0 <= i < |s| ==> IsSpace(s[i])
  }

  /** No character of `s` is whitespace. */
  predicate NoSpace(s: string)
  {
    forall i :: 0 <= i < |s| ==> !IsSpace(s[i])
  }

  /** `s.lstrip()`: the suffix left after dropping leading whitespace. */
  function LStrip(s: string): (r: string)
    ensures |r| <= |s| && r == s[|s| - |r|..]
    ensures IsBlank(s[..|s| - |r|])
    ensures r != [] ==> !IsSpace(r[0])
  {
    if s != [] && IsSpace(s[0]) then
      var r := LStrip(s[1..]);
      assert s[1..][..|s| - 1 - |r|] == s[1..|s| - |r|];
      r
    else s
  }

  lemma BlankAppend(a: string, b: string)
    requires IsBlank(a) && IsBlank(b)
    ensures IsBlank(a + b)
  {
  }

  /** `s.rstrip()`: the prefix left after dropping trailing whitespace. */
  function RStrip(s: string): (r: string)
    ensures |r| <= |s| && r == s[..|r|]
    ensures IsBlank(s[|r|..])
    ensures r != [] ==> !IsSpace(r[|r| - 1])
  {
    if s != [] && IsSpace(s[|s| - 1]) then
      var r := RStrip(s[..|s| - 1]);
      assert s[|r|..] == s[..|s| - 1][|r|..] + [s[|s| - 1]];
      BlankAppend(s[..|s| - 1][|r|..], [s[|s| - 1]]);
      r
    else s
  }

  /** `r` is `s` with a blank prefix of length `a` and a blank suffix cut off. */
  ghost predicate TrimmedAt(s: string, r: string, a: nat)
  {
    a + |r| <= |s| && r == s[a..a + |r|] && IsBlank(s[..a]) && IsBlank(s[a + |r|..])
  }

  /** `s.strip()`: both ends stripped of whitespace. What is cut off is blank
      and what remains neither starts nor ends with whitespace, so the cut is
      the largest one. */
  function Strip(s: string): (r: string)
    ensures |r| <= |s|
    ensures exists a: nat :: TrimmedAt(s, r, a)
    ensures r != [] ==> !IsSpace(r[0]) && !IsSpace(r[|r| - 1])
  {
    var l := LStrip(s);
    var r := RStrip(l);
    var a: nat := |s| - |l|;
    assert s[a..a + |r|] == l[..|r|];
    assert s[a + |r|..] == l[|r|..];
    assert TrimmedAt(s, r, a);
    r
  }

  /** Text that neither starts nor ends with whitespace is its own `strip()`. */
  lemma StripOfTrimmed(s: string)
    requires s != [] && !IsSpace(s[0]) && !IsSpace(s[|s| - 1])
    ensures Strip(s) == s
  {
    assert LStrip(s) == s;
    assert RStrip(s) == s;
  }

  /** `s.strip()` is empty exactly when `s` is blank. */
  lemma StripEmptyIff(s: string)
    ensures Strip(s) == [] <==> IsBlank(s)
  {
    var l := LStrip(s);
    if Strip(s) == [] {
      assert IsBlank(l) by { assert l[0..] == l; }
      assert |l| == 0;
      assert s[..|s|] == s;
    } else if l != [] {
      assert s[|s| - |l|] == l[0];
    }
  }

  /** `s.lstrip(ch)` for a single character `ch`. */
  function LStripChar(s: string, ch: char): (r: string)
    ensures |r| <= |s| && r == s[|s| - |r|..]
    ensures forall i :: 0 <= i < |s| - |r| ==> s[i] == ch
    ensures r != [] ==> r[0] != ch
  {
    if s != [] && s[0] == ch then LStripChar(s[1..], ch) else s
  }

  lemma {:induction false} LStripOfNonSpaceStart(s: string)
    requires s != [] && !IsSpace(s[0])
    ensures LStrip(s) == s
  {
  }

  /** Whitespace at the front is dropped and the rest is left alone. */
  lemma {:induction false} LStripAppend(a: string, b: string)
    requires !IsBlank(a)
    ensures LStrip(a + b) == LStrip(a) + b
  {
    if IsSpace(a[0]) {
      assert (a + b)[1..] == a[1..] + b;
      assert !IsBlank(a[1..]) by {
        var i :| 0 <= i < |a| && !IsSpace(a[i]);
        assert a[1..][i - 1] == a[i];
      }
      LStripAppend(a[1..], b);
    }
  }

  lemma {:induction false} StripOfNoSpace(s: string)
    requires NoSpace(s)
    ensures Strip(s) == s
  {
    if s != [] {
      LStripOfNonSpaceStart(s);
    }
  }

  // ---------------------------------------------------------------------------
  // Words: `s.split()` with no argument
  // ---------------------------------------------------------------------------

  /** A word as `str.split()` produces it: non-empty, without whitespace. */
  predicate IsWord(w: string)
  {
    w != [] && NoSpace(w)
  }

  /** The length of the leading run of non-whitespace characters. */
  function WordEnd(s: string): (k: nat)
    ensures k <= |s|
    ensures NoSpace(s[..k])
    ensures k < |s| ==> IsSpace(s[k])
  {
    if s == [] || IsSpace(s[0]) then 0
    else
      var k := 1 + WordEnd(s[1..]);
      assert forall i :: 1 <= i < k ==> s[..k][i] == s[1..][..k - 1][i - 1];
      k
  }

  /** `s.split()`: the maximal runs of non-whitespace characters, in order. */
  function SplitWords(s: string): (ws: seq<string>)
    ensures AllWords(ws)
    decreases |s|
  {
    var t := LStrip(s);
    if t == [] then []
    else
      var k := WordEnd(t);
      var rest := SplitWords(t[k..]);
      AllWordsCons(t[..k], rest);
      [t[..k]] + rest
  }

  lemma AllWordsCons(w: string, ws: seq<string>)
    requires IsWord(w) && AllWords(ws)
    ensures AllWords([w] + ws)
  {
    assert forall i :: 1 <= i < |ws| + 1 ==> ([w] + ws)[i] == ws[i - 1];
  }

  /** The concatenation of `parts` with `sep` between neighbours: `sep.join(parts)`. */
  function Join(parts: seq<string>, sep: string): string
  {
    if |parts| == 0 then ""
    else if |parts| == 1 then parts[0]
    else parts[0] + sep + Join(parts[1..], sep)
  }

  lemma {:induction false} WordEndOfWordThen(w: string, rest: string)
    requires IsWord(w)
    requires rest == [] || IsSpace(rest[0])
    ensures WordEnd(w + rest) == |w|
  {
    var s := w + rest;
    assert forall i :: 0 <= i < |w| ==> s[i] == w[i];
    assert rest != [] ==> s[|w|] == rest[0];
  }

  /** A word followed by whitespace (or nothing) splits off as the first word. */
  lemma {:induction false} SplitWordsCons(w: string, rest: string)
    requires IsWord(w)
    requires rest == [] || IsSpace(rest[0])
    ensures SplitWords(w + rest) == [w] + SplitWords(rest)
  {
    var s := w + rest;
    assert s[0] == w[0];
    LStripOfNonSpaceStart(s);
    WordEndOfWordThen(w, rest);
    assert s[..|w|] == w;
    assert s[|w|..] == rest;
  }

  lemma {:induction false} SplitWordsOfWord(w: string)
    requires IsWord(w)
    ensures SplitWords(w) == [w]
  {
    SplitWordsCons(w, []);
    assert w + [] == w;
  }

  lemma {:induction false} SplitWordsOfNoSpace(s: string)
    requires NoSpace(s)
    ensures SplitWords(s) == if s == [] then [] else [s]
  {
    if s != [] {
      SplitWordsOfWord(s);
    }
  }

  /** Leading whitespace does not change `s.split()`. */
  lemma {:induction false} SplitWordsSkipSpace(c: char, s: string)
    requires IsSpace(c)
    ensures SplitWords([c] + s) == SplitWords(s)
  {
    assert ([c] + s)[1..] == s;
    assert LStrip([c] + s) == LStrip(s);
  }

  lemma {:induction false} JoinNonEmptyStartsWithFirst(ws: seq<string>, sep: string)
    requires |ws| > 0 && ws[0] != []
    ensures Join(ws, sep) != [] && Join(ws, sep)[0] == ws[0][0]
  {
  }

  lemma {:induction false} JoinEndsWithLast(ws: seq<string>, sep: string)
    requires |ws| > 0 && ws[|ws| - 1] != []
    ensures var j := Join(ws, sep);
      j != [] && j[|j| - 1] == ws[|ws| - 1][|ws[|ws| - 1]| - 1]
  {
    if |ws| > 1 {
      JoinEndsWithLast(ws[1..], sep);
      assert ws[1..][|ws| - 2] == ws[|ws| - 1];
    }
  }

  /** Every element of `ws` is a word. */
  ghost predicate AllWords(ws: seq<string>)
  {
    forall i :: 0 <= i < |ws| ==> IsWord(ws[i])
  }

  lemma AllWordsTail(ws: seq<string>)
    requires |ws| > 0 && AllWords(ws)
    ensures IsWord(ws[0]) && AllWords(ws[1..])
  {
    assert forall i :: 0 <= i < |ws| - 1 ==> ws[1..][i] == ws[i + 1];
  }

  /** Joining words with one space and splitting again gives the words back. */
  lemma {:induction false} SplitJoinWords(ws: seq<string>)
    requires AllWords(ws)
    ensures SplitWords(Join(ws, " ")) == ws
  {
    if |ws| == 1 {
      SplitWordsOfWord(ws[0]);
    } else if |ws| > 1 {
      AllWordsTail(ws);
      var j := Join(ws[1..], " ");
      JoinCons(ws[0], ws[1..], " ");
      HeadTail(ws);
      assert ws[0] + " " + j == ws[0] + (" " + j);
      SplitWordsCons(ws[0], " " + j);
      SplitWordsSkipSpace(' ', j);
      SplitJoinWords(ws[1..]);
    }
  }

  /** `s.split()` is empty exactly for blank strings. */
  lemma SplitWordsEmptyIff(s: string)
    ensures SplitWords(s) == [] <==> IsBlank(s)
  {
    var t := LStrip(s);
    if t == [] {
      assert s[..|s|] == s;
    } else {
      assert s[|s| - |t|] == t[0];
    }
  }

  /** Every character of `s` is whitespace or satisfies `P`. */
  ghost predicate SpaceOr(s: string, P: char -> bool)
  {
    forall i :: 0 <= i < |s| ==> IsSpace(s[i]) || P(s[i])
  }

  lemma SpaceOrSlice(s: string, a: nat, b: nat, P: char -> bool)
    requires SpaceOr(s, P) && a <= b <= |s|
    ensures SpaceOr(s[a..b], P)
  {
    assert forall i :: 0 <= i < b - a ==> s[a..b][i] == s[a + i];
  }

  lemma SpaceOrOfNoSpace(w: string, P: char -> bool)
    requires SpaceOr(w, P) && NoSpace(w)
    ensures forall j :: 0 <= j < |w| ==> P(w[j])
  {
  }

  /** Every character of every string in `ws` satisfies `P`. */
  ghost predicate AllChars(ws: seq<string>, P: char -> bool)
  {
    forall i, j :: 0 <= i < |ws| && 0 <= j < |ws[i]| ==> P(ws[i][j])
  }

  lemma AllCharsCons(w: string, ws: seq<string>, P: char -> bool)
    requires forall j :: 0 <= j < |w| ==> P(w[j])
    requires AllChars(ws, P)
    ensures AllChars([w] + ws, P)
  {
    var r := [w] + ws;
    forall i, j | 0 <= i < |r| && 0 <= j < |r[i]| ensures P(r[i][j]) {
      if i > 0 { assert r[i] == ws[i - 1]; }
    }
  }

  /** A property held by every non-whitespace character of `s` holds of
      every character of the words of `s.split()`. */
  lemma {:induction false} SplitWordsKeep(s: string, P: char -> bool)
    requires SpaceOr(s, P)
    ensures AllChars(SplitWords(s), P)
    decreases |s|
  {
    var t := LStrip(s);
    if t != [] {
      SpaceOrSlice(s, |s| - |t|, |s|, P);
      var k := WordEnd(t);
      var rest := t[k..];
      SpaceOrSlice(t, k, |t|, P);
      SplitWordsKeep(rest, P);
      SpaceOrSlice(t, 0, k, P);
      var w := t[..k];
      SpaceOrOfNoSpace(w, P);
      AllCharsCons(w, SplitWords(rest), P);
    }
  }

  /** Every character of `sep.join(parts)` comes from a part or from `sep`. */
  lemma {:induction false} JoinChars(parts: seq<string>, sep: string, P: char -> bool)
    requires AllChars(parts, P)
    requires forall j :: 0 <= j < |sep| ==> P(sep[j])
    ensures forall j :: 0 <= j < |Join(parts, sep)| ==> P(Join(parts, sep)[j])
  {
    if |parts| == 1 {
      assert forall j :: 0 <= j < |parts[0]| ==> P(parts[0][j]);
    } else if |parts| > 1 {
      assert AllChars(parts[1..], P) by {
        assert forall i :: 0 <= i < |parts| - 1 ==> parts[1..][i] == parts[i + 1];
      }
      JoinChars(parts[1..], sep, P);
      var tail := Join(parts[1..], sep);
      forall j | 0 <= j < |Join(parts, sep)| ensures P(Join(parts, sep)[j]) {
        var s := Join(parts, sep);
        assert s == parts[0] + sep + tail;
        if j < |parts[0]| {
          assert s[j] == parts[0][j];
        } else if j < |parts[0]| + |sep| {
          assert s[j] == sep[j - |parts[0]|];
        } else {
          assert s[j] == tail[j - |parts[0]| - |sep|];
        }
      }
    }
  }

  /** Some character of `s` satisfies `P`. */
  ghost predicate SomeChar(s: string, P: char -> bool)
  {
    exists i :: 0 <= i < |s| && P(s[i])
  }

  /** A character that is not whitespace survives `lstrip()`, shifted left by
      the number of characters dropped. */
  lemma LStripIndex(s: string, i: nat)
    requires i < |s| && !IsSpace(s[i])
    ensures |s| - |LStrip(s)| <= i
    ensures LStrip(s)[i - (|s| - |LStrip(s)|)] == s[i]
  {
  }

  /** Dropping leading whitespace loses no character that is not whitespace. */
  lemma LStripKeepsSomeChar(s: string, P: char -> bool)
    requires forall c :: P(c) ==> !IsSpace(c)
    ensures SomeChar(LStrip(s), P) <==> SomeChar(s, P)
  {
    var l := LStrip(s);
    if SomeChar(s, P) {
      var i :| 0 <= i < |s| && P(s[i]);
      LStripIndex(s, i);
      var j := i - (|s| - |l|);
      assert 0 <= j < |l| && P(l[j]);
    }
    if SomeChar(l, P) {
      var i :| 0 <= i < |l| && P(l[i]);
      var k := |s| - |l| + i;
      assert s[k] == l[i];
      assert 0 <= k < |s| && P(s[k]);
    }
  }

  /** Dropping trailing whitespace loses no character that is not whitespace. */
  lemma RStripKeepsSomeChar(s: string, P: char -> bool)
    requires forall c :: P(c) ==> !IsSpace(c)
    ensures SomeChar(RStrip(s), P) <==> SomeChar(s, P)
  {
    var r := RStrip(s);
    if SomeChar(s, P) {
      var i :| 0 <= i < |s| && P(s[i]);
      if i < |r| {
        assert r[i] == s[i];
      }
    }
    if SomeChar(r, P) {
      var i :| 0 <= i < |r| && P(r[i]);
      assert r[i] == s[i];
    }
  }

  /** Stripping whitespace loses no character that is not whitespace. */
  lemma StripKeepsSomeChar(s: string, P: char -> bool)
    requires forall c :: P(c) ==> !IsSpace(c)
    ensures SomeChar(Strip(s), P) <==> SomeChar(s, P)
  {
    LStripKeepsSomeChar(s, P);
    RStripKeepsSomeChar(LStrip(s), P);
  }

  // ---------------------------------------------------------------------------
  // Lines: `s.splitlines()`
  // ---------------------------------------------------------------------------

  /** No string in `lines` holds a line break. */
  ghost predicate NoLineBreaks(lines: seq<string>)
  {
    forall i :: 0 <= i < |lines| ==> NoBreakIn(lines[i])
  }

  /** The length of the leading run of characters that are not line breaks. */
  function LineEnd(s: string): (k: nat)
    ensures k <= |s|
    ensures NoBreakIn(s[..k])
    ensures k < |s| ==> IsLineBreak(s[k])
  {
    if s == [] || IsLineBreak(s[0]) then 0
    else
      var k := 1 + LineEnd(s[1..]);
      assert s[..k] == [s[0]] + s[1..][..k - 1];
      k
  }

  /** `s` holds no line break. */
  ghost predicate NoBreakIn(s: string)
  {
    forall i :: 0 <= i < |s| ==> !IsLineBreak(s[i])
  }

  /**
   * `s.splitlines()`: the text between line breaks, where "\r\n" is one break
   * and a break at the very end does not start another (empty) line.
   */
  function SplitLines(s: string): seq<string>
    decreases |s|
  {
    if s == [] then []
    else
      var k := LineEnd(s);
      if k == |s| then [s]
      else [s[..k]] + SplitLines(s[NextLineStart(s, k)..])
  }

  /** Where the line after a break at `k` starts: past "\r\n", or past the
      single break character. */
  function NextLineStart(s: string, k: nat): (next: nat)
    requires k < |s|
    ensures k < next <= |s|
  {
    if s[k] == '\r' && k + 1 < |s| && s[k + 1] == '\n' then k + 2 else k + 1
  }

  lemma SplitLinesStep(s: string)
    requires s != [] && LineEnd(s) < |s|
    ensures SplitLines(s) == [s[..LineEnd(s)]] + SplitLines(s[NextLineStart(s, LineEnd(s))..])
  {
  }

  lemma NoLineBreaksCons(line: string, rest: seq<string>)
    requires NoBreakIn(line) && NoLineBreaks(rest)
    ensures NoLineBreaks([line] + rest)
  {
  }

  /** No line that `splitlines` produces holds a line break. */
  lemma {:induction false} SplitLinesHaveNoBreaks(s: string)
    ensures NoLineBreaks(SplitLines(s))
    decreases |s|
  {
    if s != [] {
      var k := LineEnd(s);
      if k < |s| {
        var next := NextLineStart(s, k);
        SplitLinesHaveNoBreaks(s[next..]);
        SplitLinesStep(s);
        NoLineBreaksCons(s[..k], SplitLines(s[next..]));
      } else {
        assert s[..k] == s;
        NoLineBreaksCons(s, []);
        assert SplitLines(s) == [s] + [];
      }
    }
  }

  /** "\n" is the only line break in `s`. */
  ghost predicate OnlyNewlineBreaks(s: string)
  {
    forall i :: 0 <= i < |s| && IsLineBreak(s[i]) ==> s[i] == '\n'
  }

  lemma JoinCons(a: string, parts: seq<string>, sep: string)
    requires |parts| >= 1
    ensures Join([a] + parts, sep) == a + sep + Join(parts, sep)
  {
    assert ([a] + parts)[1..] == parts;
  }

  lemma SplitLinesNonEmpty(s: string)
    requires s != []
    ensures |SplitLines(s)| >= 1
  {
  }

  lemma OnlyNewlineBreaksSuffix(s: string, j: nat)
    requires OnlyNewlineBreaks(s) && j <= |s|
    ensures OnlyNewlineBreaks(s[j..])
  {
    assert forall i :: 0 <= i < |s| - j ==> s[j..][i] == s[j + i];
  }

  lemma SplitAround<T>(s: seq<T>, k: nat)
    requires k < |s|
    ensures s == s[..k] + [s[k]] + s[k + 1..]
  {
  }

  /** Text that uses only "\n" as a line break, and does not end with one, is
      its own lines joined by "\n". */
  lemma {:induction false} JoinSplitLines(s: string)
    requires OnlyNewlineBreaks(s)
    requires s == [] || s[|s| - 1] != '\n'
    ensures Join(SplitLines(s), "\n") == s
    decreases |s|
  {
    if s != [] {
      var k := LineEnd(s);
      if k < |s| {
        assert s[k] == '\n';
        var rest := s[k + 1..];
        assert rest != [] && rest[|rest| - 1] == s[|s| - 1];
        assert NextLineStart(s, k) == k + 1;
        SplitLinesStep(s);
        OnlyNewlineBreaksSuffix(s, k + 1);
        JoinSplitLines(rest);
        SplitLinesNonEmpty(rest);
        JoinCons(s[..k], SplitLines(rest), "\n");
        SplitAround(s, k);
      }
    }
  }

  // ---------------------------------------------------------------------------
  // Ordering: Python's `<` on strings
  // ---------------------------------------------------------------------------

  /** `a < b` in Python: code-point lexicographic order, a proper prefix first.
      (Dafny's own `<` on sequences means "proper prefix".) */
  predicate Less(a: string, b: string)
    decreases |a|
  {
    if b == [] then false
    else if a == [] then true
    else if a[0] != b[0] then a[0] < b[0]
    else Less(a[1..], b[1..])
  }

  lemma {:induction false} LessIrreflexive(a: string)
    ensures !Less(a, a)
    decreases |a|
  {
    if a != [] { LessIrreflexive(a[1..]); }
  }

  lemma {:induction false} LessTotal(a: string, b: string)
    ensures a == b || Less(a, b) || Less(b, a)
    decreases |a|
  {
    if a != [] && b != [] && a[0] == b[0] {
      LessTotal(a[1..], b[1..]);
      if a[1..] == b[1..] {
        assert a == [a[0]] + a[1..] && b == [b[0]] + b[1..];
      }
    }
  }

  lemma {:induction false} LessAsymmetric(a: string, b: string)
    requires Less(a, b)
    ensures !Less(b, a)
    decreases |a|
  {
    if a != [] && a[0] == b[0] { LessAsymmetric(a[1..], b[1..]); }
  }

  lemma {:induction false} LessTransitive(a: string, b: string, c: string)
    requires Less(a, b) && Less(b, c)
    ensures Less(a, c)
    decreases |a|
  {
    if a != [] && a[0] == b[0] && b[0] == c[0] {
      LessTransitive(a[1..], b[1..], c[1..]);
    }
  }

  /** Comparing two concatenations whose first parts have the same length. */
  lemma {:induction false} LessConcat(a: string, b: string, a': string, b': string)
    requires |a| == |a'|
    ensures Less(a + b, a' + b') <==> Less(a, a') || (a == a' && Less(b, b'))
    decreases |a|
  {
    if a == [] {
      assert a + b == b && a' + b' == b';
    } else {
      assert (a + b)[0] == a[0] && (a' + b')[0] == a'[0];
      assert (a + b)[1..] == a[1..] + b && (a' + b')[1..] == a'[1..] + b';
      LessConcat(a[1..], b, a'[1..], b');
      if a[0] == a'[0] {
        assert a == a' <==> a[1..] == a'[1..] by {
          assert a == [a[0]] + a[1..] && a' == [a'[0]] + a'[1..];
        }
      }
    }
  }

  /** "Not less than" is transitive. */
  lemma NotLessTransitive(a: string, b: string, c: string)
    requires !Less(a, b) && !Less(b, c)
    ensures !Less(a, c)
  {
    LessTotal(a, b);
    LessTotal(b, c);
    if a != b && b != c {
      LessTransitive(c, b, a);
      LessAsymmetric(c, a);
    } else if a != b {
      LessAsymmetric(b, a);
    } else if b != c {
      LessAsymmetric(c, b);
    } else {
      LessIrreflexive(a);
    }
  }
}
