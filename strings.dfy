/**
 * Python string primitives that the chunker relies on: the whitespace set of
 * `str.isspace` (which is also what `\s` and argument-less `strip` use),
 * `strip`/`lstrip`/`rstrip`, `splitlines`, `sep.join`, an ASCII `upper`, and a
 * subsequence relation used to state that a transformation loses nothing.
 */
module Strings {

  /** Python's whitespace characters (`str.isspace()`, `\s`, `str.strip()`). */
  const SpaceChars: set<char> := {
    ' ', '\t', '\n', '\U{0b}', '\U{0c}', '\r', '\U{1c}', '\U{1d}', '\U{1e}', '\U{1f}',
    '\U{85}', '\U{a0}', '\U{1680}',
    '\U{2000}', '\U{2001}', '\U{2002}', '\U{2003}', '\U{2004}', '\U{2005}', '\U{2006}',
    '\U{2007}', '\U{2008}', '\U{2009}', '\U{200a}',
    '\U{2028}', '\U{2029}', '\U{202f}', '\U{205f}', '\U{3000}'}

  predicate IsSpace(c: char) {
    c in SpaceChars
  }

  predicate AllSpace(s: string) {
    forall i :: 0 <= i < |s| ==> IsSpace(s[i])
  }

  /** A string that neither starts nor ends with whitespace. */
  predicate IsStripped(s: string) {
    s == [] || (!IsSpace(s[0]) && !IsSpace(s[|s| - 1]))
  }

  predicate StartsWith(s: string, prefix: string) {
    |prefix| <= |s| && s[..|prefix|] == prefix
  }

  predicate EndsWith(s: string, suffix: string) {
    |suffix| <= |s| && s[|s| - |suffix|..] == suffix
  }

  /** Number of whitespace characters in the run that starts at position `i`. */
  function SpacesFrom(s: string, i: nat): (k: nat)
    requires i <= |s|
    ensures i + k <= |s|
    ensures i + k < |s| ==> !IsSpace(s[i + k])
    decreases |s| - i
  {
    if i < |s| && IsSpace(s[i]) then 1 + SpacesFrom(s, i + 1) else 0
  }

  /** The run counted by `SpacesFrom` is all whitespace. */
  lemma {:induction false} SpacesFromAreSpace(s: string, i: nat)
    requires i <= |s|
    ensures forall j :: i <= j < i + SpacesFrom(s, i) ==> IsSpace(s[j])
    decreases |s| - i
  {
    if i < |s| && IsSpace(s[i]) {
      SpacesFromAreSpace(s, i + 1);
    }
  }

  /** Where the whitespace that ends `s` starts. */
  function TrailingSpace(s: string): (n: nat)
    ensures n <= |s|
    ensures n > 0 ==> !IsSpace(s[n - 1])
  {
    if s != [] && IsSpace(s[|s| - 1]) then TrailingSpace(s[..|s| - 1]) else |s|
  }

  /** The run that `TrailingSpace` skips is all whitespace. */
  lemma {:induction false} TrailingSpaceAreSpace(s: string)
    ensures forall i :: TrailingSpace(s) <= i < |s| ==> IsSpace(s[i])
  {
    if s != [] && IsSpace(s[|s| - 1]) {
      var init := s[..|s| - 1];
      TrailingSpaceAreSpace(init);
      assert forall i :: 0 <= i < |init| ==> init[i] == s[i];
    }
  }

  /** `SpacesFrom` is the only count with its defining properties. */
  lemma SpacesFromIs(s: string, i: nat, n: nat)
    requires i + n <= |s| && (i + n < |s| ==> !IsSpace(s[i + n]))
    requires forall j :: i <= j < i + n ==> IsSpace(s[j])
    ensures SpacesFrom(s, i) == n
  {
    SpacesFromAreSpace(s, i);
  }

  /** `TrailingSpace` is the only index with its two defining properties. */
  lemma TrailingSpaceIs(s: string, n: nat)
    requires n <= |s| && (n > 0 ==> !IsSpace(s[n - 1]))
    requires forall i :: n <= i < |s| ==> IsSpace(s[i])
    ensures TrailingSpace(s) == n
    decreases |s|
  {
    if n < |s| {
      var init := s[..|s| - 1];
      assert forall i :: 0 <= i < |init| ==> init[i] == s[i];
      TrailingSpaceIs(init, n);
    }
  }

  /** `s.lstrip()`: `s` without its leading whitespace. */
  function LStrip(s: string): (r: string)
    ensures |r| <= |s|
    ensures r == [] || !IsSpace(r[0])
  {
    s[SpacesFrom(s, 0)..]
  }

  /** `s.rstrip()`: `s` without its trailing whitespace. */
  function RStrip(s: string): (r: string)
    ensures |r| <= |s|
    ensures r == [] || !IsSpace(r[|r| - 1])
  {
    s[..TrailingSpace(s)]
  }

  /** Length of the run of newlines that starts `s`. */
  function NewlineRun(s: string): (k: nat)
    ensures k <= |s|
    ensures forall i :: 0 <= i < k ==> s[i] == '\n'
    ensures k < |s| ==> s[k] != '\n'
  {
    if s != [] && s[0] == '\n' then 1 + NewlineRun(s[1..]) else 0
  }

  /** `s` with every character for which `gone` holds removed, the rest in order. */
  function Without(s: string, gone: char -> bool): (r: string)
    ensures |r| <= |s|
    ensures forall i :: 0 <= i < |r| ==> !gone(r[i])
  {
    if s == [] then [] else (if gone(s[0]) then [] else [s[0]]) + Without(s[1..], gone)
  }

  /** Filtering distributes over concatenation. */
  lemma {:induction false} WithoutAppend(a: string, b: string, gone: char -> bool)
    ensures Without(a + b, gone) == Without(a, gone) + Without(b, gone)
    decreases |a|
  {
    if a == [] {
      assert a + b == b;
    } else {
      assert (a + b)[1..] == a[1..] + b;
      WithoutAppend(a[1..], b, gone);
    }
  }

  /** A string made only of removed characters filters to nothing. */
  lemma {:induction false} WithoutAllGone(s: string, gone: char -> bool)
    requires forall i :: 0 <= i < |s| ==> gone(s[i])
    ensures Without(s, gone) == []
    decreases |s|
  {
    if s != [] {
      WithoutAllGone(s[1..], gone);
    }
  }

  /** `s.strip()` */
  function Strip(s: string): (r: string)
    ensures IsStripped(r)
    ensures |r| <= |s|
  {
    RStrip(LStrip(s))
  }

  /** `s.strip(c)` for one character `c`. */
  function StripChar(s: string, c: char): (r: string)
    ensures |r| <= |s|
    ensures r == [] || (r[0] != c && r[|r| - 1] != c)
  {
    if s != [] && s[0] == c then StripChar(s[1..], c)
    else if s != [] && s[|s| - 1] == c then StripChar(s[..|s| - 1], c)
    else s
  }

  /** ASCII `upper()`; non-ASCII characters are left alone. */
  function UpperChar(c: char): char {
    if 'a' <= c <= 'z' then (c as int - 32) as char else c
  }

  function Upper(s: string): (r: string)
    ensures |r| == |s|
    ensures forall i :: 0 <= i < |s| ==> r[i] == UpperChar(s[i])
  {
    if s == [] then [] else [UpperChar(s[0])] + Upper(s[1..])
  }

  /** Index of the first occurrence of `c` in `s`, or `|s|` when there is none. */
  function IndexOf(s: string, c: char): (i: nat)
    ensures i <= |s|
    ensures i < |s| ==> s[i] == c
    ensures forall k :: 0 <= k < i ==> s[k] != c
    ensures i == |s| <==> c !in s
  {
    if s == [] then 0 else if s[0] == c then 0 else 1 + IndexOf(s[1..], c)
  }

  /** The characters at which Python's `str.splitlines()` breaks a line. */
  predicate IsLineBreak(c: char) {
    || c == '\n' || c == '\r' || c == '\U{0b}' || c == '\U{0c}'
    || c == '\U{1c}' || c == '\U{1d}' || c == '\U{1e}'
    || c == '\U{85}' || c == '\U{2028}' || c == '\U{2029}'
  }

  /** Index of the first line-break character of `s`, or `|s|`. */
  function LineEnd(s: string): (i: nat)
    ensures i <= |s|
    ensures i < |s| ==> IsLineBreak(s[i])
    ensures forall k :: 0 <= k < i ==> !IsLineBreak(s[k])
  {
    if s == [] then 0 else if IsLineBreak(s[0]) then 0 else 1 + LineEnd(s[1..])
  }

  /**
   * `s.splitlines()`: lines without their terminators; "\r\n" is one
   * terminator; a final terminator does not start an extra empty line.
   */
  function SplitLines(s: string): (lines: seq<string>)
    ensures s == [] <==> lines == []
    ensures forall i :: 0 <= i < |lines| ==> forall k :: 0 <= k < |lines[i]| ==> !IsLineBreak(lines[i][k])
    decreases |s|
  {
    if s == [] then []
    else
      var i := LineEnd(s);
      if i == |s| then [s]
      else
        var next := if s[i] == '\r' && i + 1 < |s| && s[i + 1] == '\n' then i + 2 else i + 1;
        [s[..i]] + SplitLines(s[next..])
  }

  /** Text whose only line-break character is `\n` and which does not end with it. */
  predicate NewlineText(s: string) {
    && (forall k :: 0 <= k < |s| && IsLineBreak(s[k]) ==> s[k] == '\n')
    && (s != [] ==> s[|s| - 1] != '\n')
  }

  /** A `\n` that is not the last character ends the first line. */
  lemma SplitLinesCons(s: string, i: nat)
    requires i == LineEnd(s) && i + 1 < |s| && s[i] == '\n'
    ensures SplitLines(s) == [s[..i]] + SplitLines(s[i + 1..])
    ensures SplitLines(s[i + 1..]) != []
  {
  }

  /** An element of `e` read through a sequence that starts with `p + e`. */
  lemma PrefixAt<T>(cs: seq<T>, q: seq<T>, p: seq<T>, e: seq<T>, i: nat)
    requires |q| <= |cs| && cs[..|q|] == q && q == p + e && i < |e|
    ensures cs[|p| + i] == e[i]
  {
    assert cs[|p| + i] == cs[..|q|][|p| + i];
  }

  /** A prefix of a prefix. */
  lemma PrefixOfPrefix<T>(cs: seq<T>, q: seq<T>, p: seq<T>, e: seq<T>)
    requires |q| <= |cs| && cs[..|q|] == q && q == p + e
    ensures |p| <= |cs| && cs[..|p|] == p
  {
    assert cs[..|p|] == cs[..|q|][..|p|];
  }

  /** Concatenation is associative. */
  lemma AppendAssoc<T>(x: seq<T>, y: seq<T>, z: seq<T>)
    ensures x + (y + z) == (x + y) + z
  {
  }

  /** A sequence is its prefix, one element and its suffix. */
  lemma SplitAround<T>(s: seq<T>, i: nat)
    requires i < |s|
    ensures s == s[..i] + [s[i]] + s[i + 1..]
  {
  }

  /** Joining a list with a head. */
  lemma JoinCons(x: string, parts: seq<string>, sep: string)
    requires parts != []
    ensures Join([x] + parts, sep) == x + sep + Join(parts, sep)
  {
    assert ([x] + parts)[1..] == parts;
  }

  /** A non-empty suffix of such text is such text. */
  lemma NewlineTextDrop(s: string, n: nat)
    requires NewlineText(s) && n < |s|
    ensures NewlineText(s[n..])
  {
    var rest := s[n..];
    forall k | 0 <= k < |rest| && IsLineBreak(rest[k]) ensures rest[k] == '\n' {
      assert rest[k] == s[n + k];
    }
  }

  /**
   * On such text, `"\n".join(s.splitlines())` gives the text back.
   */
  lemma {:induction false} SplitLinesRejoin(s: string)
    requires NewlineText(s)
    ensures Join(SplitLines(s), "\n") == s
    decreases |s|
  {
    if s != [] {
      var i := SplitLinesFirst(s);
      if i < |s| {
        SplitLinesNewline(s, i);
        NewlineTextDrop(s, i + 1);
        SplitLinesRejoin(s[i + 1..]);
        SplitAround(s, i);
      }
    }
  }

  /** The first line of such text, and the text after its `\n`. */
  lemma SplitLinesFirst(s: string) returns (i: nat)
    requires s != [] && NewlineText(s)
    ensures i <= |s|
    ensures i == |s| ==> SplitLines(s) == [s]
    ensures i < |s| ==> i + 1 < |s| && s[i] == '\n' && i == LineEnd(s)
  {
    i := LineEnd(s);
    if i < |s| {
      assert s[i] == '\n';
    }
  }

  /** Hence the join of the lines is the first line, `\n`, and the join of the rest. */
  lemma SplitLinesNewline(s: string, i: nat)
    requires i + 1 < |s| && s[i] == '\n' && i == LineEnd(s)
    ensures Join(SplitLines(s), "\n") == s[..i] + "\n" + Join(SplitLines(s[i + 1..]), "\n")
  {
    SplitLinesCons(s, i);
    JoinCons(s[..i], SplitLines(s[i + 1..]), "\n");
  }

  /** `sep.join(parts)` */
  function Join(parts: seq<string>, sep: string): (r: string)
    ensures parts == [] ==> r == []
    ensures |parts| == 1 ==> r == parts[0]
  {
    if parts == [] then []
    else if |parts| == 1 then parts[0]
    else parts[0] + sep + Join(parts[1..], sep)
  }

  /** Joining two non-empty lists is joining their joins. */
  lemma {:induction false} JoinAppend(a: seq<string>, b: seq<string>, sep: string)
    requires a != [] && b != []
    ensures Join(a + b, sep) == Join(a, sep) + sep + Join(b, sep)
    decreases |a|
  {
    if |a| == 1 {
      assert (a + b)[1..] == b;
    } else {
      assert (a + b)[1..] == a[1..] + b;
      JoinAppend(a[1..], b, sep);
    }
  }

  lemma {:induction false} JoinSnoc(a: seq<string>, x: string, sep: string)
    requires a != []
    ensures Join(a + [x], sep) == Join(a, sep) + sep + x
  {
    JoinAppend(a, [x], sep);
  }

  /** A non-empty sequence is its prefix followed by its last element. */
  lemma SnocSplit<T>(s: seq<T>)
    requires s != []
    ensures s == s[..|s| - 1] + [s[|s| - 1]]
  {
  }

  /** Slices of `s + [x]` that start inside `s`. */
  lemma SnocSlices<T>(s: seq<T>, x: T, a: nat)
    requires a <= |s|
    ensures (s + [x])[..|s|] == s
    ensures (s + [x])[a..] == s[a..] + [x]
  {
  }

  /** Prefixes grow one element at a time. */
  lemma TakeSnoc<T>(s: seq<T>, i: nat)
    requires i < |s|
    ensures s[..i + 1] == s[..i] + [s[i]]
  {
  }

  /** `a` can be obtained from `b` by deleting characters. */
  predicate IsSubsequence(a: string, b: string)
    decreases |b|
  {
    a == [] || (b != [] && ((a[0] == b[0] && IsSubsequence(a[1..], b[1..])) || IsSubsequence(a, b[1..])))
  }

  lemma {:induction false} SubsequenceRefl(a: string)
    ensures IsSubsequence(a, a)
    decreases |a|
  {
    if a != [] {
      SubsequenceRefl(a[1..]);
    }
  }

  /** Inserting text in front of the larger string keeps the relation. */
  lemma {:induction false} SubsequenceInsert(a: string, x: string, b: string)
    requires IsSubsequence(a, b)
    ensures IsSubsequence(a, x + b)
    decreases |x|
  {
    if x != [] {
      SubsequenceInsert(a, x[1..], b);
      assert (x + b)[1..] == x[1..] + b;
      assert a == [] || IsSubsequence(a, (x + b)[1..]);
    } else {
      assert x + b == b;
    }
  }

  /** A common prefix keeps the relation. */
  lemma {:induction false} SubsequencePrefix(c: string, a: string, b: string)
    requires IsSubsequence(a, b)
    ensures IsSubsequence(c + a, c + b)
    decreases |c|
  {
    if c != [] {
      SubsequencePrefix(c[1..], a, b);
      assert (c + a)[1..] == c[1..] + a;
      assert (c + b)[1..] == c[1..] + b;
      assert (c + a)[0] == (c + b)[0];
    } else {
      assert c + a == a && c + b == b;
    }
  }

  lemma {:induction false} SubsequenceTrans(a: string, b: string, c: string)
    requires IsSubsequence(a, b) && IsSubsequence(b, c)
    ensures IsSubsequence(a, c)
    decreases |c|
  {
    if a != [] {
      if b[0] == c[0] && IsSubsequence(b[1..], c[1..]) {
        if a[0] == b[0] && IsSubsequence(a[1..], b[1..]) {
          SubsequenceTrans(a[1..], b[1..], c[1..]);
        } else {
          SubsequenceTrans(a, b[1..], c[1..]);
        }
      } else {
        SubsequenceTrans(a, b, c[1..]);
      }
    }
  }

  /** Dropping the first character of the smaller string keeps the relation. */
  lemma {:induction false} SubsequenceTail(a: string, b: string)
    requires a != [] && IsSubsequence(a, b)
    ensures IsSubsequence(a[1..], b)
    decreases |b|
  {
    if !(a[0] == b[0] && IsSubsequence(a[1..], b[1..])) {
      SubsequenceTail(a, b[1..]);
    }
    SubsequenceInsert(a[1..], b[..1], b[1..]);
    assert b[..1] + b[1..] == b;
  }

  /** A common prefix can be cancelled. */
  lemma {:induction false} SubsequenceCancel(c: string, a: string, b: string)
    requires IsSubsequence(c + a, c + b)
    ensures IsSubsequence(a, b)
    decreases |c|
  {
    if c == [] {
      assert c + a == a && c + b == b;
    } else {
      var x, y := c + a, c + b;
      assert x[1..] == c[1..] + a && y[1..] == c[1..] + b;
      if !(x[0] == y[0] && IsSubsequence(x[1..], y[1..])) {
        SubsequenceTail(x, y[1..]);
      }
      SubsequenceCancel(c[1..], a, b);
    }
  }

  /** Every suffix of `s` is a subsequence of it. */
  lemma {:induction false} SubsequenceOfSuffix(s: string, k: nat)
    requires k <= |s|
    ensures IsSubsequence(s[k..], s)
  {
    SubsequenceRefl(s[k..]);
    SubsequenceInsert(s[k..], s[..k], s[k..]);
    assert s[..k] + s[k..] == s;
  }

  /** Leading characters of `b` that differ from the first of `a` are not needed. */
  lemma {:induction false} SubsequenceDropFront(a: string, b: string, k: nat)
    requires IsSubsequence(a, b) && k <= |b|
    requires a == [] || forall i :: 0 <= i < k ==> b[i] != a[0]
    ensures IsSubsequence(a, b[k..])
    decreases k
  {
    if k > 0 {
      SubsequenceDropFront(a, b[1..], k - 1);
      assert b[1..][k - 1..] == b[k..];
    }
  }

  /** The last character of a non-empty subsequence occurs in the larger string. */
  lemma {:induction false} SubsequenceLast(a: string, b: string) returns (i: nat)
    requires a != [] && IsSubsequence(a, b)
    ensures i < |b| && b[i] == a[|a| - 1]
    decreases |b|
  {
    if a[0] == b[0] && IsSubsequence(a[1..], b[1..]) {
      if |a| == 1 {
        i := 0;
      } else {
        var j := SubsequenceLast(a[1..], b[1..]);
        i := j + 1;
      }
    } else {
      var j := SubsequenceLast(a, b[1..]);
      i := j + 1;
    }
  }

  /** Trailing characters of `b` that differ from the last of `a` are not needed. */
  lemma {:induction false} SubsequenceDropBack(a: string, b: string, k: nat)
    requires IsSubsequence(a, b) && k <= |b|
    requires a == [] || forall i :: k <= i < |b| ==> b[i] != a[|a| - 1]
    ensures IsSubsequence(a, b[..k])
    decreases |b|
  {
    if a != [] {
      if k == 0 {
        var i := SubsequenceLast(a, b);
        assert false;
      }
      assert b[..k][1..] == b[1..][..k - 1];
      if a[0] == b[0] && IsSubsequence(a[1..], b[1..]) {
        SubsequenceDropBack(a[1..], b[1..], k - 1);
      } else {
        SubsequenceDropBack(a, b[1..], k - 1);
      }
    }
  }

  /** A stripped string inside `b` is inside `b.strip()`. */
  lemma {:induction false} SubsequenceStrip(a: string, b: string)
    requires IsSubsequence(a, b) && IsStripped(a)
    ensures IsSubsequence(a, Strip(b))
  {
    SpacesFromAreSpace(b, 0);
    SubsequenceDropFront(a, b, SpacesFrom(b, 0));
    TrailingSpaceAreSpace(LStrip(b));
    SubsequenceDropBack(a, LStrip(b), TrailingSpace(LStrip(b)));
  }

  /** `lstrip` on both sides keeps the relation. */
  lemma {:induction false} SubsequenceLStrip(a: string, b: string)
    requires IsSubsequence(a, b)
    ensures IsSubsequence(LStrip(a), LStrip(b))
  {
    SubsequenceOfSuffix(a, SpacesFrom(a, 0));
    SubsequenceTrans(LStrip(a), a, b);
    SpacesFromAreSpace(b, 0);
    SubsequenceDropFront(LStrip(a), b, SpacesFrom(b, 0));
  }

  /** Only all-whitespace strings strip to nothing. */
  lemma StripEmpty(s: string)
    ensures Strip(s) == [] <==> AllSpace(s)
  {
    var n := SpacesFrom(s, 0);
    SpacesFromAreSpace(s, 0);
    if AllSpace(s) {
      SpacesFromIs(s, 0, |s|);
    } else {
      assert n < |s| && LStrip(s)[0] == s[n];
      TrailingSpaceAreSpace(LStrip(s));
    }
  }

  /** `s` is its leading whitespace, `s.strip()` and its trailing whitespace. */
  lemma StripParts(s: string)
    ensures var a := |s| - |LStrip(s)|;
      && a + |Strip(s)| <= |s|
      && s[a..a + |Strip(s)|] == Strip(s)
      && AllSpace(s[..a]) && AllSpace(s[a + |Strip(s)|..])
      && (s != [] && IsSpace(s[0]) ==> a > 0)
  {
    StripMiddle(s);
    StripEnds(s);
  }

  lemma StripMiddle(s: string)
    ensures var a := |s| - |LStrip(s)|;
      && a + |Strip(s)| <= |s|
      && s[a..a + |Strip(s)|] == Strip(s)
  {
  }

  lemma StripEnds(s: string)
    ensures var a := |s| - |LStrip(s)|;
      && AllSpace(s[..a]) && AllSpace(s[a + |Strip(s)|..])
  {
    var a := SpacesFrom(s, 0);
    SpacesFromAreSpace(s, 0);
    var l := s[a..];
    var t := TrailingSpace(l);
    TrailingSpaceAreSpace(l);
    forall i | 0 <= i < a ensures IsSpace(s[..a][i]) {
      assert s[..a][i] == s[i];
    }
    var rest := s[a + t..];
    forall i | 0 <= i < |rest| ensures IsSpace(rest[i]) {
      assert rest[i] == l[t + i];
    }
  }

  /** `strip` only removes characters. */
  lemma StripSlice(s: string)
    ensures forall c :: c in Strip(s) ==> c in s
  {
    var r := Strip(s);
    var a := SpacesFrom(s, 0);
    forall c | c in r ensures c in s {
      var i :| 0 <= i < |r| && r[i] == c;
      assert s[a + i] == c;
    }
  }

  /** Stripping a stripped string changes nothing. */
  lemma StripStripped(s: string)
    requires IsStripped(s)
    ensures Strip(s) == s
  {
    if s != [] {
      SpacesFromIs(s, 0, 0);
      TrailingSpaceIs(s, |s|);
    }
  }

  /** Whitespace around `g` does not change what `g.strip()` gives. */
  lemma StripSurrounded(w: string, g: string, w2: string)
    requires AllSpace(w) && AllSpace(w2)
    ensures Strip(w + g + w2) == Strip(g)
  {
    assert w + g + w2 == w + (g + w2);
    LStripSpacePrefix(w, g + w2);
    LStripAppend(g, w2);
    if LStrip(g) != [] {
      RStripSpaceSuffix(LStrip(g), w2);
    } else {
      AllSpaceLStrip(w2);
    }
  }

  lemma LStripSpacePrefix(w: string, s: string)
    requires AllSpace(w)
    ensures LStrip(w + s) == LStrip(s)
  {
    var n := SpacesFrom(s, 0);
    SpacesFromAreSpace(s, 0);
    SpacesFromIs(w + s, 0, |w| + n);
    assert (w + s)[|w| + n..] == s[n..];
  }

  lemma RStripSpaceSuffix(s: string, w: string)
    requires AllSpace(w)
    ensures RStrip(s + w) == RStrip(s)
  {
    var n := TrailingSpace(s);
    TrailingSpaceAreSpace(s);
    TrailingSpaceIs(s + w, n);
    assert (s + w)[..n] == s[..n];
  }

  lemma AllSpaceLStrip(s: string)
    requires AllSpace(s)
    ensures LStrip(s) == []
  {
    SpacesFromIs(s, 0, |s|);
  }

  /** When `a` has something besides whitespace, `lstrip` leaves the tail `c` alone. */
  lemma LStripAppend(a: string, c: string)
    ensures LStrip(a) != [] ==> LStrip(a + c) == LStrip(a) + c
    ensures LStrip(a) == [] ==> LStrip(a + c) == LStrip(c)
  {
    var n := SpacesFrom(a, 0);
    SpacesFromAreSpace(a, 0);
    if n < |a| {
      SpacesFromIs(a + c, 0, n);
      assert (a + c)[n..] == a[n..] + c;
    } else {
      LStripSpacePrefix(a, c);
    }
  }
}
