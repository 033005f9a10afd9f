/**
 * `re.split` for the two delimiter patterns the chunker splits on:
 * `\n\n+` (paragraph breaks) and `\n###\s+` (subsection marker lines).
 * Both are greedy, never match the empty string, and are searched left to
 * right from the end of the previous match.
 */
module Splitting {
  import opened Strings

  datatype Delimiter =
    | ParagraphBreak    // \n\n+
    | SubsectionMarker  // \n###\s+

  /** The strings each delimiter pattern matches. */
  predicate IsDelimiter(d: Delimiter, t: string) {
    match d
    case ParagraphBreak => |t| >= 2 && forall i :: 0 <= i < |t| ==> t[i] == '\n'
    case SubsectionMarker => |t| >= 5 && t[..4] == "\n###" && AllSpace(t[4..])
  }

  /** Number of newlines in the run that starts at `i`. */
  function NewlinesFrom(s: string, i: nat): (k: nat)
    requires i <= |s|
    ensures i + k <= |s|
    ensures forall j :: i <= j < i + k ==> s[j] == '\n'
    ensures i + k < |s| ==> s[i + k] != '\n'
    decreases |s| - i
  {
    if i < |s| && s[i] == '\n' then 1 + NewlinesFrom(s, i + 1) else 0
  }

  /**
   * Length of the (greedy) match of `d` at position `q` of `s`; 0 when it
   * does not match there.
   */
  function DelimiterAt(d: Delimiter, s: string, q: nat): (n: nat)
    requires q <= |s|
    ensures q + n <= |s|
  {
    match d
    case ParagraphBreak =>
      if q + 1 < |s| && s[q] == '\n' && s[q + 1] == '\n' then NewlinesFrom(s, q) else 0
    case SubsectionMarker =>
      if q + 4 < |s| && s[q] == '\n' && s[q + 1] == '#' && s[q + 2] == '#' && s[q + 3] == '#' && IsSpace(s[q + 4])
      then 4 + SpacesFrom(s, q + 4) else 0
  }

  /** A positive result is a match of the pattern. */
  lemma {:induction false} DelimiterAtMatches(d: Delimiter, s: string, q: nat)
    requires q <= |s|
    ensures var n := DelimiterAt(d, s, q);
      n > 0 ==> IsDelimiter(d, s[q..q + n])
  {
    var n := DelimiterAt(d, s, q);
    if n > 0 {
      var t := s[q..q + n];
      assert forall j :: 0 <= j < |t| ==> t[j] == s[q + j];
      if d.SubsectionMarker? {
        SpacesFromAreSpace(s, q + 4);
        assert t[..4] == "\n###";
        assert forall j :: 0 <= j < |t[4..]| ==> t[4..][j] == s[q + 4 + j];
      }
    }
  }

  /** ... and the longest one there: both patterns end in a greedy repetition. */
  lemma {:induction false} DelimiterAtLongest(d: Delimiter, s: string, q: nat)
    requires q <= |s|
    ensures var n := DelimiterAt(d, s, q);
      0 < n && q + n < |s| ==> !IsDelimiter(d, s[q..q + n + 1])
  {
    var n := DelimiterAt(d, s, q);
    if 0 < n && q + n < |s| {
      var t := s[q..q + n + 1];
      assert t[n] == s[q + n];
      if d.SubsectionMarker? {
        assert t[4..][n - 4] == s[q + n];
      }
    }
  }

  /** First position at or after `from` where `d` matches, or `|s|`. */
  function FindDelimiter(d: Delimiter, s: string, from: nat): (q: nat)
    requires from <= |s|
    ensures from <= q <= |s|
    ensures q < |s| ==> DelimiterAt(d, s, q) > 0
    decreases |s| - from
  {
    if from == |s| then from
    else if DelimiterAt(d, s, from) > 0 then from
    else FindDelimiter(d, s, from + 1)
  }

  /** `FindDelimiter` skips no match. */
  lemma {:induction false} FindDelimiterFirst(d: Delimiter, s: string, from: nat)
    requires from <= |s|
    ensures forall p :: from <= p < FindDelimiter(d, s, from) ==> DelimiterAt(d, s, p) == 0
    decreases |s| - from
  {
    if from < |s| && DelimiterAt(d, s, from) == 0 {
      FindDelimiterFirst(d, s, from + 1);
      assert FindDelimiter(d, s, from) == FindDelimiter(d, s, from + 1);
    }
  }

  /** Where no position from `from` on matches, the search runs to the end. */
  lemma {:induction false} FindDelimiterNone(d: Delimiter, s: string, from: nat)
    requires from <= |s|
    requires forall p :: from <= p < |s| ==> DelimiterAt(d, s, p) == 0
    ensures FindDelimiter(d, s, from) == |s|
    decreases |s| - from
  {
    if from < |s| {
      FindDelimiterNone(d, s, from + 1);
    }
  }

  /**
   * The matches `re.split` cuts at, as (start, end) positions, searching
   * left to right from `from` and resuming at the end of each match.
   */
  function Matches(d: Delimiter, s: string, from: nat): (ms: seq<(nat, nat)>)
    requires from <= |s|
    decreases |s| - from
  {
    var q := FindDelimiter(d, s, from);
    if q == |s| then []
    else
      var e := q + DelimiterAt(d, s, q);
      [(q, e)] + Matches(d, s, e)
  }

  /** Matches lie inside `s[from..]`, in order, without overlapping. */
  predicate Ordered(ms: seq<(nat, nat)>, from: nat, n: nat)
    decreases |ms|
  {
    ms == [] || (from <= ms[0].0 <= ms[0].1 <= n && Ordered(ms[1..], ms[0].1, n))
  }

  /** Every listed match is a match of `d`, of the length `DelimiterAt` gives. */
  predicate AllMatch(d: Delimiter, s: string, ms: seq<(nat, nat)>) {
    forall i :: 0 <= i < |ms| ==>
      ms[i].0 < |s| && DelimiterAt(d, s, ms[i].0) > 0 && ms[i].1 == ms[i].0 + DelimiterAt(d, s, ms[i].0)
  }

  lemma MatchesOrdered(d: Delimiter, s: string, from: nat)
    requires from <= |s|
    ensures Ordered(Matches(d, s, from), from, |s|)
    ensures AllMatch(d, s, Matches(d, s, from))
  {
    MatchesInOrder(d, s, from);
    MatchesAreMatches(d, s, from);
  }

  lemma {:induction false} MatchesInOrder(d: Delimiter, s: string, from: nat)
    requires from <= |s|
    ensures Ordered(Matches(d, s, from), from, |s|)
    decreases |s| - from
  {
    var q := FindDelimiter(d, s, from);
    if q < |s| {
      var e := q + DelimiterAt(d, s, q);
      MatchesInOrder(d, s, e);
      var ms := Matches(d, s, from);
      assert ms[1..] == Matches(d, s, e);
    }
  }

  lemma {:induction false} MatchesAreMatches(d: Delimiter, s: string, from: nat)
    requires from <= |s|
    ensures AllMatch(d, s, Matches(d, s, from))
    decreases |s| - from
  {
    var q := FindDelimiter(d, s, from);
    if q < |s| {
      var e := q + DelimiterAt(d, s, q);
      MatchesAreMatches(d, s, e);
      var ms := Matches(d, s, from);
      var rest := Matches(d, s, e);
      assert ms == [(q, e)] + rest;
      forall i | 1 <= i < |ms| ensures ms[i] == rest[i - 1] {
      }
    }
  }

  /** The parts of `s[from..]` between the matches `ms`, and the matched text. */
  function Cut(s: string, from: nat, ms: seq<(nat, nat)>): (r: (seq<string>, seq<string>))
    requires from <= |s| && Ordered(ms, from, |s|)
    ensures |r.0| == |ms| + 1 && |r.1| == |ms|
    decreases |ms|
  {
    if ms == [] then ([s[from..]], [])
    else
      var rest := Cut(s, ms[0].1, ms[1..]);
      ([s[from..ms[0].0]] + rest.0, [s[ms[0].0..ms[0].1]] + rest.1)
  }

  /** `re.split(pattern, s)` together with the delimiters it cut out, in order. */
  function SplitWithDelimiters(d: Delimiter, s: string): (r: (seq<string>, seq<string>))
    ensures |r.0| == |r.1| + 1
  {
    MatchesOrdered(d, s, 0);
    Cut(s, 0, Matches(d, s, 0))
  }

  /** `re.split(pattern, s)` */
  function Split(d: Delimiter, s: string): (parts: seq<string>)
    ensures |parts| >= 1
  {
    SplitWithDelimiters(d, s).0
  }

  /** `parts[0] + delims[0] + parts[1] + ... + parts[n]` */
  function Interleave(parts: seq<string>, delims: seq<string>): string
    requires |parts| == |delims| + 1
  {
    if |parts| == 1 then parts[0] else parts[0] + delims[0] + Interleave(parts[1..], delims[1..])
  }

  lemma {:induction false} CutRejoin(s: string, from: nat, ms: seq<(nat, nat)>)
    requires from <= |s| && Ordered(ms, from, |s|)
    ensures Interleave(Cut(s, from, ms).0, Cut(s, from, ms).1) == s[from..]
    decreases |ms|
  {
    if ms != [] {
      var (q, e) := ms[0];
      CutRejoin(s, e, ms[1..]);
      assert s[from..] == s[from..q] + s[q..e] + s[e..];
    }
  }

  /**
   * Splitting loses nothing: putting the delimiters back between the parts
   * gives the input again.
   */
  lemma {:induction false} SplitRejoin(d: Delimiter, s: string)
    ensures Interleave(Split(d, s), SplitWithDelimiters(d, s).1) == s
  {
    MatchesOrdered(d, s, 0);
    CutRejoin(s, 0, Matches(d, s, 0));
  }

  /** The cut-out pieces are the matched text, in order. */
  lemma {:induction false} CutPieces(s: string, from: nat, ms: seq<(nat, nat)>)
    requires from <= |s| && Ordered(ms, from, |s|)
    ensures forall i :: 0 <= i < |ms| ==>
      ms[i].0 <= ms[i].1 <= |s| && Cut(s, from, ms).1[i] == s[ms[i].0..ms[i].1]
    decreases |ms|
  {
    if ms != [] {
      CutPieces(s, ms[0].1, ms[1..]);
      var r := Cut(s, from, ms);
      var r' := Cut(s, ms[0].1, ms[1..]);
      forall i | 0 <= i < |ms|
        ensures ms[i].0 <= ms[i].1 <= |s| && r.1[i] == s[ms[i].0..ms[i].1]
      {
        if i > 0 {
          assert ms[i] == ms[1..][i - 1] && r.1[i] == r'.1[i - 1];
        }
      }
    }
  }

  /** The text of every listed match is a match of the pattern. */
  lemma {:induction false} MatchedText(d: Delimiter, s: string, ms: seq<(nat, nat)>)
    requires AllMatch(d, s, ms)
    ensures forall i :: 0 <= i < |ms| ==> ms[i].0 <= ms[i].1 <= |s| && IsDelimiter(d, s[ms[i].0..ms[i].1])
  {
    forall i | 0 <= i < |ms| ensures ms[i].0 <= ms[i].1 <= |s| && IsDelimiter(d, s[ms[i].0..ms[i].1]) {
      DelimiterAtMatches(d, s, ms[i].0);
    }
  }

  /** Every piece cut out between two parts is a match of the delimiter pattern. */
  lemma {:induction false} SplitDelimitersMatch(d: Delimiter, s: string)
    ensures forall t :: t in SplitWithDelimiters(d, s).1 ==> IsDelimiter(d, t)
  {
    var ms := Matches(d, s, 0);
    MatchesOrdered(d, s, 0);
    CutPieces(s, 0, ms);
    MatchedText(d, s, ms);
    var ts := SplitWithDelimiters(d, s).1;
    assert forall i :: 0 <= i < |ts| ==> IsDelimiter(d, ts[i]);
  }

  /** Without a match anywhere, the split is the whole input. */
  lemma {:induction false} NoDelimiterNoSplit(d: Delimiter, s: string)
    requires forall p :: 0 <= p < |s| ==> DelimiterAt(d, s, p) == 0
    ensures Split(d, s) == [s]
  {
    FindDelimiterNone(d, s, 0);
    assert s[0..] == s;
  }

  /** Every part after the first is empty or starts with a non-whitespace character. */
  predicate LaterPartsSolid(ps: seq<string>) {
    forall i :: 1 <= i < |ps| ==> ps[i] == [] || !IsSpace(ps[i][0])
  }

  /** Each part after the first begins where a match ends. */
  lemma {:induction false} CutPartsStart(s: string, from: nat, ms: seq<(nat, nat)>)
    requires from <= |s| && Ordered(ms, from, |s|)
    ensures forall i :: 0 <= i < |ms| ==>
      var p := Cut(s, from, ms).0[i + 1];
      ms[i].1 <= |s| && (p == [] || (ms[i].1 < |s| && p[0] == s[ms[i].1]))
    decreases |ms|
  {
    if ms != [] {
      CutPartsStart(s, ms[0].1, ms[1..]);
      var r := Cut(s, from, ms);
      var r' := Cut(s, ms[0].1, ms[1..]);
      forall i | 0 <= i < |ms|
        ensures ms[i].1 <= |s| && (r.0[i + 1] == [] || (ms[i].1 < |s| && r.0[i + 1][0] == s[ms[i].1]))
      {
        if i > 0 {
          assert ms[i] == ms[1..][i - 1] && r.0[i + 1] == r'.0[i];
        } else {
          assert r.0[1] == r'.0[0];
        }
      }
    }
  }

  /**
   * A subsection marker swallows all whitespace after `###`, so every part
   * after the first is empty or starts with a non-whitespace character.
   */
  lemma {:induction false} MarkerPartsStartSolid(s: string)
    ensures LaterPartsSolid(Split(SubsectionMarker, s))
  {
    var d := SubsectionMarker;
    var ms := Matches(d, s, 0);
    MatchesOrdered(d, s, 0);
    CutPartsStart(s, 0, ms);
    var ps := Split(d, s);
    forall i | 1 <= i < |ps| ensures ps[i] == [] || !IsSpace(ps[i][0]) {
      MarkerRestSolid(s, ms[i - 1].0);
    }
  }

  /** After a greedy marker match the text goes on with a non-whitespace character. */
  lemma {:induction false} MarkerRestSolid(s: string, q: nat)
    requires q <= |s| && DelimiterAt(SubsectionMarker, s, q) > 0
    ensures var e := q + DelimiterAt(SubsectionMarker, s, q);
      e == |s| || !IsSpace(s[e])
  {
  }
}
