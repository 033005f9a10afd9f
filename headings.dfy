/**
 * `add_subsection_markers`: inject `### <heading>` marker lines into the
 * DESCRIPTION text so that later chunking can follow the document's own
 * structure. Two passes exist: bracket headings `【…】` at the start of a line
 * (Japanese and Chinese documents) and an ordered table of English heading
 * phrases, each of which receives at most one marker.
 */
module Headings {
  import opened Strings
  import opened Whitespace

  const OpenBracket: char := '\U{3010}'   // 【
  const CloseBracket: char := '\U{3011}'  // 】

  /** The marker line put in front of a heading. */
  function MarkerLine(title: string): string {
    "\n### " + title + "\n"
  }

  // ---------------------------------------------------------------------
  // Bracket headings: re.sub(r"(^|\n)(【[^】]{1,60}】)", r"\n### \2\n", text)
  // ---------------------------------------------------------------------

  /** A `【[^】]{1,60}】` match of length `n` at the start of `s`. */
  predicate BracketMatch(s: string, n: int) {
    3 <= n <= 62 && n <= |s| && s[0] == OpenBracket && s[n - 1] == CloseBracket &&
    CloseBracket !in s[1..n - 1]
  }

  /** Length of the bracket heading that starts `s`, or 0 when none does. */
  function BracketAt(s: string): (n: nat)
    ensures n <= |s|
    ensures n > 0 ==> BracketMatch(s, n)
  {
    if |s| >= 3 && s[0] == OpenBracket then
      var k := IndexOf(s[1..], CloseBracket);
      if 1 <= k <= 60 && k < |s| - 1 then
        assert s[1..k + 1] == s[1..][..k];
        k + 2
      else 0
    else 0
  }

  /**
   * The bracket pattern has at most one match at a position, because the
   * content cannot hold the closing bracket, and `BracketAt` finds it.
   */
  lemma {:induction false} BracketAtComplete(s: string, n: int)
    requires BracketMatch(s, n)
    ensures BracketAt(s) == n
  {
    var k := IndexOf(s[1..], CloseBracket);
    assert s[1..][n - 2] == CloseBracket;
    assert s[1..n - 1] == s[1..][..n - 2];
  }

  /**
   * The bracket pass. `atStart` is true at the beginning of the text, where
   * `^` matches; elsewhere a heading must follow a newline, which the
   * replacement consumes.
   */
  function Promote(s: string, atStart: bool): (r: string)
    decreases |s|
  {
    if s == [] then []
    else if atStart && BracketAt(s) > 0 then
      var n := BracketAt(s);
      "\n### " + s[..n] + "\n" + Promote(s[n..], false)
    else if s[0] == '\n' && BracketAt(s[1..]) > 0 then
      var n := BracketAt(s[1..]);
      "\n### " + s[1..n + 1] + "\n" + Promote(s[n + 1..], false)
    else
      [s[0]] + Promote(s[1..], false)
  }

  /** The bracket pass only inserts characters. */
  lemma {:induction false} PromoteLossless(s: string, atStart: bool)
    ensures IsSubsequence(s, Promote(s, atStart))
    decreases |s|
  {
    if s == [] {
    } else if atStart && BracketAt(s) > 0 {
      var n := BracketAt(s);
      PromoteLossless(s[n..], false);
      PromoteAtStart(s, n);
      HeadingLineLossless(s[..n], s[n..], Promote(s[n..], false));
    } else if s[0] == '\n' && BracketAt(s[1..]) > 0 {
      var n := BracketAt(s[1..]);
      PromoteLossless(s[n + 1..], false);
      PromoteAfterNewline(s, n);
      MarkerLineLossless(s[1..n + 1], s[n + 1..], Promote(s[n + 1..], false));
    } else {
      PromoteLossless(s[1..], false);
      PromoteKeeps(s, atStart);
      SubsequencePrefix([s[0]], s[1..], Promote(s[1..], false));
    }
  }

  lemma {:induction false} PromoteAtStart(s: string, n: nat)
    requires n <= |s| && BracketAt(s) == n > 0
    ensures s == s[..n] + s[n..]
    ensures Promote(s, true) == "\n### " + s[..n] + "\n" + Promote(s[n..], false)
  {
  }

  lemma {:induction false} PromoteKeeps(s: string, atStart: bool)
    requires s != [] && !(atStart && BracketAt(s) > 0)
    requires !(s[0] == '\n' && BracketAt(s[1..]) > 0)
    ensures s == [s[0]] + s[1..]
    ensures Promote(s, atStart) == [s[0]] + Promote(s[1..], false)
  {
  }

  /** Marking a heading at the very start keeps every character. */
  lemma {:induction false} HeadingLineLossless(h: string, tail: string, rest: string)
    requires IsSubsequence(tail, rest)
    ensures IsSubsequence(h + tail, "\n### " + h + "\n" + rest)
  {
    SubsequenceInsert(tail, "\n", rest);
    SubsequencePrefix(h, tail, "\n" + rest);
    SubsequenceInsert(h + tail, "\n### ", h + ("\n" + rest));
    assert "\n### " + (h + ("\n" + rest)) == "\n### " + h + "\n" + rest;
  }

  lemma {:induction false} PromoteAfterNewline(s: string, n: nat)
    requires 1 + n <= |s| && s[0] == '\n' && BracketAt(s[1..]) == n > 0
    ensures s == "\n" + s[1..n + 1] + s[n + 1..]
    ensures Promote(s, false) == "\n### " + s[1..n + 1] + "\n" + Promote(s[n + 1..], false)
  {
  }

  /** Turning `\n` + heading into a marker line keeps every character. */
  lemma {:induction false} MarkerLineLossless(h: string, tail: string, rest: string)
    requires IsSubsequence(tail, rest)
    ensures IsSubsequence("\n" + h + tail, "\n### " + h + "\n" + rest)
  {
    SubsequenceInsert(tail, "\n", rest);
    SubsequencePrefix(h, tail, "\n" + rest);
    SubsequenceInsert(h + tail, "### ", h + ("\n" + rest));
    SubsequencePrefix("\n", h + tail, "### " + (h + ("\n" + rest)));
    assert "\n" + (h + tail) == "\n" + h + tail;
    assert "\n" + ("### " + (h + ("\n" + rest))) == "\n### " + h + "\n" + rest;
  }

  /** Text without an opening bracket passes through unchanged. */
  lemma {:induction false} PromoteNoBrackets(s: string, atStart: bool)
    requires OpenBracket !in s
    ensures Promote(s, atStart) == s
    decreases |s|
  {
    if s != [] {
      assert s[0] != OpenBracket;
      assert |s| >= 2 ==> s[1] != OpenBracket;
      PromoteNoBrackets(s[1..], false);
    }
  }

  /**
   * A heading at the very start or right after a newline becomes a marker
   * line of its own, and the rest of its line moves to the next line.
   */
  lemma {:induction false} PromoteHeadingLine(h: string, rest: string, atStart: bool)
    requires BracketAt(h + rest) == |h| > 0
    ensures Promote(h + rest, true) == MarkerLine(h) + Promote(rest, false)
    ensures Promote("\n" + h + rest, atStart) == MarkerLine(h) + Promote(rest, false)
  {
    var s := h + rest;
    assert s[..|h|] == h && s[|h|..] == rest;
    var t := "\n" + h + rest;
    assert t[1..] == s;
    assert t[1..|h| + 1] == h && t[|h| + 1..] == rest;
    assert BracketAt(t) == 0;
  }

  // ---------------------------------------------------------------------
  // English heading table:
  //   re.sub(rf"(?i)(?<!\n###\s)({pat})\b", marker + match, text, count=1)
  // ---------------------------------------------------------------------

  /**
   * One row of the heading table: the literal phrases its pattern
   * matches (its alternatives written out, upper case) and its label.
   */
  datatype Heading = Heading(forms: seq<string>, title: string)

  /** The table, in the order the patterns are applied. */
  const HeadingTable: seq<Heading> := [
    Heading(["CROSS-REFERENCE TO RELATED APPLICATIONS", "CROSS REFERENCE TO RELATED APPLICATIONS"],
            "CROSS-REFERENCE TO RELATED APPLICATIONS"),
    Heading(["FIELD OF THE INVENTION"], "FIELD OF THE INVENTION"),
    Heading(["TECHNICAL FIELD"], "TECHNICAL FIELD"),
    Heading(["BACKGROUND OF THE INVENTION", "BACKGROUND OF THE PRESENT INVENTION", "BACKGROUND"],
            "BACKGROUND"),
    Heading(["BACKGROUND TECHNOLOGY"], "BACKGROUND TECHNOLOGY"),
    Heading(["SUMMARY OF THE INVENTION", "SUMMARY OF THE PRESENT INVENTION", "SUMMARY"], "SUMMARY"),
    Heading(["BRIEF DESCRIPTION OF THE DRAWINGS"], "BRIEF DESCRIPTION OF THE DRAWINGS"),
    Heading(["DESCRIPTION OF THE DRAWINGS"], "DESCRIPTION OF THE DRAWINGS"),
    Heading(["DETAILED DESCRIPTION OF THE INVENTION", "DETAILED DESCRIPTION OF INVENTION",
             "DETAILED DESCRIPTION"], "DETAILED DESCRIPTION"),
    Heading(["THE CONTENT OF THE INVENTION"], "THE CONTENT OF THE INVENTION"),
    Heading(["DESCRIPTION OF EMBODIMENTS"], "DESCRIPTION OF EMBODIMENTS")
  ]

  /**
   * `\w`: ASCII letters, digits and `_`, and the non-ASCII characters
   * outside whitespace and the common punctuation and symbol blocks.
   */
  predicate IsWordChar(c: char) {
    || ('0' <= c <= '9') || ('A' <= c <= 'Z') || ('a' <= c <= 'z') || c == '_'
    || (c > '\U{7f}' && !IsSpace(c) && !('\U{80}' <= c <= '\U{bf}')
        && !('\U{2000}' <= c <= '\U{2bff}') && !('\U{3000}' <= c <= '\U{303f}')
        && !('\U{ff00}' <= c <= '\U{ff0f}'))
  }

  /** `(?<!\n###\s)` fails at `p`: the five characters before are a marker start. */
  predicate AfterMarker(s: string, p: nat)
    requires p <= |s|
  {
    p >= 5 && s[p - 5..p - 1] == "\n###" && IsSpace(s[p - 1])
  }

  /** Phrase `f` occurs at `p`, ignoring ASCII case, and ends at a word boundary. */
  predicate FormAt(f: string, s: string, p: nat) {
    p + |f| <= |s| && Upper(s[p..p + |f|]) == f &&
    (p + |f| == |s| || !IsWordChar(s[p + |f|]))
  }

  /** The pattern of `h` matches at `p`. */
  predicate MatchesAt(h: Heading, s: string, p: nat)
    requires p <= |s|
  {
    !AfterMarker(s, p) && exists i :: 0 <= i < |h.forms| && FormAt(h.forms[i], s, p)
  }

  predicate NoMatch(h: Heading, s: string) {
    forall p: nat :: p <= |s| ==> !MatchesAt(h, s, p)
  }

  /** First position at or after `from` where the pattern matches, or `|s| + 1`. */
  function FirstMatch(h: Heading, s: string, from: nat): (q: nat)
    requires from <= |s| + 1
    ensures from <= q <= |s| + 1
    ensures q <= |s| ==> MatchesAt(h, s, q)
    ensures forall p: nat :: from <= p < q && p <= |s| ==> !MatchesAt(h, s, p)
    decreases |s| + 1 - from
  {
    if from == |s| + 1 then from
    else if MatchesAt(h, s, from) then from
    else FirstMatch(h, s, from + 1)
  }

  /**
   * One row applied with `count=1`: the marker goes in front of the
   * leftmost match and nothing else changes. The match itself is kept:
   * every phrase starts and ends with a letter, so stripping it is a no-op.
   */
  function InsertHeading(h: Heading, s: string): (r: string)
    ensures NoMatch(h, s) ==> r == s
    ensures !NoMatch(h, s) ==>
      exists p: nat :: p <= |s| && MatchesAt(h, s, p) &&
        (forall q: nat :: q < p ==> !MatchesAt(h, s, q)) &&
        r == s[..p] + MarkerLine(h.title) + s[p..]
  {
    var q := FirstMatch(h, s, 0);
    if q <= |s| then s[..q] + MarkerLine(h.title) + s[q..] else s
  }

  /** A row inserts one marker line at most, and keeps every character of the text. */
  lemma {:induction false} InsertHeadingLossless(h: Heading, s: string)
    ensures IsSubsequence(s, InsertHeading(h, s))
    ensures |InsertHeading(h, s)| <= |s| + |MarkerLine(h.title)|
  {
    var q := FirstMatch(h, s, 0);
    if q <= |s| {
      InsertionLossless(s[..q], MarkerLine(h.title), s[q..]);
      assert s[..q] + s[q..] == s;
    } else {
      SubsequenceRefl(s);
    }
  }

  lemma {:induction false} InsertionLossless(a: string, m: string, b: string)
    ensures IsSubsequence(a + b, a + m + b)
  {
    SubsequenceRefl(b);
    SubsequenceInsert(b, m, b);
    SubsequencePrefix(a, b, m + b);
    assert a + (m + b) == a + m + b;
  }

  /** The rows applied in table order. */
  function ApplyHeadings(table: seq<Heading>, s: string): (r: string)
  {
    if table == [] then s else InsertHeading(table[|table| - 1], ApplyHeadings(table[..|table| - 1], s))
  }

  /** The whole table only inserts characters. */
  lemma {:induction false} ApplyHeadingsLossless(table: seq<Heading>, s: string)
    ensures IsSubsequence(s, ApplyHeadings(table, s))
  {
    if table == [] {
      SubsequenceRefl(s);
    } else {
      var mid := ApplyHeadings(table[..|table| - 1], s);
      ApplyHeadingsLossless(table[..|table| - 1], s);
      InsertHeadingLossless(table[|table| - 1], mid);
      SubsequenceTrans(s, mid, ApplyHeadings(table, s));
    }
  }

  /** A text that no row matches passes through unchanged. */
  lemma {:induction false} ApplyHeadingsNoMatch(table: seq<Heading>, s: string)
    requires forall i :: 0 <= i < |table| ==> NoMatch(table[i], s)
    ensures ApplyHeadings(table, s) == s
  {
    if table != [] {
      ApplyHeadingsNoMatch(table[..|table| - 1], s);
      assert NoMatch(table[|table| - 1], s);
    }
  }

  // ---------------------------------------------------------------------
  // re.sub(r"^Description\s*", "", text, flags=re.IGNORECASE)
  // ---------------------------------------------------------------------

  function DropDescription(s: string): (r: string)
    ensures r == s || (|s| >= 11 && Upper(s[..11]) == "DESCRIPTION" && r == LStrip(s[11..]))
  {
    if |s| >= 11 && Upper(s[..11]) == "DESCRIPTION" then LStrip(s[11..]) else s
  }

  /** Only a leading `Description` word, with the whitespace after it, is removed. */
  lemma {:induction false} DropDescriptionSuffix(s: string)
    ensures EndsWith(s, DropDescription(s))
    ensures DropDescription(s) != s <==> |s| >= 11 && Upper(s[..11]) == "DESCRIPTION"
  {
  }

  // ---------------------------------------------------------------------
  // What the passes leave in front of their first insertion
  // ---------------------------------------------------------------------

  /**
   * `y` agrees with `x` up to the first newline of `y`: both passes only
   * insert text that begins with a newline, or that follows one.
   */
  ghost predicate KeepsFront(x: string, y: string) {
    forall n :: 0 <= n <= |y| && '\n' !in y[..n] ==> n <= |x| && y[..n] == x[..n]
  }

  lemma KeepsFrontRefl(x: string)
    ensures KeepsFront(x, x)
  {
  }

  lemma KeepsFrontTrans(x: string, y: string, z: string)
    requires KeepsFront(x, y) && KeepsFront(y, z)
    ensures KeepsFront(x, z)
  {
    forall n | 0 <= n <= |z| && '\n' !in z[..n]
      ensures n <= |x| && z[..n] == x[..n]
    {
      assert n <= |y| && z[..n] == y[..n];
    }
  }

  /** A string that starts with a newline keeps nothing in front of it. */
  lemma LeadingBreakKeepsFront(x: string, y: string)
    requires y != [] && y[0] == '\n'
    ensures KeepsFront(x, y)
  {
    assert forall n :: 0 < n <= |y| ==> y[..n][0] == '\n';
  }

  lemma ConsKeepsFront(c: char, x: string, y: string)
    requires KeepsFront(x, y)
    ensures KeepsFront([c] + x, [c] + y)
  {
    var x', y' := [c] + x, [c] + y;
    forall n | 0 <= n <= |y'| && '\n' !in y'[..n]
      ensures n <= |x'| && y'[..n] == x'[..n]
    {
      if n > 0 {
        assert y'[..n] == [c] + y[..n - 1];
        assert n - 1 <= |x| && y[..n - 1] == x[..n - 1];
        assert x'[..n] == [c] + x[..n - 1];
      }
    }
  }

  lemma InsertionKeepsFront(a: string, m: string, b: string)
    requires m != [] && m[0] == '\n'
    ensures KeepsFront(a + b, a + m + b)
  {
    var x, y := a + b, a + m + b;
    assert forall n :: |a| < n <= |y| ==> y[..n][|a|] == '\n';
    forall n | 0 <= n <= |a| && '\n' !in y[..n]
      ensures y[..n] == x[..n]
    {
      assert y[..n] == a[..n] == x[..n];
    }
  }

  lemma {:induction false} PromoteKeepsFront(s: string, atStart: bool)
    ensures KeepsFront(s, Promote(s, atStart))
    decreases |s|
  {
    if s == [] {
    } else if atStart && BracketAt(s) > 0 {
      PromoteAtStart(s, BracketAt(s));
      LeadingBreakKeepsFront(s, Promote(s, atStart));
    } else if s[0] == '\n' && BracketAt(s[1..]) > 0 {
      PromoteAfterNewline(s, BracketAt(s[1..]));
      LeadingBreakKeepsFront(s, Promote(s, atStart));
    } else {
      PromoteKeeps(s, atStart);
      PromoteKeepsFront(s[1..], false);
      ConsKeepsFront(s[0], s[1..], Promote(s[1..], false));
    }
  }

  lemma InsertHeadingKeepsFront(h: Heading, s: string)
    ensures KeepsFront(s, InsertHeading(h, s))
  {
    var q := FirstMatch(h, s, 0);
    if q <= |s| {
      InsertionKeepsFront(s[..q], MarkerLine(h.title), s[q..]);
      assert s[..q] + s[q..] == s;
    } else {
      KeepsFrontRefl(s);
    }
  }

  lemma {:induction false} ApplyHeadingsKeepsFront(table: seq<Heading>, s: string)
    ensures KeepsFront(s, ApplyHeadings(table, s))
  {
    if table == [] {
      KeepsFrontRefl(s);
    } else {
      var mid := ApplyHeadings(table[..|table| - 1], s);
      ApplyHeadingsKeepsFront(table[..|table| - 1], s);
      InsertHeadingKeepsFront(table[|table| - 1], mid);
      KeepsFrontTrans(s, mid, ApplyHeadings(table, s));
    }
  }

  /**
   * The `Description` clean-up after the passes removes no more than it
   * would have removed from the text before them: a leading `Description`
   * in the marked text holds no newline, so it was there before.
   */
  lemma DropDescriptionAfterPasses(t: string, m: string)
    requires IsSubsequence(t, m) && KeepsFront(t, m)
    ensures IsSubsequence(DropDescription(t), DropDescription(m))
  {
    if |m| >= 11 && Upper(m[..11]) == "DESCRIPTION" {
      assert '\n' !in m[..11] by {
        forall i | 0 <= i < 11
          ensures m[..11][i] != '\n'
        {
          assert UpperChar(m[..11][i]) == "DESCRIPTION"[i];
        }
      }
      assert t[..11] == m[..11];
      assert t == t[..11] + t[11..] && m == m[..11] + m[11..];
      SubsequenceCancel(t[..11], t[11..], m[11..]);
      SubsequenceLStrip(t[11..], m[11..]);
    } else {
      DropDescriptionSuffix(t);
      SubsequenceOfSuffix(t, |t| - |DropDescription(t)|);
      SubsequenceTrans(DropDescription(t), t, m);
    }
  }

  /** The clean-up of stripped text is stripped. */
  lemma DropDescriptionStripped(t: string)
    requires IsStripped(t)
    ensures IsStripped(DropDescription(t))
  {
    var r := DropDescription(t);
    if r != t && r != [] {
      assert r == t[11..][SpacesFrom(t[11..], 0)..];
      assert r[|r| - 1] == t[|t| - 1];
    }
  }

  // ---------------------------------------------------------------------
  // The whole function
  // ---------------------------------------------------------------------

  /** The text after both marker passes, before the `Description` clean-up. */
  function MarkedText(t: string, lang: string): (r: string)
  {
    if lang == "ja" then Promote(t, true)
    else ApplyHeadings(HeadingTable, if lang == "zh" then Promote(t, true) else t)
  }

  /** `add_subsection_markers(description, lang)` */
  function AddSubsectionMarkers(description: string, lang: string): (r: string)
    ensures IsStripped(r)
  {
    var t := NormalizeWhitespace(description);
    if t == [] then t
    else if lang == "ja" then Strip(MarkedText(t, lang))
    else Strip(DropDescription(MarkedText(t, lang)))
  }

  /** Empty text after normalisation gives the empty string. */
  lemma {:induction false} MarkersOfEmpty(description: string)
    requires NormalizeWhitespace(description) == []
    ensures AddSubsectionMarkers(description, "ja") == []
    ensures forall lang :: AddSubsectionMarkers(description, lang) == []
  {
  }

  /** The marker passes lose nothing of the normalised text. */
  lemma {:induction false} MarkedLossless(description: string, lang: string)
    ensures IsSubsequence(NormalizeWhitespace(description),
                          MarkedText(NormalizeWhitespace(description), lang))
  {
    var t := NormalizeWhitespace(description);
    if lang == "ja" {
      PromoteLossless(t, true);
    } else if lang == "zh" {
      PromoteLossless(t, true);
      ApplyHeadingsLossless(HeadingTable, Promote(t, true));
      SubsequenceTrans(t, Promote(t, true), MarkedText(t, lang));
    } else {
      ApplyHeadingsLossless(HeadingTable, t);
    }
  }

  lemma {:induction false} MarkedKeepsFront(t: string, lang: string)
    ensures KeepsFront(t, MarkedText(t, lang))
  {
    if lang == "ja" {
      PromoteKeepsFront(t, true);
    } else if lang == "zh" {
      PromoteKeepsFront(t, true);
      ApplyHeadingsKeepsFront(HeadingTable, Promote(t, true));
      KeepsFrontTrans(t, Promote(t, true), MarkedText(t, lang));
    } else {
      ApplyHeadingsKeepsFront(HeadingTable, t);
    }
  }

  /**
   * Nothing of the normalised text is lost: for `ja` all of it is in the
   * result, for the other languages all of it but a leading `Description`
   * and the whitespace after it.
   */
  lemma {:induction false} AddSubsectionMarkersLossless(description: string, lang: string)
    ensures var t := NormalizeWhitespace(description);
      IsSubsequence(if lang == "ja" then t else DropDescription(t), AddSubsectionMarkers(description, lang))
  {
    var t := NormalizeWhitespace(description);
    NormalizeWhitespaceIsNormalized(description);
    var m := MarkedText(t, lang);
    MarkedLossless(description, lang);
    if t == [] {
    } else if lang == "ja" {
      SubsequenceStrip(t, m);
    } else {
      MarkedKeepsFront(t, lang);
      DropDescriptionAfterPasses(t, m);
      DropDescriptionStripped(t);
      SubsequenceStrip(DropDescription(t), DropDescription(m));
    }
  }

  /** Japanese text skips the English table: without brackets it only gets normalised. */
  lemma {:induction false} JapaneseWithoutBrackets(description: string)
    requires OpenBracket !in NormalizeWhitespace(description)
    ensures AddSubsectionMarkers(description, "ja") == NormalizeWhitespace(description)
  {
    var t := NormalizeWhitespace(description);
    PromoteNoBrackets(t, true);
    NormalizeWhitespaceIsNormalized(description);
    StripStripped(t);
  }

  /** Chinese text without brackets is treated exactly like English text. */
  lemma {:induction false} ChineseWithoutBrackets(description: string)
    requires OpenBracket !in NormalizeWhitespace(description)
    ensures AddSubsectionMarkers(description, "zh") == AddSubsectionMarkers(description, "en")
  {
    var t := NormalizeWhitespace(description);
    PromoteNoBrackets(t, true);
    assert MarkedText(t, "zh") == MarkedText(t, "en");
  }

  /** Every language code other than `ja` and `zh` gets the English treatment. */
  lemma {:induction false} OtherLanguagesAreEnglish(description: string, lang: string)
    requires lang != "ja" && lang != "zh"
    ensures AddSubsectionMarkers(description, lang) == AddSubsectionMarkers(description, "en")
  {
    var t := NormalizeWhitespace(description);
    assert MarkedText(t, lang) == MarkedText(t, "en");
  }

  /**
   * English text with no heading phrase and no leading `Description` comes
   * back normalised and otherwise unchanged.
   */
  lemma {:induction false} EnglishWithoutHeadings(description: string)
    requires forall i :: 0 <= i < |HeadingTable| ==> NoMatch(HeadingTable[i], NormalizeWhitespace(description))
    requires DropDescription(NormalizeWhitespace(description)) == NormalizeWhitespace(description)
    ensures AddSubsectionMarkers(description, "en") == NormalizeWhitespace(description)
  {
    var t := NormalizeWhitespace(description);
    ApplyHeadingsNoMatch(HeadingTable, t);
    assert MarkedText(t, "en") == t;
    NormalizeWhitespaceIsNormalized(description);
    StripStripped(t);
  }

  /**
   * The imperative shape of the source: normalise, the bracket pass for
   * `ja`/`zh` (with the early return for `ja`), the heading table row by
   * row, then the `Description` clean-up and a final strip.
   */
  method AddMarkers(description: string, lang: string) returns (text: string)
    ensures text == AddSubsectionMarkers(description, lang)
  {
    text := NormalizeWhitespace(description);
    if text == [] {
      return;
    }
    ghost var t := text;
    if lang == "ja" {
      text := Promote(text, true);
      text := Strip(text);
      return;
    }
    if lang == "zh" {
      text := Promote(text, true);
    }
    text := ApplyTable(text);
    assert text == MarkedText(t, lang);
    text := DropDescription(text);
    text := Strip(text);
  }

  /** The loop over the heading table, one `re.sub` per row. */
  method ApplyTable(start: string) returns (text: string)
    ensures text == ApplyHeadings(HeadingTable, start)
  {
    text := start;
    for k := 0 to |HeadingTable|
      invariant text == ApplyHeadings(HeadingTable[..k], start)
    {
      ApplyHeadingsStep(HeadingTable, k, start);
      text := InsertHeading(HeadingTable[k], text);
    }
    assert HeadingTable[..|HeadingTable|] == HeadingTable;
  }

  lemma {:induction false} ApplyHeadingsStep(table: seq<Heading>, k: nat, s: string)
    requires k < |table|
    ensures ApplyHeadings(table[..k + 1], s) == InsertHeading(table[k], ApplyHeadings(table[..k], s))
  {
    assert table[..k + 1][..k] == table[..k];
  }
}
