/**
 * `parse_repo_txt`: split a saved patent text into a header dictionary and a
 * dictionary of `## NAME` sections.
 */
module RepoTxt {
  import opened Wrappers
  import opened Strings
  import opened Dicts

  // ---------------------------------------------------------------- header

  /** A line whose stripped form starts with `==` ends the header and is consumed. */
  predicate IsSeparatorLine(line: string) {
    StartsWith(Strip(line), "==")
  }

  /** A line starting `## ` ends the header and is left for the section scan. */
  predicate IsSectionStart(line: string) {
    StartsWith(line, "## ")
  }

  predicate EndsHeader(line: string) {
    IsSeparatorLine(line) || IsSectionStart(line)
  }

  /**
   * The entry a header line contributes: split at the FIRST colon, both
   * sides stripped, kept only when both are non-empty.
   */
  function HeaderEntry(line: string): (e: Option<(string, string)>)
    ensures ':' !in line ==> e.None?
    ensures e.Some? ==> e.value.0 != [] && e.value.1 != []
    ensures e.Some? ==> ':' !in e.value.0 && IsStripped(e.value.0) && IsStripped(e.value.1)
  {
    if ':' !in line then None
    else
      var c := IndexOf(line, ':');
      var k := Strip(line[..c]);
      var v := Strip(line[c + 1..]);
      assert ':' !in k by {
        StripSlice(line[..c]);
      }
      if k != [] && v != [] then Some((k, v)) else None
  }

  /** The entries of the header lines, in order. */
  function HeaderPairs(lines: seq<string>): (ps: seq<(string, string)>)
  {
    if lines == [] then []
    else
      var init := HeaderPairs(lines[..|lines| - 1]);
      var e := HeaderEntry(lines[|lines| - 1]);
      if e.Some? then init + [e.value] else init
  }

  /** Index of the first line that ends the header, or `|lines|`. */
  function HeaderEnd(lines: seq<string>): (j: nat)
    ensures j <= |lines|
    ensures j < |lines| ==> EndsHeader(lines[j])
  {
    if lines == [] then 0 else if EndsHeader(lines[0]) then 0 else 1 + HeaderEnd(lines[1..])
  }

  /** Where the section scan resumes: past a separator line, at a `## ` line. */
  function SectionsStart(lines: seq<string>): (j: nat)
    ensures HeaderEnd(lines) <= j <= |lines|
    ensures HeaderEnd(lines) == |lines| ==> j == |lines|
    ensures HeaderEnd(lines) < |lines| && IsSeparatorLine(lines[HeaderEnd(lines)]) ==>
      j == HeaderEnd(lines) + 1
    ensures HeaderEnd(lines) < |lines| && !IsSeparatorLine(lines[HeaderEnd(lines)]) ==>
      j == HeaderEnd(lines) && IsSectionStart(lines[j])
  {
    var e := HeaderEnd(lines);
    if e < |lines| && IsSeparatorLine(lines[e]) then e + 1 else e
  }

  // -------------------------------------------------------- section lines

  /** `[A-Z0-9 ()_-]` */
  predicate IsSectionChar(c: char) {
    ('A' <= c <= 'Z') || ('0' <= c <= '9') || c == ' ' || c == '(' || c == ')' || c == '_' || c == '-'
  }

  predicate AllSectionChars(s: string) {
    forall i :: 0 <= i < |s| ==> IsSectionChar(s[i])
  }

  /**
   * `re.match(r"^##\s+([A-Z0-9 ()_-]+)\s*$", line)` with the group spanning
   * `line[i..j]`: `##`, then whitespace, the group, whitespace to the end.
   */
  ghost predicate SectionRegexMatch(line: string, i: int, j: int) {
    && StartsWith(line, "##") && 2 < i < j <= |line|
    && AllSpace(line[2..i]) && AllSectionChars(line[i..j]) && AllSpace(line[j..])
  }

  /**
   * `m.group(1).strip()` when the section pattern matches the line. The
   * group always strips to the stripped text after `##`, which may even be
   * empty (the line `"##  "` matches, with a space as its group).
   */
  function SectionName(line: string): Option<string>
  {
    if !StartsWith(line, "##") || |line| < 3 || !IsSpace(line[2]) then None
    else
      var name := Strip(line[2..]);
      if name != [] then (if AllSectionChars(name) then Some(name) else None)
      else if ' ' in line[3..] then Some("")
      else None
  }

  /** `SectionName` decides the regular expression and returns its stripped group. */
  lemma {:induction false} SectionNameIsRegexMatch(line: string)
    ensures SectionName(line).Some? <==> exists i, j :: SectionRegexMatch(line, i, j)
    ensures forall i, j :: SectionRegexMatch(line, i, j) ==> SectionName(line) == Some(Strip(line[i..j]))
  {
    forall i, j | SectionRegexMatch(line, i, j) ensures SectionName(line) == Some(Strip(line[i..j])) {
      RegexMatchName(line, i, j);
    }
    if SectionName(line).Some? {
      if Strip(line[2..]) != [] {
        NamedLineMatches(line);
      } else {
        BlankNameLineMatches(line);
      }
    }
  }

  lemma {:induction false} NamedLineMatches(line: string)
    requires SectionName(line).Some? && Strip(line[2..]) != []
    ensures exists i, j :: SectionRegexMatch(line, i, j)
  {
    NamedLineFacts(line);
    NamedRestMatches(line);
  }

  lemma {:induction false} NamedLineFacts(line: string)
    requires SectionName(line).Some? && Strip(line[2..]) != []
    ensures |line| >= 3 && line[..2] == "##" && IsSpace(line[2]) && AllSectionChars(Strip(line[2..]))
  {
  }

  lemma {:induction false} NamedRestMatches(line: string)
    requires |line| >= 3 && line[..2] == "##" && IsSpace(line[2]) && AllSectionChars(Strip(line[2..]))
    requires Strip(line[2..]) != []
    ensures exists i, j :: SectionRegexMatch(line, i, j)
  {
    var rest := line[2..];
    var name := Strip(rest);
    StripParts(rest);
    var a := |rest| - |LStrip(rest)|;
    assert rest[a..a + |name|] == line[2 + a..2 + a + |name|];
    RegexWitness(line, a, name);
  }

  lemma {:induction false} RegexWitness(line: string, a: nat, name: string)
    requires |line| >= 3 && line[..2] == "##"
    requires 0 < a && 2 + a + |name| <= |line| && name != []
    requires line[2 + a..2 + a + |name|] == name
    requires AllSpace(line[2..][..a]) && AllSpace(line[2..][a + |name|..])
    requires AllSectionChars(name)
    ensures SectionRegexMatch(line, 2 + a, 2 + a + |name|)
  {
    assert line[2..2 + a] == line[2..][..a];
    assert line[2 + a + |name|..] == line[2..][a + |name|..];
  }

  lemma {:induction false} BlankNameLineMatches(line: string)
    requires SectionName(line).Some? && Strip(line[2..]) == []
    ensures exists i, j :: SectionRegexMatch(line, i, j)
  {
    var rest := line[2..];
    StripEmpty(rest);
    var p :| 0 <= p < |line[3..]| && line[3..][p] == ' ';
    assert line[3 + p..3 + p + 1] == " ";
    assert line[2..3 + p] == rest[..p + 1];
    assert line[3 + p + 1..] == rest[p + 2..];
    assert SectionRegexMatch(line, 3 + p, 3 + p + 1);
  }

  lemma {:induction false} RegexMatchName(line: string, i: int, j: int)
    requires SectionRegexMatch(line, i, j)
    ensures SectionName(line) == Some(Strip(line[i..j]))
  {
    var rest := line[2..];
    assert rest == line[2..i] + line[i..j] + line[j..];
    StripSurrounded(line[2..i], line[i..j], line[j..]);
    assert IsSpace(line[2]) by {
      assert line[2..i][0] == line[2];
    }
    if Strip(line[i..j]) != [] {
      GroupNameChars(line[i..j]);
    } else {
      BlankGroupHasSpace(line, i, j);
    }
  }

  /** A group of section characters strips to section characters. */
  lemma GroupNameChars(g: string)
    requires AllSectionChars(g)
    ensures AllSectionChars(Strip(g))
  {
    var name := Strip(g);
    StripSlice(g);
    forall p | 0 <= p < |name| ensures IsSectionChar(name[p]) {
      assert name[p] in g;
    }
  }

  /** A group that strips to nothing is spaces, so the line has one after `##` and a character. */
  lemma BlankGroupHasSpace(line: string, i: int, j: int)
    requires SectionRegexMatch(line, i, j) && Strip(line[i..j]) == []
    ensures ' ' in line[3..]
  {
    StripEmpty(line[i..j]);
    assert line[i] == ' ' by {
      assert line[i..j][0] == line[i];
    }
    assert line[3..][i - 3] == ' ';
  }

  // --------------------------------------------------------------- sections

  /** A body line as the section scan sees it: a `## NAME` marker or text. */
  datatype Line = Marker(name: string) | Text(text: string)

  function Classify(line: string): Line {
    match SectionName(line)
    case Some(name) => Marker(name)
    case None => Text(line)
  }

  function ClassifyAll(lines: seq<string>): (ls: seq<Line>)
    ensures |ls| == |lines|
    ensures forall i :: 0 <= i < |lines| ==> ls[i] == Classify(lines[i])
  {
    seq(|lines|, i requires 0 <= i < |lines| => Classify(lines[i]))
  }

  function LineText(l: Line): string {
    match l
    case Marker(_) => ""
    case Text(t) => t
  }

  function Texts(ls: seq<Line>): (ts: seq<string>)
    ensures |ts| == |ls|
    ensures forall i :: 0 <= i < |ls| ==> ts[i] == LineText(ls[i])
  {
    seq(|ls|, i requires 0 <= i < |ls| => LineText(ls[i]))
  }

  /** A `## NAME` marker and the raw lines that follow it up to the next marker. */
  datatype Segment = Segment(name: string, lines: seq<string>)

  /** First marker at or after `from`, or `|ls|`. */
  function NextMarker(ls: seq<Line>, from: nat): (m: nat)
    requires from <= |ls|
    ensures from <= m <= |ls|
    ensures m < |ls| ==> ls[m].Marker?
    ensures forall i :: from <= i < m ==> ls[i].Text?
    decreases |ls| - from
  {
    if from == |ls| then from
    else if ls[from].Marker? then from
    else NextMarker(ls, from + 1)
  }

  lemma {:induction false} NextMarkerUnique(ls: seq<Line>, from: nat, m: nat)
    requires from <= m <= |ls|
    requires m < |ls| ==> ls[m].Marker?
    requires forall i :: from <= i < m ==> ls[i].Text?
    ensures NextMarker(ls, from) == m
  {
  }

  /** Appends a line to the last segment. */
  function Extend(segs: seq<Segment>, x: string): seq<Segment>
    requires segs != []
  {
    var last := segs[|segs| - 1];
    segs[..|segs| - 1] + [Segment(last.name, last.lines + [x])]
  }

  /**
   * How one more line changes the segments: a marker opens a new segment,
   * a text line joins the open segment, or is dropped before any marker.
   */
  function SnocSegments(segs: seq<Segment>, x: Line): seq<Segment> {
    match x
    case Marker(name) => segs + [Segment(name, [])]
    case Text(t) => if segs == [] then [] else Extend(segs, t)
  }

  /** The segments of the section scan, read line by line. */
  function Segments(ls: seq<Line>): seq<Segment>
    decreases |ls|
  {
    if ls == [] then [] else SnocSegments(Segments(ls[..|ls| - 1]), ls[|ls| - 1])
  }

  lemma SegmentsSnoc(ls: seq<Line>, x: Line)
    ensures Segments(ls + [x]) == SnocSegments(Segments(ls), x)
  {
    assert (ls + [x])[..|ls|] == ls;
  }

  /** The value stored for a segment: its lines joined with `\n`, stripped. */
  function SegmentText(s: Segment): string {
    Strip(Join(s.lines, "\n"))
  }

  function SectionPairs(segs: seq<Segment>): (ps: seq<(string, string)>)
    ensures |ps| == |segs|
    ensures forall i :: 0 <= i < |segs| ==> ps[i] == (segs[i].name, SegmentText(segs[i]))
  {
    seq(|segs|, i requires 0 <= i < |segs| => (segs[i].name, SegmentText(segs[i])))
  }

  lemma {:induction false} NextMarkerSnoc(ls: seq<Line>, x: Line, from: nat)
    requires from <= |ls|
    ensures NextMarker(ls + [x], from) ==
      if NextMarker(ls, from) < |ls| then NextMarker(ls, from)
      else if x.Marker? then |ls| else |ls| + 1
  {
    var m := NextMarker(ls, from);
    var l' := ls + [x];
    if m < |ls| {
      NextMarkerUnique(l', from, m);
    } else if x.Marker? {
      NextMarkerUnique(l', from, |ls|);
    } else {
      NextMarkerUnique(l', from, |ls| + 1);
    }
  }

  // ------------------------------------------------------------- the parse

  /** The header dictionary `parse_repo_txt` returns for a text split into `lines`. */
  function Header(lines: seq<string>): Dict {
    PutAll(HeaderPairs(lines[..HeaderEnd(lines)]))
  }

  /** The section dictionary `parse_repo_txt` returns for a text split into `lines`. */
  function Sections(lines: seq<string>): Dict {
    PutAll(SectionPairs(Segments(ClassifyAll(lines[SectionsStart(lines)..]))))
  }

  /** `parse_repo_txt(text)` */
  method ParseRepoTxt(text: string) returns (header: Dict, sections: Dict)
    ensures header == Header(SplitLines(text))
    ensures sections == Sections(SplitLines(text))
  {
    var lines := SplitLines(text);

    // Header (until the separator line of '=' or until the first section header)
    header := [];
    var i: nat := 0;
    while i < |lines|
      invariant i <= HeaderEnd(lines)
      invariant header == PutAll(HeaderPairs(lines[..i]))
    {
      // `rstrip("\n")` is the identity here: `splitlines` removed the line breaks.
      var line := lines[i];
      HeaderEndStep(lines, i);
      if IsSeparatorLine(line) {
        i := i + 1;
        break;
      }
      if IsSectionStart(line) {
        break;
      }
      HeaderStep(lines, i, header);
      var entry := HeaderEntry(line);
      if entry.Some? {
        header := Put(header, entry.value.0, entry.value.1);
      }
      i := i + 1;
    }
    assert i == SectionsStart(lines);

    // Sections
    var body := lines[i..];
    sections := [];
    var currentName: Option<string> := None;
    var currentBuf: seq<string> := [];
    ghost var ls := ClassifyAll(body);
    for k := 0 to |body|
      invariant ScanState(Segments(ls[..k]), sections, currentName, currentBuf)
    {
      var line := body[k];
      var m := SectionName(line);
      if m.Some? {
        ScanMarker(ls, k, sections, currentName, currentBuf);
        // flush()
        if currentName.Some? {
          sections := Put(sections, currentName.value, Strip(Join(currentBuf, "\n")));
        }
        currentName := Some(m.value);
        currentBuf := [];
        continue;
      }
      ScanText(ls, k, sections, currentName, currentBuf);
      if currentName.Some? {
        currentBuf := currentBuf + [line];
      }
    }
    ScanEnd(ls, sections, currentName, currentBuf);
    // flush()
    if currentName.Some? {
      sections := Put(sections, currentName.value, Strip(Join(currentBuf, "\n")));
    }
  }

  /** Where the header loop of `ParseRepoTxt` stands relative to `HeaderEnd`. */
  lemma {:induction false} HeaderEndStep(lines: seq<string>, i: nat)
    requires i < |lines| && i <= HeaderEnd(lines)
    ensures EndsHeader(lines[i]) ==> HeaderEnd(lines) == i
    ensures !EndsHeader(lines[i]) ==> i < HeaderEnd(lines)
  {
    HeaderEndIsFirst(lines);
  }

  /** No line before `HeaderEnd` ends the header: it is the first such line. */
  lemma {:induction false} HeaderEndIsFirst(lines: seq<string>)
    ensures forall i :: 0 <= i < HeaderEnd(lines) ==> !EndsHeader(lines[i])
  {
    if lines != [] && !EndsHeader(lines[0]) {
      HeaderEndIsFirst(lines[1..]);
      assert forall i :: 1 <= i < |lines| ==> lines[i] == lines[1..][i - 1];
    }
  }

  /** One header line read by the loop of `ParseRepoTxt`. */
  lemma {:induction false} HeaderStep(lines: seq<string>, i: nat, header: Dict)
    requires i < |lines|
    requires header == PutAll(HeaderPairs(lines[..i]))
    ensures HeaderEntry(lines[i]).Some? ==>
      Put(header, HeaderEntry(lines[i]).value.0, HeaderEntry(lines[i]).value.1) == PutAll(HeaderPairs(lines[..i + 1]))
    ensures HeaderEntry(lines[i]).None? ==> header == PutAll(HeaderPairs(lines[..i + 1]))
  {
    assert lines[..i + 1][..i] == lines[..i];
    var ps := HeaderPairs(lines[..i]);
    var e := HeaderEntry(lines[i]);
    if e.Some? {
      assert (ps + [e.value])[..|ps|] == ps;
    }
  }

  /** A marker line read by the section loop of `ParseRepoTxt`: flush, then open a segment. */
  lemma {:induction false} ScanMarker(ls: seq<Line>, k: nat, sections: Dict, currentName: Option<string>, currentBuf: seq<string>)
    requires k < |ls| && ls[k].Marker?
    requires ScanState(Segments(ls[..k]), sections, currentName, currentBuf)
    ensures ScanState(Segments(ls[..k + 1]),
      if currentName.Some? then Put(sections, currentName.value, Strip(Join(currentBuf, "\n"))) else sections,
      Some(ls[k].name), [])
  {
    assert ls[..k + 1] == ls[..k] + [ls[k]];
    SegmentsSnoc(ls[..k], ls[k]);
    var segs := Segments(ls[..k]);
    if segs != [] {
      FlushLast(segs);
    }
    var segs' := segs + [Segment(ls[k].name, [])];
    assert segs'[..|segs'| - 1] == segs;
  }

  /** A text line read by the section loop of `ParseRepoTxt`: buffered when a segment is open. */
  lemma {:induction false} ScanText(ls: seq<Line>, k: nat, sections: Dict, currentName: Option<string>, currentBuf: seq<string>)
    requires k < |ls| && ls[k].Text?
    requires ScanState(Segments(ls[..k]), sections, currentName, currentBuf)
    ensures ScanState(Segments(ls[..k + 1]), sections, currentName,
      if currentName.Some? then currentBuf + [ls[k].text] else currentBuf)
  {
    assert ls[..k + 1] == ls[..k] + [ls[k]];
    SegmentsSnoc(ls[..k], ls[k]);
    var segs := Segments(ls[..k]);
    if segs != [] {
      var segs' := Extend(segs, ls[k].text);
      assert segs'[..|segs'| - 1] == segs[..|segs| - 1];
    }
  }

  /** The final flush of `ParseRepoTxt` stores the open segment. */
  lemma {:induction false} ScanEnd(ls: seq<Line>, sections: Dict, currentName: Option<string>, currentBuf: seq<string>)
    requires ScanState(Segments(ls[..|ls|]), sections, currentName, currentBuf)
    ensures PutAll(SectionPairs(Segments(ls))) ==
      if currentName.Some? then Put(sections, currentName.value, Strip(Join(currentBuf, "\n"))) else sections
  {
    assert ls[..|ls|] == ls;
    if Segments(ls) != [] {
      FlushLast(Segments(ls));
    }
  }

  /**
   * The section scan after a prefix of the lines: the stored sections are
   * the finished segments, and the open one is the last segment.
   */
  ghost predicate ScanState(segs: seq<Segment>, sections: Dict, currentName: Option<string>, currentBuf: seq<string>) {
    if segs == [] then currentName.None? && sections == [] && currentBuf == []
    else
      && currentName == Some(segs[|segs| - 1].name)
      && currentBuf == segs[|segs| - 1].lines
      && sections == PutAll(SectionPairs(segs[..|segs| - 1]))
  }

  /** Storing the last segment completes the dictionary of all segments. */
  lemma {:induction false} FlushLast(segs: seq<Segment>)
    requires segs != []
    ensures PutAll(SectionPairs(segs)) ==
      Put(PutAll(SectionPairs(segs[..|segs| - 1])), segs[|segs| - 1].name, SegmentText(segs[|segs| - 1]))
  {
    assert SectionPairs(segs)[..|segs| - 1] == SectionPairs(segs[..|segs| - 1]);
  }

  // ------------------------------------------------------------ properties

  /** The value the header keeps for `k`: the one from the LAST line that assigns `k`. */
  function LastHeaderValue(lines: seq<string>, k: string): Option<string>
  {
    if lines == [] then None
    else
      match HeaderEntry(lines[|lines| - 1])
      case Some((k', v)) => if k' == k then Some(v) else LastHeaderValue(lines[..|lines| - 1], k)
      case None => LastHeaderValue(lines[..|lines| - 1], k)
  }

  /** A later header line for the same key overwrites the earlier one. */
  lemma {:induction false} HeaderLastWins(lines: seq<string>, k: string)
    ensures Get(PutAll(HeaderPairs(lines)), k) == LastHeaderValue(lines, k)
  {
    if lines != [] {
      var init := lines[..|lines| - 1];
      HeaderLastWins(init, k);
      var e := HeaderEntry(lines[|lines| - 1]);
      if e.Some? {
        var ps := HeaderPairs(init);
        assert (ps + [e.value])[..|ps|] == ps;
        PutSpec(PutAll(ps), e.value.0, e.value.1);
      }
    }
  }

  /** A `key: value` line with a colon-free key is read back as that pair. */
  lemma {:induction false} HeaderEntryOfPair(k: string, v: string)
    requires k != [] && IsStripped(k) && ':' !in k
    requires v != [] && IsStripped(v)
    ensures HeaderEntry(k + ": " + v) == Some((k, v))
  {
    var line := k + ": " + v;
    PairParts(k, v, line);
    HeaderEntryFromParts(line, |k|, k, v);
  }

  /** Where `key: value` splits, and what its two sides strip to. */
  lemma PairParts(k: string, v: string, line: string)
    requires k != [] && IsStripped(k) && ':' !in k
    requires v != [] && IsStripped(v)
    requires line == k + ": " + v
    ensures |k| < |line| && IndexOf(line, ':') == |k|
    ensures Strip(line[..|k|]) == k && Strip(line[|k| + 1..]) == v
  {
    IndexOfPair(k, v);
    KeyOfPair(k, v);
    ValueOfPair(k, v);
  }

  lemma {:induction false} KeyOfPair(k: string, v: string)
    requires IsStripped(k)
    ensures Strip((k + ": " + v)[..|k|]) == k
  {
    assert (k + ": " + v)[..|k|] == k;
    StripStripped(k);
  }

  lemma {:induction false} ValueOfPair(k: string, v: string)
    requires IsStripped(v)
    ensures Strip((k + ": " + v)[|k| + 1..]) == v
  {
    assert (k + ": " + v)[|k| + 1..] == " " + v;
    PaddedStrip(v);
  }

  lemma {:induction false} HeaderEntryFromParts(line: string, c: nat, k: string, v: string)
    requires c < |line| && IndexOf(line, ':') == c
    requires Strip(line[..c]) == k && Strip(line[c + 1..]) == v && k != [] && v != []
    ensures HeaderEntry(line) == Some((k, v))
  {
  }

  lemma {:induction false} IndexOfPair(k: string, v: string)
    requires ':' !in k
    ensures IndexOf(k + ": " + v, ':') == |k|
  {
    var line := k + ": " + v;
    assert line[|k|] == ':';
    assert forall i :: 0 <= i < |k| ==> line[i] == k[i];
  }

  lemma {:induction false} PaddedStrip(v: string)
    requires IsStripped(v)
    ensures Strip(" " + v) == v
  {
    assert " " + v == " " + v + [];
    StripSurrounded(" ", v, []);
    StripStripped(v);
  }

  /** Keys keep the position of their first section, even when a later section overwrites the value. */
  lemma {:induction false} SectionsKeepFirstPosition(lines: seq<string>)
    ensures var ps := SectionPairs(Segments(ClassifyAll(lines[SectionsStart(lines)..])));
      var d := Sections(lines);
      forall a, b :: 0 <= a < b < |d| ==> FirstAssignment(ps, d[a].0) < FirstAssignment(ps, d[b].0)
  {
    PutAllFirstOrder(SectionPairs(Segments(ClassifyAll(lines[SectionsStart(lines)..]))));
  }

  /** The header dictionary: last assignment wins, scanning only the header lines. */
  lemma {:induction false} HeaderValue(lines: seq<string>, k: string)
    ensures Get(Header(lines), k) == LastHeaderValue(lines[..HeaderEnd(lines)], k)
  {
    HeaderLastWins(lines[..HeaderEnd(lines)], k);
  }

  /** Without a separator or `## ` line, every line is header and there are no sections. */
  lemma {:induction false} AllHeader(lines: seq<string>)
    requires forall i :: 0 <= i < |lines| ==> !EndsHeader(lines[i])
    ensures Header(lines) == PutAll(HeaderPairs(lines))
    ensures Sections(lines) == []
  {
    assert HeaderEnd(lines) == |lines|;
    assert lines[..|lines|] == lines;
    assert ClassifyAll(lines[|lines|..]) == [];
  }

  /** Index of the last marker line, if any. */
  function LastMarker(ls: seq<Line>): (r: Option<nat>)
    ensures r.Some? ==> r.value < |ls| && ls[r.value].Marker? && forall j :: r.value < j < |ls| ==> ls[j].Text?
    ensures r.None? ==> forall j :: 0 <= j < |ls| ==> ls[j].Text?
  {
    if ls == [] then None
    else if ls[|ls| - 1].Marker? then Some(|ls| - 1)
    else LastMarker(ls[..|ls| - 1])
  }

  /** Index of the last marker line for `name`, if any. */
  function LastMarkerNamed(ls: seq<Line>, name: string): (r: Option<nat>)
    ensures r.Some? ==> r.value < |ls| && ls[r.value] == Marker(name) && forall j :: r.value < j < |ls| ==> ls[j] != Marker(name)
    ensures r.None? ==> forall j :: 0 <= j < |ls| ==> ls[j] != Marker(name)
  {
    if ls == [] then None
    else if ls[|ls| - 1] == Marker(name) then Some(|ls| - 1)
    else LastMarkerNamed(ls[..|ls| - 1], name)
  }

  /** The text lines after the marker at `m`, up to the next marker or the end. */
  function Block(ls: seq<Line>, m: nat): seq<string>
    requires m < |ls|
  {
    Texts(ls[m + 1..NextMarker(ls, m + 1)])
  }

  /**
   * What the section dictionary holds for `name`: the stripped `\n`-join of
   * the block after the last marker for `name`; nothing without one.
   */
  function SectionValue(ls: seq<Line>, name: string): Option<string> {
    match LastMarkerNamed(ls, name)
    case None => None
    case Some(m) => Some(Strip(Join(Block(ls, m), "\n")))
  }

  /** The open (last) segment starts at the last marker and runs to the end. */
  ghost predicate LastSegmentIsOpen(ls: seq<Line>) {
    && (Segments(ls) == [] <==> LastMarker(ls).None?)
    && (Segments(ls) != [] ==>
      Segments(ls)[|Segments(ls)| - 1] == Segment(ls[LastMarker(ls).value].name, Texts(ls[LastMarker(ls).value + 1..])))
  }

  lemma {:induction false} LastSegment(ls: seq<Line>)
    ensures Segments(ls) == [] <==> LastMarker(ls).None?
    ensures Segments(ls) != [] ==>
      Segments(ls)[|Segments(ls)| - 1] == Segment(ls[LastMarker(ls).value].name, Texts(ls[LastMarker(ls).value + 1..]))
  {
    LastSegmentOpen(ls);
  }

  lemma {:induction false} LastSegmentOpen(ls: seq<Line>)
    ensures LastSegmentIsOpen(ls)
  {
    if ls == [] {
      assert Segments(ls) == [];
    } else {
      var init, x := ls[..|ls| - 1], ls[|ls| - 1];
      SnocSplit(ls);
      LastSegmentOpen(init);
      LastSegmentStep(init, x);
    }
  }

  lemma {:induction false} LastSegmentStep(init: seq<Line>, x: Line)
    requires LastSegmentIsOpen(init)
    ensures LastSegmentIsOpen(init + [x])
  {
    var ls := init + [x];
    SegmentsSnoc(init, x);
    SnocSlices(init, x, 0);
    if x.Marker? {
      assert ls[|ls|..] == [];
    } else if Segments(init) != [] {
      var lm := LastMarker(init).value;
      SnocSlices(init, x, lm + 1);
      TextsSnoc(init[lm + 1..], x);
    }
  }

  lemma TextsSnoc(ls: seq<Line>, x: Line)
    ensures Texts(ls + [x]) == Texts(ls) + [LineText(x)]
  {
    assert forall i :: 0 <= i < |ls| ==> (ls + [x])[i] == ls[i];
  }

  /**
   * Each section name maps to the block after its LAST marker, even when an
   * earlier block for the same name was longer.
   */
  lemma {:induction false} SectionsLastMarker(ls: seq<Line>, name: string)
    ensures Get(PutAll(SectionPairs(Segments(ls))), name) == SectionValue(ls, name)
  {
    SectionsGet(Segments(ls), name);
    SegmentOfName(ls, name);
  }

  /** Index of the last segment for `name`, if any. */
  function LastSegmentNamed(segs: seq<Segment>, name: string): (r: Option<nat>)
    ensures r.Some? ==> r.value < |segs| && segs[r.value].name == name && forall j :: r.value < j < |segs| ==> segs[j].name != name
    ensures r.None? ==> forall j :: 0 <= j < |segs| ==> segs[j].name != name
  {
    if segs == [] then None
    else if segs[|segs| - 1].name == name then Some(|segs| - 1)
    else LastSegmentNamed(segs[..|segs| - 1], name)
  }

  lemma LastSegmentNamedUnique(segs: seq<Segment>, name: string, r: Option<nat>)
    requires r.Some? ==> r.value < |segs| && segs[r.value].name == name && forall j :: r.value < j < |segs| ==> segs[j].name != name
    requires r.None? ==> forall j :: 0 <= j < |segs| ==> segs[j].name != name
    ensures LastSegmentNamed(segs, name) == r
  {
  }

  /** Storing the segments in order keeps, for each name, the text of its last segment. */
  lemma {:induction false} SectionsGet(segs: seq<Segment>, name: string)
    ensures var r := LastSegmentNamed(segs, name);
      Get(PutAll(SectionPairs(segs)), name) == if r.Some? then Some(SegmentText(segs[r.value])) else None
  {
    var ps := SectionPairs(segs);
    PutAllLastWins(ps, name);
    LastAssignmentUnique(ps, name, LastSegmentNamed(segs, name));
  }

  /** The last segment for `name` holds the block after the last marker for `name`. */
  ghost predicate NamedSegmentIsBlock(ls: seq<Line>, name: string) {
    var r := LastSegmentNamed(Segments(ls), name);
    var m := LastMarkerNamed(ls, name);
    && (r.None? <==> m.None?)
    && (r.Some? ==> Segments(ls)[r.value] == Segment(name, Block(ls, m.value)))
  }

  lemma {:induction false} SegmentOfName(ls: seq<Line>, name: string)
    ensures NamedSegmentIsBlock(ls, name)
  {
    if ls != [] {
      var init := ls[..|ls| - 1];
      var x := ls[|ls| - 1];
      SnocSplit(ls);
      SegmentOfName(init, name);
      if x == Marker(name) {
        NamedAfterOwnMarker(init, x, name);
      } else if x.Marker? {
        NamedAfterOtherMarker(init, x, name);
      } else if Segments(init) == [] {
        NamedAfterDroppedText(init, x, name);
      } else {
        NamedAfterText(init, x, name);
      }
    }
  }

  lemma {:induction false} NamedAfterOwnMarker(init: seq<Line>, x: Line, name: string)
    requires x == Marker(name)
    ensures NamedSegmentIsBlock(init + [x], name)
  {
    var ls := init + [x];
    SegmentsSnoc(init, x);
    assert ls[|ls|..|ls|] == [];
  }

  lemma {:induction false} NamedAfterOtherMarker(init: seq<Line>, x: Line, name: string)
    requires x.Marker? && x.name != name
    requires NamedSegmentIsBlock(init, name)
    ensures NamedSegmentIsBlock(init + [x], name)
  {
    var segs := Segments(init);
    SegmentsSnoc(init, x);
    SnocSlices(init, x, 0);
    SnocSlices(segs, Segment(x.name, []), 0);
    var m := LastMarkerNamed(init, name);
    if m.Some? {
      BlockSnoc(init, x, m.value);
    }
  }

  lemma {:induction false} NamedAfterDroppedText(init: seq<Line>, x: Line, name: string)
    requires x.Text? && Segments(init) == []
    requires NamedSegmentIsBlock(init, name)
    ensures NamedSegmentIsBlock(init + [x], name)
  {
    var ls := init + [x];
    SegmentsSnoc(init, x);
    SnocSlices(init, x, 0);
    assert LastSegmentNamed(Segments(init), name).None?;
    assert LastMarkerNamed(init, name).None?;
    assert LastMarkerNamed(ls, name) == LastMarkerNamed(init, name);
    assert Segments(ls) == [];
  }

  lemma {:induction false} NamedAfterText(init: seq<Line>, x: Line, name: string)
    requires x.Text? && Segments(init) != []
    requires NamedSegmentIsBlock(init, name)
    ensures NamedSegmentIsBlock(init + [x], name)
  {
    var segs := Segments(init);
    var r := LastSegmentNamed(segs, name);
    SegmentsAfterText(init, x);
    TextKeepsMarkers(init, x, name);
    ExtendNames(segs, x.text, name);
    if r.Some? && r.value == |segs| - 1 {
      OpenNamedAfterText(init, x, name);
    } else if r.Some? {
      ClosedNamedAfterText(init, x, name);
    }
  }

  /** A text line joins the open segment. */
  lemma SegmentsAfterText(init: seq<Line>, x: Line)
    requires x.Text? && Segments(init) != []
    ensures Segments(init + [x]) == Extend(Segments(init), x.text)
  {
    SegmentsSnoc(init, x);
  }

  /** A text line moves no marker. */
  lemma TextKeepsMarkers(init: seq<Line>, x: Line, name: string)
    requires x.Text?
    ensures LastMarkerNamed(init + [x], name) == LastMarkerNamed(init, name)
    ensures LastMarker(init + [x]) == LastMarker(init)
  {
    SnocSlices(init, x, 0);
  }

  /** A text line joins the block of `name` when its segment is the open one. */
  lemma {:induction false} OpenNamedAfterText(init: seq<Line>, x: Line, name: string)
    requires x.Text? && Segments(init) != []
    requires LastSegmentNamed(Segments(init), name) == Some(|Segments(init)| - 1)
    ensures LastMarkerNamed(init, name).Some?
    ensures Extend(Segments(init), x.text)[|Segments(init)| - 1] ==
      Segment(name, Block(init + [x], LastMarkerNamed(init, name).value))
  {
    var segs := Segments(init);
    LastSegment(init);
    var lm := LastMarker(init).value;
    var last := segs[|segs| - 1];
    assert last == Segment(init[lm].name, Texts(init[lm + 1..]));
    assert init[lm] == Marker(name);
    OwnBlockExtends(init, x, lm, name);
    ExtendLast(segs, x.text);
  }

  lemma ExtendLast(segs: seq<Segment>, t: string)
    requires segs != []
    ensures Extend(segs, t)[|segs| - 1] == Segment(segs[|segs| - 1].name, segs[|segs| - 1].lines + [t])
  {
  }

  /** A text line leaves the block of `name` alone when another segment is open. */
  lemma {:induction false} ClosedNamedAfterText(init: seq<Line>, x: Line, name: string)
    requires x.Text? && Segments(init) != []
    requires LastSegmentNamed(Segments(init), name).Some?
    requires LastSegmentNamed(Segments(init), name).value < |Segments(init)| - 1
    ensures LastMarkerNamed(init, name).Some? ==>
      Block(init + [x], LastMarkerNamed(init, name).value) == Block(init, LastMarkerNamed(init, name).value)
  {
    LastSegment(init);
    OtherBlockClosed(init, name, LastMarker(init).value);
    if LastMarkerNamed(init, name).Some? {
      BlockSnoc(init, x, LastMarkerNamed(init, name).value);
    }
  }

  /** Extending the open segment renames nothing. */
  lemma ExtendNames(segs: seq<Segment>, t: string, name: string)
    requires segs != []
    ensures LastSegmentNamed(Extend(segs, t), name) == LastSegmentNamed(segs, name)
    ensures forall j :: 0 <= j < |segs| - 1 ==> Extend(segs, t)[j] == segs[j]
  {
    var segs' := Extend(segs, t);
    assert forall j :: 0 <= j < |segs'| ==> segs'[j].name == segs[j].name;
    LastSegmentNamedUnique(segs', name, LastSegmentNamed(segs, name));
  }

  /** A text line after the last marker for `name` extends its block. */
  lemma {:induction false} OwnBlockExtends(init: seq<Line>, x: Line, lm: nat, name: string)
    requires x.Text? && lm < |init| && init[lm] == Marker(name)
    requires forall j :: lm < j < |init| ==> init[j].Text?
    ensures LastMarkerNamed(init, name) == Some(lm)
    ensures Block(init + [x], lm) == Texts(init[lm + 1..]) + [x.text]
  {
    LastMarkerNamedUnique(init, name, lm);
    BlockExtend(init, x, lm);
  }

  lemma {:induction false} BlockSnoc(init: seq<Line>, x: Line, m: nat)
    requires m < |init|
    requires x.Text? ==> NextMarker(init, m + 1) < |init|
    ensures Block(init + [x], m) == Block(init, m)
  {
    var ls := init + [x];
    NextMarkerSnoc(init, x, m + 1);
    var e := NextMarker(init, m + 1);
    assert ls[m + 1..e] == init[m + 1..e];
  }

  /** A text line after the last marker extends that marker's block. */
  lemma {:induction false} BlockExtend(init: seq<Line>, x: Line, lm: nat)
    requires x.Text? && lm < |init| && init[lm].Marker?
    requires forall j :: lm < j < |init| ==> init[j].Text?
    ensures Block(init + [x], lm) == Texts(init[lm + 1..]) + [x.text]
  {
    var ls := init + [x];
    NextMarkerUnique(ls, lm + 1, |ls|);
    assert ls[lm + 1..|ls|] == init[lm + 1..] + [x];
    assert Texts(init[lm + 1..] + [x]) == Texts(init[lm + 1..]) + [x.text];
  }

  /** A marker for another name lies before the last marker, so its block is closed. */
  lemma {:induction false} OtherBlockClosed(init: seq<Line>, name: string, lm: nat)
    requires lm < |init| && init[lm].Marker? && init[lm].name != name
    requires forall j :: lm < j < |init| ==> init[j].Text?
    ensures LastMarkerNamed(init, name).Some? ==> NextMarker(init, LastMarkerNamed(init, name).value + 1) < |init|
  {
    var r := LastMarkerNamed(init, name);
    if r.Some? {
      var m := r.value;
      assert m < lm;
      assert NextMarker(init, m + 1) <= lm;
    }
  }

  lemma {:induction false} LastMarkerNamedUnique(ls: seq<Line>, name: string, m: nat)
    requires m < |ls| && ls[m] == Marker(name)
    requires forall j :: m < j < |ls| ==> ls[j] != Marker(name)
    ensures LastMarkerNamed(ls, name) == Some(m)
    decreases |ls|
  {
    if m < |ls| - 1 {
      LastMarkerNamedUnique(ls[..|ls| - 1], name, m);
    }
  }

  /**
   * `parse_repo_txt` on a whole text: a section name maps to the stripped
   * `\n`-join of the lines after its last `## NAME` line, up to the next one.
   */
  lemma {:induction false} SectionValueOfText(lines: seq<string>, name: string)
    ensures Get(Sections(lines), name) == SectionValue(ClassifyAll(lines[SectionsStart(lines)..]), name)
  {
    SectionsLastMarker(ClassifyAll(lines[SectionsStart(lines)..]), name);
  }

  /** Every section key is the name of a `## NAME` line of the section part. */
  lemma {:induction false} SectionKeysMatchPattern(lines: seq<string>, name: string)
    requires Get(Sections(lines), name).Some?
    ensures exists m :: SectionsStart(lines) <= m < |lines| && SectionName(lines[m]) == Some(name)
  {
    SectionValueOfText(lines, name);
    var m := MarkerOfKey(lines, name);
  }

  lemma {:induction false} MarkerOfKey(lines: seq<string>, name: string) returns (m: nat)
    requires SectionValue(ClassifyAll(lines[SectionsStart(lines)..]), name).Some?
    ensures SectionsStart(lines) <= m < |lines| && SectionName(lines[m]) == Some(name)
  {
    var start := SectionsStart(lines);
    var body := lines[start..];
    var k := LastMarkerNamed(ClassifyAll(body), name).value;
    MarkerLine(body, k, name);
    m := start + k;
    assert body[k] == lines[m];
  }

  lemma MarkerLine(body: seq<string>, k: nat, name: string)
    requires k < |body| && ClassifyAll(body)[k] == Marker(name)
    ensures SectionName(body[k]) == Some(name)
  {
  }

  /** A line whose `SectionName` is `name` matches the section pattern with group `name` once stripped. */
  lemma {:induction false} MarkerLineMatches(line: string, name: string)
    requires SectionName(line) == Some(name)
    ensures exists i, j :: SectionRegexMatch(line, i, j) && Strip(line[i..j]) == name
  {
    SectionNameIsRegexMatch(line);
    var i, j :| SectionRegexMatch(line, i, j);
    assert Strip(line[i..j]) == name;
  }
}
