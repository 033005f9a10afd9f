/**
 * `iter_subsections`: split marker-annotated text into (title, body) pairs.
 * The generator is modelled as a function returning the sequence of pairs
 * it yields, in order.
 */
module Subsections {
  import opened Wrappers
  import opened Strings
  import opened Whitespace
  import opened Splitting

  type Pair = (string, string)

  /** Title and body are both non-empty and stripped. */
  predicate WellFormed(p: Pair) {
    p.0 != [] && IsStripped(p.0) && p.1 != [] && IsStripped(p.1)
  }

  /** `part.partition("\n")` without the separator. */
  function Partition(s: string): (r: (string, string))
    ensures '\n' !in r.0
    ensures '\n' in s ==> s == r.0 + "\n" + r.1
    ensures '\n' !in s ==> r == (s, [])
  {
    var i := IndexOf(s, '\n');
    if i < |s| then
      assert s == s[..i] + "\n" + s[i + 1..];
      (s[..i], s[i + 1..])
    else (s, [])
  }

  /** What one part after a marker yields: nothing, or (title, body). */
  function PartSubsection(part: string): (r: Option<Pair>)
    ensures r.Some? ==> WellFormed(r.value)
  {
    var p := StripChar(part, '\n');
    if p == [] then None
    else
      var body := Strip(Partition(p).1);
      if body == [] then None else Some((Title(Partition(p).0), body))
  }

  /** The stripped title line, or `SUBSECTION` when it is blank. */
  function Title(line: string): (t: string)
    ensures t != [] && IsStripped(t)
  {
    if Strip(line) == [] then "SUBSECTION" else Strip(line)
  }

  /** The pairs yielded by the loop over the parts, in order. */
  function PartsSubsections(parts: seq<string>): (r: seq<Pair>)
    ensures |r| <= |parts|
    ensures forall i :: 0 <= i < |r| ==> WellFormed(r[i])
  {
    if parts == [] then []
    else
      var init := PartsSubsections(parts[..|parts| - 1]);
      match PartSubsection(parts[|parts| - 1])
      case None => init
      case Some(p) => init + [p]
  }

  /** The pair for the text before the first marker. */
  function BodyPair(s: string): (r: seq<Pair>)
    requires s != [] && IsStripped(s)
    ensures |r| == 1 && r[0].1 == s && WellFormed(r[0])
  {
    var title := "BODY";
    assert !IsSpace(title[0]) && !IsSpace(title[3]);
    [(title, s)]
  }

  /** `iter_subsections(text)` */
  function IterSubsections(text: string): (r: seq<Pair>)
    ensures forall i :: 0 <= i < |r| ==> WellFormed(r[i])
  {
    var t := NormalizeWhitespace(text);
    if t == [] then []
    else
      var parts := Split(SubsectionMarker, "\n" + t);
      if |parts| == 1 then
        BodyPair(t)
      else
        var first := Strip(parts[0]);
        (if first != [] then BodyPair(first) else []) + PartsSubsections(parts[1..])
  }

  /** Empty text after normalisation yields nothing. */
  lemma {:induction false} SubsectionsOfEmpty(text: string)
    requires NormalizeWhitespace(text) == []
    ensures IterSubsections(text) == []
  {
  }

  /** Without any `\n###<ws>` boundary the whole normalised text is one `BODY` pair. */
  lemma {:induction false} SubsectionsWithoutMarker(text: string)
    requires NormalizeWhitespace(text) != []
    requires forall p :: 0 <= p < |"\n" + NormalizeWhitespace(text)| ==>
      DelimiterAt(SubsectionMarker, "\n" + NormalizeWhitespace(text), p) == 0
    ensures IterSubsections(text) == [("BODY", NormalizeWhitespace(text))]
  {
    NoDelimiterNoSplit(SubsectionMarker, "\n" + NormalizeWhitespace(text));
    NormalizeWhitespaceIsNormalized(text);
  }

  /**
   * With a marker, the text is cut at the `\n###<ws>` matches, left to right
   * (`SplitRejoin` puts the parts and the matches back together into the text),
   * and the pairs are: `BODY` and the stripped text before the first marker
   * when it is not blank, then one pair for each later part whose body is not
   * blank, in order, titled with that part's stripped first line and holding
   * its stripped remaining lines.
   */
  lemma {:induction false} SubsectionsWithMarkers(text: string)
    requires NormalizeWhitespace(text) != []
    requires |Split(SubsectionMarker, "\n" + NormalizeWhitespace(text))| > 1
    ensures var parts := Split(SubsectionMarker, "\n" + NormalizeWhitespace(text));
      var first := Strip(parts[0]);
      IterSubsections(text) == (if first != [] then [("BODY", first)] else []) + KeptPairs(parts[1..])
  {
    var parts := Split(SubsectionMarker, "\n" + NormalizeWhitespace(text));
    IterSubsectionsSplit(text);
    MarkerPartsStartSolid("\n" + NormalizeWhitespace(text));
    var later := parts[1..];
    assert forall i :: 0 <= i < |later| ==> later[i] == parts[i + 1];
    LaterPairs(later);
  }

  /** The loop's pairs follow the optional `BODY` pair. */
  lemma {:induction false} IterSubsectionsSplit(text: string)
    requires NormalizeWhitespace(text) != []
    requires |Split(SubsectionMarker, "\n" + NormalizeWhitespace(text))| > 1
    ensures var parts := Split(SubsectionMarker, "\n" + NormalizeWhitespace(text));
      var first := Strip(parts[0]);
      IterSubsections(text) == (if first != [] then [("BODY", first)] else []) + PartsSubsections(parts[1..])
  {
  }

  /**
   * For each part with a non-blank body, in order: its stripped first line
   * and its stripped remaining lines.
   */
  function KeptPairs(ps: seq<string>): (r: seq<Pair>)
    ensures |r| == |Kept(ps)|
    ensures forall k :: 0 <= k < |r| ==>
      r[k] == (Strip(Head(ps[Kept(ps)[k]])), Strip(Rest(ps[Kept(ps)[k]])))
  {
    var ks := Kept(ps);
    seq(|ks|, k requires 0 <= k < |ks| => (Strip(Head(ps[ks[k]])), Strip(Rest(ps[ks[k]]))))
  }

  /** The later parts of a marker split yield exactly the kept pairs. */
  lemma {:induction false} LaterPairs(later: seq<string>)
    requires forall i :: 0 <= i < |later| ==> later[i] == [] || !IsSpace(later[i][0])
    ensures PartsSubsections(later) == KeptPairs(later)
  {
    MarkerPairs(later);
  }

  /** The first line of a part, once the newlines around the part are stripped. */
  function Head(part: string): string {
    Partition(StripChar(part, '\n')).0
  }

  /** The lines of a part after its first one. */
  function Rest(part: string): string {
    Partition(StripChar(part, '\n')).1
  }

  /** The lines after the first one are not blank: the part yields a pair. */
  predicate HasBody(part: string) {
    Strip(Rest(part)) != []
  }

  /** The positions of `true` in `flags`, ascending. */
  function Indices(flags: seq<bool>): (ks: seq<nat>)
    ensures forall k :: 0 <= k < |ks| ==> ks[k] < |flags| && flags[ks[k]]
    ensures forall k, l :: 0 <= k < l < |ks| ==> ks[k] < ks[l]
    ensures forall i :: 0 <= i < |flags| && flags[i] ==> i in ks
  {
    if flags == [] then []
    else
      var init := flags[..|flags| - 1];
      assert forall i :: 0 <= i < |init| ==> init[i] == flags[i];
      if flags[|flags| - 1] then Indices(init) + [|flags| - 1] else Indices(init)
  }

  /** Which parts have a body. */
  function BodyFlags(parts: seq<string>): (fs: seq<bool>)
    ensures |fs| == |parts| && forall i :: 0 <= i < |parts| ==> fs[i] == HasBody(parts[i])
  {
    seq(|parts|, i requires 0 <= i < |parts| => HasBody(parts[i]))
  }

  /** The indices of the parts whose body is not blank, ascending: the parts that yield a pair. */
  function Kept(parts: seq<string>): (ks: seq<nat>)
    ensures forall k :: 0 <= k < |ks| ==> ks[k] < |parts| && HasBody(parts[ks[k]])
    ensures forall k, l :: 0 <= k < l < |ks| ==> ks[k] < ks[l]
    ensures forall i :: 0 <= i < |parts| && HasBody(parts[i]) ==> i in ks
  {
    Indices(BodyFlags(parts))
  }

  /** A part yields exactly when it has a body, and then its stripped lines. */
  lemma {:induction false} PartSubsectionHasBody(part: string)
    ensures PartSubsection(part).Some? <==> HasBody(part)
    ensures HasBody(part) ==> PartSubsection(part) == Some((Title(Head(part)), Strip(Rest(part))))
  {
    if StripChar(part, '\n') == [] {
      assert Rest(part) == [];
      StripStripped([]);
    }
  }

  /** The `k`-th pair of the loop comes from the `k`-th part with a non-blank body. */
  lemma {:induction false} PartsSubsectionsKept(parts: seq<string>)
    ensures |PartsSubsections(parts)| == |Kept(parts)|
    ensures forall k :: 0 <= k < |Kept(parts)| ==>
      PartsSubsections(parts)[k] == (Title(Head(parts[Kept(parts)[k]])), Strip(Rest(parts[Kept(parts)[k]])))
  {
    var opts := PartOptions(parts);
    PartsSubsectionsSomes(parts);
    SomesAt(opts);
    forall i | 0 <= i < |parts| ensures Present(opts)[i] == BodyFlags(parts)[i] {
      PartSubsectionHasBody(parts[i]);
    }
    assert Present(opts) == BodyFlags(parts);
    var ks := Kept(parts);
    forall k | 0 <= k < |ks|
      ensures PartsSubsections(parts)[k] == (Title(Head(parts[ks[k]])), Strip(Rest(parts[ks[k]])))
    {
      PartSubsectionHasBody(parts[ks[k]]);
    }
  }

  /** What each part yields. */
  function PartOptions(parts: seq<string>): (os: seq<Option<Pair>>)
    ensures |os| == |parts| && forall i :: 0 <= i < |parts| ==> os[i] == PartSubsection(parts[i])
  {
    seq(|parts|, i requires 0 <= i < |parts| => PartSubsection(parts[i]))
  }

  /** The loop keeps the pairs of the parts that yield one. */
  lemma {:induction false} PartsSubsectionsSomes(parts: seq<string>)
    ensures PartsSubsections(parts) == Somes(PartOptions(parts))
  {
    if parts != [] {
      var n := |parts| - 1;
      PartsSubsectionsSomes(parts[..n]);
      assert PartOptions(parts)[..n] == PartOptions(parts[..n]);
    }
  }

  /** The values of the `Some` entries, in order. */
  function Somes<T>(os: seq<Option<T>>): (r: seq<T>)
  {
    if os == [] then []
    else
      var init := Somes(os[..|os| - 1]);
      match os[|os| - 1]
      case None => init
      case Some(x) => init + [x]
  }

  /** Which entries are present. */
  function Present<T>(os: seq<Option<T>>): (fs: seq<bool>)
    ensures |fs| == |os| && forall i :: 0 <= i < |os| ==> fs[i] == os[i].Some?
  {
    seq(|os|, i requires 0 <= i < |os| => os[i].Some?)
  }

  /** The `k`-th kept value is the value of the `k`-th present entry. */
  lemma {:induction false} SomesAt<T>(os: seq<Option<T>>)
    ensures |Somes(os)| == |Indices(Present(os))|
    ensures forall k :: 0 <= k < |Somes(os)| ==> os[Indices(Present(os))[k]] == Some(Somes(os)[k])
  {
    if os != [] {
      var n := |os| - 1;
      var init := os[..n];
      SomesAt(init);
      assert Present(os)[..n] == Present(init);
      var ks, ks0 := Indices(Present(os)), Indices(Present(init));
      var r, r0 := Somes(os), Somes(init);
      assert |ks| == |ks0| + (if os[n].Some? then 1 else 0);
      forall k | 0 <= k < |r|
        ensures os[ks[k]] == Some(r[k])
      {
        if k < |r0| {
          assert ks[k] == ks0[k] && r[k] == r0[k];
          assert os[ks0[k]] == init[ks0[k]];
        }
      }
    }
  }

  /** For parts cut after a marker, the title is the stripped first line itself. */
  lemma {:induction false} MarkerPairs(ps: seq<string>)
    requires forall i :: 0 <= i < |ps| ==> ps[i] == [] || !IsSpace(ps[i][0])
    ensures |PartsSubsections(ps)| == |Kept(ps)|
    ensures forall k :: 0 <= k < |Kept(ps)| ==>
      PartsSubsections(ps)[k] == (Strip(Head(ps[Kept(ps)[k]])), Strip(Rest(ps[Kept(ps)[k]])))
  {
    PartsSubsectionsKept(ps);
    var ks := Kept(ps);
    forall k | 0 <= k < |ks|
      ensures Title(Head(ps[ks[k]])) == Strip(Head(ps[ks[k]]))
    {
      PartTitleIsFirstLine(ps[ks[k]]);
    }
  }

  /**
   * A part loses nothing but whitespace, except in two cases: a part whose
   * body is blank yields nothing, so its title line is dropped, and a blank
   * title line is replaced by `SUBSECTION`. Otherwise the part is newlines,
   * then the title padded with whitespace, a newline, and the body padded
   * with whitespace, then newlines.
   */
  lemma {:induction false} PartSubsectionLossless(part: string)
    ensures var p := StripChar(part, '\n');
      && Surrounded(part, p, '\n')
      && ('\n' in p ==> p == Head(part) + "\n" + Rest(part))
      && ('\n' !in p ==> p == Head(part) && Rest(part) == [])
      && (PartSubsection(part).None? <==> AllSpace(Rest(part)))
      && (PartSubsection(part).Some? ==>
            && Padded(Rest(part), PartSubsection(part).value.1)
            && (Padded(Head(part), PartSubsection(part).value.0) ||
                (AllSpace(Head(part)) && PartSubsection(part).value.0 == "SUBSECTION")))
  {
    StripCharSurrounded(part, '\n');
    StripEmpty(Rest(part));
    StripPadded(Rest(part));
    StripPadded(Head(part));
    StripEmpty(Head(part));
  }

  /** `x` is `core` with whitespace around it. */
  ghost predicate Padded(x: string, core: string) {
    exists u, v :: AllSpace(u) && AllSpace(v) && x == u + core + v
  }

  /** `s` is `core` with runs of `c` around it. */
  ghost predicate Surrounded(s: string, core: string, c: char) {
    exists u, v :: AllChar(u, c) && AllChar(v, c) && s == u + core + v
  }

  predicate AllChar(s: string, c: char) {
    forall i :: 0 <= i < |s| ==> s[i] == c
  }

  lemma {:induction false} StripPadded(x: string)
    ensures Padded(x, Strip(x))
  {
    StripParts(x);
    var a := |x| - |LStrip(x)|;
    var b := a + |Strip(x)|;
    assert x == x[..a] + Strip(x) + x[b..];
  }

  lemma {:induction false} StripCharSurrounded(s: string, c: char)
    ensures Surrounded(s, StripChar(s, c), c)
  {
    var u, v := StripCharSplit(s, c);
  }

  lemma Regroup3<T>(w: seq<T>, x: seq<T>, y: seq<T>, z: seq<T>)
    ensures w + (x + y + z) == (w + x) + y + z
    ensures (w + x + y) + z == w + x + (y + z)
  {
  }

  lemma AllCharAppend(a: string, b: string, c: char)
    requires AllChar(a, c) && AllChar(b, c)
    ensures AllChar(a + b, c)
  {
  }

  /** The runs of `c` that `strip(c)` removes from each end. */
  lemma {:induction false} StripCharSplit(s: string, c: char) returns (u: string, v: string)
    ensures AllChar(u, c) && AllChar(v, c) && s == u + StripChar(s, c) + v
    decreases |s|
  {
    if s != [] && s[0] == c {
      var u', v' := StripCharSplit(s[1..], c);
      u, v := [c] + u', v';
      AllCharAppend([c], u', c);
      Regroup3([c], u', StripChar(s, c), v');
      assert s == [s[0]] + s[1..];
    } else if s != [] && s[|s| - 1] == c {
      var u', v' := StripCharSplit(s[..|s| - 1], c);
      u, v := u', v' + [c];
      AllCharAppend(v', [c], c);
      Regroup3(u', StripChar(s, c), v', [c]);
      assert s == s[..|s| - 1] + [c];
    } else {
      u, v := [], [];
    }
  }

  /**
   * The code drops a title whose body is blank: the text
   * `A\n### T1\n### T2\nB` is cut into `\nA`, `T1` and `T2\nB`, and `T1`
   * yields nothing, so only `BODY`/`A` and `T2`/`B` come out.
   */
  lemma DroppedTitle()
    ensures PartSubsection("T1") == None
    ensures PartsSubsections(["T1", "T2\nB"]) == [("T2", "B")]
  {
    BlankBodyYieldsNothing();
    TitledBodyYieldsPair();
    var parts := ["T1", "T2\nB"];
    assert parts[..1] == ["T1"] && ["T1"][..0] == [];
    PartsSubsectionsSnoc(parts);
    PartsSubsectionsSnoc(["T1"]);
  }

  lemma BlankBodyYieldsNothing()
    ensures PartSubsection("T1") == None
  {
    assert StripChar("T1", '\n') == "T1";
    assert Rest("T1") == [];
    StripStripped([]);
    PartSubsectionHasBody("T1");
  }

  lemma TitledBodyYieldsPair()
    ensures PartSubsection("T2\nB") == Some(("T2", "B"))
  {
    TitledBodyParts();
    StrippedWords();
    StripStripped("T2");
    StripStripped("B");
    PartSubsectionHasBody("T2\nB");
  }

  lemma TitledBodyParts()
    ensures Head("T2\nB") == "T2" && Rest("T2\nB") == "B"
  {
    var p := StripChar("T2\nB", '\n');
    assert p == "T2\nB";
    assert IndexOf(p, '\n') == 2;
    assert p[..2] == "T2" && p[3..] == "B";
  }

  lemma StrippedWords()
    ensures IsStripped("T2") && IsStripped("B")
  {
    assert !IsSpace('T') && !IsSpace('2') && !IsSpace('B');
  }

  /** The loop is order-preserving: the parts of a concatenation yield in sequence. */
  lemma {:induction false} PartsSubsectionsAppend(a: seq<string>, b: seq<string>)
    ensures PartsSubsections(a + b) == PartsSubsections(a) + PartsSubsections(b)
    decreases |b|
  {
    if b == [] {
      assert a + b == a;
    } else {
      var b' := b[..|b| - 1];
      assert (a + b)[..|a + b| - 1] == a + b';
      assert (a + b)[|a + b| - 1] == b[|b| - 1];
      PartsSubsectionsAppend(a, b');
    }
  }

  /** Every yielded pair comes from one part. */
  lemma {:induction false} PartsSubsectionsFrom(parts: seq<string>)
    ensures forall q :: q in PartsSubsections(parts) ==>
      exists i :: 0 <= i < |parts| && PartSubsection(parts[i]) == Some(q)
  {
    if parts != [] {
      var init := parts[..|parts| - 1];
      var last := |parts| - 1;
      PartsSubsectionsFrom(init);
      PartsSubsectionsSnoc(parts);
      forall q | q in PartsSubsections(parts)
        ensures exists i :: 0 <= i < |parts| && PartSubsection(parts[i]) == Some(q)
      {
        if q in PartsSubsections(init) {
          var i :| 0 <= i < |init| && PartSubsection(init[i]) == Some(q);
          assert parts[i] == init[i];
        } else {
          assert PartSubsection(parts[last]) == Some(q);
        }
      }
    }
  }

  /** The last part adds at most its own pair. */
  lemma PartsSubsectionsSnoc(parts: seq<string>)
    requires parts != []
    ensures var init := PartsSubsections(parts[..|parts| - 1]);
      var r := PartSubsection(parts[|parts| - 1]);
      && (r.None? ==> PartsSubsections(parts) == init)
      && (r.Some? ==> PartsSubsections(parts) == init + [r.value])
  {
  }

  /** No part is skipped when every part has a body. */
  lemma {:induction false} PartsSubsectionsAll(parts: seq<string>)
    requires forall i :: 0 <= i < |parts| ==> PartSubsection(parts[i]).Some?
    ensures |PartsSubsections(parts)| == |parts|
  {
    if parts != [] {
      var init := parts[..|parts| - 1];
      assert forall i :: 0 <= i < |init| ==> init[i] == parts[i];
      PartsSubsectionsAll(init);
    }
  }

  /**
   * The `"SUBSECTION"` fallback never fires: a part that starts with a
   * non-whitespace character has a non-blank first line, so its title is
   * that line, stripped.
   */
  lemma {:induction false} PartTitleIsFirstLine(part: string)
    requires part == [] || !IsSpace(part[0])
    requires PartSubsection(part).Some?
    ensures PartSubsection(part).value.0 == Strip(Partition(StripChar(part, '\n')).0)
  {
    var p := StripChar(part, '\n');
    StripCharKeepsHead(part);
    var line := Partition(p).0;
    assert p[0] == part[0];
    assert line != [] && line[0] == p[0];
    if Strip(line) == [] {
      StripEmpty(line);
    }
  }

  /** Removing newlines keeps a first character that is not whitespace. */
  lemma {:induction false} StripCharKeepsHead(s: string)
    requires s != [] && !IsSpace(s[0])
    ensures StripChar(s, '\n') != [] && StripChar(s, '\n')[0] == s[0]
    decreases |s|
  {
    if s[|s| - 1] == '\n' {
      assert |s| > 1;
      StripCharKeepsHead(s[..|s| - 1]);
    }
  }

  /** Hence every title of a marker part is its first line, stripped. */
  lemma {:induction false} SubsectionTitles(text: string)
    requires NormalizeWhitespace(text) != []
    ensures var parts := Split(SubsectionMarker, "\n" + NormalizeWhitespace(text));
      forall i :: 1 <= i < |parts| && PartSubsection(parts[i]).Some? ==>
        PartSubsection(parts[i]).value.0 == Strip(Partition(StripChar(parts[i], '\n')).0)
  {
    var parts := Split(SubsectionMarker, "\n" + NormalizeWhitespace(text));
    MarkerPartsStartSolid("\n" + NormalizeWhitespace(text));
    forall i | 1 <= i < |parts| && PartSubsection(parts[i]).Some?
      ensures PartSubsection(parts[i]).value.0 == Strip(Partition(StripChar(parts[i], '\n')).0)
    {
      PartTitleIsFirstLine(parts[i]);
    }
  }
}
