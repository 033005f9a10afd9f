/**
 * `chunk_repo_patent_txt` without the file read: the raw text, the file's
 * stem and its path are inputs. The document is parsed, each non-blank
 * section is chunked (DESCRIPTION subsection by subsection), and one
 * `Chunk` record is emitted per piece.
 */
module Assembler {
  import opened Wrappers
  import opened Strings
  import opened Dicts
  import opened Whitespace
  import RepoTxt
  import Language
  import Headings
  import Subsections
  import Chunker

  /** The `Chunk` record. */
  datatype Chunk = Chunk(docId: string, section: string, chunkIndex: nat, text: string, sourcePath: Option<string>)

  const DocumentNumberKey: string := "Document Number"
  const DescriptionName: string := "DESCRIPTION"
  const DescriptionPrefix: string := "DESCRIPTION::"

  /** `header.get("Document Number") or stem` */
  function DocId(header: Dict, stem: string): (id: string)
    ensures Get(header, DocumentNumberKey).Some? && Get(header, DocumentNumberKey).value != [] ==>
      id == Get(header, DocumentNumberKey).value
    ensures Get(header, DocumentNumberKey).None? || Get(header, DocumentNumberKey).value == [] ==>
      id == stem
  {
    match Get(header, DocumentNumberKey)
    case Some(v) => if v != [] then v else stem
    case None => stem
  }

  /** One record per piece, numbered from 0 in order. */
  function Emit(docId: string, tag: string, pieces: seq<string>, src: string): (cs: seq<Chunk>)
    ensures |cs| == |pieces|
    ensures forall i :: 0 <= i < |pieces| ==> cs[i] == Chunk(docId, tag, i, pieces[i], Some(src))
  {
    seq(|pieces|, i requires 0 <= i < |pieces| => Chunk(docId, tag, i, pieces[i], Some(src)))
  }

  /** The records of the DESCRIPTION subsections, in order. */
  function SubsectionChunks(docId: string, subs: seq<(string, string)>, src: string, maxChars: int, overlap: int): seq<Chunk>
  {
    if subs == [] then []
    else
      var last := subs[|subs| - 1];
      SubsectionChunks(docId, subs[..|subs| - 1], src, maxChars, overlap) +
      Emit(docId, DescriptionPrefix + last.0, Chunker.ChunkText(last.1, maxChars, overlap), src)
  }

  /** The records of one section. */
  function SectionChunks(docId: string, lang: string, name: string, text: string, src: string, maxChars: int, overlap: int): seq<Chunk>
  {
    var t := NormalizeWhitespace(text);
    if t == [] then []
    else if name == DescriptionName then
      SubsectionChunks(docId, Subsections.IterSubsections(Headings.AddSubsectionMarkers(t, lang)), src, maxChars, overlap)
    else Emit(docId, name, Chunker.ChunkText(t, maxChars, overlap), src)
  }

  /** The records of the sections, in dictionary order. */
  function SectionsChunks(docId: string, lang: string, sections: Dict, src: string, maxChars: int, overlap: int): seq<Chunk>
  {
    if sections == [] then []
    else
      var (name, text) := sections[|sections| - 1];
      SectionsChunks(docId, lang, sections[..|sections| - 1], src, maxChars, overlap) +
      SectionChunks(docId, lang, name, text, src, maxChars, overlap)
  }

  /** `chunk_repo_patent_txt` on the file's text, stem and path. */
  function RepoChunks(raw: string, stem: string, src: string, maxChars: int, overlap: int): seq<Chunk>
  {
    var lines := SplitLines(raw);
    var docId := DocId(RepoTxt.Header(lines), stem);
    SectionsChunks(docId, Language.GuessDocLang(docId), RepoTxt.Sections(lines), src, maxChars, overlap)
  }

  // ---------------------------------------------------------------------
  // Properties
  // ---------------------------------------------------------------------

  /** Every record carries the document id and path, and a non-empty stripped text. */
  predicate Carries(cs: seq<Chunk>, docId: string, src: string) {
    forall i :: 0 <= i < |cs| ==>
      cs[i].docId == docId && cs[i].sourcePath == Some(src) && cs[i].text != [] && IsStripped(cs[i].text)
  }

  /**
   * `chunk_index` restarts at 0 or continues the run of the record before it,
   * under the same tag.
   */
  predicate Numbered(cs: seq<Chunk>) {
    forall i {:trigger cs[i]} :: 0 <= i < |cs| ==>
      cs[i].chunkIndex == 0 ||
      (i > 0 && cs[i - 1].section == cs[i].section && cs[i - 1].chunkIndex + 1 == cs[i].chunkIndex)
  }

  /** `DESCRIPTION::` followed by a non-empty subsection title. */
  predicate IsDescriptionLabel(s: string) {
    |s| > |DescriptionPrefix| && s[..|DescriptionPrefix|] == DescriptionPrefix
  }

  /** Each tag is a bare section name other than DESCRIPTION, or DESCRIPTION:: and a subsection title. */
  predicate Labelled(cs: seq<Chunk>, sections: Dict) {
    forall i :: 0 <= i < |cs| ==>
      (cs[i].section in Keys(sections) && cs[i].section != DescriptionName) ||
      IsDescriptionLabel(cs[i].section)
  }

  lemma {:induction false} EmitProperties(docId: string, tag: string, pieces: seq<string>, src: string)
    requires Chunker.AllSolid(pieces)
    ensures Carries(Emit(docId, tag, pieces, src), docId, src)
    ensures Numbered(Emit(docId, tag, pieces, src))
  {
  }

  lemma {:induction false} AppendProperties(a: seq<Chunk>, b: seq<Chunk>, docId: string, src: string)
    requires Carries(a, docId, src) && Carries(b, docId, src)
    requires Numbered(a) && Numbered(b)
    ensures Carries(a + b, docId, src) && Numbered(a + b)
  {
    var c := a + b;
    forall i | 0 <= i < |c|
      ensures c[i].chunkIndex == 0 ||
        (i > 0 && c[i - 1].section == c[i].section && c[i - 1].chunkIndex + 1 == c[i].chunkIndex)
    {
      if i < |a| {
        assert c[i] == a[i];
        if i > 0 {
          assert c[i - 1] == a[i - 1];
        }
      } else {
        var j := i - |a|;
        assert c[i] == b[j];
        if j > 0 {
          assert c[i - 1] == b[j - 1];
        }
      }
    }
  }

  lemma {:induction false} ChunkTextSolid(text: string, maxChars: int, overlap: int)
    ensures Chunker.AllSolid(Chunker.ChunkText(text, maxChars, overlap))
  {
    Chunker.ChunkTextShape(text, maxChars, overlap);
  }

  lemma {:induction false} SubsectionChunksProperties(docId: string, subs: seq<(string, string)>, src: string, maxChars: int, overlap: int)
    requires forall k :: 0 <= k < |subs| ==> subs[k].0 != []
    ensures Carries(SubsectionChunks(docId, subs, src, maxChars, overlap), docId, src)
    ensures Numbered(SubsectionChunks(docId, subs, src, maxChars, overlap))
    ensures forall c :: c in SubsectionChunks(docId, subs, src, maxChars, overlap) ==>
      IsDescriptionLabel(c.section)
  {
    if subs != [] {
      var init := subs[..|subs| - 1];
      var last := subs[|subs| - 1];
      SubsectionChunksProperties(docId, init, src, maxChars, overlap);
      var pieces := Chunker.ChunkText(last.1, maxChars, overlap);
      ChunkTextSolid(last.1, maxChars, overlap);
      EmitProperties(docId, DescriptionPrefix + last.0, pieces, src);
      AppendProperties(SubsectionChunks(docId, init, src, maxChars, overlap),
                       Emit(docId, DescriptionPrefix + last.0, pieces, src), docId, src);
    }
  }

  lemma {:induction false} SectionChunksProperties(docId: string, lang: string, name: string, text: string, src: string, maxChars: int, overlap: int)
    ensures Carries(SectionChunks(docId, lang, name, text, src, maxChars, overlap), docId, src)
    ensures Numbered(SectionChunks(docId, lang, name, text, src, maxChars, overlap))
    ensures forall c :: c in SectionChunks(docId, lang, name, text, src, maxChars, overlap) ==>
      (c.section == name && name != DescriptionName) ||
      (IsDescriptionLabel(c.section))
  {
    var t := NormalizeWhitespace(text);
    if t != [] {
      if name == DescriptionName {
        var subs := Subsections.IterSubsections(Headings.AddSubsectionMarkers(t, lang));
        SubsectionChunksProperties(docId, subs, src, maxChars, overlap);
      } else {
        ChunkTextSolid(t, maxChars, overlap);
        EmitProperties(docId, name, Chunker.ChunkText(t, maxChars, overlap), src);
      }
    }
  }

  lemma {:induction false} SectionsChunksProperties(docId: string, lang: string, sections: Dict, src: string, maxChars: int, overlap: int)
    ensures Carries(SectionsChunks(docId, lang, sections, src, maxChars, overlap), docId, src)
    ensures Numbered(SectionsChunks(docId, lang, sections, src, maxChars, overlap))
    ensures Labelled(SectionsChunks(docId, lang, sections, src, maxChars, overlap), sections)
  {
    if sections != [] {
      var init := sections[..|sections| - 1];
      var (name, text) := sections[|sections| - 1];
      SectionsChunksProperties(docId, lang, init, src, maxChars, overlap);
      SectionChunksProperties(docId, lang, name, text, src, maxChars, overlap);
      var a := SectionsChunks(docId, lang, init, src, maxChars, overlap);
      var b := SectionChunks(docId, lang, name, text, src, maxChars, overlap);
      AppendProperties(a, b, docId, src);
      LabelsAppend(a, b, init, sections, name);
    }
  }

  lemma {:induction false} LabelsAppend(a: seq<Chunk>, b: seq<Chunk>, init: Dict, sections: Dict, name: string)
    requires sections != [] && init == sections[..|sections| - 1] && name == sections[|sections| - 1].0
    requires Labelled(a, init)
    requires forall c :: c in b ==>
      (c.section == name && name != DescriptionName) ||
      (IsDescriptionLabel(c.section))
    ensures Labelled(a + b, sections)
  {
    assert Keys(sections) == Keys(init) + [name];
    var c := a + b;
    forall i | 0 <= i < |c|
      ensures (c[i].section in Keys(sections) && c[i].section != DescriptionName) ||
        IsDescriptionLabel(c[i].section)
    {
      if i < |a| {
        assert c[i] == a[i];
      } else {
        assert c[i] == b[i - |a|] && b[i - |a|] in b;
      }
    }
  }

  /**
   * The assembled records: every one carries the document id (the header's
   * `Document Number`, else the stem) and the path, and a non-empty stripped
   * text; `chunk_index` counts up from 0 within each run of one tag; and
   * only DESCRIPTION records are labelled `DESCRIPTION::<title>`.
   */
  lemma {:induction false} RepoChunksProperties(raw: string, stem: string, src: string, maxChars: int, overlap: int)
    ensures var lines := SplitLines(raw);
      var docId := DocId(RepoTxt.Header(lines), stem);
      var cs := RepoChunks(raw, stem, src, maxChars, overlap);
      && Carries(cs, docId, src)
      && Numbered(cs)
      && Labelled(cs, RepoTxt.Sections(lines))
  {
    var lines := SplitLines(raw);
    var docId := DocId(RepoTxt.Header(lines), stem);
    SectionsChunksProperties(docId, Language.GuessDocLang(docId), RepoTxt.Sections(lines), src, maxChars, overlap);
  }

  /** A section whose text is blank after normalisation emits nothing. */
  lemma {:induction false} BlankSectionSkipped(docId: string, lang: string, name: string, text: string, src: string, maxChars: int, overlap: int)
    requires NormalizeWhitespace(text) == []
    ensures SectionChunks(docId, lang, name, text, src, maxChars, overlap) == []
  {
  }

  /** A section other than DESCRIPTION is chunked whole, under its own name. */
  lemma {:induction false} PlainSectionChunks(docId: string, lang: string, name: string, text: string, src: string, maxChars: int, overlap: int)
    requires name != DescriptionName
    ensures var cs := SectionChunks(docId, lang, name, text, src, maxChars, overlap);
      && |cs| == |Chunker.ChunkText(NormalizeWhitespace(text), maxChars, overlap)|
      && forall i :: 0 <= i < |cs| ==>
           cs[i].section == name && cs[i].chunkIndex == i &&
           cs[i].text == Chunker.ChunkText(NormalizeWhitespace(text), maxChars, overlap)[i]
  {
    var t := NormalizeWhitespace(text);
    if t == [] {
      Chunker.ChunkTextShape(t, maxChars, overlap);
    }
  }

  /**
   * The DESCRIPTION section is chunked subsection by subsection: subsection
   * `j` of the marked, normalised text contributes one block of records,
   * tagged `DESCRIPTION::` and its title and numbered from 0, holding the
   * chunks of its body; the blocks follow each other in subsection order and
   * nothing else is emitted.
   */
  lemma {:induction false} DescriptionSectionChunks(docId: string, lang: string, text: string, src: string, maxChars: int, overlap: int)
    ensures var t := NormalizeWhitespace(text);
      var cs := SectionChunks(docId, lang, DescriptionName, text, src, maxChars, overlap);
      var subs := Subsections.IterSubsections(Headings.AddSubsectionMarkers(t, lang));
      && (t == [] ==> cs == [])
      && (t != [] ==> Blocks(cs, docId, subs, src, maxChars, overlap))
  {
    var t := NormalizeWhitespace(text);
    if t != [] {
      SubsectionChunksBlocks(docId, Subsections.IterSubsections(Headings.AddSubsectionMarkers(t, lang)), src, maxChars, overlap);
    }
  }

  /**
   * `cs` is the run of blocks of `subs`: the block of subsection `j` starts
   * where the blocks before it end, and its `i`-th record is the `i`-th chunk
   * of the subsection's body, under the subsection's tag, with index `i`.
   */
  ghost predicate Blocks(cs: seq<Chunk>, docId: string, subs: seq<(string, string)>, src: string, maxChars: int, overlap: int) {
    && BlockStart(docId, subs, 0, src, maxChars, overlap) == 0
    && BlockStart(docId, subs, |subs|, src, maxChars, overlap) == |cs|
    && forall j :: 0 <= j < |subs| ==> Block(cs, docId, subs, j, src, maxChars, overlap)
  }

  /** Where the block of subsection `j` starts: after the records of the subsections before it. */
  ghost function BlockStart(docId: string, subs: seq<(string, string)>, j: int, src: string, maxChars: int, overlap: int): nat
    requires 0 <= j <= |subs|
  {
    |SubsectionChunks(docId, subs[..j], src, maxChars, overlap)|
  }

  /** The block of subsection `j` sits in `cs` between its start and the next block's start. */
  ghost predicate Block(cs: seq<Chunk>, docId: string, subs: seq<(string, string)>, j: int, src: string, maxChars: int, overlap: int)
    requires 0 <= j < |subs|
  {
    var start := BlockStart(docId, subs, j, src, maxChars, overlap);
    var pieces := Chunker.ChunkText(subs[j].1, maxChars, overlap);
    && BlockStart(docId, subs, j + 1, src, maxChars, overlap) == start + |pieces|
    && start + |pieces| <= |cs|
    && forall i :: 0 <= i < |pieces| ==>
         cs[start + i] == Chunk(docId, DescriptionPrefix + subs[j].0, i, pieces[i], Some(src))
  }

  lemma {:induction false} SubsectionChunksBlocks(docId: string, subs: seq<(string, string)>, src: string, maxChars: int, overlap: int)
    ensures Blocks(SubsectionChunks(docId, subs, src, maxChars, overlap), docId, subs, src, maxChars, overlap)
  {
    var cs := SubsectionChunks(docId, subs, src, maxChars, overlap);
    forall j | 0 <= j < |subs|
      ensures Block(cs, docId, subs, j, src, maxChars, overlap)
    {
      SubsectionBlock(docId, subs, j, src, maxChars, overlap);
    }
    assert subs[..|subs|] == subs;
  }

  lemma {:induction false} SubsectionBlock(docId: string, subs: seq<(string, string)>, j: int, src: string, maxChars: int, overlap: int)
    requires 0 <= j < |subs|
    ensures Block(SubsectionChunks(docId, subs, src, maxChars, overlap), docId, subs, j, src, maxChars, overlap)
  {
    var cs := SubsectionChunks(docId, subs, src, maxChars, overlap);
    var p := SubsectionChunks(docId, subs[..j], src, maxChars, overlap);
    var pieces := Chunker.ChunkText(subs[j].1, maxChars, overlap);
    var e := Emit(docId, DescriptionPrefix + subs[j].0, pieces, src);
    SubsectionChunksStep(docId, subs, j, src, maxChars, overlap);
    SubsectionChunksPrefix(docId, subs, j + 1, src, maxChars, overlap);
    assert BlockStart(docId, subs, j + 1, src, maxChars, overlap) == |p| + |pieces|;
    forall i | 0 <= i < |pieces|
      ensures cs[|p| + i] == Chunk(docId, DescriptionPrefix + subs[j].0, i, pieces[i], Some(src))
    {
      PrefixAt(cs, p + e, p, e, i);
    }
  }

  /** The records of the first `j` subsections are a prefix of the records of all of them. */
  lemma {:induction false} SubsectionChunksPrefix(docId: string, subs: seq<(string, string)>, j: int, src: string, maxChars: int, overlap: int)
    requires 0 <= j <= |subs|
    ensures var p := SubsectionChunks(docId, subs[..j], src, maxChars, overlap);
      var cs := SubsectionChunks(docId, subs, src, maxChars, overlap);
      |p| <= |cs| && cs[..|p|] == p
    decreases |subs| - j
  {
    if j < |subs| {
      SubsectionChunksPrefix(docId, subs, j + 1, src, maxChars, overlap);
      SubsectionChunksStep(docId, subs, j, src, maxChars, overlap);
      PrefixOfPrefix(SubsectionChunks(docId, subs, src, maxChars, overlap),
                     SubsectionChunks(docId, subs[..j + 1], src, maxChars, overlap),
                     SubsectionChunks(docId, subs[..j], src, maxChars, overlap),
                     Emit(docId, DescriptionPrefix + subs[j].0, Chunker.ChunkText(subs[j].1, maxChars, overlap), src));
    } else {
      assert subs[..j] == subs;
    }
  }

  // ---------------------------------------------------------------------
  // The imperative shape of the source
  // ---------------------------------------------------------------------

  /** `results.append(Chunk(...))` for each piece, with `enumerate` numbering. */
  method AppendPieces(results: seq<Chunk>, docId: string, tag: string, pieces: seq<string>, src: string)
    returns (out: seq<Chunk>)
    ensures out == results + Emit(docId, tag, pieces, src)
  {
    out := results;
    for idx := 0 to |pieces|
      invariant out == results + Emit(docId, tag, pieces[..idx], src)
    {
      assert Emit(docId, tag, pieces[..idx + 1], src) == Emit(docId, tag, pieces[..idx], src) + [Chunk(docId, tag, idx, pieces[idx], Some(src))];
      out := out + [Chunk(docId, tag, idx, pieces[idx], Some(src))];
    }
    assert pieces[..|pieces|] == pieces;
  }

  method ChunkRepoPatentTxt(raw: string, stem: string, src: string, maxChars: int, overlap: int)
    returns (results: seq<Chunk>)
    ensures results == RepoChunks(raw, stem, src, maxChars, overlap)
  {
    var header, sections := RepoTxt.ParseRepoTxt(raw);
    var docId := DocId(header, stem);
    var lang := Language.GuessDocLang(docId);
    results := AppendSections([], docId, lang, sections, src, maxChars, overlap);
  }

  /** The loop over `sections.items()`. */
  method AppendSections(results: seq<Chunk>, docId: string, lang: string, sections: Dict,
                        src: string, maxChars: int, overlap: int)
    returns (out: seq<Chunk>)
    ensures out == results + SectionsChunks(docId, lang, sections, src, maxChars, overlap)
  {
    out := results;
    for s := 0 to |sections|
      invariant out == results + SectionsChunks(docId, lang, sections[..s], src, maxChars, overlap)
    {
      SectionsChunksStep(docId, lang, sections, s, src, maxChars, overlap);
      var (name, text) := sections[s];
      out := AppendSection(out, docId, lang, name, text, src, maxChars, overlap);
    }
    assert sections[..|sections|] == sections;
  }

  lemma {:induction false} SectionsChunksStep(docId: string, lang: string, sections: Dict, s: int, src: string, maxChars: int, overlap: int)
    requires 0 <= s < |sections|
    ensures SectionsChunks(docId, lang, sections[..s + 1], src, maxChars, overlap) ==
      SectionsChunks(docId, lang, sections[..s], src, maxChars, overlap) +
      SectionChunks(docId, lang, sections[s].0, sections[s].1, src, maxChars, overlap)
  {
    assert sections[..s + 1][..s] == sections[..s];
  }

  /** The body of the loop over `sections.items()`. */
  method AppendSection(results: seq<Chunk>, docId: string, lang: string, name: string, text: string,
                       src: string, maxChars: int, overlap: int)
    returns (out: seq<Chunk>)
    ensures out == results + SectionChunks(docId, lang, name, text, src, maxChars, overlap)
  {
    out := results;
    var sectionText := NormalizeWhitespace(text);
    if sectionText == [] {
      return;
    }
    if name == DescriptionName {
      var marked := Headings.AddMarkers(sectionText, lang);
      var subs := Subsections.IterSubsections(marked);
      out := AppendSubsections(out, docId, subs, src, maxChars, overlap);
    } else {
      var pieces := Chunker.ChunkTextLoop(sectionText, maxChars, overlap);
      out := AppendPieces(out, docId, name, pieces, src);
    }
  }

  lemma {:induction false} SubsectionChunksStep(docId: string, subs: seq<(string, string)>, j: int, src: string, maxChars: int, overlap: int)
    requires 0 <= j < |subs|
    ensures SubsectionChunks(docId, subs[..j + 1], src, maxChars, overlap) ==
      SubsectionChunks(docId, subs[..j], src, maxChars, overlap) +
      Emit(docId, DescriptionPrefix + subs[j].0, Chunker.ChunkText(subs[j].1, maxChars, overlap), src)
  {
    assert subs[..j + 1][..j] == subs[..j];
  }

  /** The inner loop over `iter_subsections(section_text)`. */
  method AppendSubsections(results: seq<Chunk>, docId: string, subs: seq<(string, string)>,
                           src: string, maxChars: int, overlap: int)
    returns (out: seq<Chunk>)
    ensures out == results + SubsectionChunks(docId, subs, src, maxChars, overlap)
  {
    out := results;
    for j := 0 to |subs|
      invariant out == results + SubsectionChunks(docId, subs[..j], src, maxChars, overlap)
    {
      SubsectionChunksStep(docId, subs, j, src, maxChars, overlap);
      out := AppendSubsection(out, docId, subs[j].0, subs[j].1, src, maxChars, overlap);
    }
    assert subs[..|subs|] == subs;
  }

  /** The records of one subsection, tagged `DESCRIPTION::<title>`. */
  method AppendSubsection(results: seq<Chunk>, docId: string, title: string, body: string,
                          src: string, maxChars: int, overlap: int)
    returns (out: seq<Chunk>)
    ensures out == results + Emit(docId, DescriptionPrefix + title, Chunker.ChunkText(body, maxChars, overlap), src)
  {
    var pieces := Chunker.ChunkTextLoop(body, maxChars, overlap);
    out := AppendPieces(results, docId, DescriptionPrefix + title, pieces, src);
  }
}
