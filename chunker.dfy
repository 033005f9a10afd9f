/**
 * `chunk_text`: split a text into paragraphs, pack consecutive paragraphs
 * greedily into chunks of at most `max_chars` characters, then prefix every
 * chunk after the first with the tail of the chunk before it.
 */
module Chunker {
  import opened Strings
  import opened Whitespace
  import opened Splitting

  /** The separator put between paragraphs of a chunk and before an overlap tail. */
  const Sep: string := "\n\n"

  /** Every piece is non-empty and stripped. */
  predicate AllSolid(ps: seq<string>) {
    forall i :: 0 <= i < |ps| ==> ps[i] != [] && IsStripped(ps[i])
  }

  // ---------------------------------------------------------------------
  // Paragraphs: [p.strip() for p in re.split(r"\n\n+", text) if p.strip()]
  // ---------------------------------------------------------------------

  /** The stripped parts that are not blank, in order. */
  function SolidParts(parts: seq<string>): (r: seq<string>)
    ensures AllSolid(r)
    ensures |r| <= |parts|
  {
    if parts == [] then []
    else
      var rest := SolidParts(parts[1..]);
      if Strip(parts[0]) != [] then [Strip(parts[0])] + rest else rest
  }

  function Paragraphs(t: string): (ps: seq<string>)
    ensures AllSolid(ps)
  {
    SolidParts(Split(ParagraphBreak, t))
  }

  /** Only blank parts give no paragraph. */
  lemma {:induction false} SolidPartsEmpty(parts: seq<string>)
    requires SolidParts(parts) == []
    ensures forall i :: 0 <= i < |parts| ==> AllSpace(parts[i])
  {
    if parts != [] {
      StripEmpty(parts[0]);
      SolidPartsEmpty(parts[1..]);
      assert forall i :: 1 <= i < |parts| ==> parts[i] == parts[1..][i - 1];
    }
  }

  lemma {:induction false} InterleaveAllSpace(parts: seq<string>, delims: seq<string>)
    requires |parts| == |delims| + 1
    requires forall i :: 0 <= i < |parts| ==> AllSpace(parts[i])
    requires forall t :: t in delims ==> AllSpace(t)
    ensures AllSpace(Interleave(parts, delims))
    decreases |parts|
  {
    if |parts| > 1 {
      assert delims[0] in delims;
      assert forall t :: t in delims[1..] ==> t in delims;
      InterleaveAllSpace(parts[1..], delims[1..]);
    }
  }

  /** A text that is not all whitespace has at least one paragraph. */
  lemma {:induction false} ParagraphsOfSolidText(t: string)
    requires !AllSpace(t)
    ensures Paragraphs(t) != []
  {
    if Paragraphs(t) == [] {
      var r := SplitWithDelimiters(ParagraphBreak, t);
      SolidPartsEmpty(r.0);
      SplitDelimitersMatch(ParagraphBreak, t);
      SplitRejoin(ParagraphBreak, t);
      InterleaveAllSpace(r.0, r.1);
      assert false;
    }
  }

  // ---------------------------------------------------------------------
  // Greedy packing
  // ---------------------------------------------------------------------

  /**
   * The packing loop after some paragraphs, as groups of paragraphs: the
   * chunks already pushed and the paragraphs in `buf`.
   */
  function PackGroups(paras: seq<string>, maxChars: int): (r: (seq<seq<string>>, seq<string>))
  {
    if paras == [] then ([], [])
    else
      var (done, cur) := PackGroups(paras[..|paras| - 1], maxChars);
      var p := paras[|paras| - 1];
      if cur == [] then (done, [p])
      else if |Join(cur, Sep)| + 2 + |p| <= maxChars then (done, cur + [p])
      else (done + [cur], [p])
  }

  /** The final grouping, after the last `push_buf()`. */
  function Groups(paras: seq<string>, maxChars: int): (gs: seq<seq<string>>)
  {
    var (done, cur) := PackGroups(paras, maxChars);
    if cur == [] then done else done + [cur]
  }

  function Joins(gs: seq<seq<string>>): (r: seq<string>)
    ensures |r| == |gs|
    ensures forall i :: 0 <= i < |gs| ==> r[i] == Join(gs[i], Sep)
  {
    seq(|gs|, i requires 0 <= i < |gs| => Join(gs[i], Sep))
  }

  /** The chunks before overlap. */
  function Packed(paras: seq<string>, maxChars: int): (chunks: seq<string>)
  {
    Joins(Groups(paras, maxChars))
  }

  function Flatten(gs: seq<seq<string>>): (r: seq<string>)
  {
    if gs == [] then [] else Flatten(gs[..|gs| - 1]) + gs[|gs| - 1]
  }

  /** A group fits, or it is one paragraph (which is never split). */
  predicate Fits(g: seq<string>, maxChars: int) {
    |Join(g, Sep)| <= maxChars || |g| == 1
  }

  /** No group could have taken the first paragraph of the next one. */
  predicate Tight(gs: seq<seq<string>>, maxChars: int) {
    forall i :: 0 <= i < |gs| - 1 ==> gs[i + 1] == [] || |Join(gs[i], Sep)| + 2 + |gs[i + 1][0]| > maxChars
  }

  /** What the packing loop keeps true after every paragraph. */
  predicate PackInvariant(paras: seq<string>, done: seq<seq<string>>, cur: seq<string>, maxChars: int) {
    && Flatten(done) + cur == paras
    && (cur == [] <==> paras == [])
    && (forall i :: 0 <= i < |done| ==> done[i] != [] && Fits(done[i], maxChars))
    && (cur != [] ==> Fits(cur, maxChars))
    && Tight(done + [cur], maxChars)
  }

  lemma {:induction false} PackGroupsInvariant(paras: seq<string>, maxChars: int)
    ensures PackInvariant(paras, PackGroups(paras, maxChars).0, PackGroups(paras, maxChars).1, maxChars)
  {
    if paras != [] {
      var init := paras[..|paras| - 1];
      var p := paras[|paras| - 1];
      PackGroupsInvariant(init, maxChars);
      var (done, cur) := PackGroups(init, maxChars);
      assert init + [p] == paras;
      if cur == [] {
        PackStart(done, p, maxChars);
      } else if |Join(cur, Sep)| + 2 + |p| <= maxChars {
        PackExtend(init, done, cur, p, maxChars);
      } else {
        PackPush(init, done, cur, p, maxChars);
      }
    }
  }

  lemma {:induction false} PackStart(done: seq<seq<string>>, p: string, maxChars: int)
    requires PackInvariant([], done, [], maxChars)
    ensures PackInvariant([p], done, [p], maxChars)
  {
    assert done == [] by {
      if done != [] {
        FlattenNonEmpty(done);
      }
    }
    assert Flatten(done) == [];
  }

  lemma {:induction false} PackExtend(init: seq<string>, done: seq<seq<string>>, cur: seq<string>, p: string, maxChars: int)
    requires PackInvariant(init, done, cur, maxChars) && cur != []
    requires |Join(cur, Sep)| + 2 + |p| <= maxChars
    ensures PackInvariant(init + [p], done, cur + [p], maxChars)
  {
    JoinSnoc(cur, p, Sep);
    assert Flatten(done) + (cur + [p]) == (Flatten(done) + cur) + [p];
    var gs := done + [cur + [p]];
    var old_gs := done + [cur];
    forall i | 0 <= i < |gs| - 1
      ensures gs[i + 1] == [] || |Join(gs[i], Sep)| + 2 + |gs[i + 1][0]| > maxChars
    {
      assert gs[i] == old_gs[i];
      assert gs[i + 1][0] == old_gs[i + 1][0];
    }
  }

  lemma {:induction false} PackPush(init: seq<string>, done: seq<seq<string>>, cur: seq<string>, p: string, maxChars: int)
    requires PackInvariant(init, done, cur, maxChars) && cur != []
    requires |Join(cur, Sep)| + 2 + |p| > maxChars
    ensures PackInvariant(init + [p], done + [cur], [p], maxChars)
  {
    var done' := done + [cur];
    assert done'[..|done'| - 1] == done;
    assert Flatten(done') + [p] == (Flatten(done) + cur) + [p];
    var gs := done' + [[p]];
    var old_gs := done + [cur];
    forall i | 0 <= i < |gs| - 1
      ensures gs[i + 1] == [] || |Join(gs[i], Sep)| + 2 + |gs[i + 1][0]| > maxChars
    {
      if i < |gs| - 2 {
        assert gs[i] == old_gs[i] && gs[i + 1] == old_gs[i + 1];
      }
    }
  }

  lemma {:induction false} FlattenNonEmpty(gs: seq<seq<string>>)
    requires gs != [] && gs[|gs| - 1] != []
    ensures Flatten(gs) != []
  {
  }

  /** Packing keeps the paragraphs, in order: the groups flatten back to them. */
  lemma {:induction false} GroupsFlatten(paras: seq<string>, maxChars: int)
    ensures Flatten(Groups(paras, maxChars)) == paras
  {
    PackGroupsInvariant(paras, maxChars);
    var (done, cur) := PackGroups(paras, maxChars);
    if cur != [] {
      var gs := done + [cur];
      assert gs[..|gs| - 1] == done;
    }
  }

  /** Every group is non-empty, fits or is a lone paragraph, and could not take the next paragraph. */
  lemma {:induction false} GroupsShape(paras: seq<string>, maxChars: int)
    ensures forall i :: 0 <= i < |Groups(paras, maxChars)| ==>
      Groups(paras, maxChars)[i] != [] && Fits(Groups(paras, maxChars)[i], maxChars)
    ensures Tight(Groups(paras, maxChars), maxChars)
  {
    PackGroupsInvariant(paras, maxChars);
    var (done, cur) := PackGroups(paras, maxChars);
  }

  /** Joining groups of solid paragraphs gives a solid chunk. */
  lemma {:induction false} JoinSolid(ps: seq<string>)
    requires ps != [] && AllSolid(ps)
    ensures Join(ps, Sep) != [] && IsStripped(Join(ps, Sep))
    ensures Join(ps, Sep)[0] == ps[0][0]
  {
    if |ps| > 1 {
      JoinSolid(ps[1..]);
      var j := Join(ps, Sep);
      var rest := Join(ps[1..], Sep);
      assert j == ps[0] + Sep + rest;
      assert j[|j| - 1] == rest[|rest| - 1];
    }
  }

  lemma {:induction false} JoinsFlatten(gs: seq<seq<string>>)
    requires forall i :: 0 <= i < |gs| ==> gs[i] != []
    ensures Join(Joins(gs), Sep) == Join(Flatten(gs), Sep)
  {
    if |gs| > 1 {
      var init := gs[..|gs| - 1];
      var g := gs[|gs| - 1];
      JoinsFlatten(init);
      assert Joins(gs) == Joins(init) + [Join(g, Sep)];
      JoinSnoc(Joins(init), Join(g, Sep), Sep);
      FlattenNonEmpty(init);
      JoinAppend(Flatten(init), g, Sep);
    } else if |gs| == 1 {
      assert gs[..0] == [];
      assert Flatten(gs) == gs[0];
    }
  }

  /**
   * Packing loses nothing: the chunks joined with a blank line are the
   * paragraphs joined with a blank line.
   */
  lemma {:induction false} PackedLossless(paras: seq<string>, maxChars: int)
    ensures Join(Packed(paras, maxChars), Sep) == Join(paras, Sep)
  {
    GroupsShape(paras, maxChars);
    GroupsFlatten(paras, maxChars);
    JoinsFlatten(Groups(paras, maxChars));
  }

  /**
   * Every chunk is non-empty and stripped, and is no longer than `maxChars`
   * unless it is a single paragraph; no chunk could have taken the first
   * paragraph of the next one.
   */
  lemma {:induction false} PackedShape(paras: seq<string>, maxChars: int)
    requires AllSolid(paras)
    ensures var chunks := Packed(paras, maxChars);
      && AllSolid(chunks)
      && (chunks == [] <==> paras == [])
      && (forall i :: 0 <= i < |chunks| ==>
            |chunks[i]| <= maxChars || (chunks[i] in paras && Groups(paras, maxChars)[i] == [chunks[i]]))
      && (forall i :: 0 <= i < |chunks| - 1 ==>
            |chunks[i]| + 2 + |Groups(paras, maxChars)[i + 1][0]| > maxChars)
  {
    var gs := Groups(paras, maxChars);
    var chunks := Packed(paras, maxChars);
    GroupsShape(paras, maxChars);
    GroupsFlatten(paras, maxChars);
    forall i | 0 <= i < |gs|
      ensures AllSolid(gs[i]) && (forall k :: 0 <= k < |gs[i]| ==> gs[i][k] in paras)
    {
      FlattenMember(gs, i);
    }
    forall i | 0 <= i < |chunks|
      ensures chunks[i] != [] && IsStripped(chunks[i])
    {
      JoinSolid(gs[i]);
    }
    if paras != [] {
      assert gs != [];
    }
  }

  /** Each paragraph of a group is one of the flattened paragraphs. */
  lemma {:induction false} FlattenMember(gs: seq<seq<string>>, i: nat)
    requires i < |gs|
    ensures forall k :: 0 <= k < |gs[i]| ==> gs[i][k] in Flatten(gs)
    ensures forall ps :: AllSolid(Flatten(gs)) && ps == gs[i] ==> AllSolid(ps)
  {
    var init := gs[..|gs| - 1];
    if i < |gs| - 1 {
      FlattenMember(init, i);
      assert init[i] == gs[i];
    }
    forall k | 0 <= k < |gs[i]| ensures gs[i][k] in Flatten(gs) {
      if i == |gs| - 1 {
        assert gs[i][k] == Flatten(gs)[|Flatten(init)| + k];
      }
    }
  }

  // ---------------------------------------------------------------------
  // Overlap
  // ---------------------------------------------------------------------

  /** `s[-n:]` for `n > 0`: the whole of `s` when it is shorter. */
  function Tail(s: string, n: int): (t: string)
    requires n > 0
    ensures |t| == if n < |s| then n else |s|
    ensures EndsWith(s, t)
  {
    if n < |s| then s[|s| - n..] else s
  }

  /** Chunk `i > 0` after overlap. */
  function WithOverlap(chunks: seq<string>, overlap: int, i: nat): string
    requires overlap > 0 && 0 < i < |chunks|
  {
    Strip(Tail(chunks[i - 1], overlap) + Sep + chunks[i])
  }

  function Overlap(chunks: seq<string>, overlap: int): (out: seq<string>)
    ensures |out| == |chunks|
  {
    if overlap > 0 && |chunks| > 1 then
      seq(|chunks|, i requires 0 <= i < |chunks| => if i == 0 then chunks[0] else WithOverlap(chunks, overlap, i))
    else chunks
  }

  /**
   * With a positive overlap, chunk `i > 0` is the previous chunk's tail
   * (left-stripped), a blank line, and the chunk itself; the first chunk is
   * unchanged.
   */
  lemma {:induction false} OverlapShape(chunks: seq<string>, overlap: int)
    requires AllSolid(chunks)
    ensures AllSolid(Overlap(chunks, overlap))
    ensures overlap <= 0 || |chunks| <= 1 ==> Overlap(chunks, overlap) == chunks
    ensures overlap > 0 && |chunks| > 1 ==>
      && Overlap(chunks, overlap)[0] == chunks[0]
      && forall i :: 0 < i < |chunks| ==>
           && Overlap(chunks, overlap)[i] == LStrip(Tail(chunks[i - 1], overlap)) + Sep + chunks[i]
           && EndsWith(Overlap(chunks, overlap)[i], chunks[i])
  {
    if overlap > 0 && |chunks| > 1 {
      var out := Overlap(chunks, overlap);
      forall i | 0 < i < |chunks|
        ensures out[i] == LStrip(Tail(chunks[i - 1], overlap)) + Sep + chunks[i]
        ensures EndsWith(out[i], chunks[i])
        ensures out[i] != [] && IsStripped(out[i])
      {
        OverlapAt(chunks, overlap, i);
      }
    }
  }

  /** Overlap makes a chunk longer by at most the overlap and the blank line. */
  lemma {:induction false} OverlapBound(chunks: seq<string>, overlap: int)
    requires AllSolid(chunks)
    ensures forall i :: 0 <= i < |chunks| ==>
      |Overlap(chunks, overlap)[i]| <= |chunks[i]| + (if overlap > 0 then overlap + |Sep| else 0)
  {
    OverlapShape(chunks, overlap);
    if overlap > 0 && |chunks| > 1 {
      var out := Overlap(chunks, overlap);
      forall i | 0 < i < |chunks|
        ensures |out[i]| <= |chunks[i]| + overlap + |Sep|
      {
        var t := Tail(chunks[i - 1], overlap);
        assert out[i] == LStrip(t) + Sep + chunks[i];
        assert |LStrip(t)| <= |t| <= overlap;
      }
    }
  }

  lemma {:induction false} OverlapAt(chunks: seq<string>, overlap: int, i: nat)
    requires AllSolid(chunks) && overlap > 0 && 0 < i < |chunks|
    ensures WithOverlap(chunks, overlap, i) == LStrip(Tail(chunks[i - 1], overlap)) + Sep + chunks[i]
    ensures EndsWith(WithOverlap(chunks, overlap, i), chunks[i])
    ensures WithOverlap(chunks, overlap, i) != []
  {
    var prev := chunks[i - 1];
    var t := Tail(prev, overlap);
    assert t != [] && t[|t| - 1] == prev[|prev| - 1];
    OverlapChunk(t, chunks[i]);
  }

  lemma {:induction false} OverlapChunk(tail: string, cur: string)
    requires tail != [] && !IsSpace(tail[|tail| - 1])
    requires cur != [] && IsStripped(cur)
    ensures Strip(tail + Sep + cur) == LStrip(tail) + Sep + cur
    ensures EndsWith(LStrip(tail) + Sep + cur, cur)
  {
    StripAround(tail, Sep, cur);
    EndsWithAppend(LStrip(tail) + Sep, cur);
  }

  lemma {:induction false} EndsWithAppend(a: string, b: string)
    ensures EndsWith(a + b, b)
  {
    assert (a + b)[|a|..] == b;
  }

  /** Stripping `tail + sep + cur` only removes the leading whitespace of `tail`. */
  lemma {:induction false} StripAround(tail: string, sep: string, cur: string)
    requires tail != [] && !IsSpace(tail[|tail| - 1])
    requires cur != [] && !IsSpace(cur[|cur| - 1])
    ensures Strip(tail + sep + cur) == LStrip(tail) + sep + cur
  {
    LStripAround(tail, sep, cur);
    LastOfAppend(LStrip(tail) + sep, cur);
    StripOfLStripped(tail + sep + cur, LStrip(tail) + sep + cur);
  }

  lemma {:induction false} LastOfAppend(a: string, b: string)
    requires b != []
    ensures (a + b)[|a + b| - 1] == b[|b| - 1]
  {
  }

  lemma {:induction false} StripOfLStripped(x: string, l: string)
    requires LStrip(x) == l && l != [] && !IsSpace(l[|l| - 1])
    ensures Strip(x) == l
  {
    RStripSolidEnd(l);
  }

  lemma {:induction false} LStripAround(tail: string, sep: string, cur: string)
    requires tail != [] && !IsSpace(tail[|tail| - 1])
    ensures LStrip(tail + sep + cur) == LStrip(tail) + sep + cur
  {
    LStripKeepsLast(tail);
    LStripAppend(tail, sep + cur);
    assert tail + sep + cur == tail + (sep + cur);
    assert LStrip(tail) + sep + cur == LStrip(tail) + (sep + cur);
  }

  lemma {:induction false} LStripKeepsLast(s: string)
    requires s != [] && !IsSpace(s[|s| - 1])
    ensures LStrip(s) != []
  {
    SpacesFromAreSpace(s, 0);
  }

  lemma {:induction false} RStripSolidEnd(s: string)
    requires s != [] && !IsSpace(s[|s| - 1])
    ensures RStrip(s) == s
  {
    TrailingSpaceIs(s, |s|);
  }

  // ---------------------------------------------------------------------
  // The whole function
  // ---------------------------------------------------------------------

  /** `chunk_text(text, max_chars, overlap)` */
  function ChunkText(text: string, maxChars: int, overlap: int): (chunks: seq<string>)
  {
    var t := NormalizeWhitespace(text);
    if t == [] then [] else Overlap(Packed(Paragraphs(t), maxChars), overlap)
  }

  /**
   * No chunks exactly for blank text; every chunk is non-empty and stripped;
   * without overlap the chunks are the packed paragraphs.
   */
  lemma {:induction false} ChunkTextShape(text: string, maxChars: int, overlap: int)
    ensures ChunkText(text, maxChars, overlap) == [] <==> NormalizeWhitespace(text) == []
    ensures AllSolid(ChunkText(text, maxChars, overlap))
    ensures overlap <= 0 ==>
      ChunkText(text, maxChars, overlap) == Packed(Paragraphs(NormalizeWhitespace(text)), maxChars)
  {
    var t := NormalizeWhitespace(text);
    if t != [] {
      NormalizeWhitespaceIsNormalized(text);
      assert !IsSpace(t[0]);
      ParagraphsOfSolidText(t);
      PackedShape(Paragraphs(t), maxChars);
      OverlapShape(Packed(Paragraphs(t), maxChars), overlap);
    }
  }

  /**
   * The imperative shape of the source: the packing loop with its `buf`
   * and `push_buf()`, then the overlap loop over consecutive chunks.
   */
  method ChunkTextLoop(text: string, maxChars: int, overlap: int) returns (chunks: seq<string>)
    ensures chunks == ChunkText(text, maxChars, overlap)
  {
    var t := NormalizeWhitespace(text);
    if t == [] {
      return [];
    }
    var paragraphs := Paragraphs(t);
    chunks := [];
    var buf := "";
    for k := 0 to |paragraphs|
      invariant PackedSoFar(paragraphs, k, maxChars, chunks, buf)
    {
      var p := paragraphs[k];
      PackLoopStep(paragraphs, k, maxChars, chunks, buf);
      if buf == [] {
        buf := p;
      } else if |buf| + 2 + |p| <= maxChars {
        buf := buf + Sep + p;
      } else {
        if Strip(buf) != [] {
          chunks := chunks + [Strip(buf)];
        }
        buf := p;
      }
    }
    PackLoopEnd(paragraphs, maxChars, chunks, buf);
    if Strip(buf) != [] {
      chunks := chunks + [Strip(buf)];
    }
    buf := "";
    chunks := OverlapLoop(chunks, overlap);
  }

  /** The loop state after `k` paragraphs: pushed chunks and `buf`. */
  ghost predicate PackedSoFar(paras: seq<string>, k: nat, maxChars: int, chunks: seq<string>, buf: string)
  {
    && k <= |paras|
    && AllSolid(paras)
    && chunks == Joins(PackGroups(paras[..k], maxChars).0)
    && buf == Join(PackGroups(paras[..k], maxChars).1, Sep)
    && AllSolid(PackGroups(paras[..k], maxChars).1)
  }

  lemma {:induction false} PackLoopStep(paras: seq<string>, k: nat, maxChars: int, chunks: seq<string>, buf: string)
    requires PackedSoFar(paras, k, maxChars, chunks, buf) && k < |paras|
    ensures var p := paras[k];
      && (buf == [] ==> PackedSoFar(paras, k + 1, maxChars, chunks, p))
      && (buf != [] && |buf| + 2 + |p| <= maxChars ==>
            PackedSoFar(paras, k + 1, maxChars, chunks, buf + Sep + p))
      && (buf != [] && |buf| + 2 + |p| > maxChars ==>
            Strip(buf) == buf != [] && PackedSoFar(paras, k + 1, maxChars, chunks + [Strip(buf)], p))
  {
    var p := paras[k];
    assert paras[..k + 1][..k] == paras[..k];
    var (done, cur) := PackGroups(paras[..k], maxChars);
    if cur != [] {
      JoinSolid(cur);
      StripStripped(buf);
      JoinSnoc(cur, p, Sep);
      assert AllSolid(cur + [p]);
      assert Joins(done + [cur]) == Joins(done) + [buf];
    }
  }

  lemma {:induction false} PackLoopEnd(paras: seq<string>, maxChars: int, chunks: seq<string>, buf: string)
    requires PackedSoFar(paras, |paras|, maxChars, chunks, buf)
    ensures Strip(buf) != [] ==> chunks + [Strip(buf)] == Packed(paras, maxChars)
    ensures Strip(buf) == [] ==> chunks == Packed(paras, maxChars)
  {
    assert paras[..|paras|] == paras;
    var (done, cur) := PackGroups(paras, maxChars);
    if cur != [] {
      JoinSolid(cur);
      StripStripped(buf);
      assert Joins(done + [cur]) == Joins(done) + [buf];
    } else {
      assert buf == [];
    }
  }

  /** `out = [chunks[0]]` followed by one overlapped chunk per consecutive pair. */
  method OverlapLoop(chunks: seq<string>, overlap: int) returns (out: seq<string>)
    ensures out == Overlap(chunks, overlap)
  {
    if !(overlap > 0 && |chunks| > 1) {
      return chunks;
    }
    out := [chunks[0]];
    OverlapIndex(chunks, overlap, 0);
    TakeSnoc(Overlap(chunks, overlap), 0);
    for i := 1 to |chunks|
      invariant out == Overlap(chunks, overlap)[..i]
    {
      OverlapIndex(chunks, overlap, i);
      TakeSnoc(Overlap(chunks, overlap), i);
      var tail := Tail(chunks[i - 1], overlap);
      out := out + [Strip(tail + Sep + chunks[i])];
    }
    assert Overlap(chunks, overlap)[..|chunks|] == Overlap(chunks, overlap);
  }

  /** Chunk `i > 0` of the result is the overlapped chunk. */
  lemma OverlapIndex(chunks: seq<string>, overlap: int, i: nat)
    requires overlap > 0 && 1 < |chunks| && i < |chunks|
    ensures i == 0 ==> Overlap(chunks, overlap)[i] == chunks[0]
    ensures i > 0 ==> Overlap(chunks, overlap)[i] == WithOverlap(chunks, overlap, i)
  {
  }
}
