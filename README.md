# Patent text chunking, modelled in Dafny

This project models the chunking core of the PTAB dataset tool, `src/ptab_dataset/chunking.py`.
That module turns a saved patent text file into retrieval chunks in five steps:

- It parses the repository text format into a header dictionary and a dictionary of `## NAME` sections.
- It guesses the document language from the document number's country prefix.
- It normalises whitespace.
- It injects `### <heading>` markers into the DESCRIPTION section, from bracket headings `【…】` and a table of English heading phrases.
- It splits each section or subsection into paragraph-packed chunks with a character overlap.

Each chunk becomes a `Chunk` record that carries the document id, a section tag, a chunk index and the source path.

The modules follow the structure of the program:

| file | module | models |
|---|---|---|
| strings.dfy | `Strings` | `str.strip`, `lstrip`, `rstrip`, `splitlines`, `join` and `upper`, plus Python's whitespace set (`str.isspace`, regex `\s`) |
| dicts.dfy | `Dicts` | an insertion-ordered `dict`, held as a sequence of pairs |
| splitting.dfy | `Splitting` | `re.split` for the two delimiters the module uses, `\n\n+` and `\n###\s+` |
| normalize.dfy | `Whitespace` | `_normalize_whitespace_for_chunking` |
| repo_txt.dfy | `RepoTxt` | `parse_repo_txt` and its section-header regex |
| language.dfy | `Language` | `guess_doc_lang` |
| headings.dfy | `Headings` | `add_subsection_markers` |
| subsections.dfy | `Subsections` | `iter_subsections` |
| chunker.dfy | `Chunker` | `chunk_text` |
| assembler.dfy | `Assembler` | the `Chunk` record and `chunk_repo_patent_txt` |

Each function of the source is specified by a Dafny function on values.
The properties the source promises are proved about those functions as lemmas.
Three functions work by updating variables in loops: `parse_repo_txt`, `chunk_text` and `chunk_repo_patent_txt`.
So do the heading-table loop and the sequence of rewrites in `add_subsection_markers`.
Each of these is also written as a `method` with `while`/`for` loops and their invariants.
Each such method is proved to compute exactly its specification function:

- `RepoTxt.ParseRepoTxt`
- `Chunker.ChunkTextLoop`
- `Chunker.OverlapLoop`
- `Headings.AddMarkers`
- `Headings.ApplyTable`
- `Assembler.ChunkRepoPatentTxt` and its loop methods

Python dictionaries are ordered.
`d[k] = v` keeps an existing key in its slot and appends a new key at the end.
`Dicts.Put` models exactly that, so the order of sections and chunks is part of the model.

## Where the code and its prose differ

The model follows the code in each case.

- **No hard split.** The docstring of `chunk_text` (chunking.py:197) says it "falls back to hard splits". The code never splits a paragraph. A single paragraph longer than `max_chars` becomes one chunk on its own. `Chunker.PackedShape` states exactly this: every chunk fits `max_chars` or is one paragraph alone in its group.
- **Any header key.** The docstring of `parse_repo_txt` lists four header keys. The code keeps every `key: value` line before the separator, splits it at the first colon and lets the last line win (`RepoTxt.HeaderLastWins`).
- **Empty sections are kept.** A `## NAME` marker with no text after it yields the key with the value `""` (`RepoTxt.SectionsLastMarker`). `chunk_repo_patent_txt` later skips it (`Assembler.BlankSectionSkipped`).
- **Repeated section names.** A name that appears twice keeps the slot of its first occurrence. Its value is the text after its last occurrence (`RepoTxt.SectionsKeepFirstPosition`, `RepoTxt.SectionsLastMarker`).
- **Bracket headings only at line starts.** The bracket pass of `add_subsection_markers` promotes `【…】` only at the start of the text or right after a newline (`Headings.PromoteHeadingLine`). For `ja` it returns before the English heading table runs (`Headings.JapaneseWithoutBrackets`). Every language other than `ja` and `zh` is handled as English (`Headings.OtherLanguagesAreEnglish`).
- **A subsection with a blank body loses its title.** Two markers in a row, as in `A\n### T1\n### T2\nB`, cut the text into `\nA`, `T1` and `T2\nB`. The part `T1` has no body, so `iter_subsections` yields only `BODY`/`A` and `T2`/`B`, and the heading `T1` appears in no chunk (`Subsections.DroppedTitle`, `Subsections.PartSubsectionLossless`).
- **The `SUBSECTION` fallback never fires.** After a `\n###\s+` match, each part starts with a character that is not whitespace. This is because `\s+` is greedy. So a subsection title is never blank (`Subsections.SubsectionTitles`).
- **`chunk_index` restarts per tag.** It restarts at 0 for every section and every DESCRIPTION subsection (`Assembler.PlainSectionChunks`, `Assembler.DescriptionSectionChunks`).

## Model

| member | source | states |
|---|---|---|
| Strings.SplitLines | src/ptab_dataset/chunking.py:36 | Text is empty exactly when it has no lines, and no line contains a line-break character. |
| Strings.SplitLinesRejoin | src/ptab_dataset/chunking.py:36 | On text whose only line break is `\n` and which does not end with one, joining the lines with `\n` gives the text back. |
| Strings.Strip | src/ptab_dataset/chunking.py:96 | The result neither starts nor ends with whitespace and is no longer than the input. |
| Strings.StripEmpty | src/ptab_dataset/chunking.py:251 | Stripping gives `""` exactly when the text is all whitespace. |
| Strings.Upper | src/ptab_dataset/chunking.py:82 | Same length; every character is upper-cased. |
| Dicts.PutSpec | src/ptab_dataset/chunking.py:52 | `d[k] = v`: key order is unchanged when `k` is present and `k` is appended otherwise. `k` then reads `v`, every other key reads what it read before, and distinct keys stay distinct. |
| Dicts.PutAllDistinct | src/ptab_dataset/chunking.py:33-34 | A dictionary built by assignments has distinct keys. |
| Dicts.PutAllLastWins | src/ptab_dataset/chunking.py:52 | After a run of assignments, a key reads the value of its last assignment, and is absent when never assigned. |
| Dicts.PutAllFirstOrder | src/ptab_dataset/chunking.py:64 | The keys are exactly the assigned keys, ordered by their first assignment. |
| Whitespace.ReplaceCrLf | src/ptab_dataset/chunking.py:94 | Text without `\r` is unchanged. |
| Whitespace.ReplaceCrLfDropsCr | src/ptab_dataset/chunking.py:94 | `replace("\r\n", "\n")` deletes exactly the `\r` characters that are followed by `\n` in the input and keeps every other character. |
| Whitespace.ReplaceCrLfSinglePass | src/ptab_dataset/chunking.py:94 | One pass can leave a `\r\n`: `\r\r\n` becomes `\r\n`, so the second replace is needed. |
| Whitespace.ReplaceCrLfKeeps | src/ptab_dataset/chunking.py:94 | Ignoring `\r` (and any other characters), the text is unchanged. |
| Whitespace.ReplaceCr | src/ptab_dataset/chunking.py:94 | Same length; every `\r` becomes `\n` and every other character is kept. |
| Whitespace.ReplaceCrKeeps | src/ptab_dataset/chunking.py:94 | Ignoring `\r` and `\n`, the text is unchanged. |
| Whitespace.CollapseShape | src/ptab_dataset/chunking.py:95 | Collapsing newline runs adds no `\r`, keeps the text empty exactly when it was, keeps the first character and leaves no run of three newlines. |
| Whitespace.CollapseIdentity | src/ptab_dataset/chunking.py:95 | Text with no run of three newlines is unchanged. |
| Whitespace.CollapseRun | src/ptab_dataset/chunking.py:95 | A maximal run of `n` newlines becomes `min(n, 2)` newlines, and the text on both sides is collapsed independently. |
| Whitespace.CollapseKeeps | src/ptab_dataset/chunking.py:95 | Ignoring `\n`, the text is unchanged. |
| Whitespace.LineEndingsKeepText | src/ptab_dataset/chunking.py:94-95 | The three rewrites change only `\r` and `\n`: the other characters are kept in order. |
| Whitespace.StripKeepsVisible | src/ptab_dataset/chunking.py:96 | Stripping removes whitespace only. |
| Whitespace.StripKeeps | src/ptab_dataset/chunking.py:96 | Stripping adds no `\r` and no run of three newlines. |
| Whitespace.NormalizeWhitespaceIsNormalized | src/ptab_dataset/chunking.py:92-96 | The result has no `\r`, no run of three newlines and no surrounding whitespace. |
| Whitespace.NormalizedFixedPoint | src/ptab_dataset/chunking.py:92-96 | Text that is already normalised is unchanged. |
| Whitespace.NormalizeIdempotent | src/ptab_dataset/chunking.py:92-96 | Normalising twice equals normalising once. |
| Whitespace.NormalizeKeepsVisible | src/ptab_dataset/chunking.py:92-96 | Normalising changes whitespace only: the non-whitespace characters are kept, in order. |
| RepoTxt.ParseRepoTxt | src/ptab_dataset/chunking.py:21-78 | The loops return the header dictionary and the section dictionary specified by `Header` and `Sections` over `text.splitlines()`. |
| RepoTxt.HeaderEntry | src/ptab_dataset/chunking.py:47-52 | A line without a colon yields nothing. A kept entry has a non-empty, colon-free, stripped key and a non-empty, stripped value. |
| RepoTxt.HeaderEntryOfPair | src/ptab_dataset/chunking.py:47-52 | The line `k: v` yields exactly `(k, v)` when `k` is non-empty, stripped and colon-free and `v` is non-empty and stripped. This is the split at the first colon. |
| RepoTxt.HeaderEnd | src/ptab_dataset/chunking.py:38-46 | The header ends within the lines, at a separator line or a `## ` line. |
| RepoTxt.HeaderEndIsFirst | src/ptab_dataset/chunking.py:38-46 | No line before the end of the header is a separator or a `## ` line. |
| RepoTxt.HeaderEndStep | src/ptab_dataset/chunking.py:40-46 | The header loop stops at line `i` exactly when that line ends the header. |
| RepoTxt.SectionsStart | src/ptab_dataset/chunking.py:42-44 | The section scan starts one line after a separator that ends the header, or at the `## ` line that ends it, or at the end when nothing ends it. |
| RepoTxt.HeaderStep | src/ptab_dataset/chunking.py:47-53 | One header-loop iteration assigns the line's entry when it has one and changes nothing otherwise. |
| RepoTxt.HeaderLastWins | src/ptab_dataset/chunking.py:47-52 | A header key reads the value from the last header line that gives it. |
| RepoTxt.HeaderValue | src/ptab_dataset/chunking.py:38-53 | A key of the returned header reads the value from the last line before the header's end that gives it. |
| RepoTxt.AllHeader | src/ptab_dataset/chunking.py:38-53 | When no line ends the header, every line is header and no section is returned. |
| RepoTxt.SectionNameIsRegexMatch | src/ptab_dataset/chunking.py:18 | A line has a section name exactly when `^##\s+([A-Z0-9 ()_-]+)\s*$` matches it. Every match's stripped group is that name. |
| RepoTxt.RegexMatchName | src/ptab_dataset/chunking.py:72 | Whichever way the pattern matches a line, the stripped group is the same name. |
| RepoTxt.MarkerLineMatches | src/ptab_dataset/chunking.py:69-72 | A line classified as a marker for `name` has a regex match whose stripped group is `name`. |
| RepoTxt.ClassifyAll | src/ptab_dataset/chunking.py:68-70 | Every line is classified, in order, as a marker or as text. |
| RepoTxt.ScanMarker | src/ptab_dataset/chunking.py:70-73 | A marker line flushes the open section, if any, and opens a new one with an empty buffer. |
| RepoTxt.ScanText | src/ptab_dataset/chunking.py:74-75 | A text line is appended to the buffer exactly when a section is open. |
| RepoTxt.ScanEnd | src/ptab_dataset/chunking.py:77 | The final flush yields the section dictionary of all segments. |
| RepoTxt.FlushLast | src/ptab_dataset/chunking.py:59-66 | The dictionary of all segments is the dictionary of all but the last, with the last segment's stripped text assigned to its name. |
| RepoTxt.LastSegment | src/ptab_dataset/chunking.py:68-75 | There are no segments exactly when there is no marker. Otherwise the open segment is named by the last marker and holds the text lines after it. |
| RepoTxt.LastMarkerNamed | src/ptab_dataset/chunking.py:68-73 | Finds the last marker line for a name, with no later one; when there is none, no line is that marker. |
| RepoTxt.NextMarker | src/ptab_dataset/chunking.py:68-75 | Finds the first marker at or after a position; every line before it is text. |
| RepoTxt.SectionsGet | src/ptab_dataset/chunking.py:63-64 | A name reads the text of the last segment with that name, or nothing when no segment has it. |
| RepoTxt.SegmentOfName | src/ptab_dataset/chunking.py:68-77 | The last segment with a name exists exactly when a marker with that name exists. It holds the text lines from that marker's last occurrence to the next marker. |
| RepoTxt.SectionsLastMarker | src/ptab_dataset/chunking.py:56-77 | A section's value is the stripped `\n`-join of the lines after its last marker, up to the next marker. It may be `""`. A name without a marker is absent. |
| RepoTxt.SectionValueOfText | src/ptab_dataset/chunking.py:56-77 | The same, stated for the returned sections of a whole text. |
| RepoTxt.SectionKeysMatchPattern | src/ptab_dataset/chunking.py:69-72 | Every section key is the name of some line, after the header, that the section pattern matches. |
| RepoTxt.MarkerOfKey | src/ptab_dataset/chunking.py:69-72 | It returns such a line for a key that has a value. |
| RepoTxt.SectionsKeepFirstPosition | src/ptab_dataset/chunking.py:64 | Section keys are ordered by the first marker of each name. |
| Language.GuessDocLang | src/ptab_dataset/chunking.py:81-89 | The language is one of `ja`, `zh`, `ko`, `en`. |
| Language.GuessDocLangPrefix | src/ptab_dataset/chunking.py:81-89 | With the id stripped and upper-cased: `ja` exactly when it starts with `JP`, `zh` exactly when with `CN`, `ko` exactly when with `KR`, and `en` exactly when with none of them. |
| Language.LangOfPrefix | src/ptab_dataset/chunking.py:83-89 | The prefix test yields one of the four codes. |
| Language.GuessKnownPrefix | src/ptab_dataset/chunking.py:81-89 | An id starting with `JP`, `CN` or `KR`, in any letter case, gets `ja`, `zh` or `ko`. |
| Language.GuessIgnoresPadding | src/ptab_dataset/chunking.py:82 | Whitespace around the id does not change the language. |
| Language.GuessIgnoresCase | src/ptab_dataset/chunking.py:82 | Lower-casing the id does not change the language. |
| Language.StripLower | src/ptab_dataset/chunking.py:82 | Stripping and ASCII lower-casing commute. |
| Headings.BracketAt | src/ptab_dataset/chunking.py:119 | A non-zero length is a `【[^】]{1,60}】` match at the start of the text. |
| Headings.BracketAtComplete | src/ptab_dataset/chunking.py:119 | Any such match at the start is found, with its length. |
| Headings.PromoteLossless | src/ptab_dataset/chunking.py:119 | The bracket pass only inserts: the text is a subsequence of the result. |
| Headings.PromoteHeadingLine | src/ptab_dataset/chunking.py:119 | A bracket heading at the start of the text or after a newline becomes the marker line `\n### 【…】\n`, and the rest is processed on. |
| Headings.PromoteNoBrackets | src/ptab_dataset/chunking.py:119 | Text without `【` is unchanged. |
| Headings.PromoteKeepsFront | src/ptab_dataset/chunking.py:119 | The bracket pass changes nothing before the first newline of its result. |
| Headings.FirstMatch | src/ptab_dataset/chunking.py:148-153 | Finds the first position at or after `from` where the heading pattern matches, if any. |
| Headings.InsertHeading | src/ptab_dataset/chunking.py:148-153 | Without a match the text is unchanged. Otherwise the marker is inserted before the first match, which is not preceded by `\n###` and whitespace, and nothing else changes. |
| Headings.InsertHeadingLossless | src/ptab_dataset/chunking.py:148-153 | The text is a subsequence of the result, which grows by at most one marker line. |
| Headings.InsertHeadingKeepsFront | src/ptab_dataset/chunking.py:146-153 | A table row changes nothing before the first newline of its result, since the marker starts with a newline. |
| Headings.ApplyHeadingsStep | src/ptab_dataset/chunking.py:143-153 | One pass of the heading loop applies the next table row to the result so far. |
| Headings.ApplyHeadingsLossless | src/ptab_dataset/chunking.py:143-153 | The whole heading table only inserts. |
| Headings.ApplyHeadingsNoMatch | src/ptab_dataset/chunking.py:143-153 | Text in which no table row matches is unchanged. |
| Headings.ApplyTable | src/ptab_dataset/chunking.py:143-153 | The loop over the heading table computes the table's rewrite. |
| Headings.DropDescription | src/ptab_dataset/chunking.py:156 | The text is unchanged, or it begins with `description` in any ASCII case and that word and the whitespace after it are removed. |
| Headings.DropDescriptionSuffix | src/ptab_dataset/chunking.py:156 | The result is a suffix of the text, and differs from it exactly when the text begins with `description` in any ASCII case. |
| Headings.DropDescriptionAfterPasses | src/ptab_dataset/chunking.py:112-156 | The `Description` clean-up, run after the marker passes, loses no more than it would have removed from the normalised text: a leading `Description` in the marked text was already there. |
| Headings.AddSubsectionMarkers | src/ptab_dataset/chunking.py:99-158 | The result has no surrounding whitespace. |
| Headings.MarkersOfEmpty | src/ptab_dataset/chunking.py:112-115 | A blank description yields `""` for every language. |
| Headings.MarkedLossless | src/ptab_dataset/chunking.py:112-153 | The normalised description is a subsequence of the marked text. |
| Headings.AddSubsectionMarkersLossless | src/ptab_dataset/chunking.py:99-158 | The result keeps every character of the normalised description, in order. For `ja` all of it, for other languages all but a leading `description` (any case) and the whitespace after it. |
| Headings.JapaneseWithoutBrackets | src/ptab_dataset/chunking.py:118-120 | For `ja`, a description without `【` is only normalised: the English table is never applied. |
| Headings.ChineseWithoutBrackets | src/ptab_dataset/chunking.py:123-124 | For `zh`, a description without `【` is handled exactly as English. |
| Headings.OtherLanguagesAreEnglish | src/ptab_dataset/chunking.py:127-153 | Every language other than `ja` and `zh` is handled as English. |
| Headings.EnglishWithoutHeadings | src/ptab_dataset/chunking.py:143-158 | An English description with no heading phrase and no leading `description` is only normalised. |
| Headings.AddMarkers | src/ptab_dataset/chunking.py:99-158 | The sequence of rewrites computes `AddSubsectionMarkers`. |
| Splitting.Split | src/ptab_dataset/chunking.py:171 | `re.split` returns at least one part. |
| Splitting.SplitWithDelimiters | src/ptab_dataset/chunking.py:171 | There is one more part than matched delimiters. |
| Splitting.DelimiterAtMatches | src/ptab_dataset/chunking.py:171 | A match found at a position is a delimiter: two or more newlines, or `\n###` followed by whitespace. |
| Splitting.DelimiterAtLongest | src/ptab_dataset/chunking.py:171 | The match is greedy: one more character would not be a delimiter. |
| Splitting.FindDelimiterFirst | src/ptab_dataset/chunking.py:171 | The search returns the leftmost match: no earlier position matches. |
| Splitting.FindDelimiterNone | src/ptab_dataset/chunking.py:171 | When no position matches, the search reaches the end. |
| Splitting.MatchesOrdered | src/ptab_dataset/chunking.py:171 | The matches do not overlap, run left to right and are each a delimiter. |
| Splitting.CutPieces | src/ptab_dataset/chunking.py:171 | Each separator returned is the text of its match. |
| Splitting.SplitRejoin | src/ptab_dataset/chunking.py:171 | Interleaving the parts with the matched delimiters gives the input back. |
| Splitting.SplitDelimitersMatch | src/ptab_dataset/chunking.py:171 | Every matched delimiter is a delimiter. |
| Splitting.NoDelimiterNoSplit | src/ptab_dataset/chunking.py:173 | Without a match, the only part is the whole input. |
| Splitting.MarkerPartsStartSolid | src/ptab_dataset/chunking.py:171 | After a `\n###\s+` split, every part but the first is empty or starts with a non-whitespace character. |
| Subsections.Partition | src/ptab_dataset/chunking.py:186 | The head has no newline. With a newline the text is head, newline and rest; without one, the rest is empty. |
| Subsections.PartSubsection | src/ptab_dataset/chunking.py:182-190 | A part yields either nothing or a pair of non-empty, stripped title and body. |
| Subsections.Title | src/ptab_dataset/chunking.py:187 | A title is non-empty and stripped. |
| Subsections.PartsSubsections | src/ptab_dataset/chunking.py:182-190 | The loop yields no more pairs than parts, all well formed. |
| Subsections.BodyPair | src/ptab_dataset/chunking.py:174-180 | Text before the markers yields one well-formed `BODY` pair holding that text. |
| Subsections.IterSubsections | src/ptab_dataset/chunking.py:161-190 | Every yielded pair has a non-empty, stripped title and body. |
| Subsections.SubsectionsOfEmpty | src/ptab_dataset/chunking.py:167-169 | Blank text yields nothing. |
| Subsections.SubsectionsWithoutMarker | src/ptab_dataset/chunking.py:171-175 | Without a marker, the whole normalised text is one `BODY` pair. |
| Subsections.SubsectionsWithMarkers | src/ptab_dataset/chunking.py:171-190 | With markers, the pairs are `BODY` and the stripped text before the first marker when that is not blank, then, in order, one pair for each later part with a non-blank body: its stripped first line and its stripped remaining lines. |
| Subsections.PartsSubsectionsAppend | src/ptab_dataset/chunking.py:182-190 | The loop preserves order: the pairs of concatenated parts are the concatenated pairs. |
| Subsections.PartsSubsectionsFrom | src/ptab_dataset/chunking.py:182-190 | Every yielded pair comes from one part. |
| Subsections.PartsSubsectionsAll | src/ptab_dataset/chunking.py:182-190 | When every part has a body, no part is skipped. |
| Subsections.PartTitleIsFirstLine | src/ptab_dataset/chunking.py:186-187 | For a part starting with a non-whitespace character, the title is its stripped first line. |
| Subsections.SubsectionTitles | src/ptab_dataset/chunking.py:171-187 | Every marker part's title is its stripped first line, so `SUBSECTION` is never produced. |
| Subsections.PartSubsectionHasBody | src/ptab_dataset/chunking.py:183-190 | A part yields a pair exactly when its body after the first line is not blank, and the pair is its title and stripped body. |
| Subsections.PartsSubsectionsKept | src/ptab_dataset/chunking.py:182-190 | The `k`-th pair of the loop comes from the `k`-th part with a non-blank body; parts with blank bodies yield nothing. |
| Subsections.MarkerPairs | src/ptab_dataset/chunking.py:171-190 | For parts cut after a marker, the `k`-th pair is the stripped first line and stripped rest of the `k`-th part with a non-blank body. |
| Subsections.PartSubsectionLossless | src/ptab_dataset/chunking.py:183-190 | A part is newlines, a title line, a newline, a body and newlines. A pair keeps title and body up to surrounding whitespace, except that a blank title becomes `SUBSECTION`. A part yields nothing exactly when its body is blank. |
| Subsections.DroppedTitle | src/ptab_dataset/chunking.py:182-190 | The part `T1` yields nothing, and the parts `T1`, `T2\nB` yield only `(T2, B)`: a title with a blank body is lost. |
| Chunker.SolidParts | src/ptab_dataset/chunking.py:204 | Every kept part is non-empty and stripped, and no more parts are kept than were given. |
| Chunker.Paragraphs | src/ptab_dataset/chunking.py:204 | Every paragraph is non-empty and stripped. |
| Chunker.SolidPartsEmpty | src/ptab_dataset/chunking.py:204 | No paragraph survives only when every part is blank. |
| Chunker.ParagraphsOfSolidText | src/ptab_dataset/chunking.py:204 | Non-blank text has at least one paragraph. |
| Chunker.PackGroupsInvariant | src/ptab_dataset/chunking.py:214-225 | The packing loop keeps its invariant. The closed groups and the open buffer hold all paragraphs in order, every group fits or is a single paragraph, and no group could have taken the next one's first paragraph. |
| Chunker.PackStart | src/ptab_dataset/chunking.py:215-217 | An empty buffer takes the paragraph. |
| Chunker.PackExtend | src/ptab_dataset/chunking.py:219-220 | A paragraph that fits joins the buffer. |
| Chunker.PackPush | src/ptab_dataset/chunking.py:221-223 | A paragraph that does not fit closes the buffer and starts a new one. |
| Chunker.GroupsFlatten | src/ptab_dataset/chunking.py:214-225 | The groups, flattened, are the paragraphs. |
| Chunker.GroupsShape | src/ptab_dataset/chunking.py:219-223 | Every group is non-empty and fits `max_chars` or is a single paragraph. Consecutive groups are tight. |
| Chunker.PackedLossless | src/ptab_dataset/chunking.py:207-225 | Joining the chunks with `\n\n` gives the same text as joining the paragraphs. |
| Chunker.PackedShape | src/ptab_dataset/chunking.py:207-225 | Chunks are non-empty and stripped, and there are none exactly when there are no paragraphs. Every chunk fits `max_chars` or is one oversize paragraph alone (no hard split). No chunk could have taken the first paragraph of the next one. |
| Chunker.Tail | src/ptab_dataset/chunking.py:231 | `prev[-overlap:]` is the last `min(overlap, len(prev))` characters of `prev`. |
| Chunker.Overlap | src/ptab_dataset/chunking.py:228-233 | The overlap pass keeps the number of chunks. |
| Chunker.OverlapShape | src/ptab_dataset/chunking.py:228-233 | Without overlap, or with at most one chunk, nothing changes. Otherwise the first chunk is kept and each later chunk becomes the left-stripped tail of its predecessor, `\n\n` and itself. It still ends with itself, and all chunks stay non-empty and stripped. |
| Chunker.OverlapAt | src/ptab_dataset/chunking.py:231-232 | The same statement, for one chunk. |
| Chunker.OverlapBound | src/ptab_dataset/chunking.py:228-233 | With overlap, a chunk grows by at most `overlap` plus the two characters of `\n\n`; without it, not at all. |
| Chunker.OverlapLoop | src/ptab_dataset/chunking.py:228-233 | The loop over consecutive pairs computes the overlap pass. |
| Chunker.PackLoopStep | src/ptab_dataset/chunking.py:214-223 | Each iteration of the packing loop, in each of its three branches, keeps the loop invariant. A pushed buffer is already stripped and non-empty. |
| Chunker.PackLoopEnd | src/ptab_dataset/chunking.py:225 | The final `push_buf` completes the packing. |
| Chunker.ChunkTextShape | src/ptab_dataset/chunking.py:193-235 | There are no chunks exactly when the normalised text is empty. Chunks are non-empty and stripped. Without overlap, the chunks are the packed paragraphs. |
| Chunker.ChunkTextLoop | src/ptab_dataset/chunking.py:193-235 | The loops compute `ChunkText`. |
| Assembler.DocId | src/ptab_dataset/chunking.py:244 | The id is the `Document Number` header value when it is present and non-empty, and the file stem otherwise. |
| Assembler.Emit | src/ptab_dataset/chunking.py:258-267 | One record per piece, in order, with `chunk_index` equal to the piece's position. |
| Assembler.EmitProperties | src/ptab_dataset/chunking.py:258-267 | Emitted records carry the document id and source path and non-empty, stripped text, and their indices count up from 0. |
| Assembler.AppendPieces | src/ptab_dataset/chunking.py:270-279 | The append loop adds exactly the emitted records to the results. |
| Assembler.ChunkTextSolid | src/ptab_dataset/chunking.py:257 | Every chunk of a subsection body is non-empty and stripped. |
| Assembler.SubsectionChunksProperties | src/ptab_dataset/chunking.py:256-267 | Subsection records carry id and path, are numbered per tag and are tagged `DESCRIPTION::<title>`. |
| Assembler.SubsectionChunksStep | src/ptab_dataset/chunking.py:256 | Each subsection appends its own records after those of the earlier ones. |
| Assembler.SectionChunksProperties | src/ptab_dataset/chunking.py:249-279 | A section's records carry id and path and are numbered per tag. Their tag is the section name, for a section other than DESCRIPTION, or a `DESCRIPTION::` label. |
| Assembler.BlankSectionSkipped | src/ptab_dataset/chunking.py:250-252 | A blank section yields no records. |
| Assembler.PlainSectionChunks | src/ptab_dataset/chunking.py:268-279 | A section other than DESCRIPTION yields one record per chunk of its normalised text, tagged with its name and indexed from 0. |
| Assembler.DescriptionSectionChunks | src/ptab_dataset/chunking.py:254-267 | DESCRIPTION yields nothing when blank. Otherwise its records are one block per subsection of the marked text, in order, and block `j` holds the chunks of subsection `j`'s body, tagged `DESCRIPTION::` and its title, with indices counting from 0. |
| Assembler.SubsectionChunksBlocks | src/ptab_dataset/chunking.py:256-267 | The records of a run of subsections are their blocks, back to back, with nothing in between. |
| Assembler.SectionsChunksStep | src/ptab_dataset/chunking.py:249-252 | Each section appends its records after those of the earlier sections, in dictionary order. |
| Assembler.SectionsChunksProperties | src/ptab_dataset/chunking.py:249-279 | All records carry id and path, are numbered per tag and are tagged with a section key or a `DESCRIPTION::` label. |
| Assembler.LabelsAppend | src/ptab_dataset/chunking.py:254-274 | Appending a section's records keeps every tag a key of the sections so far or a DESCRIPTION label. |
| Assembler.RepoChunksProperties | src/ptab_dataset/chunking.py:238-281 | Every record of a file carries the id from the header (or the stem) and the source path, and has non-empty, stripped text. Indices restart at 0 for each tag, and every tag is a section name of the file or a `DESCRIPTION::` label. |
| Assembler.AppendSubsection | src/ptab_dataset/chunking.py:257-267 | Appends the records of one subsection's chunks. |
| Assembler.AppendSubsections | src/ptab_dataset/chunking.py:256-267 | The loop over subsections appends exactly their records. |
| Assembler.AppendSection | src/ptab_dataset/chunking.py:250-279 | Appends exactly one section's records. |
| Assembler.AppendSections | src/ptab_dataset/chunking.py:249-279 | The loop over the sections appends exactly their records. |
| Assembler.ChunkRepoPatentTxt | src/ptab_dataset/chunking.py:238-281 | The whole function computes `RepoChunks` of the file's text. |

## Left out

- Reading the file (chunking.py:241) and `str(path)` (chunking.py:265, 277) are not modelled. The file's text, its stem and its path string are parameters of `Assembler.ChunkRepoPatentTxt`.
- The default arguments `max_chars=1400` and `overlap=200` belong to callers. The model takes both as parameters and proves its properties for every value.
- Case handling is ASCII-only. `str.upper()` and `re.IGNORECASE` are modelled on `a`–`z`/`A`–`Z`. Unicode case mappings such as `ß` to `SS`, or the Kelvin sign matching `k`, are not modelled.
- The regex `\w` after a heading phrase is approximated by `Headings.IsWordChar`: it covers ASCII letters, digits and `_`, and non-ASCII characters outside whitespace and the common punctuation and symbol blocks. Python's full Unicode word-character table is not modelled.
- Only the regular expressions of this module are modelled: the section-header pattern, `\n{3,}`, `\n\n+`, `\n###\s+`, the bracket heading, the heading table and `^Description\s*`. There is no general regex engine.
- `iter_subsections` is a generator. It is modelled as the sequence of pairs it yields, so laziness is not modelled.
- Headings.AddSubsectionMarkersLossless: states that no character of the text is lost, not that every character added is part of a `\n### …\n` marker line. That converse is stated one pass at a time: for a table row by `Headings.InsertHeading`, and for a bracket heading by `Headings.PromoteHeadingLine`.
- The `SUBSECTION` title fallback is kept in `Subsections.Title` as written, although no marker part can reach it.
- The rest of the repository is not part of this model: the pipeline, the API clients, the downloader, the parsers, storage, configuration and scripts.
