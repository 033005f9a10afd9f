/** `guess_doc_lang`: the document language guessed from the country prefix of its id. */
module Language {
  import opened Strings

  /** The two-letter prefix of the stripped, upper-cased id decides the language. */
  function GuessDocLang(docId: string): (lang: string)
    ensures lang == "ja" || lang == "zh" || lang == "ko" || lang == "en"
  {
    LangOfPrefix(Upper(Strip(docId)))
  }

  /** The prefix dispatch on the normalised id. */
  function LangOfPrefix(up: string): (lang: string)
    ensures lang == "ja" || lang == "zh" || lang == "ko" || lang == "en"
  {
    if StartsWith(up, "JP") then "ja"
    else if StartsWith(up, "CN") then "zh"
    else if StartsWith(up, "KR") then "ko"
    else "en"
  }

  /**
   * The whole mapping, in both directions: each of `ja`, `zh`, `ko` comes
   * exactly from its country prefix of the stripped, upper-cased id, and
   * every other id is `en`.
   */
  lemma {:induction false} GuessDocLangPrefix(docId: string)
    ensures var up := Upper(Strip(docId));
      && (GuessDocLang(docId) == "ja" <==> StartsWith(up, "JP"))
      && (GuessDocLang(docId) == "zh" <==> StartsWith(up, "CN"))
      && (GuessDocLang(docId) == "ko" <==> StartsWith(up, "KR"))
      && (GuessDocLang(docId) == "en" <==>
            !StartsWith(up, "JP") && !StartsWith(up, "CN") && !StartsWith(up, "KR"))
  {
    var up := Upper(Strip(docId));
    if StartsWith(up, "JP") {
      assert up[0] == 'J';
    } else if StartsWith(up, "CN") {
      assert up[0] == 'C';
    } else if StartsWith(up, "KR") {
      assert up[0] == 'K';
    }
  }

  /** The country code each language comes from (`en` is the fallback). */
  function CountryPrefix(lang: string): string {
    if lang == "ja" then "JP" else if lang == "zh" then "CN" else if lang == "ko" then "KR" else ""
  }

  /** An id that starts with a known country code, in any letter case, is tagged with its language. */
  lemma {:induction false} GuessKnownPrefix(lang: string, p: string, rest: string)
    requires lang == "ja" || lang == "zh" || lang == "ko"
    requires Upper(p) == CountryPrefix(lang)
    requires rest == [] || !IsSpace(rest[|rest| - 1])
    ensures GuessDocLang(p + rest) == lang
  {
    var code := CountryPrefix(lang);
    assert |p| == 2 && 'A' <= code[0] <= 'Z' && 'A' <= code[1] <= 'Z';
    LetterNotSpace(p[0], code[0]);
    LetterNotSpace(p[1], code[1]);
    PrefixedStripped(p, rest);
    UpperKeepsPrefix(p, rest);
  }

  lemma {:induction false} UpperKeepsPrefix(p: string, rest: string)
    ensures StartsWith(Upper(p + rest), Upper(p))
  {
    var up := Upper(p + rest);
    assert forall i :: 0 <= i < |p| ==> up[i] == Upper(p)[i];
    assert up[..|p|] == Upper(p);
  }

  lemma {:induction false} LetterNotSpace(c: char, u: char)
    requires UpperChar(c) == u && 'A' <= u <= 'Z'
    ensures !IsSpace(c)
  {
  }

  lemma {:induction false} PrefixedStripped(p: string, rest: string)
    requires |p| == 2 && !IsSpace(p[0]) && !IsSpace(p[1])
    requires rest == [] || !IsSpace(rest[|rest| - 1])
    ensures Strip(p + rest) == p + rest
  {
    assert (p + rest)[0] == p[0];
    assert (p + rest)[|p + rest| - 1] == if rest == [] then p[1] else rest[|rest| - 1];
    StripStripped(p + rest);
  }

  /** Whitespace around the id does not matter. */
  lemma {:induction false} GuessIgnoresPadding(w: string, docId: string, w2: string)
    requires AllSpace(w) && AllSpace(w2)
    ensures GuessDocLang(w + docId + w2) == GuessDocLang(docId)
  {
    StripSurrounded(w, docId, w2);
  }

  /** The letter case of the id does not matter. */
  lemma {:induction false} GuessIgnoresCase(docId: string)
    ensures GuessDocLang(Lower(docId)) == GuessDocLang(docId)
  {
    StripLower(docId);
    UpperLower(Strip(docId));
  }

  /** ASCII `lower()` on one character. */
  function LowerChar(c: char): char {
    if 'A' <= c <= 'Z' then (c as int + 32) as char else c
  }

  function Lower(s: string): (r: string)
    ensures |r| == |s|
    ensures forall i :: 0 <= i < |s| ==> r[i] == LowerChar(s[i])
  {
    seq(|s|, i requires 0 <= i < |s| => LowerChar(s[i]))
  }

  lemma {:induction false} SpaceLower(c: char)
    ensures IsSpace(LowerChar(c)) <==> IsSpace(c)
  {
    if 'A' <= c <= 'Z' {
      assert 'a' <= LowerChar(c) <= 'z';
    }
  }

  lemma {:induction false} UpperLower(s: string)
    ensures Upper(Lower(s)) == Upper(s)
  {
    assert forall i :: 0 <= i < |s| ==> UpperChar(LowerChar(s[i])) == UpperChar(s[i]);
  }

  /** ASCII case changes never touch whitespace, so stripping commutes with them. */
  lemma {:induction false} StripLower(s: string)
    ensures Strip(Lower(s)) == Lower(Strip(s))
  {
    LStripLower(s);
    RStripLower(LStrip(s));
  }

  lemma {:induction false} LStripLower(s: string)
    ensures LStrip(Lower(s)) == Lower(LStrip(s))
  {
    var n := SpacesFrom(s, 0);
    var l := Lower(s);
    SpacesFromAreSpace(s, 0);
    forall j | 0 <= j < n ensures IsSpace(l[j]) {
      SpaceLower(s[j]);
    }
    if n < |s| {
      SpaceLower(s[n]);
    }
    SpacesFromIs(l, 0, n);
    LowerSlices(s, n);
  }

  lemma {:induction false} RStripLower(s: string)
    ensures RStrip(Lower(s)) == Lower(RStrip(s))
  {
    var n := TrailingSpace(s);
    var l := Lower(s);
    TrailingSpaceAreSpace(s);
    forall j | n <= j < |s| ensures IsSpace(l[j]) {
      SpaceLower(s[j]);
    }
    if n > 0 {
      SpaceLower(s[n - 1]);
    }
    TrailingSpaceIs(l, n);
    LowerSlices(s, n);
  }

  /** Lower-casing commutes with slicing. */
  lemma LowerSlices(s: string, n: nat)
    requires n <= |s|
    ensures Lower(s)[n..] == Lower(s[n..])
    ensures Lower(s)[..n] == Lower(s[..n])
  {
  }
}
