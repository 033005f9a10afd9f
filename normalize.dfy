/**
 * `_normalize_whitespace_for_chunking`: unify line endings, collapse every
 * run of three or more newlines to exactly two, then strip both ends.
 */
module Whitespace {
  import opened Strings

  /** `s.replace("\r\n", "\n")` (left to right, non-overlapping). */
  function ReplaceCrLf(s: string): (r: string)
    ensures '\r' !in s ==> r == s
  {
    if s == [] then []
    else if |s| >= 2 && s[0] == '\r' && s[1] == '\n' then "\n" + ReplaceCrLf(s[2..])
    else [s[0]] + ReplaceCrLf(s[1..])
  }

  /** `s.replace("\r", "\n")` */
  function ReplaceCr(s: string): (r: string)
    ensures |r| == |s|
    ensures forall i :: 0 <= i < |s| ==> r[i] == if s[i] == '\r' then '\n' else s[i]
  {
    if s == [] then [] else [if s[0] == '\r' then '\n' else s[0]] + ReplaceCr(s[1..])
  }

  /** `re.sub(r"\n{3,}", "\n\n", s)`: each maximal run of 3+ newlines becomes two. */
  function CollapseNewlines(s: string): (r: string)
    decreases |s|
  {
    if s == [] then []
    else if s[0] == '\n' then
      var k := NewlineRun(s);
      (if k >= 3 then "\n\n" else s[..k]) + CollapseNewlines(s[k..])
    else [s[0]] + CollapseNewlines(s[1..])
  }

  /** No three consecutive newlines. */
  predicate NoTripleNewline(s: string) {
    forall i :: 0 <= i < |s| - 2 ==> !(s[i] == '\n' && s[i + 1] == '\n' && s[i + 2] == '\n')
  }

  /** The text as `_normalize_whitespace_for_chunking` returns it. */
  function NormalizeWhitespace(s: string): (r: string)
  {
    Strip(CollapseNewlines(ReplaceCr(ReplaceCrLf(s))))
  }

  /** What the chunker may rely on after normalisation. */
  predicate IsNormalized(s: string) {
    '\r' !in s && NoTripleNewline(s) && IsStripped(s)
  }

  // ------------------------------------------------------------ what is kept

  /** The two line-break characters the rewrites touch. */
  predicate IsBreak(c: char) {
    c == '\n' || c == '\r'
  }

  /**
   * The reference reading of `replace("\r\n", "\n")`, one character at a
   * time: a `\r` directly followed by `\n` is deleted, every other character
   * is kept.
   */
  function DropCrBeforeLf(s: string): string {
    if s == [] then []
    else (if s[0] == '\r' && |s| >= 2 && s[1] == '\n' then [] else [s[0]]) + DropCrBeforeLf(s[1..])
  }

  /** The left-to-right pair replacement deletes exactly the carriage returns that precede a newline. */
  lemma {:induction false} ReplaceCrLfDropsCr(s: string)
    ensures ReplaceCrLf(s) == DropCrBeforeLf(s)
    decreases |s|
  {
    if s != [] {
      if |s| >= 2 && s[0] == '\r' && s[1] == '\n' {
        ReplaceCrLfDropsCr(s[2..]);
        assert s[1..][1..] == s[2..];
      } else {
        ReplaceCrLfDropsCr(s[1..]);
      }
    }
  }

  /**
   * One pass is not a fixed point: a `\r` before a `\r\n` pair survives and
   * now precedes the `\n`, which is why `ReplaceCr` runs after it.
   */
  lemma ReplaceCrLfSinglePass()
    ensures ReplaceCrLf("\r\r\n") == "\r\n"
  {
    assert "\r\r\n"[1..] == "\r\n";
    assert "\r\n"[2..] == [];
  }

  /** `replace("\r\n", "\n")` removes carriage returns and nothing else. */
  lemma {:induction false} ReplaceCrLfKeeps(s: string, gone: char -> bool)
    requires gone('\r')
    ensures Without(ReplaceCrLf(s), gone) == Without(s, gone)
    decreases |s|
  {
    if s != [] {
      if |s| >= 2 && s[0] == '\r' && s[1] == '\n' {
        ReplaceCrLfKeeps(s[2..], gone);
        WithoutAppend("\n", ReplaceCrLf(s[2..]), gone);
        assert s == "\r\n" + s[2..];
        WithoutAppend("\r\n", s[2..], gone);
        assert "\r\n"[1..] == "\n";
      } else {
        ReplaceCrLfKeeps(s[1..], gone);
        WithoutAppend([s[0]], ReplaceCrLf(s[1..]), gone);
      }
    }
  }

  /** `replace("\r", "\n")` changes nothing once both breaks are filtered out. */
  lemma {:induction false} ReplaceCrKeeps(s: string, gone: char -> bool)
    requires gone('\r') && gone('\n')
    ensures Without(ReplaceCr(s), gone) == Without(s, gone)
    decreases |s|
  {
    if s != [] {
      ReplaceCrKeeps(s[1..], gone);
      WithoutAppend([ReplaceCr(s)[0]], ReplaceCr(s[1..]), gone);
    }
  }

  /** Collapsing removes newlines and nothing else. */
  lemma {:induction false} CollapseKeeps(s: string, gone: char -> bool)
    requires gone('\n')
    ensures Without(CollapseNewlines(s), gone) == Without(s, gone)
    decreases |s|
  {
    if s != [] {
      if s[0] == '\n' {
        var k := NewlineRun(s);
        var head: string := if k >= 3 then "\n\n" else s[..k];
        CollapseKeeps(s[k..], gone);
        WithoutAppend(head, CollapseNewlines(s[k..]), gone);
        WithoutAllGone(head, gone);
        assert s == s[..k] + s[k..];
        WithoutAppend(s[..k], s[k..], gone);
        WithoutAllGone(s[..k], gone);
      } else {
        CollapseKeeps(s[1..], gone);
        WithoutAppend([s[0]], CollapseNewlines(s[1..]), gone);
      }
    }
  }

  /** Unifying line endings and collapsing blank lines touch only `\n` and `\r`. */
  lemma {:induction false} LineEndingsKeepText(s: string)
    ensures Without(CollapseNewlines(ReplaceCr(ReplaceCrLf(s))), IsBreak) == Without(s, IsBreak)
  {
    ReplaceCrLfKeeps(s, IsBreak);
    ReplaceCrKeeps(ReplaceCrLf(s), IsBreak);
    CollapseKeeps(ReplaceCr(ReplaceCrLf(s)), IsBreak);
  }

  /** Normalisation changes whitespace only: every other character survives, in order. */
  lemma {:induction false} NormalizeKeepsVisible(s: string)
    ensures Without(NormalizeWhitespace(s), IsSpace) == Without(s, IsSpace)
  {
    var u := CollapseNewlines(ReplaceCr(ReplaceCrLf(s)));
    ReplaceCrLfKeeps(s, IsSpace);
    ReplaceCrKeeps(ReplaceCrLf(s), IsSpace);
    CollapseKeeps(ReplaceCr(ReplaceCrLf(s)), IsSpace);
    StripKeepsVisible(u);
  }

  lemma {:induction false} StripKeepsVisible(u: string)
    ensures Without(Strip(u), IsSpace) == Without(u, IsSpace)
  {
    StripParts(u);
    var a := |u| - |LStrip(u)|;
    var b := a + |Strip(u)|;
    assert u == u[..a] + Strip(u) + u[b..];
    WithoutAppend(u[..a] + Strip(u), u[b..], IsSpace);
    WithoutAppend(u[..a], Strip(u), IsSpace);
    WithoutAllGone(u[..a], IsSpace);
    WithoutAllGone(u[b..], IsSpace);
  }

  /** `n` newlines. */
  function Newlines(n: nat): (r: string)
    ensures |r| == n && forall i :: 0 <= i < n ==> r[i] == '\n'
  {
    seq(n, _ => '\n')
  }

  /**
   * The collapse works run by run: a maximal run of `n` newlines between two
   * other pieces of text becomes `min(n, 2)` newlines, and the text on either
   * side is collapsed on its own.
   */
  lemma {:induction false} CollapseRun(a: string, n: nat, b: string)
    requires a == [] || a[|a| - 1] != '\n'
    requires b == [] || b[0] != '\n'
    ensures CollapseNewlines(a + (Newlines(n) + b)) ==
      CollapseNewlines(a) + (Newlines(if n >= 3 then 2 else n) + CollapseNewlines(b))
  {
    CollapseAppend(a, Newlines(n) + b);
    CollapseNewlineRun(n, b);
  }

  /** A run of `n` newlines in front of text that starts otherwise. */
  lemma {:induction false} CollapseNewlineRun(n: nat, b: string)
    requires b == [] || b[0] != '\n'
    ensures CollapseNewlines(Newlines(n) + b) == Newlines(if n >= 3 then 2 else n) + CollapseNewlines(b)
  {
    var s := Newlines(n) + b;
    if n == 0 {
      assert s == b;
    } else {
      assert s[0] == '\n';
      NewlineRunIs(s, n);
      assert s[..n] == Newlines(n) && s[n..] == b;
      if n >= 3 {
        assert "\n\n" == Newlines(2);
      }
    }
  }

  lemma {:induction false} NewlineRunIs(s: string, n: nat)
    requires n <= |s| && (forall i :: 0 <= i < n ==> s[i] == '\n') && (n < |s| ==> s[n] != '\n')
    ensures NewlineRun(s) == n
    decreases n
  {
    if n > 0 {
      NewlineRunIs(s[1..], n - 1);
    }
  }

  /** The leading run of `a` is the leading run of `a + c` when `a` goes on past it. */
  lemma {:induction false} CollapseAppendRun(a: string, c: string, k: nat)
    requires a != [] && a[0] == '\n' && k == NewlineRun(a) && k < |a|
    ensures CollapseNewlines(a + c) ==
      (if k >= 3 then "\n\n" else a[..k]) + CollapseNewlines(a[k..] + c)
    ensures CollapseNewlines(a) ==
      (if k >= 3 then "\n\n" else a[..k]) + CollapseNewlines(a[k..])
  {
    NewlineRunIs(a + c, k);
    assert (a + c)[..k] == a[..k];
    assert (a + c)[k..] == a[k..] + c;
  }

  /** Text that does not end in a newline is collapsed independently of what follows. */
  lemma {:induction false} CollapseAppend(a: string, c: string)
    requires a == [] || a[|a| - 1] != '\n'
    ensures CollapseNewlines(a + c) == CollapseNewlines(a) + CollapseNewlines(c)
    decreases |a|
  {
    if a == [] {
      assert a + c == c;
    } else if a[0] == '\n' {
      var k := NewlineRun(a);
      assert k < |a|;
      CollapseAppendRun(a, c, k);
      assert a[k..][|a[k..]| - 1] == a[|a| - 1];
      CollapseAppend(a[k..], c);
      AppendAssoc(if k >= 3 then "\n\n" else a[..k], CollapseNewlines(a[k..]), CollapseNewlines(c));
    } else {
      assert (a + c)[1..] == a[1..] + c;
      CollapseAppend(a[1..], c);
      AppendAssoc([a[0]], CollapseNewlines(a[1..]), CollapseNewlines(c));
    }
  }

  /** Collapsing keeps the characters other than newlines and never starts a string differently. */
  lemma {:induction false} CollapseShape(s: string)
    ensures '\r' !in s ==> '\r' !in CollapseNewlines(s)
    ensures CollapseNewlines(s) == [] <==> s == []
    ensures s != [] ==> CollapseNewlines(s)[0] == s[0]
    ensures NoTripleNewline(CollapseNewlines(s))
    decreases |s|
  {
    if s != [] {
      if s[0] == '\n' {
        var k := NewlineRun(s);
        var head: string := if k >= 3 then "\n\n" else s[..k];
        CollapseShape(s[k..]);
        var tail := CollapseNewlines(s[k..]);
        assert tail != [] ==> tail[0] != '\n';
        assert |head| <= 2 && forall i :: 0 <= i < |head| ==> head[i] == '\n';
        NoTripleAfterNewlines(head, tail);
      } else {
        CollapseShape(s[1..]);
        var tail := CollapseNewlines(s[1..]);
        assert NoTripleNewline([s[0]] + tail) by {
          forall i | 0 <= i < |[s[0]] + tail| - 2
            ensures !(([s[0]] + tail)[i] == '\n' && ([s[0]] + tail)[i + 1] == '\n' && ([s[0]] + tail)[i + 2] == '\n')
          {
            if i > 0 {
              assert ([s[0]] + tail)[i] == tail[i - 1];
            }
          }
        }
      }
    }
  }

  lemma {:induction false} NoTripleAfterNewlines(head: string, tail: string)
    requires |head| <= 2 && forall i :: 0 <= i < |head| ==> head[i] == '\n'
    requires tail != [] ==> tail[0] != '\n'
    requires NoTripleNewline(tail)
    ensures NoTripleNewline(head + tail)
  {
    var t := head + tail;
    forall i | 0 <= i < |t| - 2 ensures !(t[i] == '\n' && t[i + 1] == '\n' && t[i + 2] == '\n') {
      if i >= |head| {
        assert t[i] == tail[i - |head|] && t[i + 1] == tail[i + 1 - |head|] && t[i + 2] == tail[i + 2 - |head|];
      } else {
        assert |head| - i <= 2;
        assert t[|head|] == tail[0];
      }
    }
  }

  lemma NoTripleNewlineSuffix(s: string, k: nat)
    requires NoTripleNewline(s) && k <= |s|
    ensures NoTripleNewline(s[k..])
  {
    forall i | 0 <= i < |s[k..]| - 2 ensures !(s[k..][i] == '\n' && s[k..][i + 1] == '\n' && s[k..][i + 2] == '\n') {
      assert s[k..][i] == s[k + i];
    }
  }

  /** Text without three consecutive newlines passes through the collapse unchanged. */
  lemma {:induction false} CollapseIdentity(s: string)
    requires NoTripleNewline(s)
    ensures CollapseNewlines(s) == s
    decreases |s|
  {
    if s != [] {
      if s[0] == '\n' {
        var k := NewlineRun(s);
        assert k < 3 by {
          assert |s| >= 3 ==> !(s[0] == '\n' && s[1] == '\n' && s[2] == '\n');
        }
        NoTripleNewlineSuffix(s, k);
        CollapseIdentity(s[k..]);
        assert s[..k] + s[k..] == s;
      } else {
        NoTripleNewlineSuffix(s, 1);
        CollapseIdentity(s[1..]);
        assert [s[0]] + s[1..] == s;
      }
    }
  }

  /** Stripping takes a contiguous slice, so it keeps both properties. */
  lemma {:induction false} StripKeeps(s: string)
    ensures '\r' !in s ==> '\r' !in Strip(s)
    ensures NoTripleNewline(s) ==> NoTripleNewline(Strip(s))
  {
    StripMiddle(s);
    var r := Strip(s);
    var off := |s| - |LStrip(s)|;
    assert r == s[off..off + |r|];
    if NoTripleNewline(s) {
      forall i | 0 <= i < |r| - 2 ensures !(r[i] == '\n' && r[i + 1] == '\n' && r[i + 2] == '\n') {
        assert r[i] == s[off + i] && r[i + 1] == s[off + i + 1] && r[i + 2] == s[off + i + 2];
      }
    }
    if '\r' !in s {
      forall i | 0 <= i < |r| ensures r[i] != '\r' {
        assert r[i] == s[off + i];
      }
    }
  }

  /**
   * The result has no carriage return, no three consecutive newlines and no
   * whitespace at either end.
   */
  lemma {:induction false} NormalizeWhitespaceIsNormalized(s: string)
    ensures IsNormalized(NormalizeWhitespace(s))
  {
    var u := ReplaceCr(ReplaceCrLf(s));
    assert '\r' !in u by {
      forall i | 0 <= i < |u| ensures u[i] != '\r' { }
    }
    CollapseShape(u);
    StripKeeps(CollapseNewlines(u));
  }

  /** Normalised text is a fixed point. */
  lemma {:induction false} NormalizedFixedPoint(s: string)
    requires IsNormalized(s)
    ensures NormalizeWhitespace(s) == s
  {
    assert ReplaceCrLf(s) == s;
    assert ReplaceCr(s) == s;
    CollapseIdentity(s);
    StripStripped(s);
  }

  /** Normalising twice is normalising once. */
  lemma {:induction false} NormalizeIdempotent(s: string)
    ensures NormalizeWhitespace(NormalizeWhitespace(s)) == NormalizeWhitespace(s)
  {
    NormalizeWhitespaceIsNormalized(s);
    NormalizedFixedPoint(NormalizeWhitespace(s));
  }
}
