/**
 * `getProjectSlug` (lib/get-projects-slug.ts): lower-case the name,
 * decompose it (NFD), drop the combining diacritical marks U+0300..U+036F,
 * and replace every maximal run of whitespace by a single '-'.
 *
 * Unicode case mapping and canonical decomposition are not modelled: they
 * enter as the function parameters `toLower` and `decompose`.
 */
module Slug {
  import Strings

  /** A character matched by JavaScript's `\s`: the ECMAScript WhiteSpace and LineTerminator sets. */
  predicate IsJsWhitespace(c: char) {
    || c == '\t' || c == '\n' || c == '\U{000B}' || c == '\U{000C}' || c == '\r'
    || c == ' ' || c == '\U{00A0}' || c == '\U{1680}'
    || ('\U{2000}' <= c <= '\U{200A}')
    || c == '\U{2028}' || c == '\U{2029}' || c == '\U{202F}' || c == '\U{205F}'
    || c == '\U{3000}' || c == '\U{FEFF}'
  }

  /** A character of the block U+0300..U+036F, Combining Diacritical Marks. */
  predicate IsCombiningMark(c: char) {
    '\U{0300}' <= c <= '\U{036F}'
  }

  /** Removal of every combining mark (the source's regular-expression replace over U+0300..U+036F). */
  function StripCombiningMarks(s: string): (r: string)
    ensures forall i :: 0 <= i < |r| ==> !IsCombiningMark(r[i])
    ensures forall i :: 0 <= i < |r| ==> r[i] in s
  {
    if s == [] then []
    else (if IsCombiningMark(s[0]) then [] else [s[0]]) + StripCombiningMarks(s[1..])
  }

  /** `s` with its leading whitespace run removed. */
  function DropLeadingWhitespace(s: string): (r: string)
    ensures |r| <= |s| && r == s[|s| - |r|..]
    ensures forall i :: 0 <= i < |s| - |r| ==> IsJsWhitespace(s[i])
    ensures r == [] || !IsJsWhitespace(r[0])
  {
    if s != [] && IsJsWhitespace(s[0]) then
      var r := DropLeadingWhitespace(s[1..]);
      assert s[1..][|s| - 1 - |r|..] == s[|s| - |r|..];
      assert forall i :: 1 <= i < |s| ==> s[i] == s[1..][i - 1];
      r
    else s
  }

  /** `.replace(/\s+/g, '-')`: each maximal whitespace run is matched once and replaced. */
  function CollapseWhitespace(s: string): (r: string)
    ensures forall i :: 0 <= i < |r| ==> !IsJsWhitespace(r[i])
    ensures forall i :: 0 <= i < |r| ==> r[i] == '-' || r[i] in s
    decreases |s|
  {
    if s == [] then []
    else if IsJsWhitespace(s[0]) then "-" + CollapseWhitespace(DropLeadingWhitespace(s))
    else [s[0]] + CollapseWhitespace(s[1..])
  }

  /**
   * Reference definition, one character at a time: a non-space character
   * is copied, the first space after a non-space (or at the start) becomes
   * '-', every further space of the same run is dropped.
   */
  function CollapseStreaming(s: string, afterSpace: bool): string
  {
    if s == [] then []
    else StreamHead(s[0], afterSpace) + CollapseStreaming(s[1..], IsJsWhitespace(s[0]))
  }

  /** What the character-by-character replacement writes for one character. */
  function StreamHead(c: char, afterSpace: bool): string {
    if !IsJsWhitespace(c) then [c] else if afterSpace then [] else "-"
  }

  /** The slug of a project name. */
  function GetProjectSlug(name: string, toLower: string -> string, decompose: string -> string): (slug: string)
    ensures forall i :: 0 <= i < |slug| ==> !IsJsWhitespace(slug[i])
    ensures forall i :: 0 <= i < |slug| ==> !IsCombiningMark(slug[i])
  {
    CollapseWhitespace(StripCombiningMarks(decompose(toLower(name))))
  }

  /** Whether `c` survives every step of the slug unchanged and is not a '-'. */
  predicate IsLetter(c: char) {
    !IsJsWhitespace(c) && !IsCombiningMark(c) && c != '-'
  }

  /** The characters of `s` that are letters in the sense of `IsLetter`, in order. */
  function Letters(s: string): (r: string)
    ensures forall i :: 0 <= i < |r| ==> IsLetter(r[i])
  {
    if s == [] then []
    else (if IsLetter(s[0]) then [s[0]] else []) + Letters(s[1..])
  }

  lemma LettersAppend(a: string, b: string)
    ensures Letters(a + b) == Letters(a) + Letters(b)
  {
    if a == [] {
      assert a + b == b;
    } else {
      assert (a + b)[1..] == a[1..] + b;
      LettersAppend(a[1..], b);
    }
  }

  /** The streaming definition consumes a whitespace run silently once inside it. */
  lemma {:induction false} StreamingSkipsRun(s: string)
    ensures CollapseStreaming(s, true) == CollapseStreaming(DropLeadingWhitespace(s), true)
    decreases |s|
  {
    if s != [] && IsJsWhitespace(s[0]) {
      StreamingSkipsRun(s[1..]);
    }
  }

  /** The run-based replacement and the streaming reference agree on every text. */
  lemma {:induction false} CollapseMatchesStreaming(s: string)
    ensures CollapseWhitespace(s) == CollapseStreaming(s, false)
    decreases |s|
  {
    if s != [] {
      if IsJsWhitespace(s[0]) {
        var rest := DropLeadingWhitespace(s);
        CollapseMatchesStreaming(rest);
        assert CollapseStreaming(rest, true) == CollapseStreaming(rest, false);
        StreamingSkipsRun(s[1..]);
        assert DropLeadingWhitespace(s[1..]) == rest;
      } else {
        CollapseMatchesStreaming(s[1..]);
      }
    }
  }

  /** Whether the last character read was a space (`afterSpace` when nothing was read). */
  function EndsInSpace(s: string, afterSpace: bool): bool {
    if s == [] then afterSpace else IsJsWhitespace(s[|s| - 1])
  }

  lemma {:induction false} StreamingAppend(a: string, b: string, afterSpace: bool)
    ensures CollapseStreaming(a + b, afterSpace)
         == CollapseStreaming(a, afterSpace) + CollapseStreaming(b, EndsInSpace(a, afterSpace))
    decreases |a|
  {
    if a == [] {
      assert a + b == b;
    } else {
      var space := IsJsWhitespace(a[0]);
      StreamingOfCons(a, b, afterSpace);
      EndsInSpaceOfTail(a, afterSpace);
      StreamingAppend(a[1..], b, space);
      Strings.AppendAssociates(StreamHead(a[0], afterSpace), CollapseStreaming(a[1..], space),
                       CollapseStreaming(b, EndsInSpace(a, afterSpace)));
    }
  }

  /** One step of the reference definition on a text that starts with `a`. */
  lemma StreamingOfCons(a: string, b: string, afterSpace: bool)
    requires a != []
    ensures CollapseStreaming(a + b, afterSpace)
         == StreamHead(a[0], afterSpace) + CollapseStreaming(a[1..] + b, IsJsWhitespace(a[0]))
  {
    assert (a + b)[0] == a[0] && (a + b)[1..] == a[1..] + b;
  }

  /** Reading the first character and then the rest ends where reading all of `a` ends. */
  lemma EndsInSpaceOfTail(a: string, afterSpace: bool)
    requires a != []
    ensures EndsInSpace(a[1..], IsJsWhitespace(a[0])) == EndsInSpace(a, afterSpace)
  {
  }

  /** A non-empty run of spaces streams to one '-', or to nothing inside a run. */
  lemma {:induction false} StreamingOfRun(w: string, afterSpace: bool)
    requires w != [] && forall i :: 0 <= i < |w| ==> IsJsWhitespace(w[i])
    ensures CollapseStreaming(w, afterSpace) == (if afterSpace then [] else "-")
    decreases |w|
  {
    if |w| > 1 {
      StreamingOfRun(w[1..], true);
    }
  }

  /**
   * Each maximal whitespace run becomes exactly one '-': a run `w` between
   * a text not ending in a space and a text not starting with one.
   */
  lemma CollapseRun(a: string, w: string, b: string)
    requires a == [] || !IsJsWhitespace(a[|a| - 1])
    requires w != [] && forall i :: 0 <= i < |w| ==> IsJsWhitespace(w[i])
    requires b == [] || !IsJsWhitespace(b[0])
    ensures CollapseWhitespace(a + w + b) == CollapseWhitespace(a) + "-" + CollapseWhitespace(b)
  {
    CollapseMatchesStreaming(a + w + b);
    CollapseMatchesStreaming(a);
    CollapseMatchesStreaming(b);
    StreamingAppend(a + w, b, false);
    StreamingAppend(a, w, false);
    StreamingOfRun(w, false);
    assert CollapseStreaming(b, true) == CollapseStreaming(b, false);
  }

  /** Text without whitespace passes through unchanged. */
  lemma {:induction false} CollapseWithoutWhitespace(s: string)
    requires forall i :: 0 <= i < |s| ==> !IsJsWhitespace(s[i])
    ensures CollapseWhitespace(s) == s
    decreases |s|
  {
    if s != [] {
      CollapseWithoutWhitespace(s[1..]);
      assert s == [s[0]] + s[1..];
    }
  }

  lemma {:induction false} StreamingKeepsLetters(s: string, afterSpace: bool)
    ensures Letters(CollapseStreaming(s, afterSpace)) == Letters(s)
    decreases |s|
  {
    if s != [] {
      LettersAppend(StreamHead(s[0], afterSpace), CollapseStreaming(s[1..], IsJsWhitespace(s[0])));
      StreamingKeepsLetters(s[1..], IsJsWhitespace(s[0]));
    }
  }

  lemma {:induction false} StripKeepsLetters(s: string)
    ensures Letters(StripCombiningMarks(s)) == Letters(s)
    decreases |s|
  {
    if s != [] {
      LettersAppend(if IsCombiningMark(s[0]) then [] else [s[0]], StripCombiningMarks(s[1..]));
      StripKeepsLetters(s[1..]);
    }
  }

  /**
   * Apart from the dashes, the slug holds exactly the characters of the
   * decomposed lower-case name that are neither whitespace nor combining
   * marks, in their original order.
   */
  lemma SlugKeepsLetters(name: string, toLower: string -> string, decompose: string -> string)
    ensures Letters(GetProjectSlug(name, toLower, decompose)) == Letters(decompose(toLower(name)))
  {
    var t := StripCombiningMarks(decompose(toLower(name)));
    CollapseMatchesStreaming(t);
    StreamingKeepsLetters(t, false);
    StripKeepsLetters(decompose(toLower(name)));
  }

  /** Stripping marks works piece by piece. */
  lemma {:induction false} StripAppend(a: string, b: string)
    ensures StripCombiningMarks(a + b) == StripCombiningMarks(a) + StripCombiningMarks(b)
    decreases |a|
  {
    if a != [] {
      assert (a + b)[1..] == a[1..] + b;
      StripAppend(a[1..], b);
    } else {
      assert a + b == b;
    }
  }

  /** Text without combining marks passes through unchanged. */
  lemma {:induction false} StripWithoutMarks(s: string)
    requires forall i :: 0 <= i < |s| ==> !IsCombiningMark(s[i])
    ensures StripCombiningMarks(s) == s
    decreases |s|
  {
    if s != [] {
      StripWithoutMarks(s[1..]);
      assert s == [s[0]] + s[1..];
    }
  }

  /**
   * A decomposed lower-case name with neither whitespace nor combining
   * marks is its own slug: every other character, '-' included, stays.
   */
  lemma SlugOfPlainName(name: string, toLower: string -> string, decompose: string -> string)
    requires var t := decompose(toLower(name));
             forall i :: 0 <= i < |t| ==> !IsJsWhitespace(t[i]) && !IsCombiningMark(t[i])
    ensures GetProjectSlug(name, toLower, decompose) == decompose(toLower(name))
  {
    var t := decompose(toLower(name));
    StripWithoutMarks(t);
    CollapseWithoutWhitespace(t);
  }

  /**
   * Two plain words around a whitespace run become the words joined by
   * one '-'.
   */
  lemma SlugJoinsWords(name: string, toLower: string -> string, decompose: string -> string,
                       a: string, w: string, b: string)
    requires decompose(toLower(name)) == a + w + b
    requires forall i :: 0 <= i < |a| ==> !IsJsWhitespace(a[i]) && !IsCombiningMark(a[i])
    requires w != [] && forall i :: 0 <= i < |w| ==> IsJsWhitespace(w[i])
    requires forall i :: 0 <= i < |b| ==> !IsJsWhitespace(b[i]) && !IsCombiningMark(b[i])
    ensures GetProjectSlug(name, toLower, decompose) == a + "-" + b
  {
    StripAppend(a + w, b);
    StripAppend(a, w);
    StripWithoutMarks(a);
    StripWithoutMarks(w);
    StripWithoutMarks(b);
    CollapseRun(a, w, b);
    CollapseWithoutWhitespace(a);
    CollapseWithoutWhitespace(b);
  }

  /** The empty name has the empty slug. */
  lemma SlugOfEmpty(toLower: string -> string, decompose: string -> string)
    requires toLower([]) == [] && decompose([]) == []
    ensures GetProjectSlug([], toLower, decompose) == []
  {
  }
}
