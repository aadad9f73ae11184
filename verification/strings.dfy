/**
 * The JavaScript string primitives the site relies on, over `seq<char>`:
 * `includes`, `indexOf`, and the first two segments of `split` with a
 * non-empty separator.
 */
module Strings {
  import opened Wrappers

  /** `t` occurs in `s` starting at index `i`. */
  predicate OccursAt(s: string, t: string, i: int) {
    0 <= i && i + |t| <= |s| && s[i..i + |t|] == t
  }

  /** JavaScript's `s.includes(t)`: `t` is a contiguous substring of `s`. */
  predicate Contains(s: string, t: string) {
    exists i | 0 <= i <= |s| - |t| :: OccursAt(s, t, i)
  }

  /** Search for `t` in `s` from index `k` on; -1 when there is no occurrence. */
  function IndexFrom(s: string, t: string, k: nat): (r: int)
    decreases |s| - k
    ensures r == -1 || (k <= r && OccursAt(s, t, r))
    ensures forall j :: k <= j && (r == -1 || j < r) ==> !OccursAt(s, t, j)
  {
    if |s| < k + |t| then -1
    else if s[k..k + |t|] == t then k
    else IndexFrom(s, t, k + 1)
  }

  /** JavaScript's `s.indexOf(t)`: the first occurrence of `t`, or -1. */
  function IndexOf(s: string, t: string): (r: int)
    ensures r == -1 <==> !Contains(s, t)
    ensures r != -1 ==> OccursAt(s, t, r) && forall j :: 0 <= j < r ==> !OccursAt(s, t, j)
  {
    IndexFrom(s, t, 0)
  }

  /** An occurrence inside a prefix of `s` is an occurrence inside `s`. */
  lemma OccursInPrefix(s: string, n: nat, t: string, j: int)
    requires n <= |s|
    ensures OccursAt(s[..n], t, j) ==> OccursAt(s, t, j)
  {
    if OccursAt(s[..n], t, j) {
      assert s[..n][j..j + |t|] == s[j..j + |t|];
    }
  }

  /** `s.split(sep)[0]`: the text before the first `sep`, or all of `s` when there is none. */
  function SplitHead(s: string, sep: string): (r: string)
    requires sep != []
    ensures r <= s
    ensures !Contains(r, sep)
    ensures Contains(s, sep) ==> OccursAt(s, sep, |r|) && |r| == IndexOf(s, sep)
    ensures !Contains(s, sep) ==> r == s
  {
    var i := IndexOf(s, sep);
    if i == -1 then s
    else
      var r := s[..i];
      assert !Contains(r, sep) by {
        forall j | OccursAt(r, sep, j) ensures false {
          OccursInPrefix(s, i, sep, j);
        }
      }
      r
  }

  /**
   * `s.split(sep)[1]`: the text between the first and the second `sep`
   * (or the end of `s`); `None` stands for JavaScript's `undefined`, which
   * is what indexing the split yields when `sep` does not occur at all.
   */
  function SplitSecond(s: string, sep: string): (r: Option<string>)
    requires sep != []
    ensures r.None? <==> !Contains(s, sep)
    ensures r.Some? ==> !Contains(r.value, sep)
    ensures r.Some? ==> OccursAt(s, sep + r.value, IndexOf(s, sep))
    ensures r.Some? ==>
              var k := IndexOf(s, sep) + |sep|;
              var next := IndexFrom(s, sep, k);
              next == k + |r.value| || (next == -1 && k + |r.value| == |s|)
  {
    var i := IndexOf(s, sep);
    if i == -1 then None
    else
      var seg := SegmentFrom(s, sep, i + |sep|);
      JoinOccurs(s, sep, seg, i);
      Some(seg)
  }

  /** The second segment is the head of what follows the first `sep`. */
  lemma SecondIsHeadOfRest(s: string, sep: string)
    requires sep != [] && Contains(s, sep)
    ensures SplitSecond(s, sep).value == SplitHead(s[IndexOf(s, sep) + |sep|..], sep)
  {
  }

  /** `s` is cut at `n`: `n` is its end, a `c` or the start of a `sep`. */
  predicate CutAt(s: string, sep: string, c: char, n: int) {
    n == |s| || (0 <= n < |s| && s[n] == c) || OccursAt(s, sep, n)
  }

  /**
   * `s.split(sep)[0].split(c)[0]`: a prefix of `s` without `c` or `sep`
   * that stops at the end of `s`, at a `c` or at a `sep`.
   */
  lemma HeadThenChar(s: string, sep: string, c: char)
    requires sep != []
    ensures SplitHead(SplitHead(s, sep), [c]) <= s
    ensures c !in SplitHead(SplitHead(s, sep), [c])
    ensures !Contains(SplitHead(SplitHead(s, sep), [c]), sep)
    ensures CutAt(s, sep, c, |SplitHead(SplitHead(s, sep), [c])|)
  {
    var h := SplitHead(s, sep);
    var id := SplitHead(h, [c]);
    SingleCharContains(id, c);
    NotContainedPrefix(h, |id|, sep);
    assert h[..|id|] == id;
    if |id| < |h| {
      assert h[|id|] == c by { assert h[|id|..|id| + 1] == [c]; }
    }
  }

  /**
   * The text of `s` from `k` up to the next `sep` or the end of `s`:
   * `s.slice(k).split(sep)[0]`.
   */
  function SegmentFrom(s: string, sep: string, k: nat): (seg: string)
    requires sep != [] && k <= |s|
    ensures !Contains(seg, sep) && OccursAt(s, seg, k)
    ensures IndexFrom(s, sep, k) == k + |seg| || (IndexFrom(s, sep, k) == -1 && k + |seg| == |s|)
  {
    HeadOfSuffix(s, sep, k, SplitHead(s[k..], sep));
    OccursShift(s, SplitHead(s[k..], sep), k, 0);
    assert s[k..][0..|SplitHead(s[k..], sep)|] == SplitHead(s[k..], sep);
    SplitHead(s[k..], sep)
  }

  /** Text `t` right after an occurrence of `sep` at `i` makes `sep + t` occur at `i`. */
  lemma JoinOccurs(s: string, sep: string, t: string, i: int)
    requires OccursAt(s, sep, i) && OccursAt(s, t, i + |sep|)
    ensures OccursAt(s, sep + t, i)
  {
    assert s[i..i + |sep + t|] == s[i..i + |sep|] + s[i + |sep|..i + |sep| + |t|];
  }

  /**
   * The head of the suffix of `s` from `k` ends where the next `sep` from
   * `k` on starts, or at the end of `s` when there is none.
   */
  lemma HeadOfSuffix(s: string, sep: string, k: nat, seg: string)
    requires sep != [] && k <= |s| && seg == SplitHead(s[k..], sep)
    ensures var next := IndexFrom(s, sep, k);
            next == k + |seg| || (next == -1 && k + |seg| == |s|)
  {
    var e := k + |seg|;
    HeadOfSuffixBounds(s, sep, k, seg);
    var next := IndexFrom(s, sep, k);
    if OccursAt(s, sep, e) {
      assert next != -1 && next <= e;
    } else {
      assert e == |s|;
      assert next == -1;
    }
  }

  /**
   * The head of the suffix of `s` from `k` ends at the end of `s` or at an
   * occurrence of `sep`, and no occurrence of `sep` starts inside it.
   */
  lemma HeadOfSuffixBounds(s: string, sep: string, k: nat, seg: string)
    requires sep != [] && k <= |s| && seg == SplitHead(s[k..], sep)
    ensures k + |seg| == |s| || OccursAt(s, sep, k + |seg|)
    ensures forall j :: k <= j < k + |seg| ==> !OccursAt(s, sep, j)
  {
    var rest := s[k..];
    if Contains(rest, sep) {
      OccursShift(s, sep, k, |seg|);
    }
    forall j | k <= j < k + |seg| ensures !OccursAt(s, sep, j) {
      OccursShift(s, sep, k, j - k);
      if !Contains(rest, sep) {
        assert 0 <= j - k <= |rest| - |sep| ==> !OccursAt(rest, sep, j - k);
      }
    }
  }

  /** An occurrence at `j` in the suffix from `k` is an occurrence at `k + j` in the whole text. */
  lemma OccursShift(s: string, t: string, k: nat, j: nat)
    requires k <= |s|
    ensures OccursAt(s[k..], t, j) <==> OccursAt(s, t, k + j)
  {
    if k + j + |t| <= |s| {
      assert s[k..][j..j + |t|] == s[k + j..k + j + |t|];
    }
  }

  /** Cutting `s` at its first `sep` and gluing the pieces back gives `s`. */
  lemma SplitHeadRejoin(s: string, sep: string)
    requires sep != [] && Contains(s, sep)
    ensures SplitHead(s, sep) + sep + s[|SplitHead(s, sep)| + |sep|..] == s
  {
    var h := SplitHead(s, sep);
    assert s == s[..|h|] + s[|h|..|h| + |sep|] + s[|h| + |sep|..];
  }

  /** A text that cannot hold one of the characters of `t` does not contain `t`. */
  lemma MissingCharNotContained(s: string, t: string, c: char)
    requires c in t && c !in s
    ensures !Contains(s, t)
  {
    var k :| 0 <= k < |t| && t[k] == c;
    forall i | 0 <= i <= |s| - |t| ensures !OccursAt(s, t, i) {
      assert s[i..i + |t|][k] == s[i + k];
    }
  }

  /** A text shorter than `t` does not contain `t`. */
  lemma ShortNotContained(s: string, t: string)
    requires |s| < |t|
    ensures !Contains(s, t)
  {
  }

  /** An occurrence in `a` is still an occurrence in `a + b` and in `b + a`. */
  lemma ContainsExtend(a: string, b: string, t: string)
    requires Contains(a, t)
    ensures Contains(a + b, t) && Contains(b + a, t)
  {
    var i :| 0 <= i <= |a| - |t| && OccursAt(a, t, i);
    assert (a + b)[i..i + |t|] == a[i..i + |t|];
    assert OccursAt(a + b, t, i);
    assert (b + a)[|b| + i..|b| + i + |t|] == a[i..i + |t|];
    assert OccursAt(b + a, t, |b| + i);
  }

  /** If `s` contains `t` and `t` contains `u`, then `s` contains `u`. */
  lemma ContainsTransitive(s: string, t: string, u: string)
    requires Contains(s, t) && Contains(t, u)
    ensures Contains(s, u)
  {
    var i :| 0 <= i <= |s| - |t| && OccursAt(s, t, i);
    var j :| 0 <= j <= |t| - |u| && OccursAt(t, u, j);
    forall k | 0 <= k < |u| ensures s[i + j + k] == u[k] {
      assert s[i + j + k] == s[i..i + |t|][j + k];
      assert u[k] == t[j..j + |u|][k];
    }
    assert s[i + j..i + j + |u|] == u;
    assert OccursAt(s, u, i + j);
  }

  /**
   * When the first character of `sep` does not appear in `a`, the first
   * `sep` of `a + sep + b` is the one right after `a`.
   */
  lemma FirstOccurrenceAfter(a: string, sep: string, b: string)
    requires sep != [] && sep[0] !in a
    ensures IndexOf(a + sep + b, sep) == |a|
  {
    var s := a + sep + b;
    assert s[|a|..|a| + |sep|] == sep;
    assert OccursAt(s, sep, |a|);
    forall j | 0 <= j < |a| && j + |sep| <= |s| ensures !OccursAt(s, sep, j) {
      assert s[j..j + |sep|][0] == a[j];
    }
  }

  /**
   * `a + sep + b` split at `sep`: when the first `sep` is the one after
   * `a`, the head is `a` and the second segment is `b` up to its own `sep`.
   */
  lemma SplitOfJoin(a: string, sep: string, b: string)
    requires sep != [] && IndexOf(a + sep + b, sep) == |a|
    ensures SplitHead(a + sep + b, sep) == a
    ensures SplitSecond(a + sep + b, sep) == Some(SplitHead(b, sep))
  {
    var s := a + sep + b;
    assert s[..|a|] == a;
    assert s[|a| + |sep|..] == b;
  }

  /**
   * Taking the text up to the first `sep` and then cutting it at the first
   * `c` recovers `id` from `id + query`, when `query` is empty or starts
   * with `c`, `c` appears neither in `id` nor in `sep`, and `id` does not
   * contain `sep` (the shape `v=<id>&...` of a watch link).
   */
  lemma HeadBeforeDelimiter(id: string, query: string, sep: string, c: char)
    requires sep != [] && c !in id && c !in sep && !Contains(id, sep)
    requires query == [] || query[0] == c
    ensures SplitHead(SplitHead(id + query, sep), [c]) == id
  {
    var s := id + query;
    forall j | 0 <= j < |id| && j + |sep| <= |s| ensures !OccursAt(s, sep, j) {
      if j + |sep| <= |id| {
        assert s[j..j + |sep|] == id[j..j + |sep|];
        assert !OccursAt(id, sep, j);
      } else {
        assert s[j..j + |sep|][|id| - j] == c;
      }
    }
    var seg := SplitHead(s, sep);
    assert |seg| >= |id|;
    assert seg[..|id|] == id;
    if |seg| == |id| {
      assert seg == id;
      MissingCharNotContained(id, [c], c);
    } else {
      assert seg[|id|] == c;
      assert seg == id + [c] + seg[|id| + 1..];
      FirstOccurrenceAfter(id, [c], seg[|id| + 1..]);
      SplitOfJoin(id, [c], seg[|id| + 1..]);
    }
  }

  lemma AppendEmpty<T>(s: seq<T>)
    ensures s + [] == s
  {
  }

  /** Concatenation associates. */
  lemma AppendAssociates<T>(x: seq<T>, y: seq<T>, z: seq<T>)
    ensures x + (y + z) == (x + y) + z
  {
  }

  /** A single character is contained exactly when it is an element. */
  lemma SingleCharContains(s: string, c: char)
    ensures Contains(s, [c]) <==> c in s
  {
    if c in s {
      var k :| 0 <= k < |s| && s[k] == c;
      assert s[k..k + 1] == [c];
      assert OccursAt(s, [c], k);
    } else {
      MissingCharNotContained(s, [c], c);
    }
  }

  /** A prefix of a text without `t` is without `t` too. */
  lemma NotContainedPrefix(s: string, n: nat, t: string)
    requires n <= |s| && !Contains(s, t)
    ensures !Contains(s[..n], t)
  {
    forall j | 0 <= j <= n - |t| ensures !OccursAt(s[..n], t, j) {
      OccursInPrefix(s, n, t, j);
    }
  }

  /** Where `t` occurs, every prefix of `t` occurs as well. */
  lemma OccursPrefix(s: string, t: string, u: string, i: int)
    requires OccursAt(s, t, i) && u <= t
    ensures OccursAt(s, u, i)
  {
    assert s[i..i + |u|] == s[i..i + |t|][..|u|];
  }

  /** A first occurrence stays first when text is appended after it. */
  lemma FirstOccurrenceExtends(a: string, sep: string, b: string)
    requires sep != [] && IndexOf(a + sep, sep) == |a|
    ensures IndexOf(a + sep + b, sep) == |a|
  {
    var s := a + sep + b;
    assert s[|a|..|a| + |sep|] == sep;
    assert OccursAt(s, sep, |a|);
    forall j | 0 <= j < |a| ensures !OccursAt(s, sep, j) {
      assert s[j..j + |sep|] == (a + sep)[j..j + |sep|];
      assert !OccursAt(a + sep, sep, j);
    }
  }
}
