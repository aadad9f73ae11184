/**
 * `getEmbedUrl` (app/projects/page.tsx and, identically,
 * app/projects/components/ProjectModals.tsx): rewrites YouTube, Loom and
 * screen.studio share links into the URLs their players embed, and returns
 * every other link unchanged.
 */
module Embed {
  import opened Wrappers
  import opened Strings

  const YouTubeEmbedPrefix: string := "https://www.youtube.com/embed/"
  const LoomEmbedPrefix: string := "https://www.loom.com/embed/"
  const ScreenStudioEmbedPrefix: string := "https://app.screen.studio/embed/"

  const LoomGuard: string := "loom.com/share"
  const LoomMarker: string := "loom.com/share/"
  const ScreenStudioGuard: string := "screen.studio/share"
  const ScreenStudioMarker: string := "screen.studio/share/"

  /**
   * The Loom and screen.studio branches test for the marker without its
   * trailing '/', but split on the marker with it; when only the shorter
   * form occurs, `split(marker)[1]` is `undefined` and calling `.split('?')`
   * on it throws a TypeError.
   */
  datatype EmbedError = UndefinedShareSegment(marker: string)

  /** The YouTube branch is taken for any link mentioning either host. */
  predicate IsYouTube(url: string) {
    Contains(url, "youtube.com") || Contains(url, "youtu.be")
  }

  lemma WatchMarkerMentions()
    ensures Contains("youtube.com/watch?v=", "v=")
    ensures Contains("youtube.com/watch?v=", "youtube.com")
    ensures Contains("youtu.be/", "youtu.be")
    ensures Contains(LoomMarker, LoomGuard)
    ensures Contains(ScreenStudioMarker, ScreenStudioGuard)
  {
    assert OccursAt("youtube.com/watch?v=", "v=", 18);
    assert OccursAt("youtube.com/watch?v=", "youtube.com", 0);
    assert OccursAt("youtu.be/", "youtu.be", 0);
    assert OccursAt(LoomMarker, LoomGuard, 0);
    assert OccursAt(ScreenStudioMarker, ScreenStudioGuard, 0);
  }

  /** The text after the first `marker` of `url`. */
  function After(url: string, marker: string): (rest: string)
    requires Contains(url, marker)
    ensures |rest| == |url| - IndexOf(url, marker) - |marker|
    ensures url == url[..IndexOf(url, marker)] + marker + rest
  {
    assert url[IndexOf(url, marker)..IndexOf(url, marker) + |marker|] == marker;
    url[IndexOf(url, marker) + |marker|..]
  }

  /**
   * `id` is what `url.split('v=')[1]` cut at its first '&' gives: the
   * longest start of the text after the first "v=" that holds no '&' and
   * no "v=", so that it stops at the end, at a '&' or at the next "v=".
   */
  predicate IsWatchId(url: string, id: string) {
    && Contains(url, "v=") && '&' !in id && !Contains(id, "v=")
    && id <= After(url, "v=") && CutAt(After(url, "v="), "v=", '&', |id|)
  }

  /**
   * `id` is what `url.split('youtu.be/')[1]` gives: the text after the
   * first "youtu.be/" up to the next "youtu.be/" or the end.
   */
  predicate IsShortId(url: string, id: string) {
    && Contains(url, "youtu.be/") && !Contains(id, "youtu.be/")
    && id <= After(url, "youtu.be/")
    && (|id| == |After(url, "youtu.be/")| || OccursAt(After(url, "youtu.be/"), "youtu.be/", |id|))
  }

  /** At most one text is the watch-link id of a link. */
  lemma WatchIdUnique(url: string, a: string, b: string)
    requires IsWatchId(url, a) && IsWatchId(url, b)
    ensures a == b
  {
    if |a| <= |b| {
      WatchIdSameLength(url, a, b);
    } else {
      WatchIdSameLength(url, b, a);
    }
  }

  /** Of two watch-link ids of one link, the shorter is as long as the longer. */
  lemma WatchIdSameLength(url: string, a: string, b: string)
    requires IsWatchId(url, a) && IsWatchId(url, b) && |a| <= |b|
    ensures |a| == |b|
  {
    WatchIdParts(url, a);
    WatchIdParts(url, b);
    if |a| < |b| {
      assert false;
    }
  }

  /** `IsWatchId` spelled out character by character. */
  lemma WatchIdParts(url: string, id: string)
    requires IsWatchId(url, id)
    ensures var rest := After(url, "v=");
            && |id| <= |rest| && (forall j :: 0 <= j < |id| ==> id[j] == rest[j] && id[j] != '&')
            && (forall j :: 0 <= j < |id| - 1 ==> !(id[j] == 'v' && id[j + 1] == '='))
            && (|id| == |rest| || rest[|id|] == '&'
                || (|id| + 1 < |rest| && rest[|id|] == 'v' && rest[|id| + 1] == '='))
  {
    var rest := After(url, "v=");
    var e := |id|;
    forall j | 0 <= j < |id| - 1 ensures !(id[j] == 'v' && id[j + 1] == '=') {
      if id[j] == 'v' && id[j + 1] == '=' {
        assert id[j..j + 2] == "v=";
        assert OccursAt(id, "v=", j);
      }
    }
    if e < |rest| && rest[e] != '&' {
      assert OccursAt(rest, "v=", e);
      assert rest[e] == rest[e..e + 2][0] && rest[e + 1] == rest[e..e + 2][1];
    }
  }

  /** At most one text is the short-link id of a link. */
  lemma ShortIdUnique(url: string, a: string, b: string)
    requires IsShortId(url, a) && IsShortId(url, b)
    ensures a == b
  {
    var rest, m := After(url, "youtu.be/"), "youtu.be/";
    CutBeforeParts(rest, a, m);
    CutBeforeParts(rest, b, m);
    ShortMarkerStartsOnce();
    if |a| < |b| || |b| < |a| {
      assert false;
    }
  }

  /**
   * A piece of `rest` that holds no `m` and ends at the end of `rest` or
   * where `m` occurs, spelled out character by character.
   */
  lemma CutBeforeParts(rest: string, id: string, m: string)
    requires id <= rest && !Contains(id, m)
    requires |id| == |rest| || OccursAt(rest, m, |id|)
    ensures forall j :: 0 <= j && j + |m| <= |id| ==> !OccursAt(rest, m, j)
    ensures |id| < |rest| ==> forall j :: |id| <= j < |id| + |m| ==> rest[j] == m[j - |id|]
  {
    forall j | 0 <= j && j + |m| <= |id| ensures !OccursAt(rest, m, j) {
      assert id[j..j + |m|] == rest[j..j + |m|];
      assert OccursAt(rest, m, j) ==> OccursAt(id, m, j);
    }
    if |id| < |rest| {
      forall j | |id| <= j < |id| + |m| ensures rest[j] == m[j - |id|] {
        assert rest[j] == rest[|id|..|id| + |m|][j - |id|];
      }
    }
  }

  /** "youtu.be/" has its only 'y' at the front, so it cannot overlap itself. */
  lemma ShortMarkerStartsOnce()
    ensures "youtu.be/"[0] == 'y' && forall k :: 1 <= k < 9 ==> "youtu.be/"[k] != 'y'
  {
    assert "youtu.be/"[1..] == "outu.be/";
  }

  /** The id of a watch link. */
  function WatchId(url: string): (id: string)
    requires Contains(url, "v=")
    ensures IsWatchId(url, id)
  {
    SecondIsHeadOfRest(url, "v=");
    HeadThenChar(After(url, "v="), "v=", '&');
    SplitHead(SplitSecond(url, "v=").value, "&")
  }

  /** The id of a short link. */
  function ShortId(url: string): (id: string)
    requires Contains(url, "youtu.be/")
    ensures IsShortId(url, id)
  {
    SecondIsHeadOfRest(url, "youtu.be/");
    SplitSecond(url, "youtu.be/").value
  }

  /**
   * The video id of a YouTube link: a watch link's id, else a short link's
   * id, else empty.
   */
  function YouTubeId(url: string): (id: string)
    ensures Contains(url, "youtube.com/watch?v=") ==> IsWatchId(url, id)
    ensures !Contains(url, "youtube.com/watch?v=") && Contains(url, "youtu.be/") ==> IsShortId(url, id)
    ensures !Contains(url, "youtube.com/watch?v=") && !Contains(url, "youtu.be/") ==> id == []
  {
    if Contains(url, "youtube.com/watch?v=") then
      WatchMarkerMentions();
      ContainsTransitive(url, "youtube.com/watch?v=", "v=");
      WatchId(url)
    else if Contains(url, "youtu.be/") then
      ShortId(url)
    else
      []
  }

  /**
   * The id of a Loom or screen.studio share link: the text after the first
   * `marker` up to the next one, cut at its first '?'. `None` when `marker`
   * does not occur, which is where the source throws.
   */
  function ShareId(url: string, marker: string): (r: Option<string>)
    requires marker != []
    ensures r.None? <==> !Contains(url, marker)
    ensures r.Some? ==> '?' !in r.value && Contains(url, marker + r.value)
    ensures r.Some? ==>
              && r.value <= After(url, marker) && !Contains(r.value, marker)
              && CutAt(After(url, marker), marker, '?', |r.value|)
  {
    match SplitSecond(url, marker)
    case None => None
    case Some(seg) =>
      var id := SplitHead(seg, "?");
      assert '?' !in id by { SingleCharContains(id, '?'); }
      assert Contains(url, marker + id) by {
        OccursPrefix(url, marker + seg, marker + id, IndexOf(url, marker));
      }
      SecondIsHeadOfRest(url, marker);
      HeadThenChar(After(url, marker), marker, '?');
      Some(id)
  }

  /**
   * A piece of `rest` that holds neither `c` nor `m` and ends at the end
   * of `rest`, at a `c`, or where `m` occurs: what `ShareId` promises of
   * its result, with `rest` the text after the first marker.
   */
  predicate IsCutPiece(rest: string, m: string, c: char, id: string) {
    id <= rest && c !in id && !Contains(id, m) && CutAt(rest, m, c, |id|)
  }

  /**
   * No proper suffix of `m` starts it again, checked on its first two
   * characters: two occurrences of `m` never overlap.
   */
  predicate NoSelfOverlap(m: string) {
    forall d :: 0 < d < |m| ==> m[d] != m[0] || (d + 1 < |m| && m[d + 1] != m[1])
  }

  /** Neither share marker overlaps itself, and neither holds a '?'. */
  lemma ShareMarkersDoNotOverlap()
    ensures NoSelfOverlap(LoomMarker) && '?' !in LoomMarker
    ensures NoSelfOverlap(ScreenStudioMarker) && '?' !in ScreenStudioMarker
  {
  }

  /** At most one text is the share id of a Loom or screen.studio link. */
  lemma ShareIdUnique(url: string, marker: string, a: string, b: string)
    requires marker == LoomMarker || marker == ScreenStudioMarker
    requires Contains(url, marker)
    requires IsCutPiece(After(url, marker), marker, '?', a)
    requires IsCutPiece(After(url, marker), marker, '?', b)
    ensures a == b
  {
    ShareMarkersDoNotOverlap();
    CutPieceUnique(After(url, marker), marker, '?', a, b);
  }

  /** A cut piece is unique when the marker neither overlaps itself nor holds `c`. */
  lemma CutPieceUnique(rest: string, m: string, c: char, a: string, b: string)
    requires NoSelfOverlap(m) && c !in m
    requires IsCutPiece(rest, m, c, a) && IsCutPiece(rest, m, c, b)
    ensures a == b
  {
    if |a| <= |b| {
      CutPieceSameLength(rest, m, c, a, b);
    } else {
      CutPieceSameLength(rest, m, c, b, a);
    }
    assert a == rest[..|a|] && b == rest[..|b|];
  }

  lemma CutPieceSameLength(rest: string, m: string, c: char, a: string, b: string)
    requires NoSelfOverlap(m) && c !in m
    requires IsCutPiece(rest, m, c, a) && IsCutPiece(rest, m, c, b) && |a| <= |b|
    ensures |a| == |b|
  {
    CutPieceParts(rest, m, c, b);
    OccursChars(rest, m, |a|, |b|);
    OccursChars(rest, m, |a|, |b| + 1);
    OccursChars(rest, m, |b|, |b|);
    OccursChars(rest, m, |b|, |b| + 1);
    if |a| < |b| {
      assert false;
    }
  }

  /** A cut piece spelled out by index: no `c` and no occurrence of `m` inside it. */
  lemma CutPieceParts(rest: string, m: string, c: char, id: string)
    requires IsCutPiece(rest, m, c, id)
    ensures forall j :: 0 <= j < |id| ==> rest[j] != c
    ensures forall j :: 0 <= j && j + |m| <= |id| ==> !OccursAt(rest, m, j)
  {
    forall j | 0 <= j < |id| ensures rest[j] != c {
      assert rest[j] == id[j];
    }
    forall j | 0 <= j && j + |m| <= |id| ensures !OccursAt(rest, m, j) {
      assert id[j..j + |m|] == rest[j..j + |m|];
      assert OccursAt(rest, m, j) ==> OccursAt(id, m, j);
    }
  }

  /** Where `m` occurs at `i`, the character at `j` is the matching one of `m`. */
  lemma OccursChars(s: string, m: string, i: int, j: int)
    ensures OccursAt(s, m, i) && i <= j < i + |m| ==> s[j] == m[j - i]
  {
    if OccursAt(s, m, i) && i <= j < i + |m| {
      assert s[j] == s[i..i + |m|][j - i];
    }
  }

  /** A share link `pre + marker + id + query` yields exactly `id`. */
  lemma ShareIdOfJoin(pre: string, marker: string, id: string, query: string)
    requires marker != [] && IndexOf(pre + marker, marker) == |pre|
    requires '?' !in id && '?' !in marker && !Contains(id, marker)
    requires query == [] || query[0] == '?'
    ensures ShareId(pre + marker + id + query, marker) == Some(id)
  {
    var rest := id + query;
    assert pre + marker + id + query == pre + marker + rest;
    FirstOccurrenceExtends(pre, marker, rest);
    SplitOfJoin(pre, marker, rest);
    HeadBeforeDelimiter(id, query, marker, '?');
  }

  /**
   * getEmbedUrl: YouTube is checked first, then Loom, then screen.studio;
   * a link matching none of them (a Google Drive link, say) is returned as
   * it is. The only failure is the thrown TypeError of the share branches.
   */
  function GetEmbedUrl(url: string): (r: Result<string, EmbedError>)
    ensures IsYouTube(url) ==> r == Ok(YouTubeEmbedPrefix + YouTubeId(url))
    ensures !IsYouTube(url) && Contains(url, LoomGuard) ==>
              (r.Err? <==> !Contains(url, LoomMarker)) &&
              (r.Err? ==> r.error == UndefinedShareSegment(LoomMarker)) &&
              (r.Ok? ==> r.value == LoomEmbedPrefix + ShareId(url, LoomMarker).value)
    ensures !IsYouTube(url) && !Contains(url, LoomGuard) && Contains(url, ScreenStudioGuard) ==>
              (r.Err? <==> !Contains(url, ScreenStudioMarker)) &&
              (r.Err? ==> r.error == UndefinedShareSegment(ScreenStudioMarker)) &&
              (r.Ok? ==> r.value == ScreenStudioEmbedPrefix + ShareId(url, ScreenStudioMarker).value)
    ensures !IsYouTube(url) && !Contains(url, LoomGuard) && !Contains(url, ScreenStudioGuard) ==>
              r == Ok(url)
  {
    if IsYouTube(url) then
      Ok(YouTubeEmbedPrefix + YouTubeId(url))
    else if Contains(url, LoomGuard) then
      match ShareId(url, LoomMarker)
      case None => Err(UndefinedShareSegment(LoomMarker))
      case Some(id) => Ok(LoomEmbedPrefix + id)
    else if Contains(url, ScreenStudioGuard) then
      match ShareId(url, ScreenStudioMarker)
      case None => Err(UndefinedShareSegment(ScreenStudioMarker))
      case Some(id) => Ok(ScreenStudioEmbedPrefix + id)
    else
      Ok(url)
  }

  /**
   * A watch link `pre + "v=" + id + query`, whose first "v=" is the video
   * parameter and whose further parameters start with '&', embeds exactly
   * the video `id`.
   */
  lemma WatchLinkEmbed(pre: string, id: string, query: string)
    requires IndexOf(pre + "v=", "v=") == |pre|
    requires Contains(pre + "v=", "youtube.com/watch?v=")
    requires '&' !in id && !Contains(id, "v=")
    requires query == [] || query[0] == '&'
    ensures GetEmbedUrl(pre + "v=" + id + query) == Ok(YouTubeEmbedPrefix + id)
  {
    var url := pre + "v=" + (id + query);
    assert url == pre + "v=" + id + query;
    FirstOccurrenceExtends(pre, "v=", id + query);
    ContainsExtend(pre + "v=", id + query, "youtube.com/watch?v=");
    WatchMarkerMentions();
    ContainsTransitive(url, "youtube.com/watch?v=", "youtube.com");
    SplitOfJoin(pre, "v=", id + query);
    HeadBeforeDelimiter(id, query, "v=", '&');
  }

  /**
   * A short link `pre + "youtu.be/" + id` that is not also a watch link
   * embeds everything after "youtu.be/", query string included.
   */
  lemma ShortLinkEmbed(pre: string, id: string)
    requires IndexOf(pre + "youtu.be/", "youtu.be/") == |pre|
    requires !Contains(pre + "youtu.be/" + id, "youtube.com/watch?v=")
    requires !Contains(id, "youtu.be/")
    ensures GetEmbedUrl(pre + "youtu.be/" + id) == Ok(YouTubeEmbedPrefix + id)
  {
    var url := pre + "youtu.be/" + id;
    FirstOccurrenceExtends(pre, "youtu.be/", id);
    assert OccursAt(url, "youtu.be/", |pre|);
    WatchMarkerMentions();
    ContainsTransitive(url, "youtu.be/", "youtu.be");
    SplitOfJoin(pre, "youtu.be/", id);
  }

  /**
   * A Loom link `pre + "loom.com/share/" + id + query` that mentions no
   * YouTube host embeds exactly `id` when the query (if any) starts with '?'.
   */
  lemma LoomLinkEmbed(pre: string, id: string, query: string)
    requires !IsYouTube(pre + LoomMarker + id + query)
    requires IndexOf(pre + LoomMarker, LoomMarker) == |pre|
    requires '?' !in id && !Contains(id, LoomMarker)
    requires query == [] || query[0] == '?'
    ensures GetEmbedUrl(pre + LoomMarker + id + query) == Ok(LoomEmbedPrefix + id)
  {
    var url := pre + LoomMarker + id + query;
    assert '?' !in LoomMarker;
    ShareIdOfJoin(pre, LoomMarker, id, query);
    WatchMarkerMentions();
    assert Contains(url, LoomMarker);
    ContainsTransitive(url, LoomMarker, LoomGuard);
  }

  /**
   * A screen.studio link `pre + "screen.studio/share/" + id + query`
   * mentioning neither YouTube nor Loom embeds exactly `id`.
   */
  lemma ScreenStudioLinkEmbed(pre: string, id: string, query: string)
    requires !IsYouTube(pre + ScreenStudioMarker + id + query)
    requires !Contains(pre + ScreenStudioMarker + id + query, LoomGuard)
    requires IndexOf(pre + ScreenStudioMarker, ScreenStudioMarker) == |pre|
    requires '?' !in id && !Contains(id, ScreenStudioMarker)
    requires query == [] || query[0] == '?'
    ensures GetEmbedUrl(pre + ScreenStudioMarker + id + query) == Ok(ScreenStudioEmbedPrefix + id)
  {
    var url := pre + ScreenStudioMarker + id + query;
    assert '?' !in ScreenStudioMarker;
    ShareIdOfJoin(pre, ScreenStudioMarker, id, query);
    WatchMarkerMentions();
    assert Contains(url, ScreenStudioMarker);
    ContainsTransitive(url, ScreenStudioMarker, ScreenStudioGuard);
  }

  /** The first "v=" of the first-placed project's demo link is its video parameter. */
  lemma WatchExampleFirstParameter(pre: string)
    requires pre == "https://www.youtube.com/watch?"
    ensures IndexOf(pre + "v=", "v=") == |pre|
  {
    assert 'v' !in pre;
    FirstOccurrenceAfter(pre, "v=", []);
    AppendEmpty(pre + "v=");
  }

  /** The first-placed project's demo link is a watch link. */
  lemma WatchExampleIsWatchLink(pre: string)
    requires pre == "https://www.youtube.com/watch?"
    ensures Contains(pre + "v=", "youtube.com/watch?v=")
  {
    assert OccursAt(pre + "v=", "youtube.com/watch?v=", 12);
  }

  /** The demo video link of the first-placed project becomes its embed link. */
  lemma WatchLinkExample(pre: string, id: string)
    requires pre == "https://www.youtube.com/watch?" && id == "wqrSNCqqUus"
    ensures GetEmbedUrl(pre + "v=" + id) == Ok(YouTubeEmbedPrefix + id)
  {
    WatchExampleFirstParameter(pre);
    WatchExampleIsWatchLink(pre);
    MissingCharNotContained(id, "v=", '=');
    WatchLinkEmbed(pre, id, []);
    AppendEmpty(pre + "v=" + id);
  }

  /** The second-placed project's demo link is a short link and not a watch link. */
  lemma ShortExampleShape(pre: string, id: string)
    requires pre == "https://" && id == "bYqF2QPHnf4"
    ensures IndexOf(pre + "youtu.be/", "youtu.be/") == |pre|
    ensures !Contains(pre + "youtu.be/" + id, "youtube.com/watch?v=")
  {
    FirstOccurrenceAfter(pre, "youtu.be/", []);
    AppendEmpty(pre + "youtu.be/");
    assert '?' !in pre + "youtu.be/" + id;
    MissingCharNotContained(pre + "youtu.be/" + id, "youtube.com/watch?v=", '?');
  }

  /** A short link keeps its whole tail as the id. */
  lemma ShortLinkExample(pre: string, id: string)
    requires pre == "https://" && id == "bYqF2QPHnf4"
    ensures GetEmbedUrl(pre + "youtu.be/" + id) == Ok(YouTubeEmbedPrefix + id)
  {
    ShortExampleShape(pre, id);
    MissingCharNotContained(id, "youtu.be/", '/');
    ShortLinkEmbed(pre, id);
  }

  /** A bare Loom share link lacks the marker with the trailing '/'. */
  lemma BareLoomLinkLacksMarker(url: string)
    requires url == "https://www.loom.com/share"
    ensures !Contains(url, LoomMarker)
  {
    forall j | 0 <= j <= |url| - |LoomMarker| ensures !OccursAt(url, LoomMarker, j) {
      if j == 6 {
        assert url[j..j + |LoomMarker|][0] == '/';
      } else {
        assert url[j..j + |LoomMarker|][14] == url[j + 14] != '/';
      }
    }
  }

  /** A bare Loom share link passes the Loom test and mentions no YouTube host. */
  lemma BareLoomLinkIsLoom(url: string)
    requires url == "https://www.loom.com/share"
    ensures !IsYouTube(url) && Contains(url, LoomGuard)
  {
    MissingCharNotContained(url, "youtube.com", 'y');
    MissingCharNotContained(url, "youtu.be", 'y');
    assert OccursAt(url, LoomGuard, 12);
  }

  /**
   * A bare Loom share link without the trailing '/' passes the Loom test
   * but has no segment after "loom.com/share/": getEmbedUrl throws.
   */
  lemma LoomLinkWithoutSlashThrows(url: string)
    requires url == "https://www.loom.com/share"
    ensures GetEmbedUrl(url) == Err(UndefinedShareSegment(LoomMarker))
  {
    BareLoomLinkIsLoom(url);
    BareLoomLinkLacksMarker(url);
  }

  /** A Google Drive link mentions no provider and is returned unchanged. */
  lemma DriveLinkUnchanged(url: string)
    requires Contains(url, "drive.google.com")
    requires !IsYouTube(url) && !Contains(url, LoomGuard) && !Contains(url, ScreenStudioGuard)
    ensures GetEmbedUrl(url) == Ok(url)
  {
  }
}
