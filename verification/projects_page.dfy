/**
 * The pure logic of the projects listing page: tag clean-up, the card
 * image lookup, the page-local upvote bookkeeping, and the order in which
 * projects are listed.
 *
 * `toLowerCase` and `encodeURIComponent` enter as function parameters;
 * whitespace runs are the ones `Slug.CollapseWhitespace` replaces.
 */
module ProjectsPage {
  import opened Wrappers
  import Slug
  import Strings

  // ---------------------------------------------------------------- tags

  const DroppedTag: string := "IA"
  const RequiredTag: string := "Hackathon"

  /** The tags other than `t`, in their original order. */
  function Without(tags: seq<string>, t: string): (r: seq<string>)
    ensures forall x :: x in r <==> x in tags && x != t
    ensures forall x :: x != t ==> multiset(r)[x] == multiset(tags)[x]
    ensures multiset(r)[t] == 0
    decreases |tags|
  {
    if tags == [] then []
    else
      assert tags == [tags[0]] + tags[1..];
      (if tags[0] == t then [] else [tags[0]]) + Without(tags[1..], t)
  }

  /**
   * `filterTags`: drops every "IA" tag and appends "Hackathon" when it is
   * not already there; every other tag keeps its place.
   */
  function FilterTags(tags: seq<string>): (r: seq<string>)
    ensures DroppedTag !in r && RequiredTag in r
    ensures forall x :: x in r <==> (x in tags && x != DroppedTag) || x == RequiredTag
    ensures var kept := Without(tags, DroppedTag); |kept| <= |r| && r[..|kept|] == kept
  {
    var kept := Without(tags, DroppedTag);
    assert |DroppedTag| != |RequiredTag|;
    if RequiredTag in kept then kept
    else
      var r := kept + [RequiredTag];
      assert r[..|kept|] == kept;
      r
  }

  /** No tag is duplicated or lost: each keeps its multiplicity, "Hackathon" at least once. */
  lemma FilterTagsCounts(tags: seq<string>)
    ensures var r := FilterTags(tags);
            && (forall x :: x != DroppedTag && x != RequiredTag ==> multiset(r)[x] == multiset(tags)[x])
            && multiset(r)[RequiredTag] == if RequiredTag in tags then multiset(tags)[RequiredTag] else 1
  {

  }

  lemma {:induction false} WithoutAbsent(tags: seq<string>, t: string)
    requires t !in tags
    ensures Without(tags, t) == tags
    decreases |tags|
  {
    if tags != [] {
      WithoutAbsent(tags[1..], t);
      assert tags == [tags[0]] + tags[1..];
    }
  }

  /**
   * Dropping a tag works piece by piece; with the membership clause on
   * one-element lists this fixes the order of the kept tags.
   */
  lemma {:induction false} WithoutAppend(a: seq<string>, b: seq<string>, t: string)
    ensures Without(a + b, t) == Without(a, t) + Without(b, t)
    decreases |a|
  {
    if a == [] {
      assert a + b == b;
    } else {
      WithoutOfCons(a, b, t);
      WithoutAppend(a[1..], b, t);
      Strings.AppendAssociates(if a[0] == t then [] else [a[0]], Without(a[1..], t), Without(b, t));
    }
  }

  /** One step of `Without` on a list that starts with `a`. */
  lemma WithoutOfCons(a: seq<string>, b: seq<string>, t: string)
    requires a != []
    ensures Without(a + b, t) == (if a[0] == t then [] else [a[0]]) + Without(a[1..] + b, t)
  {
    assert (a + b)[0] == a[0] && (a + b)[1..] == a[1..] + b;
  }

  /** The tags "IA", "x", "Hackathon" clean up to "x", "Hackathon". */
  lemma FilterTagsExample()
    ensures FilterTags(["IA", "x", "Hackathon"]) == ["x", "Hackathon"]
  {
    var rest: seq<string> := ["x", "Hackathon"];
    WithoutLeadingDropped(rest);
    assert RequiredTag == rest[1];
  }

  /** A leading "IA" goes; the rest, which holds no "IA", stays as it is. */
  lemma WithoutLeadingDropped(rest: seq<string>)
    requires DroppedTag !in rest
    ensures Without([DroppedTag] + rest, DroppedTag) == rest
  {
    assert [DroppedTag][1..] == [];
    WithoutAppend([DroppedTag], rest, DroppedTag);
    WithoutAbsent(rest, DroppedTag);
  }

  /** Cleaning the tags twice is cleaning them once. */
  lemma FilterTagsIdempotent(tags: seq<string>)
    ensures FilterTags(FilterTags(tags)) == FilterTags(tags)
  {
    WithoutAbsent(FilterTags(tags), DroppedTag);
  }

  /** Tags already clean come back unchanged. */
  lemma FilterTagsKeepsCleanTags(tags: seq<string>)
    requires DroppedTag !in tags && RequiredTag in tags
    ensures FilterTags(tags) == tags
  {
    WithoutAbsent(tags, DroppedTag);
  }

  // -------------------------------------------------------------- images

  /** The card images that ship with the site, keyed by kebab-cased name. */
  const ImageTable: map<string, string> := map[
    "majorana" := "/projects/majorana.png",
    "burro-speach" := "/projects/burro-speach.png",
    "u0" := "/projects/u0.png",
    "wololo" := "/projects/wololo.png",
    "tote-bag" := "/projects/tote-bag.png",
    "chronocode" := "/projects/chronocode.png",
    "que-com\U{00ED}" := "/projects/que-comi.png",
    "sirvana-eats" := "/projects/sirvana-eats.png",
    "shipa-docs" := "/projects/shipa-docs.png",
    "expense-radar" := "/projects/expense-radar.png",
    "mesh-community" := "/projects/mesh-community.png",
    "fresh-decks" := "/projects/fresh-decks.png",
    "ardillapp" := "/projects/ardillap.png",
    "docs-ai" := "/projects/docs-ai.png",
    "gaid" := "/projects/gaid.png",
    "coddy" := "/projects/coddy.png",
    "introfy" := "/projects/introfy.png"
  ]

  const ImageDirectory: string := "/projects/"
  const PlaceholderPrefix: string := "https://ui-avatars.com/api/?name="
  const PlaceholderSuffix: string := "&background=random&color=fff&size=300&bold=true&width=400&height=200"

  /** The lookup key: lower-cased, each whitespace run turned into one '-'. */
  function Kebab(name: string, toLower: string -> string): string {
    Slug.CollapseWhitespace(toLower(name))
  }

  /**
   * `getProjectImage`: the shipped image for the kebab-cased name, or a
   * generated avatar URL carrying the encoded (original) name.
   */
  function GetProjectImage(name: string, toLower: string -> string, encode: string -> string): (r: string)
    ensures Kebab(name, toLower) in ImageTable ==> r == ImageTable[Kebab(name, toLower)]
    ensures Kebab(name, toLower) !in ImageTable ==> r == PlaceholderPrefix + encode(name) + PlaceholderSuffix
  {
    var key := Kebab(name, toLower);
    if key in ImageTable then ImageTable[key] else PlaceholderPrefix + encode(name) + PlaceholderSuffix
  }

  /** Every shipped image is a file under /projects/. */
  lemma ImagesAreLocal()
    ensures forall k :: k in ImageTable ==> ImageDirectory < ImageTable[k]
  {
  }

  /**
   * Every card gets an image: a shipped file under /projects/ or the
   * avatar service's URL, never the empty string the `||` would fall past.
   */
  lemma ImageIsLocalOrPlaceholder(name: string, toLower: string -> string, encode: string -> string)
    ensures var r := GetProjectImage(name, toLower, encode);
            ImageDirectory < r || PlaceholderPrefix < r
  {
    ImagesAreLocal();
    var r := GetProjectImage(name, toLower, encode);
    if Kebab(name, toLower) !in ImageTable {
      assert r == PlaceholderPrefix + (encode(name) + PlaceholderSuffix);
    }
  }

  /** The accented key is in the table. */
  lemma QueComiEntry(key: string)
    requires key == "que-com\U{00ED}"
    ensures key in ImageTable && ImageTable[key] == "/projects/que-comi.png"
  {
  }

  /** The two words of "que com\u00ED" hold no whitespace and the space between them is one. */
  lemma QueComiWords(a: string, w: string, b: string)
    requires a == "que" && w == " " && b == "com\U{00ED}"
    ensures forall i :: 0 <= i < |a| ==> !Slug.IsJsWhitespace(a[i])
    ensures forall i :: 0 <= i < |b| ==> !Slug.IsJsWhitespace(b[i])
    ensures forall i :: 0 <= i < |w| ==> Slug.IsJsWhitespace(w[i])
  {
  }

  /** Lower-casing and collapsing the space of "Que Com\u00ED" gives the accented key. */
  lemma QueComiKebab(name: string, lower: string, toLower: string -> string, a: string, w: string, b: string)
    requires toLower(name) == lower && lower == a + w + b
    requires a == "que" && w == " " && b == "com\U{00ED}"
    ensures Kebab(name, toLower) == a + "-" + b
  {
    QueComiWords(a, w, b);
    Slug.CollapseRun(a, w, b);
    Slug.CollapseWithoutWhitespace(a);
    Slug.CollapseWithoutWhitespace(b);
  }

  /**
   * The kebab key keeps accents (unlike the slug), so "Que Com\u00ED" finds the
   * accented table key and its image file `que-comi.png`.
   */
  lemma QueComiImage(name: string, lower: string, toLower: string -> string, encode: string -> string)
    requires name == "Que Com\U{00ED}" && lower == "que com\U{00ED}" && toLower(name) == lower
    ensures GetProjectImage(name, toLower, encode) == "/projects/que-comi.png"
  {
    var a, w, b := "que", " ", "com\U{00ED}";
    assert lower == a + w + b;
    QueComiKebab(name, lower, toLower, a, w, b);
    assert a + "-" + b == "que-com\U{00ED}";
    QueComiEntry(Kebab(name, toLower));
  }

  // ------------------------------------------------------ page upvotes

  /** A project's count in the page's map; `get(p) || 0` reads a missing key as 0. */
  function CountOf(counts: map<string, int>, p: string): int {
    if p in counts then counts[p] else 0
  }

  /** The page's own upvote bookkeeping: a count per project and the projects this visitor upvoted. */
  datatype PageUpvotes = PageUpvotes(counts: map<string, int>, voted: set<string>)

  /**
   * The page's `handleUpvote`: flips whether `p` is upvoted and moves its
   * count one step the same way, with no lower bound. No other project
   * changes.
   */
  function PageToggle(st: PageUpvotes, p: string): (r: PageUpvotes)
    ensures p in r.voted <==> p !in st.voted
    ensures CountOf(r.counts, p) == CountOf(st.counts, p) + (if p in st.voted then -1 else 1)
    ensures p in r.counts
    ensures forall q :: q != p ==> (q in r.voted <==> q in st.voted)
    ensures forall q :: q != p ==> (q in r.counts <==> q in st.counts) && CountOf(r.counts, q) == CountOf(st.counts, q)
  {
    if p in st.voted then PageUpvotes(st.counts[p := CountOf(st.counts, p) - 1], st.voted - {p})
    else PageUpvotes(st.counts[p := CountOf(st.counts, p) + 1], st.voted + {p})
  }

  /** Clicking the same card twice restores the page's state, provided the project already had a count. */
  lemma PageToggleTwice(st: PageUpvotes, p: string)
    requires p in st.counts
    ensures PageToggle(PageToggle(st, p), p) == st
  {

  }

  /** The clicks applied one after another. */
  function PageRun(st: PageUpvotes, clicks: seq<string>): PageUpvotes
    decreases |clicks|
  {
    if clicks == [] then st else PageRun(PageToggle(st, clicks[0]), clicks[1..])
  }

  /** The count a project would show had this visitor never upvoted it. */
  function Baseline(st: PageUpvotes, q: string): int {
    CountOf(st.counts, q) - (if q in st.voted then 1 else 0)
  }

  /** Clicks never move the baseline: a count differs from it exactly by the visitor's own upvote. */
  lemma {:induction false} ClicksKeepBaseline(st: PageUpvotes, clicks: seq<string>, q: string)
    ensures Baseline(PageRun(st, clicks), q) == Baseline(st, q)
    decreases |clicks|
  {
    if clicks != [] {
      ClicksKeepBaseline(PageToggle(st, clicks[0]), clicks[1..], q);
    }
  }

  /**
   * Although the page does not clamp, a count that starts non-negative with
   * nothing upvoted never goes below zero, whatever is clicked.
   */
  lemma PageCountsNeverNegative(counts: map<string, int>, clicks: seq<string>, q: string)
    requires forall p :: p in counts ==> counts[p] >= 0
    ensures CountOf(PageRun(PageUpvotes(counts, {}), clicks).counts, q) >= 0
  {
    ClicksKeepBaseline(PageUpvotes(counts, {}), clicks, q);
  }

  // ------------------------------------------------------------ order

  /** A listed project: its name and its podium position (`None` for an empty one). */
  datatype Project = Project(name: string, position: Option<int>)

  /**
   * The listing comparator: podium projects first, by position; then the
   * others by descending count. Negative means `a` comes first.
   */
  function Compare(a: Project, b: Project, counts: map<string, int>): (r: int)
    ensures a.position.Some? && b.position.None? ==> r < 0
    ensures a.position.None? && b.position.Some? ==> r > 0
    ensures a.position.Some? && b.position.Some? ==>
              (r < 0 <==> a.position.value < b.position.value) && (r == 0 <==> a.position == b.position)
    ensures a.position.None? && b.position.None? ==>
              (r < 0 <==> CountOf(counts, a.name) > CountOf(counts, b.name))
              && (r == 0 <==> CountOf(counts, a.name) == CountOf(counts, b.name))
  {
    if a.position.Some? && b.position.Some? then a.position.value - b.position.value
    else if a.position.Some? then -1
    else if b.position.Some? then 1
    else CountOf(counts, b.name) - CountOf(counts, a.name)
  }

  /** The comparator is antisymmetric: swapping the arguments negates it. */
  lemma CompareAntisymmetric(a: Project, b: Project, counts: map<string, int>)
    ensures Compare(a, b, counts) == -Compare(b, a, counts)
  {
  }

  /** The comparator is transitive, so it orders the projects consistently. */
  lemma CompareTransitive(a: Project, b: Project, c: Project, counts: map<string, int>)
    requires Compare(a, b, counts) <= 0 && Compare(b, c, counts) <= 0
    ensures Compare(a, c, counts) <= 0
  {
  }

  predicate Sorted(r: seq<Project>, counts: map<string, int>) {
    forall i, j :: 0 <= i < j < |r| ==> Compare(r[i], r[j], counts) <= 0
  }

  /** The first of a sorted listing comes no later than any project in it. */
  lemma HeadComesFirst(s: seq<Project>, counts: map<string, int>)
    requires Sorted(s, counts) && s != []
    ensures forall y :: y in s ==> Compare(s[0], y, counts) <= 0
  {

  }

  /** A project that comes no later than any of a sorted listing can lead it. */
  lemma PrependSorted(x: Project, s: seq<Project>, counts: map<string, int>)
    requires Sorted(s, counts)
    requires forall y :: y in s ==> Compare(x, y, counts) <= 0
    ensures Sorted([x] + s, counts)
  {

  }

  /** Inserts `x` before the first element it does not come after. */
  function InsertSorted(x: Project, s: seq<Project>, counts: map<string, int>): (r: seq<Project>)
    requires Sorted(s, counts)
    ensures multiset(r) == multiset(s) + multiset{x}
    ensures Sorted(r, counts)
    decreases |s|
  {
    if s == [] then [x]
    else
      assert s == [s[0]] + s[1..];
      if Compare(x, s[0], counts) <= 0 then
        LeadsBeforeHead(x, s, counts);
        [x] + s
      else
        var rest := InsertSorted(x, s[1..], counts);
        HeadBeforeInsert(s[0], s[1..], x, rest, counts);
        [s[0]] + rest
  }

  /** A project that comes no later than the head of a sorted listing can lead it. */
  lemma LeadsBeforeHead(x: Project, s: seq<Project>, counts: map<string, int>)
    requires Sorted(s, counts) && s != [] && Compare(x, s[0], counts) <= 0
    ensures Sorted([x] + s, counts)
  {
    HeadComesFirst(s, counts);
    forall y | y in s ensures Compare(x, y, counts) <= 0 {
      CompareTransitive(x, s[0], y, counts);
    }
    PrependSorted(x, s, counts);
  }

  /**
   * The head `h` of a sorted listing still leads once a project `x` that
   * comes after it is inserted into the tail.
   */
  lemma HeadBeforeInsert(h: Project, tail: seq<Project>, x: Project, rest: seq<Project>, counts: map<string, int>)
    requires Sorted([h] + tail, counts) && Compare(x, h, counts) > 0
    requires Sorted(rest, counts) && multiset(rest) == multiset(tail) + multiset{x}
    ensures Sorted([h] + rest, counts)
  {
    HeadComesFirst([h] + tail, counts);
    CompareAntisymmetric(x, h, counts);
    forall y | y in rest ensures Compare(h, y, counts) <= 0 {
      assert y in multiset(rest);
      if y != x {
        assert y in [h] + tail;
      }
    }
    PrependSorted(h, rest, counts);
  }

  /** `sortedProjects`: the projects in listing order. */
  function SortProjects(ps: seq<Project>, counts: map<string, int>): (r: seq<Project>)
    ensures multiset(r) == multiset(ps)
    ensures Sorted(r, counts)
    decreases |ps|
  {
    if ps == [] then []
    else
      assert ps == [ps[0]] + ps[1..];
      InsertSorted(ps[0], SortProjects(ps[1..], counts), counts)
  }

  /** The projects of `s` that tie with `z` under the comparator, in their order in `s`. */
  function Ties(s: seq<Project>, z: Project, counts: map<string, int>): seq<Project>
    decreases |s|
  {
    if s == [] then []
    else (if Compare(s[0], z, counts) == 0 then [s[0]] else []) + Ties(s[1..], z, counts)
  }

  lemma TiesCons(a: Project, t: seq<Project>, z: Project, counts: map<string, int>)
    ensures Ties([a] + t, z, counts) == (if Compare(a, z, counts) == 0 then [a] else []) + Ties(t, z, counts)
  {
    assert ([a] + t)[1..] == t;
  }

  /** Two projects that tie with a third tie with each other. */
  lemma TieTransitive(a: Project, b: Project, z: Project, counts: map<string, int>)
    requires Compare(a, z, counts) == 0 && Compare(b, z, counts) == 0
    ensures Compare(a, b, counts) == 0
  {
  }

  /** Inserting `x` puts it ahead of every project it ties with and keeps their order. */
  lemma {:induction false} InsertKeepsTies(x: Project, s: seq<Project>, z: Project, counts: map<string, int>)
    requires Sorted(s, counts)
    ensures Ties(InsertSorted(x, s, counts), z, counts)
         == (if Compare(x, z, counts) == 0 then [x] else []) + Ties(s, z, counts)
    decreases |s|
  {
    var tx := if Compare(x, z, counts) == 0 then [x] else [];
    if s == [] {
      assert InsertSorted(x, s, counts) == [x];
      TiesCons(x, [], z, counts);
    } else if Compare(x, s[0], counts) <= 0 {
      InsertFront(x, s, counts);
      TiesCons(x, s, z, counts);
    } else {
      var t0 := if Compare(s[0], z, counts) == 0 then [s[0]] else [];
      var rest := InsertSorted(x, s[1..], counts);
      InsertBehind(x, s, counts);
      TiesCons(s[0], rest, z, counts);
      InsertKeepsTies(x, s[1..], z, counts);
      if tx != [] && t0 != [] {
        TieTransitive(x, s[0], z, counts);
      }
      SwapEmpty(t0, tx, Ties(s[1..], z, counts));
    }
  }

  /** Two sequences of which one is empty can be prepended in either order. */
  lemma SwapEmpty<T>(a: seq<T>, b: seq<T>, c: seq<T>)
    requires a == [] || b == []
    ensures a + (b + c) == b + (a + c)
  {
    if a == [] {
      assert [] + (b + c) == b + c;
      assert [] + c == c;
    } else {
      assert [] + (a + c) == a + c;
      assert [] + c == c;
    }
  }

  /** A project that comes no later than the head of a sorted listing is inserted in front. */
  lemma InsertFront(x: Project, s: seq<Project>, counts: map<string, int>)
    requires Sorted(s, counts) && s != [] && Compare(x, s[0], counts) <= 0
    ensures InsertSorted(x, s, counts) == [x] + s
  {
  }

  /** A project that comes after the head of a sorted listing is inserted into its tail. */
  lemma InsertBehind(x: Project, s: seq<Project>, counts: map<string, int>)
    requires Sorted(s, counts) && s != [] && Compare(x, s[0], counts) > 0
    ensures InsertSorted(x, s, counts) == [s[0]] + InsertSorted(x, s[1..], counts)
  {
  }

  /**
   * The sort is stable, as ECMAScript 2019 requires of `Array.prototype.sort`:
   * projects that tie under the comparator keep their relative order.
   */
  lemma {:induction false} SortIsStable(ps: seq<Project>, z: Project, counts: map<string, int>)
    ensures Ties(SortProjects(ps, counts), z, counts) == Ties(ps, z, counts)
    decreases |ps|
  {
    if ps != [] {
      assert ps == [ps[0]] + ps[1..];
      SortIsStable(ps[1..], z, counts);
      InsertKeepsTies(ps[0], SortProjects(ps[1..], counts), z, counts);
      TiesCons(ps[0], ps[1..], z, counts);
    }
  }

  /**
   * What listing order means: every podium project precedes every other,
   * podium projects ascend by position, the rest descend by count.
   */
  lemma ListingOrder(r: seq<Project>, counts: map<string, int>, i: int, j: int)
    requires Sorted(r, counts) && 0 <= i < j < |r|
    ensures r[j].position.Some? ==> r[i].position.Some? && r[i].position.value <= r[j].position.value
    ensures r[i].position.None? ==> r[j].position.None? && CountOf(counts, r[i].name) >= CountOf(counts, r[j].name)
  {
  }
}
