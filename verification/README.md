# ship-ba upvotes and project listing, modelled in Dafny

This project models the core of the ship-ba hackathon showcase site. Visitors
browse the projects of the batch, watch their demo videos and upvote them
anonymously. The model covers:

- **The upvote ledger** (`ledger.dfy`, `identity.dfy`, `actions.dfy`,
  `route.dfy`).
  - The `upvotes` table is a sequence of `(id, projectName, userId)` rows,
    with the `select`/`delete`/`insert` calls the site issues.
  - The read-then-write toggle appears twice, once as a server action and
    once behind the JSON endpoint's POST.
  - The per-project count and "have I upvoted it" query is the endpoint's
    GET.
  - The whole-table aggregation returns per-project counts and the caller's
    upvoted projects.
  - The reset deletes every row.
  - The visitor's anonymous identity is the `userId` cookie, or a freshly
    generated id that is written back as the cookie.
- **Request validation** (`schema.dfy`).
  - The upvote and comment request schemas, with lengths counted in UTF-16
    code units as JavaScript counts them.
  - The row shapes of both tables.
- **The upvote button** (`upvote_button.dfy`): its local count and flag,
  which move only once the server action has replied, and its loading
  flag, which makes it ignore clicks while a request is in flight.
- **The listing page** (`projects_page.dfy`):
  - tag clean-up;
  - the card-image lookup;
  - the page's own upvote map and set;
  - the order projects are listed in: podium first by position, then the
    rest by count.
- **The video and image modals** (`modals.dfy`) and the conversion of demo
  links into embeddable player URLs (`embed.dfy`).
- **The project slug** (`slug.dfy`).

`strings.dfy` holds the JavaScript string operations the code relies on:
`includes`, `indexOf` and `split(..)[0]` / `split(..)[1]`.

The toggles, the count query and the aggregation take these inputs:

- the table as it stands;
- the request's cookie;
- the ids a UUID generator would produce;
- a flag `storageUp` that says whether the storage calls succeed.

The reset takes only the table and `storageUp`: it reads no cookie.

Every action writes at most once, as its last storage call, so a failure
leaves the table unchanged.

Three behaviours of the code are easy to miss:

- **The aggregation rethrows.** A storage failure during aggregation is
  rethrown as "Failed to get upvote counts" (app/projects/actions.ts:51-54),
  and `Actions.GetUpvotesForAllProjects` returns that error.
- **Removal deletes every row of the pair.** The delete's where clause
  matches every row of the (project, user) pair
  (app/projects/actions.ts:72-77). If a concurrent double click ever left
  duplicates, one toggle removes all of them
  (`Ledger.ToggleRemovesDuplicates`).
- **The server action does not validate.** Only the endpoint's schema
  requires a non-empty project name (database/schema.ts:37); the server
  action records an upvote for `""` (app/projects/actions.ts:58-95;
  `Actions.ActionAcceptsEmptyName` and `Route.PostRejectsEmptyName`).

## Model

| member | source | states |
|---|---|---|
| Strings.IndexOf | app/projects/components/ProjectModals.tsx:16 | `indexOf`: -1 exactly when the needle does not occur; otherwise an occurrence with none before it |
| Strings.SplitHead | app/projects/components/ProjectModals.tsx:28 | `split(sep)[0]`: a prefix without `sep` whose length is the index of the first `sep`, the whole text when there is none |
| Strings.SplitSecond | app/projects/components/ProjectModals.tsx:15 | `split(sep)[1]`: undefined exactly when `sep` does not occur; otherwise the text right after the first `sep`, up to the next `sep` or the end |
| Strings.HeadThenChar | app/projects/page.tsx:33-37 | cutting the head before `sep` at its first `c` gives a prefix holding neither, which ends at the end, at a `c` or at a `sep` |
| Embed.WatchId | app/projects/page.tsx:33-37 | the watch-link id is the text after the first "v=", cut at the first '&' or the next "v=" |
| Embed.WatchIdUnique | app/projects/page.tsx:33-37 | the watch-id property pins the id down: no two texts meet it for one link |
| Embed.ShortId | app/projects/page.tsx:38-39 | the short-link id is the text after the first "youtu.be/", up to the next "youtu.be/" or the end |
| Embed.ShortIdUnique | app/projects/page.tsx:38-39 | the short-link property pins the id down: no two texts meet it for one link, since "youtu.be/" cannot overlap itself |
| Embed.YouTubeId | app/projects/page.tsx:31-40 | a link with "youtube.com/watch?v=" gets its watch id, wherever its "v=" parameter sits; otherwise a link with "youtu.be/" gets its short id; any other YouTube link gets the empty id |
| Embed.ShareId | app/projects/page.tsx:46 | the Loom/screen.studio id is missing exactly when the marker with its trailing '/' is absent; otherwise it is the text after the first marker up to the first '?', the next marker or the end, and holds neither |
| Embed.GetEmbedUrl | app/projects/page.tsx:27-59 | YouTube wins over Loom over screen.studio; the share branches throw exactly when the guard matches but the '/'-terminated marker is absent; any other link comes back unchanged |
| Embed.ShareIdUnique | app/projects/page.tsx:46 | for the Loom and screen.studio markers the id promise pins the id down: no two texts meet it for one link, since neither marker overlaps itself or holds a '?' |
| Embed.ShareIdOfJoin | app/projects/page.tsx:46 | a share link `pre + marker + id + ?query` yields exactly `id` |
| Embed.WatchLinkEmbed | app/projects/page.tsx:32-37 | a watch link embeds exactly its video id, whatever '&' parameters follow |
| Embed.ShortLinkEmbed | app/projects/page.tsx:38-39 | a short link embeds everything after "youtu.be/" |
| Embed.LoomLinkEmbed | app/projects/page.tsx:45-47 | a Loom share link embeds exactly its id, dropping the query |
| Embed.ScreenStudioLinkEmbed | app/projects/page.tsx:52-54 | a screen.studio share link embeds exactly its id, dropping the query |
| Embed.WatchLinkExample | lib/projects.ts:23 | the first-placed project's watch link becomes `https://www.youtube.com/embed/wqrSNCqqUus` |
| Embed.ShortLinkExample | lib/projects.ts:36 | the second-placed project's short link becomes `https://www.youtube.com/embed/bYqF2QPHnf4` |
| Embed.LoomLinkWithoutSlashThrows | app/projects/page.tsx:45-46 | `https://www.loom.com/share` passes the Loom test, but the split finds no segment and the function throws |
| Embed.DriveLinkUnchanged | app/projects/page.tsx:57-58 | a Google Drive link is returned as it is |
| Slug.StripCombiningMarks | lib/get-projects-slug.ts:5 | no combining mark U+0300 to U+036F is left, and every remaining character was in the input |
| Slug.CollapseWhitespace | lib/get-projects-slug.ts:6 | no whitespace is left, and every character is '-' or came from the input |
| Slug.CollapseMatchesStreaming | lib/get-projects-slug.ts:6 | the run-based replacement equals the character-by-character reference definition |
| Slug.CollapseRun | lib/get-projects-slug.ts:6 | each maximal whitespace run becomes exactly one '-' |
| Slug.CollapseWithoutWhitespace | lib/get-projects-slug.ts:6 | text without whitespace passes through unchanged |
| Slug.StripAppend | lib/get-projects-slug.ts:5 | removing the marks from a concatenation removes them from each piece |
| Slug.StripWithoutMarks | lib/get-projects-slug.ts:5 | text without combining marks passes through unchanged |
| Slug.GetProjectSlug | lib/get-projects-slug.ts:1-7 | a slug holds neither whitespace nor combining marks |
| Slug.SlugKeepsLetters | lib/get-projects-slug.ts:1-7 | the slug keeps every letter (a character other than whitespace, a combining mark or '-') of the lower-cased, decomposed name, and no other letter, in order |
| Slug.SlugOfPlainName | lib/get-projects-slug.ts:1-7 | a decomposed lower-case name with neither whitespace nor combining marks is its own slug, '-' included |
| Slug.SlugJoinsWords | lib/get-projects-slug.ts:1-7 | two plain words around a whitespace run become the words joined by one '-' |
| Slug.SlugOfEmpty | lib/get-projects-slug.ts:1-7 | the empty name has the empty slug |
| Schema.Utf16Length | database/schema.ts:32 | the length zod checks is between the number of characters and twice that; one character counts 2 outside the Basic Multilingual Plane and 1 inside it |
| Schema.Utf16LengthAppend | database/schema.ts:32 | the length of a concatenation is the sum of the lengths, so with the one-character clause the length of any text is fixed |
| Schema.StringFieldIssues | database/schema.ts:32-33 | a field passes exactly when it is present, is a string and satisfies its length bounds |
| Schema.ParseUpvoteRequest | database/schema.ts:36-38 | a body is accepted exactly when it is an object with a non-empty string `projectName`, which is returned; a rejection carries at least one issue |
| Schema.ParseCommentRequest | database/schema.ts:31-34 | a comment is accepted exactly when its content is 1 to 500 code units and its user name is non-empty |
| Schema.CommentLengthBoundary | database/schema.ts:32 | with a name present, acceptance depends only on the content's code-unit length being in 1..500 |
| Schema.CommentOfAstralText | database/schema.ts:32 | 251 characters outside the Basic Multilingual Plane are too long a comment |
| Schema.CommentOfMixedText | database/schema.ts:32 | 498 characters inside the Basic Multilingual Plane plus one outside it are exactly 500 code units, an accepted comment |
| Schema.UpvoteRequiresProjectName | database/schema.ts:37 | a body that is not an object, or whose `projectName` is missing, not a string or empty, is rejected |
| Schema.Utf16NonEmpty | database/schema.ts:32 | the minimum of one code unit means "non-empty" |
| Ledger.Filter | app/projects/actions.ts:63-77 | a select keeps exactly the rows matching the where clause; a delete keeps exactly the others |
| Ledger.SelectDeleteSplit | app/projects/actions.ts:63-77 | select and delete by one clause split the table: each row lands on exactly one side |
| Ledger.DeleteTwice | app/projects/actions.ts:72-77 | deleting by a clause twice is deleting once |
| Ledger.SelectAfterDelete | app/projects/actions.ts:72-77 | a delete leaves every row it does not match where it was |
| Ledger.Insert | database/schema.ts:9 | an insert fails exactly when the primary key is taken; otherwise the table gains exactly that row and ids stay unique |
| Ledger.FilterPreservesUniqueIds | database/schema.ts:9 | deleting rows keeps ids unique |
| Ledger.UpvotedMeansRow | app/projects/actions.ts:63-70 | "upvoted" means some row carries the (project, user) pair |
| Ledger.Toggle | app/projects/actions.ts:62-95 | it fails exactly when the pair is absent and the fresh id is taken; it reports Removed exactly when the pair was present; it flips whether the pair is present |
| Ledger.ToggleRows | app/projects/actions.ts:70-95 | an addition inserts exactly the one new row; a removal takes away exactly the pair's rows and leaves none |
| Ledger.ToggleOnlyTouchesPair | app/projects/actions.ts:62-95 | rows of every other (project, user) pair are untouched |
| Ledger.ToggleKeepsUniqueIds | app/projects/actions.ts:85-89 | a toggle keeps the primary key unique |
| Ledger.ToggleCounts | app/projects/actions.ts:62-95 | an addition raises its project's count by one; a removal lowers it by the pair's row count; other projects keep theirs |
| Ledger.ToggleTwiceRestores | app/projects/actions.ts:62-95 | adding then removing an upvote gives back the table exactly |
| Ledger.TogglePreservesAtMostOne | app/projects/actions.ts:62-95 | toggles one at a time keep at most one row per (project, user) pair |
| Ledger.ToggleMovesCountByOne | app/projects/actions.ts:62-95 | under that invariant a toggle moves its project's count by exactly one |
| Ledger.ToggleRemovesDuplicates | app/projects/actions.ts:72-77 | a duplicated pair loses all its rows in one toggle |
| Ledger.Tally | app/projects/actions.ts:36-40 | the row-by-row fold (previous count or 0, plus one) yields exactly the positive per-project counts |
| Ledger.CountUpvotes | app/projects/actions.ts:33-45 | the counts map has a key exactly for each project with a row, holding its count; the set holds exactly the projects the user upvoted |
| Ledger.CountsSumToTotal | app/projects/actions.ts:36-40 | the per-project counts add up to the number of rows |
| Ledger.CountMapUnique | app/projects/actions.ts:36-40 | the counts are determined by the table |
| Ledger.UpvoteScenario | app/projects/actions.ts:58-95 | two users upvote, one withdraws: counts go 1, 2, 1; the aggregate is {p: 1}, the remaining user's set is {p} and the other's is empty |
| Identity.ResolveUserId | app/projects/actions.ts:10-27 | a non-empty cookie is used and no cookie is set; an absent or empty one yields the fresh id, which is also set as the cookie |
| Identity.IdentityIsStable | app/projects/actions.ts:12-24 | once a non-empty id is issued, the next request resolves to it and sets no cookie |
| Identity.EmptyFreshIdDoesNotStick | app/projects/actions.ts:14 | an empty generated id would be replaced on the next request |
| Actions.GetUpvotesForAllProjects | app/projects/actions.ts:30-55 | it fails exactly when storage fails, with "Failed to get upvote counts"; otherwise it returns the exact counts and the caller's upvoted projects; the table is untouched |
| Actions.ToggleUpvote | app/projects/actions.ts:58-100 | it fails exactly on a storage failure or a taken fresh id, leaving the table unchanged with "Failed to toggle upvote"; otherwise the new table and action are the ledger toggle's for the caller, so only the caller's pair changes, and the message matches the action; the identity cookie is set either way |
| Actions.ResetAllUpvotes | app/projects/actions.ts:103-111 | with storage up the table is emptied and success is reported; a storage failure leaves it unchanged with "Failed to reset upvotes"; no cookie is read or set |
| Actions.ResetClearsEverything | app/projects/actions.ts:103-111 | after a reset every count is zero, nobody has upvoted anything, and the aggregate is empty |
| Actions.ActionAcceptsEmptyName | app/projects/actions.ts:58-95 | the server action accepts the empty project name |
| Actions.ToggleActionTwiceRestores | app/projects/actions.ts:58-100 | with the same cookie, an addition then a removal restores the table and sets no cookie |
| Route.Post | app/api/projects/upvote/route.ts:29-85 | 400 with the validation issues exactly for an invalid body; a valid body does what the server action does to the table, answering 200 exactly when the action succeeds, with its message and action; every other failure is a 500 "Internal server error" |
| Route.Get | app/api/projects/upvote/route.ts:88-124 | 400 exactly when `projectName` is missing or empty; 500 exactly on a storage failure; otherwise the project's count and whether the caller upvoted it |
| Route.PostAgreesWithAction | app/api/projects/upvote/route.ts:41-77 | on a valid body the endpoint and the server action leave the same table and report the same action |
| Route.PostRejectsEmptyName | app/api/projects/upvote/route.ts:32-39 | the endpoint refuses the empty project name |
| Route.GetSeesPost | app/api/projects/upvote/route.ts:88-117 | a GET after a successful POST with the same cookie sees the flag flipped and the count moved by one |
| Route.GetAgreesWithAggregate | app/api/projects/upvote/route.ts:101-103 | the GET count equals the aggregate's count for the project, 0 when absent |
| UpvoteButton.Click | app/projects/components/UpvoteButton.tsx:27-31 | a request is sent exactly when none is in flight; the button is loading afterwards; count and flag are unchanged |
| UpvoteButton.Settle | app/projects/components/UpvoteButton.tsx:33-44 | loading ends; the flag follows the reply; an addition counts up by one; a removal counts down by one, or to zero from a count below one; an error keeps count and flag |
| UpvoteButton.CountNeverNegative | app/projects/components/UpvoteButton.tsx:37 | from a non-negative count no run of clicks and replies shows a negative count |
| UpvoteButton.OneRequestInFlight | app/projects/components/UpvoteButton.tsx:27-30 | at most one request is in flight, exactly while the button is loading |
| UpvoteButton.ButtonTracksLedger | app/projects/components/UpvoteButton.tsx:24-45 | a button showing the ledger's count and flag still does after a click and its reply |
| ProjectsPage.Without | app/projects/page.tsx:180 | the filter drops exactly the given tag and keeps every other tag's multiplicity |
| ProjectsPage.WithoutAppend | app/projects/page.tsx:180 | the filter works piece by piece, so with the membership clause on one-element lists the kept tags stay in their original order |
| ProjectsPage.FilterTags | app/projects/page.tsx:179-185 | the result has no "IA" and has "Hackathon"; it starts with the input minus "IA" (in order, by WithoutAppend) |
| ProjectsPage.FilterTagsExample | app/projects/page.tsx:179-185 | the tags "IA", "x", "Hackathon" clean up to "x", "Hackathon" |
| ProjectsPage.FilterTagsCounts | app/projects/page.tsx:179-185 | no other tag is lost or duplicated; "Hackathon" is added once when missing |
| ProjectsPage.FilterTagsIdempotent | app/projects/page.tsx:179-185 | cleaning twice equals cleaning once |
| ProjectsPage.FilterTagsKeepsCleanTags | app/projects/page.tsx:179-185 | clean tags come back unchanged |
| ProjectsPage.GetProjectImage | app/projects/page.tsx:62-94 | a name whose kebab key is in the table gets that file; any other name gets the avatar URL of the encoded original name |
| ProjectsPage.ImagesAreLocal | app/projects/page.tsx:67-85 | every shipped image lives under /projects/ |
| ProjectsPage.ImageIsLocalOrPlaceholder | app/projects/page.tsx:88-93 | every card image is a /projects/ file or the avatar service URL |
| ProjectsPage.QueComiEntry | app/projects/page.tsx:74 | the accented key maps to `que-comi.png` |
| ProjectsPage.QueComiKebab | app/projects/page.tsx:64 | the kebab key keeps the accent and joins the words with '-' |
| ProjectsPage.QueComiImage | app/projects/page.tsx:64-89 | the project "Que Comí" finds its shipped image |
| ProjectsPage.PageToggle | app/projects/page.tsx:314-337 | the clicked project's upvoted flag flips and its count moves one step the same way; no other project changes |
| ProjectsPage.PageToggleTwice | app/projects/page.tsx:314-337 | two clicks on a counted project restore the page state |
| ProjectsPage.ClicksKeepBaseline | app/projects/page.tsx:314-337 | a count always differs from its starting value by exactly the visitor's own upvote |
| ProjectsPage.PageCountsNeverNegative | app/projects/page.tsx:269-274 | starting from non-negative counts and no upvotes, no sequence of clicks shows a negative count |
| ProjectsPage.Compare | app/projects/page.tsx:358-366 | podium projects come before the others; two podium projects compare by position, two others by descending count (a missing count is 0); ties exactly at equal position or equal count |
| ProjectsPage.CompareAntisymmetric | app/projects/page.tsx:358-366 | swapping the compared projects negates the comparator |
| ProjectsPage.CompareTransitive | app/projects/page.tsx:358-366 | the comparator is transitive, hence a consistent order |
| ProjectsPage.InsertSorted | app/projects/page.tsx:358-366 | inserting into a sorted listing keeps it sorted and adds exactly that project |
| ProjectsPage.SortProjects | app/projects/page.tsx:358-366 | the listing is a permutation of the projects, ordered by the comparator |
| ProjectsPage.InsertKeepsTies | app/projects/page.tsx:358-366 | inserting a project puts it ahead of the projects it ties with and keeps their order |
| ProjectsPage.SortIsStable | app/projects/page.tsx:358-366 | the sort is stable: projects that tie keep their order in `projects` |
| ProjectsPage.ListingOrder | app/projects/page.tsx:357-366 | podium projects precede all others and ascend by position; the others descend by count |
| Modals.OpenVideoModal | app/projects/components/ProjectModals.tsx:55-59 | the modal opens with the embed URL and the project name, nothing else changes; when the embed conversion throws, nothing changes |
| Modals.CloseVideoModal | app/projects/components/ProjectModals.tsx:62-65 | the video modal closes and its URL is cleared; nothing else changes |
| Modals.OpenImageModal | app/projects/components/ProjectModals.tsx:68-78 | the image modal opens with the given image and alt text; nothing else changes |
| Modals.CloseImageModal | app/projects/components/ProjectModals.tsx:81-83 | only the image modal's flag changes |
| Modals.HandleKey | app/projects/components/ProjectModals.tsx:86-93 | Escape closes both modals and clears the video URL, keeping the project name, image and alt text; any other key changes nothing |
| Modals.EscapeIdempotent | app/projects/components/ProjectModals.tsx:86-93 | pressing Escape twice equals pressing it once |
| Modals.OpenThenCloseVideo | app/projects/components/ProjectModals.tsx:55-65 | opening then closing the video modal restores the state, except the remembered project name |
| Modals.OpenThenCloseImage | app/projects/components/ProjectModals.tsx:68-83 | opening then closing the image modal restores the state, except the stored image |
| Modals.VideoViewOf | app/projects/components/ProjectModals.tsx:149-171 | a closed modal shows nothing; a Drive URL is shown as a link, any other as a player of that URL |
| Modals.DriveVideoShownAsLink | app/projects/components/ProjectModals.tsx:149-163 | a Drive demo link opens as a link out, not a player |

## Left out

- **Concurrency.** Two overlapping toggles of one pair can both read "absent" and both insert. The model runs each toggle as one step. It shows what the invariant buys (`Ledger.TogglePreservesAtMostOne`) and what a duplicate costs (`Ledger.ToggleRemovesDuplicates`), but not the interleaving itself.
- **External effects are inputs.**
  - The database connection, migrations and the `createdAt`/`updatedAt` timestamps are not modelled.
  - Storage failures are the `storageUp` flag.
  - UUID generation is the fresh-id parameters.
- **Cookies.**
  - The cookie's expiry, path, `sameSite`, `httpOnly` and `secure` attributes are left out.
  - So is the Next.js plumbing that attaches a set cookie to a response.
- **Identity under partial failure.** In GET and in `getUpvotesForAllProjects` the identity is resolved between two reads. A failure of the second read, after a fresh id was issued, is folded into a failure of the first. So a failed read never carries a cookie in the model.
- **Comments.** The comments table appears only as its row type and its request schema. No comment operation is part of the core.
- **Browser built-ins are parameters.** `toLowerCase`, `normalize('NFD')` and `encodeURIComponent` enter as function parameters. Their Unicode tables are out of scope.
- **Not modelled in JavaScript semantics:**
  - `parseInt` of a malformed position (NaN) is not modelled: a position enters already parsed to an integer;
  - non-finite JSON numbers are not modelled;
  - property lookups that hit `Object.prototype` keys (a project named "constructor") are not modelled.
- **Presentation.** Rendering is left out: JSX, class names, animations, `getWinnerClass`, and the random tag generator `getRandomTags`.
- **React semantics.**
  - React's batching and the page handler's read of the render-time `userUpvotes` set are left out.
  - Clicks are applied one at a time, each seeing the previous click's state.
- Slug.GetProjectSlug: states that the slug has no whitespace or combining marks and keeps every letter other than '-' (SlugKeepsLetters); its exact characters are stated only for plain names and for two words around one whitespace run (SlugOfPlainName, SlugJoinsWords), because lower-casing and decomposition are parameters.
- Schema.ParseUpvoteRequest: reports issues as a list of typed entries rather than zod's formatted error tree, whose exact shape is library detail.
