/**
 * The upvote ledger: the `upvotes` table as a sequence of rows and the
 * table operations the site issues (select/delete with a where clause,
 * insert), the toggle both entry points perform, and the whole-table
 * aggregation into per-project counts.
 *
 * Row order carries no meaning in the table; properties that depend on it
 * are stated on multisets or on the rows selected by a where clause.
 */
module Ledger {
  import opened Wrappers
  import opened Schema
  import Strings

  type Store = seq<Upvote>

  /** The where clauses the site uses. */
  datatype Where =
    | ProjectIs(projectName: string)
    | UserIs(userId: string)
    | PairIs(projectName: string, userId: string)

  predicate Matches(row: Upvote, w: Where) {
    match w
    case ProjectIs(p) => row.projectName == p
    case UserIs(u) => row.userId == u
    case PairIs(p, u) => row.projectName == p && row.userId == u
  }

  /**
   * The rows whose match against `w` equals `matching`, in table order:
   * `select ... where w` keeps the matching rows, `delete ... where w`
   * keeps the others.
   */
  function Filter(store: Store, w: Where, matching: bool): (r: Store)
    ensures forall row :: row in r <==> row in store && Matches(row, w) == matching
    ensures |r| <= |store|
  {
    if store == [] then []
    else if Matches(store[0], w) == matching then [store[0]] + Filter(store[1..], w, matching)
    else Filter(store[1..], w, matching)
  }

  /** `select().from(upvotes).where(w)`. */
  function Select(store: Store, w: Where): Store {
    Filter(store, w, true)
  }

  /** `delete(upvotes).where(w)`: what the table holds afterwards. */
  function Delete(store: Store, w: Where): Store {
    Filter(store, w, false)
  }

  lemma {:induction false} FilterAppend(a: Store, b: Store, w: Where, matching: bool)
    ensures Filter(a + b, w, matching) == Filter(a, w, matching) + Filter(b, w, matching)
    decreases |a|
  {
    if a == [] {
      assert a + b == b;
    } else {
      assert (a + b)[1..] == a[1..] + b;
      FilterAppend(a[1..], b, w, matching);
    }
  }

  /** Select and delete split the table: every row goes to exactly one side. */
  lemma {:induction false} SelectDeleteSplit(store: Store, w: Where)
    ensures multiset(Select(store, w)) + multiset(Delete(store, w)) == multiset(store)
    ensures |Select(store, w)| + |Delete(store, w)| == |store|
    decreases |store|
  {
    if store != [] {
      SelectDeleteSplit(store[1..], w);
      assert store == [store[0]] + store[1..];
    }
  }

  /** A where clause that matches nothing deletes nothing. */
  lemma {:induction false} DeleteNothing(store: Store, w: Where)
    requires forall row :: row in store ==> !Matches(row, w)
    ensures Delete(store, w) == store
    decreases |store|
  {
    if store != [] {
      assert store[0] in store;
      DeleteNothing(store[1..], w);
    }
  }

  /** Nothing to match means nothing selected. */
  lemma SelectEmpty(store: Store, w: Where)
    requires forall row :: row in store ==> !Matches(row, w)
    ensures Select(store, w) == []
  {
    DeleteNothing(store, w);
    SelectDeleteSplit(store, w);
  }

  /** Deleting twice is deleting once. */
  lemma DeleteTwice(store: Store, w: Where)
    ensures Delete(Delete(store, w), w) == Delete(store, w)
  {
    DeleteNothing(Delete(store, w), w);
  }

  /** Rows that `w2` selects survive a delete by `w1` when no row matches both. */
  lemma {:induction false} SelectAfterDelete(store: Store, w1: Where, w2: Where)
    requires forall row :: Matches(row, w2) ==> !Matches(row, w1)
    ensures Select(Delete(store, w1), w2) == Select(store, w2)
    decreases |store|
  {
    if store != [] {
      SelectAfterDelete(store[1..], w1, w2);
    }
  }

  /** Ids are the primary key: no two rows share one. */
  predicate UniqueIds(store: Store) {
    forall i, j :: 0 <= i < j < |store| ==> store[i].id != store[j].id
  }

  function Ids(store: Store): set<string> {
    set row | row in store :: row.id
  }

  lemma {:induction false} FilterPreservesUniqueIds(store: Store, w: Where, matching: bool)
    requires UniqueIds(store)
    ensures UniqueIds(Filter(store, w, matching))
    decreases |store|
  {
    if store != [] {
      FilterPreservesUniqueIds(store[1..], w, matching);
      if Matches(store[0], w) == matching {
        var r := [store[0]] + Filter(store[1..], w, matching);
        forall i, j | 0 <= i < j < |r| ensures r[i].id != r[j].id {
          if i == 0 {
            assert r[j] in store[1..];
            var k :| 0 <= k < |store[1..]| && store[1..][k] == r[j];
            assert store[k + 1] == r[j];
          }
        }
      }
    }
  }

  /** Storage errors the table itself raises. */
  datatype DbError = DuplicateKey(id: string)

  /** `insert(upvotes).values(row)`: refused when the primary key is taken. */
  function Insert(store: Store, row: Upvote): (r: Result<Store, DbError>)
    ensures r.Err? <==> row.id in Ids(store)
    ensures r.Ok? ==> multiset(r.value) == multiset(store) + multiset{row}
    ensures r.Ok? && UniqueIds(store) ==> UniqueIds(r.value)
  {
    if row.id in Ids(store) then Err(DuplicateKey(row.id))
    else
      var r := store + [row];
      assert UniqueIds(store) ==> UniqueIds(r) by {
        if UniqueIds(store) {
          forall i, j | 0 <= i < j < |r| ensures r[i].id != r[j].id {
            if j == |store| {
              assert r[i] in store;
            }
          }
        }
      }
      Ok(r)
  }

  /** The number of upvotes of project `p`. */
  function ProjectCount(store: Store, p: string): nat {
    |Select(store, ProjectIs(p))|
  }

  /** Whether `u` has upvoted `p`: some row carries the pair. */
  predicate Upvoted(store: Store, p: string, u: string) {
    Select(store, PairIs(p, u)) != []
  }

  lemma UpvotedMeansRow(store: Store, p: string, u: string)
    ensures Upvoted(store, p, u) <==> exists row :: row in store && row.projectName == p && row.userId == u
  {
    if Upvoted(store, p, u) {
      assert Select(store, PairIs(p, u))[0] in Select(store, PairIs(p, u));
    }
    if exists row :: row in store && row.projectName == p && row.userId == u {
      var row :| row in store && row.projectName == p && row.userId == u;
      assert row in Select(store, PairIs(p, u));
    }
  }

  /** What a toggle did. */
  datatype ToggleAction = Added | Removed

  /**
   * The toggle, read and write taken as one step: when some row carries
   * (`p`, `u`) every such row is deleted; otherwise one row with the fresh
   * id `freshId` is inserted, which the table refuses if the id is taken.
   */
  function Toggle(store: Store, p: string, u: string, freshId: string): (r: Result<(Store, ToggleAction), DbError>)
    ensures r.Err? <==> !Upvoted(store, p, u) && freshId in Ids(store)
    ensures r.Ok? ==> (r.value.1 == Removed <==> Upvoted(store, p, u))
    ensures r.Ok? ==> (Upvoted(r.value.0, p, u) <==> !Upvoted(store, p, u))
  {
    if Upvoted(store, p, u) then
      var after := Delete(store, PairIs(p, u));
      SelectEmpty(after, PairIs(p, u));
      Ok((after, Removed))
    else
      var row := Upvote(freshId, p, u);
      match Insert(store, row)
      case Err(e) => Err(e)
      case Ok(after) =>
        FilterAppend(store, [row], PairIs(p, u), true);
        Ok((after, Added))
  }

  /** An added upvote is exactly one new row; a removal leaves no row of the pair. */
  lemma ToggleRows(store: Store, p: string, u: string, freshId: string)
    requires Toggle(store, p, u, freshId).Ok?
    ensures var (after, action) := Toggle(store, p, u, freshId).value;
            && (action == Added ==>
                  && multiset(after) == multiset(store) + multiset{Upvote(freshId, p, u)}
                  && Select(after, PairIs(p, u)) == [Upvote(freshId, p, u)])
            && (action == Removed ==>
                  && multiset(after) + multiset(Select(store, PairIs(p, u))) == multiset(store)
                  && Select(after, PairIs(p, u)) == [])
  {
    var (after, action) := Toggle(store, p, u, freshId).value;
    if action == Added {
      var row := Upvote(freshId, p, u);
      FilterAppend(store, [row], PairIs(p, u), true);
      SelectEmpty(store, PairIs(p, u));
    } else {
      SelectDeleteSplit(store, PairIs(p, u));
      SelectEmpty(after, PairIs(p, u));
    }
  }

  /** A toggle leaves every other (project, user) pair's rows where they were. */
  lemma ToggleOnlyTouchesPair(store: Store, p: string, u: string, freshId: string)
    requires Toggle(store, p, u, freshId).Ok?
    ensures Delete(Toggle(store, p, u, freshId).value.0, PairIs(p, u)) == Delete(store, PairIs(p, u))
  {
    var (after, action) := Toggle(store, p, u, freshId).value;
    if action == Added {
      FilterAppend(store, [Upvote(freshId, p, u)], PairIs(p, u), false);
    } else {
      DeleteTwice(store, PairIs(p, u));
    }
  }

  /** A toggle keeps the primary key unique. */
  lemma ToggleKeepsUniqueIds(store: Store, p: string, u: string, freshId: string)
    requires UniqueIds(store) && Toggle(store, p, u, freshId).Ok?
    ensures UniqueIds(Toggle(store, p, u, freshId).value.0)
  {
    if Upvoted(store, p, u) {
      FilterPreservesUniqueIds(store, PairIs(p, u), false);
    }
  }

  /** Deleting a pair removes from its project's rows exactly the rows of the pair. */
  lemma {:induction false} PairRowsOfProject(store: Store, p: string, u: string)
    ensures ProjectCount(Delete(store, PairIs(p, u)), p)
         == ProjectCount(store, p) - |Select(store, PairIs(p, u))|
    decreases |store|
  {
    if store != [] {
      PairRowsOfProject(store[1..], p, u);
    }
  }

  /**
   * How a toggle moves the counts: an insertion adds one to its project,
   * a removal takes away every row of the pair; no other project moves.
   */
  lemma ToggleCounts(store: Store, p: string, u: string, freshId: string, q: string)
    requires Toggle(store, p, u, freshId).Ok?
    ensures var (after, action) := Toggle(store, p, u, freshId).value;
            ProjectCount(after, q) ==
              if q != p then ProjectCount(store, q)
              else if action == Added then ProjectCount(store, q) + 1
              else ProjectCount(store, q) - |Select(store, PairIs(p, u))|
  {
    var (after, action) := Toggle(store, p, u, freshId).value;
    if action == Added {
      FilterAppend(store, [Upvote(freshId, p, u)], ProjectIs(q), true);
    } else if q != p {
      SelectAfterDelete(store, PairIs(p, u), ProjectIs(q));
    } else {
      PairRowsOfProject(store, p, u);
    }
  }

  /**
   * Two toggles from a state without the pair, the first with an unused
   * id, add a row and then remove it again: the table is back as it was.
   */
  lemma ToggleTwiceRestores(store: Store, p: string, u: string, id1: string, id2: string)
    requires !Upvoted(store, p, u) && id1 !in Ids(store)
    ensures Toggle(store, p, u, id1).Ok? && Toggle(store, p, u, id1).value.1 == Added
    ensures Toggle(Toggle(store, p, u, id1).value.0, p, u, id2) == Ok((store, Removed))
  {
    var row := Upvote(id1, p, u);
    var after := Toggle(store, p, u, id1).value.0;
    assert after == store + [row];
    assert Upvoted(after, p, u);
    FilterAppend(store, [row], PairIs(p, u), false);
    assert Delete([row], PairIs(p, u)) == [];
    assert forall r :: r in store ==> !Matches(r, PairIs(p, u)) by {
      forall r | r in store ensures !Matches(r, PairIs(p, u)) {
        assert r !in Select(store, PairIs(p, u));
      }
    }
    DeleteNothing(store, PairIs(p, u));
    Strings.AppendEmpty(store);
  }

  /** At most one row per (project, user) pair. */
  ghost predicate AtMostOnePerPair(store: Store) {
    forall p, u :: |Select(store, PairIs(p, u))| <= 1
  }

  /**
   * Toggles run one at a time keep at most one row per pair (the table does
   * not enforce it; only concurrent toggles can break it).
   */
  lemma TogglePreservesAtMostOne(store: Store, p: string, u: string, freshId: string)
    requires AtMostOnePerPair(store) && Toggle(store, p, u, freshId).Ok?
    ensures AtMostOnePerPair(Toggle(store, p, u, freshId).value.0)
  {
    var (after, action) := Toggle(store, p, u, freshId).value;
    ToggleRows(store, p, u, freshId);
    forall q, v ensures |Select(after, PairIs(q, v))| <= 1 {
      if q == p && v == u {
      } else if action == Added {
        FilterAppend(store, [Upvote(freshId, p, u)], PairIs(q, v), true);
      } else {
        SelectAfterDelete(store, PairIs(p, u), PairIs(q, v));
      }
    }
  }

  /** With at most one row per pair a toggle moves its project's count by exactly one. */
  lemma ToggleMovesCountByOne(store: Store, p: string, u: string, freshId: string)
    requires AtMostOnePerPair(store) && Toggle(store, p, u, freshId).Ok?
    ensures var (after, action) := Toggle(store, p, u, freshId).value;
            ProjectCount(after, p) == ProjectCount(store, p) + (if action == Added then 1 else -1)
  {
    ToggleCounts(store, p, u, freshId, p);
    assert |Select(store, PairIs(p, u))| <= 1;
  }

  /** A table holding a pair twice loses both rows in one toggle. */
  lemma ToggleRemovesDuplicates(store: Store, p: string, u: string, freshId: string)
    requires |Select(store, PairIs(p, u))| >= 2
    ensures var r := Toggle(store, p, u, freshId);
            && r.Ok? && r.value.1 == Removed && !Upvoted(r.value.0, p, u)
            && ProjectCount(r.value.0, p) <= ProjectCount(store, p) - 2
  {
    ToggleCounts(store, p, u, freshId, p);
  }

  /** A map holding exactly the positive per-project counts of `store`. */
  ghost predicate IsCountMap(store: Store, m: map<string, nat>) {
    && (forall p :: p in m <==> ProjectCount(store, p) > 0)
    && (forall p :: p in m ==> m[p] == ProjectCount(store, p))
  }

  /** Adds one to the count of `p`, starting from zero when `p` has none. */
  function Bump(m: map<string, nat>, p: string): map<string, nat> {
    m[p := (if p in m then m[p] else 0) + 1]
  }

  /** Counting row by row, first to last: the fold the aggregation loop performs. */
  function Tally(store: Store): (m: map<string, nat>)
    ensures IsCountMap(store, m)
    decreases |store|
  {
    if store == [] then map[]
    else
      var last := store[|store| - 1];
      var prefix := store[..|store| - 1];
      assert store == prefix + [last];
      forall p ensures ProjectCount(store, p) == ProjectCount(prefix, p) + (if p == last.projectName then 1 else 0) {
        FilterAppend(prefix, [last], ProjectIs(p), true);
      }
      Bump(Tally(prefix), last.projectName)
  }

  /**
   * The per-project counts and the caller's upvoted projects, as
   * `getUpvotesForAllProjects` builds them from a read of the whole table.
   */
  method CountUpvotes(store: Store, userId: string) returns (projectCounts: map<string, nat>, userUpvoted: set<string>)
    ensures forall p :: p in projectCounts <==> ProjectCount(store, p) > 0
    ensures forall p :: p in projectCounts ==> projectCounts[p] == ProjectCount(store, p)
    ensures forall p :: p in userUpvoted <==> Upvoted(store, p, userId)
  {
    projectCounts := map[];
    var i := 0;
    while i < |store|
      invariant 0 <= i <= |store|
      invariant projectCounts == Tally(store[..i])
    {
      assert store[..i + 1][..i] == store[..i];
      projectCounts := Bump(projectCounts, store[i].projectName);
      i := i + 1;
    }
    assert store[..i] == store;
    var mine := Select(store, UserIs(userId));
    userUpvoted := set row | row in mine :: row.projectName;
    forall p ensures p in userUpvoted <==> Upvoted(store, p, userId) {
      UpvotedMeansRow(store, p, userId);
    }
  }

  /** The sum of the values of a map. */
  ghost function SumValues(m: map<string, nat>): nat
    decreases |m|
  {
    if m == map[] then 0
    else
      var k :| k in m;
      m[k] + SumValues(m - {k})
  }

  lemma {:induction false} SumValuesAnyKey(m: map<string, nat>, k: string)
    requires k in m
    ensures SumValues(m) == m[k] + SumValues(m - {k})
    decreases |m|
  {
    var j :| j in m && SumValues(m) == m[j] + SumValues(m - {j});
    if j != k {
      assert (m - {j}) - {k} == (m - {k}) - {j};
      SumValuesAnyKey(m - {j}, k);
      SumValuesAnyKey(m - {k}, j);
    }
  }

  /** The per-project counts add up to the number of rows: every upvote is counted once. */
  lemma {:induction false} CountsSumToTotal(store: Store, m: map<string, nat>)
    requires IsCountMap(store, m)
    ensures SumValues(m) == |store|
    decreases |m|
  {
    if store == [] {
      assert forall p :: p !in m;
      assert m == map[];
    } else {
      var k := store[0].projectName;
      assert store[0] in Select(store, ProjectIs(k));
      SumValuesAnyKey(m, k);
      var rest := Delete(store, ProjectIs(k));
      SelectDeleteSplit(store, ProjectIs(k));
      forall p ensures ProjectCount(rest, p) == if p == k then 0 else ProjectCount(store, p) {
        if p == k {
          SelectEmpty(rest, ProjectIs(k));
        } else {
          SelectAfterDelete(store, ProjectIs(k), ProjectIs(p));
        }
      }
      CountsSumToTotal(rest, m - {k});
    }
  }

  /** Two maps that both hold the counts of one table are the same map. */
  lemma CountMapUnique(store: Store, m1: map<string, nat>, m2: map<string, nat>)
    requires IsCountMap(store, m1) && IsCountMap(store, m2)
    ensures m1 == m2
  {
  }

  /**
   * An example: from an empty table, u1 and u2 upvote project p and
   * u1 takes the upvote back. Counts go 1, 2, 1; afterwards the counts are
   * {p: 1}, u2 has upvoted p and u1 has upvoted nothing.
   */
  lemma UpvoteScenario(p: string, u1: string, u2: string, id1: string, id2: string, id3: string)
    requires u1 != u2 && id1 != id2
    ensures var r1 := Toggle([], p, u1, id1);
            && r1.Ok? && r1.value.1 == Added && ProjectCount(r1.value.0, p) == 1
            && var r2 := Toggle(r1.value.0, p, u2, id2);
            && r2.Ok? && r2.value.1 == Added && ProjectCount(r2.value.0, p) == 2
            && var r3 := Toggle(r2.value.0, p, u1, id3);
            && r3.Ok? && r3.value.1 == Removed && ProjectCount(r3.value.0, p) == 1
            && IsCountMap(r3.value.0, map[p := 1])
            && (forall q :: Upvoted(r3.value.0, q, u2) <==> q == p)
            && (forall q :: !Upvoted(r3.value.0, q, u1))
  {

  }
}
