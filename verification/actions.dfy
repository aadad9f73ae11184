/**
 * The server actions the projects page calls: read the whole ledger,
 * toggle the caller's upvote, and wipe the ledger.
 *
 * Every action takes the table as it stands, the request's `userId`
 * cookie, the ids a generator would produce, and `storageUp`, which says
 * whether the storage calls succeed. A failed storage call makes the
 * action throw with its fixed message and leaves the table as it was:
 * each action writes at most once, as its last storage call.
 */
module Actions {
  import opened Wrappers
  import opened Schema
  import opened Ledger
  import opened Identity

  const GetCountsFailed: string := "Failed to get upvote counts"
  const ToggleFailed: string := "Failed to toggle upvote"
  const ResetFailed: string := "Failed to reset upvotes"
  const UpvoteRemovedMessage: string := "Upvote removed successfully"
  const UpvoteAddedMessage: string := "Upvote added successfully"
  const ResetMessage: string := "All upvotes have been reset"

  /** What an action leaves behind: the table, its value or thrown message, and a cookie to set. */
  datatype Outcome<T> = Outcome(store: Store, result: Result<T, string>, setCookie: Option<string>)

  datatype Aggregate = Aggregate(projectCounts: map<string, nat>, userUpvotedProjects: set<string>)

  datatype ToggleReply = ToggleReply(message: string, action: ToggleAction)

  datatype ResetReply = ResetReply(success: bool, message: string)

  /** The message each toggle action is reported with. */
  function ActionMessage(action: ToggleAction): string {
    match action
    case Added => UpvoteAddedMessage
    case Removed => UpvoteRemovedMessage
  }

  /**
   * `getUpvotesForAllProjects`: per-project counts over the whole table and
   * the projects the caller has upvoted. A storage failure is rethrown as
   * "Failed to get upvote counts"; it fails at the first read, before the
   * identity is resolved, so no cookie is set then.
   */
  method GetUpvotesForAllProjects(store: Store, cookie: Option<string>, freshUserId: string, storageUp: bool)
    returns (o: Outcome<Aggregate>)
    ensures o.store == store
    ensures o.result.Err? <==> !storageUp
    ensures o.result.Err? ==> o.result.error == GetCountsFailed && o.setCookie == None
    ensures o.result.Ok? ==>
              var user := ResolveUserId(cookie, freshUserId);
              && o.setCookie == user.setCookie
              && IsCountMap(store, o.result.value.projectCounts)
              && (forall p :: p in o.result.value.userUpvotedProjects <==> Upvoted(store, p, user.userId))
  {
    if !storageUp {
      return Outcome(store, Err(GetCountsFailed), None);
    }
    var user := ResolveUserId(cookie, freshUserId);
    var counts, mine := CountUpvotes(store, user.userId);
    return Outcome(store, Ok(Aggregate(counts, mine)), user.setCookie);
  }

  /**
   * `toggleUpvote` as a server action: the project name is not validated.
   * The identity is resolved first, so its cookie is set even when the
   * storage then fails; an insert whose generated id is already taken
   * fails like any other storage error.
   */
  function ToggleUpvote(store: Store, projectName: string, cookie: Option<string>,
                        freshUserId: string, freshRowId: string, storageUp: bool): (o: Outcome<ToggleReply>)
    ensures var user := ResolveUserId(cookie, freshUserId);
            && o.setCookie == user.setCookie
            && (o.result.Err? <==> !storageUp || (!Upvoted(store, projectName, user.userId) && freshRowId in Ids(store)))
            && (o.result.Err? ==> o.store == store && o.result.error == ToggleFailed)
            && (o.result.Ok? ==>
                  && (o.result.value.action == Removed <==> Upvoted(store, projectName, user.userId))
                  && (Upvoted(o.store, projectName, user.userId) <==> !Upvoted(store, projectName, user.userId))
                  && o.result.value.message == ActionMessage(o.result.value.action)
                  && Toggle(store, projectName, user.userId, freshRowId) == Ok((o.store, o.result.value.action)))
  {
    var user := ResolveUserId(cookie, freshUserId);
    if !storageUp then Outcome(store, Err(ToggleFailed), user.setCookie)
    else
      match Toggle(store, projectName, user.userId, freshRowId)
      case Err(_) => Outcome(store, Err(ToggleFailed), user.setCookie)
      case Ok((after, action)) => Outcome(after, Ok(ToggleReply(ActionMessage(action), action)), user.setCookie)
  }

  /** `resetAllUpvotes`: deletes every row. */
  function ResetAllUpvotes(store: Store, storageUp: bool): (o: Outcome<ResetReply>)
    ensures o.setCookie == None
    ensures storageUp ==> o.store == [] && o.result == Ok(ResetReply(true, ResetMessage))
    ensures !storageUp ==> o.store == store && o.result == Err(ResetFailed)
  {
    if storageUp then Outcome([], Ok(ResetReply(true, ResetMessage)), None)
    else Outcome(store, Err(ResetFailed), None)
  }

  /** After a reset every project counts zero and nobody has upvoted anything. */
  lemma ResetClearsEverything(store: Store, p: string, u: string)
    ensures var after := ResetAllUpvotes(store, true).store;
            ProjectCount(after, p) == 0 && !Upvoted(after, p, u) && IsCountMap(after, map[])
  {
  }

  /**
   * The server action takes any project name, the empty one included: it
   * records an upvote for "" where the JSON endpoint would refuse it.
   */
  lemma ActionAcceptsEmptyName(store: Store, cookie: Option<string>, freshUserId: string, freshRowId: string)
    requires freshRowId !in Ids(store)
    ensures ToggleUpvote(store, "", cookie, freshUserId, freshRowId, true).result.Ok?
  {
  }

  /** Toggling twice with the same cookie, the first time with an unused row id, restores the table. */
  lemma ToggleActionTwiceRestores(store: Store, p: string, cookie: string, id1: string, id2: string, freshUserId: string)
    requires cookie != [] && !Upvoted(store, p, cookie) && id1 !in Ids(store)
    ensures var first := ToggleUpvote(store, p, Some(cookie), freshUserId, id1, true);
            && first.result == Ok(ToggleReply(UpvoteAddedMessage, Added))
            && ToggleUpvote(first.store, p, Some(cookie), freshUserId, id2, true)
               == Outcome(store, Ok(ToggleReply(UpvoteRemovedMessage, Removed)), None)
  {
    ToggleTwiceRestores(store, p, cookie, id1, id2);
  }
}
