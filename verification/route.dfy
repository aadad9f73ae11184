/**
 * The JSON endpoint for upvotes. POST validates `{projectName}` and then
 * toggles like the server action; GET reports one project's count and
 * whether the caller has upvoted it. Every failure after the request is
 * read becomes a 500 with "Internal server error".
 */
module Route {
  import opened Wrappers
  import opened Schema
  import opened Ledger
  import opened Identity
  import Actions

  const StatusOk: nat := 200
  const StatusBadRequest: nat := 400
  const StatusServerError: nat := 500

  const InvalidRequestData: string := "Invalid request data"
  const InternalServerError: string := "Internal server error"
  const ProjectIdRequired: string := "Project ID is required"

  datatype ResponseBody =
    | ToggleBody(message: string, action: ToggleAction)
    | CountBody(count: nat, userUpvoted: bool)
    | ErrorBody(error: string, details: seq<Issue>)

  datatype Response = Response(status: nat, body: ResponseBody, setCookie: Option<string>)

  /**
   * POST: `body` is the parsed JSON, `None` when the request body is not
   * JSON. Returns the table afterwards and the response.
   */
  function Post(store: Store, body: Option<Json>, cookie: Option<string>,
                freshUserId: string, freshRowId: string, storageUp: bool): (r: (Store, Response))
    ensures r.1.status == StatusOk ==>
              && body.Some? && ParseUpvoteRequest(body.value).Ok?
              && var p := ParseUpvoteRequest(body.value).value.projectName;
              var user := ResolveUserId(cookie, freshUserId);
              && r.1.setCookie == user.setCookie
              && r.1.body.ToggleBody?
              && (r.1.body.action == Removed <==> Upvoted(store, p, user.userId))
              && (Upvoted(r.0, p, user.userId) <==> !Upvoted(store, p, user.userId))
    ensures r.1.status == StatusBadRequest <==> body.Some? && ParseUpvoteRequest(body.value).Err?
    ensures r.1.status == StatusBadRequest ==>
              r.1.body == ErrorBody(InvalidRequestData, ParseUpvoteRequest(body.value).error) && r.1.setCookie == None
    ensures r.1.status in {StatusOk, StatusBadRequest, StatusServerError}
    ensures r.1.status != StatusOk ==> r.0 == store
    ensures r.1.status == StatusServerError ==> r.1.body == ErrorBody(InternalServerError, [])
    ensures body.Some? && ParseUpvoteRequest(body.value).Ok? ==>
              var o := Actions.ToggleUpvote(store, ParseUpvoteRequest(body.value).value.projectName,
                                            cookie, freshUserId, freshRowId, storageUp);
              && r.0 == o.store
              && (r.1.status == StatusOk <==> o.result.Ok?)
              && (o.result.Ok? ==> r.1.body == ToggleBody(o.result.value.message, o.result.value.action))
  {
    if body.None? then (store, Response(StatusServerError, ErrorBody(InternalServerError, []), None))
    else
      match ParseUpvoteRequest(body.value)
      case Err(issues) => (store, Response(StatusBadRequest, ErrorBody(InvalidRequestData, issues), None))
      case Ok(request) =>
        var o := Actions.ToggleUpvote(store, request.projectName, cookie, freshUserId, freshRowId, storageUp);
        match o.result
        case Ok(reply) => (o.store, Response(StatusOk, ToggleBody(reply.message, reply.action), o.setCookie))
        case Err(_) => (o.store, Response(StatusServerError, ErrorBody(InternalServerError, []), o.setCookie))
  }

  /**
   * GET with the `projectName` query parameter (`None` when absent). The
   * count is read before the identity is resolved, so a storage failure
   * there sets no cookie.
   */
  function Get(store: Store, projectName: Option<string>, cookie: Option<string>,
               freshUserId: string, storageUp: bool): (r: Response)
    ensures r.status == StatusBadRequest <==> projectName.None? || projectName.value == []
    ensures r.status == StatusBadRequest ==> r.body == ErrorBody(ProjectIdRequired, []) && r.setCookie == None
    ensures r.status == StatusServerError <==> r.status != StatusBadRequest && !storageUp
    ensures r.status == StatusServerError ==> r.body == ErrorBody(InternalServerError, []) && r.setCookie == None
    ensures r.status == StatusOk ==>
              var user := ResolveUserId(cookie, freshUserId);
              && r.setCookie == user.setCookie
              && r.body == CountBody(ProjectCount(store, projectName.value), Upvoted(store, projectName.value, user.userId))
    ensures r.status in {StatusOk, StatusBadRequest, StatusServerError}
  {
    if projectName.None? || projectName.value == [] then
      Response(StatusBadRequest, ErrorBody(ProjectIdRequired, []), None)
    else if !storageUp then
      Response(StatusServerError, ErrorBody(InternalServerError, []), None)
    else
      var count := ProjectCount(store, projectName.value);
      var user := ResolveUserId(cookie, freshUserId);
      Response(StatusOk, CountBody(count, Upvoted(store, projectName.value, user.userId)), user.setCookie)
  }

  /** The request body `{"projectName": p}`. */
  function UpvoteBody(p: string): Json {
    JObject(map["projectName" := JString(p)])
  }

  /** On a valid body the endpoint and the server action do the same thing to the table. */
  lemma PostAgreesWithAction(store: Store, p: string, cookie: Option<string>,
                             freshUserId: string, freshRowId: string, storageUp: bool)
    requires p != []
    ensures var (after, response) := Post(store, Some(UpvoteBody(p)), cookie, freshUserId, freshRowId, storageUp);
            var o := Actions.ToggleUpvote(store, p, cookie, freshUserId, freshRowId, storageUp);
            && after == o.store
            && (response.status == StatusOk <==> o.result.Ok?)
            && (o.result.Ok? ==> response.body == ToggleBody(o.result.value.message, o.result.value.action))
  {
  }

  /** The endpoint refuses an empty project name that the server action accepts. */
  lemma PostRejectsEmptyName(store: Store, cookie: Option<string>, freshUserId: string, freshRowId: string)
    ensures Post(store, Some(UpvoteBody([])), cookie, freshUserId, freshRowId, true).1.status == StatusBadRequest
  {
  }

  /**
   * A GET after a successful POST with the same (non-empty) cookie sees
   * the upvote flipped and the count moved by one, when the table held at
   * most one row per pair.
   */
  lemma GetSeesPost(store: Store, p: string, cookie: string, freshUserId: string, freshRowId: string)
    requires p != [] && cookie != [] && AtMostOnePerPair(store)
    requires Post(store, Some(UpvoteBody(p)), Some(cookie), freshUserId, freshRowId, true).1.status == StatusOk
    ensures var (after, response) := Post(store, Some(UpvoteBody(p)), Some(cookie), freshUserId, freshRowId, true);
            var before := Get(store, Some(p), Some(cookie), freshUserId, true);
            var now := Get(after, Some(p), Some(cookie), freshUserId, true);
            && now.body.userUpvoted == !before.body.userUpvoted
            && now.body.count == before.body.count + (if response.body.action == Added then 1 else -1)
  {
    ToggleMovesCountByOne(store, p, cookie, freshRowId);
  }

  /** GET reports the same count as the aggregate over the whole table. */
  lemma GetAgreesWithAggregate(store: Store, p: string, m: map<string, nat>, cookie: Option<string>, freshUserId: string)
    requires p != [] && IsCountMap(store, m)
    ensures Get(store, Some(p), cookie, freshUserId, true).body.count == if p in m then m[p] else 0
  {
  }
}
