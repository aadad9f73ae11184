/**
 * The anonymous visitor identity: the `userId` cookie when the request
 * carries a non-empty one, otherwise a freshly generated id that is also
 * written back as the new cookie. The generator (a random UUID) is a
 * parameter; the cookie's expiry and flags are not modelled.
 */
module Identity {
  import opened Wrappers

  /** The id to act as, and the cookie value to set on the response, if any. */
  datatype Resolution = Resolution(userId: string, setCookie: Option<string>)

  /** `getUserId`: an absent or empty cookie is falsy, so both get a fresh id. */
  function ResolveUserId(cookie: Option<string>, freshId: string): (r: Resolution)
    ensures (cookie.Some? && cookie.value != []) <==> r.setCookie.None?
    ensures r.setCookie.None? ==> cookie == Some(r.userId)
    ensures r.setCookie.Some? ==> r.userId == freshId && r.setCookie.value == freshId
  {
    match cookie
    case Some(id) =>
      if id != [] then Resolution(id, None) else Resolution(freshId, Some(freshId))
    case None => Resolution(freshId, Some(freshId))
  }

  /** The cookie the next request from the same browser carries. */
  function NextCookie(cookie: Option<string>, r: Resolution): Option<string> {
    if r.setCookie.Some? then r.setCookie else cookie
  }

  /**
   * Once resolved, the identity sticks: the next request resolves to the
   * same id and sets no cookie, provided the generated id is non-empty.
   */
  lemma IdentityIsStable(cookie: Option<string>, fresh1: string, fresh2: string)
    requires fresh1 != []
    ensures var r1 := ResolveUserId(cookie, fresh1);
            ResolveUserId(NextCookie(cookie, r1), fresh2) == Resolution(r1.userId, None)
  {
  }

  /** An empty generated id would not stick: the next request gets another one. */
  lemma EmptyFreshIdDoesNotStick(fresh2: string)
    ensures ResolveUserId(NextCookie(None, ResolveUserId(None, [])), fresh2) == Resolution(fresh2, Some(fresh2))
  {
  }
}
