/**
 * The upvote button on a project card: a local copy of the count and the
 * "upvoted" flag that moves only once the server action has replied, with
 * a loading flag that makes clicks during a request do nothing.
 */
module UpvoteButton {
  import opened Wrappers
  import opened Ledger

  datatype ButtonState = ButtonState(count: int, hasUpvoted: bool, isLoading: bool)

  /** The button as first rendered. */
  function Initial(initialCount: int, isUpvoted: bool): ButtonState {
    ButtonState(initialCount, isUpvoted, false)
  }

  /**
   * A click: ignored while a request is in flight; otherwise the button
   * goes to loading and the second component says a toggle request is sent.
   */
  function Click(s: ButtonState): (r: (ButtonState, bool))
    ensures r.1 <==> !s.isLoading
    ensures r.0.isLoading
    ensures r.0.count == s.count && r.0.hasUpvoted == s.hasUpvoted
  {
    if s.isLoading then (s, false) else (s.(isLoading := true), true)
  }

  /**
   * The request finishes: `Some(action)` is the action's reply, `None` a
   * thrown error. An addition counts one up, a removal one down but never
   * below zero; an error changes nothing but the loading flag.
   */
  function Settle(s: ButtonState, reply: Option<ToggleAction>): (r: ButtonState)
    ensures !r.isLoading
    ensures reply.Some? ==> (r.hasUpvoted <==> reply.value == Added)
    ensures reply.None? ==> r.count == s.count && r.hasUpvoted == s.hasUpvoted
    ensures s.count >= 0 ==> r.count >= 0
    ensures reply == Some(Added) ==> r.count == s.count + 1
    ensures reply == Some(Removed) ==> r.count == (if s.count >= 1 then s.count - 1 else 0)
  {
    match reply
    case Some(Added) => ButtonState(s.count + 1, true, false)
    case Some(Removed) => ButtonState(if s.count - 1 > 0 then s.count - 1 else 0, false, false)
    case None => s.(isLoading := false)
  }

  /** What happens to the button: a click, or the reply to the request in flight. */
  datatype Event = Clicked | Replied(reply: Option<ToggleAction>)

  /** One event; a reply with no request in flight cannot arrive and is ignored. */
  function Step(s: ButtonState, e: Event): ButtonState {
    match e
    case Clicked => Click(s).0
    case Replied(reply) => if s.isLoading then Settle(s, reply) else s
  }

  function Run(s: ButtonState, events: seq<Event>): ButtonState
    decreases |events|
  {
    if events == [] then s else Run(Step(s, events[0]), events[1..])
  }

  /** How many toggle requests the events send, and how many replies they settle. */
  function Sent(s: ButtonState, events: seq<Event>): nat
    decreases |events|
  {
    if events == [] then 0
    else (if events[0].Clicked? && !s.isLoading then 1 else 0) + Sent(Step(s, events[0]), events[1..])
  }

  function Settled(s: ButtonState, events: seq<Event>): nat
    decreases |events|
  {
    if events == [] then 0
    else (if events[0].Replied? && s.isLoading then 1 else 0) + Settled(Step(s, events[0]), events[1..])
  }

  /** Starting from a non-negative count, no sequence of clicks and replies shows a negative one. */
  lemma {:induction false} CountNeverNegative(s: ButtonState, events: seq<Event>)
    requires s.count >= 0
    ensures Run(s, events).count >= 0
    decreases |events|
  {
    if events != [] {
      CountNeverNegative(Step(s, events[0]), events[1..]);
    }
  }

  /**
   * At most one request is ever in flight: every request sent so far has
   * been settled, except one exactly when the button is loading.
   */
  lemma {:induction false} OneRequestInFlight(s: ButtonState, events: seq<Event>)
    ensures Sent(s, events) + (if s.isLoading then 1 else 0)
         == Settled(s, events) + (if Run(s, events).isLoading then 1 else 0)
    decreases |events|
  {
    if events != [] {
      OneRequestInFlight(Step(s, events[0]), events[1..]);
    }
  }

  /**
   * A button that shows the ledger's count and flag for its project still
   * does after a click and the reply to it, when the ledger holds at most
   * one row per pair and nothing else touches it in between.
   */
  lemma ButtonTracksLedger(s: ButtonState, store: Store, p: string, u: string, freshId: string)
    requires !s.isLoading && AtMostOnePerPair(store)
    requires s.count == ProjectCount(store, p) && s.hasUpvoted == Upvoted(store, p, u)
    ensures var t := Toggle(store, p, u, freshId);
            var after := Settle(Click(s).0, if t.Ok? then Some(t.value.1) else None);
            var store' := if t.Ok? then t.value.0 else store;
            && after.count == ProjectCount(store', p)
            && after.hasUpvoted == Upvoted(store', p, u)
            && !after.isLoading
  {
    var t := Toggle(store, p, u, freshId);
    if t.Ok? {
      ToggleMovesCountByOne(store, p, u, freshId);
      if t.value.1 == Removed {
        ToggleCounts(store, p, u, freshId, p);
      }
    }
  }
}
