/**
 * The like button of a post (src/components/Post/LikeButton.tsx) as a state
 * machine: a click flips the liked state optimistically and sends one
 * request; its completion either adopts the server's values or rolls back
 * to the values from before the click. The network call is the `Request`
 * the click emits and the `Response` fed back to `Complete`.
 */
module LikeButton {
  import opened Common

  /** The values the button shows. */
  datatype Snapshot = Snapshot(isLiked: bool, likeCount: int)

  datatype Request = LikePost(postId: int) | UnlikePost(postId: int)

  /** A request in flight, with the values to restore if it fails. */
  datatype Pending = Pending(previous: Snapshot, request: Request)

  /** `isLoading` is exactly `pending.Some?`. */
  datatype State = State(shown: Snapshot, pending: Option<Pending>)

  datatype Response = Success(serverIsLiked: bool, serverLikeCount: int) | Failure

  /** A click's effect: the next state and the request it sends, if any. */
  datatype Step = Step(state: State, sent: Option<Request>)

  /** A completion's effect: the next state, the values passed to `onLikeChange`, and whether an alert is shown. */
  datatype Completion = Completion(state: State, notified: Option<Snapshot>, alerted: bool)

  const FailureAlert: string := "좋아요 처리에 실패했습니다. 다시 시도해주세요."

  function Initial(initialIsLiked: bool, initialLikeCount: int): State {
    State(Snapshot(initialIsLiked, initialLikeCount), None)
  }

  predicate IsLoading(s: State) {
    s.pending.Some?
  }

  /**
   * `handleLikeClick` up to the request: ignored while loading; otherwise
   * the liked flag flips, the count moves one step with it, and the matching
   * request goes out.
   */
  function Click(s: State, postId: int): (r: Step)
    ensures IsLoading(s) ==> r == Step(s, None)
    ensures !IsLoading(s) ==>
      && r.state.shown.isLiked == !s.shown.isLiked
      && r.state.shown.likeCount == s.shown.likeCount + (if r.state.shown.isLiked then 1 else -1)
      && r.sent.Some?
      && r.sent.value == (if r.state.shown.isLiked then LikePost(postId) else UnlikePost(postId))
      && r.state.pending == Some(Pending(s.shown, r.sent.value))
  {
    if IsLoading(s) then Step(s, None)
    else
      var liked := !s.shown.isLiked;
      var count := if liked then s.shown.likeCount + 1 else s.shown.likeCount - 1;
      var request := if liked then LikePost(postId) else UnlikePost(postId);
      Step(State(Snapshot(liked, count), Some(Pending(s.shown, request))), Some(request))
  }

  /**
   * The rest of `handleLikeClick`, once the request settles: success shows
   * the server's values, failure restores the snapshot and alerts; either
   * way loading ends and the parent, if it listens, hears the shown values.
   */
  function Complete(s: State, response: Response, hasListener: bool): (r: Completion)
    requires IsLoading(s)
    ensures !IsLoading(r.state)
    ensures response.Success? ==>
      r.state.shown == Snapshot(response.serverIsLiked, response.serverLikeCount) && !r.alerted
    ensures response.Failure? ==> r.state.shown == s.pending.value.previous && r.alerted
    ensures r.notified.Some? <==> hasListener
    ensures hasListener ==> r.notified == Some(r.state.shown)
  {
    var shown := match response
      case Success(liked, count) => Snapshot(liked, count)
      case Failure => s.pending.value.previous;
    Completion(State(shown, None), if hasListener then Some(shown) else None, response.Failure?)
  }

  /** A failed request leaves the button exactly as it was before the click. */
  lemma FailedClickRollsBack(s: State, postId: int, hasListener: bool)
    requires !IsLoading(s)
    ensures Complete(Click(s, postId).state, Failure, hasListener).state == s
  {
  }

  /** A successful request shows the server's values, whatever the optimistic guess was. */
  lemma SucceededClickAdoptsServer(s: State, postId: int, liked: bool, count: int, hasListener: bool)
    requires !IsLoading(s)
    ensures Complete(Click(s, postId).state, Success(liked, count), hasListener).state
      == State(Snapshot(liked, count), None)
  {
  }

  /** A second click before the first request settles sends nothing and changes nothing. */
  lemma DoubleClickSendsOnce(s: State, postId: int)
    requires !IsLoading(s)
    ensures var first := Click(s, postId);
      Click(first.state, postId) == Step(first.state, None)
  {
  }

  /** When the server agrees with the optimistic guess, the click and its completion are invisible as one step. */
  lemma AgreeingServerKeepsOptimistic(s: State, postId: int, hasListener: bool)
    requires !IsLoading(s)
    ensures var first := Click(s, postId);
      Complete(first.state, Success(first.state.shown.isLiked, first.state.shown.likeCount), hasListener).state.shown
        == first.state.shown
  {
  }

  /** Two settled clicks whose server echoes the optimistic values return to the start. */
  lemma ClickTwiceIsIdentity(s: State, postId: int, hasListener: bool)
    requires !IsLoading(s)
    ensures var a := Click(s, postId).state;
      var b := Complete(a, Success(a.shown.isLiked, a.shown.likeCount), hasListener).state;
      var c := Click(b, postId).state;
      Complete(c, Success(c.shown.isLiked, c.shown.likeCount), hasListener).state == s
  {
  }
}
