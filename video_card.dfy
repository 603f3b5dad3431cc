/**
 * The like button of a video card: an optimistic toggle of the liked flag and
 * the displayed count, the insert or delete of the like row, and the rollback
 * when that write fails.
 */
module LikeToggle {
  import opened Wrappers

  /** The two state slots of the card: `localLiked` and `likesCount`. */
  datatype LikeState = LikeState(liked: bool, count: int)

  /** The optimistic step: the flag is negated, and the count moves one up
      for a like and one down for an unlike, with no floor at zero. */
  function Optimistic(pre: LikeState): (post: LikeState)
    ensures post.liked != pre.liked
    ensures post.count - pre.count == (if post.liked then 1 else -1)
  {
    var newLiked := !pre.liked;
    LikeState(newLiked, if newLiked then pre.count + 1 else pre.count - 1)
  }

  /** The rollback after a failed write, as the code computes it from the
      state captured when the handler started: the flag goes back, but after
      a failed unlike the count is set one above its pre-toggle value. */
  function Rollback(pre: LikeState): (post: LikeState)
    ensures post.liked == pre.liked
    ensures post.count == pre.count + (if pre.liked then 1 else 0)
  {
    if !pre.liked then LikeState(false, pre.count) else LikeState(true, pre.count + 1)
  }

  /** The state the handler leaves, from the pre-toggle state and whether the
      remote write succeeded. */
  function Settle(pre: LikeState, writeOk: bool): (post: LikeState)
    ensures post.liked == (pre.liked != writeOk)
    ensures writeOk ==> post.count == pre.count + (if pre.liked then -1 else 1)
    ensures !writeOk ==> post.count == pre.count + (if pre.liked then 1 else 0)
  {
    if writeOk then Optimistic(pre) else Rollback(pre)
  }

  /** The rollback that restores the pre-toggle state on both paths: the
      code's rollback with the failed-unlike count set to the captured count,
      as the failed-like branch already does. */
  function RollbackIntended(pre: LikeState): (post: LikeState)
    ensures post == pre
  {
    if !pre.liked then LikeState(false, pre.count) else LikeState(true, pre.count)
  }

  function SettleIntended(pre: LikeState, writeOk: bool): LikeState {
    if writeOk then Optimistic(pre) else RollbackIntended(pre)
  }

  /** Two successful toggles give back the state they started from. */
  lemma OptimisticInvolution(s: LikeState)
    ensures Optimistic(Optimistic(s)) == s
  {
  }

  /** A failed like restores the pre-toggle state exactly. */
  lemma FailedLikeRestores(pre: LikeState)
    requires !pre.liked
    ensures Settle(pre, false) == pre
  {
  }

  /** A failed unlike does not: the count ends one above where it started,
      two above the optimistic value it rolls back from. */
  lemma FailedUnlikeOvershoots(pre: LikeState)
    requires pre.liked
    ensures Settle(pre, false) == LikeState(true, pre.count + 1)
    ensures Settle(pre, false) != pre
    ensures Settle(pre, false).count == Optimistic(pre).count + 2
  {
  }

  /** With the intended rollback every failed write restores the pre-toggle
      state, and a successful one keeps the optimistic state. */
  lemma SettleIntendedRestores(pre: LikeState, writeOk: bool)
    ensures !writeOk ==> SettleIntended(pre, writeOk) == pre
    ensures writeOk ==> SettleIntended(pre, writeOk) == Optimistic(pre)
  {
  }

  /** The write the toggle issues for the (user, video) pair. */
  datatype LikeRequest = InsertLike(userId: string, videoId: string) | DeleteLike(userId: string, videoId: string)

  /** A like issues an insert, an unlike a delete. */
  function RequestFor(userId: string, videoId: string, newLiked: bool): (req: LikeRequest)
    ensures req.InsertLike? <==> newLiked
    ensures req.userId == userId && req.videoId == videoId
  {
    if newLiked then InsertLike(userId, videoId) else DeleteLike(userId, videoId)
  }

  /** `currentUserId` is truthy: present and not the empty string. */
  predicate SignedIn(currentUserId: Option<string>): (b: bool)
    ensures b ==> currentUserId.Some? && |currentUserId.value| > 0
    ensures currentUserId == Some("") ==> !b
  {
    currentUserId.Some? && currentUserId.value != ""
  }

  /** The error notices the handler can raise. */
  datatype Notice = LoginRequired | LikeFailed | UnlikeFailed

  /** A toggle in flight: the state captured when the handler started (the
      closure's `localLiked` and `likesCount`) and the write it issued. */
  datatype PendingLike = PendingLike(pre: LikeState, request: LikeRequest)

  /** What one run of the handler did besides changing the state: the write
      it issued, the notice it showed, and how often it called
      `onLikeChange`. */
  datatype LikeEffect = LikeEffect(request: Option<LikeRequest>, notice: Option<Notice>, likeChangeCalls: nat)

  /** One video card's like button. */
  class VideoCard {
    const videoId: string
    const currentUserId: Option<string>
    var localLiked: bool
    var likesCount: int

    function State(): LikeState
      reads this
    {
      LikeState(localLiked, likesCount)
    }

    /** The slots start from the `isLiked` prop and the video's like count. */
    constructor (videoId: string, likesCountProp: int, isLiked: bool, currentUserId: Option<string>)
      ensures State() == LikeState(isLiked, likesCountProp)
      ensures this.videoId == videoId && this.currentUserId == currentUserId
    {
      this.videoId := videoId;
      this.currentUserId := currentUserId;
      localLiked := isLiked;
      likesCount := likesCountProp;
    }

    /** The part of `handleLike` before the write resolves: with no user (an
        absent or empty id) nothing changes; otherwise the state moves to the optimistic one and
        the write for the new flag is issued. */
    method BeginLike() returns (pending: Option<PendingLike>)
      modifies this
      ensures !SignedIn(currentUserId) ==> pending.None? && State() == old(State())
      ensures SignedIn(currentUserId) ==>
                pending == Some(PendingLike(old(State()), RequestFor(currentUserId.value, videoId, !old(localLiked))))
                && State() == Optimistic(old(State()))
    {
      if currentUserId.None? || currentUserId.value == "" {
        return None;
      }
      var pre := State();
      var newLikedState := !localLiked;
      localLiked := newLikedState;
      likesCount := if newLikedState then pre.count + 1 else pre.count - 1;
      var request: LikeRequest;
      if newLikedState {
        request := InsertLike(currentUserId.value, videoId);
      } else {
        request := DeleteLike(currentUserId.value, videoId);
      }
      return Some(PendingLike(pre, request));
    }

    /** The part after the write resolves: a failure rolls back from the
        captured state and raises a notice; a success keeps the state. */
    method FinishLike(pending: PendingLike, writeOk: bool) returns (notice: Option<Notice>)
      modifies this
      ensures writeOk ==> State() == old(State()) && notice.None?
      ensures !writeOk ==> State() == Rollback(pending.pre)
      ensures !writeOk ==> notice == Some(if pending.pre.liked then UnlikeFailed else LikeFailed)
    {
      if writeOk {
        return None;
      }
      var newLikedState := !pending.pre.liked;
      if newLikedState {
        localLiked := false;
        likesCount := pending.pre.count;
        notice := Some(LikeFailed);
      } else {
        localLiked := true;
        likesCount := pending.pre.count + 1;
        notice := Some(UnlikeFailed);
      }
    }

    /** `handleLike` from start to end, the write's outcome given: without a
        user only the login notice; with one, exactly one write for the pair,
        the state the toggle settles in, and one call of `onLikeChange`
        whatever the outcome. */
    method HandleLike(writeOk: bool) returns (effect: LikeEffect)
      modifies this
      ensures !SignedIn(currentUserId) ==>
                effect == LikeEffect(None, Some(LoginRequired), 0) && State() == old(State())
      ensures SignedIn(currentUserId) ==>
                effect.request == Some(RequestFor(currentUserId.value, videoId, !old(localLiked)))
                && effect.likeChangeCalls == 1
                && State() == Settle(old(State()), writeOk)
                && effect.notice == (if writeOk then None else Some(if old(localLiked) then UnlikeFailed else LikeFailed))
    {
      var pending := BeginLike();
      if pending.None? {
        return LikeEffect(None, Some(LoginRequired), 0);
      }
      var notice := FinishLike(pending.value, writeOk);
      return LikeEffect(Some(pending.value.request), notice, 1);
    }
  }
}
