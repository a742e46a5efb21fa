/**
 * The like button of `src/components/icebreaker/ThermometerLike.tsx`: the
 * component's `likes` and `isLiked` state and the click handler that toggles
 * the like and reports it through `onLike`. The temperature, progress and hue
 * derived from `likes` for display are not modelled.
 */
module ThermometerLike {

  class LikeButton {
    const initialLikeCount: int
    var likes: int
    var isLiked: bool
    /** How many times `onLike` has been called. */
    var onLikeCalls: nat

    /** The count shown is the initial count plus the user's own like. */
    ghost predicate Valid()
      reads this
    {
      likes == initialLikeCount + (if isLiked then 1 else 0)
    }

    constructor (initialLikeCount: int)
      ensures this.initialLikeCount == initialLikeCount
      ensures likes == initialLikeCount && !isLiked && onLikeCalls == 0
      ensures Valid()
    {
      this.initialLikeCount := initialLikeCount;
      likes := initialLikeCount;
      isLiked := false;
      onLikeCalls := 0;
    }

    /** `handleLikeClick`: unlike when liked, like otherwise, and call `onLike` once. */
    method HandleLikeClick()
      requires Valid()
      modifies this
      ensures Valid()
      ensures isLiked == !old(isLiked)
      ensures likes == if old(isLiked) then old(likes) - 1 else old(likes) + 1
      ensures onLikeCalls == old(onLikeCalls) + 1
    {
      var newLikes := if isLiked then likes - 1 else likes + 1;
      likes := newLikes;
      isLiked := !isLiked;
      onLikeCalls := onLikeCalls + 1;
    }
  }

  /** Two clicks in a row restore the count and the like, and report two likes. */
  method DoubleClick(button: LikeButton)
    requires button.Valid()
    modifies button
    ensures button.Valid()
    ensures button.likes == old(button.likes) && button.isLiked == old(button.isLiked)
    ensures button.onLikeCalls == old(button.onLikeCalls) + 2
  {
    button.HandleLikeClick();
    button.HandleLikeClick();
  }
}
