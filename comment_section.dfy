/**
 * The comment box of `src/components/icebreaker/CommentSection.tsx`: the
 * `comments`, `newCommentText` and `isLoading` state, the submit handler, and
 * the deferred step that posts the comment. The handler schedules the post
 * with a timer; here the scheduled posts wait in `pending`, each with the text
 * and author it captured, and `CompletePost` runs the oldest of them.
 */
module CommentSection {
  import opened Wrappers
  import opened Types
  import opened Strings

  datatype PendingPost = PendingPost(text: string, author: User)

  /**
   * The post button is disabled while a post is in flight or the text is
   * blank: exactly when loading or when the text is only white space.
   */
  predicate PostDisabled(isLoading: bool, text: string)
    ensures PostDisabled(isLoading, text) <==> isLoading || forall k :: 0 <= k < |text| ==> IsJsSpace(text[k])
  {
    TrimEmptyIffBlank(text);
    isLoading || Trim(text) == []
  }

  class CommentBox {
    const entryId: string
    var comments: seq<Comment>
    var newCommentText: string
    var isLoading: bool
    var pending: seq<PendingPost>
    /** The comments passed to `onCommentAdded`, in call order. */
    var added: seq<Comment>

    constructor (entryId: string, initialComments: seq<Comment>)
      ensures this.entryId == entryId && comments == initialComments
      ensures newCommentText == [] && !isLoading && pending == [] && added == []
    {
      this.entryId := entryId;
      comments := initialComments;
      newCommentText := [];
      isLoading := false;
      pending := [];
      added := [];
    }

    /** Typing in the text area. */
    method SetText(text: string)
      modifies this
      ensures newCommentText == text
      ensures comments == old(comments) && isLoading == old(isLoading) && pending == old(pending) && added == old(added)
    {
      newCommentText := text;
    }

    /**
     * `handleSubmitComment`: nothing happens when the text is blank or no one is
     * logged in; otherwise loading starts and a post of the current text by the
     * current user is scheduled.
     */
    method HandleSubmitComment(currentUser: Option<User>)
      modifies this
      ensures Trim(old(newCommentText)) == [] || currentUser.None? ==>
        comments == old(comments) && newCommentText == old(newCommentText) && isLoading == old(isLoading)
        && pending == old(pending) && added == old(added)
      ensures Trim(old(newCommentText)) != [] && currentUser.Some? ==>
        && isLoading
        && pending == old(pending) + [PendingPost(old(newCommentText), currentUser.value)]
        && comments == old(comments) && newCommentText == old(newCommentText) && added == old(added)
    {
      if Trim(newCommentText) == [] || currentUser.None? {
        return;
      }
      isLoading := true;
      pending := pending + [PendingPost(newCommentText, currentUser.value)];
    }

    /**
     * The timer callback: the new comment (id from the clock reading `stamp`)
     * goes on top of the list, `onCommentAdded` receives it, the text is
     * cleared and loading stops.
     */
    method CompletePost(stamp: nat, createdAt: int) returns (c: Comment)
      requires pending != []
      modifies this
      ensures c == Comment("comment-" + NatToString(stamp), entryId, old(pending)[0].author.id, old(pending)[0].text, createdAt)
      ensures comments == [c] + old(comments)
      ensures added == old(added) + [c]
      ensures newCommentText == [] && !isLoading
      ensures pending == old(pending)[1..]
    {
      var post := pending[0];
      c := Comment("comment-" + NatToString(stamp), entryId, post.author.id, post.text, createdAt);
      comments := [c] + comments;
      added := added + [c];
      newCommentText := [];
      isLoading := false;
      pending := pending[1..];
    }
  }

  /** A submit followed by its post adds exactly one comment, by the user, with the untrimmed text, on top. */
  method SubmitAndPost(box: CommentBox, user: User, stamp: nat, createdAt: int) returns (posted: bool)
    requires box.pending == []
    modifies box
    ensures posted <==> Trim(old(box.newCommentText)) != []
    ensures !posted ==> box.comments == old(box.comments) && box.added == old(box.added)
    ensures posted ==>
      var c := Comment("comment-" + NatToString(stamp), box.entryId, user.id, old(box.newCommentText), createdAt);
      box.comments == [c] + old(box.comments) && box.added == old(box.added) + [c]
      && box.newCommentText == [] && !box.isLoading && box.pending == []
  {
    box.HandleSubmitComment(Some(user));
    if box.pending == [] {
      return false;
    }
    var c := box.CompletePost(stamp, createdAt);
    return true;
  }
}
