/**
 * The figures of the current user's profile page, `src/app/profile/page.tsx`:
 * their entries, the number of comments they wrote, the ice-level progress
 * and status line, and the recent-activity list.
 */
module Profile {
  import opened Wrappers
  import opened Types
  import Seqs

  /** `mockEntries.filter(entry => entry.authorId === userId)`. */
  function UserEntries(entries: seq<Entry>, userId: string): (r: seq<Entry>)
    ensures |r| <= |entries|
    ensures forall e :: e in r <==> e in entries && e.authorId == userId
    ensures forall e :: multiset(r)[e] == if e.authorId == userId then multiset(entries)[e] else 0
  {
    if entries == [] then []
    else
      var rest := UserEntries(entries[1..], userId);
      assert entries == [entries[0]] + entries[1..];
      if entries[0].authorId == userId then [entries[0]] + rest else rest
  }

  /** The filter keeps store order: it distributes over concatenation. */
  lemma {:induction false} UserEntriesAppend(a: seq<Entry>, b: seq<Entry>, userId: string)
    ensures UserEntries(a + b, userId) == UserEntries(a, userId) + UserEntries(b, userId)
  {
    if a == [] {
      assert a + b == b;
    } else {
      assert (a + b)[0] == a[0] && (a + b)[1..] == a[1..] + b;
      UserEntriesAppend(a[1..], b, userId);
    }
  }

  /** The number of comments in `comments` written by `userId`. */
  function CommentsBy(comments: seq<Comment>, userId: string): (r: nat)
    ensures r <= |comments|
  {
    if comments == [] then 0
    else (if comments[0].authorId == userId then 1 else 0) + CommentsBy(comments[1..], userId)
  }

  lemma {:induction false} CommentsByAppend(a: seq<Comment>, b: seq<Comment>, userId: string)
    ensures CommentsBy(a + b, userId) == CommentsBy(a, userId) + CommentsBy(b, userId)
  {
    if a == [] {
      assert a + b == b;
    } else {
      assert (a + b)[0] == a[0] && (a + b)[1..] == a[1..] + b;
      CommentsByAppend(a[1..], b, userId);
    }
  }

  /**
   * `userCommentsCount`: the reduce that adds up, entry by entry, the user's
   * comments on it. It counts the user's comments among all comments of all
   * entries.
   */
  function UserCommentsCount(entries: seq<Entry>, userId: string): (r: nat)
    ensures r == CommentsBy(AllComments(entries), userId)
    ensures r <= |AllComments(entries)|
  {
    if entries == [] then 0
    else
      var init, last := entries[..|entries| - 1], entries[|entries| - 1];
      assert entries == init + [last];
      Seqs.FlatMapAppend(init, [last], EntryComments);
      assert AllComments([last]) == last.comments;
      CommentsByAppend(AllComments(init), last.comments, userId);
      UserCommentsCount(init, userId) + CommentsBy(last.comments, userId)
  }

  /** `100 - iceLevel`: how far the ice has melted. */
  function IceLevelProgress(iceLevel: int): (r: int)
    ensures 0 <= iceLevel <= 100 ==> 0 <= r <= 100
    ensures r == 100 <==> iceLevel == 0
    ensures r == 0 <==> iceLevel == 100
  {
    100 - iceLevel
  }

  const FullyMelted := "Fully Melted! You're on fire!"
  const StillFrozen := "Still Frozen! Time to break the ice."
  const KeepMelting := "Keep melting that ice!"

  /** The status line under the ice-level bar. */
  function StatusMessage(iceLevel: int): (r: string)
    ensures r == FullyMelted <==> iceLevel == 0
    ensures r == StillFrozen <==> iceLevel == 100
    ensures r == KeepMelting <==> iceLevel != 0 && iceLevel != 100
    ensures r in {FullyMelted, StillFrozen, KeepMelting}
  {
    if iceLevel == 0 then FullyMelted
    else if iceLevel == 100 then StillFrozen
    else KeepMelting
  }

  /** The status line agrees with the progress bar: melted at a full bar, frozen at an empty one. */
  lemma StatusMatchesProgress(iceLevel: int)
    ensures StatusMessage(iceLevel) == FullyMelted <==> IceLevelProgress(iceLevel) == 100
    ensures StatusMessage(iceLevel) == StillFrozen <==> IceLevelProgress(iceLevel) == 0
    ensures StatusMessage(iceLevel) == KeepMelting <==> 0 < IceLevelProgress(iceLevel) < 100 || iceLevel < 0 || iceLevel > 100
  {
  }

  const RecentActivitySize: nat := 5

  /** `userEntries.slice(0, 5)`. */
  function RecentActivity(userEntries: seq<Entry>): (r: seq<Entry>)
    ensures |r| == Seqs.Min(RecentActivitySize, |userEntries|)
    ensures Seqs.IsPrefix(r, userEntries)
  {
    if |userEntries| <= RecentActivitySize then userEntries else userEntries[..RecentActivitySize]
  }

  /** What the page shows. */
  datatype ProfileView =
    | NotLoggedIn
    | Shown(user: User, entriesPosted: nat, commentsMade: nat, progress: int, status: string, recent: seq<Entry>)

  /** The page for the current user over a snapshot of `mockEntries`. */
  function View(currentUser: Option<User>, entries: seq<Entry>): (r: ProfileView)
    ensures r.NotLoggedIn? <==> currentUser.None?
    ensures r.Shown? ==>
      && r.user == currentUser.value
      && r.entriesPosted == |UserEntries(entries, r.user.id)| <= |entries|
      && r.commentsMade == CommentsBy(AllComments(entries), r.user.id)
      && r.progress == IceLevelProgress(r.user.iceLevel)
      && (IceLevelInRange(r.user) ==> 0 <= r.progress <= 100)
      && r.status == StatusMessage(r.user.iceLevel)
      && r.recent == RecentActivity(UserEntries(entries, r.user.id))
      && |r.recent| <= RecentActivitySize
      && forall e | e in r.recent :: e in entries && e.authorId == r.user.id
  {
    match currentUser
    case None => NotLoggedIn
    case Some(user) =>
      var mine := UserEntries(entries, user.id);
      Shown(user, |mine|, UserCommentsCount(entries, user.id), IceLevelProgress(user.iceLevel),
            StatusMessage(user.iceLevel), RecentActivity(mine))
  }
}
