/**
 * The two rankings of `src/app/leaderboard/page.tsx`: a copy of the users
 * sorted by activity score (absent counts as 0) and a copy of the icebreakers
 * sorted by interaction count, each cut to the first ten. Both sorts are
 * stable, as `Array.prototype.sort` is from ECMAScript 2019 on.
 */
module Leaderboard {
  import opened Types
  import Seqs

  const LeaderboardSize: nat := 10

  function IcebreakerInteractions(ib: Icebreaker): int { ib.interactionCount }

  /** `sortedUsers`: the ten most active users, most active first, ties in store order. */
  function SortedUsers(users: seq<User>): (r: seq<User>)
    ensures |r| == Seqs.Min(LeaderboardSize, |users|)
    ensures Seqs.SortedDesc(r, ScoreOrZero)
    ensures multiset(r) <= multiset(users)
    ensures forall x, y :: x in multiset(r) && y in multiset(users) - multiset(r) ==> ScoreOrZero(y) <= ScoreOrZero(x)
    ensures forall k :: Seqs.IsPrefix(Seqs.WithKey(r, ScoreOrZero, k), Seqs.WithKey(users, ScoreOrZero, k))
  {
    Seqs.TopK(users, ScoreOrZero, LeaderboardSize)
  }

  /** `sortedIcebreakers`: the ten icebreakers with the most interactions, ties in store order. */
  function SortedIcebreakers(ibs: seq<Icebreaker>): (r: seq<Icebreaker>)
    ensures |r| == Seqs.Min(LeaderboardSize, |ibs|)
    ensures Seqs.SortedDesc(r, IcebreakerInteractions)
    ensures multiset(r) <= multiset(ibs)
    ensures forall x, y :: x in multiset(r) && y in multiset(ibs) - multiset(r) ==> y.interactionCount <= x.interactionCount
    ensures forall k :: Seqs.IsPrefix(Seqs.WithKey(r, IcebreakerInteractions, k), Seqs.WithKey(ibs, IcebreakerInteractions, k))
  {
    Seqs.TopK(ibs, IcebreakerInteractions, LeaderboardSize)
  }

  /**
   * The ranking is determined: the sorted copy before the cut is the only
   * ordering that is non-increasing and keeps ties in store order.
   */
  lemma SortedUsersDetermined(users: seq<User>, t: seq<User>)
    requires multiset(t) == multiset(users)
    requires Seqs.SortedDesc(t, ScoreOrZero) && Seqs.StableFor(t, users, ScoreOrZero)
    ensures SortedUsers(users) == t[..Seqs.Min(LeaderboardSize, |t|)]
  {
    assert |t| == |multiset(t)| == |multiset(users)| == |users|;
    Seqs.SortDescUnique(users, t, ScoreOrZero);
  }

  /** The store keeps its users sorted by score, so the leaderboard is their first ten. */
  lemma SortedUsersOfSortedStore(users: seq<User>)
    requires Seqs.SortedDesc(users, ScoreOrZero)
    ensures SortedUsers(users) == users[..Seqs.Min(LeaderboardSize, |users|)]
  {
    Seqs.TopKOfSorted(users, ScoreOrZero, LeaderboardSize);
  }

  /** Ranking a ranking changes nothing. */
  lemma SortedUsersIdempotent(users: seq<User>)
    ensures SortedUsers(SortedUsers(users)) == SortedUsers(users)
  {
    var r := SortedUsers(users);
    Seqs.TopKOfSorted(r, ScoreOrZero, LeaderboardSize);
    assert r[..|r|] == r;
  }

  lemma SortedIcebreakersIdempotent(ibs: seq<Icebreaker>)
    ensures SortedIcebreakers(SortedIcebreakers(ibs)) == SortedIcebreakers(ibs)
  {
    var r := SortedIcebreakers(ibs);
    Seqs.TopKOfSorted(r, IcebreakerInteractions, LeaderboardSize);
    assert r[..|r|] == r;
  }
}
