/**
 * The in-memory activity store of `src/lib/mock-data.ts`: the module-level
 * arrays of users, icebreakers, entries and comments, the seed that fills
 * them once at start-up, the lookups, and the two operations that add
 * icebreakers and entries while keeping each icebreaker's `interactionCount`
 * equal to the likes plus comments over its entries.
 *
 * The arrays are the sequence fields of one `Store` object. Records are
 * values: an entry stored in an icebreaker's `entries` and in the flat
 * `entries` list is written to both at the same time with the same value,
 * and `Valid()` ties the two lists together.
 */
module MockData {
  import opened Wrappers
  import opened Types
  import opened Strings
  import Seqs

  const MockUsersCount := 20
  const MockIcebreakersCount := 5
  const MockEntriesPerIcebreakerMin := 1
  const MockEntriesPerIcebreakerMax := 3
  const MockCommentsPerEntryMin := 0
  const MockCommentsPerEntryMax := 3

  datatype Prompt = Prompt(title: string, description: string)

  const SamplePrompts: seq<Prompt> := [
    Prompt("Desk Snapshot", "Share a photo of your current workspace setup. What's your favorite item on your desk?"),
    Prompt("Dream Vacation", "If you could teleport anywhere for a week, where would you go and why?"),
    Prompt("Hidden Talent", "What's a surprising skill or talent you have that most people don't know about?"),
    Prompt("Favorite Comfort Food", "What's your go-to comfort food and a quick story about why it's special to you?"),
    Prompt("Throwback Photo", "Post a photo of yourself from a memorable past event or trip. No context needed initially!"),
    Prompt("Two Truths and a Lie", "Share two true statements and one lie about yourself. Let others guess!"),
    Prompt("Current Read/Watch", "What book are you currently reading or show are you binge-watching?")
  ]

  const PromptTitles: set<string> := {
    "Desk Snapshot", "Dream Vacation", "Hidden Talent", "Favorite Comfort Food",
    "Throwback Photo", "Two Truths and a Lie", "Current Read/Watch"
  }

  // ---------------------------------------------------------------------------
  // Random draws. `Math.random()` is a nondeterministic real in [0, 1).
  // ---------------------------------------------------------------------------

  /** `getRandomInt(min, max)` for the draw `u`: `Math.floor(u * (max - min + 1)) + min`. */
  function RandomIntFrom(u: real, min: int, max: int): (r: int)
    requires 0.0 <= u < 1.0 && min <= max
    ensures min <= r <= max
  {
    (u * (max - min + 1) as real).Floor + min
  }

  /** Every value of the range is produced by some draw. */
  lemma RandomIntFromCovers(min: int, max: int, r: int)
    requires min <= r <= max
    ensures var u := (r - min) as real / (max - min + 1) as real;
      0.0 <= u < 1.0 && RandomIntFrom(u, min, max) == r
  {
  }

  method RandomInt(min: int, max: int) returns (r: int)
    requires min <= max
    ensures min <= r <= max
  {
    var u: real :| 0.0 <= u < 1.0;
    r := RandomIntFrom(u, min, max);
  }

  /** A `Date` built from a fractional millisecond count keeps its integer part (truncation toward zero). */
  function TruncateToInt(x: real): (r: int)
    ensures x >= 0.0 ==> r as real <= x < r as real + 1.0
    ensures x < 0.0 ==> r as real - 1.0 < x <= r as real
  {
    if x >= 0.0 then x.Floor else -((-x).Floor)
  }

  /** `getRandomDate(start, end)`: `new Date(start + Math.random() * (end - start))`. */
  method RandomDate(start: int, end: int) returns (d: int)
    requires start <= end
    ensures start <= d <= end
  {
    var u: real :| 0.0 <= u < 1.0;
    var span := (end - start) as real;
    MulAtMost(u, span);
    var x := start as real + u * span;
    assert span == end as real - start as real;
    assert start as real <= x <= start as real + span;
    d := TruncateToInt(x);
    TruncateBetween(x, start, end);
  }

  /** Truncating a value that lies between two integers stays between them. */
  lemma TruncateBetween(x: real, lo: int, hi: int)
    requires lo as real <= x <= hi as real
    ensures lo <= TruncateToInt(x) <= hi
  {
    var r := TruncateToInt(x);
    if x >= 0.0 {
      assert r as real <= hi as real;
      assert (lo - 1) as real < r as real;
    } else {
      assert lo as real < (r + 1) as real;
      assert r as real <= hi as real;
    }
  }

  lemma MulAtMost(u: real, x: real)
    requires 0.0 <= u < 1.0 && 0.0 <= x
    ensures 0.0 <= u * x <= x
  {
    assert x - u * x == (1.0 - u) * x;
  }

  /** `Math.random() > threshold`. */
  method RandomAbove(threshold: real) returns (b: bool)
    ensures b ==> threshold < 1.0
    ensures !b ==> threshold >= 0.0
  {
    var u: real :| 0.0 <= u < 1.0;
    b := u > threshold;
  }

  // ---------------------------------------------------------------------------
  // Lookups
  // ---------------------------------------------------------------------------

  function HasUserId(id: string): User -> bool { (u: User) => u.id == id }
  function HasIcebreakerId(id: string): Icebreaker -> bool { (ib: Icebreaker) => ib.id == id }
  function IsAdmin(u: User): bool { u.role == Admin }

  /** `getMockUserById`: the first user with the given id. */
  function GetMockUserById(users: seq<User>, id: string): (r: Option<User>)
    ensures r.None? <==> forall u | u in users :: u.id != id
    ensures r.Some? ==> r.value.id == id
    ensures r.Some? ==> exists i :: 0 <= i < |users| && users[i] == r.value && forall j :: 0 <= j < i ==> users[j].id != id
  {
    match Seqs.FindIndex(users, HasUserId(id))
    case None => None
    case Some(i) => Some(users[i])
  }

  /** The position `getMockIcebreakerById` finds: the first icebreaker with the given id. */
  function IcebreakerIndex(ibs: seq<Icebreaker>, id: string): (r: Option<nat>)
    ensures r.Some? ==> r.value < |ibs| && ibs[r.value].id == id && forall j :: 0 <= j < r.value ==> ibs[j].id != id
    ensures r.None? ==> forall j :: 0 <= j < |ibs| ==> ibs[j].id != id
  {
    Seqs.FindIndex(ibs, HasIcebreakerId(id))
  }

  /** `getMockIcebreakerById`: the first icebreaker with the id, found at `IcebreakerIndex`. */
  function GetMockIcebreakerById(ibs: seq<Icebreaker>, id: string): (r: Option<Icebreaker>)
    ensures r.None? <==> forall ib | ib in ibs :: ib.id != id
    ensures r.Some? ==> r.value in ibs && r.value.id == id
    ensures r.Some? <==> IcebreakerIndex(ibs, id).Some?
    ensures r.Some? ==> r.value == ibs[IcebreakerIndex(ibs, id).value]
  {
    match IcebreakerIndex(ibs, id)
    case None => None
    case Some(i) => Some(ibs[i])
  }

  /** `currentMockUser`: the first admin, otherwise the first user (none when there are no users). */
  function CurrentMockUser(users: seq<User>): (r: Option<User>)
    ensures (exists u | u in users :: u.role == Admin) ==> r.Some? && r.value.role == Admin
    ensures (exists u | u in users :: u.role == Admin) ==>
      exists i :: 0 <= i < |users| && users[i] == r.value && forall j :: 0 <= j < i ==> users[j].role != Admin
    ensures (forall u | u in users :: u.role != Admin) ==>
      r == if users == [] then None else Some(users[0])
  {
    match Seqs.FindIndex(users, IsAdmin)
    case Some(i) => Some(users[i])
    case None => if users == [] then None else Some(users[0])
  }

  // ---------------------------------------------------------------------------
  // What the seed produces
  // ---------------------------------------------------------------------------

  function UserIds(users: seq<User>): set<string>
  {
    set u | u in users :: u.id
  }

  function AdminWeight(u: User): int { if u.role == Admin then 1 else 0 }

  /** The number of admins in `users`. */
  function AdminCount(users: seq<User>): int
  {
    Seqs.SumBy(users, AdminWeight)
  }

  /** The `i`-th user (0-based) as `Array.from` builds it. */
  ghost predicate SeededUser(u: User, i: nat)
  {
    && u.id == "user-" + NatToString(i + 1)
    && u.role == (if i == 0 then Admin else Employee)
    && IceLevelInRange(u)
    && u.activityScore.Some? && 10 <= u.activityScore.value <= 200
  }

  /** The id the seed gives its `i`-th user. */
  function SeededUserId(i: nat): string
  {
    "user-" + NatToString(i + 1)
  }

  /** The ids `user-1` … `user-20` the seed hands out. */
  ghost function SeededUserIds(): set<string>
  {
    set i: nat | i < MockUsersCount :: SeededUserId(i)
  }

  /**
   * The seeded users once sorted: 20 of them with the ids `user-1` … `user-20`,
   * in range, one admin (`user-1`), best score first.
   */
  ghost predicate SeededUsers(users: seq<User>)
  {
    && |users| == MockUsersCount
    && UserIds(users) == SeededUserIds()
    && (forall u | u in users ::
          && IceLevelInRange(u)
          && u.activityScore.Some? && 10 <= u.activityScore.value <= 200
          && (u.role == Admin ==> u.id == "user-1"))
    && AdminCount(users) == 1
    && Seqs.SortedDesc(users, ScoreOrZero)
  }

  ghost predicate SeededComment(c: Comment, entryId: string, entryCreatedAt: int, userIds: set<string>, now: int)
  {
    && c.entryId == entryId
    && IdUnder(c.id, entryId, "-comment-")
    && c.authorId in userIds
    && entryCreatedAt <= c.createdAt <= now
  }

  ghost predicate SeededEntry(e: Entry, icebreakerId: string, icebreakerCreatedAt: int, userIds: set<string>, now: int)
  {
    && e.icebreakerId == icebreakerId
    && IdUnder(e.id, icebreakerId, "-entry-")
    && Seqs.DistinctBy(e.comments, CommentId)
    && e.authorId in userIds
    && icebreakerCreatedAt <= e.createdAt <= now
    && 0 <= e.likeCount <= 50
    && MockCommentsPerEntryMin <= |e.comments| <= MockCommentsPerEntryMax
    && forall c | c in e.comments :: SeededComment(c, e.id, e.createdAt, userIds, now)
  }

  ghost predicate SeededIcebreaker(ib: Icebreaker, userIds: set<string>, start: int, now: int)
  {
    && Prompt(ib.title, ib.description) in SamplePrompts
    && IcebreakerIdShaped(ib.id)
    && Seqs.DistinctBy(ib.entries, EntryId)
    && ib.authorId in userIds
    && start <= ib.createdAt <= now
    && MockEntriesPerIcebreakerMin <= |ib.entries| <= MockEntriesPerIcebreakerMax
    && (forall e | e in ib.entries :: SeededEntry(e, ib.id, ib.createdAt, userIds, now))
    && Seqs.SortedDesc(ib.entries, EntryCreatedAt)
    && CountConsistent(ib)
  }

  // ---------------------------------------------------------------------------
  // Seeded ids: `icebreaker-<i>`, `<icebreaker>-entry-<j>`, `<entry>-comment-<k>`
  // ---------------------------------------------------------------------------

  /** `id` is `parent + tag` followed by a non-empty run of decimal digits. */
  ghost predicate IdUnder(id: string, parent: string, tag: string)
  {
    var n := |parent| + |tag|;
    n < |id| && id[..n] == parent + tag && AllDigits(id[n..])
  }

  lemma IdUnderOf(parent: string, tag: string, k: nat)
    ensures IdUnder(parent + tag + NatToString(k), parent, tag)
  {
    var id := parent + tag + NatToString(k);
    assert id[..|parent| + |tag|] == parent + tag;
    assert id[|parent| + |tag|..] == NatToString(k);
  }

  ghost predicate IcebreakerIdShaped(id: string)
  {
    IdUnder(id, "", "icebreaker-")
  }

  /** A seeded entry, with the shapes of its own id, its icebreaker's and its comments'. */
  ghost predicate EntryWellNamed(e: Entry)
  {
    && IcebreakerIdShaped(e.icebreakerId)
    && IdUnder(e.id, e.icebreakerId, "-entry-")
    && Seqs.DistinctBy(e.comments, CommentId)
    && forall c | c in e.comments :: c.entryId == e.id && IdUnder(c.id, e.id, "-comment-")
  }

  /** The number an id `parent + tag + <digits>` ends with. */
  ghost function NumberUnder(id: string, parent: string, tag: string): nat
    requires IdUnder(id, parent, tag)
  {
    DigitsValue(id[|parent| + |tag|..])
  }

  /** An id `parent + tag + <digits>` splits into its prefix and its digits. */
  lemma IdParts(id: string, parent: string, tag: string)
    requires IdUnder(id, parent, tag)
    ensures id == parent + tag + id[|parent| + |tag|..]
  {
    assert id == id[..|parent| + |tag|] + id[|parent| + |tag|..];
  }

  /**
   * Appending an id numbered `n` to ids under the same prefix that all carry
   * smaller numbers keeps them distinct, and no earlier id equals the new one.
   */
  lemma NumberedStep<T>(s: seq<T>, x: T, id: T -> string, parent: string, tag: string, n: nat)
    requires Seqs.DistinctBy(s, id)
    requires forall y | y in s :: IdUnder(id(y), parent, tag) && NumberUnder(id(y), parent, tag) < n
    requires id(x) == parent + tag + NatToString(n)
    ensures forall y | y in s :: id(y) != id(x)
    ensures Seqs.DistinctBy(s + [x], id)
    ensures forall y | y in s + [x] :: IdUnder(id(y), parent, tag) && NumberUnder(id(y), parent, tag) <= n
  {
    IdUnderOf(parent, tag, n);
    assert id(x)[|parent| + |tag|..] == NatToString(n);
    assert NumberUnder(id(x), parent, tag) == n;
    forall i, j | 0 <= i < |s| && 0 <= j < |[x]| ensures id(s[i]) != id([x][j]) {
      assert s[i] in s;
    }
    Seqs.DistinctByAppend(s, [x], id);
  }

  /** Two icebreaker ids followed by non-digit tails: the ids and the tails agree. */
  lemma IcebreakerIdSplit(p1: string, t1: string, p2: string, t2: string)
    requires IcebreakerIdShaped(p1) && IcebreakerIdShaped(p2)
    requires t1 != [] && !IsDigit(t1[0]) && t2 != [] && !IsDigit(t2[0])
    ensures p1 + t1 == p2 + t2 ==> p1 == p2 && t1 == t2
  {
    if p1 + t1 == p2 + t2 {
      var n1, n2 := p1[11..], p2[11..];
      IdParts(p1, "", "icebreaker-");
      IdParts(p2, "", "icebreaker-");
      assert p1 + t1 == "icebreaker-" + (n1 + t1);
      assert p2 + t2 == "icebreaker-" + (n2 + t2);
      assert (p1 + t1)[11..] == n1 + t1 && (p2 + t2)[11..] == n2 + t2;
      DigitsSplit(n1, t1, n2, t2);
    }
  }

  /** Entries `<p>-entry-<j>` of two seeded icebreakers share an id only when the icebreakers do. */
  lemma EntryIdDetermines(x1: string, p1: string, x2: string, p2: string)
    requires IcebreakerIdShaped(p1) && IdUnder(x1, p1, "-entry-")
    requires IcebreakerIdShaped(p2) && IdUnder(x2, p2, "-entry-")
    ensures x1 == x2 ==> p1 == p2
  {
    IdParts(x1, p1, "-entry-");
    IdParts(x2, p2, "-entry-");
    var t1, t2 := "-entry-" + x1[|p1| + 7..], "-entry-" + x2[|p2| + 7..];
    assert x1 == p1 + t1 && x2 == p2 + t2;
    IcebreakerIdSplit(p1, t1, p2, t2);
  }

  /** `-entry-<m>-comment-<k>` tails that agree have the same entry number `m`. */
  lemma EntryTailSplit(m1: string, k1: string, m2: string, k2: string)
    requires AllDigits(m1) && AllDigits(m2)
    ensures "-entry-" + m1 + "-comment-" + k1 == "-entry-" + m2 + "-comment-" + k2 ==> m1 == m2
  {
    var t1, t2 := "-entry-" + m1 + "-comment-" + k1, "-entry-" + m2 + "-comment-" + k2;
    if t1 == t2 {
      assert t1[7..] == m1 + ("-comment-" + k1) && t2[7..] == m2 + ("-comment-" + k2);
      DigitsSplit(m1, "-comment-" + k1, m2, "-comment-" + k2);
    }
  }

  /** A comment id `<p>-entry-<m>-comment-<k>` spelled out from its parts. */
  lemma CommentIdParts(y: string, x: string, p: string)
    requires IdUnder(x, p, "-entry-") && IdUnder(y, x, "-comment-")
    ensures x == p + "-entry-" + x[|p| + 7..]
    ensures y == p + ("-entry-" + x[|p| + 7..] + "-comment-" + y[|x| + 9..])
  {
    IdParts(x, p, "-entry-");
    IdParts(y, x, "-comment-");
  }

  /** Comments `<x>-comment-<k>` of two seeded entries share an id only when the entries do. */
  lemma CommentIdDetermines(y1: string, x1: string, p1: string, y2: string, x2: string, p2: string)
    requires IcebreakerIdShaped(p1) && IdUnder(x1, p1, "-entry-") && IdUnder(y1, x1, "-comment-")
    requires IcebreakerIdShaped(p2) && IdUnder(x2, p2, "-entry-") && IdUnder(y2, x2, "-comment-")
    ensures y1 == y2 ==> x1 == x2
  {
    var m1, m2 := x1[|p1| + 7..], x2[|p2| + 7..];
    var k1, k2 := y1[|x1| + 9..], y2[|x2| + 9..];
    CommentIdParts(y1, x1, p1);
    CommentIdParts(y2, x2, p2);
    var t1, t2 := "-entry-" + m1 + "-comment-" + k1, "-entry-" + m2 + "-comment-" + k2;
    IcebreakerIdSplit(p1, t1, p2, t2);
    EntryTailSplit(m1, k1, m2, k2);
  }

  /**
   * The comments of entries with distinct, well-formed ids have distinct ids,
   * and each belongs to one of the entries.
   */
  lemma {:induction false} AllCommentsDistinct(es: seq<Entry>)
    requires Seqs.DistinctBy(es, EntryId)
    requires forall e | e in es :: EntryWellNamed(e)
    ensures Seqs.DistinctBy(AllComments(es), CommentId)
    ensures forall c | c in AllComments(es) ::
      IdUnder(c.id, c.entryId, "-comment-") && exists e :: e in es && e.id == c.entryId && EntryWellNamed(e)
  {
    if es != [] {
      var rest := es[1..];
      assert es == [es[0]] + rest;
      forall i, j | 0 <= i < j < |rest| ensures EntryId(rest[i]) != EntryId(rest[j]) {
        assert rest[i] == es[i + 1] && rest[j] == es[j + 1];
      }
      forall e | e in rest ensures EntryWellNamed(e) {
        assert e in es;
      }
      AllCommentsDistinct(rest);
      var head, tail := es[0].comments, AllComments(rest);
      assert AllComments(es) == head + tail;
      assert es[0] in es;
      forall i, j | 0 <= i < |head| && 0 <= j < |tail| ensures CommentId(head[i]) != CommentId(tail[j]) {
        assert head[i] in head && tail[j] in tail;
        var e :| e in rest && e.id == tail[j].entryId && EntryWellNamed(e);
        var k :| 0 <= k < |rest| && rest[k] == e;
        assert es[k + 1] == e;
        CommentIdDetermines(head[i].id, es[0].id, es[0].icebreakerId, tail[j].id, e.id, e.icebreakerId);
      }
      Seqs.DistinctByAppend(head, tail, CommentId);
      forall c | c in AllComments(es)
        ensures IdUnder(c.id, c.entryId, "-comment-") && exists e :: e in es && e.id == c.entryId && EntryWellNamed(e)
      {
        if c in head {
          assert es[0].id == c.entryId;
        } else {
          var e :| e in rest && e.id == c.entryId && EntryWellNamed(e);
          assert e in es;
        }
      }
    }
  }

  // ---------------------------------------------------------------------------
  // Seeding steps
  // ---------------------------------------------------------------------------

  /** `mockUsers` before it is sorted: `Array.from({ length: 20 }, ...)`. */
  method SeedUsers() returns (users: seq<User>)
    ensures |users| == MockUsersCount
    ensures forall i :: 0 <= i < |users| ==> SeededUser(users[i], i)
    ensures AdminCount(users) == 1
  {
    users := [];
    for i := 0 to MockUsersCount
      invariant |users| == i
      invariant forall k :: 0 <= k < i ==> SeededUser(users[k], k)
      invariant AdminCount(users) == if i == 0 then 0 else 1
    {
      var iceLevel := RandomInt(0, 100);
      var activityScore := RandomInt(10, 200);
      var letter := (65 + i) as char;
      var u := User(
        "user-" + NatToString(i + 1),
        "User " + [letter],
        "user" + NatToString(i + 1) + "@example.com",
        "https://placehold.co/100x100.png?text=" + [letter],
        if i == 0 then Admin else Employee,
        iceLevel,
        Some(activityScore));
      Seqs.SumByAppend(users, [u], AdminWeight);
      assert [u][1..] == [];
      users := users + [u];
    }
  }

  /**
   * The prompt draw with its retry loop: a prompt whose title is not yet used,
   * as long as unused titles remain.
   */
  method ChoosePrompt(used: set<string>) returns (p: nat)
    requires used <= PromptTitles
    ensures p < |SamplePrompts|
    ensures |used| < |SamplePrompts| ==> SamplePrompts[p].title !in used
  {
    p := RandomInt(0, |SamplePrompts| - 1);
    if SamplePrompts[p].title in used && |used| < |SamplePrompts| {
      // The retry loop ends only by luck of the draws; the model takes a draw
      // that satisfies its exit condition.
      UnusedPromptExists(used);
      p :| p < |SamplePrompts| && SamplePrompts[p].title !in used;
    }
  }

  /** Every sample prompt's title is one of the listed titles. */
  lemma SampleTitleListed(p: nat)
    requires p < |SamplePrompts|
    ensures SamplePrompts[p].title in PromptTitles
  {
    if p == 0 {} else if p == 1 {} else if p == 2 {} else if p == 3 {} else if p == 4 {} else if p == 5 {} else {}
  }

  lemma UnusedPromptExists(used: set<string>)
    requires used <= PromptTitles && |used| < |SamplePrompts|
    ensures exists p: nat :: p < |SamplePrompts| && SamplePrompts[p].title !in used
  {
    PromptTitlesCount();
    assert PromptTitles == used + (PromptTitles - used);
    var t :| t in PromptTitles - used;
    ListedTitleSample(t);
  }

  /** Seven distinct titles are listed. */
  lemma PromptTitlesCount()
    ensures |PromptTitles| == |SamplePrompts|
  {
  }

  /** Every listed title is the title of a sample prompt. */
  lemma ListedTitleSample(t: string)
    requires t in PromptTitles
    ensures exists p: nat :: p < |SamplePrompts| && SamplePrompts[p].title == t
  {
    if t == "Desk Snapshot" { assert SamplePrompts[0].title == t; }
    else if t == "Dream Vacation" { assert SamplePrompts[1].title == t; }
    else if t == "Hidden Talent" { assert SamplePrompts[2].title == t; }
    else if t == "Favorite Comfort Food" { assert SamplePrompts[3].title == t; }
    else if t == "Throwback Photo" { assert SamplePrompts[4].title == t; }
    else if t == "Two Truths and a Lie" { assert SamplePrompts[5].title == t; }
    else { assert SamplePrompts[6].title == t; }
  }

  /** The comments of one seeded entry (the inner `for k` loop). */
  method SeedComments(entryId: string, entryCreatedAt: int, users: seq<User>, now: int) returns (comments: seq<Comment>)
    requires |users| > 0 && entryCreatedAt <= now
    ensures MockCommentsPerEntryMin <= |comments| <= MockCommentsPerEntryMax
    ensures forall c | c in comments :: SeededComment(c, entryId, entryCreatedAt, UserIds(users), now)
    ensures Seqs.DistinctBy(comments, CommentId)
  {
    var numComments := RandomInt(MockCommentsPerEntryMin, MockCommentsPerEntryMax);
    comments := [];
    for k := 0 to numComments
      invariant |comments| == k
      invariant forall c | c in comments :: SeededComment(c, entryId, entryCreatedAt, UserIds(users), now)
      invariant Seqs.DistinctBy(comments, CommentId)
      invariant forall c | c in comments :: IdUnder(c.id, entryId, "-comment-") && NumberUnder(c.id, entryId, "-comment-") <= k
    {
      var authorIndex := RandomInt(0, |users| - 1);
      var suffix: string :| true;
      var createdAt := RandomDate(entryCreatedAt, now);
      var comment := Comment(
        entryId + "-comment-" + NatToString(k + 1),
        entryId,
        users[authorIndex].id,
        "This is comment " + NatToString(k + 1) + ". I agree! " + suffix + ".",
        createdAt);
      NumberedStep(comments, comment, CommentId, entryId, "-comment-", k + 1);
      comments := comments + [comment];
    }
  }

  /** One seeded entry (the body of the `for j` loop, before it is attached). */
  method SeedEntry(ib: Icebreaker, j: nat, users: seq<User>, now: int) returns (entry: Entry)
    requires |users| > 0 && ib.createdAt <= now
    ensures entry.id == ib.id + "-entry-" + NatToString(j + 1)
    ensures SeededEntry(entry, ib.id, ib.createdAt, UserIds(users), now)
  {
    var authorIndex := RandomInt(0, |users| - 1);
    var entryId := ib.id + "-entry-" + NatToString(j + 1);
    IdUnderOf(ib.id, "-entry-", j + 1);
    var createdAt := RandomDate(ib.createdAt, now);
    var suffix: string :| true;
    var text := Some("This is entry " + NatToString(j + 1) + " for \"" + ib.title + "\". My thoughts are... " + suffix + ".");
    var contentUrl: Option<string> := None;
    if ib.topicType != Text {
      var withImage := RandomAbove(0.3);
      if withImage {
        contentUrl := Some("https://placehold.co/600x400.png");
      }
    }
    var likeCount := RandomInt(0, 50);
    if Truthy(contentUrl) && !Truthy(text) {
      text := Some("Check out this image for \"" + ib.title + "\"!");
    } else if Truthy(contentUrl) && Truthy(text) {
      text := Some("Check out this image! " + text.value);
    }
    var comments := SeedComments(entryId, createdAt, users, now);
    entry := Entry(entryId, ib.id, users[authorIndex].id, text, contentUrl, createdAt, likeCount, comments);
  }

  /**
   * One seeded icebreaker (the body of the outer `for i` loop): its entries are
   * attached while `interactionCount` accumulates, then sorted newest first.
   * `created` is the entries in creation order, as they go to `mockEntries`.
   */
  method SeedIcebreaker(i: nat, prompt: Prompt, users: seq<User>, start: int, now: int)
    returns (ib: Icebreaker, created: seq<Entry>)
    requires |users| > 0 && start <= now && prompt in SamplePrompts
    ensures ib.id == "icebreaker-" + NatToString(i + 1)
    ensures ib.title == prompt.title
    ensures SeededIcebreaker(ib, UserIds(users), start, now)
    ensures multiset(created) == multiset(ib.entries)
    ensures Seqs.DistinctBy(created, EntryId)
  {
    var authorIndex := RandomInt(0, |users| - 1);
    var createdAt := RandomDate(start, now);
    var mixed := RandomAbove(0.5);
    var topicType := Mixed;
    if !mixed {
      var photo := RandomAbove(0.5);
      topicType := if photo then Photo else Text;
    }
    ib := Icebreaker("icebreaker-" + NatToString(i + 1), prompt.title, prompt.description, topicType,
      users[authorIndex].id, createdAt, 0, []);
    var numEntries := RandomInt(MockEntriesPerIcebreakerMin, MockEntriesPerIcebreakerMax);
    created := [];
    for j := 0 to numEntries
      invariant ib.id == "icebreaker-" + NatToString(i + 1) && ib.title == prompt.title
      invariant ib.description == prompt.description && ib.authorId == users[authorIndex].id
      invariant ib.createdAt == createdAt
      invariant ib.entries == created && |created| == j
      invariant CountConsistent(ib)
      invariant forall e | e in created :: SeededEntry(e, ib.id, ib.createdAt, UserIds(users), now)
      invariant Seqs.DistinctBy(created, EntryId)
      invariant forall e | e in created :: IdUnder(e.id, ib.id, "-entry-") && NumberUnder(e.id, ib.id, "-entry-") <= j
    {
      var entry := SeedEntry(ib, j, users, now);
      EntryAttachStep(ib, entry, UserIds(users), now, j);
      ib := ib.(entries := ib.entries + [entry]);
      created := created + [entry];
      ib := ib.(interactionCount := ib.interactionCount + entry.likeCount + |entry.comments|);
    }
    IdUnderOf("", "icebreaker-", i + 1);
    assert "" + "icebreaker-" == "icebreaker-";
    var sorted := Seqs.SortDesc(ib.entries, EntryCreatedAt);
    ReorderedEntriesSeeded(ib, sorted, UserIds(users), now);
    ib := ib.(entries := sorted);
  }

  /**
   * One step of the entry loop: attaching the `j+1`-th seeded entry and adding
   * its likes and comments to the count keeps the entries seeded, distinct and
   * numbered at most `j+1`, and keeps the count exact.
   */
  lemma EntryAttachStep(ib: Icebreaker, entry: Entry, userIds: set<string>, now: int, j: nat)
    requires CountConsistent(ib) && Seqs.DistinctBy(ib.entries, EntryId)
    requires forall e | e in ib.entries :: SeededEntry(e, ib.id, ib.createdAt, userIds, now)
    requires forall e | e in ib.entries :: IdUnder(e.id, ib.id, "-entry-") && NumberUnder(e.id, ib.id, "-entry-") <= j
    requires entry.id == ib.id + "-entry-" + NatToString(j + 1)
    requires SeededEntry(entry, ib.id, ib.createdAt, userIds, now)
    ensures var next := ib.(entries := ib.entries + [entry],
                            interactionCount := ib.interactionCount + entry.likeCount + |entry.comments|);
      && CountConsistent(next) && Seqs.DistinctBy(next.entries, EntryId)
      && (forall e | e in next.entries :: SeededEntry(e, ib.id, ib.createdAt, userIds, now))
      && (forall e | e in next.entries :: IdUnder(e.id, ib.id, "-entry-") && NumberUnder(e.id, ib.id, "-entry-") <= j + 1)
  {
    NumberedStep(ib.entries, entry, EntryId, ib.id, "-entry-", j + 1);
    InteractionsAppend(ib.entries, entry);
  }

  /** Reordering an icebreaker's entries keeps them seeded and distinct, and keeps its count exact. */
  lemma ReorderedEntriesSeeded(ib: Icebreaker, sorted: seq<Entry>, userIds: set<string>, now: int)
    requires multiset(sorted) == multiset(ib.entries)
    requires Seqs.DistinctBy(ib.entries, EntryId) && CountConsistent(ib)
    requires forall e | e in ib.entries :: SeededEntry(e, ib.id, ib.createdAt, userIds, now)
    ensures Seqs.DistinctBy(sorted, EntryId) && CountConsistent(ib.(entries := sorted))
    ensures forall e | e in sorted :: SeededEntry(e, ib.id, ib.createdAt, userIds, now)
  {
    Seqs.DistinctByPermutation(ib.entries, sorted, EntryId);
    InteractionsPermutation(sorted, ib.entries);
    forall e | e in sorted ensures SeededEntry(e, ib.id, ib.createdAt, userIds, now) {
      assert e in multiset(ib.entries);
    }
  }

  /** The outer `for i` loop of the seed: five icebreakers with distinct prompts, and their entries and comments. */
  method SeedIcebreakers(users: seq<User>, start: int, now: int)
    returns (ibs: seq<Icebreaker>, es: seq<Entry>, cs: seq<Comment>)
    requires |users| > 0 && start <= now
    ensures |ibs| == MockIcebreakersCount
    ensures Seqs.DistinctBy(ibs, IcebreakerTitle)
    ensures forall ib | ib in ibs :: SeededIcebreaker(ib, UserIds(users), start, now) && EntriesLinked(ib)
    ensures multiset(es) == multiset(AllEntries(ibs))
    ensures cs == AllComments(es)
    ensures Seqs.DistinctBy(ibs, IcebreakerId)
    ensures Seqs.DistinctBy(es, EntryId)
    ensures Seqs.DistinctBy(cs, CommentId)
    ensures forall e | e in es :: exists ib :: ib in ibs && ib.id == e.icebreakerId
    ensures forall c | c in cs :: exists e :: e in es && e.id == c.entryId
  {
    ibs, es, cs := [], [], [];
    var used: set<string> := {};
    for i := 0 to MockIcebreakersCount
      invariant |ibs| == i && |used| == i && used <= PromptTitles
      invariant forall ib | ib in ibs :: ib.title in used
      invariant Seqs.DistinctBy(ibs, IcebreakerTitle)
      invariant forall ib | ib in ibs :: SeededIcebreaker(ib, UserIds(users), start, now) && EntriesLinked(ib)
      invariant multiset(es) == multiset(AllEntries(ibs))
      invariant cs == AllComments(es)
      invariant IdsSeeded(ibs, es)
    {
      var p := ChoosePrompt(used);
      var prompt := SamplePrompts[p];
      SampleTitleListed(p);
      var ib, created := SeedIcebreaker(i, prompt, users, start, now);
      SeedStep(ibs, es, ib, created);
      DistinctStep(ibs, ib, used);
      CreatedWellNamed(ib, created, UserIds(users), start, now);
      IdsStep(ibs, es, ib, created);
      used := used + {prompt.title};
      ibs := ibs + [ib];
      es := es + created;
      cs := cs + AllComments(created);
    }
    IdsOwned(ibs, es);
    AllCommentsDistinct(es);
  }

  /**
   * The ids of the seed so far: icebreakers `icebreaker-1`… numbered up to
   * their count and distinct, entries distinct, well named, and each under
   * one of the icebreakers.
   */
  ghost predicate IdsSeeded(ibs: seq<Icebreaker>, es: seq<Entry>)
  {
    && Seqs.DistinctBy(ibs, IcebreakerId)
    && (forall x | x in ibs :: IdUnder(x.id, "", "icebreaker-") && NumberUnder(x.id, "", "icebreaker-") <= |ibs|)
    && Seqs.DistinctBy(es, EntryId)
    && forall e | e in es :: EntryWellNamed(e) && e.icebreakerId in IcebreakerIds(ibs)
  }

  function IcebreakerIds(ibs: seq<Icebreaker>): set<string>
  {
    set x | x in ibs :: x.id
  }

  /** Adding icebreaker `icebreaker-<n+1>` after `n` of them, with its entries, keeps the ids seeded. */
  lemma IdsStep(ibs: seq<Icebreaker>, es: seq<Entry>, ib: Icebreaker, created: seq<Entry>)
    requires IdsSeeded(ibs, es)
    requires ib.id == "icebreaker-" + NatToString(|ibs| + 1)
    requires Seqs.DistinctBy(created, EntryId)
    requires forall e | e in created :: e.icebreakerId == ib.id && EntryWellNamed(e)
    ensures IdsSeeded(ibs + [ib], es + created)
  {
    assert ib.id == "" + "icebreaker-" + NatToString(|ibs| + 1);
    NumberedStep(ibs, ib, IcebreakerId, "", "icebreaker-", |ibs| + 1);
    EntryIdsStep(ibs, es, ib, created);
  }

  /** The id facts the seed promises, read off `IdsSeeded`. */
  lemma IdsOwned(ibs: seq<Icebreaker>, es: seq<Entry>)
    requires IdsSeeded(ibs, es)
    ensures Seqs.DistinctBy(ibs, IcebreakerId) && Seqs.DistinctBy(es, EntryId)
    ensures forall e | e in es :: exists ib :: ib in ibs && ib.id == e.icebreakerId
    ensures forall e | e in es :: EntryWellNamed(e)
  {
    forall e | e in es ensures exists ib :: ib in ibs && ib.id == e.icebreakerId {
      var ib :| ib in ibs && ib.id == e.icebreakerId;
    }
  }

  /** The entries of a seeded icebreaker hang under its id and are well named. */
  lemma CreatedWellNamed(ib: Icebreaker, created: seq<Entry>, userIds: set<string>, start: int, now: int)
    requires SeededIcebreaker(ib, userIds, start, now)
    requires multiset(created) == multiset(ib.entries)
    ensures forall e | e in created :: e.icebreakerId == ib.id && EntryWellNamed(e)
  {
    forall e | e in created ensures e.icebreakerId == ib.id && EntryWellNamed(e) {
      assert e in multiset(ib.entries);
      assert SeededEntry(e, ib.id, ib.createdAt, userIds, now);
    }
  }

  /**
   * Appending the entries of a new icebreaker keeps entry ids distinct: they
   * are distinct among themselves, and they hang under an icebreaker id no
   * earlier entry has.
   */
  lemma EntryIdsStep(ibs: seq<Icebreaker>, es: seq<Entry>, ib: Icebreaker, created: seq<Entry>)
    requires forall x | x in ibs :: x.id != ib.id
    requires forall e | e in created :: e.icebreakerId == ib.id && EntryWellNamed(e)
    requires Seqs.DistinctBy(es, EntryId) && Seqs.DistinctBy(created, EntryId)
    requires forall e | e in es :: EntryWellNamed(e) && e.icebreakerId in IcebreakerIds(ibs)
    ensures Seqs.DistinctBy(es + created, EntryId)
    ensures forall e | e in es + created :: EntryWellNamed(e) && e.icebreakerId in IcebreakerIds(ibs + [ib])
  {
    forall i, j | 0 <= i < |es| && 0 <= j < |created| ensures EntryId(es[i]) != EntryId(created[j]) {
      var x, y := es[i], created[j];
      assert x in es && y in created;
      EntryIdDetermines(x.id, x.icebreakerId, y.id, y.icebreakerId);
    }
    Seqs.DistinctByAppend(es, created, EntryId);
    assert IcebreakerIds(ibs + [ib]) == IcebreakerIds(ibs) + {ib.id};
  }

  lemma SeedStep(ibs: seq<Icebreaker>, es: seq<Entry>, ib: Icebreaker, created: seq<Entry>)
    requires multiset(es) == multiset(AllEntries(ibs))
    requires multiset(created) == multiset(ib.entries)
    ensures multiset(es + created) == multiset(AllEntries(ibs + [ib]))
    ensures AllComments(es + created) == AllComments(es) + AllComments(created)
  {
    Seqs.FlatMapAppend(ibs, [ib], IcebreakerEntries);
    assert Seqs.FlatMap([ib], IcebreakerEntries) == ib.entries;
    Seqs.FlatMapAppend(es, created, EntryComments);
  }

  lemma DistinctStep(ibs: seq<Icebreaker>, ib: Icebreaker, used: set<string>)
    requires Seqs.DistinctBy(ibs, IcebreakerTitle)
    requires forall x | x in ibs :: x.title in used
    requires ib.title !in used
    ensures Seqs.DistinctBy(ibs + [ib], IcebreakerTitle)
  {
    var s := ibs + [ib];
    forall i, j | 0 <= i < j < |s| ensures IcebreakerTitle(s[i]) != IcebreakerTitle(s[j]) {
      if j == |ibs| {
        assert s[i] in ibs;
      } else {
        assert s[i] == ibs[i] && s[j] == ibs[j];
      }
    }
  }

  /** Reordering seeded icebreakers keeps each of them seeded, counted and linked. */
  lemma SeededPermutation(ibs: seq<Icebreaker>, sorted: seq<Icebreaker>, userIds: set<string>, start: int, now: int)
    requires multiset(ibs) == multiset(sorted)
    requires forall ib | ib in ibs :: SeededIcebreaker(ib, userIds, start, now) && EntriesLinked(ib)
    ensures forall ib | ib in sorted :: SeededIcebreaker(ib, userIds, start, now) && EntriesLinked(ib) && CountConsistent(ib)
  {
    forall ib | ib in sorted
      ensures SeededIcebreaker(ib, userIds, start, now) && EntriesLinked(ib) && CountConsistent(ib)
    {
      assert ib in multiset(ibs);
    }
  }

  /** The ids a permutation of `users` carries are the same. */
  lemma UserIdsPermutation(a: seq<User>, b: seq<User>)
    requires multiset(a) == multiset(b)
    ensures UserIds(a) == UserIds(b)
  {
    forall id | id in UserIds(a) ensures id in UserIds(b) {
      var u :| u in a && u.id == id;
      assert u in multiset(b);
    }
    forall id | id in UserIds(b) ensures id in UserIds(a) {
      var u :| u in b && u.id == id;
      assert u in multiset(a);
    }
  }

  /** Replacing one icebreaker replaces its entries in the flattened list. */
  lemma AllEntriesUpdate(ibs: seq<Icebreaker>, i: nat, ib: Icebreaker)
    requires i < |ibs|
    ensures multiset(AllEntries(ibs[i := ib])) + multiset(ibs[i].entries)
         == multiset(AllEntries(ibs)) + multiset(ib.entries)
  {
    var updated := ibs[i := ib];
    assert ibs == ibs[..i] + [ibs[i]] + ibs[i + 1..];
    assert updated == ibs[..i] + [ib] + ibs[i + 1..];
    Seqs.FlatMapAppend(ibs[..i] + [ibs[i]], ibs[i + 1..], IcebreakerEntries);
    Seqs.FlatMapAppend(ibs[..i], [ibs[i]], IcebreakerEntries);
    Seqs.FlatMapAppend(ibs[..i] + [ib], ibs[i + 1..], IcebreakerEntries);
    Seqs.FlatMapAppend(ibs[..i], [ib], IcebreakerEntries);
    assert Seqs.FlatMap([ib], IcebreakerEntries) == ib.entries;
    assert Seqs.FlatMap([ibs[i]], IcebreakerEntries) == ibs[i].entries;
  }

  /** The seeded admin, `user-1`, is the current user. */
  lemma SeededCurrentUser(users: seq<User>)
    requires SeededUsers(users)
    ensures CurrentMockUser(users).Some?
    ensures CurrentMockUser(users).value.role == Admin && CurrentMockUser(users).value.id == "user-1"
  {
    if forall u | u in users :: u.role != Admin {
      forall u | u in users ensures AdminWeight(u) == 0 { }
      NoAdminsCountZero(users);
      assert false;
    }
  }

  lemma {:induction false} NoAdminsCountZero(users: seq<User>)
    requires forall u | u in users :: u.role != Admin
    ensures AdminCount(users) == 0
  {
    if users != [] {
      assert users[0] in users;
      assert forall u | u in users[1..] :: u in users;
      NoAdminsCountZero(users[1..]);
    }
  }

  // ---------------------------------------------------------------------------
  // The store
  // ---------------------------------------------------------------------------

  class Store {
    var users: seq<User>
    var icebreakers: seq<Icebreaker>
    var entries: seq<Entry>
    var comments: seq<Comment>

    /**
     * Every icebreaker's `interactionCount` is the likes plus comments of its
     * entries, every entry points back at its icebreaker, and the flat entry
     * list holds exactly the entries of all icebreakers.
     */
    ghost predicate Valid()
      reads this
    {
      && (forall ib | ib in icebreakers :: CountConsistent(ib) && EntriesLinked(ib))
      && multiset(entries) == multiset(AllEntries(icebreakers))
    }

    /**
     * The module initialisation: users, then five icebreakers with their entries
     * and comments, then the icebreakers sorted newest first and the users by
     * score. `start` is 1 January 2023 and `now` the clock at start-up.
     */
    constructor Seed(start: int, now: int)
      requires start <= now
      ensures Valid()
      ensures SeededUsers(users)
      ensures |icebreakers| == MockIcebreakersCount
      ensures forall ib | ib in icebreakers :: SeededIcebreaker(ib, UserIds(users), start, now)
      ensures Seqs.DistinctBy(icebreakers, IcebreakerTitle)
      ensures Seqs.SortedDesc(icebreakers, IcebreakerCreatedAt)
      ensures comments == AllComments(entries)
      ensures Seqs.DistinctBy(icebreakers, IcebreakerId)
      ensures Seqs.DistinctBy(entries, EntryId) && Seqs.DistinctBy(comments, CommentId)
      ensures forall e | e in entries :: exists ib :: ib in icebreakers && ib.id == e.icebreakerId
      ensures forall c | c in comments :: exists e :: e in entries && e.id == c.entryId
    {
      var seedUsers := SeedUsers();
      var ibs, es, cs := SeedIcebreakers(seedUsers, start, now);
      var sortedIcebreakers := Seqs.SortDesc(ibs, IcebreakerCreatedAt);
      var sortedUsers := Seqs.SortDesc(seedUsers, ScoreOrZero);
      Seqs.FlatMapPermutation(ibs, sortedIcebreakers, IcebreakerEntries);
      SeededPermutation(ibs, sortedIcebreakers, UserIds(seedUsers), start, now);
      Seqs.DistinctByPermutation(ibs, sortedIcebreakers, IcebreakerTitle);
      Seqs.DistinctByPermutation(ibs, sortedIcebreakers, IcebreakerId);
      forall e | e in es ensures exists ib :: ib in sortedIcebreakers && ib.id == e.icebreakerId {
        var ib :| ib in ibs && ib.id == e.icebreakerId;
        assert ib in multiset(ibs);
      }
      Seqs.SumByPermutation(seedUsers, sortedUsers, AdminWeight);
      UserIdsPermutation(seedUsers, sortedUsers);
      SeededUsersAfterSort(seedUsers, sortedUsers);
      users := sortedUsers;
      icebreakers := sortedIcebreakers;
      entries := es;
      comments := cs;
    }

    /**
     * `addIcebreakerWithFirstEntry`: the entry is linked to the icebreaker, becomes
     * its only entry and sets its count; the icebreaker goes to the front and the
     * entry to the end of the flat list. Users and comments are untouched.
     */
    method AddIcebreakerWithFirstEntry(icebreaker: Icebreaker, firstEntry: Entry)
      requires Valid()
      modifies this
      ensures Valid()
      ensures var linked := firstEntry.(icebreakerId := icebreaker.id);
        && icebreakers == [icebreaker.(entries := [linked], interactionCount := firstEntry.likeCount + |firstEntry.comments|)] + old(icebreakers)
        && entries == old(entries) + [linked]
      ensures users == old(users) && comments == old(comments)
      ensures GetMockIcebreakerById(icebreakers, icebreaker.id) == Some(icebreakers[0])
      ensures icebreakers[0].interactionCount == Interactions(icebreakers[0].entries)
    {
      var linked := firstEntry.(icebreakerId := icebreaker.id);
      var ib := icebreaker.(entries := [linked]);
      ib := ib.(interactionCount := firstEntry.likeCount + |firstEntry.comments|);
      InteractionsPrepend(linked, []);
      assert [linked] + [] == [linked];
      assert CountConsistent(ib) && EntriesLinked(ib);
      Seqs.FlatMapAppend([ib], icebreakers, IcebreakerEntries);
      assert Seqs.FlatMap([ib], IcebreakerEntries) == [linked];
      assert forall x | x in [ib] + icebreakers :: x == ib || x in icebreakers;
      icebreakers := [ib] + icebreakers;
      entries := entries + [linked];
      assert IcebreakerIndex(icebreakers, icebreaker.id) == Some(0);
    }

    /**
     * `addEntryToIcebreaker`: when an icebreaker with the id exists, the first one
     * gets the linked entry in front of its entries and its likes plus comments
     * added to its count, and the entry goes to the end of the flat list; when none
     * exists nothing changes and `found` is false (the source logs a warning).
     */
    method AddEntryToIcebreaker(icebreakerId: string, entry: Entry) returns (found: bool)
      requires Valid()
      modifies this
      ensures Valid()
      ensures found <==> GetMockIcebreakerById(old(icebreakers), icebreakerId).Some?
      ensures !found ==> icebreakers == old(icebreakers) && entries == old(entries)
      ensures found ==>
        var i := IcebreakerIndex(old(icebreakers), icebreakerId).value;
        var target := old(icebreakers)[i];
        var linked := entry.(icebreakerId := icebreakerId);
        && icebreakers == old(icebreakers)[i := target.(entries := [linked] + target.entries,
                                                       interactionCount := target.interactionCount + entry.likeCount + |entry.comments|)]
        && entries == old(entries) + [linked]
      ensures users == old(users) && comments == old(comments)
    {
      var index := IcebreakerIndex(icebreakers, icebreakerId);
      if index.Some? {
        var i := index.value;
        var target := icebreakers[i];
        var linked := entry.(icebreakerId := icebreakerId);
        var updated := target.(entries := [linked] + target.entries);
        updated := updated.(interactionCount := target.interactionCount + entry.likeCount + |entry.comments|);
        AddEntryKeepsInvariant(icebreakers, entries, i, linked, updated);
        icebreakers := icebreakers[i := updated];
        entries := entries + [linked];
        found := true;
      } else {
        found := false;
      }
    }
  }

  /** The store invariant survives prepending a linked entry to one icebreaker and appending it to the flat list. */
  lemma AddEntryKeepsInvariant(ibs: seq<Icebreaker>, es: seq<Entry>, i: nat, linked: Entry, updated: Icebreaker)
    requires i < |ibs| && linked.icebreakerId == ibs[i].id
    requires updated == ibs[i].(entries := [linked] + ibs[i].entries,
                                interactionCount := ibs[i].interactionCount + linked.likeCount + |linked.comments|)
    requires forall ib | ib in ibs :: CountConsistent(ib) && EntriesLinked(ib)
    requires multiset(es) == multiset(AllEntries(ibs))
    ensures forall ib | ib in ibs[i := updated] :: CountConsistent(ib) && EntriesLinked(ib)
    ensures multiset(es + [linked]) == multiset(AllEntries(ibs[i := updated]))
  {
    var target := ibs[i];
    InteractionsPrepend(linked, target.entries);
    assert CountConsistent(target) && EntriesLinked(target);
    assert CountConsistent(updated) && EntriesLinked(updated);
    AllEntriesUpdate(ibs, i, updated);
    assert multiset(updated.entries) == multiset{linked} + multiset(target.entries);
    Seqs.MultisetCancel(multiset(AllEntries(ibs[i := updated])),
      multiset(AllEntries(ibs)) + multiset{linked}, multiset(target.entries));
    assert forall x | x in ibs[i := updated] :: x == updated || x in ibs;
  }

  lemma SeededUsersAfterSort(seedUsers: seq<User>, users: seq<User>)
    requires |seedUsers| == MockUsersCount
    requires forall i :: 0 <= i < |seedUsers| ==> SeededUser(seedUsers[i], i)
    requires AdminCount(users) == 1
    requires multiset(users) == multiset(seedUsers) && |users| == |seedUsers|
    requires Seqs.SortedDesc(users, ScoreOrZero)
    ensures SeededUsers(users)
  {
    SeedUserIds(seedUsers);
    UserIdsPermutation(seedUsers, users);
    forall u | u in users
      ensures IceLevelInRange(u) && u.activityScore.Some? && 10 <= u.activityScore.value <= 200
      ensures u.role == Admin ==> u.id == "user-1"
    {
      assert u in multiset(seedUsers);
      var i :| 0 <= i < |seedUsers| && seedUsers[i] == u;
      assert SeededUser(seedUsers[i], i);
    }
  }

  /** Before the sort, the users' ids are exactly `user-1` … `user-20`. */
  lemma SeedUserIds(seedUsers: seq<User>)
    requires |seedUsers| == MockUsersCount
    requires forall i :: 0 <= i < |seedUsers| ==> SeededUser(seedUsers[i], i)
    ensures UserIds(seedUsers) == SeededUserIds()
  {
    forall id | id in UserIds(seedUsers) ensures id in SeededUserIds() {
      var u :| u in seedUsers && u.id == id;
      var i :| 0 <= i < |seedUsers| && seedUsers[i] == u;
      assert SeededUser(seedUsers[i], i);
      assert id == SeededUserId(i);
    }
    forall id | id in SeededUserIds() ensures id in UserIds(seedUsers) {
      var i: nat :| i < MockUsersCount && id == SeededUserId(i);
      assert SeededUser(seedUsers[i], i);
      assert seedUsers[i] in seedUsers;
    }
  }
}
