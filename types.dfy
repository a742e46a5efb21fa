/**
 * The records of the icebreaker application: users, icebreaker prompts,
 * entries answering them and comments on entries. Timestamps (`createdAt`,
 * an ISO string in the application) are whole milliseconds since the epoch.
 * The optional `author` copies of a `User` that the application attaches to
 * records for display are not part of the model.
 */
module Types {
  import opened Wrappers
  import Seqs

  /** `'employee' | 'admin'`. */
  datatype Role = Employee | Admin

  function RoleName(r: Role): string
  {
    match r
    case Employee => "employee"
    case Admin => "admin"
  }

  /** Reads a role string; exactly the two literals of the union are accepted. */
  function ParseRole(s: string): (r: Option<Role>)
    ensures r.Some? ==> RoleName(r.value) == s
  {
    if s == "employee" then Some(Employee)
    else if s == "admin" then Some(Admin)
    else None
  }

  lemma RoleRoundTrip(r: Role)
    ensures ParseRole(RoleName(r)) == Some(r)
  {
  }

  /** `'photo' | 'text' | 'mixed'`. */
  datatype TopicType = Photo | Text | Mixed

  function TopicTypeName(t: TopicType): string
  {
    match t
    case Photo => "photo"
    case Text => "text"
    case Mixed => "mixed"
  }

  /** Reads a topic-type string; exactly the three literals of the union are accepted. */
  function ParseTopicType(s: string): (r: Option<TopicType>)
    ensures r.Some? ==> TopicTypeName(r.value) == s
  {
    if s == "photo" then Some(Photo)
    else if s == "text" then Some(Text)
    else if s == "mixed" then Some(Mixed)
    else None
  }

  lemma TopicTypeRoundTrip(t: TopicType)
    ensures ParseTopicType(TopicTypeName(t)) == Some(t)
  {
  }

  /** An optional string is truthy in JavaScript when it is present and not empty. */
  predicate Truthy(s: Option<string>)
  {
    s.Some? && s.value != ""
  }

  datatype User = User(
    id: string,
    displayName: string,
    email: string,
    avatarUrl: string,
    role: Role,
    iceLevel: int,               // 0 (melted) to 100 (frozen)
    activityScore: Option<int>)  // for leaderboards; absent counts as 0

  /** The documented range of `iceLevel`. */
  predicate IceLevelInRange(u: User)
  {
    0 <= u.iceLevel <= 100
  }

  /** `u.activityScore || 0`, the score every consumer ranks by. */
  function ScoreOrZero(u: User): int
  {
    u.activityScore.GetOr(0)
  }

  datatype Comment = Comment(
    id: string,
    entryId: string,
    authorId: string,
    text: string,
    createdAt: int)

  datatype Entry = Entry(
    id: string,
    icebreakerId: string,
    authorId: string,
    text: Option<string>,
    contentUrl: Option<string>,   // an image reference
    createdAt: int,
    likeCount: int,
    comments: seq<Comment>)

  datatype Icebreaker = Icebreaker(
    id: string,
    title: string,
    description: string,
    topicType: TopicType,
    authorId: string,
    createdAt: int,
    interactionCount: int,        // likes plus comments over all entries
    entries: seq<Entry>)

  /** What one entry contributes to its icebreaker's `interactionCount`. */
  function EntryInteractions(e: Entry): int
  {
    e.likeCount + |e.comments|
  }

  /** The sum of likes plus comments over `es`. */
  function Interactions(es: seq<Entry>): int
  {
    Seqs.SumBy(es, EntryInteractions)
  }

  /** The documented meaning of `interactionCount`. */
  ghost predicate CountConsistent(ib: Icebreaker)
  {
    ib.interactionCount == Interactions(ib.entries)
  }

  /** Every entry of the icebreaker points back at it. */
  ghost predicate EntriesLinked(ib: Icebreaker)
  {
    forall e | e in ib.entries :: e.icebreakerId == ib.id
  }

  /** Prepending one entry adds exactly its likes and comments. */
  lemma {:induction false} InteractionsPrepend(e: Entry, es: seq<Entry>)
    ensures Interactions([e] + es) == EntryInteractions(e) + Interactions(es)
  {
    assert ([e] + es)[1..] == es;
  }

  /** Appending one entry adds exactly its likes and comments. */
  lemma InteractionsAppend(es: seq<Entry>, e: Entry)
    ensures Interactions(es + [e]) == Interactions(es) + EntryInteractions(e)
  {
    Seqs.SumByAppend(es, [e], EntryInteractions);
    assert [e][1..] == [];
  }

  /** The aggregate is a sum, so it does not depend on the order of the entries. */
  lemma InteractionsPermutation(a: seq<Entry>, b: seq<Entry>)
    requires multiset(a) == multiset(b)
    ensures Interactions(a) == Interactions(b)
  {
    Seqs.SumByPermutation(a, b, EntryInteractions);
  }

  /** All entries of all icebreakers, icebreaker by icebreaker. */
  function AllEntries(ibs: seq<Icebreaker>): seq<Entry>
  {
    Seqs.FlatMap(ibs, IcebreakerEntries)
  }

  function IcebreakerEntries(ib: Icebreaker): seq<Entry> { ib.entries }
  function IcebreakerId(ib: Icebreaker): string { ib.id }
  function IcebreakerTitle(ib: Icebreaker): string { ib.title }
  function EntryId(e: Entry): string { e.id }
  function CommentId(c: Comment): string { c.id }
  function IcebreakerCreatedAt(ib: Icebreaker): int { ib.createdAt }
  function EntryCreatedAt(e: Entry): int { e.createdAt }
  function EntryComments(e: Entry): seq<Comment> { e.comments }

  /** All comments of all entries, entry by entry. */
  function AllComments(es: seq<Entry>): seq<Comment>
  {
    Seqs.FlatMap(es, EntryComments)
  }
}
