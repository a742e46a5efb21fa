# Ice breaker: a verified model of the activity store and its pages

This project models the Ice breaker application in Dafny. Colleagues answer
icebreaker prompts with entries, like them and comment on them. The model covers:

- the in-memory activity store of `src/lib/mock-data.ts`: its seed, its lookups and its two add operations;
- the records of `src/lib/types.ts`;
- the create-form validator and submit handler;
- the leaderboard rankings, the profile figures and the month-grouped feed;
- the topic-suggestion server action;
- the like button, the comment box and the active-link rule of the sidebar.

The store is a `Store` class (`mock_data.dfy`). Its fields `users`, `icebreakers`, `entries` and `comments`
are sequences, and the add operations reassign them. Records are values, not
shared objects. The icebreaker that changes is replaced at its index. The entry
it receives is written, with the same value, into that icebreaker's `entries`
and onto the flat `entries` list. `Store.Valid()` is the invariant the
operations keep:

- every icebreaker's `interactionCount` is the sum of `likeCount + |comments|` over its entries;
- every entry points back at its icebreaker;
- the flat entry list holds exactly the entries of all icebreakers, as a multiset.

The stable `Array.prototype.sort` (ECMAScript 2019 and later) is one generic
stable insertion sort, `Seqs.SortDesc`. It is proved sorted, a permutation and
stable, and its contract is proved to determine its result. `Math.random()` is
a nondeterministic choice of a real in [0, 1). Clock readings, the locale month
label and the date it parses back to are parameters. Timestamps are whole
milliseconds.

Points where the code's behaviour is easy to misread:

- a failed `entryText` minimum does not stop the cross-field refinement, so both kinds of issue can be reported together;
- the handler's own check on a new prompt (`!title || !description`) is weaker than the schema's;
- on the `existing` branch with no prompt id, the handler posts nothing and still finishes normally.

## Model

| member | source | states |
|---|---|---|
| Types.ParseRole | src/lib/types.ts:7 | a parsed role prints back as the same string; only `employee` and `admin` are accepted |
| Types.RoleRoundTrip | src/lib/types.ts:7 | every role survives printing and parsing |
| Types.ParseTopicType | src/app/create/page.tsx:37 | the form's `z.enum(['text', 'photo', 'mixed'])`: a parsed topic type prints back as the same string; only `photo`, `text` and `mixed` are accepted |
| Types.TopicTypeRoundTrip | src/lib/types.ts:16 | every topic type survives printing and parsing |
| Types.InteractionsPrepend | src/lib/types.ts:20 | putting an entry in front adds exactly its likes plus comments to the sum |
| Types.InteractionsAppend | src/lib/types.ts:20 | appending an entry adds exactly its likes plus comments to the sum |
| Types.InteractionsPermutation | src/lib/mock-data.ts:109-113 | the documented aggregate does not depend on entry order, so the date sort keeps it |
| Seqs.FindIndex | src/lib/mock-data.ts:122 | `find`: the result is the first element that satisfies the test, and none means that no element does |
| Seqs.SumByPermutation | src/lib/mock-data.ts:113 | a sum over a sequence is the same for any reordering |
| Seqs.FlatMapPermutation | src/lib/mock-data.ts:118 | reordering icebreakers reorders, and does not change, the multiset of their entries |
| Seqs.DistinctByPermutation | src/lib/mock-data.ts:118 | reordering keeps a key distinct across elements |
| Seqs.DistinctByAppend | src/lib/mock-data.ts:103-108 | two lists with distinct keys, and no key shared between them, concatenate to a list with distinct keys |
| Seqs.SortDesc | src/app/leaderboard/page.tsx:14 | the comparator sort: same length, non-increasing in the key, a permutation, and ties kept in input order |
| Seqs.SortDescUnique | src/app/leaderboard/page.tsx:14 | any sorted, tie-stable arrangement of the input is the sort's result, so the contract fixes the order |
| Seqs.SortDescIdempotent | src/lib/mock-data.ts:118-119 | sorting a sorted sequence changes nothing |
| Seqs.TopK | src/app/leaderboard/page.tsx:14-15 | sort then `slice(0, n)`: `min(n, len)` elements, sorted, a sub-multiset, nothing left out ranks higher than what is kept, and ties appear as a prefix of their input order |
| Strings.NatToString | src/lib/mock-data.ts:30 | the decimal form of a number: non-empty, all digits, with no leading zero, and the digits denote the number |
| Strings.NatToStringInjective | src/lib/mock-data.ts:53 | distinct numbers print differently, so numbered ids differ |
| Strings.DigitsSplit | src/lib/mock-data.ts:71 | a run of digits followed by a non-digit ends at the same place in two equal strings |
| Strings.Trim | src/components/icebreaker/CommentSection.tsx:26 | `trim()` is the slice of the text left once the white space at both ends is cut; it neither starts nor ends with white space |
| Strings.TrimEmptyIffBlank | src/components/icebreaker/CommentSection.tsx:26 | `trim()` leaves nothing exactly when every character is JavaScript white space |
| MockData.RandomIntFrom | src/lib/mock-data.ts:11-13 | `getRandomInt` for a draw in [0, 1) lies in [min, max] |
| MockData.RandomIntFromCovers | src/lib/mock-data.ts:11-13 | every value of [min, max] comes from some draw |
| MockData.RandomInt | src/lib/mock-data.ts:11-13 | the drawn integer lies in [min, max] |
| MockData.TruncateToInt | src/lib/mock-data.ts:16 | a fractional millisecond count is truncated toward zero, as a `Date` does |
| MockData.TruncateBetween | src/lib/mock-data.ts:15-17 | a date drawn between two instants, once truncated, still lies between them |
| MockData.RandomDate | src/lib/mock-data.ts:15-17 | the drawn date lies between start and end |
| MockData.RandomAbove | src/lib/mock-data.ts:60 | `Math.random() > t`: true is possible only for t below 1, false only for t at or above 0 |
| MockData.GetMockUserById | src/lib/mock-data.ts:122 | the first user with the id, and none exactly when no user has it |
| MockData.IcebreakerIndex | src/lib/mock-data.ts:129 | the position of the first icebreaker with the id, and none exactly when there is none |
| MockData.GetMockIcebreakerById | src/lib/mock-data.ts:129 | the first icebreaker with the id, the one at `IcebreakerIndex`; none exactly when no icebreaker has it |
| MockData.CurrentMockUser | src/lib/mock-data.ts:125 | the first admin if there is one; otherwise the first user, or none for an empty list |
| MockData.SeedUsers | src/lib/mock-data.ts:29-37 | 20 users `user-1`…`user-20`; only the first is an admin; ice level in 0..100; score in 10..200; exactly one admin |
| MockData.ChoosePrompt | src/lib/mock-data.ts:47-51 | a sample prompt, whose title is unused while unused titles remain |
| MockData.UnusedPromptExists | src/lib/mock-data.ts:48 | while fewer than 7 titles are used, some sample prompt has an unused title |
| MockData.SampleTitleListed | src/lib/mock-data.ts:19-27 | every sample prompt title is one of the seven titles |
| MockData.ListedTitleSample | src/lib/mock-data.ts:19-27 | every one of the seven titles belongs to a sample prompt |
| MockData.PromptTitlesCount | src/lib/mock-data.ts:19-27 | the seven sample titles are distinct |
| MockData.SeedComments | src/lib/mock-data.ts:92-105 | 0..3 comments, each linked to the entry, named `<entry>-comment-<k>`, with distinct ids, by a seeded user, dated between the entry and now |
| MockData.SeedEntry | src/lib/mock-data.ts:70-105 | the entry id is `<icebreaker>-entry-<j+1>`; the entry is linked to its icebreaker; 0..50 likes; 0..3 linked comments; dates in range |
| MockData.SeedIcebreaker | src/lib/mock-data.ts:53-113 | id `icebreaker-<i+1>` and a sample prompt; 1..3 linked entries with distinct ids, newest first; count equals likes plus comments; the creation-order list is a permutation of the entries |
| MockData.SeedIcebreakers | src/lib/mock-data.ts:45-115 | five icebreakers with distinct titles and ids, each seeded and linked; the entry list holds exactly their entries, with distinct ids, each under one of the icebreakers; the comment list is all comments entry by entry, with distinct ids, each on one of the entries |
| MockData.SeedStep | src/lib/mock-data.ts:103-108 | pushing an icebreaker's entries and comments keeps the flat lists equal to the flattened ones |
| MockData.DistinctStep | src/lib/mock-data.ts:47-51 | adding an icebreaker whose title is unused keeps the titles distinct |
| MockData.IdUnderOf | src/lib/mock-data.ts:53-96 | `<parent><tag><n>` is the parent and tag followed by a non-empty run of digits |
| MockData.NumberedStep | src/lib/mock-data.ts:53-96 | appending an id numbered above all earlier ones under the same prefix keeps ids distinct |
| MockData.IcebreakerIdSplit | src/lib/mock-data.ts:53 | two `icebreaker-<n>` ids followed by non-digit tails are equal with equal tails |
| MockData.EntryIdDetermines | src/lib/mock-data.ts:71 | entries of two seeded icebreakers share an id only when the icebreakers do |
| MockData.CommentIdDetermines | src/lib/mock-data.ts:96 | comments of two seeded entries share an id only when the entries do |
| MockData.AllCommentsDistinct | src/lib/mock-data.ts:96-104 | the comments of entries with distinct well-formed ids have distinct ids, and each belongs to one of the entries |
| MockData.CreatedWellNamed | src/lib/mock-data.ts:71-76 | the entries of a seeded icebreaker hang under its id and carry well-formed ids |
| MockData.EntryIdsStep | src/lib/mock-data.ts:107-108 | pushing the entries of an icebreaker with a new id keeps the entry ids distinct and owned |
| MockData.IdsStep | src/lib/mock-data.ts:53-114 | one more icebreaker `icebreaker-<n+1>` with its entries keeps all seeded ids distinct and owned |
| MockData.EntryAttachStep | src/lib/mock-data.ts:107-109 | pushing the next seeded entry and adding its likes and comments to the count keeps the entries seeded, with distinct ids, and the count exact |
| MockData.ReorderedEntriesSeeded | src/lib/mock-data.ts:113 | sorting an icebreaker's entries keeps them seeded and distinct, and its count exact |
| MockData.SeededPermutation | src/lib/mock-data.ts:118 | the icebreaker sort keeps each icebreaker seeded, counted and linked |
| MockData.UserIdsPermutation | src/lib/mock-data.ts:119 | the user sort keeps the set of user ids |
| MockData.SeededUsersAfterSort | src/lib/mock-data.ts:119 | the sorted users are 20 seeded users whose ids are exactly `user-1`…`user-20`, in range, with one admin, `user-1`, best score first |
| MockData.SeedUserIds | src/lib/mock-data.ts:29-30 | before the sort, the users' ids are exactly the set `user-1`…`user-20` |
| MockData.SeededCurrentUser | src/lib/mock-data.ts:119-125 | after the seed, the current user is the admin `user-1` |
| MockData.AllEntriesUpdate | src/lib/mock-data.ts:149-153 | replacing one icebreaker replaces its entries in the flattened entry multiset |
| MockData.AddEntryKeepsInvariant | src/lib/mock-data.ts:147-156 | prepending a linked entry and adding its likes plus comments keeps every count exact and the entry lists in step |
| MockData.Store.Seed | src/lib/mock-data.ts:39-119 | the store after start-up: valid; 20 seeded users with the ids `user-1`…`user-20`, best score first; 5 seeded icebreakers, newest first, with distinct titles; icebreaker, entry and comment ids each pairwise distinct; every entry under a stored icebreaker and every comment on a stored entry; the comment list is all comments of the entry list |
| MockData.Store.AddIcebreakerWithFirstEntry | src/lib/mock-data.ts:131-142 | the linked entry becomes the only entry; the count is set to its likes plus comments; the icebreaker goes first and the rest are unchanged; the entry is appended to the flat list; users and comments untouched; the store stays valid |
| MockData.Store.AddEntryToIcebreaker | src/lib/mock-data.ts:144-160 | on the first icebreaker with the id, the linked entry goes first and its likes plus comments are added to the count, and the entry is appended to the flat list; on an unknown id nothing changes; users and comments untouched; the store stays valid |
| CreateForm.RefineIssues | src/app/create/page.tsx:38-62 | the refinement never reports on `entryText`; for `existing` it reports only on `existingPrompt`, and for `new` never on it |
| CreateForm.FieldIssues | src/app/create/page.tsx:35 | the field checks report nothing exactly when the entry text is non-empty, and otherwise only the empty-text issue |
| CreateForm.Validate | src/app/create/page.tsx:30-62 | the empty-text issue comes first, with its message, exactly when the text is empty; at most three issues |
| CreateForm.ValidateAcceptsExactly | src/app/create/page.tsx:30-62 | no issue exactly for values with text, a prompt id for `existing`, and a title of 3+ and a description of 10+ characters for `new` |
| CreateForm.ExistingWithoutPrompt | src/app/create/page.tsx:39-45 | `existing` without a prompt raises exactly one refinement issue, on `existingPrompt`, and the new-prompt fields are not checked |
| CreateForm.NewPromptChecks | src/app/create/page.tsx:46-61 | for `new`, a title issue exactly when the title is missing or under 3 characters, and a description issue exactly when the description is missing or under 10; both can be reported |
| CreateForm.RouteOf | src/app/create/page.tsx:127-167 | the branch `onSubmit` takes: new prompt exactly when `new` has a title and a description, existing exactly when `existing` has an id, nothing for `existing` without one |
| CreateForm.ValidatedValuesPost | src/app/create/page.tsx:30-167 | values the schema accepts always reach a posting branch, with a new title of 3+ and a new description of 10+ characters |
| CreateForm.ImageUrl | src/app/create/page.tsx:107-122 | an image reference exactly when a file was selected and read, and then it is the data URL |
| CreateForm.Expected | src/app/create/page.tsx:127-202 | the toast of each branch: missing fields, nothing posted, a new icebreaker with its title, an unknown prompt, or an entry with the title of the first icebreaker whose id is the route's |
| CreateForm.PostNewPrompt | src/app/create/page.tsx:133-160 | `icebreaker-<stamp>` goes first with the entry `…-entry-1` as its only entry and a count of 0; the entry is appended to the flat list; the store stays valid |
| CreateForm.PostToExisting | src/app/create/page.tsx:176-189 | `<id>-entry-<stamp>` goes in front of the found icebreaker's entries, its count is unchanged, and the entry is appended to the flat list; the store stays valid |
| CreateForm.OnSubmit | src/app/create/page.tsx:98-202 | no current user, or an image read error, changes nothing, and with a user an image read error always ends in the image error. Otherwise the toast is the branch's own (`Expected`). A new prompt puts `icebreaker-<stamp>` first, with one entry `…-entry-1` with no likes or comments and a count of 0. An existing id prepends `<id>-entry-<stamp>` and leaves the count unchanged. An unknown id changes nothing. The store stays valid |
| Leaderboard.SortedUsers | src/app/leaderboard/page.tsx:14 | at most 10 users, non-increasing in score with absent as 0, taken from the users, none left out scoring higher, ties in store order |
| Leaderboard.SortedIcebreakers | src/app/leaderboard/page.tsx:15 | at most 10 icebreakers, non-increasing in interaction count, taken from the store, none left out ranking higher, ties in store order |
| Leaderboard.SortedUsersDetermined | src/app/leaderboard/page.tsx:14 | the ranking is the first ten of the unique sorted, tie-stable arrangement of the users |
| Leaderboard.SortedUsersOfSortedStore | src/app/leaderboard/page.tsx:14 | on users already sorted by score, as the store keeps them, the ranking is their first ten |
| Leaderboard.SortedUsersIdempotent | src/app/leaderboard/page.tsx:14 | ranking the ranking changes nothing |
| Leaderboard.SortedIcebreakersIdempotent | src/app/leaderboard/page.tsx:15 | ranking the icebreaker ranking changes nothing |
| Profile.UserEntries | src/app/profile/page.tsx:45 | exactly the user's entries, each as often as in the store, no more than there are entries |
| Profile.UserEntriesAppend | src/app/profile/page.tsx:45 | the filter distributes over concatenation, so it keeps store order |
| Profile.CommentsBy | src/app/profile/page.tsx:47 | the user's comment count of a list is at most its length |
| Profile.CommentsByAppend | src/app/profile/page.tsx:47 | the per-list counts add up over concatenation |
| Profile.UserCommentsCount | src/app/profile/page.tsx:46-48 | the per-entry reduce equals the number of the user's comments among all comments of all entries, and is at most the total |
| Profile.IceLevelProgress | src/app/profile/page.tsx:50-51 | the progress is in 0..100 for an ice level in 0..100; it is 100 exactly at level 0 and 0 exactly at level 100 |
| Profile.StatusMessage | src/app/profile/page.tsx:84 | "Fully Melted" exactly at level 0, "Still Frozen" exactly at level 100, "Keep melting" otherwise |
| Profile.StatusMatchesProgress | src/app/profile/page.tsx:84 | "Fully Melted" exactly at a full bar, "Still Frozen" exactly at an empty bar, "Keep melting" otherwise |
| Profile.RecentActivity | src/app/profile/page.tsx:110 | the first `min(5, n)` of the user's entries |
| Profile.View | src/app/profile/page.tsx:31-110 | the not-logged-in page exactly without a user. Otherwise: the entry count is the number of the user's entries; the comment count is the user's comments over all entries; the progress and status line are those of the user's ice level; the recent list is the first 5 of the user's entries, all the user's own |
| Feed.MonthsOf | src/app/page.tsx:14-22 | the dictionary's keys: each month of an icebreaker exactly once, and no other |
| Feed.SameInstantSameMonth | src/app/page.tsx:16 | the bucket key depends on the creation instant alone |
| Feed.InMonth | src/app/page.tsx:17-20 | a bucket holds exactly the icebreakers of its month |
| Feed.GroupByMonth | src/app/page.tsx:14-23 | the reduce builds the keys in first-seen order, and each bucket is its month's icebreakers in input order |
| Feed.NoEmptyGroup | src/app/page.tsx:17-20 | no bucket of a key is empty |
| Feed.GroupsPartition | src/app/page.tsx:14-22 | every icebreaker's month is a key, and the icebreaker is in that bucket and no other |
| Feed.GroupTotalStep | src/app/page.tsx:20 | one more icebreaker adds one to the bucket total of the distinct months that include its own |
| Feed.MonthsStep | src/app/page.tsx:17-20 | a new month is added as the last key with a bucket of one; a known month leaves the keys alone |
| Feed.GroupSizesSum | src/app/page.tsx:15-22 | the bucket sizes add up to the number of icebreakers |
| Feed.NoMonthsIffEmpty | src/app/page.tsx:28-47 | there are no months exactly when there are no icebreakers |
| Feed.FeedPage | src/app/page.tsx:26-47 | the months are the keys sorted newest first (stable); each bucket is non-empty and is its month's icebreakers; the empty state shows exactly when there are no icebreakers, and exactly when there are no months |
| Actions.InputIssues | src/lib/actions.ts:8-10 | no issue exactly for inputs of 3 or more characters |
| Actions.GenerateTopicSuggestionAction | src/lib/actions.ts:19-62 | short input: the validation-failed state with the issue and the input echoed, and no model call. Otherwise one call. A result gives the success state with it and nothing else; no result gives the retry message. A throw gives the `Error`'s message, or the generic one. The input is echoed whenever there is no data |
| Actions.DataAndIssuesExclusive | src/lib/actions.ts:26-61 | a returned state never has both suggestions and issues |
| Actions.IssuesIffNoCall | src/lib/actions.ts:27-38 | issues are reported exactly when the model was not called |
| ThermometerLike.LikeButton.constructor | src/components/icebreaker/ThermometerLike.tsx:20-21 | starts at the initial count, not liked, with no `onLike` calls |
| ThermometerLike.LikeButton.HandleLikeClick | src/components/icebreaker/ThermometerLike.tsx:30-36 | toggles the like, moves the count by one in the matching direction, calls `onLike` once, and keeps count = initial + own like |
| ThermometerLike.DoubleClick | src/components/icebreaker/ThermometerLike.tsx:32-35 | two clicks restore the count and the like state, with two `onLike` calls |
| CommentSection.PostDisabled | src/components/icebreaker/CommentSection.tsx:88 | the button is disabled exactly while loading or when the text is only white space |
| CommentSection.CommentBox.constructor | src/components/icebreaker/CommentSection.tsx:21-23 | starts with the given comments, empty text, not loading |
| CommentSection.CommentBox.SetText | src/components/icebreaker/CommentSection.tsx:84 | typing replaces the text and leaves the list, loading flag and scheduled posts alone |
| CommentSection.CommentBox.HandleSubmitComment | src/components/icebreaker/CommentSection.tsx:25-28 | a blank text or no user changes nothing. Otherwise loading starts and a post of the current text by the user is scheduled |
| CommentSection.CommentBox.CompletePost | src/components/icebreaker/CommentSection.tsx:29-42 | the scheduled comment (entry id, author id, untrimmed text) goes on top of the list and to `onCommentAdded`; the text is cleared and loading stops |
| CommentSection.SubmitAndPost | src/components/icebreaker/CommentSection.tsx:25-43 | a submit and its post add exactly one comment on top, by the user, with the untrimmed text, exactly when the text is not blank |
| SidebarNav.IsActive | src/components/layout/SidebarNav.tsx:26 | an active link is a character prefix of the path; the root link is active on `/` only |
| SidebarNav.ActiveOnOwnPath | src/components/layout/SidebarNav.tsx:26 | a link is active on its own path |
| SidebarNav.RootOnlyExact | src/components/layout/SidebarNav.tsx:26 | the root link is active on `/` only |
| SidebarNav.NonRootPrefix | src/components/layout/SidebarNav.tsx:26 | any other link is active exactly on the paths that start with it as plain text |
| SidebarNav.ProfilePrefixOfLongerSegment | src/components/layout/SidebarNav.tsx:26 | `/profileX` highlights `/profile`: segment boundaries are not checked |
| SidebarNav.InactiveOtherwise | src/components/layout/SidebarNav.tsx:26 | a link is inactive when the path neither is it nor starts with it |
| SidebarNav.ActiveItems | src/components/layout/SidebarNav.tsx:19-26 | the highlighted items are exactly the listed items active on the path |
| SidebarNav.AtMostOneWhenExclusive | src/components/layout/SidebarNav.tsx:19-26 | when no two items are active together, at most one is highlighted |
| SidebarNav.NavItemsExclusive | src/lib/constants.ts:12-43 | no two links of the navigation list are active on the same path |
| SidebarNav.AtMostOneActive | src/lib/constants.ts:12-43 | at most one item of the navigation list is highlighted on any path |

## Left out

- The topic-suggestion flow in `src/ai/flows/generate-topic-suggestion.ts` is a call to an external language model. It is not part of this model: its outcome is a parameter of `Actions.GenerateTopicSuggestionAction`.
- Floating-point display values are not modelled: the temperature, progress and hue of the like button, and the hue of the profile page. They have no effect on behaviour.
- `Math.random()` is a nondeterministic choice. The random text suffixes of seeded entries and comments are arbitrary strings.
- Clock readings are parameters. This covers `Date.now()` in the create page and the comment box, and the end date of `getRandomDate` (one reading `now` for the whole seed). ISO strings are replaced by millisecond counts.
- MockData.ChoosePrompt: the retry loop ends only when a random draw finds an unused title. Its termination depends on the draws. The model takes a draw that meets the loop's exit condition, so it does not model the number of retries.
- Feed.FeedPage: `toLocaleString` month labels and `new Date(label)` are parameters. The model does not check that the parsed date order matches calendar order.
- Aliasing is not modelled: an entry object shared between an icebreaker's `entries` and the flat entry list is a value written to both places. A later change made through one reference to a shared object is not reflected in the other.
- The optional `author` copies of a user attached to records for display are not modelled.
- Lengths are counted in characters, not UTF-16 code units. This affects zod's `min` and the trim of non-BMP text.
- Actions.GenerateTopicSuggestionAction: a missing `userInput` form field (`null`) is not modelled, and neither is the unused previous state.
- Browser and framework plumbing is not modelled:
  - `FileReader` is replaced by its outcome, a data URL or an error;
  - toasts are replaced by the outcome datatype of `CreateForm.OnSubmit`;
  - router navigation and form reset are not modelled;
  - React state batching and re-rendering are not modelled;
  - the comment box's 500 ms timer is a queue of scheduled posts.
- The leaderboard sorts run once at module load; they are modelled as functions of a store snapshot.
- CommentSection.CommentBox.HandleSubmitComment: the current user is a parameter, not the store's module constant.
- `IcebreakerCard.tsx`, the AI assistant page, `AppLayout.tsx`, the profile page for other users, and all layout markup are rendering only, so they are not modelled.
