/**
 * The create page of `src/app/create/page.tsx`: the form schema with its
 * cross-field refinement, and the submit handler that builds an icebreaker
 * or an entry from validated form values and calls the store.
 */
module CreateForm {
  import opened Wrappers
  import opened Types
  import opened Strings
  import MockData

  datatype PromptOption = Existing | New

  /** The form values; `existingPrompt` holds an icebreaker id. */
  datatype FormValues = FormValues(
    promptOption: PromptOption,
    existingPrompt: Option<string>,
    newPromptTitle: Option<string>,
    newPromptDescription: Option<string>,
    entryText: string,
    imageSelected: bool,
    topicType: TopicType)

  datatype Field = ExistingPromptField | NewPromptTitleField | NewPromptDescriptionField | EntryTextField

  datatype Issue = Issue(path: Field, message: string)

  const EntryTextMessage := "Your entry text cannot be empty."
  const ExistingPromptMessage := "Please select an existing prompt."
  const NewPromptTitleMessage := "New prompt title must be at least 3 characters."
  const NewPromptDescriptionMessage := "New prompt description must be at least 10 characters."

  /** Missing, or shorter than `n` characters. */
  predicate TooShort(s: Option<string>, n: nat)
  {
    !Truthy(s) || |s.value| < n
  }

  /** The field checks of the schema; a failed minimum length does not stop the refinement. */
  function FieldIssues(v: FormValues): (r: seq<Issue>)
    ensures r == [] <==> v.entryText != []
    ensures r != [] ==> r == [Issue(EntryTextField, EntryTextMessage)]
  {
    if |v.entryText| < 1 then [Issue(EntryTextField, EntryTextMessage)] else []
  }

  /** The `superRefine` step: the prompt fields the chosen option needs. */
  function RefineIssues(v: FormValues): (r: seq<Issue>)
    ensures forall k :: 0 <= k < |r| ==> r[k].path != EntryTextField
    ensures v.promptOption == Existing ==> forall k :: 0 <= k < |r| ==> r[k].path == ExistingPromptField
    ensures v.promptOption == New ==> forall k :: 0 <= k < |r| ==> r[k].path != ExistingPromptField
  {
    match v.promptOption
    case Existing =>
      if !Truthy(v.existingPrompt) then [Issue(ExistingPromptField, ExistingPromptMessage)] else []
    case New =>
      (if TooShort(v.newPromptTitle, 3) then [Issue(NewPromptTitleField, NewPromptTitleMessage)] else [])
      + (if TooShort(v.newPromptDescription, 10) then [Issue(NewPromptDescriptionField, NewPromptDescriptionMessage)] else [])
  }

  /** Every issue the schema reports, field checks first. */
  function Validate(v: FormValues): (r: seq<Issue>)
    ensures v.entryText == [] <==> |r| > 0 && r[0].path == EntryTextField
    ensures v.entryText == [] ==> r[0] == Issue(EntryTextField, EntryTextMessage)
    ensures forall k :: 0 < k < |r| ==> r[k].path != EntryTextField
    ensures |r| <= 3
  {
    FieldIssues(v) + RefineIssues(v)
  }

  /** Values the form accepts, said directly. */
  ghost predicate Acceptable(v: FormValues)
  {
    && v.entryText != []
    && (v.promptOption == Existing ==> Truthy(v.existingPrompt))
    && (v.promptOption == New ==>
          Truthy(v.newPromptTitle) && |v.newPromptTitle.value| >= 3
          && Truthy(v.newPromptDescription) && |v.newPromptDescription.value| >= 10)
  }

  /** The schema reports no issue exactly for the acceptable values. */
  lemma ValidateAcceptsExactly(v: FormValues)
    ensures Validate(v) == [] <==> Acceptable(v)
  {
  }

  /** With `existing` chosen and no prompt picked, exactly one refinement issue is raised, and the new-prompt fields are not checked. */
  lemma ExistingWithoutPrompt(v: FormValues)
    requires v.promptOption == Existing && !Truthy(v.existingPrompt)
    ensures RefineIssues(v) == [Issue(ExistingPromptField, ExistingPromptMessage)]
    ensures v.entryText != [] ==> Validate(v) == [Issue(ExistingPromptField, ExistingPromptMessage)]
    ensures forall i | i in Validate(v) :: i.path != NewPromptTitleField && i.path != NewPromptDescriptionField
  {
  }

  /** With `new` chosen, title and description are checked independently and both failures are reported. */
  lemma NewPromptChecks(v: FormValues)
    requires v.promptOption == New
    ensures Issue(NewPromptTitleField, NewPromptTitleMessage) in Validate(v) <==> TooShort(v.newPromptTitle, 3)
    ensures Issue(NewPromptDescriptionField, NewPromptDescriptionMessage) in Validate(v) <==> TooShort(v.newPromptDescription, 10)
    ensures forall i | i in Validate(v) :: i.path != ExistingPromptField
  {
    var r := Validate(v);
    if Issue(NewPromptTitleField, NewPromptTitleMessage) in r {
      var k :| 0 <= k < |r| && r[k] == Issue(NewPromptTitleField, NewPromptTitleMessage);
    }
    if Issue(NewPromptDescriptionField, NewPromptDescriptionMessage) in r {
      var k :| 0 <= k < |r| && r[k] == Issue(NewPromptDescriptionField, NewPromptDescriptionMessage);
    }
  }

  /** Which branch of the submit handler the values take. */
  datatype Route =
    | NewPrompt(title: string, description: string)
    | ExistingPrompt(icebreakerId: string)
    | MissingPromptFields   // `new` without a title or a description
    | NoRoute               // `existing` without a prompt: nothing is posted

  function RouteOf(v: FormValues): (r: Route)
    ensures r.NewPrompt? <==> v.promptOption == New && Truthy(v.newPromptTitle) && Truthy(v.newPromptDescription)
    ensures r.NewPrompt? ==> v.newPromptTitle == Some(r.title) && v.newPromptDescription == Some(r.description)
    ensures r.ExistingPrompt? <==> v.promptOption == Existing && Truthy(v.existingPrompt)
    ensures r.ExistingPrompt? ==> v.existingPrompt == Some(r.icebreakerId)
    ensures r.NoRoute? <==> v.promptOption == Existing && !Truthy(v.existingPrompt)
  {
    match v.promptOption
    case New =>
      if !Truthy(v.newPromptTitle) || !Truthy(v.newPromptDescription) then MissingPromptFields
      else NewPrompt(v.newPromptTitle.value, v.newPromptDescription.value)
    case Existing =>
      if Truthy(v.existingPrompt) then ExistingPrompt(v.existingPrompt.value) else NoRoute
  }

  /** Values the schema accepts always reach one of the two posting branches. */
  lemma ValidatedValuesPost(v: FormValues)
    requires Validate(v) == []
    ensures RouteOf(v).NewPrompt? || RouteOf(v).ExistingPrompt?
    ensures RouteOf(v).NewPrompt? ==> |RouteOf(v).title| >= 3 && |RouteOf(v).description| >= 10
  {
    ValidateAcceptsExactly(v);
  }

  /** The outcome of reading the selected image as a data URL. */
  datatype ImageRead = DataUrl(url: string) | ReadError

  /** The image reference an entry gets: none without a selected file, else the data URL read. */
  function ImageUrl(v: FormValues, read: ImageRead): (r: Option<string>)
    ensures r.Some? <==> v.imageSelected && read.DataUrl?
    ensures r.Some? ==> r.value == read.url
  {
    if v.imageSelected && read.DataUrl? then Some(read.url) else None
  }

  /** The toast the handler ends with. */
  datatype SubmitOutcome =
    | UserNotFound
    | ImageUploadError
    | PromptFieldsRequired
    | IcebreakerPosted(title: string)
    | PromptNotFound
    | EntryPosted(title: string)
    | NothingPosted

  /**
   * The `new` branch once the prompt fields are present: a fresh icebreaker
   * `icebreaker-<stamp>` with the submitted entry as its first and only entry,
   * in front of the store.
   */
  method PostNewPrompt(store: MockData.Store, v: FormValues, title: string, description: string, authorId: string,
                       imageUrl: Option<string>, stamp: nat, entryCreatedAt: int, icebreakerCreatedAt: int)
    requires store.Valid()
    modifies store
    ensures store.Valid()
    ensures store.users == old(store.users) && store.comments == old(store.comments)
    ensures var id := "icebreaker-" + NatToString(stamp);
      var entry := Entry(id + "-entry-1", id, authorId, Some(v.entryText), imageUrl, entryCreatedAt, 0, []);
      && store.icebreakers == [Icebreaker(id, title, description, v.topicType, authorId, icebreakerCreatedAt, 0, [entry])]
                              + old(store.icebreakers)
      && store.entries == old(store.entries) + [entry]
  {
    var icebreakerId := "icebreaker-" + NatToString(stamp);
    var entry := Entry(icebreakerId + "-entry-1", icebreakerId, authorId, Some(v.entryText), imageUrl,
                       entryCreatedAt, 0, []);
    var icebreaker := Icebreaker(icebreakerId, title, description, v.topicType, authorId,
                                 icebreakerCreatedAt, 0, [entry]);
    store.AddIcebreakerWithFirstEntry(icebreaker, entry);
  }

  /**
   * The `existing` branch once the icebreaker is found: the entry
   * `<id>-entry-<stamp>` goes in front of its entries and at the end of the
   * flat list.
   */
  method PostToExisting(store: MockData.Store, v: FormValues, target: Icebreaker, authorId: string,
                        imageUrl: Option<string>, stamp: nat, entryCreatedAt: int)
    requires store.Valid()
    requires MockData.GetMockIcebreakerById(store.icebreakers, target.id) == Some(target)
    modifies store
    ensures store.Valid()
    ensures store.users == old(store.users) && store.comments == old(store.comments)
    ensures var i := MockData.IcebreakerIndex(old(store.icebreakers), target.id).value;
      var entry := Entry(target.id + "-entry-" + NatToString(stamp), target.id, authorId, Some(v.entryText),
                         imageUrl, entryCreatedAt, 0, []);
      && store.icebreakers == old(store.icebreakers)[i := target.(entries := [entry] + target.entries)]
      && store.entries == old(store.entries) + [entry]
  {
    var entry := Entry(target.id + "-entry-" + NatToString(stamp), target.id, authorId,
                       Some(v.entryText), imageUrl, entryCreatedAt, 0, []);
    var found := store.AddEntryToIcebreaker(target.id, entry);
  }

  /**
   * The toast a route ends with once a user is found and the image is read,
   * for the icebreakers `ibs` the store holds.
   */
  function Expected(route: Route, ibs: seq<Icebreaker>): (r: SubmitOutcome)
    ensures r != UserNotFound && r != ImageUploadError
    ensures r == PromptFieldsRequired <==> route == MissingPromptFields
    ensures r == NothingPosted <==> route == NoRoute
    ensures r.IcebreakerPosted? <==> route.NewPrompt?
    ensures r.IcebreakerPosted? ==> r.title == route.title
    ensures r == PromptNotFound <==> route.ExistingPrompt? && forall ib | ib in ibs :: ib.id != route.icebreakerId
    ensures r.EntryPosted? <==> route.ExistingPrompt? && exists ib | ib in ibs :: ib.id == route.icebreakerId
    ensures r.EntryPosted? <==> route.ExistingPrompt? && MockData.IcebreakerIndex(ibs, route.icebreakerId).Some?
    ensures r.EntryPosted? ==> r.title == ibs[MockData.IcebreakerIndex(ibs, route.icebreakerId).value].title
  {
    match route
    case MissingPromptFields => PromptFieldsRequired
    case NoRoute => NothingPosted
    case NewPrompt(title, _) => IcebreakerPosted(title)
    case ExistingPrompt(id) =>
      match MockData.GetMockIcebreakerById(ibs, id)
      case None => PromptNotFound
      case Some(target) => EntryPosted(target.title)
  }

  /**
   * `onSubmit`. The current user is the store's `currentMockUser`; `stamp` is
   * `Date.now()` and `entryCreatedAt`, `icebreakerCreatedAt` are the clock
   * readings the handler takes.
   */
  method OnSubmit(store: MockData.Store, v: FormValues, read: ImageRead, stamp: nat, entryCreatedAt: int, icebreakerCreatedAt: int)
    returns (outcome: SubmitOutcome)
    requires store.Valid()
    modifies store
    ensures store.Valid()
    ensures store.users == old(store.users) && store.comments == old(store.comments)
    ensures outcome == UserNotFound <==> MockData.CurrentMockUser(old(store.users)).None?
    ensures outcome == ImageUploadError ==> v.imageSelected && read == ReadError
    ensures outcome == PromptFieldsRequired ==> RouteOf(v) == MissingPromptFields
    ensures outcome == NothingPosted ==> RouteOf(v) == NoRoute
    ensures outcome == PromptNotFound ==>
      RouteOf(v).ExistingPrompt? && MockData.IcebreakerIndex(old(store.icebreakers), RouteOf(v).icebreakerId).None?
    ensures !outcome.IcebreakerPosted? && !outcome.EntryPosted? ==>
      store.icebreakers == old(store.icebreakers) && store.entries == old(store.entries)
    ensures outcome.IcebreakerPosted? ==>
      var author := MockData.CurrentMockUser(old(store.users)).value;
      var id := "icebreaker-" + NatToString(stamp);
      var entry := Entry(id + "-entry-1", id, author.id, Some(v.entryText), ImageUrl(v, read), entryCreatedAt, 0, []);
      && RouteOf(v).NewPrompt? && outcome.title == RouteOf(v).title
      && store.icebreakers == [Icebreaker(id, RouteOf(v).title, RouteOf(v).description, v.topicType, author.id,
                                          icebreakerCreatedAt, 0, [entry])] + old(store.icebreakers)
      && store.entries == old(store.entries) + [entry]
    ensures outcome.EntryPosted? ==>
      var author := MockData.CurrentMockUser(old(store.users)).value;
      && RouteOf(v).ExistingPrompt?
      && var i := MockData.IcebreakerIndex(old(store.icebreakers), RouteOf(v).icebreakerId);
      && i.Some?
      && var target := old(store.icebreakers)[i.value];
      var entry := Entry(target.id + "-entry-" + NatToString(stamp), target.id, author.id, Some(v.entryText),
                         ImageUrl(v, read), entryCreatedAt, 0, []);
      && outcome.title == target.title
      && store.icebreakers == old(store.icebreakers)[i.value := target.(entries := [entry] + target.entries)]
      && store.entries == old(store.entries) + [entry]
    ensures MockData.CurrentMockUser(old(store.users)).Some? && v.imageSelected && read == ReadError ==>
      outcome == ImageUploadError
    ensures MockData.CurrentMockUser(old(store.users)).Some? && !(v.imageSelected && read == ReadError) ==>
      outcome == Expected(RouteOf(v), old(store.icebreakers))
    ensures Validate(v) == [] && MockData.CurrentMockUser(old(store.users)).Some? && !(v.imageSelected && read == ReadError) ==>
      outcome.IcebreakerPosted? || outcome.EntryPosted? || outcome == PromptNotFound
  {
    var currentUser := MockData.CurrentMockUser(store.users);
    if currentUser.None? {
      return UserNotFound;
    }
    var author := currentUser.value;

    var imageUrl: Option<string> := None;
    if v.imageSelected {
      match read
      case ReadError =>
        return ImageUploadError;
      case DataUrl(url) =>
        imageUrl := Some(url);
    }

    if Validate(v) == [] {
      ValidatedValuesPost(v);
    }
    var route := RouteOf(v);
    match route
    case MissingPromptFields =>
      return PromptFieldsRequired;
    case NewPrompt(title, description) =>
      PostNewPrompt(store, v, title, description, author.id, imageUrl, stamp, entryCreatedAt, icebreakerCreatedAt);
      outcome := IcebreakerPosted(title);
    case ExistingPrompt(id) =>
      var target := MockData.GetMockIcebreakerById(store.icebreakers, id);
      if target.None? {
        return PromptNotFound;
      }
      PostToExisting(store, v, target.value, author.id, imageUrl, stamp, entryCreatedAt);
      outcome := EntryPosted(target.value.title);
    case NoRoute =>
      outcome := NothingPosted;
  }
}
