/**
 * The server action `generateTopicSuggestionAction` of `src/lib/actions.ts`:
 * the input check, then one call to the topic-suggestion model, and the
 * mapping of every outcome to the form state returned to the page. The model
 * call is opaque: its outcome is a parameter.
 */
module Actions {
  import opened Wrappers

  /** What the model returns: a polished topic and alternative headlines. */
  datatype TopicSuggestion = TopicSuggestion(polishedTopic: string, alternativeHeadlines: seq<string>)

  datatype FormState = FormState(
    message: string,
    fields: Option<map<string, string>>,
    issues: Option<seq<string>>,
    data: Option<TopicSuggestion>)

  /** A value thrown by the model call: an `Error` with its message, or anything else. */
  datatype Thrown = ErrorObject(message: string) | OtherValue

  /** How the model call ends: with a result (possibly none) or by throwing. */
  datatype AiOutcome = Returned(result: Option<TopicSuggestion>) | Threw(error: Thrown)

  /** The state returned, and the inputs the model was called with. */
  datatype ActionResult = ActionResult(state: FormState, aiCalls: seq<string>)

  const MinInputMessage := "Please enter at least 3 characters for your topic idea."
  const ValidationFailedMessage := "Validation failed. Please check your input."
  const SuccessMessage := "Successfully generated topic suggestions!"
  const NoSuggestionsMessage := "AI could not generate suggestions for this input. Please try a different topic."
  const UnexpectedErrorMessage := "An unexpected error occurred while generating topic suggestions."

  /** The schema's issues for `userInput`. */
  function InputIssues(userInput: string): (r: seq<string>)
    ensures r == [] <==> |userInput| >= 3
  {
    if |userInput| < 3 then [MinInputMessage] else []
  }

  function Echo(userInput: string): map<string, string>
  {
    map["userInput" := userInput]
  }

  /** `generateTopicSuggestionAction`; the previous state is not read. */
  function GenerateTopicSuggestionAction(userInput: string, ai: AiOutcome): (r: ActionResult)
    ensures |userInput| < 3 ==>
      r == ActionResult(FormState(ValidationFailedMessage, Some(Echo(userInput)), Some([MinInputMessage]), None), [])
    ensures |userInput| >= 3 ==> r.aiCalls == [userInput] && r.state.issues.None?
    ensures r.state.data.Some? <==> |userInput| >= 3 && ai.Returned? && ai.result.Some?
    ensures r.state.data.Some? ==>
      r.state == FormState(SuccessMessage, None, None, ai.result)
    ensures r.state.data.None? ==> r.state.fields == Some(Echo(userInput))
    ensures |userInput| >= 3 && ai == Returned(None) ==> r.state.message == NoSuggestionsMessage
    ensures |userInput| >= 3 && ai.Threw? ==>
      r.state.message == (if ai.error.ErrorObject? then ai.error.message else UnexpectedErrorMessage)
  {
    var issues := InputIssues(userInput);
    if issues != [] then
      ActionResult(FormState(ValidationFailedMessage, Some(Echo(userInput)), Some(issues), None), [])
    else
      var state :=
        match ai
        case Returned(Some(result)) => FormState(SuccessMessage, None, None, Some(result))
        case Returned(None) => FormState(NoSuggestionsMessage, Some(Echo(userInput)), None, None)
        case Threw(error) =>
          var errorMessage := if error.ErrorObject? then error.message else UnexpectedErrorMessage;
          FormState(errorMessage, Some(Echo(userInput)), None, None);
      ActionResult(state, [userInput])
  }

  /** A returned state never carries both suggestions and issues. */
  lemma DataAndIssuesExclusive(userInput: string, ai: AiOutcome)
    ensures var s := GenerateTopicSuggestionAction(userInput, ai).state;
      !(s.data.Some? && s.issues.Some?)
  {
  }

  /** Issues are reported exactly when the model was not called. */
  lemma IssuesIffNoCall(userInput: string, ai: AiOutcome)
    ensures var r := GenerateTopicSuggestionAction(userInput, ai);
      r.state.issues.Some? <==> r.aiCalls == []
  {
  }
}
