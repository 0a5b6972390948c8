/**
 * The comment and reply input box (src/components/CommentInput/CommentInput.jsx):
 * a 500-character counter with an over-limit and a near-limit warning, and
 * a submit handler that rejects blank and over-long text, sends the trimmed
 * text, and on success clears the box (or restores the reply mention).
 * The `onSubmit` callback is the `sent` payload and the outcome fed back to
 * `FinishSubmit`.
 */
module CommentInput {
  import opened Common
  import Decimal
  import Whitespace

  const MaxChars: nat := 500
  /** The counter warns once at most this many characters remain. */
  const NearLimitMargin: nat := 50

  const EmptyError: string := "내용을 입력해주세요."
  const LengthError: string := "댓글은 " + Decimal.NatToString(MaxChars) + "자 이하로 작성해주세요."
  const DefaultFailure: string := "댓글 작성에 실패했습니다."

  /**
   * The component's props that the logic reads. An absent `mentionUser` is
   * the empty string: both are falsy, and the code only tests truthiness.
   */
  datatype Props = Props(isReply: bool, mentionUser: string, initialValue: string)

  datatype State = State(content: string, isSubmitting: bool, error: string)

  /** The counter below the text area. */
  datatype Counter = Counter(remaining: int, isOverLimit: bool, isNearLimit: bool)

  /** `@user ` for a reply that mentions someone, otherwise nothing. */
  function MentionPrefix(p: Props): string {
    if p.isReply && p.mentionUser != "" then "@" + p.mentionUser + " " else ""
  }

  /** The content once the mount effect has run. */
  function InitialContent(p: Props): (content: string)
    ensures p.isReply && p.mentionUser != "" && p.initialValue == "" ==>
      content == "@" + p.mentionUser + " "
    ensures !(p.isReply && p.mentionUser != "" && p.initialValue == "") ==> content == p.initialValue
  {
    if p.initialValue == "" then MentionPrefix(p) else p.initialValue
  }

  function Initial(p: Props): State {
    State(InitialContent(p), false, "")
  }

  function CounterOf(content: string): (c: Counter)
    ensures c.remaining + |content| == MaxChars
    ensures c.isOverLimit <==> |content| > MaxChars
    ensures c.isNearLimit <==> MaxChars - NearLimitMargin <= |content| <= MaxChars
    ensures !(c.isOverLimit && c.isNearLimit)
  {
    var remaining := MaxChars - |content|;
    Counter(remaining, remaining < 0, remaining <= NearLimitMargin && remaining >= 0)
  }

  /** `handleChange`: new text, and any error cleared. */
  function Change(s: State, newValue: string): (r: State)
    ensures r.content == newValue && r.error == "" && r.isSubmitting == s.isSubmitting
  {
    State(newValue, s.isSubmitting, "")
  }

  /** The outcome of pressing submit: the next state and the text handed to `onSubmit`, if any. */
  datatype SubmitStep = SubmitStep(state: State, sent: Option<string>)

  /**
   * `handleSubmit` up to the call: blank text is refused first, then text
   * over the limit (by its untrimmed length); otherwise the trimmed text is
   * sent and the box is busy.
   */
  function Submit(s: State): (r: SubmitStep)
    ensures Whitespace.AllWhitespace(s.content) ==>
      r == SubmitStep(State(s.content, s.isSubmitting, EmptyError), None)
    ensures !Whitespace.AllWhitespace(s.content) && |s.content| > MaxChars ==>
      r == SubmitStep(State(s.content, s.isSubmitting, LengthError), None)
    ensures r.sent.Some? <==> !Whitespace.AllWhitespace(s.content) && |s.content| <= MaxChars
    ensures r.sent.Some? ==>
      && r.state == State(s.content, true, "")
      && r.sent.value == Whitespace.Trim(s.content)
  {
    if Whitespace.Trim(s.content) == "" then SubmitStep(s.(error := EmptyError), None)
    else if CounterOf(s.content).isOverLimit then SubmitStep(s.(error := LengthError), None)
    else SubmitStep(s.(isSubmitting := true, error := ""), Some(Whitespace.Trim(s.content)))
  }

  /** What `onSubmit` did: resolved, or threw with the server's message if it sent one (`""` when not). */
  datatype Outcome = Succeeded | Threw(serverMessage: string)

  /**
   * The rest of `handleSubmit`: on success the box is emptied, or reset to
   * the mention of a reply; on failure the text stays and an error shows.
   */
  function FinishSubmit(p: Props, s: State, outcome: Outcome): (r: State)
    ensures !r.isSubmitting
    ensures outcome.Succeeded? ==> r.content == MentionPrefix(p) && r.error == s.error
    ensures outcome.Threw? ==> r.content == s.content && r.error != ""
    ensures outcome.Threw? ==>
      r.error == (if outcome.serverMessage != "" then outcome.serverMessage else DefaultFailure)
  {
    match outcome
    case Succeeded => State(MentionPrefix(p), false, s.error)
    case Threw(message) => State(s.content, false, if message != "" then message else DefaultFailure)
  }

  /** `handleCancel`: the box is emptied and the error cleared. */
  function Cancel(s: State): (r: State)
    ensures r.content == "" && r.error == "" && r.isSubmitting == s.isSubmitting
  {
    State("", s.isSubmitting, "")
  }

  /** The submit button's `disabled` attribute. */
  predicate SubmitDisabled(s: State) {
    s.isSubmitting || Whitespace.Trim(s.content) == "" || CounterOf(s.content).isOverLimit
  }

  /** The length error names the limit. */
  lemma LengthErrorText()
    ensures LengthError == "댓글은 500자 이하로 작성해주세요."
  {
    assert Decimal.NatToString(500) == Decimal.NatToString(50) + "0";
    assert Decimal.NatToString(50) == Decimal.NatToString(5) + "0";
  }

  /** When the box is idle, the button is enabled exactly when pressing it would send. */
  lemma ButtonMatchesHandler(s: State)
    requires !s.isSubmitting
    ensures !SubmitDisabled(s) <==> Submit(s).sent.Some?
  {
  }

  /** What is sent is non-blank, has no surrounding whitespace, and is within the limit. */
  lemma SentTextIsClean(s: State)
    requires Submit(s).sent.Some?
    ensures var t := Submit(s).sent.value;
      && 0 < |t| <= MaxChars
      && !Whitespace.IsWhitespace(t[0]) && !Whitespace.IsWhitespace(t[|t| - 1])
  {
    var t := Whitespace.Trim(s.content);
    var lead :| Whitespace.TrimmedAt(s.content, t, lead);
  }

  /**
   * After a success the box holds what a fresh box without an initial value
   * starts with: the mention of a reply, or nothing. It matches the fresh
   * box of the same props exactly when there is no initial value or the
   * initial value is that very mention.
   */
  lemma ReplyResetsToFreshBox(p: Props, s: State)
    ensures FinishSubmit(p, s, Succeeded).content == Initial(p.(initialValue := "")).content
    ensures FinishSubmit(p, s, Succeeded).content == Initial(p).content
      <==> p.initialValue == "" || p.initialValue == MentionPrefix(p)
  {
  }
}
