/**
 * The single-form create-post page (app/posts/create/page.tsx): the form is
 * valid with a book, a rating, at most 2000 characters and at most 10
 * hashtags (extracted by lib/hashtags.ts); a valid submit sends the post and
 * a successful one navigates to it.
 */
module CreatePost {
  import opened Common
  import Seqs
  import Hashtags
  import HashtagLexer
  import Decimal

  const MaxContentLength: nat := 2000
  const InvalidFormError: string := "모든 필수 항목을 입력해주세요."
  const DefaultFailure: string := "게시물 작성에 실패했습니다."

  datatype Form = Form(
    selectedBook: Option<Book>,
    rating: int,
    content: string,
    images: seq<string>,
    isSubmitting: bool,
    error: string)

  function Initial(): Form {
    Form(None, 0, "", [], false, "")
  }

  /** The hashtags the page derives from the current content on every render. */
  function HashtagsOf(f: Form): seq<string> {
    Hashtags.ExtractHashtags(f.content)
  }

  /** `isFormValid`: the checks run in order, the first failing one deciding. */
  predicate IsFormValid(f: Form) {
    if f.selectedBook.None? then false
    else if f.rating == 0 then false
    else if |f.content| > MaxContentLength then false
    else if |HashtagsOf(f)| > Hashtags.MaxHashtags then false
    else true
  }

  datatype SubmitStep = SubmitStep(form: Form, sent: Option<PostData>)

  /**
   * `handleSubmit` up to the request: an invalid form only shows the error;
   * a valid one is busy and sends the post with the first ten hashtags.
   */
  function Submit(f: Form): (r: SubmitStep)
    ensures !IsFormValid(f) ==> r == SubmitStep(f.(error := InvalidFormError), None)
    ensures IsFormValid(f) ==>
      && r.form == f.(isSubmitting := true, error := "")
      && r.sent.Some?
      && r.sent.value.book == f.selectedBook.value
      && r.sent.value.rating == f.rating
      && r.sent.value.content == f.content
      && r.sent.value.images == f.images
      && r.sent.value.hashtags == Seqs.Take(HashtagsOf(f), Hashtags.MaxHashtags)
  {
    if !IsFormValid(f) then SubmitStep(f.(error := InvalidFormError), None)
    else
      var data := PostData(f.selectedBook.value, f.rating, f.content, f.images,
                           Seqs.Take(HashtagsOf(f), Hashtags.MaxHashtags));
      SubmitStep(f.(isSubmitting := true, error := ""), Some(data))
  }

  /** How `createPost` settled: the new post's id, an `Error` with its message, or another thrown value. */
  datatype Outcome = Created(postId: int) | ThrewError(message: string) | ThrewOther

  /** A completion: the form afterwards and the path navigated to, if any. */
  datatype Completion = Completion(form: Form, navigateTo: Option<string>)

  function PostPath(postId: int): string {
    "/posts/" + Decimal.IntToString(postId)
  }

  /**
   * The rest of `handleSubmit`: success navigates to the new post (the page
   * stays busy until it is replaced); failure shows the error and re-enables
   * submitting.
   */
  function FinishSubmit(f: Form, outcome: Outcome): (r: Completion)
    ensures outcome.Created? ==> r == Completion(f, Some(PostPath(outcome.postId)))
    ensures !outcome.Created? ==> r.navigateTo == None && !r.form.isSubmitting
    ensures !outcome.Created? ==> r.form == f.(isSubmitting := r.form.isSubmitting, error := r.form.error)
    ensures outcome.ThrewError? ==> r.form.error == outcome.message
    ensures outcome.ThrewOther? ==> r.form.error == DefaultFailure
  {
    match outcome
    case Created(id) => Completion(f, Some(PostPath(id)))
    case ThrewError(message) => Completion(f.(isSubmitting := false, error := message), None)
    case ThrewOther => Completion(f.(isSubmitting := false, error := DefaultFailure), None)
  }

  /** The submit button's `disabled` attribute. */
  predicate SubmitDisabled(f: Form) {
    !IsFormValid(f) || f.isSubmitting
  }

  /** The hashtag panel: the chips shown and the overflow badge's number, if any. */
  datatype Chips = Chips(shown: seq<string>, overflow: Option<nat>)

  function ChipsOf(f: Form): (c: Chips)
    ensures |c.shown| == if |HashtagsOf(f)| <= Hashtags.MaxHashtags then |HashtagsOf(f)| else Hashtags.MaxHashtags
    ensures c.shown == HashtagsOf(f)[..|c.shown|]
    ensures c.overflow.Some? <==> |HashtagsOf(f)| > Hashtags.MaxHashtags
    ensures c.overflow.Some? ==> |c.shown| + c.overflow.value == |HashtagsOf(f)|
  {
    var h := HashtagsOf(f);
    Chips(Seqs.Take(h, Hashtags.MaxHashtags),
          if |h| > Hashtags.MaxHashtags then Some(|h| - Hashtags.MaxHashtags) else None)
  }

  /** The form rule is the four conditions together, whatever their order. */
  lemma FormValidIff(f: Form)
    ensures IsFormValid(f) <==>
      f.selectedBook.Some? && f.rating != 0 && |f.content| <= MaxContentLength
      && |HashtagsOf(f)| <= Hashtags.MaxHashtags
  {
  }

  /** The page's inline hashtag rule decides exactly as `validateHashtagCount` would. */
  lemma InlineRuleAgreesWithValidator(f: Form)
    ensures (|HashtagsOf(f)| <= Hashtags.MaxHashtags) <==> Hashtags.ValidateHashtagCount(HashtagsOf(f)).Valid?
  {
  }

  /**
   * Cutting to ten never drops a tag that is sent: a valid form already has
   * at most ten, so the post carries every distinct tag of the content.
   */
  lemma SentHashtagsAreAllTags(f: Form)
    requires IsFormValid(f)
    ensures Submit(f).sent.value.hashtags == HashtagsOf(f)
    ensures Seqs.Distinct(Submit(f).sent.value.hashtags)
    ensures forall t :: t in Submit(f).sent.value.hashtags <==> t in HashtagLexer.Matches(HashtagLexer.WordOrHangul, f.content)
  {
  }

  /** While idle, the button is enabled exactly when pressing it would send. */
  lemma ButtonMatchesHandler(f: Form)
    requires !f.isSubmitting
    ensures !SubmitDisabled(f) <==> Submit(f).sent.Some?
  {
  }

  /** A failed request leaves the form as it was before the submit, with the error shown. */
  lemma FailureRestoresForm(f: Form, outcome: Outcome)
    requires !f.isSubmitting && IsFormValid(f) && !outcome.Created?
    ensures FinishSubmit(Submit(f).form, outcome).form == f.(error := FinishSubmit(Submit(f).form, outcome).form.error)
  {
  }
}

/**
 * The two-step create-post page (src/app/posts/create/page.tsx): a book is
 * searched and picked first, then the review is written; publishing needs a
 * book and a positive rating, and the hashtags come from src/lib/utils.ts.
 */
module CreatePostSteps {
  import opened Common
  import Seqs
  import Utils

  const IncompleteError: string := "Please select a book and provide a rating"
  const DefaultFailure: string := "Failed to create post. Please try again."

  datatype Step = Search | Editor

  datatype Page = Page(
    step: Step,
    selectedBook: Option<Book>,
    rating: int,
    content: string,
    images: seq<string>,
    submitting: bool,
    error: Option<string>)

  function Initial(): Page {
    Page(Search, None, 0, "", [], false, None)
  }

  /** The search step never holds a book. */
  predicate Consistent(p: Page) {
    p.step == Search ==> p.selectedBook.None?
  }

  /** `handleSelectBook`: the book is kept and the editor opens. */
  function SelectBook(p: Page, book: Book): (r: Page)
    ensures r.step == Editor && r.selectedBook == Some(book)
    ensures r == p.(step := r.step, selectedBook := r.selectedBook)
  {
    p.(step := Editor, selectedBook := Some(book))
  }

  /** `handleBackToSearch`: back to the search with no book; rating, review and images stay. */
  function BackToSearch(p: Page): (r: Page)
    ensures r.step == Search && r.selectedBook == None
    ensures r == p.(step := r.step, selectedBook := r.selectedBook)
  {
    p.(step := Search, selectedBook := None)
  }

  predicate CanPublish(p: Page) {
    p.selectedBook.Some? && p.rating > 0
  }

  datatype SubmitStep = SubmitStep(page: Page, sent: Option<PostData>)

  /**
   * `handleSubmit` up to the request: without a book and a rating only the
   * error changes; otherwise the page is busy and the post goes out with the
   * capped hashtag list of the review.
   */
  function Submit(p: Page): (r: SubmitStep)
    ensures !CanPublish(p) ==> r == SubmitStep(p.(error := Some(IncompleteError)), None)
    ensures CanPublish(p) ==>
      && r.page == p.(submitting := true, error := None)
      && r.sent == Some(PostData(p.selectedBook.value, p.rating, p.content, p.images,
                                 Utils.ExtractHashtags(p.content)))
  {
    if !CanPublish(p) then SubmitStep(p.(error := Some(IncompleteError)), None)
    else
      var data := PostData(p.selectedBook.value, p.rating, p.content, p.images, Utils.ExtractHashtags(p.content));
      SubmitStep(p.(submitting := true, error := None), Some(data))
  }

  /** How `postApi.create` settled: the new post's id, or a failure with the server's message (`""` when none). */
  datatype Outcome = Created(postId: string) | Failed(serverMessage: string)

  datatype Completion = Completion(page: Page, navigateTo: Option<string>)

  function FinishSubmit(p: Page, outcome: Outcome): (r: Completion)
    ensures outcome.Created? ==> r == Completion(p, Some("/posts/" + outcome.postId))
    ensures outcome.Failed? ==> r.navigateTo == None && !r.page.submitting
    ensures outcome.Failed? ==>
      r.page.error == Some(if outcome.serverMessage != "" then outcome.serverMessage else DefaultFailure)
    ensures outcome.Failed? ==> r.page == p.(submitting := false, error := r.page.error)
  {
    match outcome
    case Created(id) => Completion(p, Some("/posts/" + id))
    case Failed(message) =>
      Completion(p.(submitting := false, error := Some(if message != "" then message else DefaultFailure)), None)
  }

  predicate SubmitDisabled(p: Page) {
    !CanPublish(p) || p.submitting
  }

  /** Every step of the page keeps the search step free of a book. */
  lemma TransitionsKeepConsistent(p: Page, book: Book, outcome: Outcome)
    requires Consistent(p)
    ensures Consistent(SelectBook(p, book)) && Consistent(BackToSearch(p))
    ensures Consistent(Submit(p).page) && Consistent(FinishSubmit(p, outcome).page)
  {
  }

  /** The search step can never publish. */
  lemma SearchStepCannotPublish(p: Page)
    requires Consistent(p) && p.step == Search
    ensures Submit(p).sent == None
  {
  }

  /** Going back and picking another book keeps everything written so far. */
  lemma ChangeBookKeepsDraft(p: Page, book: Book)
    ensures SelectBook(BackToSearch(p), book) == SelectBook(p, book)
  {
  }

  /** The hashtags sent are distinct, at most ten, and all tags of the review. */
  lemma SentHashtagsBounded(p: Page)
    requires CanPublish(p)
    ensures |Submit(p).sent.value.hashtags| <= Utils.MaxHashtags
    ensures Seqs.Distinct(Submit(p).sent.value.hashtags)
  {
  }

  /** While idle, the button is enabled exactly when pressing it would send. */
  lemma ButtonMatchesHandler(p: Page)
    requires !p.submitting
    ensures !SubmitDisabled(p) <==> Submit(p).sent.Some?
  {
  }
}
