# Book-review front-end: the rules behind the pages, in Dafny

The repository holds two parallel front-ends of a book-review site: the root
`app/`, `components/`, `lib/` tree and the `src/` tree. Around the React
markup and the HTTP calls sits a set of small, sequential rules, and this
project models those rules as pure Dafny functions over immutable data. Each
rule that the two trees duplicate with differences is modelled once per
variant.

- **Hashtags, two dialects.** `lib/hashtags.ts` scans `#` followed by ASCII
  word characters or Hangul syllables. It extracts the distinct tags with no
  cap, highlights matches with a `span`, and checks the ten-tag limit.
  `src/lib/utils.ts` scans `#` followed by letters, numbers or `_`. It
  extracts at most ten distinct tags and cuts text into plain and tag parts.
  Both regular expressions are one left-to-right, greedy scanner
  (`HashtagLexer.Lex`). The scanner is proved to reproduce the text, to obey
  the regular expression, and to be the only tokenization that does both.
- **The comment tree** (`organizeComments`). A flat comment list becomes
  top-level comments carrying their replies, with replies to absent parents
  dropped and both levels sorted by `createdAt`. The sort is
  `Array.prototype.sort`, which ECMAScript requires to be stable. It is
  modelled as an insertion sort (`StableSort.Sort`), and that sort is proved
  to be the only sorted permutation that keeps every same-key group in input
  order. The header count is proved to equal the input length minus the
  orphan replies.
- **The like-count formatter** (`formatLikeCount`): plain below 1000, then
  `k`, then `만`, as a whole number or with one decimal digit.
- **The like button**: a state machine that flips optimistically and sends
  one request. On completion it adopts the server's values, or rolls back
  and alerts.
- **The comment box**: the counter flags, the blank and length checks, the
  trimmed text it sends, the reset after success, and the initial
  `@mention`.
- **The two create-post pages**: the root single form (`isFormValid`,
  hashtag chips, the ten-tag cut) and the `src` two-step page (search, then
  editor; `canPublish`).
- **The image validators and three image pickers.** The pickers keep a list
  bounded by `maxImages` under three admission policies: skip invalid files
  (`components/ImageUploader.tsx`), refuse the whole batch
  (`src/components/ImageUploader.tsx`), and cut at the first invalid file
  (`src/components/ImageUploader/ImageUploader.jsx`).

Strings are `seq<char>` and timestamps are `int`. A file is
`File(mimeType, size)`. Everything asynchronous becomes an explicit input:

- the server's answer to the like request (`LikeButton.Response`);
- the create call's outcome (`CreatePost.Outcome`, `CreatePostSteps.Outcome`);
- `onSubmit`'s outcome (`CommentInput.Outcome`);
- the preview read of each selected file (`SkipInvalidUploader.Selected`);
- the upload of each file (`AllOrNothingUploader.Upload`);
- the data URL a reader produces (`CutAtInvalidUploader.Picked`).

Each page's state is a record, and each handler is a function from the old
state to the new one, together with the request it sends, if any.

| file | modules |
|---|---|
| `common.dfy` | `Common`: `Option`, `Verdict` (a validator's `{ valid, error }`), `Book`, `PostData` |
| `seqs.dfy` | `Seqs`: `Distinct`, `FirstIndex`, `Dedup` (`Array.from(new Set(…))`), `Take` (`slice(0, n)`), `RemoveAt` (`filter((_, i) => i !== index)`), `Filter` and its counting lemmas |
| `decimal.dfy` | `Decimal`: the decimal numerals JavaScript prints for integers |
| `whitespace.dfy` | `Whitespace`: `String.prototype.trim` |
| `hashtag_lexer.dfy` | `HashtagLexer`: the shared scanner for `/#([C]+)/g` |
| `hashtags.dfy` | `Hashtags`: lib/hashtags.ts |
| `utils.dfy` | `Utils`: src/lib/utils.ts |
| `image_files.dfy` | `ImageFiles` (the shared type-then-size rule), `ImageUpload`: lib/imageUpload.ts |
| `stable_sort.dfy` | `StableSort`: stable sort by an integer key, and its uniqueness |
| `comment_list.dfy` | `CommentList`: src/components/CommentList/CommentList.jsx |
| `format_number.dfy` | `FormatNumber`: src/utils/formatNumber.ts |
| `like_button.dfy` | `LikeButton`: src/components/Post/LikeButton.tsx |
| `comment_input.dfy` | `CommentInput`: src/components/CommentInput/CommentInput.jsx |
| `create_post.dfy` | `CreatePost`: app/posts/create/page.tsx; `CreatePostSteps`: src/app/posts/create/page.tsx |
| `image_uploaders.dfy` | `SkipInvalidUploader`, `AllOrNothingUploader`, `CutAtInvalidUploader` |

## Model

| member | source | states |
|---|---|---|
| HashtagLexer.Lex | lib/hashtags.ts:6-7 | The tokens spell the text back exactly. Every match has a non-empty body of class characters, and no class character follows it (the `+` is greedy). A plain `#` is never followed by a class character, since a match would start there. |
| HashtagLexer.LexUnique | lib/hashtags.ts:6 | Any tokenization that spells the text and obeys those rules is the scanner's: the global match is determined by the text alone. |
| HashtagLexer.MatchPosition | lib/hashtags.ts:6-7 | Every match sits in the text as `#`, then its body verbatim, then the end of the text or a non-class character. |
| HashtagLexer.NoHashNoMatches | lib/hashtags.ts:7-9 | Text without `#` has no match. |
| HashtagLexer.MatchesAreValid | lib/hashtags.ts:6 | Every match body is non-empty and made of class characters only (Hangul jamo are not in the root class). |
| Seqs.Dedup | lib/hashtags.ts:13 | The result is duplicate-free, holds exactly the input's values, and orders them by first occurrence. |
| Hashtags.ExtractHashtags | lib/hashtags.ts:5-14 | The tags are distinct, are exactly the match bodies as a set, come in order of first occurrence, and are uncapped. Each is a valid body. Text without `#` gives none. |
| Hashtags.ValidateHashtagCount | lib/hashtags.ts:29-40 | Valid exactly when there are at most ten tags; otherwise the error is the Korean limit message. |
| Hashtags.HighlightHashtags | lib/hashtags.ts:19-24 | Text with no match, and so any text without `#`, comes back unchanged. What happens to the matches is stated by `Hashtags.HighlightRoundTrip`, `Hashtags.HighlightSpans` and `Hashtags.HighlightSpanCount`. |
| Hashtags.HighlightRoundTrip | lib/hashtags.ts:19-24 | For text without `<`, deleting the span markup gives the original text back: highlighting only inserts markup and copies every character of the text. |
| Hashtags.HighlightSpans | lib/hashtags.ts:19-24 | For text without `<`, a scanner that reads the spans of the highlighted text finds exactly the matches, in order, repeats included. Each match is therefore replaced by a span around that same match, and the span bodies equal the extracted hashtags as a set. |
| Hashtags.HighlightSpanCount | lib/hashtags.ts:19-24 | Highlighting adds exactly one span (two `<`) per match, repeated tags included, so spans and matches agree in number. |
| Seqs.Take | src/lib/utils.ts:12 | `slice(0, n)`: the first `min(n, length)` elements. |
| Utils.ExtractHashtags | src/lib/utils.ts:4-13 | At most ten distinct tags, all match bodies, in first-occurrence order. With fewer than ten, every match is present. A distinct match left out occurs later than every tag kept. |
| Utils.TakeKeepsEarliest | src/lib/utils.ts:11-12 | Cutting the deduplicated list keeps the earliest-occurring distinct tags; when the cut is short it drops nothing. |
| Utils.ValidateImageFile | src/lib/utils.ts:18-37 | Valid exactly for an allowed type of at most 5 MiB. The type is checked first (English type message), then the size (English size message). |
| Utils.RenderTextWithHashtags | src/lib/utils.ts:54-77 | Joining the parts gives the text back. The hashtag parts are exactly the matches with their `#`, in order, duplicates kept. No plain part is empty and no two are adjacent. Empty text gives one empty part. |
| Utils.PartsFromJoin | src/lib/utils.ts:60-74 | The scanning loop's parts, after the pending plain text, spell the rest of the input. |
| Utils.PartsFromHashtags | src/lib/utils.ts:60-69 | The loop emits one hashtag part per remaining match, in order. |
| ImageFiles.CheckImage | lib/imageUpload.ts:8-26 | The shared rule: valid exactly for an allowed type within the size limit, the type message winning over the size message. |
| ImageUpload.ValidateImageFile | lib/imageUpload.ts:4-27 | Valid exactly for `image/jpeg`, `image/png` or `image/gif` of at most 5,242,880 bytes. A wrong type gives the format message even when oversized; an allowed type over the limit gives the size message. |
| ImageUpload.SizeBoundary | lib/imageUpload.ts:18-24 | The comparison is strict: exactly 5 MiB passes and one byte more fails. |
| StableSort.Sort | src/components/CommentList/CommentList.jsx:76-78 | The result is sorted by key, is a permutation of the input, and keeps each same-key group in input order. |
| StableSort.SortIsTheStableSort | src/components/CommentList/CommentList.jsx:82 | Any sorted sequence whose same-key groups equal the input's is the sort's result: the stable order is unique. |
| CommentList.NodeReplies | src/components/CommentList/CommentList.jsx:60-79 | A node's replies are exactly the inputs whose truthy parent id equals the node's id, oldest first, with same-time replies in input order. |
| CommentList.OrganizeComments | src/components/CommentList/CommentList.jsx:55-83 | One node per top-level comment, sorted by `createdAt`. Each node is a top-level comment, unchanged, with its sorted bucket of replies. |
| CommentList.OrganizedHeads | src/components/CommentList/CommentList.jsx:74-82 | The node order is the stable sort of the top-level comments by `createdAt`: equal timestamps keep input order. |
| CommentList.TopLevelShown | src/components/CommentList/CommentList.jsx:67-75 | Every comment without a truthy parent id (none, or 0) heads a node. |
| CommentList.ReplyShown | src/components/CommentList/CommentList.jsx:61-79 | Every reply whose parent is a top-level comment appears in some node's replies. |
| CommentList.OrphansDropped | src/components/CommentList/CommentList.jsx:63-79 | A reply whose parent is missing, or is itself a reply, appears nowhere. |
| CommentList.TotalCountIsShownComments | src/components/CommentList/CommentList.jsx:29 | The header total (nodes plus all their replies) is the input length minus the orphan replies. |
| Decimal.ParseNatToString | src/utils/formatNumber.ts:31 | The numeral printed for a natural number reads back as that number. |
| Decimal.NatToStringParse | src/utils/formatNumber.ts:31 | Every numeral without a superfluous leading zero is the one printed for the number it denotes, so printing and reading are inverse on canonical numerals. |
| FormatNumber.FormatLikeCount | src/utils/formatNumber.ts:10-32 | Below 1000 (including negatives): the plain numeral of the count, with no leading zero. From 1000 the suffix is `k` or `만` by range. A multiple of the unit shows the exact quotient. Any other count shows one decimal digit: the tenth `toFixed(1)` picks, which is within half a tenth of `count / unit`, and at an exact `.x5` tie is the upper one exactly when the double nearest `count / unit` is not below the tie. No integer part has a leading zero, so with `Decimal.NatToStringParse` each numeral is the one `String` prints. |
| FormatNumber.TenthsIsNearest | src/utils/formatNumber.ts:18 | The tenth chosen is a nearest tenth to `count / unit`; at an exact tie it goes to the side on which the double quotient lies. |
| FormatNumber.ToFixedTenthUnique | src/utils/formatNumber.ts:18 | At most one tenth fits that description, so the shown digits are fully determined. |
| FormatNumber.TiesFollowTheDouble | src/utils/formatNumber.ts:18-28 | At ties the double decides: 1150 shows `1.1k`, 9950 `9.9k`, 10500 `1.1만`, and 1250 `1.3k`. |
| FormatNumber.DocumentedExamples | src/utils/formatNumber.ts:3-4 | 10000 shows `1만`, 25000 `2.5만`, 1000 `1k` and 1200 `1.2k`. |
| FormatNumber.Thresholds | src/utils/formatNumber.ts:11-31 | Both thresholds are inclusive: 999 is plain, 9000 is `9k`, 10000 is `1만`. |
| FormatNumber.TopOfKiloRange | src/utils/formatNumber.ts:21-28 | 9951 to 9999 show `10.0k`, not the next unit. |
| FormatNumber.JustPastWholeThousands | src/utils/formatNumber.ts:21-28 | 1001 to 1049 show `1.0k`. |
| LikeButton.Click | src/components/Post/LikeButton.tsx:26-49 | While loading, nothing changes and nothing is sent. Otherwise the liked flag flips, the count moves by +1 or −1 with it, and the matching like or unlike request goes out, remembering the values to restore. |
| LikeButton.Complete | src/components/Post/LikeButton.tsx:50-77 | Loading ends. Success shows the server's values; failure restores the snapshot and alerts. A listening parent is told exactly the values shown. |
| LikeButton.FailedClickRollsBack | src/components/Post/LikeButton.tsx:29-71 | A click whose request fails leaves the button exactly as before the click. |
| LikeButton.SucceededClickAdoptsServer | src/components/Post/LikeButton.tsx:51-61 | After success the server's values win over the optimistic guess. |
| LikeButton.DoubleClickSendsOnce | src/components/Post/LikeButton.tsx:27-40 | A second click before the first settles sends nothing. |
| LikeButton.AgreeingServerKeepsOptimistic | src/components/Post/LikeButton.tsx:33-56 | When the server echoes the optimistic values, completion changes nothing visible. |
| LikeButton.ClickTwiceIsIdentity | src/components/Post/LikeButton.tsx:33-56 | Two clicks, each echoed by the server, return to the starting state. |
| Whitespace.Trim | src/components/CommentInput/CommentInput.jsx:53 | The result is a middle piece of the text with only whitespace cut on either side. It neither starts nor ends with whitespace, and is empty exactly for all-whitespace text. |
| CommentInput.InitialContent | src/components/CommentInput/CommentInput.jsx:32-37 | A reply with a mention and no initial value starts as `@user `; otherwise the box starts with the initial value. |
| CommentInput.CounterOf | src/components/CommentInput/CommentInput.jsx:39-41 | Remaining plus length is 500. Over-limit means more than 500, near-limit means 450 to 500, and never both. |
| CommentInput.Change | src/components/CommentInput/CommentInput.jsx:43-47 | The new text replaces the content, the error clears, and the busy flag is kept. |
| CommentInput.Submit | src/components/CommentInput/CommentInput.jsx:49-67 | Blank text is refused first with the empty error, then over-limit text by its untrimmed length with the length error. Otherwise the trimmed text is sent and the box is busy with the error cleared. |
| CommentInput.FinishSubmit | src/components/CommentInput/CommentInput.jsx:66-73 | The box is no longer busy. Success resets the text to the mention (or empty); failure keeps the text and shows the server's message or the default one. |
| CommentInput.Cancel | src/components/CommentInput/CommentInput.jsx:76-82 | The text and the error are cleared. |
| CommentInput.LengthErrorText | src/components/CommentInput/CommentInput.jsx:58-60 | The length error names the limit of 500. |
| CommentInput.ButtonMatchesHandler | src/components/CommentInput/CommentInput.jsx:124 | While idle, the button is enabled exactly when submitting would send. |
| CommentInput.SentTextIsClean | src/components/CommentInput/CommentInput.jsx:53-67 | What is sent is non-empty, at most 500 characters, and has no whitespace at either end. |
| CommentInput.ReplyResetsToFreshBox | src/components/CommentInput/CommentInput.jsx:28-67 | After a success the box holds what a fresh box of the same props without an initial value starts with: the mention of a reply, or nothing. It equals the fresh box of the props themselves exactly when the initial value is empty or is that very mention. |
| CreatePost.Submit | app/posts/create/page.tsx:35-53 | An invalid form only shows the error and sends nothing. A valid one becomes busy and sends the book, rating, content, images and the first ten extracted tags. |
| CreatePost.FinishSubmit | app/posts/create/page.tsx:55-67 | Success navigates to `/posts/<id>`. Failure stops being busy and shows the error's message or the default one, with the form otherwise unchanged. |
| CreatePost.ChipsOf | app/posts/create/page.tsx:126-143 | The chips are the first ten tags. The overflow badge appears exactly above ten tags and shows how many are hidden. |
| CreatePost.FormValidIff | app/posts/create/page.tsx:26-32 | The ordered checks amount to: a book, a rating other than 0, at most 2000 characters, and at most ten tags. |
| CreatePost.InlineRuleAgreesWithValidator | app/posts/create/page.tsx:30 | The page's inline tag rule decides exactly as `validateHashtagCount`. |
| CreatePost.SentHashtagsAreAllTags | app/posts/create/page.tsx:52 | For a valid form the ten-tag cut drops nothing: the post carries every distinct tag of the content. |
| CreatePost.ButtonMatchesHandler | app/posts/create/page.tsx:172 | While idle, the button is enabled exactly when submitting would send. |
| CreatePost.FailureRestoresForm | app/posts/create/page.tsx:43-66 | A failed create leaves the form as it was before the submit, apart from the error shown. |
| CreatePostSteps.SelectBook | src/app/posts/create/page.tsx:25-28 | The book is kept and the editor opens; nothing else changes. |
| CreatePostSteps.BackToSearch | src/app/posts/create/page.tsx:30-33 | Back to the search with no book; rating, review and images stay. |
| CreatePostSteps.Submit | src/app/posts/create/page.tsx:35-63 | Without a book and a positive rating only the error is set. Otherwise the page is busy and sends the post with the capped tags of the review. |
| CreatePostSteps.FinishSubmit | src/app/posts/create/page.tsx:65-70 | Success navigates to the new post. Failure stops being busy and shows the server's message or the default one. |
| CreatePostSteps.TransitionsKeepConsistent | src/app/posts/create/page.tsx:25-33 | No handler leaves a book selected on the search step. |
| CreatePostSteps.SearchStepCannotPublish | src/app/posts/create/page.tsx:35-43 | On the search step nothing can be sent. |
| CreatePostSteps.ChangeBookKeepsDraft | src/app/posts/create/page.tsx:25-33 | Going back and picking a book keeps everything written so far. |
| CreatePostSteps.SentHashtagsBounded | src/app/posts/create/page.tsx:49 | The tags sent are distinct and at most ten. |
| CreatePostSteps.ButtonMatchesHandler | src/app/posts/create/page.tsx:167 | While idle, the button is enabled exactly when submitting would send. |
| Seqs.RemoveAt | components/ImageUploader.tsx:74 | `filter((_, i) => i !== index)`: the entry at the index goes and the others keep their order. An index out of range changes nothing. |
| SkipInvalidUploader.HandleFileSelect | components/ImageUploader.tsx:26-71 | No files: no change. Over the limit (invalid files counted): only the count error. A failed read: the list unchanged and the read error. Otherwise the previews of the valid files are appended in order, and the error is the last invalid file's message or cleared. The list never grows past the limit, and with the add button hidden any selection is refused. |
| SkipInvalidUploader.PreviewsOfValidFiles | components/ImageUploader.tsx:43-58 | When every read succeeds, the whole batch is added exactly when every file is valid, and the error is clear exactly then. |
| SkipInvalidUploader.RemoveImage | components/ImageUploader.tsx:73-77 | The entry at the index goes, the others keep their order, the error clears. |
| AllOrNothingUploader.FirstInvalid | src/components/ImageUploader.tsx:32-36 | None exactly when every file is valid; otherwise the message of the first invalid file. |
| AllOrNothingUploader.FirstUploadFailure | src/components/ImageUploader.tsx:37-43 | None exactly when every upload succeeded; otherwise the message of a failed upload. |
| AllOrNothingUploader.HandleFileSelect | src/components/ImageUploader.tsx:18-49 | No files: no change. Over the limit: only the count error. Otherwise the list changes, and the error clears, exactly when every file is valid and uploaded. Then the URLs are appended in file order after the unchanged old list. An invalid file's message wins. With every file valid, a failed upload shows its message, or `Failed to upload images` when the message is empty. |
| AllOrNothingUploader.Remove | src/components/ImageUploader.tsx:51-54 | The entry at the index goes and the others keep their order. |
| AllOrNothingUploader.SelectionStaysWithinLimit | src/components/ImageUploader.tsx:23-41 | A selection never takes the list past `maxImages`. |
| CutAtInvalidUploader.ValidateFile | src/components/ImageUploader/ImageUploader.jsx:24-37 | No error exactly for an allowed type within `maxSizeMB` MiB. The type message wins over the size message, which names the limit. |
| CutAtInvalidUploader.ValidPrefix | src/components/ImageUploader/ImageUploader.jsx:53-58 | The files before the first invalid one are all valid, and the one at the cut is invalid. |
| CutAtInvalidUploader.HandleFileSelect | src/components/ImageUploader/ImageUploader.jsx:39-86 | The error is cleared first. Over the limit: only the count error. Otherwise the files before the first invalid one are appended in selection order. Their previews are appended in the order `order` in which their reads finish. The error is that invalid file's message, or none. With the add button hidden, any selection is refused. |
| CutAtInvalidUploader.SelectPreviewsEachFileOnce | src/components/ImageUploader/ImageUploader.jsx:60-76 | Whatever order the reads finish in, the new previews belong to exactly the new files, each as often as it was appended. |
| CutAtInvalidUploader.SelectAlignedIff | src/components/ImageUploader/ImageUploader.jsx:60-76 | A picker that was aligned stays aligned (each preview beside its own file) when the reads finish in selection order. With distinct files, it stays aligned only then. |
| CutAtInvalidUploader.SwappedReadsMisalignRemove | src/components/ImageUploader/ImageUploader.jsx:63-95 | A JPEG then a PNG, with the PNG read finishing first, leave previews out of line with files. Removing image 0 then keeps the PNG file beside the JPEG's preview. |
| CutAtInvalidUploader.HandleFileSelectBySlot | src/components/ImageUploader/ImageUploader.jsx:39-86 | The select with each preview placed at its file's slot: the same files and error, previews in selection order, and an aligned picker stays aligned. |
| CutAtInvalidUploader.RemoveImage | src/components/ImageUploader/ImageUploader.jsx:88-95 | The same position leaves both the files and the previews, and the error clears. An index out of range leaves both lists unchanged. |
| CutAtInvalidUploader.RemoveKeepsAligned | src/components/ImageUploader/ImageUploader.jsx:88-95 | Removing keeps every preview beside its own file. |
| CutAtInvalidUploader.ValidatorsAgree | src/components/ImageUploader/ImageUploader.jsx:24-37 | With the default 5 MB this validator, lib/imageUpload.ts's and src/lib/utils.ts's accept exactly the same files. |

## Findings

| source | as written | input that shows it | evidently intended | confidence | as-written member | corrected member |
|---|---|---|---|---|---|---|
| src/components/ImageUploader/ImageUploader.jsx:63-95 | Files are appended in selection order, but previews are pushed as their reads finish. Removing drops the same index from both lists. | A JPEG then a PNG are selected, the PNG read finishes first, then image 0 is removed. | Each preview sits at its file's slot, so a remove takes a file together with its own preview. | medium, not executed | CutAtInvalidUploader.SwappedReadsMisalignRemove | CutAtInvalidUploader.HandleFileSelectBySlot |

## Left out

- HTTP calls, `FormData`, `FileReader`, routing and React rendering are not
  modelled. Their results are inputs to the transition functions, and
  navigation is the path returned.
- Async completion order is not modelled:
  - In the cut-at-first-invalid picker, the order in which the reads finish is
    an input. The model does not say which orders a browser produces.
  - A read that ends with a `null` result is modelled as a string.
  - Uploads already sent in an all-or-nothing batch that later fails are not
    modelled.
- AllOrNothingUploader.HandleFileSelect: when several uploads fail, the model
  shows the message of the first failing file by position. `Promise.all`
  reports whichever rejection settles first, which the model cannot know.
  Validation failures reject before any upload can settle, so for them the
  position order is exact.
- The `uploading` and `isAnimating` flags, the like animation's `setTimeout`,
  and the reset of the file input are not modelled.
- FormatNumber.FormatLikeCount: counts are exact integers. `NaN`, fractional
  counts, counts beyond 2^53 that a double cannot hold, and the exponent
  notation JavaScript uses for huge numbers are not modelled. At an exact
  `.x5` tie the model follows the double nearest `count / unit`, so 1150
  shows `1.1k` as in the source. Away from ties it takes the nearest tenth of
  the exact quotient. Rounding the double could pick a different tenth only
  when the quotient lies within one rounding error of a tie, which needs
  counts of about 10^14 or more. Quotients of 2^53 and more are treated as
  exact doubles.
- `createdAt` is an integer timestamp. Parsing it with `new Date` and the
  `NaN` comparator of an invalid date are not modelled.
- CommentList.TotalCountIsShownComments: it requires the top-level comments to
  have distinct ids. With two top-level comments sharing an id, the source
  attaches the same replies to both and counts them twice.
- Parent ids are integers. JavaScript's `Map` would keep a string id `"5"`
  apart from the number `5`; the model does not have that distinction.
- `String.length` counts UTF-16 code units, and the model counts characters
  (Unicode scalar values). They differ only for characters outside the Basic
  Multilingual Plane, such as emoji.
- `\p{L}\p{N}` is modelled as a fixed list of letter and number ranges (Latin,
  Greek, Cyrillic, Hangul, kana, CJK). A letter outside the list ends a tag in
  the model but not in the source.
- Hashtags.HighlightSpans: it requires text without `<`. Text that already
  holds span markup would be read back as extra spans, so the scanner would
  find more bodies than there are matches.
- Hashtags.HighlightRoundTrip: it requires text without `<`. Unwrapping deletes
  every span-shaped substring, so text that already contains the markup would
  not read back.
- Common.Book keeps the five fields that both create pages use. The root page
  sends the whole selected book, which may also carry the optional `pubDate`
  and `description` of lib/types.ts. The model's request does not show those
  two fields.
- A missing `mentionUser` (`null`) is the empty string. Both are falsy, and the
  code only tests truthiness.
- The post detail and edit pages, the book search, the star ratings, the
  comment items and section, `formatDate` and the date formatter, the
  authentication helpers, and `uploadImage` are not modelled. They are
  markup, network or clock code.
- The HTML safety of the highlighted text is not modelled: it is inserted
  unescaped, which is a rendering concern.
