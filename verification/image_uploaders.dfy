/**
 * The image picker of the root front-end (components/ImageUploader.tsx).
 * A selection over the limit is refused as a whole. Otherwise the files are
 * walked in order: an invalid file is skipped with its error shown, a valid
 * one is read into a preview, and a failed read abandons the batch. The
 * reader's outcome for each file is part of the input.
 */
module SkipInvalidUploader {
  import opened Common
  import opened ImageFiles
  import Seqs
  import Decimal
  import ImageUpload

  const ReadFailure: string := "Failed to read file"

  function CountError(maxImages: int): string {
    "최대 " + Decimal.IntToString(maxImages) + "개까지 업로드 가능합니다."
  }

  /** A selected file with what `createImagePreview` yields for it (`None` when it rejects). */
  datatype Selected = Selected(file: File, preview: Option<string>)

  predicate IsValid(s: Selected) {
    ImageUpload.ValidateImageFile(s.file).Valid?
  }

  /** The read resolves only with a non-empty result. */
  predicate ReadOk(s: Selected) {
    s.preview.Some? && s.preview.value != ""
  }

  /** Every valid file among `files` reads successfully. */
  predicate AllReadsOk(files: seq<Selected>) {
    forall i :: 0 <= i < |files| && IsValid(files[i]) ==> ReadOk(files[i])
  }

  /** The previews of the valid files, in selection order. */
  function Previews(files: seq<Selected>): (r: seq<string>)
    ensures |r| <= |files|
  {
    if |files| == 0 then []
    else
      var last := files[|files| - 1];
      Previews(files[..|files| - 1]) + (if IsValid(last) && last.preview.Some? then [last.preview.value] else [])
  }

  /** The error of the last invalid file, or `""` when every file is valid. */
  function LastError(files: seq<Selected>): string {
    if |files| == 0 then ""
    else
      var last := files[|files| - 1];
      if IsValid(last) then LastError(files[..|files| - 1])
      else ImageUpload.ValidateImageFile(last.file).error
  }

  /** The images and the error message after a selection. */
  datatype Selection = Selection(images: seq<string>, error: string)

  /** `handleFileSelect`, run to completion. */
  method HandleFileSelect(images: seq<string>, error: string, maxImages: int, files: seq<Selected>)
    returns (r: Selection)
    ensures |files| == 0 ==> r == Selection(images, error)
    ensures |files| > 0 && |images| + |files| > maxImages ==> r == Selection(images, CountError(maxImages))
    ensures |files| > 0 && |images| + |files| <= maxImages && !AllReadsOk(files) ==>
      r == Selection(images, ReadFailure)
    ensures |files| > 0 && |images| + |files| <= maxImages && AllReadsOk(files) ==>
      r == Selection(images + Previews(files), LastError(files))
    ensures |images| <= maxImages ==> |r.images| <= maxImages
    ensures |files| > 0 && !AddButtonShown(images, maxImages) ==> r == Selection(images, CountError(maxImages))
  {
    if |files| == 0 {
      return Selection(images, error);
    }
    if |images| + |files| > maxImages {
      return Selection(images, CountError(maxImages));
    }
    var added: seq<string> := [];
    var message := "";
    var i := 0;
    while i < |files|
      invariant 0 <= i <= |files|
      invariant AllReadsOk(files[..i])
      invariant added == Previews(files[..i])
      invariant message == LastError(files[..i])
    {
      assert files[..i + 1][..i] == files[..i];
      var v := ImageUpload.ValidateImageFile(files[i].file);
      if v.Invalid? {
        message := v.error;
      } else if !ReadOk(files[i]) {
        return Selection(images, ReadFailure);
      } else {
        added := added + [files[i].preview.value];
      }
      i := i + 1;
    }
    assert files[..i] == files;
    return Selection(images + added, message);
  }

  /** `handleRemoveImage`: the entry at `index` goes, the others keep their order, the error clears. */
  function RemoveImage(images: seq<string>, index: int): (r: Selection)
    ensures 0 <= index < |images| ==> r.images == images[..index] + images[index + 1..]
    ensures !(0 <= index < |images|) ==> r.images == images
    ensures r.error == ""
  {
    Selection(Seqs.RemoveAt(images, index), "")
  }

  /** The add button is on screen while there is room. */
  predicate AddButtonShown(images: seq<string>, maxImages: int) {
    |images| < maxImages
  }

  /** Only valid files become previews: with every file valid, the batch is added whole. */
  lemma {:induction false} PreviewsOfValidFiles(files: seq<Selected>)
    requires AllReadsOk(files)
    ensures (forall i :: 0 <= i < |files| ==> IsValid(files[i])) <==> |Previews(files)| == |files|
    ensures (forall i :: 0 <= i < |files| ==> IsValid(files[i])) <==> LastError(files) == ""
    decreases |files|
  {
    if |files| > 0 {
      var init := files[..|files| - 1];
      assert AllReadsOk(init) by {
        forall i | 0 <= i < |init| && IsValid(init[i]) ensures ReadOk(init[i]) {
          assert init[i] == files[i];
        }
      }
      PreviewsOfValidFiles(init);
      if forall i :: 0 <= i < |init| ==> IsValid(init[i]) {
      } else {
        var j :| 0 <= j < |init| && !IsValid(init[j]);
        assert !IsValid(files[j]);
      }
    }
  }
}

/**
 * The image picker of the src front-end (src/components/ImageUploader.tsx):
 * one invalid file or one failed upload rejects the whole selection, and
 * otherwise the uploaded URLs are appended in selection order. The upload's
 * outcome for each file is part of the input.
 */
module AllOrNothingUploader {
  import opened Common
  import opened ImageFiles
  import Seqs
  import Decimal
  import Utils

  const DefaultFailure: string := "Failed to upload images"

  function CountError(maxImages: int): string {
    "You can only upload up to " + Decimal.IntToString(maxImages) + " images"
  }

  /** What `imageApi.upload` did with a file: its URL, or a failure and its message (`""` when none). */
  datatype Upload = Uploaded(url: string) | UploadFailed(message: string)

  datatype Picked = Picked(file: File, upload: Upload)

  predicate IsValid(p: Picked) {
    Utils.ValidateImageFile(p.file).Valid?
  }

  /** The validation error of the first invalid file, if any. */
  function FirstInvalid(files: seq<Picked>): (r: Option<string>)
    ensures r.None? <==> forall i :: 0 <= i < |files| ==> IsValid(files[i])
    ensures r.Some? ==>
      exists i :: (0 <= i < |files| && !IsValid(files[i])
        && (forall j :: 0 <= j < i ==> IsValid(files[j]))
        && r.value == Utils.ValidateImageFile(files[i].file).error)
  {
    if |files| == 0 then None
    else if !IsValid(files[0]) then Some(Utils.ValidateImageFile(files[0].file).error)
    else
      var rest := FirstInvalid(files[1..]);
      assert forall i :: 1 <= i < |files| ==> files[i] == files[1..][i - 1];
      rest
  }

  /** The message of the first failed upload, if any. */
  function FirstUploadFailure(files: seq<Picked>): (r: Option<string>)
    ensures r.None? <==> forall i :: 0 <= i < |files| ==> files[i].upload.Uploaded?
    ensures r.Some? ==> exists i :: 0 <= i < |files| && files[i].upload == UploadFailed(r.value)
  {
    if |files| == 0 then None
    else if files[0].upload.UploadFailed? then Some(files[0].upload.message)
    else
      var rest := FirstUploadFailure(files[1..]);
      assert forall i :: 1 <= i < |files| ==> files[i] == files[1..][i - 1];
      rest
  }

  function Urls(files: seq<Picked>): (r: seq<string>)
    requires forall i :: 0 <= i < |files| ==> files[i].upload.Uploaded?
    ensures |r| == |files| && forall i :: 0 <= i < |files| ==> r[i] == files[i].upload.url
  {
    if |files| == 0 then [] else [files[0].upload.url] + Urls(files[1..])
  }

  datatype Selection = Selection(images: seq<string>, error: Option<string>)

  /**
   * `handleFileSelect`. Validation failures reject their promises at once,
   * before any upload can settle, so a validation error wins.
   */
  function HandleFileSelect(images: seq<string>, error: Option<string>, maxImages: int, files: seq<Picked>): (r: Selection)
    ensures |files| == 0 ==> r == Selection(images, error)
    ensures |files| > 0 && |images| + |files| > maxImages ==> r == Selection(images, Some(CountError(maxImages)))
    ensures |files| > 0 && |images| + |files| <= maxImages ==>
      (r.images != images || r.error == None <==>
        (forall i :: 0 <= i < |files| ==> IsValid(files[i]) && files[i].upload.Uploaded?))
    ensures |files| > 0 && |images| + |files| <= maxImages && FirstInvalid(files).Some? ==>
      r == Selection(images, FirstInvalid(files))
    ensures (|files| > 0 && |images| + |files| <= maxImages
      && FirstInvalid(files).None? && FirstUploadFailure(files).Some?) ==>
      var message := FirstUploadFailure(files).value;
      r == Selection(images, Some(if message != "" then message else DefaultFailure))
    ensures |files| > 0 && r.images != images ==>
      |r.images| == |images| + |files| && r.images[..|images|] == images
      && forall i :: 0 <= i < |files| ==> r.images[|images| + i] == files[i].upload.url
    ensures |files| > 0 && !AddButtonShown(images, maxImages) ==>
      r == Selection(images, Some(CountError(maxImages)))
  {
    if |files| == 0 then Selection(images, error)
    else if |images| + |files| > maxImages then Selection(images, Some(CountError(maxImages)))
    else match FirstInvalid(files)
      case Some(message) => Selection(images, Some(if message != "" then message else DefaultFailure))
      case None =>
        match FirstUploadFailure(files)
        case Some(message) => Selection(images, Some(if message != "" then message else DefaultFailure))
        case None => Selection(images + Urls(files), None)
  }

  /** `handleRemove`: the entry at `index` goes and the others keep their order. */
  function Remove(images: seq<string>, index: int): (r: seq<string>)
    ensures 0 <= index < |images| ==> r == images[..index] + images[index + 1..]
    ensures !(0 <= index < |images|) ==> r == images
  {
    Seqs.RemoveAt(images, index)
  }

  predicate AddButtonShown(images: seq<string>, maxImages: int) {
    |images| < maxImages
  }

  /** A selection never takes the list past the limit. */
  lemma SelectionStaysWithinLimit(images: seq<string>, error: Option<string>, maxImages: int, files: seq<Picked>)
    requires |images| <= maxImages
    ensures |HandleFileSelect(images, error, maxImages, files).images| <= maxImages
  {
  }
}

/**
 * The image picker of src/components/ImageUploader/ImageUploader.jsx: a
 * selection is cut at its first invalid file. The valid files before it
 * already have their reads queued, so they are still added, with their
 * previews, once those reads finish.
 */
module CutAtInvalidUploader {
  import opened Common
  import StableSort
  import opened ImageFiles
  import Seqs
  import Decimal
  import ImageUpload
  import Utils

  const TypeError: string := "JPG, PNG, GIF 형식만 업로드 가능합니다."

  function SizeError(maxSizeMB: int): string {
    "파일 크기는 " + Decimal.IntToString(maxSizeMB) + "MB를 초과할 수 없습니다."
  }

  function CountError(maxImages: int): string {
    "최대 " + Decimal.IntToString(maxImages) + "개의 이미지만 업로드할 수 있습니다."
  }

  /** `validateFile`: the message of the first rule broken, if any. */
  function ValidateFile(file: File, maxSizeMB: int): (r: Option<string>)
    ensures r.None? <==> IsAllowedType(file.mimeType) && file.size <= maxSizeMB * 1024 * 1024
    ensures !IsAllowedType(file.mimeType) ==> r == Some(TypeError)
    ensures IsAllowedType(file.mimeType) && file.size > maxSizeMB * 1024 * 1024 ==> r == Some(SizeError(maxSizeMB))
  {
    match CheckImage(file, maxSizeMB * 1024 * 1024, TypeError, SizeError(maxSizeMB))
    case Valid => None
    case Invalid(message) => Some(message)
  }

  /** A selected file with the data URL its reader produces. */
  datatype Picked = Picked(file: File, dataUrl: string)

  datatype Preview = Preview(file: File, preview: string)

  /** The picker: the files passed up through `onImagesChange`, their previews, and the error. */
  datatype Picker = Picker(images: seq<File>, previews: seq<Preview>, error: Option<string>)

  /** How many files lead the selection before the first invalid one. */
  function ValidPrefix(files: seq<Picked>, maxSizeMB: int): (k: nat)
    ensures k <= |files|
    ensures forall i :: 0 <= i < k ==> ValidateFile(files[i].file, maxSizeMB).None?
    ensures k < |files| ==> ValidateFile(files[k].file, maxSizeMB).Some?
  {
    if |files| == 0 || ValidateFile(files[0].file, maxSizeMB).Some? then 0
    else
      var k := 1 + ValidPrefix(files[1..], maxSizeMB);
      assert forall i :: 1 <= i < |files| ==> files[i] == files[1..][i - 1];
      k
  }

  function FilesOf(files: seq<Picked>): (r: seq<File>)
    ensures |r| == |files| && forall i :: 0 <= i < |files| ==> r[i] == files[i].file
  {
    if |files| == 0 then [] else FilesOf(files[..|files| - 1]) + [files[|files| - 1].file]
  }

  function PreviewsOf(files: seq<Picked>): (r: seq<Preview>)
    ensures |r| == |files| && forall i :: 0 <= i < |files| ==> r[i] == Preview(files[i].file, files[i].dataUrl)
  {
    if |files| == 0 then [] else PreviewsOf(files[..|files| - 1]) + [Preview(files[|files| - 1].file, files[|files| - 1].dataUrl)]
  }

  /** `0, 1, …, n - 1`. */
  function Iota(n: nat): (r: seq<nat>)
    ensures |r| == n && forall i :: 0 <= i < n ==> r[i] == i
  {
    if n == 0 then [] else Iota(n - 1) + [n - 1]
  }

  /** `order` names every position below `n` exactly once: an order in which `n` readers can finish. */
  predicate IsOrder(order: seq<nat>, n: nat) {
    multiset(order) == multiset(Iota(n))
  }

  /** The positions below `k`, in the order `order` gives them: when the queued reads finish. */
  function Finished(order: seq<nat>, k: nat): (r: seq<nat>)
    ensures forall j :: 0 <= j < |r| ==> r[j] < k
    ensures forall i :: i in r <==> i in order && i < k
  {
    if |order| == 0 then []
    else
      var last := order[|order| - 1];
      var r := Finished(order[..|order| - 1], k);
      assert forall i :: i in order <==> i in order[..|order| - 1] || i == last;
      r + (if last < k then [last] else [])
  }

  /** The previews of the files at the positions `idx`, in that order. */
  function PreviewsAt(files: seq<Picked>, idx: seq<nat>): (r: seq<Preview>)
    requires forall j :: 0 <= j < |idx| ==> idx[j] < |files|
    ensures |r| == |idx|
    ensures forall j :: 0 <= j < |idx| ==> r[j] == Preview(files[idx[j]].file, files[idx[j]].dataUrl)
  {
    if |idx| == 0 then []
    else
      var i := idx[|idx| - 1];
      PreviewsAt(files, idx[..|idx| - 1]) + [Preview(files[i].file, files[i].dataUrl)]
  }

  /** The files the previews belong to. */
  function PreviewFiles(previews: seq<Preview>): (r: seq<File>)
    ensures |r| == |previews| && forall j :: 0 <= j < |previews| ==> r[j] == previews[j].file
  {
    if |previews| == 0 then [] else PreviewFiles(previews[..|previews| - 1]) + [previews[|previews| - 1].file]
  }

  /**
   * `handleFileSelect`, once the queued reads have finished. The error is
   * cleared first, and a selection over the limit only sets the count
   * error. Otherwise the files before the first invalid one are passed up
   * in selection order, and the invalid one's message is shown. Each read
   * pushes its preview when it finishes, so the previews come in the order
   * `order` in which the readers finish.
   */
  method HandleFileSelect(s: Picker, maxImages: int, maxSizeMB: int, files: seq<Picked>, order: seq<nat>)
    returns (r: Picker)
    ensures |s.images| + |files| > maxImages ==> r == Picker(s.images, s.previews, Some(CountError(maxImages)))
    ensures |s.images| + |files| <= maxImages ==>
      var k := ValidPrefix(files, maxSizeMB);
      && r.images == s.images + FilesOf(files[..k])
      && r.previews == s.previews + PreviewsAt(files, Finished(order, k))
      && r.error == (if k < |files| then ValidateFile(files[k].file, maxSizeMB) else None)
    ensures |files| > 0 && !AddButtonShown(s, maxImages) ==>
      r == Picker(s.images, s.previews, Some(CountError(maxImages)))
  {
    if |s.images| + |files| > maxImages {
      return Picker(s.images, s.previews, Some(CountError(maxImages)));
    }
    var valid: seq<File> := [];
    var error: Option<string> := None;
    var i := 0;
    while i < |files|
      invariant 0 <= i <= ValidPrefix(files, maxSizeMB)
      invariant valid == FilesOf(files[..i])
    {
      var problem := ValidateFile(files[i].file, maxSizeMB);
      if problem.Some? {
        error := problem;
        break;
      }
      assert files[..i + 1][..i] == files[..i];
      valid := valid + [files[i].file];
      i := i + 1;
    }
    assert i == ValidPrefix(files, maxSizeMB);
    assert i < |files| ==> error == ValidateFile(files[i].file, maxSizeMB);
    var pushed := PushPreviews(files, order, i);
    return Picker(s.images + valid, s.previews + pushed, if i < |files| then error else None);
  }

  /** The `onloadend` handlers in the order `order` they run: each queued file's read pushes its preview. */
  method PushPreviews(files: seq<Picked>, order: seq<nat>, k: nat) returns (pushed: seq<Preview>)
    requires k <= |files|
    ensures pushed == PreviewsAt(files, Finished(order, k))
  {
    pushed := [];
    var j := 0;
    while j < |order|
      invariant 0 <= j <= |order|
      invariant pushed == PreviewsAt(files, Finished(order[..j], k))
    {
      PushStep(files, order, j, k);
      if order[j] < k {
        pushed := pushed + [Preview(files[order[j]].file, files[order[j]].dataUrl)];
      }
      j := j + 1;
    }
    assert order[..j] == order;
  }

  /** One more finished read pushes its preview when its file was queued. */
  lemma PushStep(files: seq<Picked>, order: seq<nat>, j: nat, k: nat)
    requires j < |order| && k <= |files|
    ensures PreviewsAt(files, Finished(order[..j + 1], k))
      == PreviewsAt(files, Finished(order[..j], k))
        + (if order[j] < k then [Preview(files[order[j]].file, files[order[j]].dataUrl)] else [])
  {
    assert order[..j + 1][..j] == order[..j];
  }

  /**
   * The same selection with each preview stored in its file's slot instead
   * of pushed: the result does not depend on when the reads finish, and a
   * picker whose previews sit beside their files stays so.
   */
  method HandleFileSelectBySlot(s: Picker, maxImages: int, maxSizeMB: int, files: seq<Picked>)
    returns (r: Picker)
    ensures |s.images| + |files| > maxImages ==> r == Picker(s.images, s.previews, Some(CountError(maxImages)))
    ensures |s.images| + |files| <= maxImages ==>
      var k := ValidPrefix(files, maxSizeMB);
      && r.images == s.images + FilesOf(files[..k])
      && r.previews == s.previews + PreviewsOf(files[..k])
      && r.error == (if k < |files| then ValidateFile(files[k].file, maxSizeMB) else None)
    ensures Aligned(s) ==> Aligned(r)
  {
    r := HandleFileSelect(s, maxImages, maxSizeMB, files, Iota(|files|));
    if |s.images| + |files| <= maxImages {
      var k := ValidPrefix(files, maxSizeMB);
      FinishedInOrder(|files|, k);
      InOrderPreviews(files, k);
      if Aligned(s) {
        InOrderAligned(s, files, k, r);
      }
    }
  }

  /** Previews pushed in selection order are the previews of the queued files, slot by slot. */
  lemma InOrderPreviews(files: seq<Picked>, k: nat)
    requires k <= |files|
    ensures PreviewsAt(files, Iota(k)) == PreviewsOf(files[..k])
  {
    var a, b := PreviewsAt(files, Iota(k)), PreviewsOf(files[..k]);
    forall j | 0 <= j < k ensures a[j] == b[j] {
      assert Iota(k)[j] == j && files[..k][j] == files[j];
    }
  }

  /** Reads that finish in selection order report the queued positions in order. */
  lemma {:induction false} FinishedInOrder(n: nat, k: nat)
    requires k <= n
    ensures Finished(Iota(n), k) == Iota(k)
    decreases n
  {
    if n > 0 {
      assert Iota(n)[..n - 1] == Iota(n - 1);
      if k < n {
        FinishedInOrder(n - 1, k);
      } else {
        FinishedInOrder(n - 1, k - 1);
        assert Finished(Iota(n - 1), k) == Finished(Iota(n - 1), k - 1) by {
          FinishedBelowAll(Iota(n - 1), k - 1);
          FinishedBelowAll(Iota(n - 1), k);
        }
      }
    }
  }

  /** Raising the bound past every entry keeps everything. */
  lemma {:induction false} FinishedBelowAll(order: seq<nat>, k: nat)
    requires forall j :: 0 <= j < |order| ==> order[j] < k
    ensures Finished(order, k) == order
    decreases |order|
  {
    if |order| > 0 {
      FinishedBelowAll(order[..|order| - 1], k);
    }
  }

  /** `handleRemoveImage`: the same position leaves both lists, and the error clears. */
  function RemoveImage(s: Picker, index: int): (r: Picker)
    ensures 0 <= index < |s.images| ==> r.images == s.images[..index] + s.images[index + 1..]
    ensures 0 <= index < |s.previews| ==> r.previews == s.previews[..index] + s.previews[index + 1..]
    ensures !(0 <= index < |s.images|) ==> r.images == s.images
    ensures !(0 <= index < |s.previews|) ==> r.previews == s.previews
    ensures r.error == None
  {
    Picker(Seqs.RemoveAt(s.images, index), Seqs.RemoveAt(s.previews, index), None)
  }

  predicate AddButtonShown(s: Picker, maxImages: int) {
    |s.images| < maxImages
  }

  /** Each preview belongs to the file at the same position. */
  predicate Aligned(s: Picker) {
    |s.images| == |s.previews| && forall i :: 0 <= i < |s.images| ==> s.previews[i].file == s.images[i]
  }

  /**
   * When a later read finishes first, previews and files no longer line up,
   * and removing the first image drops the other file's preview: a JPEG and
   * a PNG selected in that order, with the PNG read finishing first, leave
   * the PNG file beside the JPEG preview after the remove. `r` is what the
   * select ends in for that selection.
   */
  lemma SwappedReadsMisalignRemove(r: Picker)
    requires var files := [Picked(File("image/jpeg", 1), "a"), Picked(File("image/png", 2), "b")];
      && r.images == FilesOf(files[..ValidPrefix(files, 5)])
      && r.previews == PreviewsAt(files, Finished([1, 0], ValidPrefix(files, 5)))
    ensures !Aligned(r)
    ensures RemoveImage(r, 0).images == [File("image/png", 2)]
    ensures RemoveImage(r, 0).previews == [Preview(File("image/jpeg", 1), "a")]
  {
    var jpeg, png := File("image/jpeg", 1), File("image/png", 2);
    var files := [Picked(jpeg, "a"), Picked(png, "b")];
    assert ValidateFile(jpeg, 5).None? && ValidateFile(png, 5).None?;
    assert ValidPrefix(files, 5) == 2;
    assert files[..2] == files;
    assert r.images == [jpeg, png];
    assert Finished([1, 0], 2) == [1, 0] by {
      assert [1, 0][..1] == [1];
      assert Finished([1], 2) == [1] by {
        assert [1][..0] == [];
      }
    }
    assert r.previews == [Preview(png, "b"), Preview(jpeg, "a")];
    assert r.previews[0].file != r.images[0];
  }

  /** Selecting and removing keep every preview beside its own file. */
  lemma RemoveKeepsAligned(s: Picker, index: int)
    requires Aligned(s)
    ensures Aligned(RemoveImage(s, index))
  {
    var r := RemoveImage(s, index);
    if 0 <= index < |s.images| {
      forall i | 0 <= i < |r.images| ensures r.previews[i].file == r.images[i] {
        if i >= index {
          assert r.images[i] == s.images[i + 1];
        }
      }
    }
  }

  /**
   * After a selection that passes up the first `k` files, the previews sit
   * beside their files when the queued reads finish in selection order;
   * when those files are distinct, only then.
   */
  lemma SelectAlignedIff(s: Picker, files: seq<Picked>, k: nat, order: seq<nat>, r: Picker)
    requires Aligned(s) && k <= |files|
    requires r.images == s.images + FilesOf(files[..k])
    requires r.previews == s.previews + PreviewsAt(files, Finished(order, k))
    ensures Finished(order, k) == Iota(k) ==> Aligned(r)
    ensures Aligned(r) && DistinctFiles(files[..k]) ==> Finished(order, k) == Iota(k)
  {
    if Finished(order, k) == Iota(k) {
      InOrderAligned(s, files, k, r);
    }
    if Aligned(r) && DistinctFiles(files[..k]) {
      AlignedInOrder(s, files, k, Finished(order, k), r);
    }
  }

  lemma InOrderAligned(s: Picker, files: seq<Picked>, k: nat, r: Picker)
    requires Aligned(s) && k <= |files|
    requires r.images == s.images + FilesOf(files[..k])
    requires r.previews == s.previews + PreviewsAt(files, Iota(k))
    ensures Aligned(r)
  {
    InOrderFiles(files, k);
    AlignedAppend(s, FilesOf(files[..k]), PreviewsAt(files, Iota(k)), r);
  }

  /** Appending previews whose files are exactly the appended files keeps a picker aligned. */
  lemma AlignedAppend(s: Picker, added: seq<File>, shown: seq<Preview>, r: Picker)
    requires Aligned(s) && PreviewFiles(shown) == added
    requires r.images == s.images + added && r.previews == s.previews + shown
    ensures Aligned(r)
  {
    var n := |s.images|;
    forall i | 0 <= i < |r.images| ensures r.previews[i].file == r.images[i] {
      if i >= n {
        assert r.images[i] == added[i - n] == PreviewFiles(shown)[i - n];
      }
    }
  }

  lemma AlignedInOrder(s: Picker, files: seq<Picked>, k: nat, fin: seq<nat>, r: Picker)
    requires Aligned(s) && k <= |files|
    requires forall j :: 0 <= j < |fin| ==> fin[j] < k
    requires r.images == s.images + FilesOf(files[..k])
    requires r.previews == s.previews + PreviewsAt(files, fin)
    requires Aligned(r) && DistinctFiles(files[..k])
    ensures fin == Iota(k)
  {
    var added, shown := FilesOf(files[..k]), PreviewsAt(files, fin);
    AlignedSuffix(s, added, shown, r);
    assert |fin| == k;
    forall j | 0 <= j < k ensures fin[j] == j {
      assert files[fin[j]].file == PreviewFiles(shown)[j] == added[j] == files[..k][j].file;
      assert files[..k][fin[j]] == files[fin[j]];
    }
  }

  /** In an aligned picker that extends an aligned one, the appended previews belong to the appended files. */
  lemma AlignedSuffix(s: Picker, added: seq<File>, shown: seq<Preview>, r: Picker)
    requires Aligned(s) && Aligned(r)
    requires r.images == s.images + added && r.previews == s.previews + shown
    ensures PreviewFiles(shown) == added
  {
    var n := |s.images|;
    forall j | 0 <= j < |added| ensures PreviewFiles(shown)[j] == added[j] {
      assert r.images[n + j] == added[j] && r.previews[n + j] == shown[j];
    }
  }

  /** No file is selected twice. */
  predicate DistinctFiles(files: seq<Picked>) {
    forall i, j :: 0 <= i < j < |files| ==> files[i].file != files[j].file
  }

  /**
   * Whatever order the reads finish in, every file passed up by a
   * selection gets exactly one preview: the new previews and the new files
   * agree as multisets.
   */
  lemma SelectPreviewsEachFileOnce(s: Picker, files: seq<Picked>, k: nat, order: seq<nat>, r: Picker)
    requires IsOrder(order, |files|) && k <= |files|
    requires r.images == s.images + FilesOf(files[..k])
    requires r.previews == s.previews + PreviewsAt(files, Finished(order, k))
    ensures multiset(PreviewFiles(r.previews[|s.previews|..])) == multiset(r.images[|s.images|..])
  {
    var fin := Finished(order, k);
    FinishedIsOrder(order, |files|, k);
    NewPreviewsAndFiles(s, files, k, fin, r);
  }

  lemma NewPreviewsAndFiles(s: Picker, files: seq<Picked>, k: nat, fin: seq<nat>, r: Picker)
    requires k <= |files| && IsOrder(fin, k)
    requires forall j :: 0 <= j < |fin| ==> fin[j] < k
    requires r.images == s.images + FilesOf(files[..k])
    requires r.previews == s.previews + PreviewsAt(files, fin)
    ensures multiset(PreviewFiles(r.previews[|s.previews|..])) == multiset(r.images[|s.images|..])
  {
    var added, shown := FilesOf(files[..k]), PreviewsAt(files, fin);
    assert r.previews[|s.previews|..] == shown;
    assert r.images[|s.images|..] == added;
    PermutedFiles(files, fin, Iota(k));
    InOrderFiles(files, k);
  }

  lemma InOrderFiles(files: seq<Picked>, k: nat)
    requires k <= |files|
    ensures PreviewFiles(PreviewsAt(files, Iota(k))) == FilesOf(files[..k])
  {
    var inOrder, added := PreviewFiles(PreviewsAt(files, Iota(k))), FilesOf(files[..k]);
    forall j | 0 <= j < k ensures inOrder[j] == added[j] {
      assert files[..k][j] == files[j];
    }
  }

  /** The queued reads among all of them finish in some order of the queued positions. */
  lemma FinishedIsOrder(order: seq<nat>, n: nat, k: nat)
    requires IsOrder(order, n) && k <= n
    ensures IsOrder(Finished(order, k), k)
  {
    forall x: nat ensures multiset(Finished(order, k))[x] == multiset(Iota(k))[x] {
      FinishedCount(order, k, x);
      IotaCount(n, x);
      IotaCount(k, x);
    }
    assert multiset(Finished(order, k)) == multiset(Iota(k));
  }

  lemma {:induction false} FinishedCount(order: seq<nat>, k: nat, x: nat)
    ensures multiset(Finished(order, k))[x] == if x < k then multiset(order)[x] else 0
    decreases |order|
  {
    if |order| > 0 {
      var init, last := order[..|order| - 1], order[|order| - 1];
      assert order == init + [last];
      FinishedCount(init, k, x);
    }
  }

  lemma {:induction false} IotaCount(n: nat, x: nat)
    ensures multiset(Iota(n))[x] == if x < n then 1 else 0
    decreases n
  {
    if n > 0 {
      IotaCount(n - 1, x);
    }
  }

  /** The file at position `i`, and a placeholder past the end. */
  function FileAt(files: seq<Picked>, i: nat): File {
    if i < |files| then files[i].file else File("", 0)
  }

  /** The same positions in another order give the same files. */
  lemma PermutedFiles(files: seq<Picked>, a: seq<nat>, b: seq<nat>)
    requires forall j :: 0 <= j < |a| ==> a[j] < |files|
    requires forall j :: 0 <= j < |b| ==> b[j] < |files|
    requires multiset(a) == multiset(b)
    ensures multiset(PreviewFiles(PreviewsAt(files, a))) == multiset(PreviewFiles(PreviewsAt(files, b)))
  {
    var f := (i: nat) => FileAt(files, i);
    StableSort.MapSeqPermutation(a, b, f);
    FilesAsMap(files, a, f);
    FilesAsMap(files, b, f);
  }

  lemma FilesAsMap(files: seq<Picked>, idx: seq<nat>, f: nat -> File)
    requires forall j :: 0 <= j < |idx| ==> idx[j] < |files|
    requires forall i :: f(i) == FileAt(files, i)
    ensures PreviewFiles(PreviewsAt(files, idx)) == StableSort.MapSeq(idx, f)
  {
    var l, m := PreviewFiles(PreviewsAt(files, idx)), StableSort.MapSeq(idx, f);
    forall j | 0 <= j < |idx| ensures l[j] == m[j] {
      assert m[j] == FileAt(files, idx[j]);
    }
  }

  /**
   * With the default limit of 5 MB, all three image validators of the
   * project accept exactly the same files.
   */
  lemma ValidatorsAgree(file: File)
    ensures ValidateFile(file, 5).None? <==> ImageUpload.ValidateImageFile(file).Valid?
    ensures ImageUpload.ValidateImageFile(file).Valid? <==> Utils.ValidateImageFile(file).Valid?
  {
  }
}
