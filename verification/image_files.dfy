/** The image-file rule every uploader applies: an allowed MIME type first, then a size limit. */
module ImageFiles {
  import opened Common

  /** A selected file, reduced to what the validators read from it. */
  datatype File = File(mimeType: string, size: nat)

  const AllowedTypes: seq<string> := ["image/jpeg", "image/png", "image/gif"]

  /** Five mebibytes, the limit both `validateImageFile` helpers use. */
  const MaxImageBytes: nat := 5 * 1024 * 1024

  predicate IsAllowedType(mimeType: string) {
    mimeType in AllowedTypes
  }

  /** Accepted: an allowed type and a size of at most `maxBytes`. */
  predicate Acceptable(file: File, maxBytes: int) {
    IsAllowedType(file.mimeType) && file.size <= maxBytes
  }

  /** The shared check: the type is rejected before the size is looked at. */
  function CheckImage(file: File, maxBytes: int, typeError: string, sizeError: string): (v: Verdict)
    ensures v.Valid? <==> Acceptable(file, maxBytes)
    ensures !IsAllowedType(file.mimeType) ==> v == Invalid(typeError)
    ensures IsAllowedType(file.mimeType) && file.size > maxBytes ==> v == Invalid(sizeError)
  {
    if !IsAllowedType(file.mimeType) then Invalid(typeError)
    else if file.size > maxBytes then Invalid(sizeError)
    else Valid
  }
}

/** lib/imageUpload.ts: the root front-end's image validator. */
module ImageUpload {
  import opened Common
  import opened ImageFiles

  const TypeError := "JPG, PNG, GIF 형식만 업로드 가능합니다."
  const SizeError := "파일 크기는 5MB를 초과할 수 없습니다."

  /** `validateImageFile`. */
  function ValidateImageFile(file: File): (v: Verdict)
    ensures v.Valid? <==> IsAllowedType(file.mimeType) && file.size <= 5242880
    ensures !IsAllowedType(file.mimeType) ==> v == Invalid(TypeError)
    ensures IsAllowedType(file.mimeType) && file.size > 5242880 ==> v == Invalid(SizeError)
  {
    CheckImage(file, MaxImageBytes, TypeError, SizeError)
  }

  /** The limit is inclusive: a file of exactly five mebibytes passes, one byte more fails. */
  lemma SizeBoundary(mimeType: string)
    requires IsAllowedType(mimeType)
    ensures ValidateImageFile(File(mimeType, 5242880)) == Valid
    ensures ValidateImageFile(File(mimeType, 5242881)) == Invalid(SizeError)
  {
  }
}
