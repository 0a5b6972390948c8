/** Small value types shared by every part of the model. */
module Common {

  /** A value that may be absent: JavaScript's `null`/`undefined` next to a present value. */
  datatype Option<+T> = None | Some(value: T)

  /** The `{ valid: boolean, error?: string }` records the validators return. */
  datatype Verdict = Valid | Invalid(error: string)

  /** A book as the search returns it and a post carries it (the optional extras are left out). */
  datatype Book = Book(isbn: string, title: string, author: string, publisher: string, coverImage: string)

  /** The body of a create-post request. */
  datatype PostData = PostData(book: Book, rating: int, content: string, images: seq<string>, hashtags: seq<string>)
}
