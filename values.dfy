/** Values shared by the data-transfer object, the entity, the repository and
    the service: Java's nullable references become `Option`, the two service
    exceptions (and the null dereference that `validateData` can hit) become
    `Failure`, and a call that either returns or throws becomes `Result`. */
module ProductValues {

  datatype Option<+T> = None | Some(value: T)

  /** The ways a service call can end abruptly.
      `InvalidData` is `InvalidDataException`, `ResourceNotFound` is
      `ResourceNotFoundException`, and `NullPointer` is the
      `NullPointerException` raised by `getName().isBlank()` on a null name. */
  datatype Failure = InvalidData | ResourceNotFound | NullPointer

  datatype Result<+T> = Ok(value: T) | Err(failure: Failure)

  /** The field values of a product, as held by a `ProductDTO` or a `Product`
      entity: a nullable `Long` id, a nullable `String` name and a nullable
      `Double` price (modelled as a real number). */
  datatype ProductData = ProductData(id: Option<int>, name: Option<string>, price: Option<real>)

  /** Java's `Character.isWhitespace` on a code point: the space, line and
      paragraph separators other than the three non-breaking spaces, plus
      the control characters U+0009..U+000D and U+001C..U+001F. */
  predicate IsWhitespace(c: char) {
    ('\U{0009}' <= c <= '\U{000D}') || ('\U{001C}' <= c <= '\U{0020}')
    || c == '\U{1680}'
    || ('\U{2000}' <= c <= '\U{2006}') || ('\U{2008}' <= c <= '\U{200A}')
    || c == '\U{2028}' || c == '\U{2029}' || c == '\U{205F}' || c == '\U{3000}'
  }

  /** Java's `String.isBlank`: the string is empty or holds only whitespace. */
  predicate IsBlank(s: string) {
    forall i :: 0 <= i < |s| ==> IsWhitespace(s[i])
  }
}
