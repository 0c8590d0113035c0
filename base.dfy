/** Shared vocabulary: nullable values, results of operations that can throw,
    .NET's notion of white space, and FluentValidation's failure record. */
module Base {

  /** A .NET reference or nullable value: `None` stands for `null`. */
  datatype Option<+T> = None | Some(value: T)

  /** The outcome of an operation that either returns a value or throws. */
  datatype Result<+T, +E> = Success(value: T) | Failure(error: E)

  /** `char.IsWhiteSpace`: the Unicode space, line and paragraph separators
      (categories Zs, Zl, Zp) and the control characters U+0009..U+000D, U+0085. */
  predicate IsWhiteSpace(c: char) {
    var n := c as int;
    || (0x09 <= n <= 0x0D)
    || n == 0x20 || n == 0x85 || n == 0xA0 || n == 0x1680
    || (0x2000 <= n <= 0x200A)
    || n == 0x2028 || n == 0x2029 || n == 0x202F || n == 0x205F || n == 0x3000
  }

  /** `string.IsNullOrWhiteSpace`: null, empty, or made only of white space. */
  predicate IsNullOrWhiteSpace(s: Option<string>) {
    match s
    case None => true
    case Some(t) => forall i :: 0 <= i < |t| ==> IsWhiteSpace(t[i])
  }

  /** A FluentValidation `ValidationFailure`: the property that failed and the
      validator that rejected it. */
  datatype ValidationFailure = ValidationFailure(propertyName: string, errorCode: string)
}
