/**
 * The few JavaScript values the build script and the page bootstrap inspect:
 * optional fields, the scalars a manifest field may hold, truthiness, and
 * the outcome of a `require` that may throw.
 */
module JsValues {

  /** A field that may be absent (`undefined`). */
  datatype Option<+T> = None | Some(value: T)

  /** A scalar manifest or descriptor field: `undefined`, a boolean or a string. */
  datatype Scalar = Undefined | Bool(b: bool) | Str(s: string)

  /** The outcome of a step that `require`s package manifests: a value, or the exception
      thrown because some manifest is not installed. */
  datatype Result<+T> = Ok(value: T) | RequireFailed

  /** JavaScript truthiness: `undefined`, `false` and `""` are falsy. */
  predicate Truthy(v: Scalar) {
    match v
    case Undefined => false
    case Bool(b) => b
    case Str(s) => s != ""
  }

  /** `s.startsWith(prefix)` */
  predicate StartsWith(s: string, prefix: string) {
    |prefix| <= |s| && s[..|prefix|] == prefix
  }
}
