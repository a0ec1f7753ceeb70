/**
 The shared data model of the editor: the edit modes, the normalised target
 selection and the history entries of `types.ts`, plus the two pieces of
 JavaScript value semantics the rest of the model leans on (optional values
 and the truthiness of an optional string).
 */
module Types {

  /** A JavaScript value that may be `undefined` or `null`. */
  datatype Option<+T> = None | Some(value: T)

  /** The closed set of operations the editor offers. */
  datatype EditMode =
    | RemoveBackground
    | RemoveObject
    | CustomPrompt
    | Enhance
    | BlurBackground

  /**
   A point picked on the displayed image, as fractions of its width and
   height. A JavaScript number is a double, and every double is an exact
   rational, so a `real` holds it without loss.
   */
  datatype Selection = Selection(x: real, y: real)

  /** One committed edit: the image it started from and the image it produced. */
  datatype HistoryItem = HistoryItem(
    id: string,
    original: string,
    edited: string,
    prompt: string,
    timestamp: int)

  /** `if (s)` on a `string | null | undefined`: only a non-empty string is truthy. */
  predicate Truthy(s: Option<string>)
  {
    s.Some? && s.value != ""
  }

  /** `${s}` in a template literal: an absent value prints as "undefined". */
  function Interp(s: Option<string>): string
  {
    match s
    case Some(v) => v
    case None => "undefined"
  }
}
