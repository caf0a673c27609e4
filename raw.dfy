/**
 * The raw JSON document the catalog is loaded from, and the three JavaScript
 * coercions the loader applies to its field values: truthiness (`v || d`),
 * `String(v)` and `Number(v)`.
 */
module Raw {
  import opened Wrappers
  import opened Text

  /**
   * A field value of a raw book object: missing (undefined or null), a
   * string, or an integral number.
   */
  datatype JsValue = Absent | Str(s: string) | Num(n: int)

  /** One element of the JSON array; `title`, `authors`, ... are its properties. */
  datatype RawBook = RawBook(
    title: JsValue, authors: JsValue, year: JsValue, category: JsValue,
    rating: JsValue, price: JsValue, publisher: JsValue, img: JsValue)

  /**
   * What `JSON.parse` produced: an array whose elements are objects or
   * `null` (written None), or something that is not an array at all.
   */
  datatype Document = JsonArray(elements: seq<Option<RawBook>>) | NotAnArray

  /** JavaScript truthiness: `v || d` keeps `v` exactly when this holds. */
  predicate Truthy(v: JsValue) {
    match v
    case Absent => false
    case Str(s) => s != ""
    case Num(n) => n != 0
  }

  /** `String(v)`, the text a template literal or `textContent` makes of a present value. */
  function ToText(v: JsValue): string
    requires !v.Absent?
  {
    match v
    case Str(s) => s
    case Num(n) => IntToDecimal(n)
  }

  /** `v || d` followed by `String(...)`: the value's text, or the default when it is falsy. */
  function TextOr(v: JsValue, default: string): (r: string)
    ensures Truthy(v) ==> r == ToText(v) && r != ""
    ensures !Truthy(v) ==> r == default
  {
    if Truthy(v) then ToText(v) else default
  }

  /**
   * `Number(v)`; None stands for NaN. `Absent` also covers `null`, for which
   * `Number` gives 0 rather than NaN; every caller follows it with `|| 0`,
   * so both read as 0.
   */
  function ToNumber(v: JsValue): Option<int> {
    match v
    case Absent => None
    case Str(s) => ParseNumber(s)
    case Num(n) => Some(n)
  }
}
