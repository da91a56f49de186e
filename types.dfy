/** The records the quote vault passes around. */
module Types {
  import opened Wrappers

  /**
   * One quotation. `meaning`, `origin` and `trivia` are the optional
   * exploration fields; JavaScript's `undefined` is `None`.
   */
  datatype Quote = Quote(
    id: int,
    text: string,
    author: string,
    tags: seq<string>,
    meaning: Option<string>,
    origin: Option<string>,
    trivia: Option<string>)

  /** A notification shown by `toast(...)`. */
  datatype Toast = Toast(destructive: bool, title: string, description: Option<string>)

  /** JavaScript truthiness of an optional string: present and not empty. */
  predicate Truthy(s: Option<string>)
  {
    s.Some? && s.value != ""
  }
}
