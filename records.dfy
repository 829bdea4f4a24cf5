/** The values the document manager works with: its three records and the
    wrappers that stand for Java's null and Java's exceptions. */
module Records {

  /** A Java reference that may be null. */
  datatype Option<+T> = None | Some(value: T)

  /** The outcome of a call that may throw. */
  datatype Result<+R, +E> = Success(value: R) | Failure(error: E)

  /** The two exceptions the core can raise. */
  datatype Exception = IllegalArgument(message: string) | NullPointer

  /** A java.time.Instant; only the order of instants matters to the core. */
  type Instant = int

  datatype Author = Author(id: Option<string>, name: Option<string>)

  datatype Document = Document(
    id: Option<string>,
    title: Option<string>,
    content: Option<string>,
    author: Option<Author>,
    created: Option<Instant>)

  /** Every criterion may be null; a null or empty list sets no constraint. */
  datatype SearchRequest = SearchRequest(
    titlePrefixes: Option<seq<string>>,
    containsContents: Option<seq<string>>,
    authorIds: Option<seq<string>>,
    createdFrom: Option<Instant>,
    createdTo: Option<Instant>)

  /** The request whose criteria are all null. */
  const EmptyRequest := SearchRequest(None, None, None, None, None)

  /** An id that is null or the empty string. */
  predicate IsBlank(id: Option<string>) {
    id.None? || |id.value| == 0
  }

  /** A list criterion that is null or empty, and so constrains nothing. */
  predicate IsUnset(list: Option<seq<string>>) {
    list.None? || |list.value| == 0
  }
}
