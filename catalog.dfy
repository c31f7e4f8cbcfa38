/** The records the controller stores: catalog documents as they arrive from
    the search service. */
module Catalog {

  datatype Option<T> = None | Some(value: T) {
    /** App.js's `value || fallback` idiom. */
    function GetOr(fallback: T): T {
      match this
      case Some(v) => v
      case None => fallback
    }
  }

  /** A document of the search response. Only `key` is read by the
      controller; the other fields are carried along and may be absent. */
  datatype Book = Book(
    key: string,
    title: Option<string>,
    authorName: Option<seq<string>>,
    coverId: Option<int>,
    firstPublishYear: Option<int>)

  /** The key function the favorites list is filtered and searched by. */
  function BookKey(b: Book): (r: string) { b.key }
}
