/**
  What a request handler sends back and what it receives: a JSON value with
  a status code, or `{ error }` with an error status; request fields that
  may be absent; and the result of a handler as a whole: the reply, the
  store afterwards and the events broadcast.
 */
module Replies {

  import opened Base
  import opened Events

  datatype Reply<+T> =
    | Json(status: int, value: T)
    | Failure(status: int, error: string)

  /** A request field that is present and not the empty string: the fields
      for which JavaScript's `!field` is false. */
  predicate Given(field: Option<string>) {
    field.Some? && field.value != ""
  }

  /** A handler's effect on the store `S`, with its reply and the events it
      broadcast, in order. */
  datatype Outcome<+S, +T> = Outcome(reply: Reply<T>, store: S, events: seq<Event>)
}
