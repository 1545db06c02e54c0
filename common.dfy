/** Shared vocabulary of the game backend model: optional values (SQL NULL,
    a missing JSON field, an empty session) and the HTTP status of a handler. */
module Common {

  datatype Option<+T> = None | Some(value: T)

  /** The status codes the handlers return: 200, 201, 400, 401, 404 and 500. */
  datatype Status = OK | Created | BadRequest | Unauthorized | NotFound | InternalError

  /** Python truthiness of an optional string field: None and "" are falsy. */
  predicate PresentString(s: Option<string>) {
    s.Some? && s.value != ""
  }

  /** Python truthiness of an optional integer field: None and 0 are falsy. */
  predicate PresentInt(n: Option<int>) {
    n.Some? && n.value != 0
  }

  // ---------------------------------------------------------------------
  // Sequences viewed from their last element, for the specifications of
  // the loops that walk fetched rows in order.

  function Init<T>(s: seq<T>): seq<T>
    requires s != []
  {
    s[..|s| - 1]
  }

  function Last<T>(s: seq<T>): T
    requires s != []
  {
    s[|s| - 1]
  }

  /** Extending a prefix by one element. */
  lemma PrefixStep<T>(s: seq<T>, i: nat)
    requires i < |s|
    ensures s[..i + 1] != [] && Init(s[..i + 1]) == s[..i] && Last(s[..i + 1]) == s[i]
  {
  }
}
