/**
 * Failures and responses of the generic controller: the domain exception that carries
 * its own status and message (ReactiveException), every other failure, and the single
 * recovery rule handleFailures that turns a failure into a response.
 */
module Failures {

  /** An HTTP status, by its code. */
  datatype Status = Status(code: nat)

  const OK := Status(200)
  const NO_CONTENT := Status(204)
  const BAD_REQUEST := Status(400)
  const NOT_FOUND := Status(404)

  /** What made a pipeline fail. */
  datatype Failure =
    | Reactive(status: Status, message: string)   // a ReactiveException with its two fields
    | Unclassified(description: string)           // any other Throwable

  datatype Option<+V> = None | Some(value: V)

  /** The outcome of one step that can fail. */
  datatype Result<+V> = Ok(value: V) | Err(failure: Failure) {
    predicate IsFailure() {
      Err?
    }

    function PropagateFailure<W>(): Result<W>
      requires Err?
    {
      Err(failure)
    }

    function Extract(): V
      requires Ok?
    {
      value
    }
  }

  /** A response header with an integer value (startRow, pageSize, listSize). */
  datatype Header = Header(name: string, value: int)

  /** The payload a response carries. */
  datatype Body<+T, +U> =
    | Entity(entity: T)
    | Entities(items: seq<T>)
    | Key(key: U)
    | Count(count: nat)
    | Message(text: string)      // the message of a ReactiveException
    | Fault(description: string) // any other failure, as the response builder renders it

  /**
   * A response. `Json` is what Response.status(..).entity(..).header(..) and
   * jsonMessageResponse(status, x) build; `NullObjectError` is the answer
   * jsonErrorMessageResponse(null) gives to a null body, whose status is
   * decided by a class outside this model.
   */
  datatype Response<+T, +U> =
    | Json(status: Status, body: Body<T, U>, headers: seq<Header>)
    | NullObjectError

  /** handleFailures: a ReactiveException keeps its own status and message, anything else is 400. */
  function HandleFailures<T, U>(f: Failure): (r: Response<T, U>)
    ensures r.Json? && r.headers == []
    ensures f.Reactive? ==> r.status == f.status && r.body == Message(f.message)
    ensures f.Unclassified? ==> r.status == BAD_REQUEST && r.body == Fault(f.description)
  {
    match f
    case Reactive(status, message) => Json(status, Message(message), [])
    case Unclassified(description) => Json(BAD_REQUEST, Fault(description), [])
  }

  /** The failure a mapped response stands for: the partner of HandleFailures. */
  function FailureOf<T, U>(r: Response<T, U>): Option<Failure> {
    if r.NullObjectError? || r.headers != [] then None
    else match r.body
      case Message(m) => Some(Reactive(r.status, m))
      case Fault(d) => if r.status == BAD_REQUEST then Some(Unclassified(d)) else None
      case _ => None
  }

  /**
   * The mapping loses nothing: the failure can be read back from its response. This and
   * HandleFailuresInjective rest on reading jsonMessageResponse as a plain constructor of
   * a Message or Fault body; that class is not part of this model.
   */
  lemma HandleFailuresRoundTrip<T, U>(f: Failure)
    ensures FailureOf<T, U>(HandleFailures(f)) == Some(f)
  {
  }

  /** Two failures map to the same response only when they are the same failure. */
  lemma HandleFailuresInjective<T, U>(f: Failure, g: Failure)
    ensures HandleFailures<T, U>(f) == HandleFailures<T, U>(g) ==> f == g
  {
    HandleFailuresRoundTrip<T, U>(f);
    HandleFailuresRoundTrip<T, U>(g);
  }

  /** A status other than 400 reaches the client only from a ReactiveException carrying it. */
  lemma OnlyReactiveChoosesStatus<T, U>(f: Failure)
    ensures HandleFailures<T, U>(f).status != BAD_REQUEST ==> f.Reactive? && f.status == HandleFailures<T, U>(f).status
  {
  }

  /** The message of getObjectNotFoundException for a type name and the key's text. */
  function NotFoundMessage(typeName: string, keyText: string): (m: string)
    ensures |m| == |typeName| + |keyText| + 30
    ensures m[..8] == "Object [" && m[8..8 + |typeName|] == typeName
    ensures m[8 + |typeName|..19 + |typeName|] == "] with id ["
    ensures m[19 + |typeName|..19 + |typeName| + |keyText|] == keyText
    ensures m[19 + |typeName| + |keyText|..] == "] not found"
  {
    "Object [" + typeName + "] with id [" + keyText + "] not found"
  }

  /** getObjectNotFoundException: a ReactiveException with NOT_FOUND. */
  function ObjectNotFound(typeName: string, keyText: string): (f: Failure)
    ensures f.Reactive? && f.status == NOT_FOUND
  {
    Reactive(NOT_FOUND, NotFoundMessage(typeName, keyText))
  }

  /** The not-found failure reaches the client as 404 with its message verbatim. */
  lemma NotFoundResponse<T, U>(typeName: string, keyText: string)
    ensures HandleFailures<T, U>(ObjectNotFound(typeName, keyText))
            == Json(NOT_FOUND, Message(NotFoundMessage(typeName, keyText)), [])
  {
  }

  /** The not-found message names the entity type and the key, so distinct keys give distinct messages. */
  lemma NotFoundMessageDeterminesKey(typeName: string, k1: string, k2: string)
    requires NotFoundMessage(typeName, k1) == NotFoundMessage(typeName, k2)
    ensures k1 == k2
  {
    var m := NotFoundMessage(typeName, k1);
    assert |k1| == |k2|;
    assert k1 == m[19 + |typeName|..19 + |typeName| + |k1|];
  }
}
