/** The message envelope the applications send and receive: a string payload
    and named headers, as built by `MessageBuilder.withPayload(…).setHeader(…)`,
    and the failures the applications can raise. */
module Messaging {
  import opened JavaLang

  datatype Option<T> = None | Some(value: T)

  /** The Java exceptions the modelled code can raise. */
  datatype JavaException =
    | ArithmeticException                  // integral `%` by zero
    | MissingHeaderException(name: string) // a required `@Header` is absent

  datatype Result<T> = Success(value: T) | Failure(error: JavaException)

  /** The outcome of a call that returns nothing (`void`) or throws. */
  datatype Outcome = Pass | Fail(error: JavaException)

  /** Header values in this system are all `long`s (the `account` key). */
  datatype Message = Message(payload: string, headers: map<string, Int64>)

  /** The name of the header that carries the partition key. */
  const ACCOUNT_HEADER: string := "account"

  /** `MessageBuilder.withPayload(p).build()`: the payload and no headers. */
  function WithPayload(p: string): (m: Message)
    ensures m.payload == p && |m.headers| == 0
  {
    Message(p, map[])
  }

  /** `setHeader(name, value)` on a builder: adds or replaces one header and
      leaves the payload and every other header as they were. */
  function SetHeader(m: Message, name: string, value: Int64): (r: Message)
    ensures r.payload == m.payload
    ensures HeaderOf(r, name) == Some(value)
    ensures forall h :: h != name ==> HeaderOf(r, h) == HeaderOf(m, h)
    ensures r.headers.Keys == m.headers.Keys + {name}
  {
    Message(m.payload, m.headers[name := value])
  }

  /** Reads a header as a `@Header` parameter does: None when it is absent. */
  function HeaderOf(m: Message, name: string): (r: Option<Int64>)
    ensures r.None? <==> name !in m.headers
    ensures r.Some? ==> r.value == m.headers[name]
  {
    if name in m.headers then Some(m.headers[name]) else None
  }
}
