/** The decision each query component of the frontend makes about the
    backend's reply: check the HTTP status, then the envelope's `code`, then
    decode `result`, and leave a (data, error) pair behind. */
module Envelope {
  import opened Wrappers

  /** JSON.parse of the envelope's `result` string. */
  datatype Parse<T> = Parsed(value: T) | SyntaxError

  /** What `await axios.get(...)` produced: it threw, or it resolved to a
      response with an HTTP status and an envelope `{code, message, result}`
      whose fields may be missing. */
  datatype Fetch<T> =
    | Threw
    | Answered(status: int, code: Option<string>, message: Option<string>, result: Parse<T>)

  /** The two state cells a component updates: the decoded data (`null`
      when absent) and the error text (`''` when none). */
  datatype View<T> = View(data: Option<T>, error: string)

  const UnexpectedCode := "Unexpected response code"
  const UnexpectedStatus := "Unexpected response status"

  /** `message || fallback`: a missing or empty message is falsy, so the
      fallback is shown instead. */
  function MessageOr(message: Option<string>, fallback: string): (s: string)
    ensures message.Some? && message.value != "" ==> s == message.value
    ensures message.None? || message.value == "" ==> s == fallback
    ensures fallback != "" ==> s != ""
  {
    match message
    case Some(m) => if m != "" then m else fallback
    case None => fallback
  }

  /** Status 200, envelope code "200", and a `result` that parses. */
  predicate Succeeded<T>(f: Fetch<T>)
  {
    f.Answered? && f.status == 200 && f.code == Some("200") && f.result.Parsed?
  }

  /** The state a handler leaves, whatever the state before it:
      `fetchFailed` is the text its catch block shows. */
  function Outcome<T>(f: Fetch<T>, fetchFailed: string): (v: View<T>)
    requires fetchFailed != ""
    ensures v.data.Some? <==> v.error == ""
    ensures v.error == "" <==> Succeeded(f)
    ensures v.data.Some? ==> v.data.value == f.result.value
    ensures f.Answered? && f.status != 200 ==> v == View(None, UnexpectedStatus)
    ensures (f.Answered? && f.status == 200 && f.code != Some("200"))
            ==> v == View(None, MessageOr(f.message, UnexpectedCode))
    ensures (f.Threw? || (f.Answered? && f.status == 200 && f.code == Some("200") && f.result.SyntaxError?))
            ==> v == View(None, fetchFailed)
  {
    match f
    case Threw => View(None, fetchFailed)
    case Answered(status, code, message, result) =>
      if status != 200 then View(None, UnexpectedStatus)
      else if code != Some("200") then View(None, MessageOr(message, UnexpectedCode))
      else match result
        case SyntaxError => View(None, fetchFailed)
        case Parsed(value) => View(Some(value), "")
  }
}
