/** The text generator as the revision handler sees it (server/lib/huggingface.ts): one call
    either hands back a value or throws. The HTTP request is not modelled; its reply is an
    input. */
module Generator {
  import opened Optional

  /** What one call of the generator gives the handler: a string, `undefined` (the reply
      carried no text at all), or a thrown error. */
  datatype Gen = Text(text: string) | Missing | Throws

  /** The handler's emptiness test on a returned value: `undefined` and "" are falsy. */
  predicate IsFalsy(g: Gen)
    requires !g.Throws?
  {
    g.Missing? || g.text == ""
  }

  /** How a returned value reads once interpolated into a template string. */
  function Interpolated(g: Gen): string
    requires !g.Throws?
  {
    if g.Missing? then "undefined" else g.text
  }

  /** The decoded body of a reply: not JSON at all, or JSON with an `error` member (present
      and truthy or not), the first choice's message content and a `generated_text` member. */
  datatype Body = Malformed | Json(hasError: bool, content: Option<string>, generatedText: Option<string>)

  /** A reply from the completion endpoint: the request itself failed, or an HTTP status
      (`ok` for 2xx) with a body. */
  datatype Reply = NetworkFailure | HttpReply(ok: bool, body: Body)

  predicate IsTruthy(t: Option<string>) {
    t.Some? && t.value != ""
  }

  /** A reply that the client turns into a thrown error: the request failed, the status was
      not 2xx, the body was not JSON, or it carried an error member. */
  predicate Rejected(reply: Reply) {
    reply.NetworkFailure? || !reply.ok || reply.body.Malformed? || reply.body.hasError
  }

  /** `generateWithHF`: throws on a rejected reply, and otherwise returns the message content
      when it is a non-empty string, falling back to `generated_text`. */
  function GenerateWithHF(reply: Reply): (g: Gen)
    ensures g.Throws? <==> Rejected(reply)
    ensures !g.Throws? ==>
      (IsFalsy(g) <==> !IsTruthy(reply.body.content) && !IsTruthy(reply.body.generatedText))
    ensures !Rejected(reply) && IsTruthy(reply.body.content) ==> g == Text(reply.body.content.value)
    ensures !Rejected(reply) && !IsTruthy(reply.body.content) ==>
      (g.Missing? <==> reply.body.generatedText.None?) && (g.Text? ==> reply.body.generatedText == Some(g.text))
  {
    if reply.NetworkFailure? || !reply.ok then Throws
    else if reply.body.Malformed? || reply.body.hasError then Throws
    else if IsTruthy(reply.body.content) then Text(reply.body.content.value)
    else if reply.body.generatedText.Some? then Text(reply.body.generatedText.value)
    else Missing
  }
}
