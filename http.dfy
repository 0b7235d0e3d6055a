/**
 * Responses as values: what `res.writeHead` and `res.end` would send, as a
 * status code, an optional `Content-Type` header and a body.
 */
module Http {
  import opened Wrappers

  newtype byte = b: int | 0 <= b < 256

  datatype Body = Text(text: string) | Bytes(data: seq<byte>)

  datatype Response = Response(status: nat, contentType: Option<string>, body: Body)

  const JsonContentType: string := "application/json; charset=utf-8"

  /** `res.writeHead(status); res.end(text)`: no header, a plain body. */
  function PlainResponse(status: nat, text: string): Response {
    Response(status, None, Text(text))
  }

  /** `JSON.stringify({ message })` for a message that needs no escaping. */
  function MessageJson(message: string): string {
    "{\"message\":\"" + message + "\"}"
  }

  /** Different messages give different bodies, so a client can tell the
      answers of the handler apart by their text. */
  lemma MessageJsonInjective(a: string, b: string)
    requires MessageJson(a) == MessageJson(b)
    ensures a == b
  {
    var prefix := "{\"message\":\"";
    var ja, jb := MessageJson(a), MessageJson(b);
    assert |ja| == |prefix| + |a| + 2;
    assert |jb| == |prefix| + |b| + 2;
    assert ja[|prefix|..|prefix| + |a|] == a;
    assert jb[|prefix|..|prefix| + |b|] == b;
  }

  /** `sendJson(res, status, { message })` */
  function JsonMessage(status: nat, message: string): Response {
    Response(status, Some(JsonContentType), Text(MessageJson(message)))
  }
}
