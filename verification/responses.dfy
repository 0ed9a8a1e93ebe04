/**
 * server.cpp: the five response builders internalServerError, badRequest,
 * methodNotAllowed, notFound and okResponse. Each builds the full response
 * text; handing it to send() on the socket is not part of this model.
 */
module Responses {
  import opened Text

  /** The replies the server can send, one per builder. */
  datatype Reply =
    | Ok(content: string, contentType: string)
    | BadRequest
    | NotFound(uri: string)
    | MethodNotAllowed
    | InternalError

  /**
   * The shape of an HTTP/1.1 response as this server writes it: a status
   * line, Content-Type, a Content-Length holding the decimal length of the
   * body, then (when `close`) "Connection: close" and the blank line that
   * ends the header block, then the body.
   */
  function Frame(statusLine: string, contentType: string, body: string, close: bool): (r: string)
    ensures OccursAt(r, statusLine + "\r\n", 0)
    ensures OccursAt(r, ContentTypeLine(contentType), |statusLine| + 2)
    ensures DeclaresLength(r, LengthOffset(statusLine, contentType), body)
    ensures ClosesHeader(r, body) <==> close
  {
    var head := FrameHead(statusLine, contentType);
    FrameParts(statusLine, contentType, close);
    LengthField(head, FrameTail(close), body);
    FrameEnd(head + Decimal(|body|), close, body);
    StartsWithStatusLine(statusLine, contentType, Decimal(|body|), FrameTail(close), body);
    ContentTypeLineAt(statusLine, contentType, Decimal(|body|), FrameTail(close), body);
    head + Decimal(|body|) + FrameTail(close) + body
  }

  /** The Content-Type header line. */
  function ContentTypeLine(contentType: string): string
  {
    "Content-Type: " + contentType + "\r\n"
  }

  /** The status line and Content-Type, up to the Content-Length digits. */
  function FrameHead(statusLine: string, contentType: string): string
  {
    statusLine + "\r\n" + "Content-Type: " + contentType + "\r\n" + "Content-Length: "
  }

  /** What follows the Content-Length digits, up to the body. */
  function FrameTail(close: bool): string
  {
    "\r\n" + (if close then "Connection: close\r\n\r\n" else "")
  }

  /** Where the Content-Length digits start inside a frame. */
  function LengthOffset(statusLine: string, contentType: string): nat
  {
    |FrameHead(statusLine, contentType)|
  }

  /**
   * `r` carries the field "Content-Length: " just before offset `k`, the
   * digits from `k` on spell the length of `body`, and `r` ends with `body`:
   * a client that reads the field knows where the response ends.
   */
  predicate DeclaresLength(r: string, k: nat, body: string)
  {
    && 16 <= k <= |r|
    && OccursAt(r, "Content-Length: ", k - 16)
    && DigitsValue(DigitPrefix(r[k..])) == |body|
    && |body| <= |r| && r[|r| - |body|..] == body
  }

  lemma {:induction false} FrameParts(statusLine: string, contentType: string, close: bool)
    ensures var head := FrameHead(statusLine, contentType);
            |head| >= 16 && head[|head| - 16..] == "Content-Length: "
    ensures FrameTail(close) != [] && FrameTail(close)[0] == '\r'
  {
    var head := FrameHead(statusLine, contentType);
    var pre := statusLine + "\r\n" + "Content-Type: " + contentType + "\r\n";
    assert head == pre + "Content-Length: ";
    assert head[|pre|..] == "Content-Length: ";
  }

  /** A frame starts with its status line and CRLF. */
  lemma {:induction false} StartsWithStatusLine(statusLine: string, contentType: string, digits: string, tail: string,
                                                body: string)
    ensures OccursAt(FrameHead(statusLine, contentType) + digits + tail + body, statusLine + "\r\n", 0)
  {
    var line := statusLine + "\r\n";
    var more := "Content-Type: " + contentType + "\r\n" + "Content-Length: " + digits + tail + body;
    assert FrameHead(statusLine, contentType) + digits + tail + body == line + more;
    OccursConcat(line, more);
  }

  /** The Content-Type line follows the status line and its CRLF. */
  lemma {:induction false} ContentTypeLineAt(statusLine: string, contentType: string, digits: string, tail: string,
                                             body: string)
    ensures OccursAt(FrameHead(statusLine, contentType) + digits + tail + body, ContentTypeLine(contentType),
                     |statusLine| + 2)
  {
    var line := statusLine + "\r\n";
    var rest := digits + tail + body;
    var more := ContentTypeLine(contentType) + ("Content-Length: " + rest);
    assert FrameHead(statusLine, contentType) + digits + tail + body == line + more;
    OccursConcat(line, more);
    OccursConcat(ContentTypeLine(contentType), "Content-Length: " + rest);
    OccursIn(line + more, more, |line|, ContentTypeLine(contentType), 0);
  }

  /** Digits written after a "Content-Length: " field name, then CR, are read back as the body's length. */
  lemma {:induction false} LengthField(head: string, tail: string, body: string)
    requires |head| >= 16 && head[|head| - 16..] == "Content-Length: "
    requires tail != [] && tail[0] == '\r'
    ensures DeclaresLength(head + Decimal(|body|) + tail + body, |head|, body)
  {
    var r := head + Decimal(|body|) + tail + body;
    assert r[|head| - 16..|head|] == "Content-Length: ";
    OccursSlice(r, "Content-Length: ", |head| - 16);
    assert r[|head|..] == Decimal(|body|) + (tail + body);
    DigitPrefixOf(Decimal(|body|), tail + body);
    DecimalRoundTrip(|body|);
  }

  const InternalErrorBody: string := "500 Internal Server Error\nAn unexpected error occurred on the server.\n"
  const BadRequestBody: string := "400 Bad Request\nThe server could not understand the request.\n"
  const MethodNotAllowedBody: string := "405 Method Not Allowed\nThe requested HTTP method is not supported.\n"

  const NotFoundPrefix: string := "404 Not Found\nThe requested resource "
  const NotFoundSuffix: string := " was not found on this server.\n"

  /** The body of a 404 reply, which names the resource that was asked for. */
  function NotFoundBody(uri: string): (b: string)
    ensures |b| == |NotFoundPrefix| + |uri| + |NotFoundSuffix|
    ensures OccursAt(b, uri, |NotFoundPrefix|)
  {
    OccursConcat(NotFoundPrefix, uri);
    OccursConcat(NotFoundPrefix + uri, NotFoundSuffix);
    OccursIn(NotFoundPrefix + uri + NotFoundSuffix, NotFoundPrefix + uri, 0, uri, |NotFoundPrefix|);
    NotFoundPrefix + uri + NotFoundSuffix
  }

  /**
   * Just before `body`, `r` holds "Connection: close" and the blank line
   * exactly when the frame was built with `close`: without it the digits of
   * Content-Length and one CRLF come right before the body.
   */
  lemma {:induction false} FrameEnd(pre: string, close: bool, body: string)
    requires pre != [] && IsDigit(pre[|pre| - 1])
    ensures ClosesHeader(pre + FrameTail(close) + body, body) <==> close
  {
    var r := pre + FrameTail(close) + body;
    if close {
      assert r == (pre + "\r\n") + ConnectionClose + body;
      assert r[|pre| + 2..|pre| + 2 + |ConnectionClose|] == ConnectionClose;
    } else if |body| + |ConnectionClose| <= |r| {
      var before := r[|r| - |body| - |ConnectionClose|..|r| - |body|];
      assert before[18] == pre[|pre| - 1];
      assert ConnectionClose[18] == '\n';
    }
  }

  /** internalServerError: no Connection header and no blank line before the body. */
  function InternalServerError(): (r: string)
    ensures Sends(r, InternalError)
  {
    Frame("HTTP/1.1 500 Internal Server Error", "text/plain", InternalErrorBody, false)
  }

  /** badRequest. */
  function BadRequestResponse(): (r: string)
    ensures Sends(r, BadRequest)
  {
    Frame("HTTP/1.1 400 Bad Request", "text/plain", BadRequestBody, true)
  }

  /** methodNotAllowed. */
  function MethodNotAllowedResponse(): (r: string)
    ensures Sends(r, MethodNotAllowed)
  {
    Frame("HTTP/1.1 405 Method Not Allowed", "text/plain", MethodNotAllowedBody, true)
  }

  /** notFound(uri). */
  function NotFoundResponse(uri: string): (r: string)
    ensures Sends(r, NotFound(uri))
  {
    Frame("HTTP/1.1 404 Not Found", "text/plain", NotFoundBody(uri), true)
  }

  /** okResponse(content, contentType): the content is the body, unchanged. */
  function OkResponse(content: string, contentType: string): (r: string)
    ensures Sends(r, Ok(content, contentType))
  {
    Frame("HTTP/1.1 200 OK", contentType, content, true)
  }

  /** The text sent for a reply. */
  function Render(reply: Reply): (r: string)
    ensures Sends(r, reply)
  {
    match reply
    case Ok(content, contentType) => OkResponse(content, contentType)
    case BadRequest => BadRequestResponse()
    case NotFound(uri) => NotFoundResponse(uri)
    case MethodNotAllowed => MethodNotAllowedResponse()
    case InternalError => InternalServerError()
  }

  /** The body a reply carries. */
  function BodyOf(reply: Reply): string
  {
    match reply
    case Ok(content, _) => content
    case BadRequest => BadRequestBody
    case NotFound(uri) => NotFoundBody(uri)
    case MethodNotAllowed => MethodNotAllowedBody
    case InternalError => InternalErrorBody
  }

  /** The status line of a reply. */
  function StatusLine(reply: Reply): string
  {
    match reply
    case Ok(_, _) => "HTTP/1.1 200 OK"
    case BadRequest => "HTTP/1.1 400 Bad Request"
    case NotFound(_) => "HTTP/1.1 404 Not Found"
    case MethodNotAllowed => "HTTP/1.1 405 Method Not Allowed"
    case InternalError => "HTTP/1.1 500 Internal Server Error"
  }

  /** The Content-Type of a reply: the caller's for 200, text/plain otherwise. */
  function ContentTypeOf(reply: Reply): string
  {
    if reply.Ok? then reply.contentType else "text/plain"
  }

  /**
   * `r` is the text of `reply`: it starts with the reply's status line,
   * followed by the Content-Type line naming the reply's type, declares the exact byte length of the reply's body and ends with that
   * body; it ends its header block with "Connection: close" and a blank line
   * unless the reply is the 500.
   */
  predicate Sends(r: string, reply: Reply)
  {
    && OccursAt(r, StatusLine(reply) + "\r\n", 0)
    && OccursAt(r, ContentTypeLine(ContentTypeOf(reply)), |StatusLine(reply)| + 2)
    && DeclaresLength(r, LengthOffset(StatusLine(reply), ContentTypeOf(reply)), BodyOf(reply))
    && (ClosesHeader(r, BodyOf(reply)) <==> !reply.InternalError?)
  }

  const ConnectionClose: string := "Connection: close\r\n\r\n"

  /** Just before `body`, `r` holds "Connection: close" and the blank line that ends the header block. */
  predicate ClosesHeader(r: string, body: string)
  {
    |body| + |ConnectionClose| <= |r| && r[|r| - |body| - |ConnectionClose|..|r| - |body|] == ConnectionClose
  }

  /** A text that ends with a 404 body names the uri, where the body puts it. */
  lemma {:induction false} NotFoundEchoesUri(r: string, uri: string)
    requires |NotFoundBody(uri)| <= |r| && r[|r| - |NotFoundBody(uri)|..] == NotFoundBody(uri)
    ensures OccursAt(r, uri, |r| - |NotFoundBody(uri)| + |NotFoundPrefix|)
  {
    EndsWithAt(r, NotFoundBody(uri), NotFoundPrefix, uri, NotFoundSuffix);
  }

  /** A text that ends with b == pre + s + post holds s where it was put. */
  lemma {:induction false} EndsWithAt(r: string, b: string, pre: string, s: string, post: string)
    requires b == pre + s + post && |b| <= |r| && r[|r| - |b|..] == b
    ensures OccursAt(r, s, |r| - |b| + |pre|)
  {
    var k := |r| - |b|;
    assert b[|pre|..|pre| + |s|] == s;
    OccursSlice(b, s, |pre|);
    assert r[k..k + |b|] == b;
    OccursSlice(r, b, k);
    OccursIn(r, b, k, s, |pre|);
  }
}
