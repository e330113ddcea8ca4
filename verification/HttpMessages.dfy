/** The message classes of proxy/httpparse.py. */
module HttpMessages {
  import opened Wrappers
  import opened Text
  import opened Headers
  import opened Sockets
  import opened HttpSpec
  import opened HttpParse
  import opened BodyCuts

  class HttpRequest {
    var verb: string
    var url: string
    var version: string
    var headers: Dict
    var body: Option<string>

    ghost function Contents(): Message
      reads this
    {
      Message(verb, url, version, headers)
    }

    constructor (m: Message)
      ensures Contents() == m && body == Some("")
    {
      verb, url, version, headers := m.first, m.second, m.third, m.headers;
      body := Some("");
    }

    static method ParseHeader(sock: BufferedSocket) returns (outcome: Outcome, request: HttpRequest?)
      requires sock.Valid()
      modifies sock`recvBuffer, sock.wrapped`arrivals
      ensures sock.Valid()
      ensures outcome == ParseHead(RequestHead, old(sock.Remaining())).outcome
      ensures outcome.Success? <==> request != null
      ensures request != null ==>
                fresh(request) && request.Contents() == outcome.message && request.body == Some("") &&
                sock.Remaining() == ParseHead(RequestHead, old(sock.Remaining())).rest
    {
      request := null;
      outcome := ReadHead(sock, RequestHead);
      if outcome.Success? {
        request := new HttpRequest(outcome.message);
      }
    }

    /** Reads the body that the headers announce: exactly as `ReadPieces` says, and as far as the stream alone
        decides it, as `ByStream` says. */
    method ParseBody(sock: BufferedSocket) returns (status: BodyStatus)
      requires sock.Valid() && body == Some("")
      modifies this`body, sock`recvBuffer, sock.wrapped`arrivals
      ensures sock.Valid()
      ensures Read(status, body, sock.Pieces()) == ReadPieces(RequestFraming(headers), old(sock.Pieces()))
      ensures ByStream(RequestFraming(headers), old(sock.Remaining()), status, body, sock.Remaining())
    {
      hide ReadPieces, ByStream, Cut, Results, Flatten;
      PiecesCut(sock);
      ForEveryCut(RequestFraming(headers), sock.Pieces(), sock.Remaining());
      var read;
      status, read := ReadBody(sock, RequestFraming(headers));
      body := read;
      PiecesCut(sock);
      CutFlat(sock.Pieces(), sock.Remaining());
    }
  }

  class HttpResponse {
    var version: string
    var statusCode: nat
    var status: string
    var headers: Dict
    var body: Option<string>

    constructor (version: string, statusCode: nat, status: string, headers: Dict)
      ensures this.version == version && this.statusCode == statusCode && this.status == status
      ensures this.headers == headers && body == Some("")
    {
      this.version, this.statusCode, this.status, this.headers := version, statusCode, status, headers;
      body := Some("");
    }

    static method ParseHeader(sock: BufferedSocket) returns (outcome: Outcome, response: HttpResponse?)
      requires sock.Valid()
      modifies sock`recvBuffer, sock.wrapped`arrivals
      ensures sock.Valid()
      ensures var parsed := ParseHead(ResponseHead, old(sock.Remaining())).outcome;
              outcome == if parsed.NoLine? then Closed else parsed
      ensures outcome.Success? <==> response != null
      ensures response != null ==>
                var m := outcome.message;
                fresh(response) && response.version == m.first && response.status == m.third &&
                ParseNat(m.second, 10) == Some(response.statusCode) &&
                response.headers == m.headers && response.body == Some("") &&
                sock.Remaining() == ParseHead(ResponseHead, old(sock.Remaining())).rest
    {
      response := null;
      outcome := ReadHead(sock, ResponseHead);
      if outcome.NoLine? {
        outcome := Closed;
      }
      if outcome.Success? {
        var m := outcome.message;
        var code := ParseNat(m.second, 10);
        response := new HttpResponse(m.first, code.value, m.third, m.headers);
      }
    }

    /** Like the request's, except that a status may forbid a body, that without framing headers
        everything up to the close is the body, and that an early close is not an error. */
    method ParseBody(sock: BufferedSocket) returns (result: BodyStatus)
      requires sock.Valid() && body == Some("")
      modifies this`body, sock`recvBuffer, sock.wrapped`arrivals
      ensures sock.Valid()
      ensures var r := ReadPieces(ResponseFraming(statusCode, headers), old(sock.Pieces()));
              body == r.body && sock.Pieces() == r.rest &&
              result == if r.status.BodyClosed? then BodyOk else r.status
      ensures var f, stream := ResponseFraming(statusCode, headers), old(sock.Remaining());
              if BodyOf(f, stream).status.BodyClosed?
              then result == BodyOk && ByStream(f, stream, BodyClosed, body, sock.Remaining())
              else ByStream(f, stream, result, body, sock.Remaining())
    {
      hide ReadPieces, BodyOf, Cut, Results, Flatten;
      PiecesCut(sock);
      ForEveryCut(ResponseFraming(statusCode, headers), sock.Pieces(), sock.Remaining());
      var read;
      result, read := ReadBody(sock, ResponseFraming(statusCode, headers));
      body := read;
      PiecesCut(sock);
      CutFlat(sock.Pieces(), sock.Remaining());
      if result.BodyClosed? {
        result := BodyOk;
      }
    }
  }

  /** Slicing does not matter: two sockets that deliver the same bytes in different slices give the
      same outcome and leave the same bytes unread. */
  method SlicingDoesNotMatter(a: BufferedSocket, b: BufferedSocket)
    returns (first: Outcome, second: Outcome)
    requires a != b && a.wrapped != b.wrapped && a.Valid() && b.Valid() && a.Remaining() == b.Remaining()
    modifies a`recvBuffer, a.wrapped`arrivals, b`recvBuffer, b.wrapped`arrivals
    ensures first == second
    ensures first.Success? ==> a.Remaining() == b.Remaining()
  {
    first := ReadHead(a, RequestHead);
    second := ReadHead(b, RequestHead);
  }
}
