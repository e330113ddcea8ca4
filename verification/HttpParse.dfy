/**
 The message parsers of proxy/httpparse.py as loops over a buffered socket. `HttpRequest.parse_header`
 and `HttpResponse.parse_header` (and the two chunk loops) are the same text up to the first line, so
 the shared loops are methods of this module.
 */
module HttpParse {
  import opened Wrappers
  import opened Text
  import opened Headers
  import opened Sockets
  import opened HttpSpec

  datatype LineState = Receiving | AtBody | Bad

  /** Takes complete header lines off the front of `buf`. `more` is what the socket still holds. */
  method ConsumeLines(headers: Dict, received: string, ghost more: string)
    returns (h: Dict, buf: string, state: LineState)
    ensures state.Receiving? ==>
              Find(buf, CRLF) < 0 && HeaderLines(headers, received + more) == HeaderLines(h, buf + more)
    ensures state.AtBody? ==> HeaderLines(headers, received + more) == Lines(h, buf + more)
    ensures state.Bad? ==> HeaderLines(headers, received + more) == BadLine
  {
    hide Find, SplitField, Capitalize, Merge, HeaderLines;
    h, buf, state := headers, received, Receiving;
    var newline := Find(buf, CRLF);
    while newline >= 0
      invariant state.Receiving?
      invariant newline == Find(buf, CRLF)
      invariant HeaderLines(headers, received + more) == HeaderLines(h, buf + more)
      decreases |buf|
    {
      LineStep(h, buf, more);
      var line := buf[..newline];
      buf := buf[newline + 2..];
      if |line| == 0 {
        return h, buf, AtBody;
      }
      match SplitField(line) {
        case None => return h, buf, Bad;
        case Some(f) => h := Merge(h, Capitalize(f.name), f.value);
      }
      newline := Find(buf, CRLF);
    }
  }

  type First = Option<(string, string, string)>

  /** What the header parser computes from here: `first` is the first line if it has been read. */
  ghost function Pending(kind: Kind, first: First, h: Dict, s: string): Head {
    if first.None? then ParseHead(kind, s) else AfterFirst(first, h, s)
  }

  /** One round of the state machine on the bytes received so far; `more` is what the socket still holds. */
  method Absorb(kind: Kind, first0: First, headers: Dict, received: string, ghost more: string)
    returns (first: First, h: Dict, buf: string, state: LineState)
    requires first0.None? ==> headers == []
    ensures first.None? && state.Receiving? ==> h == []
    ensures state.Receiving? ==>
              Find(buf, CRLF) < 0 &&
              Pending(kind, first0, headers, received + more) == Pending(kind, first, h, buf + more)
    ensures state.AtBody? ==>
              first.Some? &&
              Pending(kind, first0, headers, received + more) ==
              Head(Success(Message(first.value.0, first.value.1, first.value.2, h)), buf + more)
    ensures state.Bad? ==> Pending(kind, first0, headers, received + more) == Head(Malformed, "")
  {
    first, h, buf, state := first0, headers, received, Receiving;
    if first.None? {
      var newline := Find(buf, CRLF);
      if newline < 0 {
        return;
      }
      HeadStep(kind, buf, more);
      first := FirstLine(kind, buf[..newline]);
      if first.None? {
        state := Bad;
        return;
      }
      buf := buf[newline + 2..];
    }
    h, buf, state := ConsumeLines(h, buf, more);
  }

  /** `parse_header` of both classes: the outcome depends on the stream alone, however it is cut, and
      on success exactly the bytes after the blank line can still be read. */
  method ReadHead(sock: BufferedSocket, kind: Kind) returns (outcome: Outcome)
    requires sock.Valid()
    modifies sock`recvBuffer, sock.wrapped`arrivals
    ensures sock.Valid()
    ensures outcome == ParseHead(kind, old(sock.Remaining())).outcome
    ensures outcome.Success? ==> sock.Remaining() == ParseHead(kind, old(sock.Remaining())).rest
  {
    hide RecvBuffered, Results, Flatten, Find;
    var first: First, h, buf := None, [], "";
    assert buf + sock.Remaining() == sock.Remaining();
    while true
      invariant sock.Valid() && Find(buf, CRLF) < 0
      invariant first.None? ==> h == []
      invariant Pending(kind, first, h, buf + sock.Remaining()) == ParseHead(kind, old(sock.Remaining()))
      decreases |sock.Remaining()|
    {
      ghost var before := sock.Remaining();
      var rcvd := sock.Recv(BUFSIZE);
      if |rcvd| == 0 {
        assert buf + before == buf;
        break;
      }
      assert buf + before == (buf + rcvd) + sock.Remaining();
      var state;
      first, h, buf, state := Absorb(kind, first, h, buf + rcvd, sock.Remaining());
      if state.Bad? {
        return Malformed;
      }
      if state.AtBody? {
        sock.Rewind(buf);
        return Success(Message(first.value.0, first.value.1, first.value.2, h));
      }
    }
    outcome := if first.None? then NoLine else Closed;
  }

  /** The inner loop of both chunked readers. It goes on after the last chunk while it finds lines. */
  method ConsumeChunks(acc: string, received: string) returns (body: string, buf: string, done: bool, bad: bool)
    ensures Loop(body, buf, done, bad) == ChunkLoop(acc, received, false)
  {
    hide Find, ParseNat;
    body, buf, done, bad := acc, received, false, false;
    var newline := Find(buf, CRLF);
    while newline >= 0
      invariant newline == Find(buf, CRLF) && !bad
      invariant ChunkLoop(acc, received, false) == ChunkLoop(body, buf, done)
      decreases |buf|
    {
      var line := buf[..newline];
      var size := ParseNat(line, 16);
      if size.None? {
        bad := true;
        return;
      }
      if size.value + 2 > |buf| - |line| - 2 {
        break;
      }
      buf := buf[newline + 2..];
      body := body + buf[..size.value];
      buf := buf[size.value + 2..];
      if size.value == 0 {
        done := true;
      }
      newline := Find(buf, CRLF);
    }
  }

  /** One round of `parse_body`. */
  method AbsorbBody(f: Framing, data: string, received: string)
    returns (body: Option<string>, buf: string, done: bool, bad: bool)
    ensures Round(body, buf, done, bad) == BodyRound(f, data, received)
  {
    hide ChunkLoop;
    body, buf, done, bad := Some(data), received, false, false;
    match f
    case NoBody =>
      body, done := None, true;
    case ChunkedBody =>
      var decoded;
      decoded, buf, done, bad := ConsumeChunks(data, received);
      body := Some(decoded);
    case Counted(n) =>
      body, buf := Some(data + received), "";
      if |body.value| >= n {
        done := true;
      }
    case BadLength =>
      bad := true;
    case UntilClose =>
      body, buf := Some(data + received), "";
  }

  /** The loop of `parse_body`, for both classes: exactly what `ReadPieces` says of the pieces received. */
  method ReadBody(sock: BufferedSocket, f: Framing) returns (status: BodyStatus, body: Option<string>)
    requires sock.Valid()
    modifies sock`recvBuffer, sock.wrapped`arrivals
    ensures sock.Valid()
    ensures Read(status, body, sock.Pieces()) == ReadPieces(f, old(sock.Pieces()))
  {
    hide BodyRound, RecvBuffered, Results, Flatten;
    var data, buf, firstIteration := "", "", true;
    ghost var pieces := sock.Pieces();
    while true
      invariant sock.Valid()
      invariant firstIteration ==> data == buf == "" && pieces == sock.Pieces()
      invariant !firstIteration ==>
                  ReadPieces(f, pieces) == AfterRound(f, Round(Some(data), buf, false, false), sock.Pieces())
      decreases |sock.Remaining()|, firstIteration
    {
      var rcvd := "";
      if firstIteration {
        firstIteration := false;
        assert buf + rcvd == "";
      } else {
        rcvd := sock.Recv(BUFSIZE);
        if |rcvd| == 0 {
          NoPieces(sock);
          return BodyClosed, Some(data);
        }
      }
      var done, bad;
      body, buf, done, bad := AbsorbBody(f, data, buf + rcvd);
      if bad {
        return BodyMalformed, body;
      }
      if done || body.None? {
        return BodyOk, body;
      }
      data := body.value;
    }
  }

  lemma NoPieces(sock: BufferedSocket)
    requires sock.Valid() && sock.Remaining() == ""
    ensures sock.Pieces() == []
  {
    EmptyIncoming(sock.wrapped.arrivals);
  }
}
