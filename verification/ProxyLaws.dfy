/**
 What the proxy does to a message, from the header lines it receives to the bytes it sends, stated outright: which
 framing the lines announce, what a request or a reply becomes, which headers are dropped.
 */
module ProxyLaws {
  import opened Wrappers
  import opened Text
  import opened Headers
  import opened Sockets
  import opened HttpSpec
  import opened HttpLaws
  import opened BodyCuts
  import opened Reframing

  // ----- the headers that Connection names -----

  /** A comma-separated list names `k`, in any case and with white space around it. */
  ghost predicate Lists(value: string, k: string) {
    exists token, name :: Section(value, ',', token) && Trimmed(token, name) && Capitalize(name) == k
  }

  lemma {:induction false} KeysNamedMember(tokens: seq<string>, k: string)
    ensures k in KeysNamed(tokens) <==> exists t :: t in tokens && Capitalize(Strip(t)) == k
  {
    hide Capitalize, Strip;
    if tokens != [] {
      KeysNamedMember(tokens[1..], k);
      assert tokens[0] in tokens && forall t | t in tokens :: t == tokens[0] || t in tokens[1..];
      assert forall t | t in tokens[1..] :: t in tokens;
    }
  }

  lemma ConnectionKeysMeaning(h: Dict, k: string)
    ensures k in ConnectionKeys(h) <==> Get(h, "Connection").Some? && Lists(Get(h, "Connection").value, k)
  {
    hide Get, Capitalize, Strip, Split, Section, Trimmed, KeysNamed;
    match Get(h, "Connection")
    case None =>
    case Some(v) =>
      var tokens := Split(v, ',');
      KeysNamedMember(tokens, k);
      if k in KeysNamed(tokens) {
        var t :| t in tokens && Capitalize(Strip(t)) == k;
        SplitMeaning(v, ',', t);
        StripMeaning(t, Strip(t));
      }
      if Lists(v, k) {
        var token, name :| Section(v, ',', token) && Trimmed(token, name) && Capitalize(name) == k;
        SplitMeaning(v, ',', token);
        StripMeaning(token, name);
      }
  }

  /** `Connection: close, X-A` removes Close and X-A, and nothing else. */
  lemma CloseAndXA(h: Dict)
    requires Get(h, "Connection") == Some("close, X-A")
    ensures ConnectionKeys(h) == ["Close", "X-A"]
  {
    hide Get, Split, Strip, Capitalize;
    CloseToken();
    XAToken();
    assert "close" + [','] + " X-A" == "close, X-A";
    SplitCons("close", ',', " X-A");
    SplitUnfold(" X-A", ',');
    var tokens := ["close", " X-A"];
    assert tokens[1..] == [" X-A"] && [" X-A"][1..] == [];
    assert KeysNamed([" X-A"]) == ["X-A"];
  }

  lemma CloseToken()
    ensures Capitalize(Strip("close")) == "Close"
  {
    hide Capitalize, Strip;
    StripNothing("close");
    CapitalizeAll("close");
  }

  lemma XAToken()
    ensures Capitalize(Strip(" X-A")) == "X-A"
  {
    hide Capitalize, Strip;
    StripFront(' ', "X-A");
    StripNothing("X-A");
    assert [' '] + "X-A" == " X-A";
    CanonicalName("X-A");
  }

  /** The value of a header of the request that is sent on. */
  ghost function SentHeader(h: Dict, host: string, body: Option<string>, k: string): Option<string> {
    if k in ["Keep-Alive", "Transfer-Encoding", "TE", "Connection", "Trailer", "Upgrade",
             "Proxy-Authorization", "Proxy-Authenticate"] then None
    else if Get(h, "Connection").Some? && Lists(Get(h, "Connection").value, k) then None
    else if k == "Content-Length" && body.Some? then Some(PrintNat(|body.value|, 10))
    else if k == "Host" then Some(host)
    else Get(h, k)
  }

  /** Names without the dropped ones. */
  function Keep(names: seq<string>, dropped: set<string>): seq<string> {
    if names == [] then []
    else (if names[0] in dropped then [] else [names[0]]) + Keep(names[1..], dropped)
  }

  lemma {:induction false} WithoutNames(h: Dict, dropped: set<string>)
    ensures Names(Without(h, dropped)) == Keep(Names(h), dropped)
  {
    if h != [] {
      WithoutNames(h[1..], dropped);
      assert Names(h)[1..] == Names(h[1..]);
      assert ([h[0]] + Without(h[1..], dropped))[1..] == Without(h[1..], dropped);
    }
  }

  /** The order of the headers sent: as received, then Host and Content-Length where they are new. */
  lemma ForwardNames(h: Dict, host: string, body: Option<string>)
    ensures Names(Forward(h, host, body)) ==
            Keep(Names(h) + (if Get(h, "Host").None? then ["Host"] else []) +
                 (if body.Some? && Get(h, "Content-Length").None? then ["Content-Length"] else []),
                 SetOf(ConnectionKeys(h)) + SetOf(HOP_BY_HOP))
  {
    hide Get, Put, Without, Names, Keep, ConnectionKeys, PrintNat;
    var h' := Put(h, "Host", host);
    PutNames(h, "Host", host);
    GetPut(h, "Host", host, "Content-Length");
    WithoutNames(WithLength(h, host, body), SetOf(ConnectionKeys(h)) + SetOf(HOP_BY_HOP));
    if body.Some? {
      PutNames(h', "Content-Length", PrintNat(|body.value|, 10));
    }
    assert Names(h) + [] == Names(h) && Names(h') + [] == Names(h');
  }

  // ----- what becomes of a request -----

  /** Every request that is sent on, as its receiver parses it: the method and version of the client's request, the uri
      of its URL, header by header what `SentHeader` says, and after the head the body and nothing else. */
  lemma SentRequest(stream: string, cut: seq<string>)
    requires Handling(stream, cut).SentOn?
    ensures var received := ParseHead(RequestHead, stream).outcome;
            var body := Handling(stream, cut).body;
            var sent := ParseHead(RequestHead, SentUpstream(stream, cut));
            received.Success? && ParseUrl(received.message.second).Some? && sent.outcome.Success? &&
            var url := ParseUrl(received.message.second).value;
            sent.outcome.message.first == received.message.first &&
            sent.outcome.message.second == url.uri &&
            sent.outcome.message.third == received.message.third &&
            (forall k :: Get(sent.outcome.message.headers, k) ==
                         SentHeader(received.message.headers, url.host, body, k)) &&
            sent.rest == if body.Some? then body.value else ""
  {
    hide ParseHead, ParseUrl, Print, ReadPieces, RequestFraming, Forward, Get, ConnectionKeys, Lists;
    var m := ParseHead(RequestHead, stream).outcome.message;
    var url, body := ParseUrl(m.second).value, Handling(stream, cut).body;
    BodyReadPresent(RequestFraming(m.headers), cut);
    RequestReframing(stream, m, url, body);
    forall k
      ensures Get(Forward(m.headers, url.host, body), k) == SentHeader(m.headers, url.host, body, k)
    {
      ForwardGet(m.headers, url.host, body, k);
      ConnectionKeysMeaning(m.headers, k);
    }
  }

  /** What becomes of a client's stream otherwise: nothing without a line break, a tunnel for CONNECT, and a failure
      when the head is cut off or malformed or the URL is refused; exactly a request whose body can be read is sent
      on. */
  lemma HandlingExactly(stream: string, cut: seq<string>)
    ensures Handling(stream, cut) == Nothing <==> Free(stream, CRLF)
    ensures var head := ParseHead(RequestHead, stream).outcome;
            Handling(stream, cut) == Tunnel <==> head.Success? && head.message.first == "CONNECT"
    ensures var head := ParseHead(RequestHead, stream).outcome;
            Handling(stream, cut).SentOn? <==>
            head.Success? && head.message.first != "CONNECT" && ParseUrl(head.message.second).Some? &&
            ReadPieces(RequestFraming(head.message.headers), cut).status == BodyOk
    ensures Handling(stream, cut).SentOn? ==>
              var head := ParseHead(RequestHead, stream).outcome;
              Handling(stream, cut).body == ReadPieces(RequestFraming(head.message.headers), cut).body
    ensures !Handling(stream, cut).SentOn? ==> SentUpstream(stream, cut) == ""
  {
    hide ParseHead, ParseUrl, Print, ReadPieces, RequestFraming, Forwarded;
    HeadExtend(RequestHead, stream, "");
  }

  // ----- which framing the received lines announce -----

  /** The value of a header in the received lines: those with the name in any case, joined with commas. */
  ghost function Joined(lines: seq<Field>, name: string): Option<string> {
    if Values(lines, name) == [] then None else Some(Join(Values(lines, name), ","))
  }

  ghost predicate Chunked(lines: seq<Field>) {
    var coding := Joined(lines, "Transfer-Encoding");
    coding.Some? && SameName(coding.value, "chunked")
  }

  lemma JoinedGet(lines: seq<Field>)
    ensures Get(MergeAll([], lines), "Transfer-Encoding") == Joined(lines, "Transfer-Encoding")
    ensures Get(MergeAll([], lines), "Content-Length") == Joined(lines, "Content-Length")
  {
    hide Capitalize, Get, MergeAll, Values;
    KnownNames();
    assert "Transfer-Encoding" in HOP_BY_HOP by {
      assert HOP_BY_HOP[1] == "Transfer-Encoding";
    }
    HeaderMapMeaning(lines, "Transfer-Encoding");
    HeaderMapMeaning(lines, "Content-Length");
  }

  lemma FramingOf(lines: seq<Field>, code: nat)
    ensures var length := Joined(lines, "Content-Length");
            var announced :=
              if Chunked(lines) then ChunkedBody
              else if length.None? then NoBody
              else if ParseNat(length.value, 10).None? then BadLength
              else Counted(ParseNat(length.value, 10).value);
            RequestFraming(MergeAll([], lines)) == announced &&
            ResponseFraming(code, MergeAll([], lines)) ==
              if code < 200 || code == 204 || code == 304 then NoBody
              else if announced == NoBody then UntilClose
              else announced
  {
    hide Get, MergeAll, Values, ParseNat;
    JoinedGet(lines);
    LowerChunked();
  }

  lemma LowerChunked()
    ensures Lower("chunked") == "chunked"
  {
  }

  // ----- what a body comes to, for every cut -----

  /** Where reading is exact: the message ends the stream, or a received piece ends with it. */
  ghost predicate Ends(cut: seq<string>, rest: string) {
    rest == "" || Boundary(cut, rest)
  }

  lemma ReadsExactly(f: Framing, cut: seq<string>, tail: string, body: Option<string>, rest: string)
    requires Cut(cut, tail) && BodyOf(f, tail) == Body(BodyOk, body, rest)
    requires Ends(cut, rest) || f == Counted(0)
    ensures ReadPieces(f, cut).status == BodyOk && ReadPieces(f, cut).body == body
  {
    hide BodyOf, ReadPieces, Boundary, Flatten, Cut;
    CutFlat(cut, tail);
    if f == Counted(0) {
      ForEveryCut(f, cut, tail);
    } else {
      if rest == "" {
        EndsBoundary(cut);
      }
      ExactAtBoundary(f, cut);
      hide Ends;
    }
  }

  /** The chunks `cs`, closed by `last`, in a stream that is read exactly. */
  ghost predicate Completes(cut: seq<string>, tail: string, cs: seq<Chunk>, last: Chunk, rest: string) {
    ChunkOk(last) && last.data == "" && tail == EncodeChunks(cs) + (EncodeChunk(last) + rest) && Ends(cut, rest)
  }

  /** A chunked body that ends in time is its data; one that is cut off is the data so far; a line that is not a size is
      an error. */
  lemma ChunkedReads(cut: seq<string>, tail: string, cs: seq<Chunk>, last: Chunk, rest: string)
    requires Cut(cut, tail) && forall c | c in cs :: ChunkOk(c) && c.data != ""
    ensures var r := ReadPieces(ChunkedBody, cut);
            (Completes(cut, tail, cs, last, rest) ==> r.status == BodyOk && r.body == Some(Data(cs))) &&
            (tail == EncodeChunks(cs) + rest && Short(rest) ==> r == Read(BodyClosed, Some(Data(cs)), [])) &&
            (tail == EncodeChunks(cs) + rest && NotChunk(rest) ==> r.status == BodyMalformed)
  {
    hide Dechunk, ReadPieces, ChunkOk, EncodeChunk, EncodeChunks, Data, Short, NotChunk, Ends, Cut, Flatten;
    assert "" + Data(cs) == Data(cs);
    if Completes(cut, tail, cs, last, rest) {
      DechunkEncoded("", cs, last, rest);
      ReadsExactly(ChunkedBody, cut, tail, Some(Data(cs)), rest);
    }
    if tail == EncodeChunks(cs) + rest {
      DechunkAfter("", cs, rest);
      ShortWaits(Data(cs), rest);
      CutFlat(cut, tail);
      BodyAnswer(ChunkedBody, cut);
    }
  }

  /** A counted body is its first n bytes; too few are an early close. */
  lemma CountedReads(n: nat, cut: seq<string>, tail: string, rest: string)
    requires Cut(cut, tail)
    ensures var r := ReadPieces(Counted(n), cut);
            (|tail| < n ==> r == Read(BodyClosed, Some(tail), [])) &&
            (n <= |tail| && tail[n..] == rest && (Ends(cut, rest) || n == 0) ==>
               r.status == BodyOk && r.body == Some(tail[..n]))
  {
    hide ReadPieces, Ends, Cut, Flatten;
    CutFlat(cut, tail);
    if |tail| < n {
      BodyAnswer(Counted(n), cut);
    } else if tail[n..] == rest && (Ends(cut, rest) || n == 0) {
      ReadsExactly(Counted(n), cut, tail, Some(tail[..n]), rest);
    }
  }

  lemma PlainReads(cut: seq<string>, tail: string)
    requires Cut(cut, tail)
    ensures ReadPieces(NoBody, cut).status == BodyOk && ReadPieces(NoBody, cut).body == None
    ensures ReadPieces(BadLength, cut).status == BodyMalformed
    ensures ReadPieces(UntilClose, cut) == Read(BodyClosed, Some(tail), [])
  {
    hide ReadPieces, Cut, Flatten, Overrun, Covering;
    CutFlat(cut, tail);
    BodyAnswer(NoBody, cut);
    BodyAnswer(BadLength, cut);
    BodyAnswer(UntilClose, cut);
    NothingExtra(NoBody, None, cut);
  }

  // ----- requests, from their bytes -----

  /** The bytes of a head, and what follows it. */
  function Raw(first: string, second: string, third: string, lines: seq<Field>, tail: string): string {
    first + " " + second + " " + third + CRLF + (PrintFields(lines) + (CRLF + tail))
  }

  /** A request that can be sent on once its body is there. */
  ghost predicate Plain(first: string, second: string, third: string, lines: seq<Field>,
                        tail: string, cut: seq<string>) {
    FirstOk(RequestHead, first, second, third) && (forall f | f in lines :: LineOk(f)) && Cut(cut, tail) &&
    first != "CONNECT" && ParseUrl(second).Some?
  }

  lemma PlainHandling(first: string, second: string, third: string, lines: seq<Field>,
                      tail: string, cut: seq<string>)
    requires Plain(first, second, third, lines, tail, cut)
    ensures var r := ReadPieces(RequestFraming(MergeAll([], lines)), cut);
            Handling(Raw(first, second, third, lines, tail), cut) ==
            if r.status.BodyOk? then SentOn(r.body) else Failed
  {
    hide ParseHead, ParseUrl, ReadPieces, RequestFraming, FirstOk, LineOk, Cut, MergeAll, PrintFields;
    ParseRaw(RequestHead, first, second, third, lines, tail);
  }

  /** A request whose Transfer-Encoding lines come to "chunked", in any case, is sent on with the data of its chunks; it
      fails if it is cut off, or if a size is not a number. */
  lemma ChunkedRequest(first: string, second: string, third: string, lines: seq<Field>, tail: string, cut: seq<string>,
                       cs: seq<Chunk>, last: Chunk, rest: string)
    requires Plain(first, second, third, lines, tail, cut) && Chunked(lines)
    requires forall c | c in cs :: ChunkOk(c) && c.data != ""
    ensures var h := Handling(Raw(first, second, third, lines, tail), cut);
            (Completes(cut, tail, cs, last, rest) ==> h == SentOn(Some(Data(cs)))) &&
            (tail == EncodeChunks(cs) + rest && (Short(rest) || NotChunk(rest)) ==> h == Failed)
  {
    hide ReadPieces, RequestFraming, ResponseFraming, MergeAll, Handling, Raw, ChunkOk, EncodeChunk, EncodeChunks;
    hide Data, Short, NotChunk, Completes, Chunked;
    PlainHandling(first, second, third, lines, tail, cut);
    hide Plain;
    FramingOf(lines, 0);
    ChunkedReads(cut, tail, cs, last, rest);
  }

  /** Without it, the Content-Length lines decide: a numeral n means the first n bytes, anything else is an error, and
      no such line means no body. */
  lemma CountedRequest(first: string, second: string, third: string, lines: seq<Field>,
                       tail: string, cut: seq<string>)
    requires Plain(first, second, third, lines, tail, cut) && !Chunked(lines)
    ensures var h := Handling(Raw(first, second, third, lines, tail), cut);
            match Joined(lines, "Content-Length")
            case None => h == SentOn(None)
            case Some(text) =>
              match ParseNat(text, 10)
              case None => h == Failed
              case Some(n) =>
                if |tail| < n then h == Failed
                else Ends(cut, tail[n..]) || n == 0 ==> h == SentOn(Some(tail[..n]))
  {
    hide ReadPieces, RequestFraming, ResponseFraming, MergeAll, Handling, Raw, Ends, Chunked, Joined, ParseNat;
    PlainHandling(first, second, third, lines, tail, cut);
    FramingOf(lines, 0);
    PlainReads(cut, tail);
    match Joined(lines, "Content-Length") {
      case None =>
      case Some(text) =>
        match ParseNat(text, 10) {
          case None =>
          case Some(n) => CountedReads(n, cut, tail, if n <= |tail| then tail[n..] else "");
        }
    }
  }

  // ----- replies -----

  /** The client gets a reply with this body. */
  ghost predicate Replies(answer: Option<string>, version: string, code: nat, reason: string, h: Dict, body: string) {
    answer.Some? &&
    var sent := ParseHead(ResponseHead, answer.value);
    sent.outcome.Success? && sent.outcome.message.first == version &&
    ParseNat(sent.outcome.message.second, 10) == Some(code) && sent.outcome.message.third == reason &&
    (forall k :: Get(sent.outcome.message.headers, k) ==
                 if k == "Content-Length" then Some(PrintNat(|body|, 10))
                 else if k == "Transfer-Encoding" then None
                 else Get(h, k)) &&
    sent.rest == body
  }

  /** Every reply, as the client parses it: version, status code and reason of the server's reply, its headers but for
      the transfer coding, the length of the body, and after the head the body and nothing else. */
  lemma SentReply(stream: string, cut: seq<string>)
    ensures var head := ParseHead(ResponseHead, stream).outcome;
            if head.Success? && ParseNat(head.message.second, 10).Some? &&
               !ReadPieces(ResponseFraming(ParseNat(head.message.second, 10).value, head.message.headers), cut)
                .status.BodyMalformed?
            then
              var m, code := head.message, ParseNat(head.message.second, 10).value;
              Replies(ReplySent(stream, cut), m.first, code, m.third, m.headers,
                      Payload(ReadPieces(ResponseFraming(code, m.headers), cut).body))
            else ReplySent(stream, cut) == None
  {
    hide ParseHead, ResponseFraming, ReadPieces, ParseNat, PrintNat, Get, ReplyHeaders, Print;
    var head := ParseHead(ResponseHead, stream).outcome;
    if head.Success? && ParseNat(head.message.second, 10).Some? {
      var m, code := head.message, ParseNat(head.message.second, 10).value;
      var body := ReadPieces(ResponseFraming(code, m.headers), cut).body;
      BodyReadPresent(ResponseFraming(code, m.headers), cut);
      FramingPresent(code, m.headers);
      ResponseReframing(stream, m, code, body);
      forall k
        ensures Get(ReplyHeaders(m.headers, body), k) ==
                if k == "Content-Length" then Some(PrintNat(|Payload(body)|, 10))
                else if k == "Transfer-Encoding" then None
                else Get(m.headers, k)
      {
        ReplyGet(m.headers, body, k);
      }
    }
  }

  /** A server's reply and how its body arrives. */
  ghost predicate FromServer(version: string, status: string, reason: string, code: nat, lines: seq<Field>,
                             tail: string, cut: seq<string>) {
    FirstOk(ResponseHead, version, status, reason) && ParseNat(status, 10) == Some(code) &&
    (forall f | f in lines :: LineOk(f)) && Cut(cut, tail)
  }

  /** What the client gets for it. */
  ghost predicate Gets(version: string, status: string, reason: string, code: nat, lines: seq<Field>,
                       tail: string, cut: seq<string>, body: string) {
    Replies(ReplySent(Raw(version, status, reason, lines, tail), cut), version, code, reason, MergeAll([], lines), body)
  }

  lemma ServerReply(version: string, status: string, reason: string, code: nat, lines: seq<Field>,
                    tail: string, cut: seq<string>)
    requires FromServer(version, status, reason, code, lines, tail, cut)
    ensures var r := ReadPieces(ResponseFraming(code, MergeAll([], lines)), cut);
            if r.status.BodyMalformed? then ReplySent(Raw(version, status, reason, lines, tail), cut) == None
            else Gets(version, status, reason, code, lines, tail, cut, Payload(r.body))
  {
    hide ParseHead, ResponseFraming, ReadPieces, ParseNat, FirstOk, LineOk, Cut, MergeAll, PrintFields, Replies;
    hide ReplySent;
    ParseRaw(ResponseHead, version, status, reason, lines, tail);
    SentReply(Raw(version, status, reason, lines, tail), cut);
  }

  /** Replies with a status below 200, with 204 and with 304, and no others, have no body, whatever their headers
      say. */
  lemma BodilessReply(version: string, status: string, reason: string, code: nat, lines: seq<Field>,
                      tail: string, cut: seq<string>)
    requires FromServer(version, status, reason, code, lines, tail, cut)
    ensures code < 200 || code == 204 || code == 304 ==> Gets(version, status, reason, code, lines, tail, cut, "")
    ensures ResponseFraming(code, MergeAll([], lines)) == NoBody <==> code < 200 || code == 204 || code == 304
  {
    hide ReadPieces, ResponseFraming, RequestFraming, MergeAll, Gets, Raw, ReplySent;
    ServerReply(version, status, reason, code, lines, tail, cut);
    FramingOf(lines, code);
    PlainReads(cut, tail);
  }

  /** All others: a chunked body is its data, also when the server closes early, and none is sent for a size that is
      not a number. */
  lemma ChunkedReply(version: string, status: string, reason: string, code: nat, lines: seq<Field>,
                     tail: string, cut: seq<string>, cs: seq<Chunk>, last: Chunk, rest: string)
    requires FromServer(version, status, reason, code, lines, tail, cut) && Chunked(lines)
    requires code >= 200 && code != 204 && code != 304
    requires forall c | c in cs :: ChunkOk(c) && c.data != ""
    ensures Completes(cut, tail, cs, last, rest) || (tail == EncodeChunks(cs) + rest && Short(rest)) ==>
              Gets(version, status, reason, code, lines, tail, cut, Data(cs))
    ensures tail == EncodeChunks(cs) + rest && NotChunk(rest) ==>
              ReplySent(Raw(version, status, reason, lines, tail), cut) == None
  {
    hide ReadPieces, RequestFraming, ResponseFraming, MergeAll, Gets, Raw, ReplySent, ChunkOk, EncodeChunk;
    hide EncodeChunks, Data, Short, NotChunk, Completes, Chunked;
    ServerReply(version, status, reason, code, lines, tail, cut);
    FramingOf(lines, code);
    ChunkedReads(cut, tail, cs, last, rest);
  }

  /** Otherwise Content-Length decides, fewer bytes being accepted, and without it everything up to the close. */
  lemma CountedReply(version: string, status: string, reason: string, code: nat, lines: seq<Field>,
                     tail: string, cut: seq<string>)
    requires FromServer(version, status, reason, code, lines, tail, cut) && !Chunked(lines)
    requires code >= 200 && code != 204 && code != 304
    ensures match Joined(lines, "Content-Length")
            case None => Gets(version, status, reason, code, lines, tail, cut, tail)
            case Some(text) =>
              match ParseNat(text, 10)
              case None => ReplySent(Raw(version, status, reason, lines, tail), cut) == None
              case Some(n) =>
                if |tail| < n then Gets(version, status, reason, code, lines, tail, cut, tail)
                else Ends(cut, tail[n..]) || n == 0 ==>
                  Gets(version, status, reason, code, lines, tail, cut, tail[..n])
  {
    hide ReadPieces, RequestFraming, ResponseFraming, MergeAll, Gets, Raw, ReplySent, Ends, Chunked, Joined, ParseNat;
    ServerReply(version, status, reason, code, lines, tail, cut);
    FramingOf(lines, code);
    PlainReads(cut, tail);
    match Joined(lines, "Content-Length") {
      case None =>
      case Some(text) =>
        match ParseNat(text, 10) {
          case None =>
          case Some(n) => CountedReads(n, cut, tail, if n <= |tail| then tail[n..] else "");
        }
    }
  }
}
