/**
 What the message parsers of proxy/httpparse.py compute. Heads are functions of the whole byte stream, whatever the
 cut into `recv` results; bodies are specified twice, as functions of the stream and of those results. The methods of
 module HttpParse are proved to compute these functions for every cut.
 */
module HttpSpec {
  import opened Wrappers
  import opened Text
  import opened Headers

  datatype Kind = RequestHead | ResponseHead

  /** The three parts of the first line, and the header dictionary. */
  datatype Message = Message(first: string, second: string, third: string, headers: Dict)

  /** NoLine: the peer closed before the first line was complete. Closed: it closed inside the headers.
      Malformed: a line does not split as expected (a ValueError in the source). */
  datatype Outcome = NoLine | Closed | Malformed | Success(message: Message)

  datatype Head = Head(outcome: Outcome, rest: string)

  /** `line.split(b' ', maxsplit = 2)` unpacked into three names. */
  function SplitLine(line: string): Option<(string, string, string)> {
    var a := Find(line, " ");
    if a < 0 then None else
    var tail := line[a + 1..];
    var b := Find(tail, " ");
    if b < 0 then None else Some((line[..a], tail[..b], tail[b + 1..]))
  }

  /** `line.split(b': ', maxsplit = 1)` unpacked into two names. */
  function SplitField(line: string): Option<Field> {
    var k := Find(line, ": ");
    if k < 0 then None else Some(Field(line[..k], line[k + 2..]))
  }

  datatype Lines = Truncated | BadLine | Lines(headers: Dict, rest: string)

  /** The header lines up to the blank line, added to the dictionary `h`. */
  function HeaderLines(h: Dict, s: string): Lines
    decreases |s|
  {
    var newline := Find(s, CRLF);
    if newline < 0 then Truncated
    else if newline == 0 then Lines(h, s[2..])
    else match SplitField(s[..newline])
      case None => BadLine
      case Some(f) => HeaderLines(Merge(h, Capitalize(f.name), f.value), s[newline + 2..])
  }

  /** A response additionally needs a numeric status code. */
  function FirstLine(kind: Kind, line: string): Option<(string, string, string)> {
    match SplitLine(line)
    case None => None
    case Some(p) => if kind.ResponseHead? && ParseNat(p.1, 10).None? then None else Some(p)
  }

  function ParseHead(kind: Kind, s: string): Head {
    var newline := Find(s, CRLF);
    if newline < 0 then Head(NoLine, "")
    else AfterFirst(FirstLine(kind, s[..newline]), [], s[newline + 2..])
  }

  /** What is left to do once the first line has been taken off and the headers `h` have been read. */
  function AfterFirst(first: Option<(string, string, string)>, h: Dict, s: string): Head {
    match first
    case None => Head(Malformed, "")
    case Some(p) =>
      match HeaderLines(h, s)
      case Truncated => Head(Closed, "")
      case BadLine => Head(Malformed, "")
      case Lines(h', rest) => Head(Success(Message(p.0, p.1, p.2, h')), rest)
  }

  lemma HeadStep(kind: Kind, buf: string, more: string)
    requires Find(buf, CRLF) >= 0
    ensures ParseHead(kind, buf + more) == AfterFirst(FirstLine(kind, buf[..Find(buf, CRLF)]),
                                                      [], buf[Find(buf, CRLF) + 2..] + more)
  {
    hide Find, SplitField, ParseNat, Capitalize, Merge;
    FindExtend(buf, more, CRLF);
    var n := Find(buf, CRLF);
    assert (buf + more)[..n] == buf[..n];
    assert (buf + more)[n + 2..] == buf[n + 2..] + more;
  }

  // ----- bodies -----

  predicate IsChunked(h: Dict) {
    var te := Get(h, "Transfer-Encoding");
    te.Some? && Lower(te.value) == "chunked"
  }

  datatype ChunkStatus = Complete | Waiting | BadSize

  /** `body` is the data of the complete chunks, `rest` the unread stream. */
  datatype Chunks = Chunks(status: ChunkStatus, body: string, rest: string)

  /** The chunked coding, chunk by chunk, up to the chunk of size zero. */
  function Dechunk(body: string, s: string): Chunks
    decreases |s|
  {
    var newline := Find(s, CRLF);
    if newline < 0 then Chunks(Waiting, body, s)
    else match ParseNat(s[..newline], 16)
      case None => Chunks(BadSize, body, s)
      case Some(size) =>
        var data := s[newline + 2..];
        if size + 2 > |data| then Chunks(Waiting, body, s)
        else if size == 0 then Chunks(Complete, body, data[2..])
        else Dechunk(body + data[..size], data[size + 2..])
  }

  datatype BodyStatus = BodyOk | BodyClosed | BodyMalformed

  datatype Body = Body(status: BodyStatus, body: Option<string>, rest: string)

  /** How the end of a body is found (section 3.3.3 of RFC 7230). */
  datatype Framing = NoBody | ChunkedBody | Counted(length: nat) | BadLength | UntilClose

  function LengthFraming(h: Dict): Framing
    requires Get(h, "Content-Length").Some?
  {
    var length := ParseNat(Get(h, "Content-Length").value, 10);
    if length.Some? then Counted(length.value) else BadLength
  }

  function RequestFraming(h: Dict): Framing {
    if IsChunked(h) then ChunkedBody
    else if Get(h, "Content-Length").Some? then LengthFraming(h)
    else NoBody
  }

  predicate BodilessStatus(code: nat) {
    code < 200 || code == 204 || code == 304
  }

  function ResponseFraming(code: nat, h: Dict): Framing {
    if BodilessStatus(code) then NoBody
    else if IsChunked(h) then ChunkedBody
    else if Get(h, "Content-Length").Some? then LengthFraming(h)
    else UntilClose
  }

  /** The body at the front of a stream, cut where the message ends. BodyClosed: the stream ended first. */
  function BodyOf(f: Framing, s: string): Body {
    match f
    case NoBody => Body(BodyOk, None, s)
    case ChunkedBody =>
      var d := Dechunk("", s);
      (match d.status
       case Complete => Body(BodyOk, Some(d.body), d.rest)
       case Waiting => Body(BodyClosed, Some(d.body), "")
       case BadSize => Body(BodyMalformed, None, ""))
    case Counted(n) =>
      if |s| < n then Body(BodyClosed, Some(s), "") else Body(BodyOk, Some(s[..n]), s[n..])
    case BadLength => Body(BodyMalformed, None, "")
    case UntilClose => Body(BodyClosed, Some(s), "")
  }

  // ----- reading a body piece by piece -----

  /** The state of a chunk loop: the data so far, the unread buffer, and whether the last chunk has been seen or a
      size did not parse. */
  datatype Loop = Loop(body: string, buf: string, done: bool, bad: bool)

  /** The inner loop of the chunked readers on the bytes it has. It goes on after the last chunk. */
  function ChunkLoop(body: string, buf: string, done: bool): Loop
    decreases |buf|
  {
    var newline := Find(buf, CRLF);
    if newline < 0 then Loop(body, buf, done, false)
    else match ParseNat(buf[..newline], 16)
      case None => Loop(body, buf, done, true)
      case Some(size) =>
        var data := buf[newline + 2..];
        if size + 2 > |data| then Loop(body, buf, done, false)
        else ChunkLoop(body + data[..size], data[size + 2..], done || size == 0)
  }

  datatype Round = Round(body: Option<string>, buf: string, done: bool, bad: bool)

  /** One round of `parse_body` on the bytes received so far. */
  function BodyRound(f: Framing, data: string, buf: string): Round {
    match f
    case NoBody => Round(None, buf, true, false)
    case ChunkedBody => var l := ChunkLoop(data, buf, false); Round(Some(l.body), l.buf, l.done, l.bad)
    case Counted(n) => Round(Some(data + buf), "", |data + buf| >= n, false)
    case BadLength => Round(Some(data), buf, false, true)
    case UntilClose => Round(Some(data + buf), "", false, false)
  }

  /** What reading a body gives: status, body, and the pieces not yet received. */
  datatype Read = Read(status: BodyStatus, body: Option<string>, rest: seq<string>)

  function AfterRound(f: Framing, r: Round, pieces: seq<string>): Read
    decreases |pieces|
  {
    if r.bad then Read(BodyMalformed, r.body, pieces)
    else if r.done || r.body.None? then Read(BodyOk, r.body, pieces)
    else if pieces == [] then Read(BodyClosed, r.body, [])
    else AfterRound(f, BodyRound(f, r.body.value, r.buf + pieces[0]), pieces[1..])
  }

  /** `parse_body` as a function of the results of its `recv` calls. Its first round runs before any of them. */
  function ReadPieces(f: Framing, pieces: seq<string>): Read {
    AfterRound(f, BodyRound(f, "", ""), pieces)
  }

  // ----- the functions read a complete line the same way whatever follows it -----

  lemma LineStep(h: Dict, buf: string, more: string)
    requires Find(buf, CRLF) >= 0
    ensures var n := Find(buf, CRLF);
            HeaderLines(h, buf + more) ==
            if n == 0 then Lines(h, buf[2..] + more)
            else match SplitField(buf[..n])
              case None => BadLine
              case Some(f) => HeaderLines(Merge(h, Capitalize(f.name), f.value), buf[n + 2..] + more)
  {
    hide Find, SplitField, ParseNat, Capitalize, Merge;
    FindExtend(buf, more, CRLF);
    var n := Find(buf, CRLF);
    assert (buf + more)[..n] == buf[..n];
    assert (buf + more)[n + 2..] == buf[n + 2..] + more;
  }

  lemma ChunkStep(body: string, buf: string, more: string)
    requires Find(buf, CRLF) >= 0
    ensures var n := Find(buf, CRLF);
            match ParseNat(buf[..n], 16)
            case None => Dechunk(body, buf + more).status.BadSize?
            case Some(size) =>
              size + 2 <= |buf| - n - 2 ==>
                Dechunk(body, buf + more) == NextChunk(body, size, buf[n + 2..], more)
  {
    hide Find, SplitField, ParseNat, Capitalize, Merge;
    FindExtend(buf, more, CRLF);
    var n := Find(buf, CRLF);
    var whole := buf + more;
    var data := buf[n + 2..];
    assert whole[..n] == buf[..n];
    assert whole[n + 2..] == data + more;
    match ParseNat(buf[..n], 16)
    case None =>
    case Some(size) =>
      if size + 2 <= |data| {
        assert (data + more)[..size] == data[..size];
        assert (data + more)[size + 2..] == data[size + 2..] + more;
      }
  }

  function NextChunk(body: string, size: nat, data: string, more: string): Chunks
    requires size + 2 <= |data|
  {
    if size == 0 then Chunks(Complete, body, data[2..] + more)
    else Dechunk(body + data[..size], data[size + 2..] + more)
  }

  // ----- printers -----

  function PrintFields(h: Dict): string {
    if h == [] then "" else h[0].name + ": " + h[0].value + CRLF + PrintFields(h[1..])
  }

  /** The bytes of a message: first line, header lines, blank line, body. */
  function Print(m: Message, body: Option<string>): string {
    m.first + " " + m.second + " " + m.third + CRLF + PrintFields(m.headers) + CRLF +
    (if body.Some? then body.value else "")
  }
}
