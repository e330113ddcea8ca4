/**
 What a body reader gets from a stream, for every way of cutting it. `ReadPieces` follows the recv
 results; `BodyOf` says where the message ends. They agree exactly when a piece ends where the message does.
 */
module BodyCuts {
  import opened Wrappers
  import opened Text
  import opened Sockets
  import opened HttpSpec
  import opened HttpLaws

  // ----- the chunk loop and the chunked coding -----

  /** On the bytes it has, the loop decodes as far as possible, then goes on behind the last chunk. */
  lemma {:induction false} LoopIsDechunk(body: string, buf: string)
    ensures var d := Dechunk(body, buf);
            match d.status
            case Complete => ChunkLoop(body, buf, false) == ChunkLoop(d.body, d.rest, true)
            case Waiting => ChunkLoop(body, buf, false) == Loop(d.body, d.rest, false, false)
            case BadSize => ChunkLoop(body, buf, false).bad
    decreases |buf|
  {
    hide Find, ParseNat;
    var n := Find(buf, CRLF);
    if n >= 0 && ParseNat(buf[..n], 16).Some? {
      var size, data := ParseNat(buf[..n], 16).value, buf[n + 2..];
      if size + 2 <= |data| {
        var body', buf' := body + data[..size], data[size + 2..];
        if size == 0 {
          assert body' == body;
        } else {
          assert Dechunk(body, buf) == Dechunk(body', buf');
          assert ChunkLoop(body, buf, false) == ChunkLoop(body', buf', false);
          hide Dechunk, ChunkLoop;
          LoopIsDechunk(body', buf');
        }
      }
    }
  }

  lemma {:induction false} LoopStaysDone(body: string, buf: string)
    ensures ChunkLoop(body, buf, true).done
    decreases |buf|
  {
    hide Find, ParseNat;
    var n := Find(buf, CRLF);
    if n >= 0 && ParseNat(buf[..n], 16).Some? {
      var size, data := ParseNat(buf[..n], 16).value, buf[n + 2..];
      if size + 2 <= |data| {
        LoopStaysDone(body + data[..size], data[size + 2..]);
      }
    }
  }

  /** The loop takes every whole chunk, before and after the last one, and remembers whether it has seen that. */
  lemma LoopTakesChunk(body: string, c: Chunk, more: string, done: bool)
    requires ChunkOk(c)
    ensures ChunkLoop(body, EncodeChunk(c) + more, done) == ChunkLoop(body + c.data, more, done || c.data == "")
  {
    hide ParseNat, Find, ChunkLoop;
    var tail := c.data + c.end + more;
    var buf := c.size + CRLF + tail;
    assert EncodeChunk(c) + more == buf;
    ParseNatDigits(c.size, 16);
    DigitsPlain(c.size, CRLF);
    FindPair(c.size, CRLF, tail);
    assert buf[..|c.size|] == c.size && buf[|c.size| + 2..] == tail;
    assert tail[..|c.data|] == c.data && tail[|c.data| + 2..] == more;
    LoopUnfold(body, buf, done);
  }

  lemma LoopUnfold(body: string, buf: string, done: bool)
    requires Find(buf, CRLF) >= 0 && ParseNat(buf[..Find(buf, CRLF)], 16).Some?
    ensures var size := ParseNat(buf[..Find(buf, CRLF)], 16).value;
            var data := buf[Find(buf, CRLF) + 2..];
            size + 2 <= |data| ==>
              ChunkLoop(body, buf, done) == ChunkLoop(body + data[..size], data[size + 2..], done || size == 0)
  {
    hide ParseNat, Find;
  }

  /** It stops where no chunk can be taken, with an error at a line that is not a size. */
  lemma LoopStops(body: string, t: string, done: bool)
    ensures Short(t) ==> ChunkLoop(body, t, done) == Loop(body, t, done, false)
    ensures NotChunk(t) ==> ChunkLoop(body, t, done) == Loop(body, t, done, true)
  {
    hide Find, ParseNat;
    if !Free(t, CRLF) && Short(t) {
      var size, data :| Glued(t, size, CRLF, data) && Free(size, CRLF) &&
                        ParseNat(size, 16).Some? && |data| < ParseNat(size, 16).value + 2;
      FindPair(size, CRLF, data);
      assert t[..|size|] == size && t[|size| + 2..] == data;
    }
    if NotChunk(t) {
      var line, more :| Glued(t, line, CRLF, more) && Free(line, CRLF) && ParseNat(line, 16).None?;
      FindPair(line, CRLF, more);
      assert t[..|line|] == line;
    }
  }

  /** Decoding may stop where it waits and go on when more arrives. */
  lemma {:induction false} DechunkExtend(body: string, s: string, t: string)
    ensures var d := Dechunk(body, s);
            match d.status
            case Complete => Dechunk(body, s + t) == Chunks(Complete, d.body, d.rest + t)
            case Waiting => Dechunk(body, s + t) == Dechunk(d.body, d.rest + t)
            case BadSize => Dechunk(body, s + t).status.BadSize?
    decreases |s|
  {
    hide Find, ParseNat;
    var n := Find(s, CRLF);
    if n >= 0 {
      ChunkStep(body, s, t);
      if ParseNat(s[..n], 16).Some? {
        var size, data := ParseNat(s[..n], 16).value, s[n + 2..];
        if 0 < size && size + 2 <= |data| {
          DechunkExtend(body + data[..size], data[size + 2..], t);
        }
      }
    }
  }

  /** Waiting is waiting: nothing more can be decoded from what was left. */
  lemma {:induction false} WaitingIsStuck(body: string, s: string)
    requires Dechunk(body, s).status.Waiting?
    ensures var d := Dechunk(body, s); Dechunk(d.body, d.rest) == d
    decreases |s|
  {
    hide Find, ParseNat;
    var n := Find(s, CRLF);
    if n >= 0 {
      var size, data := ParseNat(s[..n], 16).value, s[n + 2..];
      if size + 2 <= |data| {
        WaitingIsStuck(body + data[..size], data[size + 2..]);
      }
    }
  }

  /** What decodes completely also decodes without the bytes behind it. */
  lemma DechunkPrefix(body: string, m: string, rest: string)
    requires Dechunk(body, m + rest).status.Complete? && Dechunk(body, m + rest).rest == rest
    ensures Dechunk(body, m).status.Complete?
  {
    hide Dechunk, EncodeChunk, EncodeChunks, ChunkedOk;
    var cs, last := DechunkShape(body, m + rest);
    DechunkEncoded(body, cs, last, "");
    var code := EncodeChunks(cs) + EncodeChunk(last);
    assert EncodeChunks(cs) + (EncodeChunk(last) + rest) == code + rest;
    assert m == (m + rest)[..|m|] == (code + rest)[..|code|] == code == EncodeChunks(cs) + (EncodeChunk(last) + "");
  }

  /** A message that was incomplete ends inside the bytes that complete it. */
  lemma EndsInNewBytes(body: string, buf: string, x: string)
    requires Dechunk(body, buf).status.Waiting? && Dechunk(body, buf + x).status.Complete?
    ensures |Dechunk(body, buf + x).rest| < |x|
  {
    hide Dechunk;
    var rest := Dechunk(body, buf + x).rest;
    DechunkSuffix(body, buf + x);
    if |rest| >= |x| {
      var n := |buf + x| - |rest|;
      var m := (buf + x)[..n];
      assert m + rest == buf + x;
      assert m + buf[n..] == buf;
      DechunkPrefix(body, m, rest);
      DechunkExtend(body, m, buf[n..]);
    }
  }

  lemma DechunkSuffix(body: string, s: string)
    requires Dechunk(body, s).status.Complete?
    ensures var rest := Dechunk(body, s).rest; |rest| <= |s| && s[|s| - |rest|..] == rest
  {
    hide Dechunk, EncodeChunk, EncodeChunks, ChunkedOk;
    var cs, last := DechunkShape(body, s);
    var rest := Dechunk(body, s).rest;
    assert s == (EncodeChunks(cs) + EncodeChunk(last)) + rest;
  }

  // ----- where a message ends among the pieces -----

  /** How many pieces it takes to hold `e` bytes. */
  function Covering(pieces: seq<string>, e: int): nat
    ensures Covering(pieces, e) <= |pieces|
  {
    if e <= 0 || pieces == [] then 0 else 1 + Covering(pieces[1..], e - |pieces[0]|)
  }

  /** Reading past the end: what happens to bytes received together with the end of the message. */
  function Overrun(f: Framing, body: Option<string>, extra: string, pieces: seq<string>): Read
    requires f.ChunkedBody? || f.Counted? ==> body.Some?
  {
    match f
    case ChunkedBody =>
      var l := ChunkLoop(body.value, extra, true);
      Read(if l.bad then BodyMalformed else BodyOk, Some(l.body), pieces)
    case Counted(_) => Read(BodyOk, Some(body.value + extra), pieces)
    case _ => Read(BodyOk, body, pieces)
  }

  lemma FlattenCons(pieces: seq<string>)
    requires pieces != []
    ensures Flatten(pieces) == pieces[0] + Flatten(pieces[1..])
  {
  }

  lemma {:induction false} CoveringFlat(pieces: seq<string>, e: int)
    ensures |Flatten(pieces[Covering(pieces, e)..])| <= |Flatten(pieces)|
    ensures e <= |Flatten(pieces)| ==> |Flatten(pieces)| - |Flatten(pieces[Covering(pieces, e)..])| >= e
    decreases |pieces|
  {
    if e > 0 && pieces != [] {
      CoveringFlat(pieces[1..], e - |pieces[0]|);
      assert pieces[1..][Covering(pieces[1..], e - |pieces[0]|)..] == pieces[Covering(pieces, e)..];
    } else {
      assert pieces[0..] == pieces;
    }
  }

  /** The bytes behind the end of a message that come in the same piece as its end; `rest` is all that follows it. */
  function Extra(rest: string, later: seq<string>): string {
    if |Flatten(later)| <= |rest| then rest[..|rest| - |Flatten(later)|] else ""
  }

  // ----- the main theorem -----

  /** The first of the pieces, in terms of the coding. */
  lemma ChunkedRound(data: string, buf: string, x: string, t: seq<string>)
    ensures var r := AfterRound(ChunkedBody, Round(Some(data), buf, false, false), [x] + t);
            var d := Dechunk(data, buf + x);
            match d.status
            case Waiting => r == AfterRound(ChunkedBody, Round(Some(d.body), d.rest, false, false), t)
            case BadSize => r.status == BodyMalformed
            case Complete => r == Overrun(ChunkedBody, Some(d.body), d.rest, t)
  {
    hide Dechunk, ChunkLoop;
    LoopIsDechunk(data, buf + x);
    var d := Dechunk(data, buf + x);
    LoopStaysDone(d.body, d.rest);
    assert ([x] + t)[1..] == t;
  }

  /** What a reader gets from `pieces` when the message in them leaves `rest`. */
  function ReadPast(f: Framing, body: Option<string>, rest: string, pieces: seq<string>): Read
    requires |rest| <= |Flatten(pieces)| && (f.ChunkedBody? || f.Counted? ==> body.Some?)
  {
    var later := pieces[Covering(pieces, |Flatten(pieces)| - |rest|)..];
    CoveringFlat(pieces, |Flatten(pieces)| - |rest|);
    Overrun(f, body, Extra(rest, later), later)
  }

  lemma CoveringCons(x: string, t: seq<string>, e: int)
    requires e > 0
    ensures Covering([x] + t, e) == 1 + Covering(t, e - |x|)
  {
    assert ([x] + t)[1..] == t;
  }

  lemma DropCons(x: string, t: seq<string>, k: nat)
    requires k <= |t|
    ensures ([x] + t)[1 + k..] == t[k..] && t[0..] == t
  {
  }

  lemma PastFirst(f: Framing, body: Option<string>, extra: string, x: string, t: seq<string>)
    requires |extra| < |x| && (f.ChunkedBody? || f.Counted? ==> body.Some?)
    ensures Flatten([x] + t) == x + Flatten(t)
    ensures ReadPast(f, body, extra + Flatten(t), [x] + t) == Overrun(f, body, extra, t)
  {
    hide Overrun, Flatten;
    var rest := extra + Flatten(t);
    FlattenCons([x] + t);
    DropCons(x, t, 0);
    CoveringCons(x, t, |x| - |extra|);
    assert rest[..|extra|] == extra;
  }

  lemma PastLater(f: Framing, body: Option<string>, rest: string, x: string, t: seq<string>)
    requires |rest| < |Flatten(t)| && (f.ChunkedBody? || f.Counted? ==> body.Some?)
    ensures Flatten([x] + t) == x + Flatten(t)
    ensures ReadPast(f, body, rest, [x] + t) == ReadPast(f, body, rest, t)
  {
    hide Overrun, Flatten, Extra, Covering;
    var e := |Flatten(t)| - |rest|;
    FlattenCons([x] + t);
    DropCons(x, t, 0);
    CoveringCons(x, t, |x| + e);
    DropCons(x, t, Covering(t, e));
  }

  /** What a chunked reader gives when the unread buffer and the pieces decode to `d`. */
  ghost predicate ChunkedAnswer(r: Read, d: Chunks, pieces: seq<string>) {
    match d.status
    case Waiting => r == Read(BodyClosed, Some(d.body), [])
    case BadSize => r.status == BodyMalformed
    case Complete => |d.rest| < |Flatten(pieces)| && r == ReadPast(ChunkedBody, Some(d.body), d.rest, pieces)
  }

  /** Pieces that add nothing but more waiting. */
  lemma ChunkedMore(data: string, buf: string, x: string, t: seq<string>, r: Read)
    requires Dechunk(data, buf + x).status.Waiting?
    requires var d1 := Dechunk(data, buf + x); ChunkedAnswer(r, Dechunk(d1.body, d1.rest + Flatten(t)), t)
    ensures ChunkedAnswer(r, Dechunk(data, buf + Flatten([x] + t)), [x] + t)
  {
    hide Dechunk, Flatten, ReadPast;
    Rebracket(buf, x, t);
    DechunkExtend(data, buf + x, Flatten(t));
    var d := Dechunk(data, buf + Flatten([x] + t));
    if d.status.Complete? {
      PastLater(ChunkedBody, Some(d.body), d.rest, x, t);
    }
  }

  /** The piece in which the message ends. */
  lemma ChunkedLast(data: string, buf: string, x: string, t: seq<string>)
    requires Dechunk(data, buf).status.Waiting? && Dechunk(data, buf + x).status.Complete?
    ensures var d := Dechunk(data, buf + x);
            ChunkedAnswer(Overrun(ChunkedBody, Some(d.body), d.rest, t), Dechunk(data, buf + Flatten([x] + t)), [x] + t)
  {
    hide Dechunk, Flatten, ReadPast, Overrun;
    Rebracket(buf, x, t);
    DechunkExtend(data, buf + x, Flatten(t));
    EndsInNewBytes(data, buf, x);
    var d := Dechunk(data, buf + x);
    PastFirst(ChunkedBody, Some(d.body), d.rest, x, t);
  }

  lemma Rebracket(buf: string, x: string, t: seq<string>)
    ensures buf + Flatten([x] + t) == (buf + x) + Flatten(t)
  {
    assert ([x] + t)[1..] == t;
  }

  /** A chunked reader that waits with `data` decoded and `buf` unread. */
  lemma {:induction false} ChunkedFrom(data: string, buf: string, pieces: seq<string>)
    requires Dechunk(data, buf) == Chunks(Waiting, data, buf)
    ensures ChunkedAnswer(AfterRound(ChunkedBody, Round(Some(data), buf, false, false), pieces),
                          Dechunk(data, buf + Flatten(pieces)), pieces)
    decreases |pieces|
  {
    if pieces == [] {
      assert buf + "" == buf;
    } else {
      hide Dechunk, ChunkLoop, AfterRound, Overrun, Flatten, ReadPast;
      var x, t := pieces[0], pieces[1..];
      assert pieces == [x] + t;
      ChunkedRound(data, buf, x, t);
      var d1 := Dechunk(data, buf + x);
      match d1.status
      case Waiting =>
        WaitingIsStuck(data, buf + x);
        ChunkedFrom(d1.body, d1.rest, t);
        ChunkedMore(data, buf, x, t, AfterRound(ChunkedBody, Round(Some(d1.body), d1.rest, false, false), t));
      case Complete =>
        ChunkedLast(data, buf, x, t);
      case BadSize =>
        Rebracket(buf, x, t);
        DechunkExtend(data, buf + x, Flatten(t));
    }
  }

  lemma CountedRound(n: nat, data: string, x: string, t: seq<string>)
    requires |data| < n
    ensures AfterRound(Counted(n), Round(Some(data), "", false, false), [x] + t) ==
            if |data + x| < n then AfterRound(Counted(n), Round(Some(data + x), "", false, false), t)
            else Read(BodyOk, Some(data + x), t)
  {
    assert "" + x == x && ([x] + t)[1..] == t;
  }

  lemma CutAt(a: string, b: string, n: nat)
    requires n <= |a|
    ensures (a + b)[..n] == a[..n] && (a + b)[n..] == a[n..] + b && a[..n] + a[n..] == a
  {
  }

  lemma CountedLast(n: nat, data: string, x: string, t: seq<string>)
    requires |data| < n <= |data + x|
    ensures var s := data + Flatten([x] + t);
            n <= |s| && ReadPast(Counted(n), Some(s[..n]), s[n..], [x] + t) == Read(BodyOk, Some(data + x), t)
  {
    hide Flatten, ReadPast;
    FlattenCons([x] + t);
    assert ([x] + t)[1..] == t;
    var all := data + x;
    assert data + Flatten([x] + t) == all + Flatten(t);
    CutAt(all, Flatten(t), n);
    PastFirst(Counted(n), Some(all[..n]), all[n..], x, t);
  }

  lemma CountedMore(n: nat, data: string, x: string, t: seq<string>)
    requires |data + x| < n
    ensures var s := data + Flatten([x] + t);
            s == data + x + Flatten(t) &&
            (n <= |s| ==> ReadPast(Counted(n), Some(s[..n]), s[n..], [x] + t) ==
                          ReadPast(Counted(n), Some(s[..n]), s[n..], t))
  {
    hide Flatten, ReadPast;
    FlattenCons([x] + t);
    assert ([x] + t)[1..] == t;
    var s := data + Flatten([x] + t);
    assert s == data + x + Flatten(t);
    if n <= |s| {
      PastLater(Counted(n), Some(s[..n]), s[n..], x, t);
    }
  }

  /** A counted reader that has `data`, which is not enough. */
  lemma {:induction false} CountedFrom(n: nat, data: string, pieces: seq<string>)
    requires |data| < n
    ensures var s := data + Flatten(pieces);
            AfterRound(Counted(n), Round(Some(data), "", false, false), pieces) ==
            if |s| < n then Read(BodyClosed, Some(s), []) else ReadPast(Counted(n), Some(s[..n]), s[n..], pieces)
    decreases |pieces|
  {
    if pieces == [] {
      assert data + "" == data;
    } else {
      hide Flatten, ReadPast, AfterRound;
      var x, t := pieces[0], pieces[1..];
      assert pieces == [x] + t;
      CountedRound(n, data, x, t);
      if |data + x| < n {
        CountedMore(n, data, x, t);
        CountedFrom(n, data + x, t);
      } else {
        CountedLast(n, data, x, t);
      }
    }
  }

  lemma {:induction false} CloseFrom(data: string, pieces: seq<string>)
    ensures AfterRound(UntilClose, Round(Some(data), "", false, false), pieces) ==
            Read(BodyClosed, Some(data + Flatten(pieces)), [])
    decreases |pieces|
  {
    if pieces == [] {
      assert data + "" == data;
    } else {
      assert "" + pieces[0] == pieces[0];
      assert data + Flatten(pieces) == data + pieces[0] + Flatten(pieces[1..]);
      CloseFrom(data + pieces[0], pieces[1..]);
    }
  }

  ghost predicate Answer(f: Framing, r: Read, b: Body, pieces: seq<string>) {
    match b.status
    case BodyOk =>
      |b.rest| <= |Flatten(pieces)| && (f.ChunkedBody? || f.Counted? ==> b.body.Some?) &&
      r == ReadPast(f, b.body, b.rest, pieces)
    case BodyClosed => r == Read(BodyClosed, b.body, [])
    case BodyMalformed => r.status == BodyMalformed
  }

  /** For every framing and every cut, what `parse_body` gives is decided by the whole stream and by where in the
      pieces the message ends: an early close and a malformed body are reported as such, and a complete
      message is read together with the rest of the piece in which it ends. */
  lemma BodyAnswer(f: Framing, pieces: seq<string>)
    ensures Answer(f, ReadPieces(f, pieces), BodyOf(f, Flatten(pieces)), pieces)
  {
    hide Flatten, Dechunk, Overrun;
    var s := Flatten(pieces);
    assert "" + s == s && pieces[0..] == pieces;
    match f
    case ChunkedBody =>
      NothingYet();
      ChunkedFrom("", "", pieces);
    case Counted(n) =>
      if n > 0 {
        CountedFrom(n, "", pieces);
      } else {
        NothingExtra(f, Some(""), pieces);
      }
    case UntilClose => CloseFrom("", pieces);
    case NoBody => NothingExtra(f, None, pieces);
    case BadLength =>
  }

  lemma NothingYet()
    ensures Dechunk("", "") == Chunks(Waiting, "", "")
    ensures ChunkLoop("", "", false) == Loop("", "", false, false)
  {
  }

  lemma NothingExtra(f: Framing, body: Option<string>, pieces: seq<string>)
    requires f.ChunkedBody? || f.Counted? ==> body.Some?
    ensures Overrun(f, body, "", pieces) == Read(BodyOk, body, pieces)
    ensures ReadPast(f, body, Flatten(pieces), pieces) == Read(BodyOk, body, pieces)
  {
    assert body.Some? ==> body.value + "" == body.value;
    assert pieces[0..] == pieces && Covering(pieces, 0) == 0;
    assert Extra(Flatten(pieces), pieces) == "";
  }

  // ----- when the answer is the message -----

  /** The body of the message, and what follows it left for the next reader. */
  ghost predicate Exact(f: Framing, pieces: seq<string>) {
    var r, b := ReadPieces(f, pieces), BodyOf(f, Flatten(pieces));
    r.status == BodyOk && r.body == b.body && Flatten(r.rest) == b.rest
  }

  /** One of the pieces (or none of them) ends where `rest` begins. */
  ghost predicate Boundary(pieces: seq<string>, rest: string) {
    exists k :: 0 <= k <= |pieces| && Flatten(pieces[k..]) == rest
  }

  lemma {:induction false} FlattenSuffix(pieces: seq<string>, k: nat)
    requires k <= |pieces|
    ensures |Flatten(pieces[k..])| <= |Flatten(pieces)|
    ensures Flatten(pieces)[|Flatten(pieces)| - |Flatten(pieces[k..])|..] == Flatten(pieces[k..])
    decreases |pieces|
  {
    if k == 0 {
      assert pieces[0..] == pieces;
    } else {
      FlattenSuffix(pieces[1..], k - 1);
      assert pieces[1..][k - 1..] == pieces[k..];
      FlattenCons(pieces);
    }
  }

  lemma {:induction false} CoveringAt(pieces: seq<string>, k: nat)
    requires k <= |pieces|
    ensures Flatten(pieces[Covering(pieces, |Flatten(pieces)| - |Flatten(pieces[k..])|)..]) == Flatten(pieces[k..])
    decreases |pieces|
  {
    hide Flatten;
    FlattenSuffix(pieces, k);
    var e := |Flatten(pieces)| - |Flatten(pieces[k..])|;
    if k == 0 || e == 0 {
      assert pieces[0..] == pieces;
    } else {
      var x, t := pieces[0], pieces[1..];
      FlattenCons(pieces);
      assert pieces == [x] + t && t[k - 1..] == pieces[k..];
      CoveringCons(x, t, e);
      CoveringAt(t, k - 1);
      assert pieces[Covering(pieces, e)..] == t[Covering(t, e - |x|)..];
    }
  }

  /** A complete message is read exactly if and only if a piece ends where the message ends. */
  lemma ExactAtBoundary(f: Framing, pieces: seq<string>)
    requires BodyOf(f, Flatten(pieces)).status.BodyOk?
    ensures Exact(f, pieces) <==> Boundary(pieces, BodyOf(f, Flatten(pieces)).rest)
  {
    hide BodyOf, Flatten, ReadPieces, Overrun, Covering;
    BodyAnswer(f, pieces);
    var b := BodyOf(f, Flatten(pieces));
    var k := Covering(pieces, |Flatten(pieces)| - |b.rest|);
    OverrunRest(f, b.body, Extra(b.rest, pieces[k..]), pieces[k..]);
    if Boundary(pieces, b.rest) {
      var j :| 0 <= j <= |pieces| && Flatten(pieces[j..]) == b.rest;
      CoveringAt(pieces, j);
      NothingExtra(f, b.body, pieces[k..]);
    }
  }

  lemma OverrunRest(f: Framing, body: Option<string>, extra: string, pieces: seq<string>)
    requires f.ChunkedBody? || f.Counted? ==> body.Some?
    ensures Overrun(f, body, extra, pieces).rest == pieces
  {
  }

  /** Not every message can be read exactly from every cut. It can if and only if it has no body, nothing follows
      it, or its length is announced to be zero. */
  lemma ExactForEveryCut(f: Framing, stream: string)
    requires BodyOf(f, stream).status.BodyOk?
    ensures (forall pieces | Cut(pieces, stream) :: Exact(f, pieces)) <==>
            (var b := BodyOf(f, stream); b.body.None? || b.rest == "" || f == Counted(0))
  {
    var b := BodyOf(f, stream);
    if b.body.None? || b.rest == "" || f == Counted(0) {
      forall pieces | Cut(pieces, stream)
        ensures Exact(f, pieces)
      {
        hide Dechunk, Flatten, Exact;
        assert b.rest == "" || b.rest == stream;
        EndsBoundary(pieces);
        ExactAtBoundary(f, pieces);
      }
    } else {
      hide BodyOf, Exact, Cut;
      var pieces := InexactCut(f, stream);
    }
  }

  /** The cut that keeps the end of the message and the byte after it in one piece. */
  lemma InexactCut(f: Framing, stream: string) returns (pieces: seq<string>)
    requires BodyOf(f, stream).status.BodyOk? && BodyOf(f, stream).body.Some? && BodyOf(f, stream).rest != ""
    requires f != Counted(0)
    ensures Cut(pieces, stream) && !Exact(f, pieces)
  {
    hide BodyOf, Flatten, Exact, Boundary, Spanning;
    MessageSuffix(f, stream);
    var rest := BodyOf(f, stream).rest;
    var e := |stream| - |rest|;
    pieces := Spanning(stream, e);
    SpanningCut(stream, e);
    CutFlat(pieces, stream);
    ExactAtBoundary(f, pieces);
  }

  lemma EndsBoundary(pieces: seq<string>)
    ensures Boundary(pieces, "") && Boundary(pieces, Flatten(pieces))
  {
    assert pieces[0..] == pieces && Flatten(pieces[|pieces|..]) == "";
  }

  lemma MessageSuffix(f: Framing, stream: string)
    requires BodyOf(f, stream).status.BodyOk?
    ensures var rest := BodyOf(f, stream).rest; |rest| <= |stream| && stream[|stream| - |rest|..] == rest
    ensures var b := BodyOf(f, stream); b.body.None? || f == Counted(0) || |b.rest| < |stream|
  {
    hide Dechunk;
    if f.ChunkedBody? {
      DechunkSuffix("", stream);
      NothingYet();
      assert "" + stream == stream;
      EndsInNewBytes("", "", stream);
    }
  }

  function Singles(s: string): seq<string> {
    if s == "" then [] else [s[..1]] + Singles(s[1..])
  }

  lemma {:induction false} SinglesCut(s: string)
    ensures Cut(Singles(s), s)
    decreases |s|
  {
    if s != "" {
      SinglesCut(s[1..]);
      CutCons(s[..1], Singles(s[1..]), s[1..]);
      assert s == s[..1] + s[1..];
    }
  }

  /** The stream byte by byte, except that the bytes on both sides of index `e` come together. */
  function Spanning(stream: string, e: nat): seq<string>
    requires 0 < e < |stream|
  {
    if e == 1 then [stream[..2]] + Singles(stream[2..]) else [stream[..1]] + Spanning(stream[1..], e - 1)
  }

  lemma {:induction false} SpanningCut(stream: string, e: nat)
    requires 0 < e < |stream|
    ensures Cut(Spanning(stream, e), stream)
    ensures !Boundary(Spanning(stream, e), stream[e..])
    decreases e
  {
    hide Cut, Boundary;
    var n := if e == 1 then 2 else 1;
    var t := if e == 1 then Singles(stream[2..]) else Spanning(stream[1..], e - 1);
    if e == 1 {
      SinglesCut(stream[2..]);
    } else {
      SpanningCut(stream[1..], e - 1);
      assert stream[1..][e - 1..] == stream[e..];
    }
    CutCons(stream[..n], t, stream[n..]);
    assert stream == stream[..n] + stream[n..];
    CutFlat(t, stream[n..]);
    CutFlat([stream[..n]] + t, stream);
    NoBoundaryCons(stream[..n], t, stream[e..]);
  }

  lemma NoBoundaryCons(x: string, t: seq<string>, rest: string)
    requires |Flatten([x] + t)| > |rest|
    requires |Flatten(t)| < |rest| || !Boundary(t, rest)
    ensures !Boundary([x] + t, rest)
  {
    hide Flatten;
    var pieces := [x] + t;
    forall k | 0 <= k <= |pieces|
      ensures Flatten(pieces[k..]) != rest
    {
      if k == 0 {
        assert pieces[0..] == pieces;
      } else {
        assert pieces[k..] == t[k - 1..];
        FlattenSuffix(t, k - 1);
      }
    }
  }

  // ----- consequences -----

  /** What the stream alone decides about a body reader's answer. */
  ghost predicate ByStream(f: Framing, stream: string, status: BodyStatus, body: Option<string>, remaining: string) {
    var b := BodyOf(f, stream);
    match b.status
    case BodyMalformed => status == BodyMalformed
    case BodyClosed => status == BodyClosed && body == b.body && remaining == ""
    case BodyOk =>
      b.body.None? || b.rest == "" || f == Counted(0) ==> status == BodyOk && body == b.body && remaining == b.rest
  }

  lemma ForEveryCut(f: Framing, pieces: seq<string>, stream: string)
    requires Cut(pieces, stream)
    ensures var r := ReadPieces(f, pieces); ByStream(f, stream, r.status, r.body, Flatten(r.rest))
  {
    hide BodyOf, ReadPieces, ReadPast, Boundary, Cut;
    CutFlat(pieces, stream);
    BodyAnswer(f, pieces);
    if BodyOf(f, stream).status.BodyOk? {
      ExactForEveryCut(f, stream);
    }
    assert Flatten([]) == "";
  }

  /** A message that ends its stream is read completely, whatever the cut. */
  lemma LastMessage(f: Framing, pieces: seq<string>, stream: string)
    requires Cut(pieces, stream) && BodyOf(f, stream).status.BodyOk? && BodyOf(f, stream).rest == ""
    ensures ReadPieces(f, pieces) == Read(BodyOk, BodyOf(f, stream).body, [])
  {
    hide BodyOf, Flatten, ReadPieces, Overrun, Covering;
    CutFlat(pieces, stream);
    BodyAnswer(f, pieces);
    var b := BodyOf(f, stream);
    var k := Covering(pieces, |stream| - 0);
    CoveringFlat(pieces, |stream|);
    assert forall x | x in pieces[k..] :: x in pieces;
    EmptyIncoming(pieces[k..]);
    NothingExtra(f, b.body, []);
  }

  /** Whatever way an encoded body is cut, the chunked reader gives the encoded data. */
  lemma ChunkedRoundTrip(cs: seq<Chunk>, last: Chunk, pieces: seq<string>)
    requires ChunkedOk(cs, last) && Cut(pieces, EncodeChunks(cs) + EncodeChunk(last))
    ensures ReadPieces(ChunkedBody, pieces) == Read(BodyOk, Some(Data(cs)), [])
  {
    hide Dechunk, EncodeChunks, Data, EncodeChunk, ChunkedOk, Cut, ReadPieces;
    DechunkEncoded("", cs, last, "");
    assert EncodeChunk(last) + "" == EncodeChunk(last) && "" + Data(cs) == Data(cs);
    LastMessage(ChunkedBody, pieces, EncodeChunks(cs) + EncodeChunk(last));
  }

  /** There is no body exactly when the headers announce none. */
  lemma {:induction false} BodyPresent(f: Framing, r: Round, pieces: seq<string>)
    requires r.body.None? ==> f.NoBody?
    requires f.NoBody? ==> r.body.None?
    ensures AfterRound(f, r, pieces).body.None? <==> f.NoBody?
    decreases |pieces|
  {
    hide ChunkLoop;
    if !r.bad && !r.done && r.body.Some? && pieces != [] {
      BodyPresent(f, BodyRound(f, r.body.value, r.buf + pieces[0]), pieces[1..]);
    }
  }

  lemma BodyReadPresent(f: Framing, pieces: seq<string>)
    ensures ReadPieces(f, pieces).body.None? <==> f.NoBody?
  {
    hide ChunkLoop;
    BodyPresent(f, BodyRound(f, "", ""), pieces);
  }

  /** A counted reader takes the whole piece. */
  lemma CountedTakesAll(n: nat, x: string)
    requires 0 < n <= |x|
    ensures ReadPieces(Counted(n), [x]) == Read(BodyOk, Some(x), [])
  {
    CountedRound(n, "", x, []);
    assert [x] + [] == [x] && "" + x == x && "" + "" == "";
  }

  /** A counted reader swallows a byte of the next message. */
  lemma CountedSwallows()
    ensures BodyOf(Counted(1), "ab") == Body(BodyOk, Some("a"), "b")
    ensures ReadPieces(Counted(1), ["ab"]) == Read(BodyOk, Some("ab"), [])
  {
    assert "ab"[..1] == "a" && "ab"[1..] == "b";
    CountedTakesAll(1, "ab");
  }

  const NEXT := "GET / HTTP/1.1"
  const LAST := "0\r\n\r\n"

  lemma NotASize(body: string)
    ensures ChunkLoop(body, NEXT + CRLF, true).bad
  {
    hide Find;
    PairOccurs(NEXT, CRLF);
    FindPair(NEXT, CRLF, "");
    var more := NEXT + CRLF;
    assert more + "" == more && more[..|NEXT|] == NEXT;
    assert !IsDigit(NEXT[0], 16);
  }

  lemma ZeroSize()
    ensures ParseNat("0", 16) == Some(0)
  {
    assert "0"[1..] == "";
    assert Value(0, "0", 16) == Value(0, "", 16);
  }

  /** A chunked reader takes the first line of the next request for the size of a chunk. */
  lemma ChunkedStumbles()
    ensures BodyOf(ChunkedBody, LAST + (NEXT + CRLF)) == Body(BodyOk, Some(""), NEXT + CRLF)
    ensures ReadPieces(ChunkedBody, [LAST + (NEXT + CRLF)]).status == BodyMalformed
  {
    hide Dechunk, ReadPieces, Find, ChunkLoop, ParseNat;
    var last, more := Chunk("0", "", CRLF), NEXT + CRLF;
    var s := LAST + more;
    ZeroSize();
    assert EncodeChunk(last) == LAST && "" + s == s;
    DechunkEncoded("", [], last, more);
    assert EncodeChunks([]) + s == s && "" + Data([]) == "";
    BodyAnswer(ChunkedBody, [s]);
    assert [s] == [s] + [] && LAST + more == s;
    FlattenCons([s]);
    assert s + "" == s;
    PastFirst(ChunkedBody, Some(""), more, s, []);
    assert more + "" == more;
    NotASize("");
  }
}
