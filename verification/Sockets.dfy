/**
 Sockets (proxy/httpparse.py). The network is an adversary: it delivers a byte stream in nonempty
 slices cut anywhere, then end of stream.
 */
module Sockets {

  function Flatten(slices: seq<string>): string {
    if slices == [] then "" else slices[0] + Flatten(slices[1..])
  }

  /** How much one `recv` of the parsers asks for. */
  const BUFSIZE := 4096

  function Least(a: nat, b: nat): nat {
    if a < b then a else b
  }

  /** `recv` on a socket: at most `bufsize` bytes of the next slice, and what is left. */
  function RecvSlice(arrivals: seq<string>, bufsize: nat): (string, seq<string>) {
    if arrivals == [] then ("", [])
    else if |arrivals[0]| <= bufsize then (arrivals[0], arrivals[1..])
    else (arrivals[0][..bufsize], [arrivals[0][bufsize..]] + arrivals[1..])
  }

  /** `recv` with a buffer in front: buffered bytes first, then what the socket has for the room left. */
  function RecvBuffered(buffer: string, arrivals: seq<string>, bufsize: nat): (string, string, seq<string>) {
    var n := if bufsize < |buffer| then bufsize else |buffer|;
    var r := RecvSlice(arrivals, bufsize - n);
    if bufsize > n || n == 0 then (buffer[..n] + r.0, buffer[n..], r.1) else (buffer[..n], buffer[n..], arrivals)
  }

  lemma RecvSliceMeaning(arrivals: seq<string>, bufsize: nat)
    requires "" !in arrivals
    ensures var r := RecvSlice(arrivals, bufsize);
            Flatten(arrivals) == r.0 + Flatten(r.1) && "" !in r.1 && |r.0| <= bufsize &&
            (bufsize > 0 ==> (r.0 == "" <==> arrivals == []))
  {
    var r := RecvSlice(arrivals, bufsize);
    if arrivals != [] {
      assert arrivals[0] in arrivals;
      if |arrivals[0]| > bufsize {
        assert arrivals[0] == r.0 + r.1[0] && r.1[1..] == arrivals[1..];
      }
    }
  }

  lemma RecvBufferedMeaning(buffer: string, arrivals: seq<string>, bufsize: nat)
    requires "" !in arrivals
    ensures var r := RecvBuffered(buffer, arrivals, bufsize);
            buffer + Flatten(arrivals) == r.0 + (r.1 + Flatten(r.2)) && "" !in r.2 && |r.0| <= bufsize &&
            (bufsize > 0 ==> (r.0 == "" <==> buffer == "" && arrivals == []))
  {
    hide RecvSlice, Flatten;
    var n := if bufsize < |buffer| then bufsize else |buffer|;
    RecvSliceMeaning(arrivals, bufsize - n);
    var r := RecvSlice(arrivals, bufsize - n);
    assert buffer == buffer[..n] + buffer[n..];
    if bufsize > n || n == 0 {
      assert buffer[..n] + (r.0 + Flatten(r.1)) == (buffer[..n] + r.0) + ("" + Flatten(r.1));
    }
  }

  /** How much comes at once: the buffer and one slice, as far as there is room. */
  lemma RecvLength(buffer: string, arrivals: seq<string>, bufsize: nat)
    requires "" !in arrivals
    ensures |RecvBuffered(buffer, arrivals, bufsize).0| ==
            Least(bufsize, |buffer| + if arrivals == [] then 0 else |arrivals[0]|)
  {
    var n := if bufsize < |buffer| then bufsize else |buffer|;
    assert |RecvSlice(arrivals, bufsize - n).0| == Least(bufsize - n, if arrivals == [] then 0 else |arrivals[0]|);
    hide RecvSlice;
  }

  /** The results of calling `recv(BUFSIZE)` until the end of the stream. */
  ghost function Results(buffer: string, arrivals: seq<string>): seq<string>
    requires "" !in arrivals
    decreases |buffer| + |Flatten(arrivals)|
  {
    if buffer == "" && arrivals == [] then []
    else
      RecvBufferedMeaning(buffer, arrivals, BUFSIZE);
      var r := RecvBuffered(buffer, arrivals, BUFSIZE);
      [r.0] + Results(r.1, r.2)
  }

  /** A stream cut into pieces that `recv(BUFSIZE)` may return. */
  ghost predicate Cut(pieces: seq<string>, stream: string) {
    (forall x | x in pieces :: x != "" && |x| <= 4096) && Flatten(pieces) == stream
  }

  lemma CutCons(x: string, pieces: seq<string>, stream: string)
    requires x != "" && |x| <= BUFSIZE && Cut(pieces, stream)
    ensures Cut([x] + pieces, x + stream)
  {
    assert ([x] + pieces)[1..] == pieces;
  }

  /** What a socket returns is a cut of what it still holds. */
  lemma {:induction false} ResultsAreCut(buffer: string, arrivals: seq<string>)
    requires "" !in arrivals
    ensures Cut(Results(buffer, arrivals), buffer + Flatten(arrivals))
    decreases |buffer| + |Flatten(arrivals)|
  {
    if buffer != "" || arrivals != [] {
      hide RecvBuffered, Flatten, Cut;
      RecvBufferedMeaning(buffer, arrivals, BUFSIZE);
      var r := RecvBuffered(buffer, arrivals, BUFSIZE);
      ResultsAreCut(r.1, r.2);
      CutCons(r.0, Results(r.1, r.2), r.1 + Flatten(r.2));
    }
  }

  lemma CutFlat(pieces: seq<string>, stream: string)
    requires Cut(pieces, stream)
    ensures Flatten(pieces) == stream
  {
  }

  lemma WholePiece(pieces: seq<string>)
    requires pieces != [] && |pieces[0]| <= BUFSIZE
    ensures RecvBuffered("", pieces, BUFSIZE) == (pieces[0], "", pieces[1..])
  {
    assert "" + pieces[0] == pieces[0];
    assert ""[..0] == "" && ""[0..] == "";
  }

  /** And every cut can happen: when the network delivers these pieces. */
  lemma {:induction false} EveryCutHappens(pieces: seq<string>, stream: string)
    requires Cut(pieces, stream)
    ensures "" !in pieces && Results("", pieces) == pieces
    decreases |pieces|
  {
    if pieces != [] {
      assert pieces[0] in pieces;
      assert forall x | x in pieces[1..] :: x in pieces;
      EveryCutHappens(pieces[1..], Flatten(pieces[1..]));
      WholePiece(pieces);
    }
  }

  lemma EmptyIncoming(arrivals: seq<string>)
    requires "" !in arrivals
    ensures Flatten(arrivals) == "" <==> arrivals == []
  {
    assert arrivals != [] ==> arrivals[0] in arrivals;
  }

  class Socket {
    var arrivals: seq<string>
    var sent: string

    ghost predicate Valid()
      reads this
    {
      "" !in arrivals
    }

    /** Everything that will still be received. */
    ghost function Incoming(): string
      reads this
    {
      Flatten(arrivals)
    }

    constructor (slices: seq<string>)
      requires "" !in slices
      ensures Valid() && Incoming() == Flatten(slices) && sent == ""
    {
      arrivals, sent := slices, "";
    }

    /** At most `bufsize` bytes of the next slice; empty exactly at the end of the stream. */
    method Recv(bufsize: nat) returns (data: string)
      requires Valid()
      modifies this`arrivals
      ensures Valid()
      ensures (data, arrivals) == RecvSlice(old(arrivals), bufsize)
      ensures old(Incoming()) == data + Incoming()
      ensures |data| <= bufsize
      ensures bufsize > 0 ==> (data == "" <==> old(Incoming()) == "")
    {
      RecvSliceMeaning(arrivals, bufsize);
      if arrivals == [] {
        data := "";
      } else if |arrivals[0]| <= bufsize {
        data := arrivals[0];
        arrivals := arrivals[1..];
      } else {
        data := arrivals[0][..bufsize];
        arrivals := [arrivals[0][bufsize..]] + arrivals[1..];
      }
    }

    method SendAll(data: string)
      modifies this`sent
      ensures sent == old(sent) + data
    {
      sent := sent + data;
    }
  }

  lemma PiecesCut(sock: BufferedSocket)
    requires sock.Valid()
    ensures Cut(sock.Pieces(), sock.Remaining())
  {
    ResultsAreCut(sock.recvBuffer, sock.wrapped.arrivals);
  }

  /** A socket with a buffer in front, so that bytes read too far can be put back. */
  class BufferedSocket {
    const wrapped: Socket
    var recvBuffer: string

    ghost predicate Valid()
      reads this, wrapped
    {
      wrapped.Valid()
    }

    /** Everything that can still be read, put-back bytes first. */
    ghost function Remaining(): string
      reads this, wrapped
    {
      recvBuffer + wrapped.Incoming()
    }

    /** The pieces in which it will be read. */
    ghost function Pieces(): seq<string>
      requires Valid()
      reads this, wrapped
    {
      Results(recvBuffer, wrapped.arrivals)
    }

    constructor (socket: Socket)
      requires socket.Valid()
      ensures wrapped == socket && Valid() && Remaining() == socket.Incoming()
    {
      wrapped := socket;
      recvBuffer := "";
    }

    method Recv(bufsize: nat) returns (data: string)
      requires Valid()
      modifies this`recvBuffer, wrapped`arrivals
      ensures Valid()
      ensures (data, recvBuffer, wrapped.arrivals) == RecvBuffered(old(recvBuffer), old(wrapped.arrivals), bufsize)
      ensures old(Remaining()) == data + Remaining()
      ensures |data| <= bufsize
      ensures bufsize > 0 ==> (data == "" <==> old(Remaining()) == "")
      ensures bufsize == BUFSIZE ==> old(Pieces()) == if data == "" then [] else [data] + Pieces()
    {
      hide RecvSlice, Flatten;
      RecvBufferedMeaning(recvBuffer, wrapped.arrivals, bufsize);
      EmptyIncoming(wrapped.arrivals);
      data := "";
      var left := bufsize;
      if |recvBuffer| > 0 {
        var n := if left < |recvBuffer| then left else |recvBuffer|;
        data := recvBuffer[..n];
        recvBuffer := recvBuffer[n..];
        left := left - n;
      }
      if left > 0 || data == "" {
        var more := wrapped.Recv(left);
        data := data + more;
      }
    }

    method Rewind(data: string)
      requires Valid()
      modifies this`recvBuffer
      ensures Valid()
      ensures Remaining() == data + old(Remaining())
    {
      recvBuffer := data + recvBuffer;
    }
  }
}
