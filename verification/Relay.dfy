/**
 The two-way relay loop `passive_proxy` (proxy/proxy.py). Each direction of the tunnel is a pipe with
 a pending buffer; `select`, `recv` and `send` are the environment, given round by round.
 */
module Relay {
  import opened Text

  /** What one `recv` yields: not selected, SSL_ERROR_WANT_READ, or bytes (none: the peer closed). */
  datatype Read = NotReady | WantRead | Data(bytes: string)

  /** One pass of the loop: the two reads, and how many bytes each `send` accepted (0: not writable). */
  datatype Round = Round(fromClient: Read, fromServer: Read, toServer: nat, toClient: nat)

  /** One direction. `received` and `sent` record the traffic on the two sockets. */
  datatype Pipe = Pipe(pending: string, closed: bool, line: string, lineReceived: bool,
                       received: string, sent: string)

  datatype State = State(up: Pipe, down: Pipe)

  const EMPTY_PIPE := Pipe("", false, "", false, "", "")
  const INITIAL := State(EMPTY_PIPE, EMPTY_PIPE)

  function Receive(p: Pipe, log: bool, r: Read): Pipe {
    if !r.Data? then p
    else if r.bytes == "" then p.(closed := true)
    else
      var p' := p.(pending := p.pending + r.bytes, received := p.received + r.bytes);
      if log && !p.lineReceived then
        var line := p.line + r.bytes;
        var idx := Find(line, CRLF);
        if idx > -1 then p'.(line := line[..idx], lineReceived := true) else p'.(line := line)
      else p'
  }

  function Send(p: Pipe, n: nat): Pipe
    requires n <= |p.pending|
  {
    p.(pending := p.pending[n..], sent := p.sent + p.pending[..n])
  }

  /** The loop guard. */
  predicate Running(s: State) {
    s.up.pending != "" || s.down.pending != "" || (!s.up.closed && !s.down.closed)
  }

  /** `select` returns only sockets that were asked for, and `send` accepts at most what it is given. */
  predicate Enabled(s: State, log: bool, r: Round) {
    (s.up.closed ==> r.fromClient.NotReady?) && (s.down.closed ==> r.fromServer.NotReady?) &&
    (s.up.pending == "" ==> r.toServer == 0) && (s.down.pending == "" ==> r.toClient == 0) &&
    r.toServer <= |Receive(s.up, log, r.fromClient).pending| &&
    r.toClient <= |Receive(s.down, log, r.fromServer).pending|
  }

  function Step(s: State, log: bool, r: Round): State
    requires Enabled(s, log, r)
  {
    State(Send(Receive(s.up, log, r.fromClient), r.toServer),
          Send(Receive(s.down, log, r.fromServer), r.toClient))
  }

  /** A run of the loop: the guard held and the environment was legal in every round. */
  predicate Run(s: State, log: bool, rounds: seq<Round>)
    decreases |rounds|
  {
    rounds == [] ||
    (Running(s) && Enabled(s, log, rounds[0]) && Run(Step(s, log, rounds[0]), log, rounds[1..]))
  }

  function After(s: State, log: bool, rounds: seq<Round>): State
    requires Run(s, log, rounds)
    decreases |rounds|
  {
    if rounds == [] then s else After(Step(s, log, rounds[0]), log, rounds[1..])
  }

  /** The first line of a stream, or all of it while no line is complete. */
  function FirstLine(s: string): string {
    if Find(s, CRLF) >= 0 then s[..Find(s, CRLF)] else s
  }

  ghost predicate PipeOk(p: Pipe, log: bool) {
    p.received == p.sent + p.pending &&
    p.line == (if log then FirstLine(p.received) else "") &&
    (p.lineReceived <==> log && Contains(p.received, CRLF))
  }

  ghost predicate StateOk(s: State, log: bool) {
    PipeOk(s.up, log) && PipeOk(s.down, log)
  }

  lemma ReceiveOk(p: Pipe, log: bool, r: Read)
    requires PipeOk(p, log)
    ensures PipeOk(Receive(p, log, r), log)
  {
    hide Find;
    if r.Data? && r.bytes != "" {
      var all := p.received + r.bytes;
      assert all == p.sent + (p.pending + r.bytes);
      if log && p.lineReceived {
        FindExtend(p.received, r.bytes, CRLF);
        assert all[..Find(p.received, CRLF)] == p.received[..Find(p.received, CRLF)];
      }
    }
  }

  lemma SendOk(p: Pipe, log: bool, n: nat)
    requires PipeOk(p, log) && n <= |p.pending|
    ensures PipeOk(Send(p, n), log)
  {
    hide Find;
    assert p.sent + p.pending == (p.sent + p.pending[..n]) + p.pending[n..];
  }

  lemma PipeStep(p: Pipe, log: bool, r: Read, n: nat)
    requires PipeOk(p, log) && n <= |Receive(p, log, r).pending|
    ensures PipeOk(Send(Receive(p, log, r), n), log)
  {
    hide PipeOk, Receive;
    ReceiveOk(p, log, r);
    SendOk(Receive(p, log, r), log, n);
  }

  /** At every point of every run, in each direction, what was received is what was sent on followed by
      what is pending; with logging on, the recorded line is the first line of the received stream. */
  lemma {:induction false} RelaySafety(s: State, log: bool, rounds: seq<Round>)
    requires StateOk(s, log) && Run(s, log, rounds)
    ensures StateOk(After(s, log, rounds), log)
    decreases |rounds|
  {
    hide PipeOk, Receive, Send;
    if rounds != [] {
      PipeStep(s.up, log, rounds[0].fromClient, rounds[0].toServer);
      PipeStep(s.down, log, rounds[0].fromServer, rounds[0].toClient);
      RelaySafety(Step(s, log, rounds[0]), log, rounds[1..]);
    }
  }

  /** When the loop exits, everything received has been delivered and one side has closed. */
  lemma RelayDelivers(log: bool, rounds: seq<Round>)
    requires Run(INITIAL, log, rounds) && !Running(After(INITIAL, log, rounds))
    ensures var s := After(INITIAL, log, rounds);
            s.up.sent == s.up.received == FromClient(rounds) && s.down.sent == s.down.received == FromServer(rounds) &&
            (s.up.closed || s.down.closed) && (ClientCloses(rounds) || ServerCloses(rounds))
    ensures log ==> var s := After(INITIAL, log, rounds);
                    s.up.line == FirstLine(s.up.received) && s.down.line == FirstLine(s.down.received)
  {
    hide Run, ClientCloses, ServerCloses, FirstLine;
    StartOk(log);
    RelaySafety(INITIAL, log, rounds);
    RelayExactly(log, rounds);
  }

  // ----- a run in terms of what the environment did -----

  /** What a round needs, in terms of the bytes pending and arriving. */
  lemma EnabledExactly(s: State, log: bool, r: Round)
    ensures Enabled(s, log, r) <==>
            var fromClient := if r.fromClient.Data? then |r.fromClient.bytes| else 0;
            var fromServer := if r.fromServer.Data? then |r.fromServer.bytes| else 0;
            (s.up.closed ==> r.fromClient.NotReady?) && (s.down.closed ==> r.fromServer.NotReady?) &&
            (s.up.pending == "" ==> r.toServer == 0) && (s.down.pending == "" ==> r.toClient == 0) &&
            r.toServer <= |s.up.pending| + fromClient && r.toClient <= |s.down.pending| + fromServer
  {
    hide Find;
  }

  /** All bytes that the client's reads yield. */
  function FromClient(rounds: seq<Round>): string {
    if rounds == [] then "" else Arrived(rounds[0].fromClient) + FromClient(rounds[1..])
  }

  function FromServer(rounds: seq<Round>): string {
    if rounds == [] then "" else Arrived(rounds[0].fromServer) + FromServer(rounds[1..])
  }

  /** How many bytes the server's socket accepts. */
  function ToServer(rounds: seq<Round>): nat {
    if rounds == [] then 0 else rounds[0].toServer + ToServer(rounds[1..])
  }

  function ToClient(rounds: seq<Round>): nat {
    if rounds == [] then 0 else rounds[0].toClient + ToClient(rounds[1..])
  }

  /** An empty read: the peer has closed. */
  ghost predicate ClientCloses(rounds: seq<Round>) {
    exists k :: 0 <= k < |rounds| && rounds[k].fromClient == Data("")
  }

  ghost predicate ServerCloses(rounds: seq<Round>) {
    exists k :: 0 <= k < |rounds| && rounds[k].fromServer == Data("")
  }

  lemma ClosesCons(rounds: seq<Round>)
    requires rounds != []
    ensures ClientCloses(rounds) <==> rounds[0].fromClient == Data("") || ClientCloses(rounds[1..])
    ensures ServerCloses(rounds) <==> rounds[0].fromServer == Data("") || ServerCloses(rounds[1..])
  {
    if ClientCloses(rounds) {
      var k :| 0 <= k < |rounds| && rounds[k].fromClient == Data("");
      assert k > 0 ==> rounds[1..][k - 1] == rounds[k];
    }
    if ServerCloses(rounds) {
      var k :| 0 <= k < |rounds| && rounds[k].fromServer == Data("");
      assert k > 0 ==> rounds[1..][k - 1] == rounds[k];
    }
  }

  /** The bytes of one read. */
  function Arrived(r: Read): string {
    if r.Data? then r.bytes else ""
  }

  /** One direction of one round. */
  lemma PipeRound(p: Pipe, log: bool, r: Read, n: nat)
    requires n <= |Receive(p, log, r).pending|
    ensures var q := Send(Receive(p, log, r), n);
            q.received == p.received + Arrived(r) && |q.sent| == |p.sent| + n &&
            q.sent + q.pending == p.sent + p.pending + Arrived(r) &&
            (q.closed <==> p.closed || r == Data(""))
  {
    Received(p, log, r);
    hide Receive;
    var m := Receive(p, log, r);
    assert m.pending[..n] + m.pending[n..] == m.pending;
    assert p.sent + (p.pending + Arrived(r)) == p.sent + p.pending + Arrived(r);
    assert (m.sent + m.pending[..n]) + m.pending[n..] == m.sent + m.pending;
  }

  lemma Received(p: Pipe, log: bool, r: Read)
    ensures var q := Receive(p, log, r);
            q.received == p.received + Arrived(r) && q.sent == p.sent && q.pending == p.pending + Arrived(r) &&
            (q.closed <==> p.closed || r == Data(""))
  {
    hide Find;
  }

  lemma {:induction false} RunTraffic(s: State, log: bool, rounds: seq<Round>)
    requires Run(s, log, rounds)
    ensures var t := After(s, log, rounds);
            t.up.received == s.up.received + FromClient(rounds) &&
            t.down.received == s.down.received + FromServer(rounds) &&
            |t.up.sent| == |s.up.sent| + ToServer(rounds) && |t.down.sent| == |s.down.sent| + ToClient(rounds) &&
            (t.up.closed <==> s.up.closed || ClientCloses(rounds)) &&
            (t.down.closed <==> s.down.closed || ServerCloses(rounds))
    decreases |rounds|
  {
    hide Receive, Send, ClientCloses, ServerCloses;
    if rounds == [] {
      NoCloses();
      assert s.up.received + "" == s.up.received && s.down.received + "" == s.down.received;
    } else {
      var r := rounds[0];
      PipeRound(s.up, log, r.fromClient, r.toServer);
      PipeRound(s.down, log, r.fromServer, r.toClient);
      ClosesCons(rounds);
      var t := Step(s, log, r);
      RunTraffic(t, log, rounds[1..]);
      Reassociate(s.up.received, t.up.received, FromClient(rounds), FromClient(rounds[1..]));
      Reassociate(s.down.received, t.down.received, FromServer(rounds), FromServer(rounds[1..]));
    }
  }

  lemma NoCloses()
    ensures !ClientCloses([]) && !ServerCloses([])
  {
  }

  lemma Reassociate(a: string, b: string, c: string, d: string)
    requires exists x :: b == a + x && c == x + d
    ensures b + d == a + c
  {
  }

  /** What a run has done, from the environment's side: what was sent on is the first so many bytes of what was read,
      a side counts as closed exactly when a read from it was empty, and the recorded line is the first of its
      stream. */
  lemma RelayExactly(log: bool, rounds: seq<Round>)
    requires Run(INITIAL, log, rounds)
    ensures var s := After(INITIAL, log, rounds);
            ToServer(rounds) <= |FromClient(rounds)| && ToClient(rounds) <= |FromServer(rounds)| &&
            s.up.received == FromClient(rounds) && s.up.sent == FromClient(rounds)[..ToServer(rounds)] &&
            s.down.received == FromServer(rounds) && s.down.sent == FromServer(rounds)[..ToClient(rounds)] &&
            (s.up.closed <==> ClientCloses(rounds)) && (s.down.closed <==> ServerCloses(rounds)) &&
            s.up.line == (if log then FirstLine(FromClient(rounds)) else "") &&
            s.down.line == (if log then FirstLine(FromServer(rounds)) else "")
  {
    hide ClientCloses, ServerCloses, FirstLine;
    RunTraffic(INITIAL, log, rounds);
    StartOk(log);
    RelaySafety(INITIAL, log, rounds);
    assert "" + FromClient(rounds) == FromClient(rounds) && "" + FromServer(rounds) == FromServer(rounds);
  }

  lemma StartOk(log: bool)
    ensures StateOk(INITIAL, log)
  {
  }

  /** The loop stops if and only if everything read has been sent on and a read was empty. */
  lemma RelayStops(log: bool, rounds: seq<Round>)
    requires Run(INITIAL, log, rounds)
    ensures !Running(After(INITIAL, log, rounds)) <==>
            ToServer(rounds) == |FromClient(rounds)| && ToClient(rounds) == |FromServer(rounds)| &&
            (ClientCloses(rounds) || ServerCloses(rounds))
  {
    hide ClientCloses, ServerCloses, FirstLine, Run;
    RelayExactly(log, rounds);
    StartOk(log);
    RelaySafety(INITIAL, log, rounds);
  }

  /** The first line: up to the first CRLF, or everything. */
  lemma FirstLineMeaning(s: string, line: string)
    ensures FirstLine(s) == line <==>
            Free(line, CRLF) && (s == line || exists rest :: Glued(s, line, CRLF, rest))
  {
    hide Find;
    if Find(s, CRLF) >= 0 {
      FreeBefore(s, CRLF);
      assert Glued(s, FirstLine(s), CRLF, s[Find(s, CRLF) + 2..]);
    }
    if Free(line, CRLF) && exists rest :: Glued(s, line, CRLF, rest) {
      var rest :| Glued(s, line, CRLF, rest);
      FindPair(line, CRLF, rest);
    }
  }

  // ----- termination -----

  predicate Progress(r: Round) {
    r.fromClient.Data? || r.fromServer.Data? || r.toServer > 0 || r.toClient > 0
  }

  function PipeMeasure(p: Pipe): int {
    |p.pending| - 2 * |p.received| + (if p.closed then 0 else 1)
  }

  /** Twice the bytes not yet received, plus the bytes pending, plus the open sides, when `total`
      bytes will ever arrive. */
  function Measure(total: nat, s: State): int {
    2 * total + PipeMeasure(s.up) + PipeMeasure(s.down)
  }

  /** One direction of one round: `n` bytes sent. */
  lemma PipeMeasureFalls(p: Pipe, log: bool, r: Read, n: nat)
    requires n <= |Receive(p, log, r).pending| && (p.closed ==> r.NotReady?)
    ensures var p' := Send(Receive(p, log, r), n);
            PipeMeasure(p') == PipeMeasure(p) - (|p'.received| - |p.received|) - n
                               - (if p'.closed != p.closed then 1 else 0)
    ensures r.Data? || n > 0 ==> PipeMeasure(Send(Receive(p, log, r), n)) < PipeMeasure(p)
    ensures !r.Data? && n == 0 ==> PipeMeasure(Send(Receive(p, log, r), n)) == PipeMeasure(p)
  {
    hide Find;
  }

  /** Every byte received, every byte sent and every close lowers the measure by one. */
  lemma MeasureFalls(total: nat, s: State, log: bool, r: Round)
    requires Enabled(s, log, r)
    ensures var s' := Step(s, log, r);
            Measure(total, s') == Measure(total, s)
              - (|s'.up.received| - |s.up.received|) - (|s'.down.received| - |s.down.received|)
              - r.toServer - r.toClient
              - (if s'.up.closed != s.up.closed then 1 else 0) - (if s'.down.closed != s.down.closed then 1 else 0)
    ensures Progress(r) ==> Measure(total, Step(s, log, r)) < Measure(total, s)
  {
    hide Receive, Send, PipeMeasure;
    PipeMeasureFalls(s.up, log, r.fromClient, r.toServer);
    PipeMeasureFalls(s.down, log, r.fromServer, r.toClient);
  }

  lemma {:induction false} MeasureBound(total: nat, s: State, log: bool, rounds: seq<Round>)
    requires Run(s, log, rounds) && forall r | r in rounds :: Progress(r)
    ensures |rounds| <= Measure(total, s) - Measure(total, After(s, log, rounds))
    decreases |rounds|
  {
    if rounds != [] {
      MeasureFalls(total, s, log, rounds[0]);
      MeasureBound(total, Step(s, log, rounds[0]), log, rounds[1..]);
    }
  }

  /** With finite input and progress in every round, the loop makes at most 2n + 2 rounds. */
  lemma RelayTerminates(total: nat, log: bool, rounds: seq<Round>)
    requires Run(INITIAL, log, rounds) && forall r | r in rounds :: Progress(r)
    requires var s := After(INITIAL, log, rounds); |s.up.received| + |s.down.received| <= total
    ensures |rounds| <= 2 * total + 2
  {
    MeasureBound(total, INITIAL, log, rounds);
  }

  // ----- the loop -----

  class PassiveProxy {
    const log: bool
    var clientToServer: string
    var serverToClient: string
    var clientClosed: bool
    var serverClosed: bool
    var lineClient: string
    var lineServer: string
    var clientLineReceived: bool
    var serverLineReceived: bool
    ghost var fromClient: string
    ghost var fromServer: string
    ghost var toClient: string
    ghost var toServer: string

    ghost function Snapshot(): State
      reads this
    {
      State(Pipe(clientToServer, clientClosed, lineClient, clientLineReceived, fromClient, toServer),
            Pipe(serverToClient, serverClosed, lineServer, serverLineReceived, fromServer, toClient))
    }

    constructor (log: bool)
      ensures this.log == log && Snapshot() == INITIAL
    {
      this.log := log;
      clientToServer, serverToClient, lineClient, lineServer := "", "", "", "";
      clientClosed, serverClosed, clientLineReceived, serverLineReceived := false, false, false, false;
      fromClient, fromServer, toClient, toServer := "", "", "", "";
    }

    method ReadClient(r: Read)
      modifies this`clientToServer, this`clientClosed, this`lineClient, this`clientLineReceived, this`fromClient
      ensures Snapshot() == old(Snapshot()).(up := Receive(old(Snapshot()).up, log, r))
    {
      hide Find;
      if r.Data? {
        var b := r.bytes;
        if |b| == 0 {
          clientClosed := true;
        } else {
          if log && !clientLineReceived {
            lineClient := lineClient + b;
            var idx := Find(lineClient, CRLF);
            if idx > -1 {
              clientLineReceived := true;
              lineClient := lineClient[..idx];
            }
          }
          clientToServer := clientToServer + b;
          fromClient := fromClient + b;
        }
      }
    }

    method ReadServer(r: Read)
      modifies this`serverToClient, this`serverClosed, this`lineServer, this`serverLineReceived, this`fromServer
      ensures Snapshot() == old(Snapshot()).(down := Receive(old(Snapshot()).down, log, r))
    {
      hide Find;
      if r.Data? {
        var b := r.bytes;
        if |b| == 0 {
          serverClosed := true;
        } else {
          if log && !serverLineReceived {
            lineServer := lineServer + b;
            var idx := Find(lineServer, CRLF);
            if idx > -1 {
              serverLineReceived := true;
              lineServer := lineServer[..idx];
            }
          }
          serverToClient := serverToClient + b;
          fromServer := fromServer + b;
        }
      }
    }

    /** The loop body: read from both sides, then send to both sides. */
    method OneRound(r: Round)
      requires Enabled(Snapshot(), log, r)
      modifies this
      ensures Snapshot() == Step(old(Snapshot()), log, r)
      ensures clientClosed <==> old(clientClosed) || r.fromClient == Data("")
      ensures serverClosed <==> old(serverClosed) || r.fromServer == Data("")
      ensures toServer + clientToServer == old(toServer + clientToServer) + Arrived(r.fromClient)
      ensures toClient + serverToClient == old(toClient + serverToClient) + Arrived(r.fromServer)
      ensures |toServer| == |old(toServer)| + r.toServer && |toClient| == |old(toClient)| + r.toClient
    {
      PipeRound(Snapshot().up, log, r.fromClient, r.toServer);
      PipeRound(Snapshot().down, log, r.fromServer, r.toClient);
      hide Receive;
      ReadClient(r.fromClient);
      ReadServer(r.fromServer);
      toServer := toServer + clientToServer[..r.toServer];
      clientToServer := clientToServer[r.toServer..];
      toClient := toClient + serverToClient[..r.toClient];
      serverToClient := serverToClient[r.toClient..];
    }

    /** The loop, driven by an environment that answers legally as long as the loop asks. */
    method Loop(rounds: seq<Round>) returns (n: nat)
      requires Snapshot() == INITIAL
      requires forall k | 0 <= k < |rounds| ::
                 Run(INITIAL, log, rounds[..k]) && Running(After(INITIAL, log, rounds[..k])) ==>
                   Enabled(After(INITIAL, log, rounds[..k]), log, rounds[k])
      modifies this
      ensures n <= |rounds| && Run(INITIAL, log, rounds[..n]) && Snapshot() == After(INITIAL, log, rounds[..n])
      ensures n < |rounds| ==> !Running(Snapshot())
    {
      hide Run, After, Step, Enabled;
      n := 0;
      RunNone(INITIAL, log);
      assert rounds[..0] == [];
      while n < |rounds| &&
            (clientToServer != "" || serverToClient != "" || (!clientClosed && !serverClosed))
        invariant n <= |rounds| && Run(INITIAL, log, rounds[..n])
        invariant Snapshot() == After(INITIAL, log, rounds[..n])
      {
        RunSnoc(INITIAL, log, rounds[..n], rounds[n]);
        assert rounds[..n] + [rounds[n]] == rounds[..n + 1];
        OneRound(rounds[n]);
        n := n + 1;
      }
    }
  }

  lemma RunNone(s: State, log: bool)
    ensures Run(s, log, []) && After(s, log, []) == s
  {
  }

  lemma {:induction false} RunSnoc(s: State, log: bool, rounds: seq<Round>, r: Round)
    requires Run(s, log, rounds)
    requires Running(After(s, log, rounds)) && Enabled(After(s, log, rounds), log, r)
    ensures Run(s, log, rounds + [r]) && After(s, log, rounds + [r]) == Step(After(s, log, rounds), log, r)
    decreases |rounds|
  {
    hide Running, Step, Enabled;
    if rounds == [] {
      assert rounds + [r] == [r];
    } else {
      assert (rounds + [r])[1..] == rounds[1..] + [r];
      RunSnoc(Step(s, log, rounds[0]), log, rounds[1..], r);
    }
  }
}
