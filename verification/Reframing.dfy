/**
 The proxy's message forwarding: `HttpUrl.parse` (proxy/httpparse.py), the header rules of `handle_http`
 and the response printer (proxy/proxy.py), and the request printer (proxy/siip_requests.py).
 */
module Reframing {
  import opened Wrappers
  import opened Text
  import opened Headers
  import opened Sockets
  import opened HttpSpec
  import opened HttpLaws
  import opened HttpMessages
  import opened BodyCuts

  // ----- URLs -----

  datatype HttpUrl = HttpUrl(protocol: string, host: string, port: nat, uri: string)

  /** [protocol://]host[:port][/uri]; None where the source raises ValueError. */
  function ParseUrl(s: string): Option<HttpUrl> {
    var k := Find(s, "://");
    var protocol := if k >= 0 then Lower(s[..k]) else "https";
    ParseTail(protocol, if k >= 0 then s[k + 3..] else s)
  }

  function ParseTail(protocol: string, tail: string): Option<HttpUrl> {
    var j := Find(tail, "/");
    if j >= 0 then ParseHost(protocol, tail[..j], "/" + tail[j + 1..]) else ParseHost(protocol, tail, "/")
  }

  function ParseHost(protocol: string, host: string, uri: string): Option<HttpUrl> {
    if ':' in host then
      var parts := Split(host, ':');
      if |parts| == 2 && ParseNat(parts[1], 10).Some?
      then Some(HttpUrl(protocol, Lower(parts[0]), ParseNat(parts[1], 10).value, uri))
      else None
    else Some(HttpUrl(protocol, Lower(host), if protocol == "https" then 443 else 80, uri))
  }

  lemma LowerFree(s: string)
    requires Free(s, CRLF)
    ensures Free(Lower(s), CRLF)
  {
    PairOccurs(s, CRLF);
    PairOccurs(Lower(s), CRLF);
    forall i | 0 <= i < |s|
      ensures Lower(s)[i] == '\r' ==> s[i] == '\r'
      ensures Lower(s)[i] == '\n' ==> s[i] == '\n'
    {
    }
  }

  ghost predicate Printable(u: HttpUrl) {
    Free(u.host, CRLF) && Free(u.uri, CRLF) && ' ' !in u.uri && |u.uri| > 0 && u.uri[0] == '/'
  }

  /** The host and uri of a URL that came out of a request line can be printed into one again. */
  lemma UrlPrintable(s: string)
    requires ParseUrl(s).Some? && Free(s, CRLF) && ' ' !in s
    ensures Printable(ParseUrl(s).value)
  {
    hide Lower, Find, ParseTail, Printable;
    var k := Find(s, "://");
    if k >= 0 {
      FreeSlice(s, CRLF, k + 3, |s|);
      assert s[k + 3..|s|] == s[k + 3..];
      TailPrintable(Lower(s[..k]), s[k + 3..]);
    } else {
      TailPrintable("https", s);
    }
  }

  lemma TailPrintable(protocol: string, tail: string)
    requires ParseTail(protocol, tail).Some? && Free(tail, CRLF) && ' ' !in tail
    ensures Printable(ParseTail(protocol, tail).value)
  {
    hide Find, ParseHost;
    var j := Find(tail, "/");
    if j >= 0 {
      FreeSlice(tail, CRLF, 0, j);
      FreeSlice(tail, CRLF, j + 1, |tail|);
      assert tail[0..j] == tail[..j] && tail[j + 1..|tail|] == tail[j + 1..];
      SlashFree(tail[j + 1..]);
      HostPrintable(protocol, tail[..j], "/" + tail[j + 1..]);
    } else {
      PairOccurs("/", CRLF);
      HostPrintable(protocol, tail, "/");
    }
  }

  lemma HostPrintable(protocol: string, host: string, uri: string)
    requires Free(host, CRLF) && ParseHost(protocol, host, uri).Some?
    ensures ParseHost(protocol, host, uri).value.uri == uri
    ensures Free(ParseHost(protocol, host, uri).value.host, CRLF)
  {
    hide Lower, Split, ParseNat, Free;
    LowerFree(host);
    HostPart(host);
    LowerFree(Split(host, ':')[0]);
  }

  lemma SlashFree(t: string)
    requires Free(t, CRLF)
    ensures Free("/" + t, CRLF)
  {
    PairOccurs(t, CRLF);
    PairOccurs("/" + t, CRLF);
  }

  lemma HostPart(host: string)
    requires Free(host, CRLF)
    ensures Free(Split(host, ':')[0], CRLF)
  {
    hide Find;
    var k := Find(host, ":");
    if k >= 0 {
      FreeSlice(host, CRLF, 0, k);
      assert host[0..k] == host[..k];
    }
  }

  /** host[:port] */
  function Authority(host: string, port: Option<nat>): string {
    if port.Some? then host + ":" + PrintNat(port.value, 10) else host
  }

  lemma AuthorityPlain(host: string, port: Option<nat>)
    requires '/' !in host
    ensures '/' !in Authority(host, port)
  {
    hide PrintNat;
    if port.Some? {
      PortPlain(port.value);
    }
  }

  lemma HostAndPort(protocol: string, host: string, port: Option<nat>, uri: string)
    requires ':' !in host
    ensures ParseHost(protocol, Authority(host, port), uri) ==
            Some(HttpUrl(protocol, Lower(host),
                         if port.Some? then port.value else if protocol == "https" then 443 else 80, uri))
  {
    hide Lower, PrintNat, ParseNat, Split;
    if port.Some? {
      var digits := PrintNat(port.value, 10);
      PortPlain(port.value);
      ParsePrint(port.value, 10);
      SplitCons(host, ':', digits);
      SplitUnfold(digits, ':');
      assert Authority(host, port)[|host|] == ':';
    }
  }

  lemma TailParts(protocol: string, authority: string, uri: Option<string>)
    requires '/' !in authority && (uri.Some? ==> |uri.value| > 0 && uri.value[0] == '/')
    ensures ParseTail(protocol, if uri.Some? then authority + uri.value else authority) ==
            ParseHost(protocol, authority, if uri.Some? then uri.value else "/")
  {
    hide Find, ParseHost;
    if uri.Some? {
      var tail, t := authority + uri.value, uri.value[1..];
      FindOne(authority, '/', t);
      assert uri.value == ['/'] + t == "/" + t;
      assert tail == authority + ['/'] + t;
      assert tail[..|authority|] == authority && tail[|authority| + 1..] == t;
    } else {
      FindNone(authority, '/');
    }
  }

  lemma ProtocolPart(protocol: string, tail: string)
    requires ':' !in protocol
    ensures ParseUrl(protocol + "://" + tail) == ParseTail(Lower(protocol), tail)
  {
    hide Find, ParseTail, Lower;
    var s := protocol + "://" + tail;
    ProtocolEnd(protocol, tail);
    assert s[..|protocol|] == protocol && s[|protocol| + 3..] == tail;
  }

  lemma TailProtocol(protocol: string, tail: string)
    requires ParseTail(protocol, tail).Some?
    ensures ParseTail(protocol, tail).value.protocol == protocol
  {
    hide Find, Lower, Split, ParseNat;
  }

  /** A "://" in host, port and uri is one in the uri. */
  lemma OnlyInUri(host: string, port: Option<nat>, rest: string, i: int)
    requires ':' !in host && '/' !in host
    ensures var authority := Authority(host, port);
            Occurs(authority + rest, "://", i) <==> |authority| <= i && Occurs(rest, "://", i - |authority|)
  {
    hide PrintNat;
    var authority := Authority(host, port);
    var text := authority + rest;
    hide Authority;
    if Occurs(text, "://", i) {
      assert text[i] == text[i..i + 3][0] && text[i + 1] == text[i..i + 3][1];
      ColonThenSlash(host, port, rest, i);
    }
    if |authority| <= i {
      OccursInSuffix(authority, rest, "://", i);
    }
  }

  /** A slash before the first "://" is taken into the protocol. */
  lemma SlashProtocol(text: string, j: nat)
    requires j < Find(text, "://") && text[j] == '/' && ParseUrl(text).Some?
    ensures ParseUrl(text).value.protocol != "https"
  {
    hide ParseTail, Find, Lower;
    var k := Find(text, "://");
    TailProtocol(Lower(text[..k]), text[k + 3..]);
    assert Lower(text[..k])[j] == '/';
    assert '/' !in "https";
  }

  /** Without a protocol, a "://" in the text is one in the uri, and then what is before it, slash included, is taken
      for the protocol. */
  lemma NoProtocol(host: string, port: Option<nat>, uri: Option<string>)
    requires ':' !in host && '/' !in host && (uri.Some? ==> |uri.value| > 0 && uri.value[0] == '/')
    ensures var text := Authority(host, port) + (if uri.Some? then uri.value else "");
            if uri.None? || Free(uri.value, "://") then ParseUrl(text) == ParseTail("https", text)
            else ParseUrl(text).Some? ==> ParseUrl(text).value.protocol != "https"
  {
    hide ParseTail, Authority, Find, Lower, ParseUrl;
    if uri.None? {
      EmptyFree();
      NoneInText(host, port, "");
    } else if Free(uri.value, "://") {
      NoneInText(host, port, uri.value);
    } else {
      TakenForProtocol(host, port, uri.value);
    }
  }

  lemma NoneInText(host: string, port: Option<nat>, rest: string)
    requires ':' !in host && '/' !in host && Free(rest, "://")
    ensures ParseUrl(Authority(host, port) + rest) == ParseTail("https", Authority(host, port) + rest)
  {
    hide ParseTail, Authority, Find, Lower;
    OnlyInUri(host, port, rest, Find(Authority(host, port) + rest, "://"));
  }

  lemma TakenForProtocol(host: string, port: Option<nat>, uri: string)
    requires ':' !in host && '/' !in host && uri != "" && uri[0] == '/' && !Free(uri, "://")
    ensures var r := ParseUrl(Authority(host, port) + uri); r.Some? ==> r.value.protocol != "https"
  {
    hide ParseTail, Authority, Find, Lower, ParseUrl;
    var authority := Authority(host, port);
    var text := authority + uri;
    var j :| Occurs(uri, "://", j);
    OnlyInUri(host, port, uri, |authority| + j);
    var k := Find(text, "://");
    assert k >= 0 && Occurs(text, "://", k);
    OnlyInUri(host, port, uri, k);
    ColonFirst(uri, k - |authority|);
    if ParseUrl(text).Some? {
      SlashProtocol(text, |authority|);
    }
  }

  lemma EmptyFree()
    ensures Free("", "://")
  {
  }

  lemma ColonFirst(s: string, i: int)
    requires Occurs(s, "://", i)
    ensures s[i] == ':'
  {
    assert s[i] == s[i..i + 3][0];
  }

  lemma ColonThenSlash(host: string, port: Option<nat>, rest: string, i: nat)
    requires ':' !in host && '/' !in host
    requires var text := Authority(host, port) + rest; i + 1 < |text| && text[i] == ':' && text[i + 1] == '/'
    ensures |Authority(host, port)| <= i
  {
    hide PrintNat;
    if port.Some? {
      var digits := PrintNat(port.value, 10);
      PortPlain(port.value);
      var text := host + ":" + digits + rest;
      assert text[|host| + 1] == digits[0];
      forall j | 0 <= j < |host + ":" + digits| && j != |host|
        ensures text[j] != ':'
      {
      }
    }
  }

  /** A URL assembled from its parts, with or without protocol, port and uri, parses to them, the defaults being
      https, the protocol's port and "/"; without a protocol, if and only if the uri does not contain "://". */
  lemma UrlRoundTrip(protocol: Option<string>, host: string, port: Option<nat>, uri: Option<string>)
    requires protocol.Some? ==> ':' !in protocol.value
    requires ':' !in host && '/' !in host && (uri.Some? ==> |uri.value| > 0 && uri.value[0] == '/')
    ensures var tail := Authority(host, port) + (if uri.Some? then uri.value else "");
            var known := if protocol.Some? then Lower(protocol.value) else "https";
            ParseUrl(if protocol.Some? then protocol.value + "://" + tail else tail) ==
            Some(HttpUrl(known, Lower(host),
                         if port.Some? then port.value else if known == "https" then 443 else 80,
                         if uri.Some? then uri.value else "/")) <==>
            protocol.Some? || uri.None? || Free(uri.value, "://")
  {
    hide ParseUrl, ParseTail, ParseHost, Authority, Lower;
    var authority := Authority(host, port);
    var known := if protocol.Some? then Lower(protocol.value) else "https";
    var tail := authority + (if uri.Some? then uri.value else "");
    assert authority + "" == authority;
    AuthorityPlain(host, port);
    TailParts(known, authority, uri);
    HostAndPort(known, host, port, if uri.Some? then uri.value else "/");
    if protocol.Some? {
      ProtocolPart(protocol.value, tail);
    } else {
      NoProtocol(host, port, uri);
    }
  }

  /** Which URLs are refused: those whose host part has a colon but is not a host, one colon and a numeral. */
  lemma UrlRefused(protocol: string, authority: string, uri: Option<string>)
    requires ':' !in protocol && '/' !in authority && (uri.Some? ==> |uri.value| > 0 && uri.value[0] == '/')
    ensures ParseUrl(protocol + "://" + (if uri.Some? then authority + uri.value else authority)).None? <==>
            ':' in authority &&
            !exists k | 0 <= k < |authority| ::
              authority[k] == ':' && ':' !in authority[..k] && ParseNat(authority[k + 1..], 10).Some?
  {
    hide ParseUrl, ParseTail, ParseHost, Lower, ParseNat;
    ProtocolPart(protocol, if uri.Some? then authority + uri.value else authority);
    TailParts(Lower(protocol), authority, uri);
    HostRefused(Lower(protocol), authority, if uri.Some? then uri.value else "/");
  }

  lemma HostRefused(protocol: string, authority: string, uri: string)
    ensures ParseHost(protocol, authority, uri).None? <==>
            ':' in authority &&
            !exists k | 0 <= k < |authority| ::
              authority[k] == ':' && ':' !in authority[..k] && ParseNat(authority[k + 1..], 10).Some?
  {
    hide Split, ParseNat, Lower;
    if ':' in authority {
      var n := HostParts(authority);
      forall k | 0 <= k < |authority| && authority[k] == ':' && ':' !in authority[..k]
        ensures k == n
      {
        FirstColon(authority, n, k);
      }
    }
  }

  lemma HostParts(authority: string) returns (n: nat)
    requires ':' in authority
    ensures n < |authority| && authority[n] == ':' && ':' !in authority[..n]
    ensures var parts := Split(authority, ':');
            if ParseNat(authority[n + 1..], 10).Some? then |parts| == 2 && parts[1] == authority[n + 1..]
            else |parts| == 2 ==> ParseNat(parts[1], 10).None?
  {
    hide Split, ParseNat, Find;
    SplitUnfold(authority, ':');
    FirstSeparator(authority, ':');
    n := Find(authority, ":");
    var port := authority[n + 1..];
    SplitUnfold(port, ':');
    if ':' in port {
      PortDigits(port);
      SplitCount(port, ':');
      CountMember(port, ':');
    }
  }

  lemma FirstColon(s: string, n: nat, k: nat)
    requires n < |s| && k < |s| && s[n] == s[k] == ':' && ':' !in s[..n] && ':' !in s[..k]
    ensures n == k
  {
    assert forall j | 0 <= j < k :: s[..k][j] == s[j];
    assert forall j | 0 <= j < n :: s[..n][j] == s[j];
  }

  lemma PortDigits(port: string)
    requires ':' in port
    ensures ParseNat(port, 10).None?
  {
    var k :| 0 <= k < |port| && port[k] == ':';
    assert !IsDigit(port[k], 10);
  }

  /** A URL in the query of a URL without protocol hides the host. */
  lemma UrlInQuery()
    ensures ParseUrl("a" + "/?u=b://c") != Some(HttpUrl("https", "a", 443, "/?u=b://c"))
  {
    hide ParseUrl;
    UrlRoundTrip(None, "a", None, Some("/?u=b://c"));
    assert Lower("a") == "a";
    assert "/?u=b://c"[5..8] == "://";
    assert Occurs("/?u=b://c", "://", 5);
  }

  lemma PortPlain(n: nat)
    ensures '/' !in PrintNat(n, 10) && ':' !in PrintNat(n, 10) && ' ' !in PrintNat(n, 10)
    ensures Free(PrintNat(n, 10), CRLF)
  {
    hide PrintNat;
    var s := PrintNat(n, 10);
    forall c | c in s
      ensures c != '/' && c != ':' && c != ' '
    {
      assert IsDigit(c, 10);
    }
    assert AllDigits(s, 16) by {
      assert forall i | 0 <= i < |s| :: IsDigit(s[i], 10);
    }
    DigitsPlain(s, CRLF);
  }

  lemma ProtocolEnd(protocol: string, tail: string)
    requires ':' !in protocol
    ensures Find(protocol + "://" + tail, "://") == |protocol|
  {
    var s := protocol + "://" + tail;
    hide Find;
    assert s[|protocol|..|protocol| + 3] == "://";
    assert Occurs(s, "://", |protocol|);
    forall i | 0 <= i < |protocol|
      ensures !Occurs(s, "://", i)
    {
      assert s[i] == protocol[i] && s[i..i + 3][0] == s[i];
    }
  }

  // ----- header forwarding -----

  const HOP_BY_HOP := ["Keep-Alive", "Transfer-Encoding", "TE", "Connection", "Trailer", "Upgrade",
                       "Proxy-Authorization", "Proxy-Authenticate"]

  function KeysNamed(tokens: seq<string>): seq<string> {
    if tokens == [] then [] else [Capitalize(Strip(tokens[0]))] + KeysNamed(tokens[1..])
  }

  /** The keys that the Connection header names. */
  function ConnectionKeys(h: Dict): seq<string> {
    match Get(h, "Connection")
    case Some(v) => KeysNamed(Split(v, ','))
    case None => []
  }

  function WithLength(h: Dict, host: string, body: Option<string>): Dict {
    var h' := Put(h, "Host", host);
    if body.Some? then Put(h', "Content-Length", PrintNat(|body.value|, 10)) else h'
  }

  function SetOf(keys: seq<string>): set<string> {
    set k | k in keys
  }

  /** The forwarded headers: Host and Content-Length set, hop-by-hop headers removed, order kept. */
  function Forward(h: Dict, host: string, body: Option<string>): Dict {
    Without(WithLength(h, host, body), SetOf(ConnectionKeys(h)) + SetOf(HOP_BY_HOP))
  }

  method PopAll(h: Dict, keys: seq<string>) returns (r: Dict)
    ensures r == Without(h, SetOf(keys))
  {
    r := h;
    WithoutNone(h);
    assert SetOf(keys[..0]) == {};
    var i := 0;
    while i < |keys|
      invariant 0 <= i <= |keys|
      invariant r == Without(h, SetOf(keys[..i]))
    {
      WithoutTwice(h, SetOf(keys[..i]), {keys[i]});
      assert SetOf(keys[..i]) + {keys[i]} == SetOf(keys[..i + 1]);
      r := Pop(r, keys[i]);
      i := i + 1;
    }
    assert keys[..i] == keys;
  }

  /** The header rules of `handle_http`, step by step. */
  method ForwardHeaders(h: Dict, host: string, body: Option<string>) returns (forwarded: Dict)
    ensures forwarded == Forward(h, host, body)
  {
    forwarded := Put(h, "Host", host);
    if body.Some? {
      forwarded := Put(forwarded, "Content-Length", PrintNat(|body.value|, 10));
    }
    WithoutTwice(forwarded, SetOf(ConnectionKeys(h)), SetOf(HOP_BY_HOP));
    forwarded := PopAll(forwarded, ConnectionKeys(h));
    forwarded := PopAll(forwarded, HOP_BY_HOP);
  }

  /** The forwarded headers key by key: a key is dropped exactly when the Connection header or the
      hop-by-hop list names it; Host and Content-Length are set; every other value is intact. */
  lemma ForwardGet(h: Dict, host: string, body: Option<string>, k: string)
    ensures Get(Forward(h, host, body), k) ==
            if k in ConnectionKeys(h) ||
               k in ["Keep-Alive", "Transfer-Encoding", "TE", "Connection", "Trailer", "Upgrade",
                     "Proxy-Authorization", "Proxy-Authenticate"] then None
            else if k == "Content-Length" && body.Some? then Some(PrintNat(|body.value|, 10))
            else if k == "Host" then Some(host)
            else Get(h, k)
  {
    hide Get, Put, Without, PrintNat, ConnectionKeys;
    GetWithout(WithLength(h, host, body), SetOf(ConnectionKeys(h)) + SetOf(HOP_BY_HOP), k);
    GetPut(h, "Host", host, k);
    if body.Some? {
      GetPut(Put(h, "Host", host), "Content-Length", PrintNat(|body.value|, 10), k);
    }
  }

  lemma CanonicalName(k: string)
    requires forall i | 0 <= i < |k| :: CapitalizedChar(k, i) == k[i]
    ensures Capitalize(k) == k
  {
    CapitalizeAll(k);
  }

  lemma KnownNames()
    ensures Capitalize("Host") == "Host" && Capitalize("Content-Length") == "Content-Length"
    ensures forall k | k in HOP_BY_HOP && k != "TE" :: Capitalize(k) == k
    ensures Capitalize("TE") == "Te"
  {
    hide Capitalize;
    CanonicalName("Host");
    CanonicalName("Content-Length");
    LongNames();
    CanonicalName("Connection");
    CanonicalName("Trailer");
    CanonicalName("Upgrade");
    CapitalizeAll("TE");
  }

  lemma LongNames()
    ensures forall k | k in ["Keep-Alive", "Transfer-Encoding", "Proxy-Authorization", "Proxy-Authenticate"] ::
              Capitalize(k) == k
  {
    hide Capitalize;
    CanonicalName("Keep-Alive");
    CanonicalName("Transfer-Encoding");
    ProxyNames();
  }

  lemma ProxyNames()
    ensures Capitalize("Proxy-Authorization") == "Proxy-Authorization"
    ensures Capitalize("Proxy-Authenticate") == "Proxy-Authenticate"
  {
    hide Capitalize;
    CanonicalName("Proxy-Authorization");
    CanonicalName("Proxy-Authenticate");
  }

  lemma PlainField(k: string, v: string)
    requires Capitalize(k) == k && ' ' !in k && '\r' !in k && Free(v, CRLF)
    ensures FieldOk(Field(k, v))
  {
    PairOccurs(k, ": ");
    PairOccurs(k, CRLF);
  }

  lemma ForwardOk(h: Dict, host: string, body: Option<string>)
    requires DictOk(h) && Free(host, CRLF)
    ensures DictOk(Forward(h, host, body))
  {
    hide PrintNat, Capitalize, Free, FieldOk, Put, Without;
    KnownNames();
    PlainField("Host", host);
    PutOk(h, "Host", host);
    if body.Some? {
      PortPlain(|body.value|);
      PlainField("Content-Length", PrintNat(|body.value|, 10));
      PutOk(Put(h, "Host", host), "Content-Length", PrintNat(|body.value|, 10));
    }
    WithoutMembers(WithLength(h, host, body), SetOf(ConnectionKeys(h)) + SetOf(HOP_BY_HOP));
  }

  /** Hop-by-hop headers are removed (section 6.1 of RFC 7230) with one exception: the list says "TE" but
      parsed keys are capitalised to "Te", so of all spellings of all listed names exactly a TE
      header that Connection does not name is forwarded. */
  lemma HopByHopSurvivors(h: Dict, host: string, body: Option<string>, name: string)
    requires exists k :: k in HOP_BY_HOP && SameName(name, k)
    ensures Get(Forward(h, host, body), Capitalize(name)).Some? <==>
            SameName(name, "TE") && Get(h, "Te").Some? && "Te" !in ConnectionKeys(h)
  {
    hide Get, Capitalize, ConnectionKeys, Forward;
    var k :| k in HOP_BY_HOP && SameName(name, k);
    KnownNames();
    CapitalizeMeaning(name, k);
    CapitalizeMeaning(name, "TE");
    ForwardGet(h, host, body, Capitalize(name));
  }

  /** A concrete request header that the list means to drop and the proxy forwards. */
  lemma TeIsForwarded()
    ensures Get(Forward([Field("Te", "trailers")], "a", None), "Te") == Some("trailers")
  {
    ForwardGet([Field("Te", "trailers")], "a", None, "Te");
    assert Get([Field("Te", "trailers")], "Connection").None? by {
      GetMember([Field("Te", "trailers")], "Connection");
    }
  }

  // ----- requests: parse, filter, print, parse -----

  /** The request the proxy sends on. */
  function Forwarded(m: Message, url: HttpUrl, body: Option<string>): Message {
    Message(m.first, url.uri, m.third, Forward(m.headers, url.host, body))
  }

  function Payload(body: Option<string>): string {
    if body.Some? then body.value else ""
  }

  lemma WholeBody(s: string)
    ensures BodyOf(Counted(|s|), s) == Body(BodyOk, Some(s), "")
  {
    assert s[..|s|] == s;
  }

  /** The headers that frame the forwarded body. */
  lemma ForwardedFraming(m: Message, url: HttpUrl, body: Option<string>)
    requires body.None? ==> RequestFraming(m.headers).NoBody?
    ensures RequestFraming(Forwarded(m, url, body).headers) ==
            if body.None? || "Content-Length" in ConnectionKeys(m.headers) then NoBody else Counted(|body.value|)
  {
    hide Get, PrintNat, ParseNat, ConnectionKeys, Forward, Lower;
    ForwardGet(m.headers, url.host, body, "Transfer-Encoding");
    ForwardGet(m.headers, url.host, body, "Content-Length");
    if body.Some? {
      ParsePrint(|body.value|, 10);
    }
  }

  /** Re-framing preserves meaning. For every stream with a request whose URL parses, and the body read from it,
      the bytes the proxy sends parse to the same method and version, the uri of the URL and exactly the
      forwarded headers; and the body of those bytes is the body that was read, with nothing left over,
      if and only if there is none or the Connection header does not name Content-Length. */
  lemma RequestReframing(s: string, m: Message, url: HttpUrl, body: Option<string>)
    requires ParseHead(RequestHead, s).outcome == Success(m) && ParseUrl(m.second) == Some(url)
    requires body.None? <==> RequestFraming(m.headers).NoBody?
    ensures var fm := Forwarded(m, url, body);
            ParseHead(RequestHead, Print(fm, body)) == Head(Success(fm), Payload(body)) &&
            fm == Message(m.first, url.uri, m.third, Forward(m.headers, url.host, body)) &&
            (BodyOf(RequestFraming(fm.headers), Payload(body)) == Body(BodyOk, body, "") <==>
             body.None? || "Content-Length" !in ConnectionKeys(m.headers))
  {
    hide ParseHead, ParseUrl, RequestFraming, Forward, ConnectionKeys, Free;
    WholeBody(Payload(body));
    HeadShape(RequestHead, s);
    UrlPrintable(m.second);
    ForwardOk(m.headers, url.host, body);
    var fm := Forwarded(m, url, body);
    ParsePrinted(RequestHead, fm, Payload(body));
    assert Print(fm, body) == Print(fm, Some(Payload(body)));
    ForwardedFraming(m, url, body);
  }

  /** A concrete request whose body loses its framing: its Connection header names Content-Length. */
  lemma LengthCanBeDropped()
    ensures var h := [Field("Connection", "Content-Length"), Field("Content-Length", "1")];
            var m := Message("POST", "http://a/", "HTTP/1.1", h);
            RequestFraming(h) == Counted(1) &&
            RequestFraming(Forwarded(m, HttpUrl("http", "a", 80, "/"), Some("x")).headers) == NoBody
  {
    var h := [Field("Connection", "Content-Length"), Field("Content-Length", "1")];
    NamesLength(h[1..]);
    TwoFields("Connection", "Content-Length", "Content-Length", "1", "Transfer-Encoding");
    TwoFields("Connection", "Content-Length", "Content-Length", "1", "Content-Length");
    assert ParseNat("1", 10) == Some(1) by {
      assert "1"[1..] == "";
      assert Value(0, "1", 10) == Value(1, "", 10);
    }
    ForwardedFraming(Message("POST", "http://a/", "HTTP/1.1", h), HttpUrl("http", "a", 80, "/"), Some("x"));
  }

  lemma NamesLength(t: Dict)
    ensures "Content-Length" in ConnectionKeys([Field("Connection", "Content-Length")] + t)
  {
    hide Capitalize, Split;
    KnownNames();
    var one := ["Content-Length"];
    assert Join(one, ",") == "Content-Length";
    SplitJoin(one, ',');
    assert Strip("Content-Length") == "Content-Length";
    assert KeysNamed(one) == [Capitalize(Strip(one[0]))] + KeysNamed(one[1..]) == one;
    var h := [Field("Connection", "Content-Length")] + t;
    assert Get(h, "Connection") == Some("Content-Length");
    assert ConnectionKeys(h) == one && one[0] == "Content-Length";
  }

  lemma TwoFields(k: string, v: string, k': string, v': string, q: string)
    ensures Get([Field(k, v), Field(k', v')], q) == if q == k then Some(v) else if q == k' then Some(v') else None
  {
    var last := [Field(k', v')];
    assert last[1..] == [];
    assert Get(last, q) == if q == k' then Some(v') else None;
    assert [Field(k, v), Field(k', v')][1..] == last;
  }

  /** End to end, for whatever body was read, from whatever cut: however the forwarded bytes are cut, a reader of
      them gets exactly that body and nothing is left over, if and only if there is none or the Connection header
      does not name Content-Length. */
  lemma RequestBodyPreserved(s: string, m: Message, url: HttpUrl, cut: seq<string>, again: seq<string>)
    requires ParseHead(RequestHead, s).outcome == Success(m) && ParseUrl(m.second) == Some(url)
    requires ReadPieces(RequestFraming(m.headers), cut).status == BodyOk
    requires var body := ReadPieces(RequestFraming(m.headers), cut).body;
             Cut(again, ParseHead(RequestHead, Print(Forwarded(m, url, body), body)).rest)
    ensures var body := ReadPieces(RequestFraming(m.headers), cut).body;
            ReadPieces(RequestFraming(Forwarded(m, url, body).headers), again) == Read(BodyOk, body, []) <==>
            body.None? || "Content-Length" !in ConnectionKeys(m.headers)
  {
    hide ParseHead, ParseUrl, Forwarded, RequestFraming, ConnectionKeys, ReadPieces, BodyOf, Cut, Print;
    BodyReadPresent(RequestFraming(m.headers), cut);
    var body := ReadPieces(RequestFraming(m.headers), cut).body;
    RequestReframing(s, m, url, body);
    var f := RequestFraming(Forwarded(m, url, body).headers);
    ForwardedFraming(m, url, body);
    if body.None? || "Content-Length" !in ConnectionKeys(m.headers) {
      LastMessage(f, again, Payload(body));
    } else {
      BodyReadPresent(f, again);
    }
  }

  // ----- responses -----

  /** `handle_http` drops Transfer-Encoding from a reply and sets its Content-Length. */
  function ReplyHeaders(h: Dict, body: Option<string>): Dict {
    Put(Pop(h, "Transfer-Encoding"), "Content-Length", PrintNat(|Payload(body)|, 10))
  }

  /** A reply carries the length of its body, no transfer coding, and every other header as the server sent it. */
  lemma ReplyGet(h: Dict, body: Option<string>, k: string)
    ensures Get(ReplyHeaders(h, body), k) ==
            if k == "Content-Length" then Some(PrintNat(|Payload(body)|, 10))
            else if k == "Transfer-Encoding" then None
            else Get(h, k)
  {
    hide Get, Put, Without, PrintNat;
    GetPut(Pop(h, "Transfer-Encoding"), "Content-Length", PrintNat(|Payload(body)|, 10), k);
    GetWithout(h, {"Transfer-Encoding"}, k);
  }

  function Reply(m: Message, code: nat, body: Option<string>): Message {
    Message(m.first, PrintNat(code, 10), m.third, ReplyHeaders(m.headers, body))
  }

  lemma ReplyOk(m: Message, code: nat, body: Option<string>)
    requires MessageOk(m)
    ensures MessageOk(Reply(m, code, body)) && ParseNat(PrintNat(code, 10), 10) == Some(code)
    ensures ResponseFraming(code, ReplyHeaders(m.headers, body)) ==
            if BodilessStatus(code) then NoBody else Counted(|Payload(body)|)
  {
    hide PrintNat, ParseNat, Capitalize, Free, FieldOk, Put, Without, Get, Lower;
    var digits := PrintNat(|Payload(body)|, 10);
    var h := Pop(m.headers, "Transfer-Encoding");
    PortPlain(code);
    ParsePrint(code, 10);
    PortPlain(|Payload(body)|);
    ParsePrint(|Payload(body)|, 10);
    KnownNames();
    WithoutMembers(m.headers, {"Transfer-Encoding"});
    PlainField("Content-Length", digits);
    PutOk(h, "Content-Length", digits);
    GetPut(h, "Content-Length", digits, "Transfer-Encoding");
    GetPut(h, "Content-Length", digits, "Content-Length");
    GetWithout(m.headers, {"Transfer-Encoding"}, "Transfer-Encoding");
  }

  /** Whatever framing the server used (none, counted, chunked), the reply the proxy prints parses to the same
      version, status code and reason, and its body is the body that was read, with nothing left over. */
  lemma ResponseReframing(s: string, m: Message, code: nat, body: Option<string>)
    requires ParseHead(ResponseHead, s).outcome == Success(m) && ParseNat(m.second, 10) == Some(code)
    requires body.None? <==> BodilessStatus(code)
    ensures var reply := Reply(m, code, body);
            ParseHead(ResponseHead, Print(reply, body)) == Head(Success(reply), Payload(body)) &&
            ParseNat(reply.second, 10) == Some(code) &&
            BodyOf(ResponseFraming(code, reply.headers), Payload(body)) == Body(BodyOk, body, "")
  {
    hide ParseHead, ResponseFraming, ReplyHeaders, PrintNat, ParseNat;
    WholeBody(Payload(body));
    HeadShape(ResponseHead, s);
    ReplyOk(m, code, body);
    var reply := Reply(m, code, body);
    ParsePrinted(ResponseHead, reply, Payload(body));
    assert Print(reply, body) == Print(reply, Some(Payload(body)));
  }

  /** End to end for a reply: whatever body was read from the server, from whatever cut, a client that reads the
      printed reply, however cut, gets exactly that body and nothing is left over. */
  lemma ReplyBodyPreserved(s: string, m: Message, code: nat, cut: seq<string>, again: seq<string>)
    requires ParseHead(ResponseHead, s).outcome == Success(m) && ParseNat(m.second, 10) == Some(code)
    requires var body := ReadPieces(ResponseFraming(code, m.headers), cut).body;
             Cut(again, ParseHead(ResponseHead, Print(Reply(m, code, body), body)).rest)
    ensures var body := ReadPieces(ResponseFraming(code, m.headers), cut).body;
            ReadPieces(ResponseFraming(code, Reply(m, code, body).headers), again) == Read(BodyOk, body, [])
  {
    BodyReadPresent(ResponseFraming(code, m.headers), cut);
    FramingPresent(code, m.headers);
    hide ParseHead, ResponseFraming, Reply, ReadPieces, BodyOf, Cut, Print, ParseNat;
    var body := ReadPieces(ResponseFraming(code, m.headers), cut).body;
    ResponseReframing(s, m, code, body);
    LastMessage(ResponseFraming(code, Reply(m, code, body).headers), again, Payload(body));
  }

  lemma FramingPresent(code: nat, h: Dict)
    ensures ResponseFraming(code, h).NoBody? <==> BodilessStatus(code)
  {
  }

  /** The request parser reads the head of a reply as the response parser does, but it frames the body the same way
      if and only if the status forbids a body exactly when no header announces one. */
  lemma RequestParserOnReply(s: string, m: Message, code: nat)
    requires ParseHead(ResponseHead, s).outcome == Success(m) && ParseNat(m.second, 10) == Some(code)
    ensures ParseHead(RequestHead, s) == ParseHead(ResponseHead, s)
    ensures RequestFraming(m.headers) == ResponseFraming(code, m.headers) <==>
            (BodilessStatus(code) <==> RequestFraming(m.headers) == NoBody)
  {
    hide Find, SplitLine, HeaderLines, ParseNat, Get, Lower;
    var n := Find(s, CRLF);
  }

  // ----- the printers and the handler, step by step -----

  lemma PrintSnoc(fs: Dict, f: Field)
    ensures PrintFields(fs + [f]) == PrintFields(fs) + (f.name + ": " + f.value + CRLF)
  {
    if fs == [] {
      assert fs + [f] == [f];
    } else {
      assert (fs + [f])[1..] == fs[1..] + [f];
      PrintSnoc(fs[1..], f);
    }
  }

  lemma PrintNone()
    ensures PrintFields([]) == ""
  {
  }

  /** `request` and `send_response`: first line, one header at a time, blank line, body. */
  method SendMessage(sock: Socket, m: Message, content: Option<string>)
    modifies sock`sent
    ensures sock.sent == old(sock.sent) + Print(m, content)
  {
    hide PrintFields;
    PrintNone();
    sock.SendAll(m.first + " " + m.second + " " + m.third + CRLF);
    var i := 0;
    ghost var line := sock.sent;
    while i < |m.headers|
      invariant 0 <= i <= |m.headers|
      invariant sock.sent == line + PrintFields(m.headers[..i])
    {
      PrintSnoc(m.headers[..i], m.headers[i]);
      assert m.headers[..i] + [m.headers[i]] == m.headers[..i + 1];
      sock.SendAll(m.headers[i].name + ": " + m.headers[i].value + CRLF);
      i := i + 1;
    }
    assert m.headers[..i] == m.headers;
    sock.SendAll(CRLF);
    if content.Some? {
      sock.SendAll(content.value);
    }
  }

  /** Forwards a request whose body has been read: nothing is sent when its URL does not parse. */
  method HandleHttp(request: HttpRequest, upstream: Socket) returns (ok: bool)
    modifies upstream`sent
    ensures ok <==> ParseUrl(request.url).Some?
    ensures ok ==> var url := ParseUrl(request.url).value;
                   upstream.sent == old(upstream.sent) +
                     Print(Message(request.verb, url.uri, request.version,
                                   Forward(request.headers, url.host, request.body)), request.body)
    ensures !ok ==> upstream.sent == old(upstream.sent)
  {
    hide ParseUrl, Forward, Print;
    var url := ParseUrl(request.url);
    if url.None? {
      return false;
    }
    var forwarded := ForwardHeaders(request.headers, url.value.host, request.body);
    SendMessage(upstream, Message(request.verb, url.value.uri, request.version, forwarded), request.body);
    return true;
  }

  datatype Handled = Nothing | Failed | Tunnel | SentOn(body: Option<string>)

  /** What becomes of a client's stream whose bytes after the head are received in the pieces `cut`. */
  function Handling(stream: string, cut: seq<string>): Handled {
    match ParseHead(RequestHead, stream).outcome
    case NoLine => Nothing
    case Closed | Malformed => Failed
    case Success(m) =>
      if m.first == "CONNECT" then Tunnel else
      var r := ReadPieces(RequestFraming(m.headers), cut);
      if r.status.BodyOk? && ParseUrl(m.second).Some? then SentOn(r.body) else Failed
  }

  /** What the upstream server then receives. */
  function SentUpstream(stream: string, cut: seq<string>): string {
    match (ParseHead(RequestHead, stream).outcome, Handling(stream, cut))
    case (Success(m), SentOn(body)) =>
      (match ParseUrl(m.second)
       case Some(url) => Print(Forwarded(m, url, body), body)
       case None => "")
    case _ => ""
  }

  /** `handle`, up to the answer: parse a request from the client, read its body, send it on. What the
      upstream server receives is the re-framed request of lemma `RequestReframing`. */
  method Handle(client: BufferedSocket, upstream: Socket) returns (result: Handled, ghost cut: seq<string>)
    requires client.Valid() && client.wrapped != upstream
    modifies client`recvBuffer, client.wrapped`arrivals, upstream`sent
    ensures var head := ParseHead(RequestHead, old(client.Remaining()));
            head.outcome.Success? ==> Cut(cut, head.rest)
    ensures result == Handling(old(client.Remaining()), cut)
    ensures upstream.sent == old(upstream.sent) + SentUpstream(old(client.Remaining()), cut)
  {
    hide ParseUrl, Forward, Print, ParseHead, RequestFraming, ReadPieces, ByStream, Cut;
    hide Results, Flatten;
    cut := [];
    var outcome, request := HttpRequest.ParseHeader(client);
    if outcome.NoLine? {
      return Nothing, cut;
    }
    if request == null {
      return Failed, cut;
    }
    PiecesCut(client);
    cut := client.Pieces();
    if request.verb == "CONNECT" {
      return Tunnel, cut;
    }
    var status := request.ParseBody(client);
    if !status.BodyOk? {
      return Failed, cut;
    }
    var ok := HandleHttp(request, upstream);
    return if ok then SentOn(request.body) else Failed, cut;
  }

  /** What the stream alone decides, for every cut: a message that is cut off or malformed is not sent on, and one
      that ends the stream, or has no body, or announces length zero, is sent on with its own body. */
  lemma HandlingByStream(stream: string, cut: seq<string>)
    requires ParseHead(RequestHead, stream).outcome.Success? && Cut(cut, ParseHead(RequestHead, stream).rest)
    requires ParseHead(RequestHead, stream).outcome.message.first != "CONNECT"
    requires ParseUrl(ParseHead(RequestHead, stream).outcome.message.second).Some?
    ensures var head := ParseHead(RequestHead, stream);
            var f := RequestFraming(head.outcome.message.headers);
            var b := BodyOf(f, head.rest);
            if !b.status.BodyOk? then Handling(stream, cut) == Failed
            else b.body.None? || b.rest == "" || f == Counted(0) ==> Handling(stream, cut) == SentOn(b.body)
  {
    hide ParseHead, ParseUrl, RequestFraming, ReadPieces, BodyOf, Cut;
    var head := ParseHead(RequestHead, stream);
    ForEveryCut(RequestFraming(head.outcome.message.headers), cut, head.rest);
  }

  /** What the client gets when the server's bytes after the head are received in the pieces `cut`; None when the
      reply is cut off in its head or malformed. An early close ends the body. */
  function ReplySent(stream: string, cut: seq<string>): Option<string> {
    match ParseHead(ResponseHead, stream).outcome
    case Success(m) =>
      (match ParseNat(m.second, 10)
       case Some(code) =>
         var r := ReadPieces(ResponseFraming(code, m.headers), cut);
         if r.status.BodyMalformed? then None else Some(Print(Reply(m, code, r.body), r.body))
       case None => None)
    case _ => None
  }

  /** The answer: read the server's reply, re-frame it, send it to the client. */
  method HandleReply(server: BufferedSocket, client: Socket) returns (ok: bool, ghost cut: seq<string>)
    requires server.Valid() && server.wrapped != client
    modifies server`recvBuffer, server.wrapped`arrivals, client`sent
    ensures var head := ParseHead(ResponseHead, old(server.Remaining()));
            head.outcome.Success? ==> Cut(cut, head.rest)
    ensures var reply := ReplySent(old(server.Remaining()), cut);
            (ok <==> reply.Some?) && client.sent == old(client.sent) + if ok then reply.value else ""
  {
    hide Print, ParseHead, ResponseFraming, ReadPieces, ByStream, BodyOf, Cut, PrintNat, ParseNat, ReplyHeaders;
    hide Results, Flatten;
    cut := [];
    var outcome, response := HttpResponse.ParseHeader(server);
    if response == null {
      return false, cut;
    }
    PiecesCut(server);
    cut := server.Pieces();
    var result := response.ParseBody(server);
    if result.BodyMalformed? {
      return false, cut;
    }
    ok := true;
    SendReply(client, response);
  }

  method SendReply(client: Socket, response: HttpResponse)
    modifies client`sent
    ensures client.sent == old(client.sent) +
              Print(Message(response.version, PrintNat(response.statusCode, 10), response.status,
                            ReplyHeaders(response.headers, response.body)), response.body)
  {
    hide Print, PrintNat, Pop, Put;
    var h := Pop(response.headers, "Transfer-Encoding");
    h := Put(h, "Content-Length", PrintNat(if response.body.Some? then |response.body.value| else 0, 10));
    SendMessage(client, Message(response.version, PrintNat(response.statusCode, 10), response.status, h),
                response.body);
  }

  /** What the stream alone decides, for every cut: a malformed body yields no reply, and a body that ends the stream
      or is ended by the close, or has length zero, or must not be there, is the body of the reply. */
  lemma ReplyByStream(stream: string, code: nat, cut: seq<string>)
    requires ParseHead(ResponseHead, stream).outcome.Success? && Cut(cut, ParseHead(ResponseHead, stream).rest)
    requires ParseNat(ParseHead(ResponseHead, stream).outcome.message.second, 10) == Some(code)
    ensures var head := ParseHead(ResponseHead, stream);
            var m := head.outcome.message;
            var f := ResponseFraming(code, m.headers);
            var b := BodyOf(f, head.rest);
            if b.status.BodyMalformed? then ReplySent(stream, cut) == None
            else b.status.BodyClosed? || b.body.None? || b.rest == "" || f == Counted(0) ==>
              ReplySent(stream, cut) == Some(Print(Reply(m, code, b.body), b.body))
  {
    hide ParseHead, ParseNat, ResponseFraming, ReadPieces, BodyOf, Cut, Print, Reply;
    var head := ParseHead(ResponseHead, stream);
    ForEveryCut(ResponseFraming(code, head.outcome.message.headers), cut, head.rest);
  }
}
