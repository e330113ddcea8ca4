/**
 Domain resolution (proxy/siip_resolve.py): a cache in front of the chain. A cache entry is the JSON object
 that `SiipCertificate.encode` writes (proxy/siip_certificate.py). The cache server is reachable.
 */
module Resolver {
  import opened Wrappers
  import opened Text
  import opened Criteria
  import opened Pallet
  import opened PalletRuns
  import opened KeyText

  datatype SiipCertificate = SiipCertificate(ip: Bytes, domain: Bytes, publicKey: seq<byte>)

  /** The fields of the JSON object; the key is hex text. */
  datatype Record = Record(ip: Bytes, domain: Bytes, publicKey: string)

  function Encode(c: SiipCertificate): Record {
    Record(c.ip, c.domain, Hex(c.publicKey))
  }

  /** `decodeCertificate`; None: the key text is not hex. */
  function DecodeCertificate(r: Record): Option<SiipCertificate> {
    match ReadKey(r.publicKey)
    case Some(key) => Some(SiipCertificate(r.ip, r.domain, key))
    case None => None
  }

  lemma DecodeEncode(c: SiipCertificate)
    ensures DecodeCertificate(Encode(c)) == Some(c)
  {
    HexReads(c.publicKey);
  }

  /** A cache entry: address and domain as they are, the key as lower-case hex without colons. */
  lemma EncodedFields(c: SiipCertificate, i: nat)
    requires i < |c.publicKey|
    ensures Encode(c).ip == c.ip && Encode(c).domain == c.domain
    ensures |Encode(c).publicKey| == 2 * |c.publicKey|
    ensures Encode(c).publicKey[2 * i] == "0123456789abcdef"[c.publicKey[i] / 16]
    ensures Encode(c).publicKey[2 * i + 1] == "0123456789abcdef"[c.publicKey[i] % 16]
  {
    HexAt(c.publicKey, i);
  }

  datatype Answer = Nothing | Raised | Found(cert: SiipCertificate)

  /** What `plow` and the certificate constructor give: the answer without a cache. */
  function Uncached(chain: State, domain: Bytes, p: Platform): Answer {
    if domain !in chain.certs then Nothing
    else
      var c := chain.certs[domain];
      match p.utf8(c.key)
      case None => Raised
      case Some(text) =>
        match ReadKey(text)
        case None => Raised
        case Some(key) => Found(SiipCertificate(c.ipAddr, c.domain, key))
  }

  datatype System = System(chain: State, cache: map<Bytes, Record>)

  const START := System(EMPTY, map[])

  function Resolve(sys: System, domain: Bytes, p: Platform): (Answer, System) {
    if domain in sys.cache then
      match DecodeCertificate(sys.cache[domain])
      case Some(c) => (Found(c), sys)
      case None => (Raised, sys)
    else
      match Uncached(sys.chain, domain, p)
      case Found(c) => (Found(c), sys.(cache := sys.cache[domain := Encode(c)]))
      case other => (other, sys)
  }

  /** `resolve` and its shared cache. */
  class Cache {
    var entries: map<Bytes, Record>

    constructor ()
      ensures entries == map[]
    {
      entries := map[];
    }

    method Lookup(chain: SiipModule, domain: Bytes) returns (answer: Answer)
      modifies this`entries
      ensures (answer, System(chain.Storage(), entries)) ==
              Resolve(System(chain.Storage(), old(entries)), domain, chain.platform)
    {
      hide ReadKey, Hex;
      if domain in entries {
        var cached := DecodeCertificate(entries[domain]);
        return if cached.Some? then Found(cached.value) else Raised;
      }
      if domain !in chain.certificateMap {
        return Nothing;
      }
      var fields := chain.certificateMap[domain];
      var text := chain.platform.utf8(fields.key);
      if text.None? {
        return Raised;
      }
      var key := ReadKey(text.value);
      if key.None? {
        return Raised;
      }
      var cert := SiipCertificate(fields.ipAddr, fields.domain, key.value);
      entries := entries[domain := Encode(cert)];
      return Found(cert);
    }
  }

  // ----- interleavings of pallet calls and resolutions -----

  datatype Event = OnChain(call: Call) | Query(domain: Bytes)

  function Next(sys: System, e: Event, p: Platform): System {
    match e
    case OnChain(c) => sys.(chain := Step(sys.chain, c, p))
    case Query(d) => Resolve(sys, d, p).1
  }

  function RunAll(events: seq<Event>, p: Platform): System {
    if events == [] then START else Next(RunAll(events[..|events| - 1], p), events[|events| - 1], p)
  }

  /** The certificate that the first successful resolution of a domain found on chain. */
  function FirstFound(events: seq<Event>, p: Platform, domain: Bytes): Option<SiipCertificate> {
    if events == [] then None
    else
      var n := |events| - 1;
      var earlier := FirstFound(events[..n], p, domain);
      if earlier.Some? || events[n] != Query(domain) then earlier
      else
        var now := Uncached(RunAll(events[..n], p).chain, domain, p);
        if now.Found? then Some(now.cert) else None
  }

  lemma CacheStep(sys: System, e: Event, p: Platform, domain: Bytes)
    ensures Next(sys, e, p).cache.Keys * {domain} ==
            if domain !in sys.cache && e == Query(domain) && Uncached(sys.chain, domain, p).Found? then {domain}
            else sys.cache.Keys * {domain}
    ensures domain in sys.cache ==> Next(sys, e, p).cache[domain] == sys.cache[domain]
    ensures domain !in sys.cache && domain in Next(sys, e, p).cache ==>
              Next(sys, e, p).cache[domain] == Encode(Uncached(sys.chain, domain, p).cert)
  {
    hide Uncached, DecodeCertificate, Encode, Step;
  }

  /** A domain is cached exactly when some resolution of it succeeded, and the entry is what the first one found:
      failures and missing domains are never cached, and no entry ever changes. */
  lemma {:induction false} CacheHistory(events: seq<Event>, p: Platform, domain: Bytes)
    ensures var cache := RunAll(events, p).cache;
            var first := FirstFound(events, p, domain);
            if first.Some? then domain in cache && cache[domain] == Encode(first.value) else domain !in cache
  {
    hide Uncached, Encode, Next;
    if events != [] {
      var n := |events| - 1;
      CacheHistory(events[..n], p, domain);
      CacheStep(RunAll(events[..n], p), events[n], p, domain);
      assert forall s: set<Bytes> :: domain in s <==> domain in s * {domain};
    }
  }

  /** In any interleaving, the answer for a domain is frozen by its first successful resolution: it is the
      address, domain and key that the chain had then; before that it is the uncached answer. */
  lemma AnswersAreFrozen(events: seq<Event>, p: Platform, domain: Bytes)
    ensures var sys := RunAll(events, p);
            Resolve(sys, domain, p).0 ==
            match FirstFound(events, p, domain)
            case Some(c) => Found(c)
            case None => Uncached(sys.chain, domain, p)
  {
    hide Uncached, Encode, DecodeCertificate, RunAll, FirstFound;
    CacheHistory(events, p, domain);
    var first := FirstFound(events, p, domain);
    if first.Some? {
      DecodeEncode(first.value);
    }
  }

  // ----- staleness -----

  /** Whether a domain has been modified or removed since its first successful resolution. */
  predicate Touched(events: seq<Event>, p: Platform, domain: Bytes) {
    if events == [] then false
    else
      var n := |events| - 1;
      Touched(events[..n], p, domain) ||
      (FirstFound(events[..n], p, domain).Some? && events[n].OnChain? &&
       Changes(RunAll(events[..n], p).chain, events[n].call, p, domain))
  }

  /** A cached answer equals the uncached one until the domain is modified or removed. */
  lemma {:induction false} FreshUntilTouched(events: seq<Event>, p: Platform, domain: Bytes)
    requires !Touched(events, p, domain) && FirstFound(events, p, domain).Some?
    ensures Uncached(RunAll(events, p).chain, domain, p) == Found(FirstFound(events, p, domain).value)
  {
    hide Step, Changes, ReadKey, Encode, DecodeCertificate;
    var n := |events| - 1;
    if FirstFound(events[..n], p, domain).Some? {
      FreshUntilTouched(events[..n], p, domain);
      if events[n].OnChain? {
        UnchangedDomain(RunAll(events[..n], p).chain, events[n].call, p, domain);
      }
    }
  }

  /** Until then, asking the cache and asking the chain are the same. */
  lemma CachedEqualsUncached(events: seq<Event>, p: Platform, domain: Bytes)
    requires !Touched(events, p, domain)
    ensures Resolve(RunAll(events, p), domain, p).0 == Uncached(RunAll(events, p).chain, domain, p)
  {
    hide Resolve, Uncached, RunAll, FirstFound, Touched;
    AnswersAreFrozen(events, p, domain);
    if FirstFound(events, p, domain).Some? {
      FreshUntilTouched(events, p, domain);
    }
  }

  // ----- what the chain guarantees the resolver -----

  /** The pallet calls of an interleaving. */
  function Calls(events: seq<Event>): seq<Call> {
    if events == [] then []
    else
      var n := |events| - 1;
      Calls(events[..n]) + (if events[n].OnChain? then [events[n].call] else [])
  }

  lemma NextChain(sys: System, e: Event, p: Platform)
    ensures Next(sys, e, p).chain == if e.OnChain? then Step(sys.chain, e.call, p) else sys.chain
  {
    hide Step, Uncached, Encode, DecodeCertificate;
  }

  lemma {:induction false} ChainIsRun(events: seq<Event>, p: Platform)
    ensures RunAll(events, p).chain == Run(EMPTY, Calls(events), p)
  {
    hide Step, Next;
    if events != [] {
      var n := |events| - 1;
      ChainIsRun(events[..n], p);
      NextChain(RunAll(events[..n], p), events[n], p);
      if events[n].OnChain? {
        RunSnoc(EMPTY, Calls(events[..n]), events[n].call, p);
      } else {
        assert Calls(events) == Calls(events[..n]);
      }
    }
  }

  /** On every reachable chain: a registered domain resolves, to a certificate of that domain whose printed key
      is the stored text, unless the stored key text ends in a lone digit, which `check_key` lets through
      and the constructor refuses. */
  lemma ResolvesExactly(events: seq<Event>, p: Platform, domain: Bytes)
    ensures var chain := RunAll(events, p).chain;
            var answer := Uncached(chain, domain, p);
            if domain !in chain.certs then answer == Nothing
            else
              var text := p.utf8(chain.certs[domain].key);
              text.Some? && IsKeyText(text.value) &&
              (answer == Raised <==> !WholePairs(text.value)) &&
              (answer != Raised ==> answer.Found? && answer.cert.domain == domain &&
                                    answer.cert.ip == chain.certs[domain].ipAddr &&
                                    PkStr(answer.cert.publicKey) == text.value)
  {
    hide Run, RunAll, NameOk, DomainOk, IpOk, InfoOk, IsKeyText, ReadKey, PkStr, WholePairs;
    ChainIsRun(events, p);
    var chain := RunAll(events, p).chain;
    if domain in chain.certs {
      AlwaysIndexed(Calls(events), p);
      AlwaysValidated(Calls(events), p);
      var text := p.utf8(chain.certs[domain].key);
      assert KeyOk(text);
      KeyValidation(text);
      TextRoundTrip(text.value);
    }
  }

  // ----- from registration to resolution -----

  /** The state before event `n`. */
  function AtEvent(events: seq<Event>, p: Platform, n: nat): System
    requires n <= |events|
  {
    RunAll(events[..n], p)
  }

  /** What has been found before event `n`. */
  function FoundAt(events: seq<Event>, p: Platform, n: nat, domain: Bytes): Option<SiipCertificate>
    requires n <= |events|
  {
    FirstFound(events[..n], p, domain)
  }

  lemma EventNext(events: seq<Event>, p: Platform, n: nat, domain: Bytes)
    requires n < |events|
    ensures AtEvent(events, p, n + 1) == Next(AtEvent(events, p, n), events[n], p)
    ensures FoundAt(events, p, n + 1, domain) ==
            var earlier := FoundAt(events, p, n, domain);
            var now := Uncached(AtEvent(events, p, n).chain, domain, p);
            if earlier.Some? || events[n] != Query(domain) then earlier
            else if now.Found? then Some(now.cert) else None
  {
    hide Next, Uncached;
    assert events[..n + 1][..n] == events[..n];
  }

  /** Event `k` successfully registers a domain with the text of the key `bs`. */
  predicate Registers(events: seq<Event>, p: Platform, k: nat, bs: seq<byte>)
    requires k < |events|
  {
    events[k].OnChain? && events[k].call.Register? && Failure(AtEvent(events, p, k).chain, events[k].call, p).None? &&
    p.utf8(events[k].call.key) == Some(RegisteredText(bs))
  }

  /** No successful modify or remove of `domain` after event `k` and before event `n`. */
  predicate UnchangedSince(events: seq<Event>, p: Platform, k: nat, n: nat, domain: Bytes)
    requires n <= |events|
  {
    forall j: nat | k < j < n ::
      events[j].OnChain? ==> !Changes(AtEvent(events, p, j).chain, events[j].call, p, domain)
  }

  lemma FreshAnswer(chain: State, c: Call, bs: seq<byte>, p: Platform)
    requires c.Register? && c.origin.Some? && p.utf8(c.key) == Some(RegisteredText(bs))
    requires c.domain in chain.certs && chain.certs[c.domain] == NewCertificate(c)
    ensures Uncached(chain, c.domain, p) == Found(SiipCertificate(c.ipAddr, c.domain, bs))
  {
    hide ReadKey, RegisteredText;
    KeyRoundTrip(bs);
  }

  lemma {:induction false} StaysRegistered(events: seq<Event>, p: Platform, k: nat, n: nat, bs: seq<byte>)
    requires k < n <= |events| && Registers(events, p, k, bs)
    requires UnchangedSince(events, p, k, n, events[k].call.domain)
    ensures var c := events[k].call;
            var chain := AtEvent(events, p, n).chain;
            c.domain in chain.certs && chain.certs[c.domain] == NewCertificate(c) &&
            var before := FoundAt(events, p, k, c.domain);
            var found := FoundAt(events, p, n, c.domain);
            if before.Some? then found == before
            else found.None? || found.value == SiipCertificate(c.ipAddr, c.domain, bs)
    decreases n
  {
    hide AtEvent, FoundAt, Uncached, RegisteredText, FieldError, DomainOk, Resolve;
    var c := events[k].call;
    var m := n - 1;
    EventNext(events, p, m, c.domain);
    NextChain(AtEvent(events, p, m), events[m], p);
    if k < m {
      StaysRegistered(events, p, k, m, bs);
      FreshAnswer(AtEvent(events, p, m).chain, c, bs, p);
      hide Next, Step;
      if events[m].OnChain? {
        UnchangedDomain(AtEvent(events, p, m).chain, events[m].call, p, c.domain);
      }
    }
  }

  /** End to end: a domain registered with the text of a key, and not changed since, resolves to its address and
      exactly that key, if and only if it was not resolved to anything else before. */
  lemma RegisteredResolves(events: seq<Event>, p: Platform, k: nat, bs: seq<byte>)
    requires k < |events| && Registers(events, p, k, bs)
    requires UnchangedSince(events, p, k, |events|, events[k].call.domain)
    ensures var c := events[k].call;
            var latest := SiipCertificate(c.ipAddr, c.domain, bs);
            var before := FoundAt(events, p, k, c.domain);
            Resolve(RunAll(events, p), c.domain, p).0 == Found(latest) <==> before.None? || before.value == latest
  {
    hide RunAll, FirstFound, Uncached, Resolve, RegisteredText, FieldError;
    var c := events[k].call;
    StaysRegistered(events, p, k, |events|, bs);
    FreshAnswer(AtEvent(events, p, |events|).chain, c, bs, p);
    assert events[..|events|] == events;
    AnswersAreFrozen(events, p, c.domain);
  }

  // ----- when a cached answer is out of date -----

  lemma {:induction false} FoundDomain(events: seq<Event>, p: Platform, domain: Bytes)
    ensures FirstFound(events, p, domain).Some? ==> FirstFound(events, p, domain).value.domain == domain
  {
    hide RunAll, Uncached, IsKeyText, PkStr, WholePairs;
    if events != [] {
      var n := |events| - 1;
      FoundDomain(events[..n], p, domain);
      ResolvesExactly(events[..n], p, domain);
    }
  }

  /** A cached answer is the one the chain gives if and only if the domain is still registered with the address and
      the key text of that answer. */
  lemma CachedIsFresh(events: seq<Event>, p: Platform, domain: Bytes)
    requires FirstFound(events, p, domain).Some?
    ensures var sys := RunAll(events, p);
            var certs := sys.chain.certs;
            var c := FirstFound(events, p, domain).value;
            Resolve(sys, domain, p).0 == Uncached(sys.chain, domain, p) <==>
            domain in certs && certs[domain].ipAddr == c.ip && p.utf8(certs[domain].key) == Some(PkStr(c.publicKey))
  {
    hide RunAll, FirstFound, Resolve, IsKeyText, PkStr, WholePairs, ReadKey, RegisteredText;
    var c := FirstFound(events, p, domain).value;
    AnswersAreFrozen(events, p, domain);
    ResolvesExactly(events, p, domain);
    FoundDomain(events, p, domain);
    SameText(c.publicKey);
    KeyRoundTrip(c.publicKey);
    ChainIsRun(events, p);
    AlwaysIndexed(Calls(events), p);
  }

  /** A resolution, then the domain is removed: the cache goes on answering for a domain that is no longer there. */
  lemma StaleAnswer(reg: Call, rem: Call, bs: seq<byte>, p: Platform)
    requires reg.Register? && rem.Remove? && reg.domain == rem.domain && reg.origin.Some? && reg.origin == rem.origin
    requires FieldError(reg, p).None? && p.utf8(reg.key) == Some(RegisteredText(bs))
    ensures var sys := RunAll([OnChain(reg), Query(reg.domain), OnChain(rem)], p);
            Resolve(sys, reg.domain, p).0 == Found(SiipCertificate(reg.ipAddr, reg.domain, bs)) &&
            Uncached(sys.chain, reg.domain, p) == Nothing
  {
    Accepted(reg, rem, p);
    hide FieldError, DomainOk, Others, RegisteredText, Uncached, Step, Resolve, FirstFound, RunAll, Failure;
    var events, d := [OnChain(reg), Query(reg.domain), OnChain(rem)], reg.domain;
    assert events[..0] == [] && events[..3] == events && RunAll(events[..0], p) == START by {
      StartEmpty(p);
    }
    assert FoundAt(events, p, 0, d).None? by {
      StartEmpty(p);
    }
    EventNext(events, p, 0, d);
    StaysRegistered(events, p, 0, 2, bs);
    EventNext(events, p, 1, d);
    StaysRegistered(events, p, 0, 1, bs);
    FreshAnswer(AtEvent(events, p, 1).chain, reg, bs, p);
    EventNext(events, p, 2, d);
    Removed(AtEvent(events, p, 2).chain, reg, rem, p);
    AnswersAreFrozen(events, p, d);
  }

  lemma StartEmpty(p: Platform)
    ensures RunAll([], p) == START
    ensures forall d :: FirstFound([], p, d).None?
  {
  }

  lemma Accepted(reg: Call, rem: Call, p: Platform)
    requires reg.Register? && rem.Remove? && reg.domain == rem.domain && reg.origin.Some?
    requires FieldError(reg, p).None?
    ensures Failure(EMPTY, reg, p).None? && DomainOk(p.utf8(rem.domain), p.upper)
  {
  }

  lemma Removed(chain: State, reg: Call, rem: Call, p: Platform)
    requires reg.Register? && rem.Remove? && reg.domain == rem.domain && reg.origin.Some? && reg.origin == rem.origin
    requires DomainOk(p.utf8(rem.domain), p.upper)
    requires rem.domain in chain.certs && chain.certs[rem.domain] == NewCertificate(reg)
    ensures Uncached(Step(chain, rem, p), rem.domain, p) == Nothing
  {
    hide DomainOk, Others;
  }
}
