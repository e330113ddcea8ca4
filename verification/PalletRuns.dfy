/** What holds over every run of pallet calls. */
module PalletRuns {
  import opened Wrappers
  import opened Criteria
  import opened KeyText
  import opened Pallet

  // ----- lists of certificates -----

  /** The entries of one domain, in order. */
  function Project(list: seq<Certificate>, domain: Bytes): seq<Certificate> {
    if list == [] then []
    else
      var last := list[|list| - 1];
      Project(list[..|list| - 1], domain) + (if last.domain == domain then [last] else [])
  }

  lemma ProjectPush(list: seq<Certificate>, c: Certificate, domain: Bytes)
    ensures Project(list + [c], domain) == Project(list, domain) + (if c.domain == domain then [c] else [])
  {
    assert (list + [c])[..|list|] == list;
  }

  lemma {:induction false} ProjectOthers(list: seq<Certificate>, removed: Bytes, domain: Bytes)
    ensures Project(Others(list, removed), domain) == if domain == removed then [] else Project(list, domain)
  {
    if list != [] {
      var n := |list| - 1;
      ProjectOthers(list[..n], removed, domain);
      if list[n].domain != removed {
        ProjectPush(Others(list[..n], removed), list[n], domain);
      } else {
        assert Others(list, removed) == Others(list[..n], removed);
      }
    }
  }

  lemma {:induction false} CountProject(list: seq<Certificate>, c: Certificate)
    ensures multiset(list)[c] == multiset(Project(list, c.domain))[c]
  {
    if list != [] {
      var n := |list| - 1;
      assert list == list[..n] + [list[n]];
      CountProject(list[..n], c);
    }
  }

  lemma {:induction false} CountOthers(list: seq<Certificate>, removed: Bytes, c: Certificate)
    ensures multiset(Others(list, removed))[c] == if c.domain == removed then 0 else multiset(list)[c]
  {
    if list != [] {
      var n := |list| - 1;
      assert list == list[..n] + [list[n]];
      CountOthers(list[..n], removed, c);
    }
  }

  lemma OthersMember(list: seq<Certificate>, removed: Bytes, c: Certificate)
    ensures c in Others(list, removed) <==> c in list && c.domain != removed
  {
    CountOthers(list, removed, c);
    assert c in list <==> multiset(list)[c] > 0;
    assert c in Others(list, removed) <==> multiset(Others(list, removed))[c] > 0;
  }

  // ----- locality -----

  /** The calls that name a domain, in order. */
  function Naming(calls: seq<Call>, domain: Bytes): seq<Call> {
    if calls == [] then []
    else
      var last := calls[|calls| - 1];
      Naming(calls[..|calls| - 1], domain) + (if last.domain == domain then [last] else [])
  }

  /** Two states that look the same to anyone who asks about one domain. */
  ghost predicate Agree(s: State, t: State, domain: Bytes) {
    (domain in s.certs <==> domain in t.certs) &&
    (domain in s.certs ==> s.certs[domain] == t.certs[domain]) &&
    forall ip :: Project(Listed(s, ip), domain) == Project(Listed(t, ip), domain)
  }

  /** A call that names another domain is not noticed. */
  lemma ForeignCall(s: State, c: Call, p: Platform, domain: Bytes)
    requires c.domain != domain
    ensures Agree(Step(s, c, p), s, domain)
  {
    hide Failure, Project, Others;
    var t := Step(s, c, p);
    if Failure(s, c, p).None? {
      forall ip
        ensures Project(Listed(t, ip), domain) == Project(Listed(s, ip), domain)
      {
        ForeignList(s, c, p, domain, ip);
      }
    }
  }

  lemma ForeignList(s: State, c: Call, p: Platform, domain: Bytes, ip: Bytes)
    requires c.domain != domain && Failure(s, c, p).None?
    ensures Project(Listed(Effect(s, c), ip), domain) == Project(Listed(s, ip), domain)
  {
    hide Project, Others, FieldError, DomainOk;
    var list := Listed(s, ip);
    ProjectOthers(list, c.domain, domain);
    if !c.Remove? {
      var cert := NewCertificate(c);
      ProjectPush(list, cert, domain);
      ProjectPush(Others(list, c.domain), cert, domain);
    }
  }

  /** A call that names the domain does the same to both states, with the same result. */
  lemma OwnCall(s: State, t: State, c: Call, p: Platform)
    requires Agree(s, t, c.domain)
    ensures Failure(s, c, p) == Failure(t, c, p)
    ensures Agree(Step(s, c, p), Step(t, c, p), c.domain)
  {
    hide Project, Others, FieldError, DomainOk;
    if Failure(s, c, p).None? {
      forall ip
        ensures Project(Listed(Effect(s, c), ip), c.domain) == Project(Listed(Effect(t, c), ip), c.domain)
      {
        OwnList(s, t, c, p, ip);
      }
    }
  }

  lemma OwnList(s: State, t: State, c: Call, p: Platform, ip: Bytes)
    requires Agree(s, t, c.domain) && Failure(s, c, p).None? && Failure(t, c, p).None?
    ensures Project(Listed(Effect(s, c), ip), c.domain) == Project(Listed(Effect(t, c), ip), c.domain)
  {
    hide Project, Others, FieldError, DomainOk;
    var a, b := Listed(s, ip), Listed(t, ip);
    ProjectOthers(a, c.domain, c.domain);
    ProjectOthers(b, c.domain, c.domain);
    if !c.Remove? {
      var cert := NewCertificate(c);
      ProjectPush(a, cert, c.domain);
      ProjectPush(b, cert, c.domain);
      ProjectPush(Others(a, c.domain), cert, c.domain);
      ProjectPush(Others(b, c.domain), cert, c.domain);
    }
  }

  /** Locality: after any run, what storage says about a domain is what running only the calls naming it gives. */
  lemma {:induction false} Locality(s: State, calls: seq<Call>, p: Platform, domain: Bytes)
    ensures Agree(Run(s, calls, p), Run(s, Naming(calls, domain), p), domain)
  {
    hide Step, Project, Listed;
    if calls != [] {
      var n := |calls| - 1;
      var before, c := calls[..n], calls[n];
      Locality(s, before, p, domain);
      var r, t := Run(s, before, p), Run(s, Naming(before, domain), p);
      if c.domain == domain {
        OwnCall(r, t, c, p);
        var named := Naming(before, domain) + [c];
        assert named[..|named| - 1] == Naming(before, domain);
      } else {
        ForeignCall(r, c, p, domain);
        assert Naming(calls, domain) == Naming(before, domain);
      }
    }
  }

  /** Reordering calls without reordering those of any one domain changes neither the forward map nor,
      up to the order of entries, any reverse list. */
  lemma Reordering(s: State, a: seq<Call>, b: seq<Call>, p: Platform)
    requires forall domain :: Naming(a, domain) == Naming(b, domain)
    ensures Run(s, a, p).certs == Run(s, b, p).certs
    ensures forall ip :: multiset(Listed(Run(s, a, p), ip)) == multiset(Listed(Run(s, b, p), ip))
  {
    hide Run, Project, Naming;
    var ra, rb := Run(s, a, p), Run(s, b, p);
    forall domain
      ensures Agree(ra, rb, domain)
    {
      assert Naming(a, domain) == Naming(b, domain);
      Locality(s, a, p, domain);
      Locality(s, b, p, domain);
    }
    assert forall domain :: domain in ra.certs ==> Agree(ra, rb, domain);
    assert forall domain :: domain in rb.certs ==> Agree(ra, rb, domain);
    assert ra.certs.Keys == rb.certs.Keys;
    forall ip
      ensures multiset(Listed(ra, ip)) == multiset(Listed(rb, ip))
    {
      forall c
        ensures multiset(Listed(ra, ip))[c] == multiset(Listed(rb, ip))[c]
      {
        assert Agree(ra, rb, c.domain);
        CountProject(Listed(ra, ip), c);
        CountProject(Listed(rb, ip), c);
      }
    }
  }

  // ----- the reverse index -----

  predicate Current(s: State, c: Certificate) {
    c.domain in s.certs && s.certs[c.domain] == c
  }

  /** Every certificate is stored under its own domain and listed under its own address, and every
      entry listed under an address carries that address. */
  ghost predicate Indexed(s: State) {
    (forall d | d in s.certs :: s.certs[d].domain == d && s.certs[d] in Listed(s, s.certs[d].ipAddr)) &&
    forall ip, c | c in Listed(s, ip) :: c.ipAddr == ip
  }

  /** What a successful call does to membership in the lists. */
  lemma MemberAfter(s: State, c: Call, p: Platform, ip: Bytes, e: Certificate)
    requires Failure(s, c, p).None?
    ensures var t := Effect(s, c);
            var touched := if c.Remove? then s.certs[c.domain].ipAddr else c.ipAddr;
            e in Listed(t, ip) <==>
              (e in Listed(s, ip) && (ip == touched && !c.Register? ==> e.domain != c.domain)) ||
              (ip == touched && !c.Remove? && e == NewCertificate(c))
  {
    hide Others, FieldError, DomainOk;
    OthersMember(Listed(s, ip), c.domain, e);
  }

  lemma IndexedStep(s: State, c: Call, p: Platform)
    requires Indexed(s)
    ensures Indexed(Step(s, c, p))
  {
    hide Others, FieldError, DomainOk;
    var t := Step(s, c, p);
    if Failure(s, c, p).None? {
      forall ip, e | e in Listed(t, ip)
        ensures e.ipAddr == ip
      {
        MemberAfter(s, c, p, ip, e);
      }
      forall d | d in t.certs
        ensures t.certs[d].domain == d && t.certs[d] in Listed(t, t.certs[d].ipAddr)
      {
        MemberAfter(s, c, p, t.certs[d].ipAddr, t.certs[d]);
      }
    }
  }

  /** The index never misses a live certificate: in every reachable state. */
  lemma {:induction false} AlwaysIndexed(calls: seq<Call>, p: Platform)
    ensures Indexed(Run(EMPTY, calls, p))
  {
    hide Indexed, Step;
    if calls == [] {
      EmptyIndexed();
    } else {
      AlwaysIndexed(calls[..|calls| - 1], p);
      IndexedStep(Run(EMPTY, calls[..|calls| - 1], p), calls[|calls| - 1], p);
    }
  }

  lemma EmptyIndexed()
    ensures Indexed(EMPTY)
  {
  }

  /** A successful modify that moves a domain to another address. */
  predicate MovesIp(s: State, c: Call, p: Platform) {
    Failure(s, c, p).None? && c.Modify? && s.certs[c.domain].ipAddr != c.ipAddr
  }

  function Moved(s: State, c: Call, p: Platform): set<Certificate> {
    if MovesIp(s, c, p) then {s.certs[c.domain]} else {}
  }

  /** The certificates replaced by the address-changing modifies of a run. */
  function Replaced(s: State, calls: seq<Call>, p: Platform): set<Certificate> {
    if calls == [] then {}
    else
      var n := |calls| - 1;
      Replaced(s, calls[..n], p) + Moved(Run(s, calls[..n], p), calls[n], p)
  }

  ghost predicate LiveOrReplaced(s: State, replaced: set<Certificate>) {
    forall ip, e | e in Listed(s, ip) :: Current(s, e) || e in replaced
  }

  lemma LiveOrReplacedStep(s: State, c: Call, p: Platform, replaced: set<Certificate>)
    requires Indexed(s) && LiveOrReplaced(s, replaced)
    ensures LiveOrReplaced(Step(s, c, p), replaced + Moved(s, c, p))
  {
    hide Others, FieldError, DomainOk, Listed;
    if Failure(s, c, p).None? {
      var t := Effect(s, c);
      forall ip, e | e in Listed(t, ip)
        ensures Current(t, e) || e in replaced + Moved(s, c, p)
      {
        MemberAfter(s, c, p, ip, e);
      }
    }
  }

  /** What the index may hold beyond the live set: each entry is the current certificate of its domain, or was
      replaced by an earlier modify that changed its address. */
  lemma {:induction false} StaleEntries(calls: seq<Call>, p: Platform)
    ensures LiveOrReplaced(Run(EMPTY, calls, p), Replaced(EMPTY, calls, p))
  {
    hide LiveOrReplaced, Step, MovesIp, Indexed;
    if calls == [] {
      EmptyLive();
    } else {
      var n := |calls| - 1;
      StaleEntries(calls[..n], p);
      AlwaysIndexed(calls[..n], p);
      LiveOrReplacedStep(Run(EMPTY, calls[..n], p), calls[n], p, Replaced(EMPTY, calls[..n], p));
    }
  }

  lemma EmptyLive()
    ensures LiveOrReplaced(EMPTY, {})
  {
  }

  /** The list of each address holds exactly the current certificates with that address, once each. */
  ghost predicate Mirror(s: State) {
    forall ip, e :: multiset(Listed(s, ip))[e] == if Current(s, e) && e.ipAddr == ip then 1 else 0
  }

  lemma CountAfter(s: State, c: Call, p: Platform, ip: Bytes, e: Certificate)
    requires Failure(s, c, p).None?
    ensures var touched := if c.Remove? then s.certs[c.domain].ipAddr else c.ipAddr;
            multiset(Listed(Effect(s, c), ip))[e] ==
              (if ip == touched && !c.Register? && e.domain == c.domain then 0 else multiset(Listed(s, ip))[e]) +
              (if ip == touched && !c.Remove? && e == NewCertificate(c) then 1 else 0)
  {
    hide Others, FieldError, DomainOk;
    CountOthers(Listed(s, ip), c.domain, e);
  }

  lemma MoveBreaksMirror(s: State, c: Call, p: Platform)
    requires Mirror(s) && Indexed(s) && MovesIp(s, c, p)
    ensures !Mirror(Step(s, c, p))
  {
    hide Others, FieldError, DomainOk;
    var stale := s.certs[c.domain];
    CountAfter(s, c, p, stale.ipAddr, stale);
    assert multiset(Listed(s, stale.ipAddr))[stale] == 1;
    assert multiset(Listed(Effect(s, c), stale.ipAddr))[stale] == 1 && !Current(Effect(s, c), stale);
  }

  lemma ForeignCount(s: State, c: Call, p: Platform, ip: Bytes, e: Certificate)
    requires Failure(s, c, p).None? && e.domain != c.domain
    ensures multiset(Listed(Step(s, c, p), ip))[e] == multiset(Listed(s, ip))[e]
    ensures Current(Step(s, c, p), e) == Current(s, e)
  {
    hide Others, FieldError, DomainOk, Listed;
    CountAfter(s, c, p, ip, e);
  }

  lemma OwnCount(s: State, c: Call, p: Platform, ip: Bytes, e: Certificate)
    requires Mirror(s) && Indexed(s) && Failure(s, c, p).None? && !MovesIp(s, c, p) && e.domain == c.domain
    ensures multiset(Listed(Step(s, c, p), ip))[e] == if Current(Step(s, c, p), e) && e.ipAddr == ip then 1 else 0
  {
    hide Others, FieldError, DomainOk, Listed;
    CountAfter(s, c, p, ip, e);
    assert multiset(Listed(s, ip))[e] == if Current(s, e) && e.ipAddr == ip then 1 else 0;
  }

  /** A failed call changes nothing. */
  lemma FailedCall(s: State, c: Call, p: Platform)
    ensures Failure(s, c, p).Some? ==> Step(s, c, p) == s && !MovesIp(s, c, p)
  {
    hide Failure;
  }

  /** A call keeps the index exact if and only if it is not a successful modify that changes the address. */
  lemma MirrorStep(s: State, c: Call, p: Platform)
    requires Mirror(s) && Indexed(s)
    ensures Mirror(Step(s, c, p)) <==> !MovesIp(s, c, p)
  {
    hide Failure, Step, Indexed, Listed, MovesIp, Current;
    FailedCall(s, c, p);
    if MovesIp(s, c, p) {
      MoveBreaksMirror(s, c, p);
    } else if Failure(s, c, p).None? {
      forall ip, e
        ensures multiset(Listed(Step(s, c, p), ip))[e] == if Current(Step(s, c, p), e) && e.ipAddr == ip then 1 else 0
      {
        if e.domain == c.domain {
          OwnCount(s, c, p, ip, e);
        } else {
          ForeignCount(s, c, p, ip, e);
          assert multiset(Listed(s, ip))[e] == if Current(s, e) && e.ipAddr == ip then 1 else 0;
        }
      }
    }
  }

  lemma NothingMoved(calls: seq<Call>, p: Platform)
    requires calls != [] && Replaced(EMPTY, calls, p) == {}
    ensures var n := |calls| - 1;
            Replaced(EMPTY, calls[..n], p) == {} && !MovesIp(Run(EMPTY, calls[..n], p), calls[n], p)
  {
    hide Run, Failure;
    var n := |calls| - 1;
    assert Replaced(EMPTY, calls[..n], p) <= Replaced(EMPTY, calls, p);
    assert Moved(Run(EMPTY, calls[..n], p), calls[n], p) <= Replaced(EMPTY, calls, p);
  }

  /** On runs where no modify changes the address, the index is exact in every state. */
  lemma {:induction false} ExactIndex(calls: seq<Call>, p: Platform)
    requires Replaced(EMPTY, calls, p) == {}
    ensures Mirror(Run(EMPTY, calls, p))
  {
    hide Mirror, Step, MovesIp, Indexed, Replaced;
    if calls == [] {
      EmptyMirror();
    } else {
      var n := |calls| - 1;
      NothingMoved(calls, p);
      ExactIndex(calls[..n], p);
      AlwaysIndexed(calls[..n], p);
      MirrorStep(Run(EMPTY, calls[..n], p), calls[n], p);
    }
  }

  lemma EmptyMirror()
    ensures Mirror(EMPTY)
  {
  }

  lemma RunSnoc(s: State, calls: seq<Call>, c: Call, p: Platform)
    ensures Run(s, calls + [c], p) == Step(Run(s, calls, p), c, p)
  {
    assert (calls + [c])[..|calls|] == calls;
  }

  /** The index does hold replaced certificates: registering a domain and then moving it leaves the old one listed. */
  lemma StaleEntryRemains(r: Call, m: Call, p: Platform)
    requires r.Register? && m.Modify? && r.domain == m.domain && r.ipAddr != m.ipAddr
    requires r.origin.Some? && r.origin == m.origin && FieldError(r, p).None? && FieldError(m, p).None?
    ensures var s := Run(EMPTY, [r, m], p);
            NewCertificate(r) in Listed(s, r.ipAddr) && !Current(s, NewCertificate(r)) && !Mirror(s)
  {
    hide FieldError, Others;
    var one := Run(EMPTY, [r], p);
    RunSnoc(EMPTY, [], r, p);
    RunSnoc(EMPTY, [r], m, p);
    assert [] + [r] == [r] && [r] + [m] == [r, m];
    MemberAfter(EMPTY, r, p, r.ipAddr, NewCertificate(r));
    MemberAfter(one, m, p, r.ipAddr, NewCertificate(r));
    var s := Run(EMPTY, [r, m], p);
    assert multiset(Listed(s, r.ipAddr))[NewCertificate(r)] > 0;
  }

  // ----- exactly what is listed after a run -----

  /** The state before call `n`; after all calls when `n` is their number. */
  function At(calls: seq<Call>, p: Platform, n: nat): State
    requires n <= |calls|
  {
    Run(EMPTY, calls[..n], p)
  }

  lemma AtNext(calls: seq<Call>, p: Platform, n: nat)
    requires n < |calls|
    ensures At(calls, p, n + 1) == Step(At(calls, p, n), calls[n], p)
  {
    hide Step;
    assert calls[..n + 1][..n] == calls[..n];
  }

  /** Call `i` appends `e` to the list of `ip`. */
  predicate PushedAt(calls: seq<Call>, p: Platform, i: nat, ip: Bytes, e: Certificate)
    requires i < |calls|
  {
    var c := calls[i];
    Failure(At(calls, p, i), c, p).None? && !c.Remove? && c.ipAddr == ip && NewCertificate(c) == e
  }

  /** Call `i` removes the entries of `domain` from the list of `ip`, before it appends anything. */
  predicate CleanedAt(calls: seq<Call>, p: Platform, i: nat, ip: Bytes, domain: Bytes)
    requires i < |calls|
  {
    var s, c := At(calls, p, i), calls[i];
    Failure(s, c, p).None? && !c.Register? && c.domain == domain &&
    ip == if c.Remove? then s.certs[domain].ipAddr else c.ipAddr
  }

  /** A successful modify or remove of `domain`. */
  predicate Changes(s: State, c: Call, p: Platform, domain: Bytes) {
    !c.Register? && c.domain == domain && Failure(s, c, p).None?
  }

  predicate ChangedAt(calls: seq<Call>, p: Platform, i: nat, domain: Bytes)
    requires i < |calls|
  {
    Changes(At(calls, p, i), calls[i], p, domain)
  }

  /** The calls before `n` that appended `e` to the list of `ip`, where the domain has not been cleaned since. */
  ghost function Survivors(calls: seq<Call>, p: Platform, n: nat, ip: Bytes, e: Certificate): set<nat>
    requires n <= |calls|
  {
    set i: nat | i < n && PushedAt(calls, p, i, ip, e) &&
                 forall k: nat | i < k < n :: !CleanedAt(calls, p, k, ip, e.domain)
  }

  lemma SurvivorsNext(calls: seq<Call>, p: Platform, n: nat, ip: Bytes, e: Certificate)
    requires n < |calls|
    ensures Survivors(calls, p, n + 1, ip, e) ==
            (if CleanedAt(calls, p, n, ip, e.domain) then {} else Survivors(calls, p, n, ip, e)) +
            (if PushedAt(calls, p, n, ip, e) then {n} else {})
    ensures n !in Survivors(calls, p, n, ip, e)
  {
    hide PushedAt, CleanedAt;
  }

  lemma {:induction false} ListedAt(calls: seq<Call>, p: Platform, n: nat, ip: Bytes, e: Certificate)
    requires n <= |calls|
    ensures multiset(Listed(At(calls, p, n), ip))[e] == |Survivors(calls, p, n, ip, e)|
    decreases n
  {
    hide Survivors, Listed, Run;
    if n == 0 {
      NothingListed(calls, p, ip, e);
    } else {
      var m := n - 1;
      ListedAt(calls, p, m, ip, e);
      AtNext(calls, p, m);
      SurvivorsNext(calls, p, m, ip, e);
      ListedNext(calls, p, m, ip, e);
    }
  }

  lemma NothingListed(calls: seq<Call>, p: Platform, ip: Bytes, e: Certificate)
    ensures multiset(Listed(At(calls, p, 0), ip))[e] == 0 == |Survivors(calls, p, 0, ip, e)|
  {
    assert Survivors(calls, p, 0, ip, e) == {};
  }

  lemma ListedNext(calls: seq<Call>, p: Platform, n: nat, ip: Bytes, e: Certificate)
    requires n < |calls|
    ensures multiset(Listed(Step(At(calls, p, n), calls[n], p), ip))[e] ==
            (if CleanedAt(calls, p, n, ip, e.domain) then 0 else multiset(Listed(At(calls, p, n), ip))[e]) +
            (if PushedAt(calls, p, n, ip, e) then 1 else 0)
  {
    hide Listed, FieldError, DomainOk, Others, At, Effect;
    if Failure(At(calls, p, n), calls[n], p).None? {
      CountAfter(At(calls, p, n), calls[n], p, ip, e);
    }
  }

  /** Exactly what is listed, and how often: after any run an entry is in the list of an address once for every
      call that appended it there and has not been followed by a modify to that address or by a remove at it. */
  lemma ListedExactly(calls: seq<Call>, p: Platform, ip: Bytes, e: Certificate)
    ensures multiset(Listed(Run(EMPTY, calls, p), ip))[e] == |Survivors(calls, p, |calls|, ip, e)|
  {
    hide Survivors, Listed, Run;
    ListedAt(calls, p, |calls|, ip, e);
    assert calls[..|calls|] == calls;
  }

  /** Call `i` appended an entry that has since been replaced or removed, but not cleaned from its list. */
  ghost predicate Leftover(calls: seq<Call>, p: Platform, i: nat)
    requires i < |calls|
  {
    var c := calls[i];
    Failure(At(calls, p, i), c, p).None? && !c.Remove? &&
    (exists j: nat :: i < j < |calls| && ChangedAt(calls, p, j, c.domain)) &&
    forall k: nat | i < k < |calls| :: !CleanedAt(calls, p, k, c.ipAddr, c.domain)
  }

  /** What was pushed and not changed since is current. */
  lemma {:induction false} StillCurrent(calls: seq<Call>, p: Platform, i: nat, n: nat)
    requires i < n <= |calls| && Failure(At(calls, p, i), calls[i], p).None? && !calls[i].Remove?
    requires forall j: nat | i < j < n :: !ChangedAt(calls, p, j, calls[i].domain)
    ensures Current(At(calls, p, n), NewCertificate(calls[i]))
    decreases n
  {
    hide Run, FieldError, DomainOk, Others;
    AtNext(calls, p, n - 1);
    if i < n - 1 {
      StillCurrent(calls, p, i, n - 1);
      assert !ChangedAt(calls, p, n - 1, calls[i].domain);
      UnchangedDomain(At(calls, p, n - 1), calls[n - 1], p, calls[i].domain);
    }
  }

  lemma UnchangedDomain(s: State, c: Call, p: Platform, domain: Bytes)
    requires !Changes(s, c, p, domain) && domain in s.certs
    ensures domain in Step(s, c, p).certs && Step(s, c, p).certs[domain] == s.certs[domain]
  {
    hide FieldError, DomainOk, Others, Project;
    if c.domain != domain {
      ForeignCall(s, c, p, domain);
    }
  }

  /** The call that made a certificate current, with no change of its domain since. */
  lemma {:induction false} LastPush(calls: seq<Call>, p: Platform, n: nat, domain: Bytes) returns (i: nat)
    requires n <= |calls| && domain in At(calls, p, n).certs
    ensures i < n && PushedAt(calls, p, i, At(calls, p, n).certs[domain].ipAddr, At(calls, p, n).certs[domain])
    ensures calls[i].domain == domain && forall j: nat | i < j < n :: !ChangedAt(calls, p, j, domain)
    decreases n
  {
    hide FieldError, DomainOk, Others, Run;
    NothingAt(calls, p);
    var m := n - 1;
    AtNext(calls, p, m);
    var s, c := At(calls, p, m), calls[m];
    if c.domain == domain && Failure(s, c, p).None? {
      i := m;
    } else {
      ForeignOrFailed(s, c, p, domain);
      i := LastPush(calls, p, m, domain);
    }
  }

  lemma NothingAt(calls: seq<Call>, p: Platform)
    ensures At(calls, p, 0) == EMPTY
  {
  }

  lemma ForeignOrFailed(s: State, c: Call, p: Platform, domain: Bytes)
    requires c.domain != domain || Failure(s, c, p).Some?
    ensures domain in Step(s, c, p).certs <==> domain in s.certs
    ensures domain in s.certs ==> Step(s, c, p).certs[domain] == s.certs[domain]
  {
    hide FieldError, DomainOk, Others, Project;
    if c.domain != domain {
      ForeignCall(s, c, p, domain);
    }
  }

  /** Without leftovers a surviving call is the one that made the current certificate, so there is only one. */
  lemma OneSurvivor(calls: seq<Call>, p: Platform, ip: Bytes, e: Certificate, i: nat)
    requires i in Survivors(calls, p, |calls|, ip, e) && !Leftover(calls, p, i)
    ensures Current(Run(EMPTY, calls, p), e) && e.ipAddr == ip
    ensures forall j: nat | i < j < |calls| :: !PushedAt(calls, p, j, ip, e)
  {
    hide Run, FieldError, DomainOk, Others;
    assert calls[..|calls|] == calls;
    StillCurrent(calls, p, i, |calls|);
    forall j: nat | i < j < |calls|
      ensures !PushedAt(calls, p, j, ip, e)
    {
      StillCurrent(calls, p, i, j);
      assert !ChangedAt(calls, p, j, e.domain);
    }
  }

  /** An entry that is listed although it was replaced or removed is not current, or listed twice. */
  lemma LeftoverBreaks(calls: seq<Call>, p: Platform, i: nat)
    requires i < |calls| && Leftover(calls, p, i)
    ensures !Mirror(Run(EMPTY, calls, p))
  {
    hide Run, FieldError, DomainOk, Others, Listed, CleanedAt, ChangedAt, Mirror;
    var s, e := Run(EMPTY, calls, p), NewCertificate(calls[i]);
    assert calls[..|calls|] == calls;
    assert i in Survivors(calls, p, |calls|, e.ipAddr, e);
    ListedExactly(calls, p, e.ipAddr, e);
    if Current(s, e) {
      var j := LastPush(calls, p, |calls|, e.domain);
      LaterIndex(calls, p, i, j);
      NotCleaned(calls, p, j, e.ipAddr, e.domain);
      TwoSurvivors(calls, p, e.ipAddr, e, i, j);
    }
    NotMirror(s, e.ipAddr, e);
  }

  lemma NotMirror(s: State, ip: Bytes, e: Certificate)
    requires var n := multiset(Listed(s, ip))[e]; n > 1 || (n > 0 && !Current(s, e))
    ensures !Mirror(s)
  {
    hide Listed;
  }

  lemma LaterIndex(calls: seq<Call>, p: Platform, i: nat, j: nat)
    requires i < |calls| && j < |calls| && Leftover(calls, p, i) && calls[i].domain == calls[j].domain
    requires forall k: nat | j < k < |calls| :: !ChangedAt(calls, p, k, calls[i].domain)
    ensures i < j
  {
    hide ChangedAt, CleanedAt, Failure;
  }

  lemma NotCleaned(calls: seq<Call>, p: Platform, j: nat, ip: Bytes, domain: Bytes)
    requires j < |calls| && forall k: nat | j < k < |calls| :: !ChangedAt(calls, p, k, domain)
    ensures forall k: nat | j < k < |calls| :: !CleanedAt(calls, p, k, ip, domain)
  {
    hide Failure, At;
    forall k: nat | j < k < |calls|
      ensures !CleanedAt(calls, p, k, ip, domain)
    {
      assert !ChangedAt(calls, p, k, domain);
    }
  }

  lemma TwoSurvivors(calls: seq<Call>, p: Platform, ip: Bytes, e: Certificate, i: nat, j: nat)
    requires i < j < |calls| && i in Survivors(calls, p, |calls|, ip, e) && PushedAt(calls, p, j, ip, e)
    requires forall k: nat | j < k < |calls| :: !CleanedAt(calls, p, k, ip, e.domain)
    ensures |Survivors(calls, p, |calls|, ip, e)| > 1
  {
    hide PushedAt, CleanedAt;
    var both := {i, j};
    assert |both| == 2;
    SubsetSize(both, Survivors(calls, p, |calls|, ip, e));
  }

  lemma SubsetSize(a: set<nat>, b: set<nat>)
    requires a <= b
    ensures |a| <= |b|
  {
    if x :| x in a {
      SubsetSize(a - {x}, b - {x});
    }
  }

  /** When a run ends with an exact index: if and only if no call appended an entry that has since been replaced or
      removed and not been cleaned from its list. */
  lemma MirrorExactly(calls: seq<Call>, p: Platform)
    ensures Mirror(Run(EMPTY, calls, p)) <==> forall i: nat | i < |calls| :: !Leftover(calls, p, i)
  {
    hide Run, Listed, Survivors, Leftover, Indexed, Mirror;
    var s := Run(EMPTY, calls, p);
    if forall i: nat | i < |calls| :: !Leftover(calls, p, i) {
      forall ip, e
        ensures multiset(Listed(s, ip))[e] == if Current(s, e) && e.ipAddr == ip then 1 else 0
      {
        NoLeftovers(calls, p, ip, e);
      }
      IsMirror(s);
    } else {
      var i: nat :| i < |calls| && Leftover(calls, p, i);
      LeftoverBreaks(calls, p, i);
    }
  }

  lemma IsMirror(s: State)
    requires forall ip, e :: multiset(Listed(s, ip))[e] == if Current(s, e) && e.ipAddr == ip then 1 else 0
    ensures Mirror(s)
  {
  }

  lemma NoLeftovers(calls: seq<Call>, p: Platform, ip: Bytes, e: Certificate)
    requires forall i: nat | i < |calls| :: !Leftover(calls, p, i)
    ensures var s := Run(EMPTY, calls, p);
            multiset(Listed(s, ip))[e] == if Current(s, e) && e.ipAddr == ip then 1 else 0
  {
    hide Run, Listed, Leftover, PushedAt, CleanedAt;
    var s, all := Run(EMPTY, calls, p), Survivors(calls, p, |calls|, ip, e);
    AlwaysIndexed(calls, p);
    ListedExactly(calls, p, ip, e);
    assert Current(s, e) && e.ipAddr == ip ==> e in Listed(s, ip);
    if i :| i in all {
      OneSurvivor(calls, p, ip, e, i);
      forall j | j in all
        ensures j == i
      {
        OneSurvivor(calls, p, ip, e, j);
      }
      assert all == {i};
    }
  }

  // ----- ownership -----

  /** The sender of the register call that opened the current registration of a domain, if it is registered. */
  function Opener(calls: seq<Call>, p: Platform, domain: Bytes): Option<AccountId> {
    if calls == [] then None
    else
      var n := |calls| - 1;
      var c := calls[n];
      if c.domain == domain && Failure(Run(EMPTY, calls[..n], p), c, p).None? && !c.Modify?
      then (if c.Register? then c.origin else None)
      else Opener(calls[..n], p, domain)
  }

  /** Ownership: at every point of every run a domain is registered exactly when it has an opener, and that
      account owns it. */
  lemma {:induction false} OwnerIsOpener(calls: seq<Call>, p: Platform, domain: Bytes)
    ensures var s := Run(EMPTY, calls, p);
            Opener(calls, p, domain) == if domain in s.certs then Some(s.certs[domain].owner) else None
  {
    hide FieldError, DomainOk, Others;
    if calls != [] {
      OwnerIsOpener(calls[..|calls| - 1], p, domain);
    }
  }

  /** Every successful modify or remove of a domain was sent by the account that opened its registration. */
  lemma OnlyOpenerChanges(calls: seq<Call>, c: Call, p: Platform)
    requires Failure(Run(EMPTY, calls, p), c, p).None? && !c.Register?
    ensures c.origin == Opener(calls, p, c.domain)
  {
    hide FieldError, DomainOk, Run, Opener;
    OwnerIsOpener(calls, p, c.domain);
  }

  // ----- every stored certificate passed validation -----

  ghost predicate Validated(s: State, p: Platform) {
    forall d | d in s.certs :: var c := s.certs[d];
      NameOk(p.utf8(c.name)) && DomainOk(p.utf8(c.domain), p.upper) && IpOk(p.utf8(c.ipAddr)) &&
      InfoOk(p.utf8(c.info), p.json) && KeyOk(p.utf8(c.key))
  }

  lemma {:induction false} AlwaysValidated(calls: seq<Call>, p: Platform)
    ensures Validated(Run(EMPTY, calls, p), p)
  {
    hide NameOk, DomainOk, IpOk, InfoOk, KeyOk, Others;
    if calls != [] {
      AlwaysValidated(calls[..|calls| - 1], p);
    }
  }
}
