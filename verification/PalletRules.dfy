/** The rules of the three pallet calls, stated outright: when each succeeds, which error it gives, what it stores. */
module PalletRules {
  import opened Wrappers
  import opened Criteria
  import opened KeyText
  import opened Pallet
  import opened PalletRuns

  /** A check of a call, and the error when it fails. */
  datatype Check = Check(ok: bool, error: Error)

  /** The error of the first failing check; none when all pass. */
  function FirstError(checks: seq<Check>): Option<Error> {
    if checks == [] then None else if checks[0].ok then FirstError(checks[1..]) else Some(checks[0].error)
  }

  lemma {:induction false} FirstErrorMeaning(checks: seq<Check>, i: nat)
    requires i < |checks| && !checks[i].ok && forall k | 0 <= k < i :: checks[k].ok
    ensures FirstError(checks) == Some(checks[i].error)
  {
    if i > 0 {
      FirstErrorMeaning(checks[1..], i - 1);
    }
  }

  lemma {:induction false} NoError(checks: seq<Check>)
    ensures FirstError(checks).None? <==> forall k | 0 <= k < |checks| :: checks[k].ok
  {
    if checks != [] {
      NoError(checks[1..]);
      assert forall k | 0 < k < |checks| :: checks[k] == checks[1..][k - 1];
      assert forall k | 0 <= k < |checks[1..]| :: checks[1..][k] == checks[k + 1];
    }
  }

  lemma FirstErrorCons(c: Check, checks: seq<Check>)
    ensures FirstError([c] + checks) == if c.ok then FirstError(checks) else Some(c.error)
  {
    assert ([c] + checks)[1..] == checks;
  }

  /** The checks of the five fields, in order. */
  function FieldChecks(c: Call, p: Platform): seq<Check>
    requires !c.Remove?
  {
    [Check(NameOk(p.utf8(c.name)), InvalidOwner), Check(DomainOk(p.utf8(c.domain), p.upper), InvalidDomain),
     Check(IpOk(p.utf8(c.ipAddr)), InvalidIP), Check(InfoOk(p.utf8(c.info), p.json), InvalidInfo),
     Check(KeyOk(p.utf8(c.key)), InvalidKey)]
  }

  ghost predicate FieldsOk(c: Call, p: Platform)
    requires !c.Remove?
  {
    NameOk(p.utf8(c.name)) && DomainOk(p.utf8(c.domain), p.upper) && IpOk(p.utf8(c.ipAddr)) &&
    InfoOk(p.utf8(c.info), p.json) && KeyOk(p.utf8(c.key))
  }

  lemma NoFieldError(c: Call, p: Platform)
    requires !c.Remove?
    ensures FieldError(c, p).None? <==> FieldsOk(c, p)
  {
  }

  lemma AfterFields(c: Call, p: Platform, more: seq<Check>)
    requires !c.Remove?
    ensures FirstError(FieldChecks(c, p) + more) ==
            if FieldError(c, p).Some? then FieldError(c, p) else FirstError(more)
  {
    hide NameOk, DomainOk, IpOk, InfoOk, KeyOk, FirstError;
    var f := FieldChecks(c, p);
    FirstErrorCons(f[4], more);
    FirstErrorCons(f[3], [f[4]] + more);
    FirstErrorCons(f[2], [f[3]] + ([f[4]] + more));
    FirstErrorCons(f[1], [f[2]] + ([f[3]] + ([f[4]] + more)));
    FirstErrorCons(f[0], [f[1]] + ([f[2]] + ([f[3]] + ([f[4]] + more))));
    assert f + more == [f[0]] + ([f[1]] + ([f[2]] + ([f[3]] + ([f[4]] + more))));
  }

  lemma OneCheck(c: Check)
    ensures FirstError([c]) == if c.ok then None else Some(c.error)
  {
    FirstErrorCons(c, []);
    assert [c] + [] == [c];
  }

  lemma OthersLast(a: seq<Certificate>, c: Certificate, domain: Bytes)
    ensures Others(a + [c], domain) == Others(a, domain) + if c.domain == domain then [] else [c]
  {
    assert (a + [c])[..|a + [c]| - 1] == a;
  }

  lemma OthersOne(c: Certificate, domain: Bytes)
    ensures Others([c], domain) == if c.domain == domain then [] else [c]
  {
    OthersLast([], c, domain);
    assert [] + [c] == [c];
  }

  lemma Regroup(a: seq<Certificate>, b: seq<Certificate>, c: seq<Certificate>)
    ensures a + (b + c) == a + b + c
  {
  }

  /** What is left of a list: with `OthersOne`, an entry stays exactly when it is of another domain; the order is
      kept. */
  lemma {:induction false} OthersAppend(a: seq<Certificate>, b: seq<Certificate>, domain: Bytes)
    ensures Others(a + b, domain) == Others(a, domain) + Others(b, domain)
    decreases |b|
  {
    if b == [] {
      assert a + b == a;
    } else {
      hide Others;
      var b', c := b[..|b| - 1], b[|b| - 1];
      Regroup(a, b', [c]);
      assert b == b' + [c];
      OthersAppend(a, b', domain);
      OthersLast(b', c, domain);
      OthersLast(a + b', c, domain);
      Regroup(Others(a, domain), Others(b', domain), if c.domain == domain then [] else [c]);
    }
  }

  // ----- register -----

  /** A register succeeds exactly when it is signed, its five fields are in their languages and the domain is free;
      otherwise it gives the error of the first of these that fails. It stores exactly the submitted fields, for the
      sender, and appends them to the list of the address; nothing else changes, and nothing at all if it fails. */
  lemma RegisterRules(s: State, c: Call, p: Platform)
    requires c.Register?
    ensures Failure(s, c, p) ==
            FirstError([Check(c.origin.Some?, BadOrigin)] + (FieldChecks(c, p) +
                       [Check(c.domain !in s.certs, DomainAlreadyTaken)]))
    ensures Failure(s, c, p).None? <==> c.origin.Some? && FieldsOk(c, p) && c.domain !in s.certs
    ensures Failure(s, c, p).None? ==>
              var cert := Certificate(1, c.origin.value, c.name, c.info, c.key, c.ipAddr, c.domain);
              Step(s, c, p).certs == s.certs[c.domain := cert] &&
              forall ip :: Listed(Step(s, c, p), ip) == Listed(s, ip) + if ip == c.ipAddr then [cert] else []
    ensures Failure(s, c, p).Some? ==> Step(s, c, p) == s
  {
    NoFieldError(c, p);
    hide FirstError, FieldChecks, FieldError, FieldsOk;
    var last := Check(c.domain !in s.certs, DomainAlreadyTaken);
    OneCheck(last);
    AfterFields(c, p, [last]);
    FirstErrorCons(Check(c.origin.Some?, BadOrigin), FieldChecks(c, p) + [last]);
  }

  // ----- modify -----

  /** Certificates stored on a reachable chain carry the version and their own domain. */
  ghost predicate Versioned(s: State) {
    forall d | d in s.certs :: s.certs[d].version == 1 && s.certs[d].domain == d
  }

  lemma {:induction false} AlwaysVersioned(calls: seq<Call>, p: Platform)
    ensures Versioned(Run(EMPTY, calls, p))
  {
    hide FieldError, DomainOk, Others;
    if calls != [] {
      AlwaysVersioned(calls[..|calls| - 1], p);
    }
  }

  /** Whether a call would change what is stored for its domain. */
  ghost predicate Differs(s: State, c: Call)
    requires !c.Remove?
  {
    c.domain in s.certs &&
    var stored := s.certs[c.domain];
    c.name != stored.name || c.info != stored.info || c.key != stored.key || c.ipAddr != stored.ipAddr
  }

  /** On every reachable chain: a modify succeeds exactly when it is signed, its five fields are in their languages, the
      domain is registered, the sender owns it, and name, info, key or address differs from what is stored; otherwise
      it gives the error of the first of these that fails. It stores exactly the submitted fields, and in the list
      of the submitted address, and in no other, replaces the entries of the domain by them. */
  lemma ModifyRules(calls: seq<Call>, c: Call, p: Platform)
    requires c.Modify?
    ensures var s := Run(EMPTY, calls, p);
            Failure(s, c, p) ==
            FirstError([Check(c.origin.Some?, BadOrigin)] + (FieldChecks(c, p) +
                       [Check(c.domain in s.certs, NonexistentDomain),
                        Check(c.domain in s.certs && c.origin == Some(s.certs[c.domain].owner), DifferentOwner),
                        Check(Differs(s, c), NoModifications)]))
    ensures var s := Run(EMPTY, calls, p);
            Failure(s, c, p).None? <==>
              c.origin.Some? && FieldsOk(c, p) && c.domain in s.certs &&
              c.origin.value == s.certs[c.domain].owner && Differs(s, c)
    ensures var s := Run(EMPTY, calls, p);
            Failure(s, c, p).None? ==>
              var cert := Certificate(1, c.origin.value, c.name, c.info, c.key, c.ipAddr, c.domain);
              Step(s, c, p).certs == s.certs[c.domain := cert] &&
              forall ip :: Listed(Step(s, c, p), ip) ==
                           if ip == c.ipAddr then Others(Listed(s, ip), c.domain) + [cert] else Listed(s, ip)
    ensures var s := Run(EMPTY, calls, p); Failure(s, c, p).Some? ==> Step(s, c, p) == s
  {
    AlwaysVersioned(calls, p);
    ModifyChecks(Run(EMPTY, calls, p), c, p);
    hide FirstError, FieldChecks, FieldError, Run, Others, Differs, FieldsOk;
  }

  lemma ModifyChecks(s: State, c: Call, p: Platform)
    requires c.Modify? && Versioned(s)
    ensures Failure(s, c, p) ==
            FirstError([Check(c.origin.Some?, BadOrigin)] + (FieldChecks(c, p) +
                       [Check(c.domain in s.certs, NonexistentDomain),
                        Check(c.domain in s.certs && c.origin == Some(s.certs[c.domain].owner), DifferentOwner),
                        Check(Differs(s, c), NoModifications)]))
    ensures Failure(s, c, p).None? <==>
              c.origin.Some? && FieldsOk(c, p) && c.domain in s.certs &&
              c.origin.value == s.certs[c.domain].owner && Differs(s, c)
  {
    NoFieldError(c, p);
    hide FirstError, FieldChecks, FieldError, FieldsOk;
    var a := Check(c.domain in s.certs, NonexistentDomain);
    var b := Check(c.domain in s.certs && c.origin == Some(s.certs[c.domain].owner), DifferentOwner);
    var d := Check(Differs(s, c), NoModifications);
    OneCheck(d);
    FirstErrorCons(b, [d]);
    FirstErrorCons(a, [b] + [d]);
    assert [a] + ([b] + [d]) == [a, b, d];
    AfterFields(c, p, [a, b, d]);
    FirstErrorCons(Check(c.origin.Some?, BadOrigin), FieldChecks(c, p) + [a, b, d]);
  }

  // ----- remove -----

  /** A remove succeeds exactly when it is signed, the domain is valid and registered, and the sender owns it. It
      deletes the certificate, and the entries of the domain in the list of the certificate's address. */
  lemma RemoveRules(s: State, c: Call, p: Platform)
    requires c.Remove?
    ensures Failure(s, c, p) ==
            FirstError([Check(c.origin.Some?, BadOrigin), Check(DomainOk(p.utf8(c.domain), p.upper), InvalidDomain),
                        Check(c.domain in s.certs, NonexistentDomain),
                        Check(c.domain in s.certs && c.origin == Some(s.certs[c.domain].owner), DifferentOwner)])
    ensures Failure(s, c, p).None? <==>
              c.origin.Some? && DomainOk(p.utf8(c.domain), p.upper) && c.domain in s.certs &&
              c.origin.value == s.certs[c.domain].owner
    ensures Failure(s, c, p).None? ==>
              Step(s, c, p).certs == s.certs - {c.domain} &&
              forall ip :: Listed(Step(s, c, p), ip) ==
                           if ip == s.certs[c.domain].ipAddr then Others(Listed(s, ip), c.domain) else Listed(s, ip)
    ensures Failure(s, c, p).Some? ==> Step(s, c, p) == s
  {
    hide FirstError, DomainOk, Others;
    var o := Check(c.origin.Some?, BadOrigin);
    var v := Check(DomainOk(p.utf8(c.domain), p.upper), InvalidDomain);
    var a := Check(c.domain in s.certs, NonexistentDomain);
    var b := Check(c.domain in s.certs && c.origin == Some(s.certs[c.domain].owner), DifferentOwner);
    OneCheck(b);
    FirstErrorCons(a, [b]);
    FirstErrorCons(v, [a] + [b]);
    FirstErrorCons(o, [v] + ([a] + [b]));
    assert [o] + ([v] + ([a] + [b])) == [o, v, a, b];
  }
}
