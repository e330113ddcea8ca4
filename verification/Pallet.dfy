/**
 The SIIP certificate pallet (node/pallets/siip/src/lib.rs): a primary map from domains to certificates, a
 secondary index from IP addresses to lists of certificates, and three calls.
 */
module Pallet {
  import opened Wrappers
  import opened Text
  import opened Criteria
  import opened KeyText

  type AccountId = nat

  const CERTIFICATE_VERSION := 1

  datatype Certificate = Certificate(version: int, owner: AccountId, name: Bytes, info: Bytes, key: Bytes,
                                     ipAddr: Bytes, domain: Bytes)

  datatype State = State(certs: map<Bytes, Certificate>, byIp: map<Bytes, seq<Certificate>>)

  const EMPTY := State(map[], map[])

  /** `origin` None: the extrinsic is not signed. */
  datatype Call =
    | Register(origin: Option<AccountId>, name: Bytes, domain: Bytes, ipAddr: Bytes, info: Bytes, key: Bytes)
    | Modify(origin: Option<AccountId>, name: Bytes, domain: Bytes, ipAddr: Bytes, info: Bytes, key: Bytes)
    | Remove(origin: Option<AccountId>, domain: Bytes)

  datatype Error = BadOrigin | InvalidOwner | InvalidDomain | InvalidIP | InvalidInfo | InvalidKey
                 | DomainAlreadyTaken | NonexistentDomain | DifferentOwner | NoModifications

  function Listed(s: State, ip: Bytes): seq<Certificate> {
    if ip in s.byIp then s.byIp[ip] else []
  }

  /** `certs.retain(|x| x.domain != domain)` */
  function Others(list: seq<Certificate>, domain: Bytes): seq<Certificate> {
    if list == [] then []
    else
      var last := list[|list| - 1];
      Others(list[..|list| - 1], domain) + (if last.domain != domain then [last] else [])
  }

  /** The input validation shared by register and modify, in its order. */
  function FieldError(c: Call, p: Platform): Option<Error>
    requires !c.Remove?
  {
    if !NameOk(p.utf8(c.name)) then Some(InvalidOwner)
    else if !DomainOk(p.utf8(c.domain), p.upper) then Some(InvalidDomain)
    else if !IpOk(p.utf8(c.ipAddr)) then Some(InvalidIP)
    else if !InfoOk(p.utf8(c.info), p.json) then Some(InvalidInfo)
    else if !KeyOk(p.utf8(c.key)) then Some(InvalidKey)
    else None
  }

  function NewCertificate(c: Call): Certificate
    requires !c.Remove? && c.origin.Some?
  {
    Certificate(CERTIFICATE_VERSION, c.origin.value, c.name, c.info, c.key, c.ipAddr, c.domain)
  }

  /** Why a call fails; None: it succeeds. */
  function Failure(s: State, c: Call, p: Platform): Option<Error> {
    if c.origin.None? then Some(BadOrigin)
    else match c
      case Register(_, _, domain, _, _, _) =>
        if FieldError(c, p).Some? then FieldError(c, p)
        else if domain in s.certs then Some(DomainAlreadyTaken)
        else None
      case Modify(origin, _, domain, _, _, _) =>
        if FieldError(c, p).Some? then FieldError(c, p)
        else if domain !in s.certs then Some(NonexistentDomain)
        else if origin.value != s.certs[domain].owner then Some(DifferentOwner)
        else if NewCertificate(c) == s.certs[domain] then Some(NoModifications)
        else None
      case Remove(origin, domain) =>
        if !DomainOk(p.utf8(domain), p.upper) then Some(InvalidDomain)
        else if domain !in s.certs then Some(NonexistentDomain)
        else if origin.value != s.certs[domain].owner then Some(DifferentOwner)
        else None
  }

  /** The effect of a successful call. Modify cleans only the list of the new address. */
  function Effect(s: State, c: Call): State
    requires c.origin.Some? && (c.Remove? ==> c.domain in s.certs)
  {
    match c
    case Register(_, _, domain, ip, _, _) =>
      var cert := NewCertificate(c);
      State(s.certs[domain := cert], s.byIp[ip := Listed(s, ip) + [cert]])
    case Modify(_, _, domain, ip, _, _) =>
      var cert := NewCertificate(c);
      State(s.certs[domain := cert], s.byIp[ip := Others(Listed(s, ip), domain) + [cert]])
    case Remove(_, domain) =>
      var ip := s.certs[domain].ipAddr;
      State(s.certs - {domain}, s.byIp[ip := Others(Listed(s, ip), domain)])
  }

  function Step(s: State, c: Call, p: Platform): State {
    if Failure(s, c, p).None? then Effect(s, c) else s
  }

  /** The state after a run of calls. */
  function Run(s: State, calls: seq<Call>, p: Platform): State {
    if calls == [] then s else Step(Run(s, calls[..|calls| - 1], p), calls[|calls| - 1], p)
  }

  // ----- the dispatchables -----

  class SiipModule {
    const platform: Platform
    var certificateMap: map<Bytes, Certificate>
    var reverseMap: map<Bytes, seq<Certificate>>

    ghost function Storage(): State
      reads this
    {
      State(certificateMap, reverseMap)
    }

    constructor (platform: Platform)
      ensures this.platform == platform && Storage() == EMPTY
    {
      this.platform := platform;
      certificateMap, reverseMap := map[], map[];
    }

    /** The five reports, searched for "Err:" one after the other. */
    method ValidateFields(name: Bytes, domain: Bytes, ip: Bytes, info: Bytes, key: Bytes, ghost c: Call)
      returns (error: Option<Error>)
      requires !c.Remove? && (name, domain, ip, info, key) == (c.name, c.domain, c.ipAddr, c.info, c.key)
      ensures error == FieldError(c, platform)
      ensures error != Some(NoModifications)
    {
      hide Render, Contains, NameOk, DomainOk, IpOk, InfoOk, KeyOk;
      hide NameCriteria, DomainCriteria, IpCriteria, InfoCriteria, KeyCriteria;
      var p := platform;
      NameAndInfoValidation(p.utf8(name), p.json);
      var report := CheckName(name, p);
      if Contains(report, ERR) { return Some(InvalidOwner); }
      DomainValidation(p.utf8(domain), p.upper);
      report := CheckDomain(domain, p);
      if Contains(report, ERR) { return Some(InvalidDomain); }
      IpValidation(p.utf8(ip));
      report := CheckIp(ip, p);
      if Contains(report, ERR) { return Some(InvalidIP); }
      NameAndInfoValidation(p.utf8(info), p.json);
      report := CheckInfo(info, p);
      if Contains(report, ERR) { return Some(InvalidInfo); }
      KeyValidation(p.utf8(key));
      report := CheckKey(key, p);
      if Contains(report, ERR) { return Some(InvalidKey); }
      return None;
    }

    /** `ReverseMap::take`: the list, removed from storage. */
    method TakeList(ip: Bytes) returns (certs: seq<Certificate>)
      modifies this`reverseMap
      ensures certs == Listed(old(Storage()), ip)
      ensures reverseMap == old(reverseMap) - {ip}
    {
      certs := if ip in reverseMap then reverseMap[ip] else [];
      reverseMap := reverseMap - {ip};
    }

    method RegisterCertificate(origin: Option<AccountId>, name: Bytes, domain: Bytes, ip: Bytes,
                               info: Bytes, key: Bytes)
      returns (error: Option<Error>)
      modifies this
      ensures error == Failure(old(Storage()), Register(origin, name, domain, ip, info, key), platform)
      ensures Storage() == Step(old(Storage()), Register(origin, name, domain, ip, info, key), platform)
      ensures error.None? ==>
                var cert := Certificate(1, origin.value, name, info, key, ip, domain);
                certificateMap == old(certificateMap)[domain := cert]
    {
      hide FieldError, Others;
      if origin.None? {
        return Some(BadOrigin);
      }
      error := ValidateFields(name, domain, ip, info, key, Register(origin, name, domain, ip, info, key));
      if error.Some? {
        return;
      }
      if domain in certificateMap {
        return Some(DomainAlreadyTaken);
      }
      var cert := Certificate(CERTIFICATE_VERSION, origin.value, name, info, key, ip, domain);
      certificateMap := certificateMap[domain := cert];
      var certs := TakeList(ip);
      certs := certs + [cert];
      reverseMap := reverseMap[ip := certs];
      assert reverseMap == old(reverseMap)[ip := certs];
    }

    method ModifyCertificate(origin: Option<AccountId>, name: Bytes, domain: Bytes, ip: Bytes,
                             info: Bytes, key: Bytes)
      returns (error: Option<Error>)
      modifies this
      ensures error == Failure(old(Storage()), Modify(origin, name, domain, ip, info, key), platform)
      ensures Storage() == Step(old(Storage()), Modify(origin, name, domain, ip, info, key), platform)
      ensures error.None? ==>
                var cert := Certificate(1, origin.value, name, info, key, ip, domain);
                certificateMap == old(certificateMap)[domain := cert]
      ensures error == Some(NoModifications) ==>
                domain in old(certificateMap) &&
                old(certificateMap)[domain] == Certificate(1, origin.value, name, info, key, ip, domain)
    {
      hide FieldError, Others;
      if origin.None? {
        return Some(BadOrigin);
      }
      error := ValidateFields(name, domain, ip, info, key, Modify(origin, name, domain, ip, info, key));
      if error.Some? {
        return;
      }
      if domain !in certificateMap {
        return Some(NonexistentDomain);
      }
      var cert := Certificate(CERTIFICATE_VERSION, origin.value, name, info, key, ip, domain);
      var oldCert := certificateMap[domain];
      if origin.value != oldCert.owner {
        return Some(DifferentOwner);
      }
      if cert == oldCert {
        return Some(NoModifications);
      }
      certificateMap := certificateMap - {domain};
      certificateMap := certificateMap[domain := cert];
      assert certificateMap == old(certificateMap)[domain := cert];
      var certs := TakeList(ip);
      certs := Others(certs, domain);
      certs := certs + [cert];
      reverseMap := reverseMap[ip := certs];
      assert reverseMap == old(reverseMap)[ip := certs];
    }

    method RemoveCertificate(origin: Option<AccountId>, domain: Bytes) returns (error: Option<Error>)
      modifies this
      ensures error == Failure(old(Storage()), Remove(origin, domain), platform)
      ensures Storage() == Step(old(Storage()), Remove(origin, domain), platform)
    {
      hide Render, Others, Contains, DomainOk, DomainCriteria;
      if origin.None? {
        return Some(BadOrigin);
      }
      DomainValidation(platform.utf8(domain), platform.upper);
      var report := CheckDomain(domain, platform);
      if Contains(report, ERR) {
        return Some(InvalidDomain);
      }
      if domain !in certificateMap {
        return Some(NonexistentDomain);
      }
      var oldCert := certificateMap[domain];
      if origin.value != oldCert.owner {
        return Some(DifferentOwner);
      }
      certificateMap := certificateMap - {domain};
      var certs := TakeList(oldCert.ipAddr);
      certs := Others(certs, domain);
      reverseMap := reverseMap[oldCert.ipAddr := certs];
      assert reverseMap == old(reverseMap)[oldCert.ipAddr := certs];
      error := None;
    }
  }
}
