/**
 The field validators of the certificate pallet (node/pallets/siip/src/lib.rs). A validator reports one
 line per criterion, "Ok: ..." or "Err: ...", and the pallet accepts a field when the report does not
 contain "Err:". UTF-8 decoding, `char::is_uppercase` and JSON parsing are parameters.
 */
module Criteria {
  import opened Wrappers
  import opened Text

  const ERR := "Err:"

  datatype Criterion = Criterion(ok: bool, message: string)

  function Line(c: Criterion): string {
    (if c.ok then "Ok: " else "Err: ") + c.message + "\n"
  }

  /** A report: its lines one after the other. */
  function Render(cs: seq<Criterion>): string {
    if cs == [] then "" else Line(cs[0]) + Render(cs[1..])
  }

  /** A message that cannot be mistaken for a verdict. */
  ghost predicate Quiet(message: string) {
    Free(message, ERR) && '\n' !in message
  }

  ghost predicate AllQuiet(cs: seq<Criterion>) {
    forall c | c in cs :: Quiet(c.message)
  }

  predicate AllOk(cs: seq<Criterion>) {
    forall c | c in cs :: c.ok
  }

  // ----- "Err:" is in a report exactly when a criterion failed -----

  lemma FreeAcross(a: string, c: char, b: string, p: string)
    requires c !in p && p != "" && Free(a, p) && Free(b, p)
    ensures Free(a + [c] + b, p)
  {
    var s := a + [c] + b;
    forall i
      ensures !Occurs(s, p, i)
    {
      if 0 <= i && i + |p| <= |s| {
        if i + |p| <= |a| {
          assert !Occurs(a, p, i);
          assert s[i..i + |p|] == a[i..i + |p|];
        } else if i > |a| {
          assert !Occurs(b, p, i - |a| - 1);
          assert s[i..i + |p|] == b[i - |a| - 1..i - |a| - 1 + |p|];
        } else {
          assert s[i..i + |p|][|a| - i] == c;
        }
      }
    }
  }

  lemma FreeAfter(prefix: string, t: string, p: string)
    requires p != "" && p[0] !in prefix && Free(t, p)
    ensures Free(prefix + t, p)
  {
    var s := prefix + t;
    forall i
      ensures !Occurs(s, p, i)
    {
      if 0 <= i && i + |p| <= |s| {
        if i < |prefix| {
          assert s[i..i + |p|][0] == prefix[i];
        } else {
          assert !Occurs(t, p, i - |prefix|);
          assert s[i..i + |p|] == t[i - |prefix|..i - |prefix| + |p|];
        }
      }
    }
  }

  lemma {:induction false} OkReport(cs: seq<Criterion>)
    requires AllQuiet(cs) && AllOk(cs)
    ensures Free(Render(cs), ERR)
  {
    if cs != [] {
      var c, t := cs[0], cs[1..];
      assert c in cs && c.ok && Quiet(c.message);
      assert AllQuiet(t) && AllOk(t) by {
        assert forall d | d in t :: d in cs;
      }
      OkReport(t);
      FreeAfter("Ok: ", c.message, ERR);
      FreeAcross("Ok: " + c.message, '\n', Render(t), ERR);
      assert Render(cs) == "Ok: " + c.message + ['\n'] + Render(t);
    }
  }

  lemma {:induction false} ErrReport(cs: seq<Criterion>)
    requires !AllOk(cs)
    ensures !Free(Render(cs), ERR)
  {
    var c, t := cs[0], cs[1..];
    if c.ok {
      var d :| d in cs && !d.ok;
      assert d in t;
      ErrReport(t);
      var i :| Occurs(Render(t), ERR, i);
      OccursInSuffix(Line(c), Render(t), ERR, |Line(c)| + i);
    } else {
      assert Render(cs)[0..4] == ERR;
      assert Occurs(Render(cs), ERR, 0);
    }
  }

  /** No match inside an Ok line or across line joins: the report accepts exactly when all is Ok. */
  lemma ReportMeaning(cs: seq<Criterion>)
    requires AllQuiet(cs)
    ensures Contains(Render(cs), ERR) <==> !AllOk(cs)
  {
    if AllOk(cs) {
      OkReport(cs);
    } else {
      ErrReport(cs);
    }
  }

  // ----- the criteria of each field -----

  const VALID_STRING := "Must be a valid string"
  const NAME_LENGTH := "Must be at least 1 " + "character long"
  const DOMAIN_LENGTH := "Must be shorter " + "than 64 characters"
  const DOMAIN_SYMBOLS := "Must not contain the " + "characters: '_', ' ', " + "'!', '@','#', '$', " +
                          "'^', '&', '*', '(', " + "')', '\\n'"
  const DOMAIN_CASE := "Characters may " + "not be uppercase"
  const DOMAIN_TLD := "TLD must be between " + "2 and 63characters " + "in length"
  const DOMAIN_SUB := "Subdomain must be " + "at least 1 character " + "long"
  const IP_PERIODS := "There must be " + "three periods"
  const IP_SECTIONS := "There must be four " + "sections (separated " + "by periods)"
  const IP_NUMBERS := "Numbers must be " + "between 0 and 255"
  const INFO_JSON := "Must be a valid json"
  const KEY_SEPARATORS := "E" + ("very pair of " + "hexadecimal digits " + "must be separated " + "by ':'")
  const KEY_VALUES := "Non-separators must " + "be valid hexadecimal " + "digits (uppercase " + "hexadecimal)"

  const INVALID_CHARS := ['_', ' ', '!', '@', '#', '$', '^', '&', '*', '(', ')', '\n']

  /** No character that starts "Err:" and no line break. */
  ghost predicate Plain(s: string) {
    forall i | 0 <= i < |s| :: s[i] != 'E' && s[i] != '\n'
  }

  lemma PlainSum(a: string, b: string)
    requires Plain(a) && Plain(b)
    ensures Plain(a + b)
  {
  }

  lemma PlainIsQuiet(message: string)
    requires Plain(message)
    ensures Quiet(message)
  {
    assert forall i :: Occurs(message, ERR, i) ==> message[i..i + 4][0] == message[i];
  }

  lemma PlainTwo(a: string, b: string)
    requires Plain(a) && Plain(b)
    ensures Quiet(a + b)
  {
    PlainSum(a, b);
    PlainIsQuiet(a + b);
  }

  lemma PlainThree(a: string, b: string, c: string)
    requires Plain(a) && Plain(b) && Plain(c)
    ensures Quiet(a + b + c)
  {
    PlainSum(a, b);
    PlainTwo(a + b, c);
  }

  lemma IpMessages()
    ensures Quiet(IP_PERIODS) && Quiet(IP_SECTIONS) && Quiet(IP_NUMBERS)
  {
    hide Quiet;
    PlainTwo("There must be ", "three periods");
    PlainThree("There must be four ", "sections (separated ", "by periods)");
    PlainTwo("Numbers must be ", "between 0 and 255");
  }

  lemma NameMessages()
    ensures Quiet(VALID_STRING) && Quiet(NAME_LENGTH) && Quiet(INFO_JSON)
  {
    hide Quiet;
    PlainIsQuiet(VALID_STRING);
    PlainTwo("Must be at least 1 ", "character long");
    PlainIsQuiet(INFO_JSON);
  }

  lemma DomainMessages()
    ensures Quiet(DOMAIN_LENGTH) && Quiet(DOMAIN_CASE)
  {
    hide Quiet;
    PlainTwo("Must be shorter ", "than 64 characters");
    PlainTwo("Characters may ", "not be uppercase");
  }

  lemma SubdomainMessages()
    ensures Quiet(DOMAIN_TLD) && Quiet(DOMAIN_SUB)
  {
    hide Quiet;
    PlainThree("TLD must be between ", "2 and 63characters ", "in length");
    PlainThree("Subdomain must be ", "at least 1 character ", "long");
  }

  lemma SymbolMessage()
    ensures Quiet(DOMAIN_SYMBOLS)
  {
    hide Quiet;
    PlainSum("Must not contain the ", "characters: '_', ' ', ");
    PlainSum("Must not contain the " + "characters: '_', ' ', ", "'!', '@','#', '$', ");
    PlainThree("Must not contain the " + "characters: '_', ' ', " + "'!', '@','#', '$', ",
               "'^', '&', '*', '(', ", "')', '\\n'");
  }

  lemma KeyMessages()
    ensures Quiet(KEY_VALUES)
  {
    hide Quiet;
    PlainSum("Non-separators must ", "be valid hexadecimal ");
    PlainThree("Non-separators must " + "be valid hexadecimal ", "digits (uppercase ", "hexadecimal)");
  }

  lemma SeparatorMessage()
    ensures Quiet(KEY_SEPARATORS)
  {
    hide Quiet;
    PlainSum("very pair of ", "hexadecimal digits ");
    PlainThree("very pair of " + "hexadecimal digits ", "must be separated ", "by ':'");
    QuietAfterE("very pair of " + "hexadecimal digits " + "must be separated " + "by ':'");
  }

  lemma QuietAfterE(rest: string)
    requires Quiet(rest) && |rest| > 0 && rest[0] == 'v'
    ensures Quiet("E" + rest)
  {
    var s := "E" + rest;
    forall i
      ensures !Occurs(s, ERR, i)
    {
      if i >= 1 {
        OccursInSuffix("E", rest, ERR, i);
      } else if i == 0 && |rest| >= 3 {
        assert s[0..4][1] == 'v';
      }
    }
    assert forall c | c in s :: c == 'E' || c in rest;
  }

  // ----- the criteria, from the decoded text (None: not UTF-8) -----

  function Undecodable(): seq<Criterion> {
    [Criterion(false, VALID_STRING)]
  }

  function NameCriteria(name: Option<string>): seq<Criterion> {
    match name
    case None => Undecodable()
    case Some(s) => [Criterion(true, VALID_STRING), Criterion(|s| >= 1, NAME_LENGTH)]
  }

  function InfoCriteria(info: Option<string>, json: string -> bool): seq<Criterion> {
    match info
    case None => Undecodable()
    case Some(s) => [Criterion(true, VALID_STRING), Criterion(json(s), INFO_JSON)]
  }

  predicate TldOk(s: string) {
    var parts := Split(s, '.');
    |parts| >= 2 && 2 <= |parts[|parts| - 1]| <= 63
  }

  /** The last criterion compares with a top-level domain that is still empty there. */
  function DomainCriteria(domain: Option<string>, upper: char -> bool): seq<Criterion> {
    match domain
    case None => Undecodable()
    case Some(s) =>
      [Criterion(true, VALID_STRING),
       Criterion(|s| < 64, DOMAIN_LENGTH),
       Criterion(forall c | c in s :: c !in INVALID_CHARS, DOMAIN_SYMBOLS),
       Criterion(forall c | c in s :: !upper(c), DOMAIN_CASE),
       Criterion(TldOk(s), DOMAIN_TLD),
       Criterion(|s| - |""| > 1, DOMAIN_SUB)]
  }

  /** `str::parse::<u8>` after the sign: a digit fold that fails as soon as it leaves the range. */
  function FoldU8(acc: nat, s: string): Option<nat>
    decreases |s|
  {
    if s == "" then Some(acc)
    else if !IsDigit(s[0], 10) then None
    else if acc * 10 > 255 then None
    else if acc * 10 + Digit(s[0]) > 255 then None
    else FoldU8(acc * 10 + Digit(s[0]), s[1..])
  }

  function Unsigned(s: string): string {
    if s != "" && s[0] == '+' then s[1..] else s
  }

  function ParseU8(s: string): Option<nat> {
    if Unsigned(s) == "" then None else FoldU8(0, Unsigned(s))
  }

  function IpCriteria(ip: Option<string>): seq<Criterion> {
    match ip
    case None => Undecodable()
    case Some(s) =>
      var parts := Split(s, '.');
      [Criterion(true, VALID_STRING),
       Criterion(Count(s, '.') == 3, IP_PERIODS),
       Criterion(forall p | p in parts :: |p| >= 1, IP_SECTIONS),
       Criterion(forall p | p in parts :: ParseU8(p).Some?, IP_NUMBERS)]
  }

  predicate HexUpper(c: char) {
    '0' <= c <= '9' || 'A' <= c <= 'F'
  }

  predicate SeparatorAt(i: nat) {
    i != 0 && (i + 1) % 3 == 0
  }

  predicate SeparatorsOk(s: string) {
    (forall i | 0 <= i < |s| :: SeparatorAt(i) ==> s[i] == ':') && (s == "" || s[|s| - 1] != ':')
  }

  predicate ValuesOk(s: string) {
    forall i | 0 <= i < |s| :: !SeparatorAt(i) ==> HexUpper(s[i])
  }

  function KeyCriteria(key: Option<string>): seq<Criterion> {
    match key
    case None => Undecodable()
    case Some(s) =>
      [Criterion(true, VALID_STRING), Criterion(SeparatorsOk(s), KEY_SEPARATORS), Criterion(ValuesOk(s), KEY_VALUES)]
  }

  /** Every field passes exactly when all of its criteria hold. */
  lemma FieldVerdicts(text: Option<string>, upper: char -> bool, json: string -> bool)
    ensures Contains(Render(NameCriteria(text)), ERR) <==> !AllOk(NameCriteria(text))
    ensures Contains(Render(DomainCriteria(text, upper)), ERR) <==> !AllOk(DomainCriteria(text, upper))
    ensures Contains(Render(IpCriteria(text)), ERR) <==> !AllOk(IpCriteria(text))
    ensures Contains(Render(InfoCriteria(text, json)), ERR) <==> !AllOk(InfoCriteria(text, json))
    ensures Contains(Render(KeyCriteria(text)), ERR) <==> !AllOk(KeyCriteria(text))
  {
    hide Quiet, Render, AllOk, Contains, TldOk, ParseU8, SeparatorsOk, ValuesOk, Split, Count;
    NameMessages();
    IpMessages();
    DomainMessages();
    SubdomainMessages();
    SymbolMessage();
    KeyMessages();
    SeparatorMessage();
    ReportMeaning(NameCriteria(text));
    ReportMeaning(DomainCriteria(text, upper));
    ReportMeaning(IpCriteria(text));
    ReportMeaning(InfoCriteria(text, json));
    ReportMeaning(KeyCriteria(text));
  }

  // ----- names and info -----

  predicate NameOk(name: Option<string>) {
    name.Some? && name.value != ""
  }

  predicate InfoOk(info: Option<string>, json: string -> bool) {
    info.Some? && json(info.value)
  }

  lemma AllOkTwo(a: Criterion, b: Criterion)
    ensures AllOk([a, b]) <==> a.ok && b.ok
  {
    var cs := [a, b];
    assert cs[0] in cs && cs[1] in cs;
  }

  lemma UndecodableFails()
    ensures !AllOk(Undecodable())
  {
    assert Undecodable()[0] in Undecodable();
  }

  /** What the name and info checks decide. */
  lemma NameAndInfoValidation(text: Option<string>, json: string -> bool)
    ensures !Contains(Render(NameCriteria(text)), ERR) <==> NameOk(text)
    ensures NameOk(text) <==> text.Some? && text.value != ""
    ensures !Contains(Render(InfoCriteria(text, json)), ERR) <==> InfoOk(text, json)
    ensures InfoOk(text, json) <==> text.Some? && json(text.value)
  {
    hide Contains, Render, AllOk;
    FieldVerdicts(text, c => false, json);
    UndecodableFails();
    if text.Some? {
      AllOkTwo(Criterion(true, VALID_STRING), Criterion(|text.value| >= 1, NAME_LENGTH));
      AllOkTwo(Criterion(true, VALID_STRING), Criterion(json(text.value), INFO_JSON));
    }
  }

  // ----- domains -----

  /** The last criterion never decides: a domain that passes the one before it has more than one character. */
  lemma SubdomainRedundant(s: string)
    requires TldOk(s)
    ensures |s| > 1
  {
    hide Find, Split;
    HasPeriod(s);
    LastSection(s, '.');
  }

  lemma HasPeriod(s: string)
    requires TldOk(s)
    ensures '.' in s
  {
    hide Split;
    SplitUnfold(s, '.');
  }

  /** Short enough, no forbidden and no uppercase characters, and a last section of 2 to 63 characters. */
  predicate DomainOk(domain: Option<string>, upper: char -> bool) {
    domain.Some? && |domain.value| < 64 && TldOk(domain.value) &&
    forall c | c in domain.value :: c !in INVALID_CHARS && !upper(c)
  }

  lemma DomainCriteriaMeaning(s: string, upper: char -> bool)
    ensures AllOk(DomainCriteria(Some(s), upper)) <==> DomainOk(Some(s), upper)
  {
    hide AllOk, TldOk;
    var cs := DomainCriteria(Some(s), upper);
    AllOkSix(cs[0], cs[1], cs[2], cs[3], cs[4], cs[5]);
    assert cs == [cs[0], cs[1], cs[2], cs[3], cs[4], cs[5]];
    if TldOk(s) {
      SubdomainRedundant(s);
    }
  }

  /** What the domain check decides. */
  lemma DomainValidation(domain: Option<string>, upper: char -> bool)
    ensures !Contains(Render(DomainCriteria(domain, upper)), ERR) <==> DomainOk(domain, upper)
  {
    hide Contains, Render, AllOk;
    FieldVerdicts(domain, upper, s => false);
    if domain.Some? {
      hide DomainCriteria, DomainOk;
      DomainCriteriaMeaning(domain.value, upper);
    } else {
      UndecodableFails();
    }
  }

  /** The same without its own vocabulary: fewer than 64 characters, none of the twelve forbidden, none uppercase, and
      2 to 63 of them after the last period, of which there is one. */
  lemma DomainMeaning(domain: Option<string>, upper: char -> bool)
    ensures DomainOk(domain, upper) <==>
            domain.Some? &&
            var s := domain.value;
            |s| < 64 && (forall c | c in "_ !@#$^&*()\n" :: c !in s) && (forall c | c in s :: !upper(c)) &&
            exists k | 0 <= k < |s| :: s[k] == '.' && '.' !in s[k + 1..] && 2 <= |s| - k - 1 <= 63
  {
    hide TldOk;
    assert "_ !@#$^&*()\n" == INVALID_CHARS;
    if domain.Some? {
      TldMeaning(domain.value);
    }
  }

  lemma TldMeaning(s: string)
    ensures TldOk(s) <==> exists k | 0 <= k < |s| :: s[k] == '.' && '.' !in s[k + 1..] && 2 <= |s| - k - 1 <= 63
  {
    hide Split;
    SplitUnfold(s, '.');
    if '.' in s {
      LastSection(s, '.');
      SplitCount(s, '.');
      CountMember(s, '.');
      var parts := Split(s, '.');
      var n := |s| - |parts[|parts| - 1]| - 1;
      assert s[n + 1..] == parts[|parts| - 1];
      NoneAfter(s, n);
      forall k | 0 <= k < |s| && s[k] == '.' && '.' !in s[k + 1..]
        ensures k == n
      {
        NoneAfter(s, k);
      }
    }
  }

  lemma NoneAfter(s: string, k: nat)
    requires k < |s| && '.' !in s[k + 1..]
    ensures forall j | k < j < |s| :: s[j] != '.'
  {
    assert forall j | k < j < |s| :: s[k + 1..][j - k - 1] == s[j];
  }

  lemma AllOkSix(a: Criterion, b: Criterion, c: Criterion, d: Criterion, e: Criterion, f: Criterion)
    ensures AllOk([a, b, c, d, e, f]) <==> a.ok && b.ok && c.ok && d.ok && e.ok && f.ok
  {
    var cs := [a, b, c, d, e, f];
    assert cs[0] in cs && cs[1] in cs && cs[2] in cs && cs[3] in cs && cs[4] in cs && cs[5] in cs;
  }

  lemma BareTld()
    ensures TldOk(".com")
  {
    hide Split;
    assert ["", "com"][1..] == ["com"];
    assert Join(["com"], ".") == "com";
    assert Join(["", "com"], ".") == "" + "." + "com" == ".com";
    SplitJoin(["", "com"], '.');
  }

  /** The report says a subdomain needs a character, yet a bare ".com" passes. */
  lemma EmptySubdomainPasses()
    ensures !Contains(Render(DomainCriteria(Some(".com"), c => 'A' <= c <= 'Z')), ERR)
  {
    hide Contains, Render, DomainCriteria, TldOk;
    DomainValidation(Some(".com"), c => 'A' <= c <= 'Z');
    BareTld();
    assert DomainOk(Some(".com"), c => 'A' <= c <= 'Z');
  }

  /** What comes before the top-level domain, its period included. */
  function Subdomain(s: string): string {
    var parts := Split(s, '.');
    var last := parts[|parts| - 1];
    if |last| <= |s| then s[..|s| - |last|] else ""
  }

  /** When an accepted domain really has a subdomain: unless its only period is its first character. */
  lemma SubdomainPresent(s: string, upper: char -> bool)
    requires DomainOk(Some(s), upper)
    ensures |Subdomain(s)| > 1 <==> !(s[0] == '.' && Count(s, '.') == 1)
  {
    hide Split, Count;
    HasPeriod(s);
    LastSection(s, '.');
    var sub := Subdomain(s);
    var last := s[|sub|..];
    CountZero(last, '.');
    CountHead(s, '.');
    if |sub| == 1 {
      assert s[1..] == last;
    } else {
      assert s[1..][|sub| - 2] == '.';
      CountMember(s[1..], '.');
    }
  }

  lemma CountHead(s: string, c: char)
    requires s != ""
    ensures Count(s, c) == (if s[0] == c then 1 else 0) + Count(s[1..], c)
  {
  }

  // ----- the language of IP addresses -----

  /** An optional '+' and at least one decimal digit, with value at most 255. */
  predicate U8Text(s: string) {
    var digits := Unsigned(s);
    digits != "" && AllDigits(digits, 10) && Value(0, digits, 10) <= 255
  }

  lemma {:induction false} ValueGrows(acc: nat, s: string)
    requires AllDigits(s, 10)
    ensures Value(acc, s, 10) >= acc
    decreases |s|
  {
    if s != "" {
      ValueGrows(acc * 10 + Digit(s[0]), s[1..]);
    }
  }

  lemma {:induction false} FoldMeaning(acc: nat, s: string)
    requires acc <= 255
    ensures FoldU8(acc, s).Some? <==> AllDigits(s, 10) && Value(acc, s, 10) <= 255
    ensures FoldU8(acc, s).Some? ==> FoldU8(acc, s).value == Value(acc, s, 10)
    decreases |s|
  {
    if s != "" && IsDigit(s[0], 10) {
      var next := acc * 10 + Digit(s[0]);
      assert AllDigits(s, 10) <==> AllDigits(s[1..], 10) by {
        assert forall i | 1 <= i < |s| :: s[i] == s[1..][i - 1];
      }
      if next <= 255 {
        FoldMeaning(next, s[1..]);
      } else if AllDigits(s, 10) {
        ValueGrows(next, s[1..]);
      }
    }
  }

  lemma U8Language(s: string)
    ensures ParseU8(s).Some? <==> U8Text(s)
  {
    FoldMeaning(0, Unsigned(s));
  }

  /** The accepted sections are the numerals of 0 to 255, with or without a '+'. */
  lemma U8Meaning(s: string)
    ensures U8Text(s) <==>
            var n := ParseNat(if |s| > 0 && s[0] == '+' then s[1..] else s, 10);
            n.Some? && n.value < 256
  {
    hide Value;
  }

  /** Four sections separated by periods, each the text of a byte. */
  predicate IpText(s: string) {
    var parts := Split(s, '.');
    |parts| == 4 && forall p | p in parts :: U8Text(p)
  }

  lemma NoPeriod(p: string)
    requires U8Text(p)
    ensures '.' !in p
  {
    var digits := Unsigned(p);
    assert forall i | 0 <= i < |digits| :: IsDigit(digits[i], 10);
    assert p == digits || p == "+" + digits;
  }

  /** The language as a set of texts: exactly the period-joins of four byte texts. */
  lemma IpTextMeaning(s: string)
    ensures IpText(s) <==> exists parts: seq<string> ::
              |parts| == 4 && (forall p | p in parts :: U8Text(p)) && s == Join(parts, ".")
  {
    hide U8Text, Split, Join;
    JoinSplit(s, '.');
    if parts: seq<string> :| |parts| == 4 && (forall p | p in parts :: U8Text(p)) && s == Join(parts, ".") {
      forall p | p in parts
        ensures '.' !in p
      {
        NoPeriod(p);
      }
      SplitJoin(parts, '.');
    }
  }

  lemma AllOkFour(a: Criterion, b: Criterion, c: Criterion, d: Criterion)
    ensures AllOk([a, b, c, d]) <==> a.ok && b.ok && c.ok && d.ok
  {
    var cs := [a, b, c, d];
    assert cs[0] in cs && cs[1] in cs && cs[2] in cs && cs[3] in cs;
  }

  lemma SectionsMeaning(s: string)
    ensures IpText(s) <==> (Count(s, '.') == 3 && (forall p | p in Split(s, '.') :: |p| >= 1) &&
                            forall p | p in Split(s, '.') :: ParseU8(p).Some?)
  {
    hide Split, Count, ParseU8, U8Text;
    SplitCount(s, '.');
    forall p | p in Split(s, '.')
      ensures ParseU8(p).Some? <==> U8Text(p)
      ensures U8Text(p) ==> |p| >= 1
    {
      U8Language(p);
      U8Nonempty(p);
    }
  }

  lemma IpCriteriaMeaning(s: string)
    ensures AllOk(IpCriteria(Some(s))) <==> IpText(s)
  {
    hide AllOk, Split, Count, ParseU8, IpText;
    SectionsMeaning(s);
    var cs := IpCriteria(Some(s));
    AllOkFour(cs[0], cs[1], cs[2], cs[3]);
    assert cs == [cs[0], cs[1], cs[2], cs[3]];
  }

  predicate IpOk(ip: Option<string>) {
    ip.Some? && IpText(ip.value)
  }

  /** The IP check passes exactly on that language. */
  lemma IpValidation(ip: Option<string>)
    ensures !Contains(Render(IpCriteria(ip)), ERR) <==> IpOk(ip)
  {
    hide Contains, Render, IpText;
    FieldVerdicts(ip, c => false, s => false);
    if ip.Some? {
      IpCriteriaMeaning(ip.value);
    } else {
      assert IpCriteria(ip)[0] in IpCriteria(ip);
    }
  }

  lemma U8Nonempty(p: string)
    ensures U8Text(p) ==> |p| >= 1
  {
  }

  // ----- the validators, as they build their reports -----

  type Bytes = seq<byte>

  /** What the validators ask of the platform. */
  datatype Platform = Platform(utf8: Bytes -> Option<string>, upper: char -> bool, json: string -> bool)

  function Name(b: Bytes, p: Platform): seq<Criterion> { NameCriteria(p.utf8(b)) }

  function Domain(b: Bytes, p: Platform): seq<Criterion> { DomainCriteria(p.utf8(b), p.upper) }

  function Ip(b: Bytes, p: Platform): seq<Criterion> { IpCriteria(p.utf8(b)) }

  function Info(b: Bytes, p: Platform): seq<Criterion> { InfoCriteria(p.utf8(b), p.json) }

  function Key(b: Bytes, p: Platform): seq<Criterion> { KeyCriteria(p.utf8(b)) }

  lemma RenderSnoc(cs: seq<Criterion>, c: Criterion)
    ensures Render(cs + [c]) == Render(cs) + Line(c)
  {
    hide Line;
    if cs == [] {
      assert cs + [c] == [c];
    } else {
      assert (cs + [c])[1..] == cs[1..] + [c];
      RenderSnoc(cs[1..], c);
    }
  }

  /** One criterion is added to the report. */
  method Extend(criteria: string, ghost cs: seq<Criterion>, c: Criterion) returns (r: string)
    requires criteria == Render(cs)
    ensures r == Render(cs + [c])
  {
    RenderSnoc(cs, c);
    r := criteria + (if c.ok then "Ok: " + c.message + "\n" else "Err: " + c.message + "\n");
  }

  method Start(text: Option<string>) returns (criteria: string)
    ensures criteria == Render([Criterion(text.Some?, VALID_STRING)])
  {
    criteria := "";
    criteria := Extend(criteria, [], Criterion(text.Some?, VALID_STRING));
    assert [] + [Criterion(text.Some?, VALID_STRING)] == [Criterion(text.Some?, VALID_STRING)];
  }

  method CheckIp(ip: Bytes, p: Platform) returns (criteria: string)
    ensures criteria == Render(Ip(ip, p))
  {
    hide Render, Split, Count, ParseU8;
    var text := p.utf8(ip);
    criteria := Start(text);
    if text.None? {
      return;
    }
    ghost var cs := [Criterion(true, VALID_STRING)];
    var nums := Split(text.value, '.');
    var periods := Criterion(Count(text.value, '.') == 3, IP_PERIODS);
    criteria := Extend(criteria, cs, periods);
    var sections := Criterion(forall s | s in nums :: |s| >= 1, IP_SECTIONS);
    criteria := Extend(criteria, cs + [periods], sections);
    var numbers := Criterion(forall s | s in nums :: ParseU8(s).Some?, IP_NUMBERS);
    criteria := Extend(criteria, cs + [periods] + [sections], numbers);
    assert cs + [periods] + [sections] + [numbers] == IpCriteria(text);
  }

  /** The loop over the characters of a key, with its two flags. */
  method CheckKey(key: Bytes, p: Platform) returns (criteria: string)
    ensures criteria == Render(Key(key, p))
  {
    hide Render;
    var text := p.utf8(key);
    criteria := Start(text);
    if text.None? {
      return;
    }
    var s := text.value;
    var separators, values := KeyFlags(s);
    ghost var cs := [Criterion(true, VALID_STRING)];
    criteria := Extend(criteria, cs, Criterion(separators, KEY_SEPARATORS));
    cs := cs + [Criterion(separators, KEY_SEPARATORS)];
    criteria := Extend(criteria, cs, Criterion(values, KEY_VALUES));
    assert cs + [Criterion(values, KEY_VALUES)] == KeyCriteria(text);
  }

  method KeyFlags(s: string) returns (separators: bool, values: bool)
    ensures separators == SeparatorsOk(s) && values == ValuesOk(s)
  {
    separators, values := true, true;
    var i := 0;
    while i < |s|
      invariant 0 <= i <= |s|
      invariant separators <==> forall j | 0 <= j < i :: SeparatorAt(j) ==> s[j] == ':'
      invariant values <==> forall j | 0 <= j < i :: !SeparatorAt(j) ==> HexUpper(s[j])
    {
      if i != 0 && (i + 1) % 3 == 0 {
        if s[i] != ':' {
          separators := false;
        }
      } else if !('0' <= s[i] <= '9' || 'A' <= s[i] <= 'F') {
        values := false;
      }
      i := i + 1;
    }
    if s != "" && s[|s| - 1] == ':' {
      separators := false;
    }
  }

  method CheckName(name: Bytes, p: Platform) returns (criteria: string)
    ensures criteria == Render(Name(name, p))
  {
    hide Render;
    var text := p.utf8(name);
    criteria := Start(text);
    if text.None? {
      return;
    }
    ghost var cs := [Criterion(true, VALID_STRING)];
    criteria := Extend(criteria, cs, Criterion(|text.value| >= 1, NAME_LENGTH));
    assert cs + [Criterion(|text.value| >= 1, NAME_LENGTH)] == NameCriteria(text);
  }

  method CheckInfo(info: Bytes, p: Platform) returns (criteria: string)
    ensures criteria == Render(Info(info, p))
  {
    hide Render;
    var text := p.utf8(info);
    criteria := Start(text);
    if text.None? {
      return;
    }
    ghost var cs := [Criterion(true, VALID_STRING)];
    criteria := Extend(criteria, cs, Criterion(p.json(text.value), INFO_JSON));
    assert cs + [Criterion(p.json(text.value), INFO_JSON)] == InfoCriteria(text, p.json);
  }

  method CheckDomain(domain: Bytes, p: Platform) returns (criteria: string)
    ensures criteria == Render(Domain(domain, p))
  {
    hide Render, Split, TldOk;
    var text := p.utf8(domain);
    criteria := Start(text);
    if text.None? {
      return;
    }
    var s := text.value;
    ghost var cs := [Criterion(true, VALID_STRING)];
    var length := Criterion(|s| < 64, DOMAIN_LENGTH);
    criteria := Extend(criteria, cs, length);
    var symbols := Criterion(forall c | c in s :: c !in INVALID_CHARS, DOMAIN_SYMBOLS);
    criteria := Extend(criteria, cs + [length], symbols);
    var lower := Criterion(forall c | c in s :: !p.upper(c), DOMAIN_CASE);
    criteria := Extend(criteria, cs + [length] + [symbols], lower);
    var tld := "";
    var top := Criterion(TldOk(s), DOMAIN_TLD);
    criteria := Extend(criteria, cs + [length] + [symbols] + [lower], top);
    var sub := Criterion(|s| - |tld| > 1, DOMAIN_SUB);
    criteria := Extend(criteria, cs + [length] + [symbols] + [lower] + [top], sub);
    assert cs + [length] + [symbols] + [lower] + [top] + [sub] == DomainCriteria(text, p.upper);
  }
}
