/**
 Public keys as text. The chain stores colon-separated uppercase hex (`check_key` in
 node/pallets/siip/src/lib.rs); the proxy writes it when it registers a certificate
 (proxy/siip_resolve.py) and reads it in `SiipCertificate` (proxy/siip_certificate.py).
 */
module KeyText {
  import opened Wrappers
  import opened Text
  import opened Criteria

  // ----- the language `check_key` accepts -----

  /** Uppercase hex pairs separated by ':', the last one possibly a lone digit; or nothing. */
  predicate IsKeyText(s: string) {
    if |s| <= 2 then forall i | 0 <= i < |s| :: HexUpper(s[i])
    else |s| > 3 && HexUpper(s[0]) && HexUpper(s[1]) && s[2] == ':' && IsKeyText(s[3..])
  }

  lemma ShiftSeparator(i: nat)
    requires i >= 3
    ensures SeparatorAt(i) <==> SeparatorAt(i - 3)
  {
  }

  lemma TailFlags(s: string)
    requires |s| > 3
    ensures SeparatorsOk(s) && ValuesOk(s) <==>
            HexUpper(s[0]) && HexUpper(s[1]) && s[2] == ':' && SeparatorsOk(s[3..]) && ValuesOk(s[3..])
  {
    var t := s[3..];
    assert !SeparatorAt(0) && !SeparatorAt(1) && SeparatorAt(2);
    forall i | 3 <= i < |s|
      ensures SeparatorAt(i) <==> SeparatorAt(i - 3)
      ensures s[i] == t[i - 3]
    {
      ShiftSeparator(i);
    }
    if SeparatorsOk(t) && ValuesOk(t) && HexUpper(s[0]) && HexUpper(s[1]) && s[2] == ':' {
      forall i | 0 <= i < |s|
        ensures SeparatorAt(i) ==> s[i] == ':'
        ensures !SeparatorAt(i) ==> HexUpper(s[i])
      {
        if i >= 3 {
          assert s[i] == t[i - 3];
        }
      }
    }
    if SeparatorsOk(s) && ValuesOk(s) {
      forall i | 0 <= i < |t|
        ensures SeparatorAt(i) ==> t[i] == ':'
        ensures !SeparatorAt(i) ==> HexUpper(t[i])
      {
        assert s[i + 3] == t[i];
      }
    }
  }

  lemma {:induction false} KeyFlagsMeaning(s: string)
    ensures SeparatorsOk(s) && ValuesOk(s) <==> IsKeyText(s)
    decreases |s|
  {
    assert !SeparatorAt(0) && !SeparatorAt(1) && SeparatorAt(2);
    if |s| > 3 {
      hide SeparatorsOk, ValuesOk, HexUpper;
      TailFlags(s);
      KeyFlagsMeaning(s[3..]);
    }
  }

  predicate KeyOk(key: Option<string>) {
    key.Some? && IsKeyText(key.value)
  }

  /** The key check passes exactly on that language. */
  lemma KeyValidation(key: Option<string>)
    ensures !Contains(Render(KeyCriteria(key)), ERR) <==> KeyOk(key)
  {
    hide Contains, Render, SeparatorsOk, ValuesOk;
    FieldVerdicts(key, c => false, s => false);
    if key.Some? {
      KeyFlagsMeaning(key.value);
      var cs := KeyCriteria(key);
      assert cs[0] in cs && cs[1] in cs && cs[2] in cs;
    } else {
      assert KeyCriteria(key)[0] in KeyCriteria(key);
    }
  }

  // ----- bytes to text -----

  /** `bytes.hex()` */
  function Hex(bs: seq<byte>): string {
    if bs == [] then "" else [DigitChar(bs[0] / 16), DigitChar(bs[0] % 16)] + Hex(bs[1..])
  }

  /** `[text[i:i+2] for i in range(0, len(text), 2)]` */
  function Pairs(text: string): seq<string> {
    if |text| <= 2 then (if text == "" then [] else [text]) else [text[..2]] + Pairs(text[2..])
  }

  /** The key text that `register_certificate` puts on the chain. */
  function RegisteredText(bs: seq<byte>): string {
    Join(Pairs(Upper(Hex(bs))), ":")
  }

  /** `text[::2]` */
  function EveryOther(text: string): string {
    if text == "" then "" else [text[0]] + (if |text| > 1 then EveryOther(text[2..]) else "")
  }

  function Zip(a: string, b: string): seq<string> {
    if a == "" || b == "" then [] else [[a[0], b[0]]] + Zip(a[1..], b[1..])
  }

  /** `pk_str` of a certificate: even and odd digits zipped, joined with colons. */
  function PkStr(bs: seq<byte>): string {
    var hex := Upper(Hex(bs));
    Join(Zip(EveryOther(hex), if hex == "" then "" else EveryOther(hex[1..])), ":")
  }

  // ----- text to bytes -----

  /** `text.replace(':', '')` */
  function RemoveColons(s: string): string {
    if s == "" then "" else (if s[0] == ':' then "" else [s[0]]) + RemoveColons(s[1..])
  }

  /** `bytes.fromhex`: pairs of digits in either case, white space allowed between them. */
  function FromHex(s: string): Option<seq<byte>>
    decreases |s|
  {
    if s == "" then Some([])
    else if IsSpace(s[0]) then FromHex(s[1..])
    else if |s| >= 2 && IsDigit(s[0], 16) && IsDigit(s[1], 16) then
      match FromHex(s[2..])
      case Some(bs) => Some([Digit(s[0]) * 16 + Digit(s[1])] + bs)
      case None => None
    else None
  }

  /** The public key that the `SiipCertificate` constructor reads from text; None: ValueError. */
  function ReadKey(text: string): Option<seq<byte>> {
    FromHex(RemoveColons(text))
  }

  // ----- round trips -----

  lemma DigitCharMeaning(d: nat)
    requires d < 16
    ensures Digit(DigitChar(d)) == d == Digit(UpperChar(DigitChar(d)))
    ensures HexUpper(UpperChar(DigitChar(d)))
    ensures !IsSpace(DigitChar(d)) && DigitChar(d) != ':'
    ensures !IsSpace(UpperChar(DigitChar(d))) && UpperChar(DigitChar(d)) != ':'
  {
  }

  /** The two uppercase digits of a byte. */
  function UpperPair(b: byte): string {
    [UpperChar(DigitChar(b / 16)), UpperChar(DigitChar(b % 16))]
  }

  /** The colon-separated pairs, written directly. */
  function Colons(bs: seq<byte>): string {
    if bs == [] then "" else if |bs| == 1 then UpperPair(bs[0]) else UpperPair(bs[0]) + ":" + Colons(bs[1..])
  }

  lemma UpperHexCons(bs: seq<byte>)
    requires bs != []
    ensures Upper(Hex(bs)) == UpperPair(bs[0]) + Upper(Hex(bs[1..]))
  {
    hide DigitChar, UpperChar;
    var h := Hex(bs);
    var t := Hex(bs[1..]);
    assert h == [DigitChar(bs[0] / 16), DigitChar(bs[0] % 16)] + t;
    assert |Upper(h)| == |UpperPair(bs[0]) + Upper(t)|;
    forall i | 0 <= i < |h|
      ensures Upper(h)[i] == (UpperPair(bs[0]) + Upper(t))[i]
    {
      if i >= 2 {
        assert h[i] == t[i - 2];
      }
    }
  }

  lemma HexNonempty(bs: seq<byte>)
    ensures Upper(Hex(bs)) == "" <==> bs == []
  {
  }

  lemma {:induction false} RegisteredIsColons(bs: seq<byte>)
    ensures RegisteredText(bs) == Colons(bs)
  {
    hide UpperPair, Upper;
    if bs != [] {
      var t := Upper(Hex(bs[1..]));
      UpperHexCons(bs);
      PairLength(bs[0]);
      RegisteredIsColons(bs[1..]);
      HexNonempty(bs[1..]);
      var h := Upper(Hex(bs));
      assert h[..2] == UpperPair(bs[0]) && h[2..] == t;
      if bs[1..] == [] {
        assert h == UpperPair(bs[0]);
      } else {
        assert Pairs(h) == [UpperPair(bs[0])] + Pairs(t);
        assert Pairs(h)[1..] == Pairs(t);
      }
    }
  }

  lemma PairLength(b: byte)
    ensures |UpperPair(b)| == 2
  {
  }

  lemma {:induction false} ZipPairs(text: string)
    requires |text| % 2 == 0
    ensures Zip(EveryOther(text), if text == "" then "" else EveryOther(text[1..])) == Pairs(text)
    decreases |text|
  {
    if |text| > 2 {
      ZipPairs(text[2..]);
      assert text[1..][2..] == text[2..][1..];
      assert EveryOther(text)[1..] == EveryOther(text[2..]);
      assert EveryOther(text[1..])[1..] == EveryOther(text[2..][1..]);
      assert text[..2] == [text[0], text[1]];
    } else if text != "" {
      assert text == [text[0], text[1]];
      assert text[2..] == "" && text[1..] == [text[1]];
      assert EveryOther(text) == [text[0]] && EveryOther(text[1..]) == [text[1]];
      assert Zip("", "") == [];
    }
  }

  lemma {:induction false} HexEven(bs: seq<byte>)
    ensures |Upper(Hex(bs))| == 2 * |bs|
  {
    if bs != [] {
      HexEven(bs[1..]);
    }
  }

  /** The two ways of writing a key, on registration and by `pk_str`, agree. */
  lemma SameText(bs: seq<byte>)
    ensures PkStr(bs) == RegisteredText(bs) == Colons(bs)
  {
    HexEven(bs);
    ZipPairs(Upper(Hex(bs)));
    RegisteredIsColons(bs);
  }

  /** Character by character: two uppercase hex digits for each byte, the high one first, and a colon between bytes. */
  lemma {:induction false} RegisteredTextAt(bs: seq<byte>, i: nat)
    requires i < |bs|
    ensures var text := RegisteredText(bs);
            |text| == 3 * |bs| - 1 && text[3 * i] == "0123456789ABCDEF"[bs[i] / 16] &&
            text[3 * i + 1] == "0123456789ABCDEF"[bs[i] % 16] && (i + 1 < |bs| ==> text[3 * i + 2] == ':')
    decreases |bs|
  {
    hide UpperPair, RegisteredText;
    RegisteredIsColons(bs);
    UpperPairAt(bs[0]);
    if |bs| > 1 {
      RegisteredIsColons(bs[1..]);
      RegisteredTextAt(bs[1..], if i > 0 then i - 1 else 0);
      assert Colons(bs) == UpperPair(bs[0]) + ":" + Colons(bs[1..]);
    }
  }

  lemma UpperPairAt(b: byte)
    ensures UpperPair(b) == ["0123456789ABCDEF"[b / 16], "0123456789ABCDEF"[b % 16]]
  {
    UpperDigit(b / 16);
    UpperDigit(b % 16);
  }

  lemma UpperDigit(d: nat)
    requires d < 16
    ensures UpperChar(DigitChar(d)) == "0123456789ABCDEF"[d] && DigitChar(d) == "0123456789abcdef"[d]
  {
    assert "0123456789ABCDEF"[d] as int == if d < 10 then 48 + d else 55 + d;
    assert "0123456789abcdef"[d] as int == if d < 10 then 48 + d else 87 + d;
  }

  /** `bytes.hex()`, character by character. */
  lemma {:induction false} HexAt(bs: seq<byte>, i: nat)
    requires i < |bs|
    ensures |Hex(bs)| == 2 * |bs|
    ensures Hex(bs)[2 * i] == "0123456789abcdef"[bs[i] / 16] && Hex(bs)[2 * i + 1] == "0123456789abcdef"[bs[i] % 16]
    decreases |bs|
  {
    hide DigitChar;
    UpperDigit(bs[0] / 16);
    UpperDigit(bs[0] % 16);
    if |bs| > 1 {
      HexAt(bs[1..], if i > 0 then i - 1 else 0);
    }
  }

  function Prepend(b: byte, r: Option<seq<byte>>): Option<seq<byte>> {
    match r
    case Some(bs) => Some([b] + bs)
    case None => None
  }

  /** Two hex digits at the front read as one byte, a colon after them is skipped. */
  lemma ReadPair(x: char, y: char, s: string)
    requires IsDigit(x, 16) && IsDigit(y, 16) && !IsSpace(x) && x != ':' && y != ':'
    ensures ReadKey([x, y] + s) == Prepend(Digit(x) * 16 + Digit(y), ReadKey(s))
    ensures ReadKey([x, y] + (":" + s)) == Prepend(Digit(x) * 16 + Digit(y), ReadKey(s))
  {
    hide Digit, IsSpace, RemoveColons;
    RemoveFirstColon(s);
    RemovePair(x, y, s);
    RemovePair(x, y, ":" + s);
    FromHexPair(x, y, RemoveColons(s));
  }

  lemma RemoveFirstColon(s: string)
    ensures RemoveColons(":" + s) == RemoveColons(s)
  {
    assert (":" + s)[1..] == s;
  }

  lemma FromHexPair(x: char, y: char, s: string)
    requires IsDigit(x, 16) && IsDigit(y, 16) && !IsSpace(x)
    ensures FromHex([x, y] + s) == Prepend(Digit(x) * 16 + Digit(y), FromHex(s))
  {
    hide Digit, IsSpace;
    var t := [x, y] + s;
    assert t[2..] == s;
  }

  lemma RemovePair(x: char, y: char, s: string)
    requires x != ':' && y != ':'
    ensures RemoveColons([x, y] + s) == [x, y] + RemoveColons(s)
  {
    var t := [x, y] + s;
    assert t[1..] == [y] + s && t[1..][1..] == s;
    assert RemoveColons(t) == [x] + ([y] + RemoveColons(s));
  }

  lemma ReadUpperPair(b: byte, s: string)
    ensures ReadKey(UpperPair(b) + s) == Prepend(b, ReadKey(s)) == ReadKey(UpperPair(b) + (":" + s))
    ensures IsKeyText(UpperPair(b)) && (s != "" && IsKeyText(s) ==> IsKeyText(UpperPair(b) + (":" + s)))
  {
    hide DigitChar, UpperChar, Digit, HexUpper, IsSpace, ReadKey;
    DigitCharMeaning(b / 16);
    DigitCharMeaning(b % 16);
    ReadPair(UpperChar(DigitChar(b / 16)), UpperChar(DigitChar(b % 16)), s);
    var u := UpperPair(b) + (":" + s);
    assert u[3..] == s;
  }

  lemma {:induction false} ColonsRead(bs: seq<byte>)
    ensures IsKeyText(Colons(bs)) && (bs != [] ==> Colons(bs) != "")
    ensures ReadKey(Colons(bs)) == Some(bs)
  {
    if bs != [] {
      hide UpperPair, ReadKey, IsKeyText;
      var b, t := bs[0], Colons(bs[1..]);
      ColonsRead(bs[1..]);
      PairLength(b);
      ReadUpperPair(b, t);
      assert bs == [b] + bs[1..];
      if |bs| == 1 {
        assert UpperPair(b) + "" == UpperPair(b);
      } else {
        assert UpperPair(b) + ":" + t == UpperPair(b) + (":" + t);
      }
    }
  }

  /** For every key: the text the proxy registers passes `check_key`, and the constructor recovers the key from it. */
  lemma KeyRoundTrip(bs: seq<byte>)
    ensures IsKeyText(RegisteredText(bs)) && ReadKey(RegisteredText(bs)) == Some(bs)
    ensures !Contains(Render(KeyCriteria(Some(RegisteredText(bs)))), ERR)
  {
    SameText(bs);
    ColonsRead(bs);
    KeyValidation(Some(RegisteredText(bs)));
  }

  /** No lone last digit. */
  predicate WholePairs(text: string) {
    |text| % 3 != 1
  }

  lemma DigitPair(x: char, y: char)
    requires HexUpper(x) && HexUpper(y)
    ensures IsDigit(x, 16) && IsDigit(y, 16) && !IsSpace(x) && x != ':' && y != ':'
    ensures UpperPair(Digit(x) * 16 + Digit(y)) == [x, y]
  {
    var b := Digit(x) * 16 + Digit(y);
    assert b / 16 == Digit(x) && b % 16 == Digit(y);
  }

  lemma AcceptedPair(x: char, y: char, t: string)
    requires HexUpper(x) && HexUpper(y)
    requires ReadKey(t).Some? ==> Colons(ReadKey(t).value) == t
    requires t != "" && ReadKey(t).Some? ==> ReadKey(t).value != []
    ensures var text := if t == "" then [x, y] else [x, y] + (":" + t);
            ReadKey(text) == Prepend(Digit(x) * 16 + Digit(y), ReadKey(t)) &&
            (ReadKey(text).Some? ==> Colons(ReadKey(text).value) == text)
  {
    hide UpperPair, HexUpper, Digit, IsSpace, ReadKey;
    DigitPair(x, y);
    ReadPair(x, y, t);
    var b: byte := Digit(x) * 16 + Digit(y);
    if ReadKey(t).Some? {
      var bs := ReadKey(t).value;
      assert ([b] + bs)[1..] == bs;
      assert [x, y] + ":" + t == [x, y] + (":" + t);
      if t == "" {
        EmptyKey();
        assert [x, y] + "" == [x, y];
      }
    } else if t == "" {
      EmptyKey();
    }
  }

  /** A text `check_key` accepts decodes exactly when it has whole pairs, and is then printed back unchanged. */
  lemma {:induction false} AcceptedTextReads(text: string)
    requires IsKeyText(text)
    ensures ReadKey(text).Some? <==> WholePairs(text)
    ensures ReadKey(text).Some? ==> Colons(ReadKey(text).value) == text
    ensures text != "" && ReadKey(text).Some? ==> ReadKey(text).value != []
    decreases |text|
  {
    hide HexUpper, ReadKey, Colons;
    if |text| == 1 {
      LoneDigit(text);
    } else if |text| == 0 {
      assert text == "";
      EmptyKey();
    } else {
      var t := if |text| == 2 then "" else text[3..];
      if t == "" {
        EmptyKey();
        assert text == [text[0], text[1]];
      } else {
        AcceptedTextReads(t);
        assert text == [text[0], text[1]] + (":" + t);
      }
      AcceptedPair(text[0], text[1], t);
    }
  }

  lemma EmptyKey()
    ensures ReadKey("") == Some([]) && Colons([]) == ""
  {
  }

  lemma LoneDigit(text: string)
    requires |text| == 1 && HexUpper(text[0])
    ensures ReadKey(text).None?
  {
    DigitPair(text[0], text[0]);
    assert text[1..] == "";
    assert RemoveColons(text) == text;
  }

  /** A key text that the pallet accepts and the proxy cannot read. */
  lemma LoneDigitPasses()
    ensures !Contains(Render(KeyCriteria(Some("A"))), ERR) && ReadKey("A").None?
  {
    hide Contains, Render, KeyCriteria;
    KeyValidation(Some("A"));
    LoneDigit("A");
  }

  /** The other direction of the round trip: every accepted text of whole pairs is what `pk_str` prints for its key. */
  lemma TextRoundTrip(text: string)
    requires !Contains(Render(KeyCriteria(Some(text))), ERR)
    ensures ReadKey(text).Some? <==> WholePairs(text)
    ensures ReadKey(text).Some? ==> PkStr(ReadKey(text).value) == text
  {
    KeyValidation(Some(text));
    AcceptedTextReads(text);
    if ReadKey(text).Some? {
      SameText(ReadKey(text).value);
    }
  }

  /** The lower-case hex of a key, without colons, also reads back. */
  lemma {:induction false} HexReads(bs: seq<byte>)
    ensures ReadKey(Hex(bs)) == Some(bs)
  {
    if bs != [] {
      hide DigitChar, Digit, IsSpace, ReadKey;
      var b := bs[0];
      DigitCharMeaning(b / 16);
      DigitCharMeaning(b % 16);
      HexReads(bs[1..]);
      ReadPair(DigitChar(b / 16), DigitChar(b % 16), Hex(bs[1..]));
      assert bs == [b] + bs[1..];
    }
  }
}
