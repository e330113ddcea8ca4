/** Option and Result values used where the source returns None or raises an exception. */
module Wrappers {
  datatype Option<+T> = None | Some(value: T)

  datatype Result<+T, +E> = Ok(value: T) | Err(error: E)
}

/**
 Byte strings and text. A byte string of the wire is written as a `string`: byte n is the
 character with code n. Every theorem quantifies over all strings, hence over all byte strings.
 */
module Text {
  import opened Wrappers

  const CRLF := "\r\n"

  /** A byte of binary data: keys, seals, fields stored on chain. */
  type byte = x: int | 0 <= x < 256

  // ----- searching -----

  ghost predicate Occurs<T>(s: seq<T>, p: seq<T>, i: int) {
    0 <= i && i + |p| <= |s| && s[i..i + |p|] == p
  }

  ghost predicate Free<T>(s: seq<T>, p: seq<T>) {
    forall i :: !Occurs(s, p, i)
  }

  /** The index of the first occurrence of `p` in `s`, or -1 (`bytes.find`). */
  function Find<T(==)>(s: seq<T>, p: seq<T>): (r: int)
    ensures -1 <= r <= |s|
    ensures r >= 0 ==> Occurs(s, p, r)
    ensures forall i :: Occurs(s, p, i) ==> 0 <= r <= i
  {
    FindFrom(s, p, 0)
  }

  /** The first occurrence at or after index `from`. */
  function FindFrom<T(==)>(s: seq<T>, p: seq<T>, from: nat): (r: int)
    ensures -1 <= r <= |s|
    ensures r >= 0 ==> Occurs(s, p, r)
    ensures forall i | from <= i :: Occurs(s, p, i) ==> 0 <= r <= i
    decreases |s| - from
  {
    if from + |p| > |s| then -1
    else if s[from..from + |p|] == p then from
    else if from == |s| then -1
    else FindFrom(s, p, from + 1)
  }

  predicate Contains<T(==)>(s: seq<T>, p: seq<T>)
    ensures Contains(s, p) <==> !Free(s, p)
  {
    Find(s, p) >= 0
  }

  lemma OccursInPrefix<T>(a: seq<T>, b: seq<T>, p: seq<T>, i: int)
    requires 0 <= i && i + |p| <= |a|
    ensures Occurs(a + b, p, i) <==> Occurs(a, p, i)
  {
    assert (a + b)[i..i + |p|] == a[i..i + |p|];
  }

  lemma OccursInSuffix<T>(a: seq<T>, b: seq<T>, p: seq<T>, i: int)
    requires |a| <= i
    ensures Occurs(a + b, p, i) <==> Occurs(b, p, i - |a|)
  {
    if i + |p| <= |a + b| {
      assert (a + b)[i..i + |p|] == b[i - |a|..i - |a| + |p|];
    }
  }

  /** More input never moves the first occurrence. */
  lemma FindExtend<T>(a: seq<T>, b: seq<T>, p: seq<T>)
    requires Find(a, p) >= 0
    ensures Find(a + b, p) == Find(a, p)
  {
    var r := Find(a, p);
    OccursInPrefix(a, b, p, r);
    var q := Find(a + b, p);
    OccursInPrefix(a, b, p, q);
  }

  /** For a two-character separator: the separator after a part without it is found at the part's end. */
  lemma FindPair<T>(a: seq<T>, p: seq<T>, b: seq<T>)
    requires |p| == 2 && p[0] != p[1] && Free(a, p)
    ensures Find(a + p + b, p) == |a|
  {
    var s := a + p + b;
    assert s[|a|..|a| + 2] == p;
    assert Occurs(s, p, |a|);
    forall i | 0 <= i < |a|
      ensures !Occurs(s, p, i)
    {
      assert !Occurs(a, p, i);
      if i + 2 <= |a| {
        assert s[i..i + 2] == a[i..i + 2];
      } else {
        assert s[i..i + 2][1] == p[0];
      }
    }
  }

  lemma FindOne<T>(a: seq<T>, c: T, b: seq<T>)
    requires c !in a
    ensures Find(a + [c] + b, [c]) == |a|
  {
    var s := a + [c] + b;
    assert s[|a|..|a| + 1] == [c];
    assert Occurs(s, [c], |a|);
    forall i | 0 <= i < |a|
      ensures !Occurs(s, [c], i)
    {
      assert s[i..i + 1][0] == a[i];
    }
  }

  /** Single characters: not found means not a member. */
  lemma FindNone<T>(s: seq<T>, c: T)
    ensures Find(s, [c]) < 0 <==> c !in s
    ensures Find(s, [c]) >= 0 ==> s[Find(s, [c])] == c && c !in s[..Find(s, [c])]
  {
    forall i | 0 <= i < |s| && s[i] == c
      ensures Occurs(s, [c], i)
    {
      assert s[i..i + 1] == [c];
    }
    var r := Find(s, [c]);
    if r >= 0 {
      assert s[r..r + 1][0] == c;
    }
  }

  lemma PairOccurs<T>(s: seq<T>, p: seq<T>)
    requires |p| == 2
    ensures Free(s, p) <==> forall i {:trigger s[i]} | 0 <= i < |s| - 1 :: !(s[i] == p[0] && s[i + 1] == p[1])
  {
    assert p == [p[0], p[1]];
    forall i | 0 <= i < |s| - 1
      ensures Occurs(s, p, i) <==> s[i] == p[0] && s[i + 1] == p[1]
    {
      assert s[i..i + 2] == [s[i], s[i + 1]];
    }
    forall i
      ensures Occurs(s, p, i) ==> 0 <= i < |s| - 1 && s[i] == p[0] && s[i + 1] == p[1]
    {
    }
  }

  lemma SliceOfSlice<T>(s: seq<T>, lo: nat, hi: nat, i: nat, j: nat)
    requires lo <= hi <= |s| && i <= j <= hi - lo
    ensures s[lo..hi][i..j] == s[lo + i..lo + j]
  {
    var a, b := s[lo..hi][i..j], s[lo + i..lo + j];
    assert |a| == |b|;
    assert forall k | 0 <= k < |a| :: a[k] == b[k];
  }

  lemma FreeSlice<T>(s: seq<T>, p: seq<T>, lo: int, hi: int)
    requires 0 <= lo <= hi <= |s| && Free(s, p)
    ensures Free(s[lo..hi], p)
  {
    forall i
      ensures !Occurs(s[lo..hi], p, i)
    {
      assert !Occurs(s, p, lo + i);
      if 0 <= i && i + |p| <= hi - lo {
        SliceOfSlice(s, lo, hi, i, i + |p|);
      }
    }
  }

  /** What comes before the first occurrence does not contain the pattern. */
  lemma FreeBefore<T>(s: seq<T>, p: seq<T>)
    requires p != [] && Find(s, p) >= 0
    ensures Free(s[..Find(s, p)], p)
    ensures s == s[..Find(s, p)] + p + s[Find(s, p) + |p|..]
  {
    var r := Find(s, p);
    forall i
      ensures !Occurs(s[..r], p, i)
    {
      if Occurs(s[..r], p, i) {
        assert s == s[..r] + s[r..];
        OccursInPrefix(s[..r], s[r..], p, i);
      }
    }
  }

  /** Gluing two parts with a character that is in no occurrence creates no occurrence. */
  lemma FreeGlue(a: string, c: char, b: string, p: string)
    requires |p| == 2 && c != p[0] && c != p[1] && Free(a, p) && Free(b, p)
    ensures Free(a + [c] + b, p)
  {
    PairOccurs(a, p);
    PairOccurs(b, p);
    PairOccurs(a + [c] + b, p);
  }

  // ----- splitting and joining -----

  /** `s.split(sep)` for a one-character separator. */
  function Split<T(==)>(s: seq<T>, sep: T): (parts: seq<seq<T>>)
    ensures |parts| >= 1
    ensures forall x | x in parts :: sep !in x
    decreases |s|
  {
    FindNone(s, sep);
    var k := Find(s, [sep]);
    if k < 0 then [s] else [s[..k]] + Split(s[k + 1..], sep)
  }

  function Join<T>(parts: seq<seq<T>>, sep: seq<T>): seq<T> {
    if |parts| == 0 then []
    else if |parts| == 1 then parts[0]
    else parts[0] + sep + Join(parts[1..], sep)
  }

  function Count<T(==)>(s: seq<T>, c: T): nat {
    if s == [] then 0 else (if s[0] == c then 1 else 0) + Count(s[1..], c)
  }

  lemma FirstSeparator<T>(s: seq<T>, sep: T)
    requires sep in s
    ensures var k := Find(s, [sep]);
            0 <= k < |s| && s[k] == sep && sep !in s[..k] && s == s[..k] + ([sep] + s[k + 1..])
  {
    hide Find;
    FindNone(s, sep);
  }

  lemma SplitUnfold<T>(s: seq<T>, sep: T)
    ensures sep !in s ==> Split(s, sep) == [s]
    ensures var k := Find(s, [sep]); 0 <= k < |s| ==> Split(s, sep) == [s[..k]] + Split(s[k + 1..], sep)
  {
    hide Find;
    FindNone(s, sep);
  }

  lemma {:induction false} JoinSplit<T>(s: seq<T>, sep: T)
    ensures Join(Split(s, sep), [sep]) == s
    decreases |s|
  {
    SplitUnfold(s, sep);
    hide Find, Split;
    if sep in s {
      FirstSeparator(s, sep);
      var k := Find(s, [sep]);
      JoinSplit(s[k + 1..], sep);
      assert Split(s, sep)[1..] == Split(s[k + 1..], sep);
    }
  }

  lemma SplitCons<T>(a: seq<T>, sep: T, t: seq<T>)
    requires sep !in a
    ensures Split(a + [sep] + t, sep) == [a] + Split(t, sep)
  {
    hide Find, Split;
    var s := a + [sep] + t;
    FindOne(a, sep, t);
    SplitUnfold(s, sep);
    assert s[..|a|] == a && s[|a| + 1..] == t;
  }

  lemma {:induction false} SplitJoin<T>(parts: seq<seq<T>>, sep: T)
    requires |parts| >= 1 && forall x | x in parts :: sep !in x
    ensures Split(Join(parts, [sep]), sep) == parts
  {
    hide Find, Split;
    assert parts[0] in parts;
    if |parts| == 1 {
      SplitUnfold(parts[0], sep);
      assert parts == [parts[0]];
    } else {
      SplitCons(parts[0], sep, Join(parts[1..], [sep]));
      SplitJoin(parts[1..], sep);
      assert parts == [parts[0]] + parts[1..];
    }
  }

  lemma {:induction false} CountConcat<T>(a: seq<T>, b: seq<T>, c: T)
    ensures Count(a + b, c) == Count(a, c) + Count(b, c)
  {
    if a == [] {
      assert a + b == b;
    } else {
      assert (a + b)[1..] == a[1..] + b;
      CountConcat(a[1..], b, c);
    }
  }

  lemma {:induction false} CountZero<T>(s: seq<T>, c: T)
    requires c !in s
    ensures Count(s, c) == 0
  {
    if s != [] {
      CountZero(s[1..], c);
    }
  }

  lemma {:induction false} CountMember<T>(s: seq<T>, c: T)
    requires c in s
    ensures Count(s, c) > 0
  {
    if s[0] != c {
      CountMember(s[1..], c);
    }
  }

  predicate EndsWith<T(==)>(s: seq<T>, sep: T, last: seq<T>) {
    |last| < |s| && s[|s| - |last|..] == last && s[|s| - |last| - 1] == sep
  }

  lemma EndsLater<T>(a: seq<T>, t: seq<T>, sep: T, last: seq<T>)
    requires EndsWith(t, sep, last)
    ensures EndsWith(a + t, sep, last)
  {
  }

  lemma SplitHead<T>(s: seq<T>, sep: T) returns (x: seq<T>, t: seq<T>)
    requires sep in s
    ensures s == x + ([sep] + t) && |t| < |s| && sep !in x
    ensures Split(s, sep) == [x] + Split(t, sep)
  {
    SplitUnfold(s, sep);
    FirstSeparator(s, sep);
    hide Find, Split;
    x, t := s[..Find(s, [sep])], s[Find(s, [sep]) + 1..];
  }

  function Last<T>(s: seq<T>): T
    requires s != []
  {
    s[|s| - 1]
  }

  /** The last section is what follows the last separator. */
  lemma {:induction false} LastSection<T>(s: seq<T>, sep: T)
    requires sep in s
    ensures sep !in Last(Split(s, sep)) && EndsWith(s, sep, Last(Split(s, sep)))
    decreases |s|
  {
    hide Split, EndsWith;
    var x, t := SplitHead(s, sep);
    var last := Last(Split(t, sep));
    if sep in t {
      LastSection(t, sep);
      EndsLater([sep], t, sep, last);
    } else {
      SplitUnfold(t, sep);
      EndsHere(sep, t);
    }
    EndsLater(x, [sep] + t, sep, last);
  }

  lemma EndsHere<T>(sep: T, t: seq<T>)
    ensures EndsWith([sep] + t, sep, t)
  {
  }

  /** `s.matches(sep).count()` is one less than the number of sections. */
  lemma {:induction false} SplitCount<T>(s: seq<T>, sep: T)
    ensures |Split(s, sep)| == Count(s, sep) + 1
    decreases |s|
  {
    SplitUnfold(s, sep);
    hide Find, Split;
    if sep in s {
      FirstSeparator(s, sep);
      var k := Find(s, [sep]);
      SplitCount(s[k + 1..], sep);
      CountConcat(s[..k], [sep] + s[k + 1..], sep);
      CountZero(s[..k], sep);
    } else {
      CountZero(s, sep);
    }
  }

  /** A section: it is delimited by separators or by the ends. */
  ghost predicate Section(s: string, sep: char, t: string) {
    sep !in t &&
    exists a, b :: Glued(s, a, t, b) && (a == "" || a[|a| - 1] == sep) && (b == "" || b[0] == sep)
  }

  lemma {:induction false} SplitAppend(a: string, sep: char, t: string)
    ensures Split(a + [sep] + t, sep) == Split(a, sep) + Split(t, sep)
    decreases |a|
  {
    SplitUnfold(a, sep);
    hide Find, Split;
    if sep in a {
      FirstSeparator(a, sep);
      var k := Find(a, [sep]);
      var x, y := a[..k], a[k + 1..];
      assert a + [sep] + t == x + [sep] + (y + [sep] + t);
      SplitCons(x, sep, y + [sep] + t);
      SplitAppend(y, sep, t);
      assert [x] + (Split(y, sep) + Split(t, sep)) == ([x] + Split(y, sep)) + Split(t, sep);
    } else {
      SplitCons(a, sep, t);
    }
  }

  lemma {:induction false} SplitSections(s: string, sep: char, t: string)
    requires t in Split(s, sep)
    ensures Section(s, sep, t)
    decreases |s|
  {
    SplitUnfold(s, sep);
    hide Find, Split, Section;
    if sep in s {
      var x, r := SplitHead(s, sep);
      if t == x {
        FirstSection(x, sep, r);
      } else {
        SplitSections(r, sep, t);
        LaterSection(x, sep, r, t);
      }
    } else {
      OnlySection(s, sep);
    }
  }

  lemma OnlySection(s: string, sep: char)
    requires sep !in s
    ensures Section(s, sep, s)
  {
    assert Glued(s, "", s, "");
  }

  lemma FirstSection(x: string, sep: char, r: string)
    requires sep !in x
    ensures Section(x + ([sep] + r), sep, x)
  {
    assert Glued(x + ([sep] + r), "", x, [sep] + r);
  }

  lemma LaterSection(x: string, sep: char, r: string, t: string)
    requires Section(r, sep, t)
    ensures Section(x + ([sep] + r), sep, t)
  {
    hide Glued;
    var a, b :| Glued(r, a, t, b) && (a == "" || a[|a| - 1] == sep) && (b == "" || b[0] == sep);
    GluedLater(x + [sep], r, a, t, b);
    assert x + ([sep] + r) == x + [sep] + r;
    EndsInSeparator(x, sep, a);
  }

  lemma GluedLater(x: string, r: string, a: string, t: string, b: string)
    requires Glued(r, a, t, b)
    ensures Glued(x + r, x + a, t, b)
  {
  }

  lemma EndsInSeparator(x: string, sep: char, a: string)
    requires a == "" || a[|a| - 1] == sep
    ensures (x + [sep] + a)[|x + [sep] + a| - 1] == sep
  {
  }

  lemma SectionInSplit(a: string, t: string, b: string, sep: char)
    requires sep !in t && (a == "" || a[|a| - 1] == sep) && (b == "" || b[0] == sep)
    ensures t in Split(a + t + b, sep)
  {
    hide Find, Split;
    var w := t + b;
    if b == "" {
      SplitUnfold(t, sep);
      assert w == t;
    } else {
      SplitCons(t, sep, b[1..]);
      assert w == t + [sep] + b[1..];
    }
    assert t in Split(w, sep);
    if a == "" {
      assert a + t + b == w;
    } else {
      SplitAppend(a[..|a| - 1], sep, w);
      assert a + t + b == a[..|a| - 1] + [sep] + w;
    }
  }

  /** The parts of a split are exactly the sections. */
  lemma SplitMeaning(s: string, sep: char, t: string)
    ensures t in Split(s, sep) <==> Section(s, sep, t)
  {
    hide Split;
    if t in Split(s, sep) {
      SplitSections(s, sep, t);
    }
    if Section(s, sep, t) {
      var a, b :| Glued(s, a, t, b) && (a == "" || a[|a| - 1] == sep) && (b == "" || b[0] == sep);
      SectionInSplit(a, t, b, sep);
    }
  }

  // ----- ASCII case and white space -----

  function LowerChar(c: char): char {
    if 'A' <= c <= 'Z' then (c as int + 32) as char else c
  }

  function UpperChar(c: char): char {
    if 'a' <= c <= 'z' then (c as int - 32) as char else c
  }

  function Lower(s: string): (r: string)
    ensures |r| == |s| && forall i | 0 <= i < |s| :: r[i] == LowerChar(s[i])
  {
    seq(|s|, i requires 0 <= i < |s| => LowerChar(s[i]))
  }

  function Upper(s: string): (r: string)
    ensures |r| == |s| && forall i | 0 <= i < |s| :: r[i] == UpperChar(s[i])
  {
    seq(|s|, i requires 0 <= i < |s| => UpperChar(s[i]))
  }

  /** The 26 letters, and nothing else, have two cases. */
  lemma AsciiCase(c: char, i: nat)
    requires i < 26
    ensures LowerChar("ABCDEFGHIJKLMNOPQRSTUVWXYZ"[i]) == "abcdefghijklmnopqrstuvwxyz"[i]
    ensures UpperChar("abcdefghijklmnopqrstuvwxyz"[i]) == "ABCDEFGHIJKLMNOPQRSTUVWXYZ"[i]
    ensures c !in "ABCDEFGHIJKLMNOPQRSTUVWXYZ" ==> LowerChar(c) == c
    ensures c !in "abcdefghijklmnopqrstuvwxyz" ==> UpperChar(c) == c
  {
    LetterOf(c);
    LetterAt(i);
  }

  lemma LetterAt(i: nat)
    requires i < 26
    ensures "ABCDEFGHIJKLMNOPQRSTUVWXYZ"[i] as int == 65 + i
    ensures "abcdefghijklmnopqrstuvwxyz"[i] as int == 97 + i
  {
  }

  lemma LetterOf(c: char)
    ensures 'A' <= c <= 'Z' ==> c in "ABCDEFGHIJKLMNOPQRSTUVWXYZ"
    ensures 'a' <= c <= 'z' ==> c in "abcdefghijklmnopqrstuvwxyz"
  {
    if 'A' <= c <= 'Z' {
      LetterAt(c as int - 65);
    }
    if 'a' <= c <= 'z' {
      LetterAt(c as int - 97);
    }
  }

  predicate IsSpace(c: char) {
    c == ' ' || c == '\t' || c == '\n' || c == '\r' || c == 11 as char || c == 12 as char
  }

  /** `bytes.strip()`: ASCII white space off both ends. */
  function Strip(s: string): string {
    if s == [] then s
    else if IsSpace(s[0]) then Strip(s[1..])
    else if IsSpace(s[|s| - 1]) then Strip(s[..|s| - 1])
    else s
  }

  const SPACES := " \t\n\r\U{000B}\U{000C}"

  ghost predicate AllSpace(s: string) {
    forall c | c in s :: c in SPACES
  }

  /** `name` is `s` without white space at its ends. */
  ghost predicate Trimmed(s: string, name: string) {
    (exists a, b :: Glued(s, a, name, b) && AllSpace(a) && AllSpace(b)) &&
    (name == "" || (name[0] !in SPACES && name[|name| - 1] !in SPACES))
  }

  ghost predicate Glued(s: string, a: string, t: string, b: string) {
    s == a + t + b
  }

  lemma SpaceChars(c: char)
    ensures IsSpace(c) <==> c in SPACES
  {
    assert SPACES == [' ', '\t', '\n', '\r', 11 as char, 12 as char];
  }

  lemma TrimFront(c: char, s: string, name: string)
    requires c in SPACES && Trimmed(s, name)
    ensures Trimmed([c] + s, name)
  {
    var a, b :| Glued(s, a, name, b) && AllSpace(a) && AllSpace(b);
    assert Glued([c] + s, [c] + a, name, b);
  }

  lemma TrimBack(s: string, c: char, name: string)
    requires c in SPACES && Trimmed(s, name)
    ensures Trimmed(s + [c], name)
  {
    var a, b :| Glued(s, a, name, b) && AllSpace(a) && AllSpace(b);
    assert Glued(s + [c], a, name, b + [c]);
  }

  lemma {:induction false} StripTrims(s: string)
    ensures Trimmed(s, Strip(s))
    decreases |s|
  {
    if s == "" {
      assert Glued(s, "", "", "");
    } else {
      hide Trimmed;
      var n := |s| - 1;
      SpaceChars(s[0]);
      SpaceChars(s[n]);
      if IsSpace(s[0]) {
        StripTrims(s[1..]);
        TrimFront(s[0], s[1..], Strip(s));
        assert [s[0]] + s[1..] == s;
      } else if IsSpace(s[n]) {
        StripTrims(s[..n]);
        TrimBack(s[..n], s[n], Strip(s));
        assert s[..n] + [s[n]] == s;
      } else {
        BareTrimmed(s);
      }
    }
  }

  lemma BareTrimmed(s: string)
    requires s != "" && s[0] !in SPACES && s[|s| - 1] !in SPACES
    ensures Trimmed(s, s)
  {
    assert Glued(s, "", s, "");
  }

  lemma StripFront(c: char, s: string)
    requires c in SPACES
    ensures Strip([c] + s) == Strip(s)
  {
    SpaceChars(c);
    assert ([c] + s)[1..] == s;
  }

  lemma StripBack(s: string, c: char)
    requires c in SPACES && s != "" && s[0] !in SPACES
    ensures Strip(s + [c]) == Strip(s)
  {
    SpaceChars(c);
    SpaceChars(s[0]);
    assert (s + [c])[..|s|] == s && (s + [c])[0] == s[0];
  }

  lemma StripNothing(t: string)
    requires t == "" || (t[0] !in SPACES && t[|t| - 1] !in SPACES)
    ensures Strip(t) == t
  {
    if t != "" {
      SpaceChars(t[0]);
      SpaceChars(t[|t| - 1]);
    }
  }

  lemma {:induction false} StripGlued(a: string, t: string, b: string)
    requires AllSpace(a) && AllSpace(b)
    requires t == "" || (t[0] !in SPACES && t[|t| - 1] !in SPACES)
    ensures Strip(a + t + b) == t
    decreases |a| + |b|
  {
    hide AllSpace, Strip;
    if a != "" {
      SpaceFront(a);
      StripGlued(a[1..], t, b);
      StripFront(a[0], a[1..] + t + b);
      assert a + t + b == [a[0]] + (a[1..] + t + b);
    } else if b == "" {
      StripNothing(t);
      assert a + t + b == t;
    } else if t == "" {
      SpaceFront(b);
      StripGlued(a, t, b[1..]);
      StripFront(b[0], a + t + b[1..]);
      assert a + t + b == [b[0]] + (a + t + b[1..]);
    } else {
      var n := |b| - 1;
      SpaceBack(b);
      StripGlued(a, t, b[..n]);
      StripBack(a + t + b[..n], b[n]);
      assert a + t + b == (a + t + b[..n]) + [b[n]];
    }
  }

  lemma SpaceFront(a: string)
    requires a != "" && AllSpace(a)
    ensures a[0] in SPACES && AllSpace(a[1..])
  {
  }

  lemma SpaceBack(a: string)
    requires a != "" && AllSpace(a)
    ensures a[|a| - 1] in SPACES && AllSpace(a[..|a| - 1])
  {
  }

  /** What stripping gives, and nothing else. */
  lemma StripMeaning(s: string, name: string)
    ensures Strip(s) == name <==> Trimmed(s, name)
  {
    hide Strip;
    StripTrims(s);
    if Trimmed(s, name) {
      var a, b :| Glued(s, a, name, b) && AllSpace(a) && AllSpace(b);
      StripGlued(a, name, b);
    }
  }

  // ----- numerals -----

  /** The value of a digit of any base up to 16, or -1. */
  function Digit(c: char): int {
    if '0' <= c <= '9' then c as int - '0' as int
    else if 'a' <= c <= 'f' then c as int - 'a' as int + 10
    else if 'A' <= c <= 'F' then c as int - 'A' as int + 10
    else -1
  }

  predicate IsDigit(c: char, base: nat) {
    0 <= Digit(c) < base
  }

  predicate AllDigits(s: string, base: nat) {
    forall i | 0 <= i < |s| :: IsDigit(s[i], base)
  }

  /** The number obtained by reading the digits `s` after having read `acc`. */
  function Value(acc: nat, s: string, base: nat): nat
    requires AllDigits(s, base)
    decreases |s|
  {
    if s == [] then acc else Value(acc * base + Digit(s[0]), s[1..], base)
  }

  /** `int(s, base)` on plain digits. */
  function ParseNat(s: string, base: nat): Option<nat> {
    if s != [] && AllDigits(s, base) then Some(Value(0, s, base)) else None
  }

  function DigitChar(d: nat): char
    requires d < 16
  {
    if d < 10 then ('0' as int + d) as char else ('a' as int + d - 10) as char
  }

  lemma MulLeft(a: nat, b: nat, q: nat)
    requires a <= b
    ensures a * q <= b * q
  {
  }

  lemma DivMod(n: nat, base: nat)
    requires base >= 2
    ensures n == (n / base) * base + n % base
    ensures 0 <= n % base < base
    ensures n >= base ==> n / base < n
  {
    var q := n / base;
    assert n == base * q + n % base;
    MulLeft(2, base, q);
  }

  /** `str(n)` in base 10, `hex` digits in base 16. */
  function PrintNat(n: nat, base: nat): (s: string)
    requires 2 <= base <= 16
    ensures s != []
    ensures AllDigits(s, base)
    decreases n
  {
    DivMod(n, base);
    if n < base then [DigitChar(n)] else PrintNat(n / base, base) + [DigitChar(n % base)]
  }

  lemma {:induction false} ValueSnoc(acc: nat, s: string, c: char, base: nat)
    requires AllDigits(s, base) && IsDigit(c, base)
    ensures Value(acc, s + [c], base) == Value(acc, s, base) * base + Digit(c)
    decreases |s|
  {
    if s == [] {
      assert s + [c] == [c];
      assert [c][1..] == [];
    } else {
      assert (s + [c])[1..] == s[1..] + [c];
      ValueSnoc(acc * base + Digit(s[0]), s[1..], c, base);
    }
  }

  lemma {:induction false} ParsePrint(n: nat, base: nat)
    requires 2 <= base <= 16
    ensures ParseNat(PrintNat(n, base), base) == Some(n)
    decreases n
  {
    if n < base {
      var s := PrintNat(n, base);
      assert s[1..] == [];
      assert Value(0, s, base) == Value(0 * base + Digit(s[0]), s[1..], base) == n;
    } else {
      DivMod(n, base);
      ParsePrint(n / base, base);
      ValueSnoc(0, PrintNat(n / base, base), DigitChar(n % base), base);
    }
  }

  /** Numerals: what one digit is worth, and what a further digit does. */
  lemma NumeralMeaning(s: string, c: char, base: nat, d: nat)
    requires d < base <= 16
    ensures ParseNat("", base) == None
    ensures ParseNat([c], base) == Some(d) <==> c == "0123456789abcdef"[d] || c == "0123456789ABCDEF"[d]
    ensures s != "" ==>
              ParseNat(s + [c], base) ==
              match (ParseNat(s, base), ParseNat([c], base))
              case (Some(n), Some(last)) => Some(n * base + last)
              case _ => None
  {
    OneDigit(c, base);
    DigitOf(c, d);
    hide Digit, Value;
    if s != "" {
      var t := s + [c];
      assert t[|s|] == c && forall i | 0 <= i < |s| :: t[i] == s[i];
      if AllDigits(s, base) && IsDigit(c, base) {
        ValueSnoc(0, s, c, base);
      }
    }
  }

  lemma OneDigit(c: char, base: nat)
    ensures ParseNat([c], base) == if IsDigit(c, base) then Some(Digit(c)) else None
  {
    assert [c][1..] == "";
    if IsDigit(c, base) {
      assert Value(0, [c], base) == Value(0 * base + Digit(c), "", base);
    }
  }

  lemma DigitOf(c: char, d: nat)
    requires d < 16
    ensures Digit(c) == d <==> c == "0123456789abcdef"[d] || c == "0123456789ABCDEF"[d]
  {
    var low, up := "0123456789abcdef", "0123456789ABCDEF";
    assert low[d] as int == if d < 10 then 48 + d else 87 + d;
    assert up[d] as int == if d < 10 then 48 + d else 55 + d;
  }

  /** Digits contain no separators. */
  lemma DigitsPlain(s: string, p: string)
    requires AllDigits(s, 16) && p != [] && Digit(p[0]) < 0
    ensures Free(s, p)
  {
    assert forall i :: Occurs(s, p, i) ==> s[i..i + |p|][0] == s[i] && Digit(s[i]) < 0;
  }
}
