/**
 Header names and the header dictionary (proxy/httpparse.py). A Python dict keeps its keys in
 insertion order, and the printers rely on that order, so the dictionary is a sequence of fields.
 */
module Headers {
  import opened Wrappers
  import opened Text

  datatype Field = Field(name: string, value: string)

  type Dict = seq<Field>

  // ----- header names -----

  /** `bytes.capitalize()` */
  function CapitalizeWord(w: string): string {
    if w == "" then "" else [UpperChar(w[0])] + Lower(w[1..])
  }

  function CapitalizeWords(words: seq<string>): seq<string> {
    if words == [] then [] else [CapitalizeWord(words[0])] + CapitalizeWords(words[1..])
  }

  /** Capitalizes the hyphenated words of a header name, as `_capitalize` does. */
  function Capitalize(name: string): string {
    Join(CapitalizeWords(Split(name, '-')), "-")
  }

  /** The case of each character is decided by its left neighbour alone. */
  function CapitalizedChar(s: string, i: nat): char
    requires i < |s|
  {
    if i == 0 || s[i - 1] == '-' then UpperChar(s[i]) else LowerChar(s[i])
  }

  lemma CapitalizeUnfold(s: string)
    ensures '-' !in s ==> Capitalize(s) == CapitalizeWord(s)
    ensures '-' in s ==> var k := Find(s, "-");
                         0 <= k < |s| && s[k] == '-' && '-' !in s[..k] &&
                         Capitalize(s) == CapitalizeWord(s[..k]) + "-" + Capitalize(s[k + 1..])
  {
    FindNone(s, '-');
    var parts := Split(s, '-');
    var words := CapitalizeWords(parts);
    assert words[0] == CapitalizeWord(parts[0]);
    assert words[1..] == CapitalizeWords(parts[1..]);
    if '-' in s {
      var k := Find(s, "-");
      assert parts == [s[..k]] + Split(s[k + 1..], '-');
      assert parts[1..] == Split(s[k + 1..], '-');
      assert |words| >= 2;
    }
  }

  lemma WordLength(w: string)
    ensures |CapitalizeWord(w)| == |w|
  {
  }

  lemma WordAt(w: string, i: nat)
    requires i < |w|
    ensures |CapitalizeWord(w)| == |w|
    ensures CapitalizeWord(w)[i] == if i == 0 then UpperChar(w[0]) else LowerChar(w[i])
  {
    hide UpperChar, LowerChar, Lower;
    if i > 0 {
      assert CapitalizeWord(w)[i] == Lower(w[1..])[i - 1] == LowerChar(w[1..][i - 1]);
    }
  }

  lemma CapitalizeLength(s: string)
    ensures |Capitalize(s)| == |s|
    decreases |s|
  {
    CapitalizeUnfold(s);
    if '-' in s {
      CapitalizeLength(s[Find(s, "-") + 1..]);
    }
  }

  lemma {:induction false} CapitalizeAt(s: string, i: nat)
    requires i < |s|
    ensures |Capitalize(s)| == |s| && Capitalize(s)[i] == CapitalizedChar(s, i)
    decreases |s|
  {
    hide Capitalize, CapitalizeWord, Find, UpperChar, LowerChar;
    CapitalizeUnfold(s);
    CapitalizeLength(s);
    if '-' in s {
      var k := Find(s, "-");
      var w, t := s[..k], s[k + 1..];
      CapitalizeLength(t);
      WordLength(w);
      if i < k {
        WordAt(w, i);
      } else if i == k {
        assert Capitalize(s)[k] == '-';
        DashIsCaseless();
      } else {
        CapitalizeAt(t, i - k - 1);
        assert Capitalize(s)[i] == Capitalize(t)[i - k - 1];
      }
    } else {
      WordAt(s, i);
    }
  }

  lemma DashIsCaseless()
    ensures UpperChar('-') == '-' && LowerChar('-') == '-'
  {
  }

  lemma CapitalizeAll(s: string)
    ensures |Capitalize(s)| == |s|
    ensures forall i | 0 <= i < |s| :: Capitalize(s)[i] == CapitalizedChar(s, i)
  {
    CapitalizeLength(s);
    forall i | 0 <= i < |s|
      ensures Capitalize(s)[i] == CapitalizedChar(s, i)
    {
      CapitalizeAt(s, i);
    }
  }

  /** Upper case at the front and after each '-', lower case elsewhere. */
  lemma CapitalizeChars(s: string, i: nat)
    requires i < |s|
    ensures |Capitalize(s)| == |s|
    ensures Capitalize(s)[i] == if i == 0 || s[i - 1] == '-' then UpperChar(s[i]) else LowerChar(s[i])
  {
    hide Capitalize;
    CapitalizeAll(s);
  }

  predicate SameName(a: string, b: string) {
    Lower(a) == Lower(b)
  }

  lemma CharIdempotent(x: char)
    ensures UpperChar(UpperChar(x)) == UpperChar(x) && LowerChar(LowerChar(x)) == LowerChar(x)
    ensures LowerChar(UpperChar(x)) == LowerChar(x)
    ensures UpperChar(x) == '-' <==> x == '-'
    ensures LowerChar(x) == '-' <==> x == '-'
  {
  }

  lemma CapitalizeIdempotent(a: string)
    ensures Capitalize(Capitalize(a)) == Capitalize(a)
    ensures SameName(Capitalize(a), a)
  {
    hide Capitalize, UpperChar, LowerChar;
    var c := Capitalize(a);
    CapitalizeAll(a);
    CapitalizeAll(c);
    forall i | 0 <= i < |a|
      ensures Capitalize(c)[i] == c[i] && Lower(c)[i] == Lower(a)[i]
    {
      CharIdempotent(a[i]);
      if i > 0 {
        CharIdempotent(a[i - 1]);
        assert c[i - 1] == CapitalizedChar(a, i - 1);
      }
      assert c[i] == CapitalizedChar(a, i) && Capitalize(c)[i] == CapitalizedChar(c, i);
    }
  }

  lemma SameChar(x: char, y: char)
    requires LowerChar(x) == LowerChar(y)
    ensures UpperChar(x) == UpperChar(y)
    ensures x == '-' <==> y == '-'
  {
  }

  lemma SameCapitalizedChar(a: string, b: string, i: nat)
    requires SameName(a, b) && |a| == |b| && i < |a|
    ensures CapitalizedChar(a, i) == CapitalizedChar(b, i)
  {
    assert Lower(a)[i] == Lower(b)[i];
    SameChar(a[i], b[i]);
    if i > 0 {
      assert Lower(a)[i - 1] == Lower(b)[i - 1];
      SameChar(a[i - 1], b[i - 1]);
    }
  }

  lemma SameCapitalized(a: string, b: string)
    requires SameName(a, b)
    ensures Capitalize(a) == Capitalize(b)
  {
    CapitalizeAll(a);
    CapitalizeAll(b);
    assert |a| == |Lower(a)| == |b|;
    forall i | 0 <= i < |a|
      ensures Capitalize(a)[i] == Capitalize(b)[i]
    {
      SameCapitalizedChar(a, b, i);
    }
  }

  /** Field names are case-insensitive (section 3.2 of RFC 7230): capitalizing picks one
      representative of each class of names that differ only in ASCII case. */
  lemma CapitalizeMeaning(a: string, b: string)
    ensures Capitalize(Capitalize(a)) == Capitalize(a)
    ensures SameName(Capitalize(a), a)
    ensures Capitalize(a) == Capitalize(b) <==> SameName(a, b)
  {
    CapitalizeIdempotent(a);
    CapitalizeIdempotent(b);
    if SameName(a, b) {
      SameCapitalized(a, b);
    }
  }

  /** Capitalizing neither creates nor destroys separators. */
  lemma CapitalizeFree(name: string, p: string)
    requires |p| == 2 && Free(name, p)
    requires forall c :: c in p ==> UpperChar(c) == c && LowerChar(c) == c
    ensures Free(Capitalize(name), p)
  {
    CapitalizeAll(name);
    PairOccurs(name, p);
    PairOccurs(Capitalize(name), p);
    assert p[0] in p && p[1] in p;
    forall i | 0 <= i < |name|
      ensures Capitalize(name)[i] == p[0] ==> name[i] == p[0]
      ensures Capitalize(name)[i] == p[1] ==> name[i] == p[1]
    {
      assert Capitalize(name)[i] == CapitalizedChar(name, i);
    }
  }

  // ----- the dictionary -----

  function Get(h: Dict, k: string): Option<string> {
    if h == [] then None else if h[0].name == k then Some(h[0].value) else Get(h[1..], k)
  }

  /** `h[k] = v`: overwrites in place, or appends a new key. */
  function Put(h: Dict, k: string, v: string): Dict {
    if h == [] then [Field(k, v)]
    else if h[0].name == k then [Field(k, v)] + h[1..]
    else [h[0]] + Put(h[1..], k, v)
  }

  /** The entries whose key is not in `keys`, in order. */
  function Without(h: Dict, keys: set<string>): Dict {
    if h == [] then []
    else if h[0].name in keys then Without(h[1..], keys)
    else [h[0]] + Without(h[1..], keys)
  }

  /** `h.pop(k, None)` */
  function Pop(h: Dict, k: string): Dict {
    Without(h, {k})
  }

  /** No key twice, as in every Python dict. */
  predicate Distinct(h: Dict) {
    h == [] || (Get(h[1..], h[0].name).None? && Distinct(h[1..]))
  }

  /** A new header line: a repeated key is joined to the earlier value with a comma. */
  function Merge(h: Dict, k: string, v: string): Dict {
    match Get(h, k)
    case Some(prev) => Put(h, k, prev + "," + v)
    case None => Put(h, k, v)
  }

  /** The dictionary built from received header lines, in arrival order. */
  function MergeAll(h: Dict, lines: seq<Field>): Dict
    decreases |lines|
  {
    if lines == [] then h
    else MergeAll(Merge(h, Capitalize(lines[0].name), lines[0].value), lines[1..])
  }

  lemma {:induction false} GetPut(h: Dict, k: string, v: string, q: string)
    ensures Get(Put(h, k, v), q) == if q == k then Some(v) else Get(h, q)
  {
    if h != [] && h[0].name != k {
      GetPut(h[1..], k, v, q);
      assert Put(h, k, v)[1..] == Put(h[1..], k, v);
    }
  }

  lemma {:induction false} GetWithout(h: Dict, keys: set<string>, q: string)
    ensures Get(Without(h, keys), q) == if q in keys then None else Get(h, q)
  {
    if h != [] {
      GetWithout(h[1..], keys, q);
      assert ([h[0]] + Without(h[1..], keys))[1..] == Without(h[1..], keys);
    }
  }

  lemma {:induction false} GetMember(h: Dict, k: string)
    ensures Get(h, k).None? <==> forall f | f in h :: f.name != k
    ensures Get(h, k).Some? ==> Field(k, Get(h, k).value) in h
  {
    if h != [] {
      GetMember(h[1..], k);
      assert forall f :: f in h <==> f == h[0] || f in h[1..];
    }
  }

  lemma {:induction false} PutMembers(h: Dict, k: string, v: string)
    ensures Distinct(h) ==> Distinct(Put(h, k, v))
    ensures forall f | f in Put(h, k, v) :: f == Field(k, v) || f in h
  {
    if h != [] {
      assert forall f | f in h[1..] :: f in h;
      if h[0].name != k {
        PutMembers(h[1..], k, v);
        GetPut(h[1..], k, v, h[0].name);
        assert Put(h, k, v)[1..] == Put(h[1..], k, v);
      }
    }
  }

  lemma {:induction false} WithoutMembers(h: Dict, keys: set<string>)
    ensures Distinct(h) ==> Distinct(Without(h, keys))
    ensures forall f | f in Without(h, keys) :: f in h
  {
    if h != [] {
      WithoutMembers(h[1..], keys);
      GetWithout(h[1..], keys, h[0].name);
      assert forall f | f in h[1..] :: f in h;
      assert ([h[0]] + Without(h[1..], keys))[1..] == Without(h[1..], keys);
    }
  }

  lemma {:induction false} PutNew(h: Dict, k: string, v: string)
    requires Get(h, k).None?
    ensures Put(h, k, v) == h + [Field(k, v)]
  {
    if h != [] {
      PutNew(h[1..], k, v);
    }
  }

  function Names(h: Dict): seq<string> {
    if h == [] then [] else [h[0].name] + Names(h[1..])
  }

  /** Insertion order: overwriting moves no key, a new key comes last. */
  lemma {:induction false} PutNames(h: Dict, k: string, v: string)
    ensures Names(Put(h, k, v)) == if Get(h, k).Some? then Names(h) else Names(h) + [k]
  {
    if h != [] && h[0].name != k {
      PutNames(h[1..], k, v);
      assert Put(h, k, v)[1..] == Put(h[1..], k, v);
    }
  }

  /** Removing keeps the order of the others. */
  lemma {:induction false} WithoutAppend(a: Dict, b: Dict, keys: set<string>, f: Field)
    ensures Without(a + b, keys) == Without(a, keys) + Without(b, keys)
    ensures Without([f], keys) == if f.name in keys then [] else [f]
  {
    assert [f][1..] == [];
    if a == [] {
      assert a + b == b;
    } else {
      assert (a + b)[1..] == a[1..] + b;
      WithoutAppend(a[1..], b, keys, f);
    }
  }

  lemma {:induction false} WithoutTwice(h: Dict, a: set<string>, b: set<string>)
    ensures Without(Without(h, a), b) == Without(h, a + b)
  {
    if h != [] {
      WithoutTwice(h[1..], a, b);
      assert ([h[0]] + Without(h[1..], a))[1..] == Without(h[1..], a);
    }
  }

  lemma {:induction false} WithoutNone(h: Dict)
    ensures Without(h, {}) == h
  {
    if h != [] {
      WithoutNone(h[1..]);
    }
  }

  // ----- dictionaries that a header parser can produce -----

  ghost predicate FieldOk(f: Field) {
    Capitalize(f.name) == f.name && Free(f.name, ": ") && Free(f.name, CRLF) && Free(f.value, CRLF)
  }

  ghost predicate DictOk(h: Dict) {
    Distinct(h) && forall f | f in h :: FieldOk(f)
  }

  lemma PutOk(h: Dict, k: string, v: string)
    requires DictOk(h) && FieldOk(Field(k, v))
    ensures DictOk(Put(h, k, v))
  {
    PutMembers(h, k, v);
  }

  lemma MergeOk(h: Dict, k: string, v: string)
    requires DictOk(h) && FieldOk(Field(k, v))
    ensures DictOk(Merge(h, k, v))
  {
    match Get(h, k) {
      case Some(prev) =>
        GetMember(h, k);
        FreeGlue(prev, ',', v, CRLF);
        assert prev + "," + v == prev + [','] + v;
        PutOk(h, k, prev + "," + v);
      case None => PutOk(h, k, v);
    }
  }

  // ----- what the dictionary means -----

  /** The values of all lines whose name is `k` in any case, in arrival order. */
  function Values(lines: seq<Field>, k: string): seq<string> {
    if lines == [] then []
    else (if SameName(lines[0].name, k) then [lines[0].value] else []) + Values(lines[1..], k)
  }

  function Combine(first: Option<string>, values: seq<string>): Option<string> {
    match first
    case None => if values == [] then None else Some(Join(values, ","))
    case Some(v) => Some(Join([v] + values, ","))
  }

  lemma CombineStep(first: Option<string>, v: string, rest: seq<string>)
    ensures Combine(Some(if first.Some? then first.value + "," + v else v), rest) == Combine(first, [v] + rest)
  {
    assert ([v] + rest)[1..] == rest;
    if first.Some? {
      var x := first.value;
      assert ([x] + ([v] + rest))[1..] == [v] + rest;
      assert ([x + "," + v] + rest)[1..] == rest;
      assert Join([x] + ([v] + rest), ",") == x + "," + Join([v] + rest, ",");
      if rest == [] {
        assert [x + "," + v] + rest == [x + "," + v] && [v] + rest == [v];
      } else {
        assert Join([v] + rest, ",") == v + "," + Join(rest, ",");
        assert x + "," + (v + "," + Join(rest, ",")) == x + "," + v + "," + Join(rest, ",");
      }
    }
  }

  lemma MergeGet(h: Dict, n: string, v: string, k: string)
    ensures Get(Merge(h, n, v), k) ==
            if k != n then Get(h, k)
            else Some(if Get(h, n).Some? then Get(h, n).value + "," + v else v)
  {
    var first := Get(h, n);
    if first.Some? {
      GetPut(h, n, first.value + "," + v, k);
    } else {
      GetPut(h, n, v, k);
    }
  }

  lemma {:induction false} MergeAllGet(h: Dict, lines: seq<Field>, k: string)
    requires Capitalize(k) == k
    ensures Get(MergeAll(h, lines), k) == Combine(Get(h, k), Values(lines, k))
    decreases |lines|
  {
    if lines == [] {
      assert Get(h, k).Some? ==> [Get(h, k).value] + [] == [Get(h, k).value];
    } else {
      var f := lines[0];
      var n := Capitalize(f.name);
      CapitalizeMeaning(f.name, k);
      MergeGet(h, n, f.value, k);
      MergeAllGet(Merge(h, n, f.value), lines[1..], k);
      var rest := Values(lines[1..], k);
      if n == k {
        CombineStep(Get(h, k), f.value, rest);
      } else {
        assert [] + rest == rest;
      }
    }
  }

  /** After parsing, a key holds the comma-joined values of the lines with that name in any
      case, in arrival order (section 3.2.2 of RFC 7230); no such line, no such key; every key is capitalised. */
  lemma HeaderMapMeaning(lines: seq<Field>, name: string)
    ensures Get(MergeAll([], lines), Capitalize(name)) ==
            if Values(lines, name) == [] then None else Some(Join(Values(lines, name), ","))
    ensures forall k :: Get(MergeAll([], lines), k).Some? ==> Capitalize(k) == k
  {
    hide Capitalize;
    forall k
      ensures Get(MergeAll([], lines), k).Some? ==> Capitalize(k) == k
    {
      MergedKeys([], lines, k);
    }
    CapitalizeMeaning(name, name);
    MergeAllGet([], lines, Capitalize(name));
    ValuesSame(lines, name, Capitalize(name));
  }

  lemma {:induction false} MergedKeys(h: Dict, lines: seq<Field>, k: string)
    ensures Get(MergeAll(h, lines), k).Some? ==> Get(h, k).Some? || Capitalize(k) == k
    decreases |lines|
  {
    hide Capitalize, Merge, Get;
    if lines != [] {
      var n := Capitalize(lines[0].name);
      CapitalizeMeaning(lines[0].name, k);
      MergeGet(h, n, lines[0].value, k);
      MergedKeys(Merge(h, n, lines[0].value), lines[1..], k);
    }
  }

  lemma {:induction false} ValuesSame(lines: seq<Field>, a: string, b: string)
    requires SameName(a, b)
    ensures Values(lines, a) == Values(lines, b)
  {
    if lines != [] {
      ValuesSame(lines[1..], a, b);
    }
  }
}
