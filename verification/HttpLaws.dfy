/** Laws of the stream functions: printers and parsers undo each other. */
module HttpLaws {
  import opened Wrappers
  import opened Text
  import opened Headers
  import opened HttpSpec

  // ----- the chunked coding -----

  /** A chunk as written on the wire: its size in hex (any case, leading zeros allowed), its data, and the two
      bytes that end it. The reader skips those two bytes without looking at them. */
  datatype Chunk = Chunk(size: string, data: string, end: string)

  ghost predicate ChunkOk(c: Chunk) {
    ParseNat(c.size, 16) == Some(|c.data|) && |c.end| == 2
  }

  function EncodeChunk(c: Chunk): string {
    c.size + CRLF + c.data + c.end
  }

  function EncodeChunks(cs: seq<Chunk>): string {
    if cs == [] then "" else EncodeChunk(cs[0]) + EncodeChunks(cs[1..])
  }

  function Data(cs: seq<Chunk>): string {
    if cs == [] then "" else cs[0].data + Data(cs[1..])
  }

  /** A chunked body: nonempty chunks closed by an empty one. */
  ghost predicate ChunkedOk(cs: seq<Chunk>, last: Chunk) {
    (forall c | c in cs :: ChunkOk(c) && c.data != "") && ChunkOk(last) && last.data == ""
  }

  lemma DechunkOne(acc: string, c: Chunk, more: string)
    requires ChunkOk(c)
    ensures Dechunk(acc, EncodeChunk(c) + more) ==
            if c.data == "" then Chunks(Complete, acc, more) else Dechunk(acc + c.data, more)
  {
    hide Dechunk, ParseNat, Find;
    var buf := EncodeChunk(c);
    ParseNatDigits(c.size, 16);
    DigitsPlain(c.size, CRLF);
    var tail := c.data + c.end;
    assert buf == c.size + CRLF + tail;
    FindPair(c.size, CRLF, tail);
    assert buf[..|c.size|] == c.size && buf[|c.size| + 2..] == tail;
    ChunkStep(acc, buf, more);
    assert tail[..|c.data|] == c.data && tail[|c.data| + 2..] == "" && "" + more == more;
    assert c.data == "" ==> tail[2..] == "";
  }

  lemma ParseNatDigits(s: string, base: nat)
    requires ParseNat(s, base).Some?
    ensures AllDigits(s, base)
  {
  }

  /** Section 4.1 of RFC 7230: decoding the encoding of any chunks gives their concatenation. */
  lemma {:induction false} DechunkEncoded(acc: string, cs: seq<Chunk>, last: Chunk, rest: string)
    requires ChunkedOk(cs, last)
    ensures Dechunk(acc, EncodeChunks(cs) + (EncodeChunk(last) + rest)) == Chunks(Complete, acc + Data(cs), rest)
    decreases |cs|
  {
    hide Dechunk, ParseNat, EncodeChunk;
    var end := EncodeChunk(last) + rest;
    if cs == [] {
      DechunkOne(acc, last, rest);
      assert "" + end == end && acc + "" == acc;
    } else {
      var c, t := cs[0], EncodeChunks(cs[1..]) + end;
      assert c in cs && ChunkOk(c);
      assert forall d | d in cs[1..] :: d in cs;
      assert EncodeChunks(cs) + end == EncodeChunk(c) + t;
      DechunkOne(acc, c, t);
      DechunkEncoded(acc + c.data, cs[1..], last, rest);
      assert acc + c.data + Data(cs[1..]) == acc + (c.data + Data(cs[1..]));
    }
  }

  lemma ConsChunk(c: Chunk, cs: seq<Chunk>, tail: string)
    ensures EncodeChunks([c] + cs) + tail == EncodeChunk(c) + (EncodeChunks(cs) + tail)
    ensures Data([c] + cs) == c.data + Data(cs)
  {
    hide EncodeChunk;
    assert ([c] + cs)[1..] == cs;
  }

  lemma ConsOk(c: Chunk, cs: seq<Chunk>, last: Chunk)
    requires ChunkOk(c) && c.data != "" && ChunkedOk(cs, last)
    ensures ChunkedOk([c] + cs, last)
  {
    hide ChunkOk;
    assert forall d | d in [c] + cs :: d == c || d in cs;
  }

  /** And nothing else decodes: a stream on which the reader completes is an encoding of chunks. */
  lemma {:induction false} DechunkShape(acc: string, s: string) returns (cs: seq<Chunk>, last: Chunk)
    requires Dechunk(acc, s).status.Complete?
    ensures ChunkedOk(cs, last)
    ensures s == EncodeChunks(cs) + (EncodeChunk(last) + Dechunk(acc, s).rest)
    ensures Dechunk(acc, s).body == acc + Data(cs)
    decreases |s|
  {
    hide Dechunk, EncodeChunk, Find, ChunkOk, ParseNat, Whole;
    CompleteHead(acc, s);
    var c, t := FirstChunk(s);
    DechunkOne(acc, c, t);
    if c.data == "" {
      cs, last := [], c;
      assert "" + (EncodeChunk(c) + t) == EncodeChunk(c) + t && acc + "" == acc;
    } else {
      var more;
      more, last := DechunkShape(acc + c.data, t);
      cs := [c] + more;
      ConsOk(c, more, last);
      ConsChunk(c, more, EncodeChunk(last) + Dechunk(acc, s).rest);
      assert (acc + c.data) + Data(more) == acc + (c.data + Data(more));
    }
  }

  /** The stream starts with a whole chunk. */
  predicate Whole(s: string) {
    var n := Find(s, CRLF);
    n >= 0 && ParseNat(s[..n], 16).Some? && ParseNat(s[..n], 16).value + 2 <= |s| - n - 2
  }

  lemma CompleteHead(acc: string, s: string)
    requires Dechunk(acc, s).status.Complete?
    ensures Whole(s)
  {
    hide Find, ParseNat;
  }

  lemma FirstChunk(s: string) returns (c: Chunk, t: string)
    requires Whole(s)
    ensures ChunkOk(c) && s == EncodeChunk(c) + t && |t| < |s|
  {
    hide Find, ParseNat, Dechunk;
    var n := Find(s, CRLF);
    LineAt(s);
    var size, data := ParseNat(s[..n], 16).value, s[n + 2..];
    c := Chunk(s[..n], data[..size], data[size..size + 2]);
    t := data[size + 2..];
    assert data == data[..size] + data[size..size + 2] + t;
    assert s == s[..n] + CRLF + data;
  }

  /** What decoding does with a stream that starts with chunks. */
  lemma {:induction false} DechunkAfter(acc: string, cs: seq<Chunk>, t: string)
    requires forall c | c in cs :: ChunkOk(c) && c.data != ""
    ensures Dechunk(acc, EncodeChunks(cs) + t) == Dechunk(acc + Data(cs), t)
    decreases |cs|
  {
    hide Dechunk, ParseNat, EncodeChunk, ChunkOk;
    if cs == [] {
      assert "" + t == t && acc + "" == acc;
    } else {
      var c := cs[0];
      assert c in cs && forall d | d in cs[1..] :: d in cs;
      assert cs == [c] + cs[1..];
      ConsChunk(c, cs[1..], t);
      DechunkOne(acc, c, EncodeChunks(cs[1..]) + t);
      DechunkAfter(acc + c.data, cs[1..], t);
      assert acc + c.data + Data(cs[1..]) == acc + (c.data + Data(cs[1..]));
    }
  }

  /** A stream on which no chunk can be read: its first line is not complete, or it announces more than there is. */
  ghost predicate Short(t: string) {
    Free(t, CRLF) ||
    exists size, data :: Glued(t, size, CRLF, data) && Free(size, CRLF) &&
                         ParseNat(size, 16).Some? && |data| < ParseNat(size, 16).value + 2
  }

  /** A stream whose first line is not a number. */
  ghost predicate NotChunk(t: string) {
    exists line, more :: Glued(t, line, CRLF, more) && Free(line, CRLF) && ParseNat(line, 16).None?
  }

  lemma ShortWaits(acc: string, t: string)
    ensures Short(t) ==> Dechunk(acc, t) == Chunks(Waiting, acc, t)
    ensures NotChunk(t) ==> Dechunk(acc, t).status == BadSize
  {
    hide Find, ParseNat;
    if !Free(t, CRLF) && Short(t) {
      var size, data :| Glued(t, size, CRLF, data) && Free(size, CRLF) &&
                        ParseNat(size, 16).Some? && |data| < ParseNat(size, 16).value + 2;
      FindPair(size, CRLF, data);
      assert t[..|size|] == size && t[|size| + 2..] == data;
    }
    if NotChunk(t) {
      var line, more :| Glued(t, line, CRLF, more) && Free(line, CRLF) && ParseNat(line, 16).None?;
      FindPair(line, CRLF, more);
      assert t[..|line|] == line;
    }
  }

  lemma StuckShape(acc: string, t: string)
    requires !Whole(t)
    ensures if Dechunk(acc, t).status.Waiting? then Short(t) && Dechunk(acc, t) == Chunks(Waiting, acc, t)
            else Dechunk(acc, t).status.BadSize? && NotChunk(t)
  {
    hide ParseNat, Find;
    var n := Find(t, CRLF);
    if n >= 0 {
      LineAt(t);
      assert Glued(t, t[..n], CRLF, t[n + 2..]);
    }
  }

  /** The other two outcomes: chunks followed by a stream that is too short for the next one, or by a line that is not
      a number. */
  lemma {:induction false} DechunkStops(acc: string, s: string) returns (cs: seq<Chunk>, t: string)
    requires !Dechunk(acc, s).status.Complete?
    ensures (forall c | c in cs :: ChunkOk(c) && c.data != "") && s == EncodeChunks(cs) + t
    ensures if Dechunk(acc, s).status.Waiting?
            then Short(t) && Dechunk(acc, s) == Chunks(Waiting, acc + Data(cs), t) else NotChunk(t)
    decreases |s|
  {
    hide Dechunk, Find, ParseNat, EncodeChunk, ChunkOk, Short, NotChunk, Whole;
    if Whole(s) {
      var c, rest := FirstChunk(s);
      DechunkOne(acc, c, rest);
      var more;
      more, t := DechunkStops(acc + c.data, rest);
      cs := [c] + more;
      ConsChunk(c, more, t);
      assert forall d | d in cs :: d == c || d in more;
      assert (acc + c.data) + Data(more) == acc + (c.data + Data(more));
    } else {
      cs, t := [], s;
      StuckShape(acc, s);
      assert "" + s == s && acc + "" == acc;
    }
  }

  // ----- heads -----

  /** The header lines of a stream, names as received. */
  function RawFields(s: string): seq<Field>
    decreases |s|
  {
    var newline := Find(s, CRLF);
    if newline <= 0 then []
    else match SplitField(s[..newline])
      case None => []
      case Some(f) => [f] + RawFields(s[newline + 2..])
  }

  ghost predicate LineOk(f: Field) {
    Free(f.name, ": ") && Free(f.name, CRLF) && Free(f.value, CRLF)
  }

  lemma SplitFieldMeaning(line: string)
    requires Free(line, CRLF) && SplitField(line).Some?
    ensures var f := SplitField(line).value; line == f.name + ": " + f.value && LineOk(f)
  {
    var k := Find(line, ": ");
    FreeBefore(line, ": ");
    FreeSlice(line, CRLF, 0, k);
    FreeSlice(line, CRLF, k + 2, |line|);
    assert line[..k] == line[0..k] && line[k + 2..] == line[k + 2..|line|];
  }

  lemma LineAt(s: string)
    requires Find(s, CRLF) >= 0
    ensures var n := Find(s, CRLF); Free(s[..n], CRLF) && s == s[..n] + CRLF + s[n + 2..]
  {
    FreeBefore(s, CRLF);
  }

  lemma PrintCons(f: Field, t: seq<Field>, rest: string)
    ensures PrintFields([f] + t) + rest == f.name + ": " + f.value + CRLF + (PrintFields(t) + rest)
  {
    assert ([f] + t)[1..] == t;
  }

  lemma RawStep(h: Dict, s: string)
    requires HeaderLines(h, s).Lines? && Find(s, CRLF) > 0
    ensures var n := Find(s, CRLF);
            SplitField(s[..n]).Some? &&
            var f := SplitField(s[..n]).value;
            LineOk(f) && RawFields(s) == [f] + RawFields(s[n + 2..]) &&
            HeaderLines(h, s) == HeaderLines(Merge(h, Capitalize(f.name), f.value), s[n + 2..]) &&
            s == f.name + ": " + f.value + CRLF + s[n + 2..]
  {
    hide Find, SplitField, Capitalize, Merge;
    LineAt(s);
    SplitFieldMeaning(s[..Find(s, CRLF)]);
  }

  /** A successful header read: the stream is the raw lines, a blank line and the rest, and the
      dictionary is the raw lines merged in order. */
  lemma {:induction false} LinesMeaning(h: Dict, s: string)
    requires HeaderLines(h, s).Lines?
    ensures HeaderLines(h, s).headers == MergeAll(h, RawFields(s))
    ensures s == PrintFields(RawFields(s)) + (CRLF + HeaderLines(h, s).rest)
    ensures forall f | f in RawFields(s) :: LineOk(f)
    decreases |s|
  {
    var n := Find(s, CRLF);
    if n == 0 {
      hide Find;
      LineAt(s);
      assert s == CRLF + s[2..];
      assert s == PrintFields([]) + (CRLF + s[2..]);
    } else {
      RawStep(h, s);
      var f, t := SplitField(s[..n]).value, s[n + 2..];
      hide Find, SplitField, Capitalize, Merge, HeaderLines, RawFields, PrintFields;
      LinesMeaning(Merge(h, Capitalize(f.name), f.value), t);
      assert ([f] + RawFields(t))[1..] == RawFields(t);
      PrintCons(f, RawFields(t), CRLF + HeaderLines(h, s).rest);
    }
  }

  lemma {:induction false} MergeAllOk(h: Dict, lines: seq<Field>)
    requires DictOk(h) && forall f | f in lines :: LineOk(f)
    ensures DictOk(MergeAll(h, lines))
    decreases |lines|
  {
    hide Capitalize, Merge;
    if lines != [] {
      var f := lines[0];
      assert LineOk(f);
      CapitalizeFree(f.name, ": ");
      CapitalizeFree(f.name, CRLF);
      CapitalizeMeaning(f.name, f.name);
      MergeOk(h, Capitalize(f.name), f.value);
      MergeAllOk(Merge(h, Capitalize(f.name), f.value), lines[1..]);
    }
  }

  /** The messages that parsing can produce. */
  ghost predicate MessageOk(m: Message) {
    ' ' !in m.first && ' ' !in m.second &&
    Free(m.first, CRLF) && Free(m.second, CRLF) && Free(m.third, CRLF) && DictOk(m.headers)
  }

  lemma SplitAtSpace(line: string)
    requires Free(line, CRLF) && Find(line, " ") >= 0
    ensures var a := Find(line, " ");
            line == line[..a] + " " + line[a + 1..] && ' ' !in line[..a] &&
            Free(line[..a], CRLF) && Free(line[a + 1..], CRLF)
  {
    hide Find;
    var a := Find(line, " ");
    FindNone(line, ' ');
    FreeSlice(line, CRLF, 0, a);
    FreeSlice(line, CRLF, a + 1, |line|);
    assert line[0..a] == line[..a] && line[a + 1..|line|] == line[a + 1..];
  }

  lemma SplitLineMeaning(line: string)
    requires Free(line, CRLF) && SplitLine(line).Some?
    ensures var p := SplitLine(line).value;
            line == p.0 + " " + p.1 + " " + p.2 && ' ' !in p.0 && ' ' !in p.1 &&
            Free(p.0, CRLF) && Free(p.1, CRLF) && Free(p.2, CRLF)
  {
    hide Find;
    SplitAtSpace(line);
    var tail := line[Find(line, " ") + 1..];
    SplitAtSpace(tail);
    var p := SplitLine(line).value;
    assert p.0 + " " + (p.1 + " " + p.2) == p.0 + " " + p.1 + " " + p.2;
  }

  /** The raw header lines of a stream that starts with a message head. */
  function HeadLines(s: string): seq<Field> {
    if Find(s, CRLF) < 0 then [] else RawFields(s[Find(s, CRLF) + 2..])
  }

  lemma ParseHeadParts(kind: Kind, s: string)
    requires ParseHead(kind, s).outcome.Success?
    ensures var n := Find(s, CRLF);
            var m := ParseHead(kind, s).outcome.message;
            n >= 0 && SplitLine(s[..n]) == Some((m.first, m.second, m.third)) &&
            HeaderLines([], s[n + 2..]) == Lines(m.headers, ParseHead(kind, s).rest) &&
            (kind.ResponseHead? ==> ParseNat(m.second, 10).Some?)
  {
    hide Find, SplitLine, HeaderLines, ParseNat;
  }

  /** A successfully parsed head: the stream is the three parts of the first line, the raw header lines,
      a blank line and the unread rest, and the dictionary is the raw lines merged in arrival order. */
  lemma HeadShape(kind: Kind, s: string)
    requires ParseHead(kind, s).outcome.Success?
    ensures var m := ParseHead(kind, s).outcome.message;
            MessageOk(m) && m.headers == MergeAll([], HeadLines(s)) &&
            s == m.first + " " + m.second + " " + m.third + CRLF +
                 (PrintFields(HeadLines(s)) + (CRLF + ParseHead(kind, s).rest))
    ensures kind.ResponseHead? ==> ParseNat(ParseHead(kind, s).outcome.message.second, 10).Some?
  {
    ParseHeadParts(kind, s);
    hide Find, SplitLine, HeaderLines, MergeAll, ParseHead, RawFields, PrintFields;
    var n := Find(s, CRLF);
    LineAt(s);
    SplitLineMeaning(s[..n]);
    LinesMeaning([], s[n + 2..]);
    MergeAllOk([], RawFields(s[n + 2..]));
  }

  /** Each header key of a parsed message holds the comma-joined values of the lines with that name in
      any case, in arrival order (section 3.2.2 of RFC 7230). */
  lemma HeadMeaning(kind: Kind, s: string, name: string)
    requires ParseHead(kind, s).outcome.Success?
    ensures Get(ParseHead(kind, s).outcome.message.headers, Capitalize(name)) ==
            if Values(HeadLines(s), name) == [] then None else Some(Join(Values(HeadLines(s), name), ","))
  {
    HeadShape(kind, s);
    HeaderMapMeaning(HeadLines(s), name);
  }

  // ----- parsing what was printed -----

  lemma FieldLine(f: Field)
    requires LineOk(f)
    ensures SplitField(f.name + ": " + f.value) == Some(f)
    ensures Free(f.name + ": " + f.value, CRLF)
  {
    hide Find;
    var line := f.name + ": " + f.value;
    FindPair(f.name, ": ", f.value);
    assert line[..|f.name|] == f.name && line[|f.name| + 2..] == f.value;
    PairOccurs(f.name, CRLF);
    PairOccurs(f.value, CRLF);
    PairOccurs(line, CRLF);
  }

  lemma OneLine(h: Dict, f: Field, more: string)
    requires LineOk(f)
    ensures HeaderLines(h, f.name + ": " + f.value + CRLF + more) ==
            HeaderLines(Merge(h, Capitalize(f.name), f.value), more)
  {
    hide Find, SplitField, HeaderLines, Merge, Capitalize;
    FieldLine(f);
    var line := f.name + ": " + f.value;
    FindPair(line, CRLF, "");
    var buf := line + CRLF;
    assert line + CRLF + "" == buf;
    LineStep(h, buf, more);
    assert buf[..|line|] == line && buf[|line| + 2..] == "" && "" + more == more;
  }

  lemma BlankLine(h: Dict, rest: string)
    ensures HeaderLines(h, CRLF + rest) == Lines(h, rest)
  {
    FindPair("", CRLF, "");
    assert "" + CRLF + "" == CRLF;
    LineStep(h, CRLF, rest);
    assert CRLF[2..] + rest == rest;
  }

  /** Any raw lines are read back as themselves, merged in order. */
  lemma {:induction false} LinesOfPrinted(h: Dict, lines: seq<Field>, rest: string)
    requires forall f | f in lines :: LineOk(f)
    ensures HeaderLines(h, PrintFields(lines) + (CRLF + rest)) == Lines(MergeAll(h, lines), rest)
    decreases |lines|
  {
    hide HeaderLines, LineOk, Capitalize, Merge;
    if lines == [] {
      BlankLine(h, rest);
      assert PrintFields(lines) + (CRLF + rest) == CRLF + rest;
    } else {
      var f, t := lines[0], lines[1..];
      assert lines == [f] + t && f in lines;
      assert forall g | g in t :: g in lines;
      PrintCons(f, t, CRLF + rest);
      OneLine(h, f, PrintFields(t) + (CRLF + rest));
      LinesOfPrinted(Merge(h, Capitalize(f.name), f.value), t, rest);
    }
  }

  lemma MergeNew(h: Dict, f: Field)
    requires Get(h, f.name).None? && Capitalize(f.name) == f.name
    ensures Merge(h, Capitalize(f.name), f.value) == h + [f]
  {
    hide Capitalize;
    PutNew(h, f.name, f.value);
  }

  /** A dictionary's own fields merge to the dictionary itself. */
  lemma {:induction false} MergeAllDistinct(h: Dict, fs: Dict)
    requires Distinct(fs) && forall f | f in fs :: Get(h, f.name).None? && Capitalize(f.name) == f.name
    ensures MergeAll(h, fs) == h + fs
    decreases |fs|
  {
    hide Capitalize, Get, Merge;
    if fs == [] {
      assert h + fs == h;
    } else {
      var f, t := fs[0], fs[1..];
      assert fs == [f] + t && f in fs;
      assert forall g | g in t :: g in fs;
      MergeNew(h, f);
      NewKeys(h, f, t);
      MergeAllDistinct(h + [f], t);
      assert h + [f] + t == h + fs;
    }
  }

  lemma NewKeys(h: Dict, f: Field, t: Dict)
    requires Distinct([f] + t) && forall g | g in [f] + t :: Get(h, g.name).None?
    ensures forall g | g in t :: Get(h + [f], g.name).None?
  {
    assert ([f] + t)[1..] == t;
    GetMember(t, f.name);
    forall g | g in t
      ensures Get(h + [f], g.name).None?
    {
      assert g in [f] + t;
      GetAppend(h, f, g.name);
    }
  }

  lemma GetAppend(h: Dict, f: Field, k: string)
    requires f.name != k && Get(h, k).None?
    ensures Get(h + [f], k).None?
  {
    GetMember(h, k);
    GetMember(h + [f], k);
  }

  ghost predicate FirstOk(kind: Kind, first: string, second: string, third: string) {
    ' ' !in first && ' ' !in second && Free(first, CRLF) && Free(second, CRLF) && Free(third, CRLF) &&
    (kind.ResponseHead? ==> ParseNat(second, 10).Some?)
  }

  lemma FirstLineOfPrinted(kind: Kind, first: string, second: string, third: string)
    requires FirstOk(kind, first, second, third)
    ensures var line := first + " " + second + " " + third;
            Free(line, CRLF) && FirstLine(kind, line) == Some((first, second, third))
  {
    hide Find, ParseNat;
    var tail := second + " " + third;
    var line := first + " " + second + " " + third;
    assert line == first + " " + tail;
    FindOne(first, ' ', tail);
    FindOne(second, ' ', third);
    assert line[..|first|] == first && line[|first| + 1..] == tail;
    assert tail[..|second|] == second && tail[|second| + 1..] == third;
    FreeGlue(second, ' ', third, CRLF);
    FreeGlue(first, ' ', tail, CRLF);
  }

  /** Every stream made of a first line, raw header lines, a blank line and a rest parses to exactly those. With
      lemma `HeadShape`: a head is accepted if and only if it has this shape. */
  lemma ParseRaw(kind: Kind, first: string, second: string, third: string, lines: seq<Field>, rest: string)
    requires FirstOk(kind, first, second, third) && forall f | f in lines :: LineOk(f)
    ensures ParseHead(kind, first + " " + second + " " + third + CRLF + (PrintFields(lines) + (CRLF + rest))) ==
            Head(Success(Message(first, second, third, MergeAll([], lines))), rest)
  {
    hide Find, FirstLine, HeaderLines, PrintFields, FirstOk, MergeAll;
    var line := first + " " + second + " " + third;
    var more := PrintFields(lines) + (CRLF + rest);
    FirstLineOfPrinted(kind, first, second, third);
    FindPair(line, CRLF, "");
    var buf := line + CRLF;
    assert line + CRLF + "" == buf;
    HeadStep(kind, buf, more);
    assert buf[..|line|] == line && buf[|line| + 2..] == "" && "" + more == more;
    LinesOfPrinted([], lines, rest);
  }

  /** Parsing a printed message gives the message back, and leaves exactly what follows the head. */
  lemma ParsePrinted(kind: Kind, m: Message, tail: string)
    requires MessageOk(m) && (kind.ResponseHead? ==> ParseNat(m.second, 10).Some?)
    ensures ParseHead(kind, Print(m, Some(tail))) == Head(Success(m), tail)
  {
    hide ParseHead, PrintFields, MergeAll, Capitalize, Free, ParseNat;
    var line := m.first + " " + m.second + " " + m.third + CRLF;
    assert forall f | f in m.headers :: FieldOk(f) && LineOk(f);
    ParseRaw(kind, m.first, m.second, m.third, m.headers, tail);
    MergeAllDistinct([], m.headers);
    assert [] + m.headers == m.headers;
    assert line + (PrintFields(m.headers) + (CRLF + tail)) == line + PrintFields(m.headers) + CRLF + tail;
  }

  // ----- malformed heads -----

  /** A first line that is refused: it has fewer than two spaces, or a reply's status code is not a numeral. */
  ghost predicate BadFirst(kind: Kind, line: string) {
    Count(line, ' ') < 2 ||
    (kind.ResponseHead? &&
     exists a, b, c :: line == a + " " + b + " " + c && ' ' !in a && ' ' !in b && ParseNat(b, 10).None?)
  }

  lemma SplitLineExactly(line: string)
    ensures SplitLine(line).None? <==> Count(line, ' ') < 2
  {
    hide Find;
    FindNone(line, ' ');
    CountZeroIff(line);
    if ' ' in line {
      FirstSeparator(line, ' ');
      var k := Find(line, " ");
      var tail := line[k + 1..];
      FindNone(tail, ' ');
      CountZeroIff(tail);
      CountConcat(line[..k], [' '] + tail, ' ');
      CountZero(line[..k], ' ');
      assert Count([' '] + tail, ' ') == 1 + Count(tail, ' ') by {
        assert ([' '] + tail)[1..] == tail;
      }
    }
  }

  lemma CountZeroIff(s: string)
    ensures Count(s, ' ') == 0 <==> ' ' !in s
  {
    if ' ' in s {
      CountMember(s, ' ');
    } else {
      CountZero(s, ' ');
    }
  }

  lemma SplitLineOf(a: string, b: string, c: string)
    requires ' ' !in a && ' ' !in b
    ensures SplitLine(a + " " + b + " " + c) == Some((a, b, c))
  {
    hide Find;
    var tail := b + " " + c;
    var line := a + " " + b + " " + c;
    assert line == a + " " + tail;
    FindOne(a, ' ', tail);
    FindOne(b, ' ', c);
    assert line[..|a|] == a && line[|a| + 1..] == tail;
    assert tail[..|b|] == b && tail[|b| + 1..] == c;
  }

  lemma FirstLineExactly(kind: Kind, line: string)
    requires Free(line, CRLF)
    ensures FirstLine(kind, line).None? <==> BadFirst(kind, line)
  {
    hide SplitLine, Count, ParseNat, Free;
    SplitLineExactly(line);
    if SplitLine(line).Some? {
      SplitLineMeaning(line);
      var p := SplitLine(line).value;
      assert line == p.0 + " " + p.1 + " " + p.2;
    }
    forall a, b, c | line == a + " " + b + " " + c && ' ' !in a && ' ' !in b
      ensures SplitLine(line) == Some((a, b, c))
    {
      SplitLineOf(a, b, c);
    }
  }

  /** Header lines that end in one without ": ", before any blank line. */
  ghost predicate BadLines(s: string) {
    exists lines: seq<Field>, bad, rest ::
      s == PrintFields(lines) + (bad + CRLF + rest) && (forall f | f in lines :: LineOk(f)) &&
      bad != "" && Free(bad, ": ") && Free(bad, CRLF)
  }

  lemma {:induction false} BadLinesRead(h: Dict, lines: seq<Field>, bad: string, rest: string)
    requires (forall f | f in lines :: LineOk(f)) && bad != "" && Free(bad, ": ") && Free(bad, CRLF)
    ensures HeaderLines(h, PrintFields(lines) + (bad + CRLF + rest)) == BadLine
    decreases |lines|
  {
    hide LineOk, Capitalize, Merge;
    if lines == [] {
      hide Find, HeaderLines;
      FindPair(bad, CRLF, "");
      var buf := bad + CRLF;
      assert bad + CRLF + "" == buf && buf[..|bad|] == bad;
      LineStep(h, buf, rest);
      assert PrintFields(lines) + (bad + CRLF + rest) == buf + rest;
    } else {
      hide HeaderLines, Find;
      var f, t := lines[0], lines[1..];
      assert lines == [f] + t && f in lines;
      assert forall g | g in t :: g in lines;
      PrintCons(f, t, bad + CRLF + rest);
      OneLine(h, f, PrintFields(t) + (bad + CRLF + rest));
      BadLinesRead(Merge(h, Capitalize(f.name), f.value), t, bad, rest);
    }
  }

  lemma {:induction false} BadLinesShape(h: Dict, s: string)
    requires HeaderLines(h, s) == BadLine
    ensures BadLines(s)
    decreases |s|
  {
    hide Find, SplitField, Capitalize, Merge, LineOk;
    var n := Find(s, CRLF);
    LineAt(s);
    if SplitField(s[..n]).None? {
      NoField(s[..n]);
      assert s == PrintFields([]) + (s[..n] + CRLF + s[n + 2..]);
    } else {
      var f, t := SplitField(s[..n]).value, s[n + 2..];
      SplitFieldMeaning(s[..n]);
      BadLinesShape(Merge(h, Capitalize(f.name), f.value), t);
      var lines: seq<Field>, bad, rest :|
        t == PrintFields(lines) + (bad + CRLF + rest) && (forall f | f in lines :: LineOk(f)) &&
        bad != "" && Free(bad, ": ") && Free(bad, CRLF);
      PrintCons(f, lines, bad + CRLF + rest);
      assert s == PrintFields([f] + lines) + (bad + CRLF + rest);
      assert forall g | g in [f] + lines :: g == f || g in lines;
    }
  }

  lemma NoField(line: string)
    requires SplitField(line).None?
    ensures Free(line, ": ")
  {
  }

  /** Exactly which heads are malformed: a refused first line, or a header line without ": " before the blank line.
      Heads that are neither malformed nor complete are cut off. */
  lemma MalformedExactly(kind: Kind, s: string)
    ensures ParseHead(kind, s).outcome == Malformed <==>
            exists line, rest :: Glued(s, line, CRLF, rest) && Free(line, CRLF) &&
                                 (BadFirst(kind, line) || BadLines(rest))
  {
    hide FirstLine, BadFirst, BadLines, HeaderLines, Find;
    var n := Find(s, CRLF);
    if n >= 0 {
      LineAt(s);
      assert Glued(s, s[..n], CRLF, s[n + 2..]);
      FirstLineExactly(kind, s[..n]);
      BadLinesExactly([], s[n + 2..]);
    }
    forall line, rest | Glued(s, line, CRLF, rest) && Free(line, CRLF)
      ensures n == |line| && s[..n] == line && s[n + 2..] == rest
    {
      FindPair(line, CRLF, rest);
    }
  }

  lemma BadLinesExactly(h: Dict, s: string)
    ensures HeaderLines(h, s) == BadLine <==> BadLines(s)
  {
    hide HeaderLines, LineOk, Free;
    if HeaderLines(h, s) == BadLine {
      BadLinesShape(h, s);
    }
    if BadLines(s) {
      var lines: seq<Field>, bad, rest :|
        s == PrintFields(lines) + (bad + CRLF + rest) && (forall f | f in lines :: LineOk(f)) &&
        bad != "" && Free(bad, ": ") && Free(bad, CRLF);
      BadLinesRead(h, lines, bad, rest);
    }
  }

  // ----- more input -----

  lemma {:induction false} LinesExtend(h: Dict, s: string, t: string)
    ensures HeaderLines(h, s).Lines? ==>
              HeaderLines(h, s + t) == Lines(HeaderLines(h, s).headers, HeaderLines(h, s).rest + t)
    ensures HeaderLines(h, s).BadLine? ==> HeaderLines(h, s + t).BadLine?
    decreases |s|
  {
    hide Find, SplitField, Capitalize, Merge;
    var n := Find(s, CRLF);
    if n >= 0 {
      LineStep(h, s, t);
      if n > 0 && SplitField(s[..n]).Some? {
        var f := SplitField(s[..n]).value;
        LinesExtend(Merge(h, Capitalize(f.name), f.value), s[n + 2..], t);
      }
    }
  }

  /** A parsed head and a malformed one are final: more input only adds to the unread rest. A stream without a line
      break is the only one that counts as "never sent anything". */
  lemma HeadExtend(kind: Kind, s: string, t: string)
    ensures var before, after := ParseHead(kind, s), ParseHead(kind, s + t);
            (before.outcome.Success? ==> after == Head(before.outcome, before.rest + t)) &&
            (before.outcome.Malformed? ==> after.outcome.Malformed?) &&
            (before.outcome.NoLine? <==> Free(s, CRLF))
  {
    hide Find, FirstLine, HeaderLines;
    if Find(s, CRLF) >= 0 {
      HeadStep(kind, s, "");
      HeadStep(kind, s, t);
      assert s + "" == s;
      var tail := s[Find(s, CRLF) + 2..];
      assert tail + "" == tail;
      LinesExtend([], tail, t);
    }
  }
}
