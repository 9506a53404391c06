/**
 Chunked bodies as senders write them (section 7.1 of RFC 9112), with extensions and trailer fields, and where the
 framer finds their end.
 */
module ChunkedBodies {
  import opened Octets
  import opened HttpText
  import opened Framers

  const CRLF: Bytes := ['\r', '\n']

  // ---- the grammar

  /** The number that hex digits stand for, however many zeros there are in front. */
  function HexValue(s: Bytes): nat {
    if s == [] then 0
    else HexValue(s[..|s| - 1]) * 16 + DigitOf(s[|s| - 1])
  }

  predicate IsHex(s: Bytes) { forall i | 0 <= i < |s| :: IsHexDigit(s[i]) }

  /** A number in hex, each digit in either case: `small` is asked for the last one first. */
  function HexText(n: nat, small: nat -> bool): Bytes {
    HexIsRead(small(0), n % 16);
    (if n < 16 then [] else HexText(n / 16, (i: nat) => small(i + 1))) + [HexTable(small(0))[n % 16]]
  }

  lemma {:induction false} HexTextIsRead(n: nat, small: nat -> bool)
    ensures HexText(n, small) != [] && IsHex(HexText(n, small)) && HexValue(HexText(n, small)) == n
    decreases n
  {
    hide DigitOf, IsHex, HexValue, HexTable;
    HexIsRead(small(0), n % 16);
    var c := HexTable(small(0))[n % 16];
    if n < 16 {
      HexValueMore([], c);
    } else {
      var more := (i: nat) => small(i + 1);
      HexTextIsRead(n / 16, more);
      HexValueMore(HexText(n / 16, more), c);
    }
  }

  lemma HexValueMore(s: Bytes, c: Octet)
    ensures HexValue(s + [c]) == (if s == [] then 0 else HexValue(s)) * 16 + DigitOf(c)
    ensures IsHex(s + [c]) <==> (s == [] || IsHex(s)) && IsHexDigit(c)
  {
    hide DigitOf, IsHexDigit;
    var t := s + [c];
    assert t[..|t| - 1] == s && t[|s|] == c;
    assert forall i | 0 <= i < |s| :: t[i] == s[i];
  }

  /** The framer's arithmetic on characters is the place in the table. */
  lemma DigitIsPlace(c: char)
    requires IsHexDigit(c)
    ensures HexDigit(c) == DigitOf(c) < 16
  {
    hide DigitOf, First;
    HexIsInTable(c);
  }

  predicate IsBws(s: Bytes) { forall i | 0 <= i < |s| :: IsOws(s[i]) }

  datatype QuotedItem = Plain(c: Octet) | Escaped(c: Octet)
  {
    predicate Valid() { if Plain? then IsQdtext(c) else IsFieldChar(c) }

    function Encoded(): Bytes { if Plain? then [c] else ['\\', c] }
  }

  function EncodeItems(items: seq<QuotedItem>): Bytes {
    if items == [] then [] else items[0].Encoded() + EncodeItems(items[1..])
  }

  datatype ExtensionValue = Token(text: Bytes) | Quoted(items: seq<QuotedItem>)
  {
    predicate Valid() {
      match this case Token(text) => IsToken(text) case Quoted(items) => forall i | 0 <= i < |items| :: items[i].Valid()
    }

    function Encoded(): Bytes {
      match this case Token(text) => text case Quoted(items) => ['"'] + EncodeItems(items) + ['"']
    }
  }

  /** BWS ";" BWS chunk-ext-name [ BWS "=" BWS chunk-ext-val ] */
  datatype Extension = Extension(before: Bytes, behind: Bytes, name: Bytes, value: Option<(Bytes, Bytes, ExtensionValue)>)
  {
    predicate Valid() {
      && IsBws(before) && IsBws(behind) && IsToken(name)
      && (value.Some? ==> IsBws(value.value.0) && IsBws(value.value.1) && value.value.2.Valid())
    }

    function Encoded(): Bytes {
      before + [';'] + behind + name
      + if value.Some? then value.value.0 + ['='] + value.value.1 + value.value.2.Encoded() else []
    }
  }

  function EncodeExtensions(extensions: seq<Extension>): Bytes {
    if extensions == [] then [] else extensions[0].Encoded() + EncodeExtensions(extensions[1..])
  }

  /** chunk-size [ chunk-ext ] CRLF; the framer also lets white space pass behind the last extension. */
  datatype SizeLine = SizeLine(size: Bytes, extensions: seq<Extension>, padding: Bytes)
  {
    predicate Valid() {
      && size != [] && IsHex(size) && HexValue(size) <= MAX_SHIFTABLE_SIZE * 16 + 15
      && (forall i | 0 <= i < |extensions| :: extensions[i].Valid())
      && IsBws(padding) && (extensions == [] ==> padding == [])
      && |EncodeExtensions(extensions) + padding| <= MAX_CHUNKED_EXTENSION_SIZE
    }

    function Encoded(): Bytes { size + (EncodeExtensions(extensions) + padding) + CRLF }
  }

  /** The size line and the data, the one saying how long the other is. */
  datatype Chunk = Chunk(line: SizeLine, data: Bytes)
  {
    predicate Valid() { line.Valid() && HexValue(line.size) == |data| && 0 < |data| }

    function Encoded(): Bytes { line.Encoded() + data + CRLF }
  }

  datatype TrailerField = TrailerField(name: Bytes, value: Bytes)
  {
    predicate Valid() { IsToken(name) && IsFieldValue(value) }

    function Encoded(): Bytes { name + [':'] + value + CRLF }
  }

  function EncodeTrailer(fields: seq<TrailerField>): Bytes {
    if fields == [] then CRLF else fields[0].Encoded() + EncodeTrailer(fields[1..])
  }

  /** Chunks, the last chunk, and the trailer section with its empty line. */
  datatype Message = Message(chunks: seq<Chunk>, last: SizeLine, trailer: seq<TrailerField>)
  {
    predicate Valid() {
      && (forall i | 0 <= i < |chunks| :: chunks[i].Valid())
      && last.Valid() && HexValue(last.size) == 0
      && (forall i | 0 <= i < |trailer| :: trailer[i].Valid())
      && |EncodeTrailer(trailer)| <= MAX_CHUNKED_TRAILER_SIZE
    }

    function Encoded(): Bytes { EncodeChunks(chunks) + last.Encoded() + EncodeTrailer(trailer) }
  }

  function EncodeChunks(chunks: seq<Chunk>): Bytes {
    if chunks == [] then [] else chunks[0].Encoded() + EncodeChunks(chunks[1..])
  }

  // ---- the automaton on extensions and trailers

  /** The stage behind a text, all of whose bytes are taken in stages of extensions or of trailers. */
  function Walk(stage: Stage, s: Bytes): Stage
    decreases |s|
  {
    if s == [] then stage
    else if stage.IsExtension() then Walk(AfterExtension(stage, s[0]), s[1..])
    else if stage.IsTrailer() then Walk(AfterTrailer(stage, s[0]), s[1..])
    else Failed
  }

  lemma {:induction false} WalkConcat(stage: Stage, a: Bytes, b: Bytes)
    requires Walk(stage, a).IsExtension() || Walk(stage, a).IsTrailer()
    ensures Walk(stage, a + b) == Walk(Walk(stage, a), b)
    decreases |a|
  {
    hide AfterExtension, AfterTrailer;
    if a == [] {
      assert a + b == b;
    } else {
      assert (a + b)[1..] == a[1..] + b;
      if stage.IsExtension() {
        WalkConcat(AfterExtension(stage, a[0]), a[1..], b);
      } else if stage.IsTrailer() {
        WalkConcat(AfterTrailer(stage, a[0]), a[1..], b);
      }
    }
  }

  lemma WalkOne(stage: Stage, c: Octet)
    ensures stage.IsExtension() ==> Walk(stage, [c]) == AfterExtension(stage, c)
    ensures stage.IsTrailer() ==> Walk(stage, [c]) == AfterTrailer(stage, c)
  {
    hide AfterExtension, AfterTrailer;
    assert [c][1..] == [];
  }

  /** A byte that leaves the stage as it is may come any number of times. */
  lemma {:induction false} WalkInPlace(stage: Stage, s: Bytes)
    requires stage.IsExtension() ==> forall i | 0 <= i < |s| :: AfterExtension(stage, s[i]) == stage
    requires stage.IsTrailer() ==> forall i | 0 <= i < |s| :: AfterTrailer(stage, s[i]) == stage
    requires stage.IsExtension() || stage.IsTrailer()
    ensures Walk(stage, s) == stage
    decreases |s|
  {
    hide AfterExtension, AfterTrailer;
    if s != [] {
      WalkInPlace(stage, s[1..]);
    }
  }

  lemma WalkBws(stage: Stage, s: Bytes)
    requires IsBws(s)
    requires stage.ExtensionBeforeSemicolon? || stage.ExtensionBeforeName? || stage.ExtensionAfterName?
             || stage.ExtensionBeforeValue? || stage.ExtensionAfterValue?
    ensures Walk(stage, s) == stage
  {
    WalkInPlace(stage, s);
  }

  /** White space behind a name or a token. */
  lemma WalkAway(stage: Stage, s: Bytes)
    requires IsBws(s) && s != [] && (stage.ExtensionName? || stage.ExtensionTokenValue?)
    ensures Walk(stage, s) == if stage.ExtensionName? then ExtensionAfterName else ExtensionAfterValue
  {
    var next := if stage.ExtensionName? then ExtensionAfterName else ExtensionAfterValue;
    assert IsOws(s[0]) && AfterExtension(stage, s[0]) == next;
    assert IsBws(s[1..]);
    WalkBws(next, s[1..]);
  }

  /** An extension, or the end of the line, may follow. */
  predicate EndsExtension(stage: Stage) { stage.ExtensionName? || stage.ExtensionTokenValue? || stage.ExtensionAfterValue? }

  lemma WalkToSemicolon(stage: Stage, before: Bytes)
    requires IsBws(before) && (stage.ExtensionBeforeSemicolon? || EndsExtension(stage))
    ensures Walk(stage, before + [';']) == ExtensionBeforeName
  {
    hide Walk;
    if before == [] {
      assert before + [';'] == [';'];
      WalkOne(stage, ';');
    } else {
      if stage.ExtensionName? || stage.ExtensionTokenValue? {
        WalkAway(stage, before);
      } else {
        WalkBws(stage, before);
      }
      WalkConcat(stage, before, [';']);
      WalkOne(Walk(stage, before), ';');
    }
  }

  lemma WalkToEquals(before: Bytes)
    requires IsBws(before)
    ensures Walk(ExtensionName, before + ['=']) == ExtensionBeforeValue
  {
    hide Walk;
    if before == [] {
      assert before + ['='] == ['='];
      WalkOne(ExtensionName, '=');
    } else {
      WalkAway(ExtensionName, before);
      WalkConcat(ExtensionName, before, ['=']);
      WalkOne(ExtensionAfterName, '=');
    }
  }

  lemma WalkToken(stage: Stage, s: Bytes)
    requires IsToken(s) && (stage.ExtensionBeforeName? || stage.ExtensionBeforeValue? || stage.TrailerLineStart?)
    ensures Walk(stage, s) == if stage.ExtensionBeforeName? then ExtensionName
                              else if stage.ExtensionBeforeValue? then ExtensionTokenValue
                              else TrailerName
  {
    var next := if stage.ExtensionBeforeName? then ExtensionName
                else if stage.ExtensionBeforeValue? then ExtensionTokenValue else TrailerName;
    assert IsTchar(s[0]) && !IsOws(s[0]);
    WalkInPlace(next, s[1..]);
  }

  lemma {:induction false} WalkItems(items: seq<QuotedItem>)
    requires forall i | 0 <= i < |items| :: items[i].Valid()
    ensures Walk(ExtensionQuotedValue, EncodeItems(items)) == ExtensionQuotedValue
  {
    hide Walk, IsQdtext, IsFieldChar;
    if items == [] {
      WalkInPlace(ExtensionQuotedValue, []);
    } else {
      WalkItem(items[0]);
      WalkItems(items[1..]);
      WalkConcat(ExtensionQuotedValue, items[0].Encoded(), EncodeItems(items[1..]));
    }
  }

  lemma WalkItem(item: QuotedItem)
    requires item.Valid()
    ensures Walk(ExtensionQuotedValue, item.Encoded()) == ExtensionQuotedValue
  {
    WalkOne(ExtensionQuotedValue, '\\');
    WalkOne(ExtensionQuotedPair, item.c);
    WalkOne(ExtensionQuotedValue, item.c);
    if item.Escaped? {
      WalkConcat(ExtensionQuotedValue, ['\\'], [item.c]);
      assert ['\\'] + [item.c] == item.Encoded();
    }
  }

  lemma WalkValue(value: ExtensionValue)
    requires value.Valid()
    ensures EndsExtension(Walk(ExtensionBeforeValue, value.Encoded()))
  {
    hide Walk, IsToken, IsTchar, IsQdtext, IsFieldChar;
    match value
    case Token(text) => WalkToken(ExtensionBeforeValue, text);
    case Quoted(items) =>
      QuoteIsNoToken();
      WalkOne(ExtensionBeforeValue, '"');
      WalkItems(items);
      WalkConcat(ExtensionBeforeValue, ['"'], EncodeItems(items));
      WalkOne(ExtensionQuotedValue, '"');
      WalkConcat(ExtensionBeforeValue, ['"'] + EncodeItems(items), ['"']);
  }

  lemma QuoteIsNoToken()
    ensures AfterExtension(ExtensionBeforeValue, '"') == ExtensionQuotedValue
    ensures AfterExtension(ExtensionQuotedValue, '"') == ExtensionAfterValue
  {
  }

  lemma WalkExtension(stage: Stage, e: Extension)
    requires e.Valid() && (stage.ExtensionBeforeSemicolon? || EndsExtension(stage))
    ensures EndsExtension(Walk(stage, e.Encoded()))
  {
    hide Walk, IsBws, IsToken, AfterExtension, ExtensionValue.Valid, ExtensionValue.Encoded;
    var a := e.before + [';'];
    WalkToSemicolon(stage, e.before);
    WalkBws(ExtensionBeforeName, e.behind);
    WalkConcat(stage, a, e.behind);
    WalkToken(ExtensionBeforeName, e.name);
    WalkConcat(stage, a + e.behind, e.name);
    var named := a + e.behind + e.name;
    if e.value.Some? {
      var (w, x, v) := e.value.value;
      WalkToEquals(w);
      WalkBws(ExtensionBeforeValue, x);
      WalkConcat(ExtensionName, w + ['='], x);
      WalkValue(v);
      WalkConcat(ExtensionName, w + ['='] + x, v.Encoded());
      WalkConcat(stage, named, w + ['='] + x + v.Encoded());
    } else {
      assert named + [] == named;
    }
  }

  lemma {:induction false} WalkExtensions(stage: Stage, extensions: seq<Extension>)
    requires forall i | 0 <= i < |extensions| :: extensions[i].Valid()
    requires stage.ExtensionBeforeSemicolon? || EndsExtension(stage)
    ensures var after := Walk(stage, EncodeExtensions(extensions));
            if extensions == [] then after == stage else EndsExtension(after)
    decreases |extensions|
  {
    hide Walk, Extension.Valid, Extension.Encoded;
    if extensions == [] {
      WalkNothing(stage);
    } else {
      WalkExtension(stage, extensions[0]);
      WalkExtensions(Walk(stage, extensions[0].Encoded()), extensions[1..]);
      WalkConcat(stage, extensions[0].Encoded(), EncodeExtensions(extensions[1..]));
    }
  }

  lemma WalkNothing(stage: Stage)
    ensures Walk(stage, []) == stage
  {
  }

  lemma WalkField(field: TrailerField)
    requires field.Valid()
    ensures Walk(TrailerLineStart, field.Encoded()) == TrailerLineStart
  {
    hide Walk, IsToken, IsFieldChar;
    WalkToken(TrailerLineStart, field.name);
    ColonIsNoToken();
    WalkOne(TrailerName, ':');
    WalkConcat(TrailerLineStart, field.name, [':']);
    assert forall i | 0 <= i < |field.value| :: IsFieldChar(field.value[i]);
    FieldCharsStay(field.value);
    WalkConcat(TrailerLineStart, field.name + [':'], field.value);
    WalkOne(TrailerValue, '\r');
    WalkOne(TrailerLineLf, '\n');
    WalkConcat(TrailerValue, ['\r'], ['\n']);
    assert ['\r'] + ['\n'] == CRLF;
    WalkConcat(TrailerLineStart, field.name + [':'] + field.value, CRLF);
  }

  lemma ColonIsNoToken()
    ensures AfterTrailer(TrailerName, ':') == TrailerValue
  {
  }

  lemma FieldCharsStay(s: Bytes)
    requires IsFieldValue(s)
    ensures Walk(TrailerValue, s) == TrailerValue
  {
    WalkInPlace(TrailerValue, s);
  }

  lemma {:induction false} WalkTrailer(fields: seq<TrailerField>)
    requires forall i | 0 <= i < |fields| :: fields[i].Valid()
    ensures Walk(TrailerLineStart, EncodeTrailer(fields)) == Complete
    decreases |fields|
  {
    hide Walk, TrailerField.Valid, TrailerField.Encoded;
    if fields == [] {
      WalkOne(TrailerLineStart, '\r');
      WalkOne(TrailerEndLf, '\n');
      WalkConcat(TrailerLineStart, ['\r'], ['\n']);
      assert ['\r'] + ['\n'] == CRLF;
    } else {
      WalkField(fields[0]);
      WalkTrailer(fields[1..]);
      WalkConcat(TrailerLineStart, fields[0].Encoded(), EncodeTrailer(fields[1..]));
    }
  }

  // ---- the framer

  lemma {:induction false} FeedExtension(f: Framer, s: Bytes)
    requires f.Chunked? && f.stage.IsExtension() && !Walk(f.stage, s).Failed?
    requires f.extensionSize + |s| <= MAX_CHUNKED_EXTENSION_SIZE
    ensures Feed(f, s) == (f.(stage := Walk(f.stage, s), extensionSize := f.extensionSize + |s|), |s|)
    decreases |s|
  {
    hide Feed, Step, AfterExtension;
    if s == [] {
      FeedNothing(f);
    } else {
      StepInside(f, s[0]);
      FeedUnfolds(f, s);
      if s[1..] != [] {
        FeedExtension(Step(f, s[0]), s[1..]);
      } else {
        FeedNothing(Step(f, s[0]));
      }
    }
  }

  lemma StepInside(f: Framer, c: Octet)
    requires f.Chunked?
    ensures f.stage.IsExtension() && f.extensionSize < MAX_CHUNKED_EXTENSION_SIZE ==>
              Step(f, c) == f.(stage := AfterExtension(f.stage, c), extensionSize := f.extensionSize + 1)
    ensures f.stage.IsTrailer() && f.trailerSize < MAX_CHUNKED_TRAILER_SIZE ==>
              Step(f, c) == f.(stage := AfterTrailer(f.stage, c), trailerSize := f.trailerSize + 1)
  {
    hide AfterExtension, AfterTrailer;
  }

  lemma {:induction false} FeedTrailer(f: Framer, s: Bytes)
    requires f.Chunked? && f.stage.IsTrailer() && !Walk(f.stage, s).Failed?
    requires f.trailerSize + |s| <= MAX_CHUNKED_TRAILER_SIZE
    ensures Feed(f, s) == (f.(stage := Walk(f.stage, s), trailerSize := f.trailerSize + |s|), |s|)
    decreases |s|
  {
    hide Feed, Step, AfterTrailer;
    if s == [] {
      FeedNothing(f);
    } else {
      StepInside(f, s[0]);
      FeedUnfolds(f, s);
      if s[1..] != [] {
        FeedTrailer(Step(f, s[0]), s[1..]);
      } else {
        FeedNothing(Step(f, s[0]));
      }
    }
  }

  function AtSize(n: nat): Framer { Chunked(ChunkSize, n, true, 0, 0) }

  lemma FeedOne(f: Framer, c: Octet)
    requires f.Valid() && !f.Stopped() && !Step(f, c).Broken()
    ensures Feed(f, [c]) == (Step(f, c), 1)
  {
    hide Step;
    assert [c][1..] == [];
  }

  lemma SizeStep(f: Framer, c: Octet)
    requires f.Chunked? && (f == StartOfChunks || f == AtSize(f.remaining)) && f.remaining <= MAX_SHIFTABLE_SIZE
    requires IsHexDigit(c)
    ensures Step(f, c) == AtSize(f.remaining * 16 + DigitOf(c))
  {
    hide DigitOf, First;
    DigitIsPlace(c);
  }

  lemma NoDigits()
    ensures HexValue([]) == 0
  {
  }

  lemma {:induction false} FeedSize(size: Bytes)
    requires size != [] && IsHex(size) && HexValue(size) <= MAX_SHIFTABLE_SIZE * 16 + 15
    ensures Feed(StartOfChunks, size) == (AtSize(HexValue(size)), |size|)
  {
    hide Step, Feed, DigitOf, IsHexDigit;
    NoDigits();
    var front, last := size[..|size| - 1], size[|size| - 1];
    assert size == front + [last];
    if front == [] {
      SizeStep(StartOfChunks, last);
      FeedOne(StartOfChunks, last);
      assert size == [last];
    } else {
      FeedSize(front);
      SizeStep(AtSize(HexValue(front)), last);
      FeedConcat(StartOfChunks, front, [last]);
      FeedOne(AtSize(HexValue(front)), last);
    }
  }

  /** The framer in front of the data, or in front of the trailer section. */
  function BehindLine(n: nat): Framer { Chunked(if n == 0 then TrailerLineStart else Data, n, true, 0, 0) }

  /** What the first byte behind the size does: the end of the line, or the start of an extension. */
  lemma BehindSize(n: nat, c: Octet)
    ensures c == '\r' ==> Step(AtSize(n), c) == AtSize(n).(stage := SizeLf)
    ensures IsOws(c) || c == ';' ==> Step(AtSize(n), c) == AtSize(n).(stage := AfterExtension(ExtensionBeforeSemicolon, c))
    ensures forall size :: Step(Chunked(SizeLf, n, true, size, 0), '\n') == BehindLine(n)
  {
  }

  /** An extension starts with white space or a semicolon. */
  lemma ExtensionStarts(extensions: seq<Extension>)
    requires extensions != [] && extensions[0].Valid()
    ensures var s := EncodeExtensions(extensions); s != [] && (IsOws(s[0]) || s[0] == ';')
  {
    var e := extensions[0];
    assert e.Encoded()[0] == (e.before + [';'])[0];
  }

  lemma WalkRest(s: Bytes)
    requires s != [] && !Walk(ExtensionBeforeSemicolon, s).Failed?
    ensures Walk(ExtensionBeforeSemicolon, s) == Walk(AfterExtension(ExtensionBeforeSemicolon, s[0]), s[1..])
    ensures AfterExtension(ExtensionBeforeSemicolon, s[0]).IsExtension()
  {
  }

  /** White space behind an extension changes nothing. */
  lemma WalkPadding(extensions: seq<Extension>, padding: Bytes)
    requires extensions != [] && IsBws(padding) && forall i | 0 <= i < |extensions| :: extensions[i].Valid()
    ensures EndsExtension(Walk(ExtensionBeforeSemicolon, EncodeExtensions(extensions) + padding))
         || Walk(ExtensionBeforeSemicolon, EncodeExtensions(extensions) + padding).ExtensionAfterName?
  {
    hide Walk, Extension.Valid, Extension.Encoded, AfterExtension, EncodeExtensions;
    var s := EncodeExtensions(extensions);
    WalkExtensions(ExtensionBeforeSemicolon, extensions);
    var stage := Walk(ExtensionBeforeSemicolon, s);
    WalkConcat(ExtensionBeforeSemicolon, s, padding);
    if padding == [] {
      WalkNothing(stage);
    } else if stage.ExtensionAfterValue? {
      WalkBws(stage, padding);
    } else {
      WalkAway(stage, padding);
    }
  }

  lemma FeedLineEnd(n: nat, extensions: seq<Extension>, padding: Bytes)
    requires forall i | 0 <= i < |extensions| :: extensions[i].Valid()
    requires IsBws(padding) && (extensions == [] ==> padding == [])
    requires |EncodeExtensions(extensions) + padding| <= MAX_CHUNKED_EXTENSION_SIZE
    ensures Feed(AtSize(n), EncodeExtensions(extensions) + padding + CRLF)
         == (BehindLine(n), |EncodeExtensions(extensions) + padding| + 2)
  {
    hide Feed, Step, Walk, Extension.Valid, Extension.Encoded, AfterExtension;
    var s := EncodeExtensions(extensions) + padding;
    if extensions == [] {
      BehindSize(n, '\r');
      FeedOne(AtSize(n), '\r');
      FeedOne(AtSize(n).(stage := SizeLf), '\n');
      FeedConcat(AtSize(n), ['\r'], ['\n']);
      assert s + CRLF == ['\r'] + ['\n'];
    } else {
      ExtensionStarts(extensions);
      WalkPadding(extensions, padding);
      WalkRest(s);
      var first, rest := s[0], s[1..] + ['\r'];
      BehindSize(n, first);
      var f := AtSize(n).(stage := AfterExtension(ExtensionBeforeSemicolon, first));
      FeedOne(AtSize(n), first);
      WalkConcat(f.stage, s[1..], ['\r']);
      CrEndsLine(Walk(f.stage, s[1..]));
      FeedExtension(f, rest);
      var g := f.(stage := SizeLf, extensionSize := |rest|);
      FeedOne(g, '\n');
      FeedConcat(f, rest, ['\n']);
      FeedConcat(AtSize(n), [first], rest + ['\n']);
      assert [first] + (rest + ['\n']) == s + CRLF;
    }
  }

  lemma CrEndsLine(stage: Stage)
    requires EndsExtension(stage) || stage.ExtensionAfterName?
    ensures Walk(stage, ['\r']) == SizeLf
  {
    WalkOne(stage, '\r');
  }

  lemma FeedLine(line: SizeLine)
    requires line.Valid()
    ensures Feed(StartOfChunks, line.Encoded()) == (BehindLine(HexValue(line.size)), |line.Encoded()|)
  {
    hide Feed, Step, HexValue, IsHex, Extension.Valid, EncodeExtensions;
    FeedSize(line.size);
    FeedLineEnd(HexValue(line.size), line.extensions, line.padding);
    var tail := EncodeExtensions(line.extensions) + line.padding;
    FeedConcat(StartOfChunks, line.size, tail + CRLF);
    assert line.size + (tail + CRLF) == line.Encoded();
  }

  lemma DataEnd()
    ensures Feed(Chunked(DataCr, 0, true, 0, 0), CRLF) == (StartOfChunks, 2)
  {
    hide Feed;
    var f := Chunked(DataCr, 0, true, 0, 0);
    FeedOne(f, '\r');
    FeedOne(Step(f, '\r'), '\n');
    FeedConcat(f, ['\r'], ['\n']);
    assert ['\r'] + ['\n'] == CRLF;
  }

  lemma FeedChunk(chunk: Chunk)
    requires chunk.Valid()
    ensures Feed(StartOfChunks, chunk.Encoded()) == (StartOfChunks, |chunk.Encoded()|)
  {
    hide Feed, Step, HexValue, SizeLine.Valid, SizeLine.Encoded;
    var n := |chunk.data|;
    FeedLine(chunk.line);
    var inData := BehindLine(n);
    DataTakesTheRest(inData, chunk.data, n);
    FeedNothing(Chunked(DataCr, 0, true, 0, 0));
    assert chunk.data[n..] == [];
    FeedConcat(StartOfChunks, chunk.line.Encoded(), chunk.data);
    DataEnd();
    FeedConcat(StartOfChunks, chunk.line.Encoded() + chunk.data, CRLF);
  }

  lemma {:induction false} FeedChunks(chunks: seq<Chunk>)
    requires forall i | 0 <= i < |chunks| :: chunks[i].Valid()
    ensures Feed(StartOfChunks, EncodeChunks(chunks)) == (StartOfChunks, |EncodeChunks(chunks)|)
    decreases |chunks|
  {
    hide Feed, Step, Chunk.Valid, Chunk.Encoded;
    if chunks == [] {
      FeedNothing(StartOfChunks);
    } else {
      FeedChunk(chunks[0]);
      FeedChunks(chunks[1..]);
      FeedConcat(StartOfChunks, chunks[0].Encoded(), EncodeChunks(chunks[1..]));
    }
  }

  /**
   Whatever follows it, however its sizes are spelled, and with any extensions and trailer fields up to the limits:
   a chunked body is complete exactly behind its own last byte.
   */
  lemma ChunkedBodyEndsInPlace(m: Message, rest: Bytes)
    requires m.Valid()
    ensures var r := Feed(StartOfChunks, m.Encoded() + rest); r.0.Done() && r.1 == |m.Encoded()|
  {
    hide Feed, Step, HexValue, SizeLine.Valid, SizeLine.Encoded, EncodeChunks, EncodeTrailer, Walk, Chunk.Valid,
         TrailerField.Valid;
    FeedChunks(m.chunks);
    FeedLine(m.last);
    WalkTrailer(m.trailer);
    FeedTrailer(BehindLine(0), EncodeTrailer(m.trailer));
    FeedConcat(StartOfChunks, EncodeChunks(m.chunks), m.last.Encoded());
    FeedConcat(StartOfChunks, EncodeChunks(m.chunks) + m.last.Encoded(), EncodeTrailer(m.trailer));
    FeedConcat(StartOfChunks, m.Encoded(), rest);
  }
}
