/**
 Nothing else completes: whatever the framer of chunked bodies takes to its end is the encoding of a message.  The
 text is read back from the front, stage by stage.
 */
module ChunkedGrammar {
  import opened Octets
  import opened HttpText
  import opened Framers
  import opened ChunkedBodies

  /** The encoding of a message within the limits. */
  ghost predicate IsChunkedBody(s: Bytes) { exists m: Message :: m.Valid() && m.Encoded() == s }

  // ---- extensions and trailers, on the stages

  /** A stage in which a whole line, or the whole trailer section, has been taken. */
  predicate IsEnd(stage: Stage) { stage.SizeLf? || stage.Complete? }

  function After(stage: Stage, c: char): Stage
    requires stage.IsExtension() || stage.IsTrailer()
  {
    if stage.IsExtension() then AfterExtension(stage, c) else AfterTrailer(stage, c)
  }

  /** The bytes that leave the stage as it is, and the byte behind them. */
  lemma {:induction false} TakeInPlace(stage: Stage, s: Bytes) returns (t: Bytes, rest: Bytes)
    requires stage.IsExtension() || stage.IsTrailer()
    requires IsEnd(Walk(stage, s))
    ensures s == t + rest && forall i | 0 <= i < |t| :: After(stage, t[i]) == stage
    ensures rest != [] && After(stage, rest[0]) != stage && Walk(After(stage, rest[0]), rest[1..]) == Walk(stage, s)
    decreases |s|
  {
    hide AfterExtension, AfterTrailer;
    if After(stage, s[0]) == stage {
      t, rest := TakeInPlace(stage, s[1..]);
      t := [s[0]] + t;
    } else {
      t, rest := [], s;
    }
  }

  lemma WhiteSpaceStays(stage: Stage, c: char)
    requires stage.ExtensionBeforeSemicolon? || stage.ExtensionBeforeName? || stage.ExtensionAfterName?
             || stage.ExtensionBeforeValue? || stage.ExtensionAfterValue?
    ensures After(stage, c) == stage <==> IsOws(c)
  {
  }

  lemma NameStays(stage: Stage, c: char)
    requires stage.ExtensionName? || stage.ExtensionTokenValue? || stage.TrailerName?
    ensures After(stage, c) == stage <==> IsTchar(c)
  {
  }

  lemma EndOfWalk(stage: Stage, s: Bytes)
    requires IsEnd(stage) && IsEnd(Walk(stage, s))
    ensures s == []
  {
  }

  lemma TakeBws(stage: Stage, s: Bytes) returns (ws: Bytes, rest: Bytes)
    requires stage.ExtensionBeforeSemicolon? || stage.ExtensionBeforeName? || stage.ExtensionAfterName?
             || stage.ExtensionBeforeValue? || stage.ExtensionAfterValue?
    requires Walk(stage, s).SizeLf?
    ensures s == ws + rest && IsBws(ws) && rest != [] && !IsOws(rest[0])
    ensures Walk(After(stage, rest[0]), rest[1..]).SizeLf?
  {
    hide AfterExtension, Walk;
    ws, rest := TakeInPlace(stage, s);
    forall i | 0 <= i < |ws| ensures IsOws(ws[i]) {
      WhiteSpaceStays(stage, ws[i]);
    }
    WhiteSpaceStays(stage, rest[0]);
  }

  lemma TakeToken(stage: Stage, s: Bytes) returns (token: Bytes, rest: Bytes)
    requires stage.ExtensionBeforeName? || stage.ExtensionBeforeValue? || stage.TrailerLineStart?
    requires IsEnd(Walk(stage, s)) && s != [] && IsTchar(s[0])
    ensures s == token + rest && IsToken(token) && rest != [] && !IsTchar(rest[0])
    ensures var next := if stage.ExtensionBeforeName? then ExtensionName
                        else if stage.ExtensionBeforeValue? then ExtensionTokenValue else TrailerName;
            Walk(After(next, rest[0]), rest[1..]) == Walk(stage, s)
  {
    var next := if stage.ExtensionBeforeName? then ExtensionName
                else if stage.ExtensionBeforeValue? then ExtensionTokenValue else TrailerName;
    TokenStarts(stage, s, next);
    hide Walk, AfterExtension, AfterTrailer, IsTchar;
    var t;
    t, rest := TakeInPlace(next, s[1..]);
    token := [s[0]] + t;
    forall i | 0 <= i < |t| ensures IsTchar(t[i]) {
      NameStays(next, t[i]);
    }
    NameStays(next, rest[0]);
  }

  lemma TokenStarts(stage: Stage, s: Bytes, next: Stage)
    requires stage.ExtensionBeforeName? || stage.ExtensionBeforeValue? || stage.TrailerLineStart?
    requires s != [] && IsTchar(s[0])
    requires next == if stage.ExtensionBeforeName? then ExtensionName
                     else if stage.ExtensionBeforeValue? then ExtensionTokenValue else TrailerName
    ensures Walk(stage, s) == Walk(next, s[1..])
  {
  }

  /** The inside of a quoted string, up to the quote that closes it. */
  lemma {:induction false} TakeItems(s: Bytes) returns (items: seq<QuotedItem>, rest: Bytes)
    requires Walk(ExtensionQuotedValue, s).SizeLf?
    ensures s == EncodeItems(items) + ['"'] + rest && (forall i | 0 <= i < |items| :: items[i].Valid())
    ensures Walk(ExtensionAfterValue, rest).SizeLf?
    decreases |s|
  {
    hide Walk, IsQdtext, IsFieldChar;
    ItemFollows(s);
    if s[0] == '"' {
      items, rest := [], s[1..];
      assert s == ['"'] + rest;
    } else {
      var n := if IsQdtext(s[0]) then 1 else 2;
      var item := if n == 1 then Plain(s[0]) else Escaped(s[1]);
      var more;
      more, rest := TakeItems(s[n..]);
      items := [item] + more;
      ItemInFront(item, more, s, n);
      assert s[n..] == EncodeItems(more) + ['"'] + rest;
      assert s == item.Encoded() + s[n..];
    }
  }

  /** What can stand in a quoted string. */
  lemma ItemFollows(s: Bytes)
    requires Walk(ExtensionQuotedValue, s).SizeLf?
    ensures s != []
    ensures s[0] == '"' ==> Walk(ExtensionAfterValue, s[1..]).SizeLf?
    ensures s[0] != '"' && IsQdtext(s[0]) ==> Walk(ExtensionQuotedValue, s[1..]).SizeLf?
    ensures s[0] != '"' && !IsQdtext(s[0]) ==>
              s[0] == '\\' && |s| >= 2 && IsFieldChar(s[1]) && Walk(ExtensionQuotedValue, s[2..]).SizeLf?
  {
    hide IsFieldChar;
    if s[0] == '\\' {
      var t := s[1..];
      assert Walk(ExtensionQuotedPair, t).SizeLf?;
      assert t != [] && t[1..] == s[2..];
      assert Walk(AfterExtension(ExtensionQuotedPair, t[0]), t[1..]).SizeLf?;
    }
  }

  lemma ItemInFront(item: QuotedItem, more: seq<QuotedItem>, s: Bytes, n: nat)
    requires item.Valid() && n <= |s| && (forall i | 0 <= i < |more| :: more[i].Valid())
    requires if item.Plain? then n == 1 && s[0] == item.c else n == 2 && s[0] == '\\' && s[1] == item.c
    ensures EncodeItems([item] + more) == item.Encoded() + EncodeItems(more)
    ensures s[..n] == item.Encoded()
    ensures forall i | 0 <= i < |[item] + more| :: ([item] + more)[i].Valid()
  {
    assert ([item] + more)[1..] == more;
  }

  /** A value, behind the white space in front of it, and the first byte that is not white space behind it. */
  lemma TakeValue(s: Bytes) returns (value: ExtensionValue, ws: Bytes, rest: Bytes)
    requires Walk(ExtensionBeforeValue, s).SizeLf? && s != [] && !IsOws(s[0])
    ensures s == value.Encoded() + ws + rest && value.Valid() && IsBws(ws)
    ensures rest != [] && !IsOws(rest[0]) && Walk(AfterExtensionValue(rest[0]), rest[1..]).SizeLf?
  {
    hide Walk, IsTchar, IsBws, IsToken, AfterExtensionValue;
    if IsTchar(s[0]) {
      var token, more := TakeToken(ExtensionBeforeValue, s);
      value := Token(token);
      ws, rest := BehindToken(ExtensionTokenValue, more);
    } else {
      QuoteFollows(s);
      value, ws, rest := TakeQuoted(s[1..]);
      assert s == ['"'] + s[1..];
    }
  }

  lemma TakeQuoted(s: Bytes) returns (value: ExtensionValue, ws: Bytes, rest: Bytes)
    requires Walk(ExtensionQuotedValue, s).SizeLf?
    ensures ['"'] + s == value.Encoded() + ws + rest && value.Valid() && IsBws(ws)
    ensures rest != [] && !IsOws(rest[0]) && Walk(AfterExtensionValue(rest[0]), rest[1..]).SizeLf?
  {
    hide Walk, IsBws, QuotedItem.Valid, EncodeItems;
    var items, more := TakeItems(s);
    value := Quoted(items);
    ws, rest := TakeBws(ExtensionAfterValue, more);
  }

  lemma QuoteFollows(s: Bytes)
    requires Walk(ExtensionBeforeValue, s).SizeLf? && s != [] && !IsOws(s[0]) && !IsTchar(s[0])
    ensures s[0] == '"' && Walk(ExtensionQuotedValue, s[1..]).SizeLf?
  {
    hide IsTchar;
  }

  /** White space behind a name or a token, if there is any. */
  lemma BehindToken(stage: Stage, s: Bytes) returns (ws: Bytes, rest: Bytes)
    requires stage.ExtensionName? || stage.ExtensionTokenValue?
    requires s != [] && !IsTchar(s[0]) && Walk(After(stage, s[0]), s[1..]).SizeLf?
    ensures s == ws + rest && IsBws(ws) && rest != [] && !IsOws(rest[0])
    ensures var next := if stage.ExtensionName? then AfterExtensionName(rest[0]) else AfterExtensionValue(rest[0]);
            Walk(next, rest[1..]).SizeLf?
  {
    hide IsTchar, Walk;
    if IsOws(s[0]) {
      ws, rest := TakeBws(if stage.ExtensionName? then ExtensionAfterName else ExtensionAfterValue, s[1..]);
      ws := [s[0]] + ws;
    } else {
      ws, rest := [], s;
    }
  }

  /** What stands behind a semicolon: an extension, and the white space behind it. */
  lemma TakeExtension(before: Bytes, s: Bytes) returns (e: Extension, ws: Bytes, rest: Bytes)
    requires IsBws(before) && Walk(ExtensionBeforeName, s).SizeLf?
    ensures before + [';'] + s == e.Encoded() + ws + rest && e.Valid() && IsBws(ws)
    ensures 0 < |rest| < |s| && Walk(AfterExtensionValue(rest[0]), rest[1..]).SizeLf?
  {
    hide IsTchar, Walk, IsBws, IsToken, ExtensionValue.Valid, ExtensionValue.Encoded;
    var behind, s1 := TakeBws(ExtensionBeforeName, s);
    NameFollows(s1);
    var name, s2 := TakeToken(ExtensionBeforeName, s1);
    var w, s3 := BehindToken(ExtensionName, s2);
    if s3[0] == '=' {
      var x, s4 := TakeBws(ExtensionBeforeValue, s3[1..]);
      ValueFollows(s4);
      var value;
      value, ws, rest := TakeValue(s4);
      e := Extension(before, behind, name, Some((w, x, value)));
      var told := w + ['='] + x + value.Encoded();
      assert s2 == told + ws + rest;
      assert s == behind + name + told + ws + rest;
      assert e.Encoded() == before + [';'] + behind + name + told;
    } else {
      e, ws, rest := Extension(before, behind, name, None), w, s3;
      assert e.Encoded() == before + [';'] + behind + name;
    }
  }

  lemma NameFollows(s: Bytes)
    requires s != [] && !IsOws(s[0]) && Walk(After(ExtensionBeforeName, s[0]), s[1..]).SizeLf?
    ensures IsTchar(s[0]) && Walk(ExtensionBeforeName, s).SizeLf?
  {
  }

  lemma ValueFollows(s: Bytes)
    requires s != [] && Walk(After(ExtensionBeforeValue, s[0]), s[1..]).SizeLf?
    ensures Walk(ExtensionBeforeValue, s).SizeLf?
  {
  }

  lemma {:induction false} TakeExtensions(before: Bytes, s: Bytes) returns (extensions: seq<Extension>, padding: Bytes)
    requires IsBws(before) && s != [] && s[0] == ';' && Walk(ExtensionBeforeName, s[1..]).SizeLf?
    ensures before + s == EncodeExtensions(extensions) + padding + ['\r'] && IsBws(padding) && extensions != []
    ensures forall i | 0 <= i < |extensions| :: extensions[i].Valid()
    decreases |s|
  {
    hide IsBws, Walk, Extension.Valid, Extension.Encoded;
    var e, ws, rest := TakeExtension(before, s[1..]);
    assert before + s == before + [';'] + s[1..];
    NextOrEnd(rest);
    extensions := [e];
    if rest[0] == ';' {
      var more;
      more, padding := TakeExtensions(ws, rest);
      extensions := [e] + more;
      assert extensions[1..] == more;
      assert e.Encoded() + ws + rest == e.Encoded() + (ws + rest);
    } else {
      padding := ws;
      assert [e][1..] == [] && EncodeExtensions([e]) == e.Encoded() + EncodeExtensions([]);
      assert rest == ['\r'];
    }
  }

  lemma NextOrEnd(rest: Bytes)
    requires rest != [] && Walk(AfterExtensionValue(rest[0]), rest[1..]).SizeLf?
    ensures if rest[0] == ';' then Walk(ExtensionBeforeName, rest[1..]).SizeLf? else rest == ['\r']
  {
  }

  /** A field line of the trailer section. */
  lemma TakeField(s: Bytes) returns (field: TrailerField, rest: Bytes)
    requires Walk(TrailerLineStart, s).Complete? && s != [] && IsTchar(s[0])
    ensures s == field.Encoded() + rest && field.Valid()
    ensures |rest| < |s| && Walk(TrailerLineStart, rest).Complete?
  {
    hide Walk, IsTchar, IsFieldChar, IsToken;
    var name, s1 := TakeToken(TrailerLineStart, s);
    ColonFollows(s1);
    var value, s2 := TakeInPlace(TrailerValue, s1[1..]);
    forall i | 0 <= i < |value| ensures IsFieldChar(value[i]) {
      ValueStays(value[i]);
    }
    LineEnds(s2);
    field, rest := TrailerField(name, value), s2[2..];
    assert s2 == CRLF + rest;
    assert s1 == [':'] + s1[1..];
  }

  lemma ColonFollows(s: Bytes)
    requires s != [] && !IsTchar(s[0]) && Walk(After(TrailerName, s[0]), s[1..]).Complete?
    ensures s[0] == ':' && Walk(TrailerValue, s[1..]).Complete?
  {
    hide IsTchar;
  }

  lemma ValueStays(c: char)
    ensures After(TrailerValue, c) == TrailerValue <==> IsFieldChar(c)
  {
  }

  lemma LineEnds(s: Bytes)
    requires s != [] && After(TrailerValue, s[0]) != TrailerValue && Walk(After(TrailerValue, s[0]), s[1..]).Complete?
    ensures |s| >= 2 && s[..2] == CRLF && Walk(TrailerLineStart, s[2..]).Complete?
  {
    var t := s[1..];
    assert Walk(TrailerLineLf, t).Complete?;
    assert t != [] && t[1..] == s[2..];
    assert Walk(AfterTrailer(TrailerLineLf, t[0]), t[1..]).Complete?;
  }

  lemma {:induction false} TakeTrailer(s: Bytes) returns (fields: seq<TrailerField>)
    requires Walk(TrailerLineStart, s).Complete?
    ensures s == EncodeTrailer(fields) && forall i | 0 <= i < |fields| :: fields[i].Valid()
    decreases |s|
  {
    hide Walk, IsTchar, TrailerField.Valid, TrailerField.Encoded;
    FieldOrEnd(s);
    if IsTchar(s[0]) {
      var field, rest := TakeField(s);
      var more := TakeTrailer(rest);
      fields := [field] + more;
      assert fields[1..] == more;
    } else {
      fields := [];
    }
  }

  lemma FieldOrEnd(s: Bytes)
    requires Walk(TrailerLineStart, s).Complete?
    ensures s != [] && (IsTchar(s[0]) || s == CRLF)
  {
    if !IsTchar(s[0]) {
      var t := s[1..];
      assert Walk(TrailerEndLf, t).Complete?;
      assert t != [] && Walk(AfterTrailer(TrailerEndLf, t[0]), t[1..]).Complete?;
      EndOfWalk(Complete, t[1..]);
      assert s == [s[0]] + t && t == [t[0]];
    }
  }

  // ---- the framer

  /** The framer takes all of this, and is then done. */
  predicate Completes(f: Framer, s: Bytes)
    requires f.Valid()
  {
    var r := Feed(f, s);
    r.0.Done() && r.1 == |s|
  }

  lemma CompletesStep(f: Framer, s: Bytes)
    requires f.Valid() && f.Chunked? && Completes(f, s) && !f.Done()
    ensures !f.Stopped() && s != [] && !Step(f, s[0]).Broken() && Completes(Step(f, s[0]), s[1..])
  {
    hide Step, Feed;
    FeedNothing(f);
    if f.Broken() {
      StoppedTakesNothing(f, s);
    } else {
      FeedUnfolds(f, s);
    }
  }

  /** From an extension on, the framer walks to the end of the line. */
  lemma {:induction false} LineIsWalked(f: Framer, s: Bytes) returns (k: nat)
    requires f.Chunked? && f.stage.IsExtension() && Completes(f, s)
    ensures 0 < k <= |s| && Walk(f.stage, s[..k]).SizeLf? && f.extensionSize + k <= MAX_CHUNKED_EXTENSION_SIZE
    ensures Completes(f.(stage := SizeLf, extensionSize := f.extensionSize + k), s[k..])
    decreases |s|
  {
    hide Feed, AfterExtension, Completes;
    CompletesStep(f, s);
    var g := Step(f, s[0]);
    if g.stage.SizeLf? {
      k := 1;
      assert s[..1] == [s[0]];
      WalkOne(f.stage, s[0]);
    } else {
      k := LineIsWalked(g, s[1..]);
      assert s[..k + 1][1..] == s[1..][..k] && s[1..][k..] == s[k + 1..];
      k := k + 1;
    }
  }

  lemma {:induction false} TrailerIsWalked(f: Framer, s: Bytes)
    requires f.Chunked? && f.stage.IsTrailer() && Completes(f, s)
    ensures Walk(f.stage, s).Complete? && f.trailerSize + |s| <= MAX_CHUNKED_TRAILER_SIZE
    decreases |s|
  {
    hide Feed, AfterTrailer, Completes;
    CompletesStep(f, s);
    var g := Step(f, s[0]);
    if g.stage.Complete? {
      NothingBehind(g, s[1..]);
      assert s == [s[0]];
      WalkOne(f.stage, s[0]);
    } else {
      TrailerIsWalked(g, s[1..]);
    }
  }

  lemma NothingBehind(f: Framer, s: Bytes)
    requires f.Valid() && f.Done() && Completes(f, s)
    ensures s == []
  {
  }

  /** Further digits of the size. */
  lemma {:induction false} TakeSize(front: Bytes, s: Bytes) returns (size: Bytes, rest: Bytes)
    requires front != [] && IsHex(front) && HexValue(front) <= MAX_SHIFTABLE_SIZE * 16 + 15
    requires Completes(AtSize(HexValue(front)), s)
    ensures front + s == size + rest && size != [] && IsHex(size) && HexValue(size) <= MAX_SHIFTABLE_SIZE * 16 + 15
    ensures rest != [] && !IsHexDigit(rest[0]) && Completes(AtSize(HexValue(size)), rest)
    decreases |s|
  {
    hide Feed, Step, Completes, DigitOf, IsHexDigit;
    var f := AtSize(HexValue(front));
    CompletesStep(f, s);
    if IsHexDigit(s[0]) {
      var more := front + [s[0]];
      assert more[..|more| - 1] == front;
      DigitTaken(f, s[0]);
      size, rest := TakeSize(more, s[1..]);
      assert front + s == more + s[1..];
    } else {
      size, rest := front, s;
    }
  }

  /** Extensions, if there are any, and the end of the line. */
  lemma TakeLineEnd(n: nat, s: Bytes) returns (extensions: seq<Extension>, padding: Bytes, rest: Bytes)
    requires s != [] && !IsHexDigit(s[0]) && Completes(AtSize(n), s)
    ensures s == EncodeExtensions(extensions) + padding + CRLF + rest && IsBws(padding)
    ensures (forall i | 0 <= i < |extensions| :: extensions[i].Valid()) && (extensions == [] ==> padding == [])
    ensures |EncodeExtensions(extensions) + padding| <= MAX_CHUNKED_EXTENSION_SIZE
    ensures Completes(BehindLine(n), rest)
  {
    hide Feed, Step, Completes, Walk, Extension.Valid, Extension.Encoded, EncodeExtensions, AfterExtension, IsBws;
    CompletesStep(AtSize(n), s);
    LineStarts(n, s[0]);
    var f := Step(AtSize(n), s[0]);
    if s[0] == '\r' {
      CompletesStep(f, s[1..]);
      LineFeedEnds(n, 0, s[1]);
      extensions, padding, rest := [], [], s[2..];
      NoExtensions();
      assert s == CRLF + s[2..];
    } else {
      var k := LineIsWalked(f, s[1..]);
      CompletesStep(f.(stage := SizeLf, extensionSize := k), s[1..][k..]);
      LineFeedEnds(n, k, s[1..][k..][0]);
      rest := s[k + 2..];
      assert s[1..][..k] == s[1..k + 1] && s[1..][k..][0] == s[k + 1] && s[1..][k..][1..] == rest;
      extensions, padding := TakeLineText(s[0], s[1..k + 1]);
      assert s == [s[0]] + s[1..k + 1] + ['\n'] + rest;
    }
  }

  lemma LineStarts(n: nat, c: Octet)
    requires !IsHexDigit(c) && !Step(AtSize(n), c).Broken()
    ensures if c == '\r' then Step(AtSize(n), c) == AtSize(n).(stage := SizeLf)
            else && (IsOws(c) || c == ';') && AfterExtension(ExtensionBeforeSemicolon, c).IsExtension()
                 && Step(AtSize(n), c) == AtSize(n).(stage := AfterExtension(ExtensionBeforeSemicolon, c))
  {
  }

  lemma LineFeedEnds(n: nat, size: nat, c: Octet)
    requires !Step(Chunked(SizeLf, n, true, size, 0), c).Broken()
    ensures c == '\n' && Step(Chunked(SizeLf, n, true, size, 0), c) == BehindLine(n)
  {
  }

  lemma NoExtensions()
    ensures EncodeExtensions([]) == [] && IsBws([])
  {
  }

  /** A line that goes on with white space or a semicolon behind the size. */
  lemma TakeLineText(c: Octet, t: Bytes) returns (extensions: seq<Extension>, padding: Bytes)
    requires IsOws(c) || c == ';'
    requires Walk(AfterExtension(ExtensionBeforeSemicolon, c), t).SizeLf?
    ensures [c] + t == EncodeExtensions(extensions) + padding + ['\r'] && IsBws(padding) && extensions != []
    ensures forall i | 0 <= i < |extensions| :: extensions[i].Valid()
  {
    hide Walk, Extension.Valid, EncodeExtensions;
    if c == ';' {
      extensions, padding := TakeExtensions([], [c] + t);
    } else {
      var ws, rest := TakeBws(ExtensionBeforeSemicolon, t);
      SemicolonFollows(rest);
      extensions, padding := TakeExtensions([c] + ws, rest);
      assert [c] + t == [c] + ws + rest;
    }
  }

  lemma SemicolonFollows(s: Bytes)
    requires s != [] && !IsOws(s[0]) && Walk(After(ExtensionBeforeSemicolon, s[0]), s[1..]).SizeLf?
    ensures s[0] == ';' && Walk(ExtensionBeforeName, s[1..]).SizeLf?
  {
  }

  lemma TakeLine(s: Bytes) returns (line: SizeLine, rest: Bytes)
    requires Completes(StartOfChunks, s)
    ensures s == line.Encoded() + rest && line.Valid() && Completes(BehindLine(HexValue(line.size)), rest)
  {
    hide Feed, Completes, HexValue, EncodeExtensions;
    CompletesStep(StartOfChunks, s);
    FirstDigit(s[0]);
    var size, s1 := TakeSize([s[0]], s[1..]);
    var extensions, padding, s2 := TakeLineEnd(HexValue(size), s1);
    line, rest := SizeLine(size, extensions, padding), s2;
    assert s == size + s1;
  }

  lemma DigitTaken(f: Framer, c: Octet)
    requires f.Chunked? && f == AtSize(f.remaining) && IsHexDigit(c) && !Step(f, c).Broken()
    ensures f.remaining <= MAX_SHIFTABLE_SIZE && DigitOf(c) < 16 && Step(f, c) == AtSize(f.remaining * 16 + DigitOf(c))
  {
    hide DigitOf, First;
    DigitIsPlace(c);
  }

  lemma FirstDigit(c: Octet)
    requires !Step(StartOfChunks, c).Broken()
    ensures IsHexDigit(c) && IsHex([c]) && HexValue([c]) <= 15 && Step(StartOfChunks, c) == AtSize(HexValue([c]))
  {
    hide DigitOf, First;
    DigitIsDigit(c);
    DigitIsPlace(c);
    NoDigits();
    assert [c][..0] == [];
  }

  lemma DigitIsDigit(c: char)
    ensures HexDigit(c) >= 0 <==> IsHexDigit(c)
  {
  }

  /** The data and the end of their line. */
  lemma TakeData(n: nat, s: Bytes)
    requires n > 0 && Completes(BehindLine(n), s)
    ensures |s| >= n + 2 && s[n..n + 2] == CRLF && Completes(StartOfChunks, s[n + 2..])
  {
    hide Feed, Step;
    var f := BehindLine(n);
    FeedNothing(f);
    if |s| < n {
      if s != [] {
        assert s[|s|..] == [];
        FeedNothing(f.(remaining := n - |s|));
        DataTakesTheRest(f, s, |s|);
      }
    } else {
      DataTakesTheRest(f, s, n);
      var g := Chunked(DataCr, 0, true, 0, 0);
      CompletesStep(g, s[n..]);
      CrFirst(s[n]);
      CompletesStep(Step(g, s[n]), s[n..][1..]);
      DataEnds(s[n..]);
      assert s[n..][2..] == s[n + 2..];
    }
  }

  lemma CrFirst(c: Octet)
    ensures !Step(Chunked(DataCr, 0, true, 0, 0), c).Done()
  {
  }

  lemma DataEnds(s: Bytes)
    requires |s| >= 1 && !Step(Chunked(DataCr, 0, true, 0, 0), s[0]).Broken()
    requires s[1..] != [] && !Step(Step(Chunked(DataCr, 0, true, 0, 0), s[0]), s[1..][0]).Broken()
    ensures |s| >= 2 && s[..2] == CRLF && s[1..][1..] == s[2..]
    ensures Step(Step(Chunked(DataCr, 0, true, 0, 0), s[0]), s[1..][0]) == StartOfChunks
  {
  }

  lemma {:induction false} TakeMessage(s: Bytes) returns (m: Message)
    requires Completes(StartOfChunks, s)
    ensures m.Valid() && m.Encoded() == s
    decreases |s|
  {
    hide Feed, Completes, SizeLine.Valid, SizeLine.Encoded, HexValue, EncodeChunks, EncodeTrailer, TrailerField.Valid,
         Walk;
    var line, rest := TakeLine(s);
    var n := HexValue(line.size);
    if n == 0 {
      TrailerIsWalked(BehindLine(0), rest);
      var trailer := TakeTrailer(rest);
      m := Message([], line, trailer);
      NoChunks();
    } else {
      TakeData(n, rest);
      var more := TakeMessage(rest[n + 2..]);
      var chunk := Chunk(line, rest[..n]);
      m := more.(chunks := [chunk] + more.chunks);
      ChunkInFront(chunk, more, rest, n);
    }
  }

  lemma NoChunks()
    ensures EncodeChunks([]) == []
  {
  }

  lemma ChunkInFront(chunk: Chunk, more: Message, rest: Bytes, n: nat)
    requires |rest| >= n + 2 && chunk.data == rest[..n] && rest[n..n + 2] == CRLF && more.Encoded() == rest[n + 2..]
    ensures more.(chunks := [chunk] + more.chunks).Encoded() == chunk.line.Encoded() + rest
  {
    hide SizeLine.Encoded, EncodeTrailer;
    assert ([chunk] + more.chunks)[1..] == more.chunks;
    assert rest == rest[..n] + CRLF + rest[n + 2..];
  }

  /**
   The framer completes a body behind `k` bytes exactly when these are the encoding of a message within the limits.
   */
  lemma CompletesExactly(s: Bytes, k: nat)
    ensures Feed(StartOfChunks, s).0.Done() && Feed(StartOfChunks, s).1 == k <==> k <= |s| && IsChunkedBody(s[..k])
  {
    hide Feed, IsChunkedBody;
    if Feed(StartOfChunks, s).0.Done() {
      CompletedIsBody(s);
    }
    if k <= |s| && IsChunkedBody(s[..k]) {
      BodyCompletes(s, k);
    }
  }

  lemma CompletedIsBody(s: Bytes)
    requires Feed(StartOfChunks, s).0.Done()
    ensures IsChunkedBody(s[..Feed(StartOfChunks, s).1])
  {
    hide Feed, Message.Valid, Message.Encoded;
    TakenAlone(StartOfChunks, s);
    var m := TakeMessage(s[..Feed(StartOfChunks, s).1]);
  }

  lemma BodyCompletes(s: Bytes, k: nat)
    requires k <= |s| && IsChunkedBody(s[..k])
    ensures Feed(StartOfChunks, s).0.Done() && Feed(StartOfChunks, s).1 == k
  {
    hide Feed, Message.Valid, Message.Encoded;
    var m: Message :| m.Valid() && m.Encoded() == s[..k];
    ChunkedBodyEndsInPlace(m, s[k..]);
    assert m.Encoded() + s[k..] == s;
  }

  /** What the framer leaves alone need not be there. */
  lemma {:induction false} TakenAlone(f: Framer, s: Bytes)
    requires f.Valid() && Feed(f, s).0.Done()
    ensures Feed(f, s[..Feed(f, s).1]) == Feed(f, s)
    decreases |s|
  {
    hide Step;
    var k := Feed(f, s).1;
    if f.Done() {
      StoppedTakesNothing(f, s[..k]);
    } else {
      TakenAlone(Step(f, s[0]), s[1..]);
      assert s[..k][1..] == s[1..][..k - 1];
    }
  }
}
