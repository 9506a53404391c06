/**
 Where the body of a request ends: the framers of Content-Length and of chunked bodies. Both take the bytes
 as they come in, and both are automata over single bytes, which is why cutting the input does not matter.
 */
module Framers {
  import opened Octets
  import opened HttpText

  const MAX_CHUNKED_EXTENSION_SIZE := 1024
  const MAX_CHUNKED_TRAILER_SIZE := 8192
  /** The largest chunk size that can still take another hex digit in 64 bits. */
  const MAX_SHIFTABLE_SIZE := 0xFFF_FFFF_FFFF_FFFF

  datatype Stage =
    | ChunkSize
    | ExtensionBeforeSemicolon
    | ExtensionBeforeName
    | ExtensionName
    | ExtensionAfterName
    | ExtensionBeforeValue
    | ExtensionTokenValue
    | ExtensionQuotedValue
    | ExtensionQuotedPair
    | ExtensionAfterValue
    | SizeLf
    | Data
    | DataCr
    | DataLf
    | TrailerLineStart
    | TrailerName
    | TrailerValue
    | TrailerLineLf
    | TrailerEndLf
    | Complete
    | Failed
  {
    predicate IsExtension() {
      || ExtensionBeforeSemicolon? || ExtensionBeforeName? || ExtensionName? || ExtensionAfterName?
      || ExtensionBeforeValue? || ExtensionTokenValue? || ExtensionQuotedValue? || ExtensionQuotedPair?
      || ExtensionAfterValue?
    }

    predicate IsTrailer() {
      TrailerLineStart? || TrailerName? || TrailerValue? || TrailerLineLf? || TrailerEndLf?
    }
  }

  datatype Framer =
    | Raw(expected: nat, accumulated: nat, failed: bool)
    | Chunked(stage: Stage, remaining: nat, started: bool, extensionSize: nat, trailerSize: nat)
  {
    predicate Valid() {
      match this
      case Raw(expected, accumulated, failed) => accumulated <= expected && (failed ==> accumulated < expected)
      case Chunked(stage, remaining, started, extensionSize, trailerSize) => stage.Data? ==> remaining > 0
    }

    predicate Done() { match this case Raw(e, a, _) => a == e case Chunked(stage, _, _, _, _) => stage.Complete? }

    predicate Broken() { match this case Raw(_, _, failed) => failed case Chunked(stage, _, _, _, _) => stage.Failed? }

    predicate Stopped() { Done() || Broken() }
  }

  const StartOfChunks := Chunked(ChunkSize, 0, false, 0, 0)

  function HexDigit(c: char): int {
    if '0' <= c <= '9' then c as int - '0' as int
    else if 'a' <= c <= 'f' then c as int - 'a' as int + 10
    else if 'A' <= c <= 'F' then c as int - 'A' as int + 10
    else -1
  }

  predicate IsQdtext(c: char) {
    c == '\t' || c == ' ' || c == '!' || '#' <= c <= '[' || ']' <= c <= '~' || IsObsText(c)
  }

  /** Section 5.6.4 of RFC 9110: all field characters but the two that a backslash has to stand in front of. */
  lemma QdtextByExclusion(c: char)
    ensures IsQdtext(c) <==> IsFieldChar(c) && c != '"' && c != '\\'
  {
  }

  /** The stage behind a byte of a chunk extension. */
  function AfterExtension(stage: Stage, c: char): (next: Stage)
    requires stage.IsExtension()
    ensures next.IsExtension() || next.SizeLf? || next.Failed?
  {
    match stage
    case ExtensionBeforeSemicolon =>
      if IsOws(c) then stage else if c == ';' then ExtensionBeforeName else Failed
    case ExtensionBeforeName =>
      if IsOws(c) then stage else if IsTchar(c) then ExtensionName else Failed
    case ExtensionName =>
      if IsTchar(c) then stage else if IsOws(c) then ExtensionAfterName else AfterExtensionName(c)
    case ExtensionAfterName =>
      if IsOws(c) then stage else AfterExtensionName(c)
    case ExtensionBeforeValue =>
      if IsOws(c) then stage
      else if IsTchar(c) then ExtensionTokenValue
      else if c == '"' then ExtensionQuotedValue
      else Failed
    case ExtensionTokenValue =>
      if IsTchar(c) then stage else if IsOws(c) then ExtensionAfterValue else AfterExtensionValue(c)
    case ExtensionQuotedValue =>
      if IsQdtext(c) then stage
      else if c == '\\' then ExtensionQuotedPair
      else if c == '"' then ExtensionAfterValue
      else Failed
    case ExtensionQuotedPair =>
      if IsFieldChar(c) then ExtensionQuotedValue else Failed
    case ExtensionAfterValue =>
      if IsOws(c) then stage else AfterExtensionValue(c)
  }

  function AfterExtensionName(c: char): Stage {
    if c == '=' then ExtensionBeforeValue else AfterExtensionValue(c)
  }

  function AfterExtensionValue(c: char): Stage {
    if c == ';' then ExtensionBeforeName else if c == '\r' then SizeLf else Failed
  }

  /** The stage behind a byte of the trailer section. */
  function AfterTrailer(stage: Stage, c: char): (next: Stage)
    requires stage.IsTrailer()
    ensures next.IsTrailer() || next.Complete? || next.Failed?
  {
    match stage
    case TrailerLineStart => if IsTchar(c) then TrailerName else if c == '\r' then TrailerEndLf else Failed
    case TrailerName => if IsTchar(c) then stage else if c == ':' then TrailerValue else Failed
    case TrailerValue => if c == '\r' then TrailerLineLf else if IsFieldChar(c) then stage else Failed
    case TrailerLineLf => if c == '\n' then TrailerLineStart else Failed
    case TrailerEndLf => if c == '\n' then Complete else Failed
  }

  function AfterSize(f: Framer, c: char): (g: Framer)
    requires f.Chunked? && f.stage.ChunkSize?
    ensures g.Chunked? && g.Valid()
  {
    if c == ';' then f.(stage := if f.started then ExtensionBeforeName else Failed)
    else if c == '\r' then f.(stage := if f.started then SizeLf else Failed)
    else if IsOws(c) && f.started then f.(stage := ExtensionBeforeSemicolon)
    else if HexDigit(c) < 0 || f.remaining > MAX_SHIFTABLE_SIZE then f.(stage := Failed)
    else f.(remaining := f.remaining * 16 + HexDigit(c), started := true)
  }

  /** What one byte does to a framer that still wants one. */
  function Step(f: Framer, c: char): (g: Framer)
    requires f.Valid() && !f.Stopped()
    ensures g.Valid() && (g.Raw? <==> f.Raw?)
  {
    match f
    case Raw(expected, accumulated, _) => Raw(expected, accumulated + 1, false)
    case Chunked(stage, remaining, started, extensionSize, trailerSize) =>
      if stage.IsExtension() then
        if extensionSize + 1 > MAX_CHUNKED_EXTENSION_SIZE then f.(stage := Failed)
        else f.(stage := AfterExtension(stage, c), extensionSize := extensionSize + 1)
      else if stage.IsTrailer() then
        if trailerSize + 1 > MAX_CHUNKED_TRAILER_SIZE then f.(stage := Failed)
        else f.(stage := AfterTrailer(stage, c), trailerSize := trailerSize + 1)
      else match stage
           case ChunkSize => AfterSize(f, c)
           case SizeLf =>
             if c != '\n' then f.(stage := Failed)
             else if remaining == 0 then f.(stage := TrailerLineStart, extensionSize := 0, trailerSize := 0)
             else f.(stage := Data, extensionSize := 0)
           case Data => f.(stage := if remaining == 1 then DataCr else Data, remaining := remaining - 1)
           case DataCr => f.(stage := if c == '\r' then DataLf else Failed)
           case DataLf => if c == '\n' then f.(stage := ChunkSize, remaining := 0, started := false) else f.(stage := Failed)
  }

  /** The framer behind the input, and how many of its bytes belong to the body. A byte at which the
      framing breaks is not counted. */
  function Feed(f: Framer, s: Bytes): (r: (Framer, nat))
    requires f.Valid()
    ensures r.0.Valid() && r.1 <= |s| && (r.0.Raw? <==> f.Raw?)
    ensures !r.0.Stopped() ==> r.1 == |s|
    decreases |s|
  {
    if f.Stopped() || s == [] then (f, 0)
    else
      var g := Step(f, s[0]);
      if g.Broken() then (g, 0) else var r := Feed(g, s[1..]); (r.0, r.1 + 1)
  }

  /** Input in two pieces is input in one piece. */
  lemma {:induction false} FeedConcat(f: Framer, a: Bytes, b: Bytes)
    requires f.Valid()
    ensures var r := Feed(f, a);
            Feed(f, a + b) == if r.0.Stopped() then r else (Feed(r.0, b).0, |a| + Feed(r.0, b).1)
    decreases |a|
  {
    hide Step;
    if f.Stopped() {
    } else if a == [] {
      assert a + b == b;
    } else {
      assert (a + b)[1..] == a[1..] + b;
      if !Step(f, a[0]).Broken() {
        FeedConcat(Step(f, a[0]), a[1..], b);
      }
    }
  }

  /** A Content-Length takes exactly as many bytes as it says. */
  lemma {:induction false} RawTakesItsLength(f: Framer, s: Bytes)
    requires f.Valid() && f.Raw? && !f.failed
    ensures Feed(f, s) == (f.(accumulated := f.accumulated + Min(f.expected - f.accumulated, |s|)),
                           Min(f.expected - f.accumulated, |s|))
    decreases |s|
  {
    if s != [] && !f.Done() {
      RawTakesItsLength(Step(f, s[0]), s[1..]);
    }
  }

  /** `fault` when the store of the body cannot take the bytes; the failure is kept, and nothing is taken after it. */
  method WriteRaw(f: Framer, input: Bytes, fault: bool) returns (g: Framer, consumed: nat)
    requires f.Valid() && f.Raw?
    ensures g.Valid() && g.Raw? && g.expected == f.expected
    ensures g.failed <==> f.failed || (fault && Feed(f, input).1 > 0)
    ensures (g, consumed) == if g.failed then (f.(failed := true), 0) else Feed(f, input)
  {
    g, consumed := f, 0;
    if f.failed {
      return;
    }
    RawTakesItsLength(f, input);
    var remaining := f.expected - f.accumulated;
    var toConsume := Min(remaining, |input|);
    if toConsume > 0 {
      if fault {
        return f.(failed := true), 0;
      }
      g, consumed := f.(accumulated := f.accumulated + toConsume), toConsume;
    }
  }

  /** Chunk data is taken in bulk. */
  lemma {:induction false} DataTakesTheRest(f: Framer, s: Bytes, n: nat)
    requires f.Chunked? && f.stage.Data? && 1 <= n <= f.remaining && n <= |s|
    ensures var g := f.(stage := if f.remaining == n then DataCr else Data, remaining := f.remaining - n);
            Feed(f, s) == (Feed(g, s[n..]).0, n + Feed(g, s[n..]).1)
    decreases n
  {
    if n > 1 {
      DataTakesTheRest(Step(f, s[0]), s[1..], n - 1);
      assert s[1..][n - 1..] == s[n..];
    }
  }

  lemma FeedUnfolds(f: Framer, s: Bytes)
    requires f.Valid() && !f.Stopped() && s != []
    ensures var g := Step(f, s[0]);
            Feed(f, s) == if g.Broken() then (g, 0) else (Feed(g, s[1..]).0, 1 + Feed(g, s[1..]).1)
  {
    hide Step;
  }

  lemma FeedNothing(f: Framer)
    requires f.Valid()
    ensures Feed(f, []) == (f, 0)
  {
  }

  lemma StoppedTakesNothing(f: Framer, s: Bytes)
    requires f.Valid() && f.Stopped()
    ensures Feed(f, s) == (f, 0)
  {
  }

  /** Fed `input` from its start, `f` is `g` behind `consumed` bytes, and the rest is still to be fed. */
  ghost predicate IsFed(f: Framer, input: Bytes, g: Framer, consumed: nat)
    requires f.Valid()
  {
    && consumed <= |input| && g.Valid()
    && Feed(f, input) == (Feed(g, input[consumed..]).0, consumed + Feed(g, input[consumed..]).1)
  }

  lemma FedNothing(f: Framer, input: Bytes)
    requires f.Valid()
    ensures IsFed(f, input, f, 0)
  {
    assert input[0..] == input;
  }

  lemma FedData(f: Framer, input: Bytes, g: Framer, consumed: nat, n: nat)
    requires f.Valid() && IsFed(f, input, g, consumed)
    requires g.Chunked? && g.stage.Data? && 1 <= n <= g.remaining && consumed + n <= |input|
    ensures IsFed(f, input, g.(stage := if g.remaining == n then DataCr else Data, remaining := g.remaining - n), consumed + n)
    ensures consumed + n <= Feed(f, input).1
  {
    hide Feed;
    DataTakesTheRest(g, input[consumed..], n);
    assert input[consumed..][n..] == input[consumed + n..];
  }

  lemma FedByte(f: Framer, input: Bytes, g: Framer, consumed: nat)
    requires f.Valid() && IsFed(f, input, g, consumed) && !g.Stopped() && consumed < |input|
    ensures var next := Step(g, input[consumed]);
            if next.Broken() then Feed(f, input) == (next, consumed)
            else IsFed(f, input, next, consumed + 1) && consumed + 1 <= Feed(f, input).1
  {
    hide Feed, Step;
    FeedUnfolds(g, input[consumed..]);
    assert input[consumed..][1..] == input[consumed + 1..];
  }

  lemma FedAll(f: Framer, input: Bytes, g: Framer, consumed: nat)
    requires f.Valid() && IsFed(f, input, g, consumed) && (g.Stopped() || consumed == |input|)
    ensures Feed(f, input) == (g, consumed)
  {
    if consumed == |input| {
      assert input[consumed..] == [];
    }
  }

  /** The store of the body takes the bytes in front of `room`, and then fails. */
  method WriteChunked(f: Framer, input: Bytes, room: nat) returns (g: Framer, consumed: nat)
    requires f.Valid() && f.Chunked?
    ensures Feed(f, input).1 <= room ==> (g, consumed) == Feed(f, input)
    ensures room < Feed(f, input).1 ==> g.Valid() && g.Broken() && consumed <= room
  {
    hide Step, Feed, IsFed;
    g, consumed := f, 0;
    FedNothing(f, input);
    if f.Stopped() {
      FedAll(f, input, g, consumed);
      return;
    }
    while consumed < |input|
      invariant consumed <= |input| && consumed <= room && g.Valid() && g.Chunked? && !g.Stopped()
      invariant IsFed(f, input, g, consumed)
    {
      if g.stage.Data? {
        var toTake := Min(g.remaining, |input| - consumed);
        FedData(f, input, g, consumed, toTake);
        if room < consumed + toTake {
          g := g.(stage := Failed);
          return;
        }
        g := g.(stage := if g.remaining == toTake then DataCr else Data, remaining := g.remaining - toTake);
        consumed := consumed + toTake;
      } else {
        FedByte(f, input, g, consumed);
        var next := Step(g, input[consumed]);
        if next.Broken() {
          g := next;
          return;
        }
        if room < consumed + 1 {
          g := g.(stage := Failed);
          return;
        }
        g := next;
        consumed := consumed + 1;
        if g.Done() {
          FedAll(f, input, g, consumed);
          return;
        }
      }
    }
    FedAll(f, input, g, consumed);
  }
}
