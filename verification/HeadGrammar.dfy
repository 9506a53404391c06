/**
 The heads that are accepted, as text: a method, a target, the version and header lines, with the rules met.
 */
module HeadGrammar {
  import opened Octets
  import opened HttpText
  import opened UriReference
  import opened PercentDecode
  import opened RequestHead
  import opened AbsoluteForm
  import opened HeadStability
  import opened TargetGrammar
  import opened TargetViews
  import H = HeaderList

  const CRLF: Bytes := "\r\n"
  const SP: Bytes := " "
  const VERSION: Bytes := " HTTP/1.1\r\n"

  predicate IsBlank(s: Bytes) { forall i | 0 <= i < |s| :: IsOws(s[i]) }

  /** Without white space at either end. */
  predicate IsBare(s: Bytes) { s == [] || (!IsOws(s[0]) && !IsOws(s[|s| - 1])) }

  /** field-name ":" OWS field-value OWS CRLF; all of the white space around an empty value is in front of it. */
  datatype FieldLine = FieldLine(name: Bytes, before: Bytes, value: Bytes, behind: Bytes)
  {
    predicate Valid() {
      && IsToken(name) && IsBlank(before) && IsBlank(behind) && IsFieldValue(value) && IsBare(value)
      && (value == [] ==> behind == [])
    }

    function Padded(): Bytes { before + (value + behind) }

    function Encoded(): Bytes { name + ([':'] + (Padded() + CRLF)) }

    function Says(): FieldText { FieldText(name, value) }
  }

  function EncodeLines(lines: seq<FieldLine>): Bytes {
    if lines == [] then CRLF else lines[0].Encoded() + EncodeLines(lines[1..])
  }

  predicate AllValid(lines: seq<FieldLine>) { forall i | 0 <= i < |lines| :: lines[i].Valid() }

  function Texts(lines: seq<FieldLine>): seq<FieldText> {
    if lines == [] then [] else [lines[0].Says()] + Texts(lines[1..])
  }

  /** Every interpreter takes its line when it comes, and the rules have this verdict on all of them. */
  predicate AreMet(r: Rules, context: Context, lines: seq<FieldLine>, framing: Framing)
    decreases |lines|
  {
    if lines == [] then r.verdict(context) == Some(framing)
    else
      var said := lines[0].Says();
      r.accepts(context, said) && AreMet(r, context.(fields := context.fields + [said]), lines[1..], framing)
  }

  /** Everything that a head says. */
  datatype Said = Said(name: Bytes, target: Parts, fields: seq<FieldText>, framing: Framing)

  datatype HeadText = HeadText(name: Bytes, target: Bytes, lines: seq<FieldLine>)
  {
    predicate Valid() { IsToken(name) && target != [] && AllValid(lines) }

    /** method SP request-target SP HTTP/1.1 CRLF, and the header section */
    function Encoded(): Bytes { (name + SP) + (target + (VERSION + EncodeLines(lines))) }

    /** The method, what the target says, without a NUL in its path, and lines that are acceptable behind it. */
    ghost predicate Says(r: Rules, said: Said) {
      && said.name == name && TargetSays(name, target, said.target) && !HasNulTriplet(said.target.path)
      && said.fields == Texts(lines) && AreMet(r, Context(said.target.authority, []), lines, said.framing)
    }
  }

  ghost predicate IsHead(r: Rules, s: Bytes, said: Said) {
    exists h: HeadText :: h.Valid() && h.Says(r, said) && h.Encoded() == s
  }

  // ---- what is shown of a head in the buffer

  function SaidOf(b: Bytes, head: Head): Said {
    Said(Shown(b, head.name), PartsOf(b, head.target), TextsIn(b, head.fields), head.framing)
  }

  // ---- one line

  lemma {:induction false} TokenUpTo(b: Bytes, i: nat, j: nat)
    requires i <= j <= |b| && (j < |b| ==> !IsTchar(b[j])) && forall k | i <= k < j :: IsTchar(b[k])
    ensures TokenEnd(b, i) == j
    decreases j - i
  {
    hide IsTchar;
    if i < j {
      TokenUpTo(b, i + 1, j);
    }
  }

  lemma {:induction false} ValueUpTo(b: Bytes, i: nat, j: nat)
    requires i <= j < |b| && !IsFieldChar(b[j]) && forall k | i <= k < j :: IsFieldChar(b[k])
    ensures ValueEnd(b, i) == j
    decreases j - i
  {
    hide IsFieldChar;
    if i < j {
      ValueUpTo(b, i + 1, j);
    }
  }

  /** Taking off white space at both ends finds the value. */
  lemma {:induction false} TrimmedIs(b: Bytes, i: nat, j: nat, k: nat, m: nat)
    requires i <= j <= k <= m <= |b| && (j == k ==> k == m)
    requires forall x | i <= x < j || k <= x < m :: IsOws(b[x])
    requires j < k ==> !IsOws(b[j]) && !IsOws(b[k - 1])
    ensures Trimmed(b, View(i, m)) == View(j, k)
    decreases m - i
  {
    if i < j {
      TrimmedIs(b, i + 1, j, k, m);
    } else if k < m {
      TrimmedIs(b, i, j, k, m - 1);
    }
  }

  lemma {:induction false} TrimmedHas(b: Bytes, i: nat, m: nat)
    requires i <= m <= |b|
    ensures var w := Trimmed(b, View(i, m));
            && i <= w.from <= w.to <= m && (w.from == w.to ==> w.to == m)
            && (forall x | i <= x < w.from || w.to <= x < m :: IsOws(b[x]))
            && (w.from < w.to ==> !IsOws(b[w.from]) && !IsOws(b[w.to - 1]))
    decreases m - i
  {
    if i < m && IsOws(b[i]) {
      TrimmedHas(b, i + 1, m);
    } else if i < m && IsOws(b[m - 1]) {
      TrimmedHas(b, i, m - 1);
    }
  }

  /** The pieces of a text lie where they should. */
  lemma PiecesAt(b: Bytes, i: nat, j: nat, x: Bytes, y: Bytes)
    requires i <= j <= |b| && b[i..j] == x + y
    ensures var m := i + |x|; m <= j && j - m == |y| && b[i..m] == x && b[m..j] == y
  {
    var m := i + |x|;
    assert |x + y| == j - i;
    assert b[i..m] == b[i..j][..|x|] && b[m..j] == b[i..j][|x|..];
    assert (x + y)[..|x|] == x && (x + y)[|x|..] == y;
  }

  lemma CharsAt(b: Bytes, i: nat, s: Bytes)
    requires i + |s| <= |b| && b[i..i + |s|] == s
    ensures forall k | 0 <= k < |s| :: b[i + k] == s[k]
  {
    forall k | 0 <= k < |s| ensures b[i + k] == s[k] {
      assert b[i..i + |s|][k] == b[i + k];
    }
  }

  /** The parts of a line lie where they should. */
  lemma LineLies(b: Bytes, i: nat, j: nat, line: FieldLine)
    requires i <= j <= |b| && b[i..j] == line.Encoded()
    ensures var k := i + |line.name|; var v := k + 1 + |line.Padded()|;
            && j == v + 2 && b[i..k] == line.name && b[k] == ':' && b[k + 1..v] == line.Padded()
            && b[v] == '\r' && b[v + 1] == '\n'
  {
    hide FieldLine.Padded;
    var padded := line.Padded();
    var k := i + |line.name|;
    var v := k + 1 + |padded|;
    PiecesAt(b, i, j, line.name, [':'] + (padded + CRLF));
    PiecesAt(b, k, j, [':'], padded + CRLF);
    PiecesAt(b, k + 1, j, padded, CRLF);
    assert b[k] == b[k..k + 1][0] && b[v] == b[v..j][0] && b[v + 1] == b[v..j][1];
  }

  /** A line is read as what it says. */
  lemma FieldIsRead(b: Bytes, i: nat, j: nat, line: FieldLine)
    requires line.Valid() && i <= j <= |b| && b[i..j] == line.Encoded()
    ensures var o := FieldAt(b, i); o.Done? && o.end == j && TextOf(b, o.value) == line.Says()
    ensures b[i] != '\r'
  {
    hide IsTchar, IsFieldChar, TokenEnd, ValueEnd, Trimmed, FieldLine.Encoded, FieldLine.Padded;
    LineLies(b, i, j, line);
    CharsAt(b, i, line.name);
    Delimiters();
    var k := i + |line.name|;
    forall x | i <= x < k ensures IsTchar(b[x]) {
      assert b[i + (x - i)] == line.name[x - i];
    }
    TokenUpTo(b, i, k);
    PaddedIsRead(b, k + 1, line);
  }

  lemma Delimiters()
    ensures !IsTchar(':') && !IsTchar('\r') && !IsFieldChar('\r') && forall c | IsOws(c) :: IsFieldChar(c)
  {
  }

  lemma PaddedLies(b: Bytes, i: nat, line: FieldLine)
    requires line.Valid() && i + |line.Padded()| <= |b| && b[i..i + |line.Padded()|] == line.Padded()
    ensures var j, k, v := i + |line.before|, i + |line.before| + |line.value|, i + |line.Padded()|;
            && k <= v && b[j..k] == line.value
            && (forall x | i <= x < j || k <= x < v :: IsOws(b[x]))
            && (forall x | i <= x < v :: IsFieldChar(b[x]))
            && (j < k ==> !IsOws(b[j]) && !IsOws(b[k - 1]))
  {
    hide IsTchar, IsFieldChar, IsOws;
    var before, value, behind := line.before, line.value, line.behind;
    var j, k, v := i + |before|, i + |before| + |value|, i + |line.Padded()|;
    PiecesAt(b, i, v, before, value + behind);
    PiecesAt(b, j, v, value, behind);
    Delimiters();
    CharsAt(b, i, before);
    CharsAt(b, j, value);
    CharsAt(b, k, behind);
    forall x | i <= x < v ensures IsFieldChar(b[x]) && (x < j || k <= x ==> IsOws(b[x])) {
      if x < j {
        assert b[i + (x - i)] == before[x - i];
      } else if x < k {
        assert b[j + (x - j)] == value[x - j];
      } else {
        assert b[k + (x - k)] == behind[x - k];
      }
    }
    if j < k {
      assert b[j + 0] == value[0] && b[j + (|value| - 1)] == value[|value| - 1];
    }
  }

  lemma PaddedIsRead(b: Bytes, i: nat, line: FieldLine)
    requires line.Valid() && i + |line.Padded()| < |b| && b[i..i + |line.Padded()|] == line.Padded()
    requires b[i + |line.Padded()|] == '\r'
    ensures var v := i + |line.Padded()|;
            ValueEnd(b, i) == v && Trimmed(b, View(i, v)).Of(b) == line.value
  {
    hide IsTchar, IsFieldChar, IsOws, ValueEnd, Trimmed;
    var j, k, v := i + |line.before|, i + |line.before| + |line.value|, i + |line.Padded()|;
    PaddedLies(b, i, line);
    Delimiters();
    ValueUpTo(b, i, v);
    TrimmedIs(b, i, j, k, v);
  }

  /** What is read as a field is a line. */
  lemma FieldIsLine(b: Bytes, i: nat) returns (line: FieldLine)
    requires i <= |b| && FieldAt(b, i).Done?
    ensures var o := FieldAt(b, i);
            line.Valid() && b[i..o.end] == line.Encoded() && TextOf(b, o.value) == line.Says()
  {
    hide IsTchar, IsFieldChar, TokenEnd, ValueEnd, Trimmed, FieldLine.Encoded, FieldLine.Valid;
    var k := TokenEnd(b, i);
    var v := ValueEnd(b, k + 1);
    TrimmedHas(b, k + 1, v);
    var w := Trimmed(b, View(k + 1, v));
    line := FieldLine(b[i..k], b[k + 1..w.from], b[w.from..w.to], b[w.to..v]);
    LineIsValid(b, i, k, w, v, line);
    LineOf(b, i, k, w, v, line);
  }

  lemma LineOf(b: Bytes, i: nat, k: nat, w: View, v: nat, line: FieldLine)
    requires i <= k < w.from <= w.to <= v && v + 2 <= |b| && b[k] == ':' && b[v] == '\r' && b[v + 1] == '\n'
    requires line == FieldLine(b[i..k], b[k + 1..w.from], b[w.from..w.to], b[w.to..v])
    ensures b[i..v + 2] == line.Encoded()
  {
    var padded := line.Padded();
    assert padded == b[k + 1..v];
    assert b[v..v + 2] == CRLF;
    assert b[i..v + 2] == b[i..k] + [b[k]] + padded + b[v..v + 2];
  }

  lemma LineIsValid(b: Bytes, i: nat, k: nat, w: View, v: nat, line: FieldLine)
    requires i < k < w.from <= w.to <= v <= |b| && (w.from == w.to ==> w.to == v)
    requires forall x | i <= x < k :: IsTchar(b[x])
    requires forall x | k + 1 <= x < v :: IsFieldChar(b[x])
    requires forall x | k + 1 <= x < w.from || w.to <= x < v :: IsOws(b[x])
    requires w.from < w.to ==> !IsOws(b[w.from]) && !IsOws(b[w.to - 1])
    requires line == FieldLine(b[i..k], b[k + 1..w.from], b[w.from..w.to], b[w.to..v])
    ensures line.Valid()
  {
    hide IsTchar, IsFieldChar, IsOws;
  }

  // ---- the header section

  /** The lines that are read, and that the rules are met. */
  lemma {:induction false} LinesOf(r: Rules, b: Bytes, i: nat, context: Context, fields: seq<Field>)
    returns (lines: seq<FieldLine>)
    requires i <= |b|
    requires var o := FieldsAt(r, b, i, context, fields); o.Done? && o.end == |b|
    ensures var o := FieldsAt(r, b, i, context, fields);
            && AllValid(lines) && b[i..] == EncodeLines(lines) && AreMet(r, context, lines, o.value.1)
            && TextsIn(b, o.value.0) == TextsIn(b, fields) + Texts(lines)
    decreases |b| - i
  {
    hide FieldAt, FieldLine.Valid, FieldLine.Encoded, FieldLine.Says, TextsIn, TextOf;
    if b[i] == '\r' {
      lines := [];
      assert b[i..] == CRLF;
      assert TextsIn(b, fields) + [] == TextsIn(b, fields);
    } else {
      var o := FieldAt(b, i);
      var line := FieldIsLine(b, i);
      var more := LinesOf(r, b, o.end, context.(fields := context.fields + [line.Says()]), fields + [o.value]);
      lines := [line] + more;
      assert lines[1..] == more;
      assert b[i..] == b[i..o.end] + b[o.end..];
      TextsGrow(b, fields, o.value);
      assert TextsIn(b, fields) + [line.Says()] + Texts(more) == TextsIn(b, fields) + ([line.Says()] + Texts(more));
    }
  }

  lemma {:induction false} LinesAreRead(r: Rules, b: Bytes, i: nat, context: Context, fields: seq<Field>,
                                        lines: seq<FieldLine>, framing: Framing)
    requires i <= |b| && AllValid(lines) && b[i..] == EncodeLines(lines) && AreMet(r, context, lines, framing)
    ensures var o := FieldsAt(r, b, i, context, fields);
            o.Done? && o.end == |b| && o.value.1 == framing
            && TextsIn(b, o.value.0) == TextsIn(b, fields) + Texts(lines)
    decreases |lines|
  {
    hide FieldAt, FieldLine.Valid, FieldLine.Encoded, FieldLine.Says, TextsIn, TextOf;
    if lines == [] {
      assert b[i] == b[i..][0] && b[i + 1] == b[i..][1];
      assert TextsIn(b, fields) + [] == TextsIn(b, fields);
    } else {
      var line := lines[0];
      var j := i + |line.Encoded()|;
      assert b[i..|b|] == b[i..] && b[j..|b|] == b[j..];
      PiecesAt(b, i, |b|, line.Encoded(), EncodeLines(lines[1..]));
      FieldIsRead(b, i, j, line);
      var f := FieldAt(b, i).value;
      LinesAreRead(r, b, j, context.(fields := context.fields + [line.Says()]), fields + [f], lines[1..], framing);
      TextsGrow(b, fields, f);
      assert TextsIn(b, fields) + [line.Says()] + Texts(lines[1..])
          == TextsIn(b, fields) + ([line.Says()] + Texts(lines[1..]));
    }
  }

  // ---- what responses are written as

  /** The field as a line, with one space in front of its value. */
  function LineFor(h: H.Header): FieldLine { FieldLine(h.name, SP, h.value, []) }

  function LinesFor(hs: seq<H.Header>): seq<FieldLine> { if hs == [] then [] else [LineFor(hs[0])] + LinesFor(hs[1..]) }

  /** The field block of a response is a header section of the grammar, and each line says its field. */
  lemma {:induction false} BlockIsLines(hs: seq<H.Header>)
    requires H.WellFormed(hs) && forall i | 0 <= i < |hs| :: IsBare(hs[i].value)
    ensures AllValid(LinesFor(hs)) && H.Render(hs) + CRLF == EncodeLines(LinesFor(hs)) && |LinesFor(hs)| == |hs|
    ensures forall i | 0 <= i < |hs| :: LinesFor(hs)[i].Says() == FieldText(hs[i].name, hs[i].value)
    decreases |hs|
  {
    hide IsTchar, IsFieldChar, IsToken, IsFieldValue, FieldLine.Encoded, H.Line;
    if hs != [] {
      BlockIsLines(hs[1..]);
      var more := LinesFor(hs[1..]);
      assert LinesFor(hs)[1..] == more;
      WrittenAlike(hs[0]);
      assert H.Line(hs[0]) + (H.Render(hs[1..]) + CRLF) == H.Render(hs) + CRLF;
      forall i | 0 <= i < |hs| ensures LinesFor(hs)[i].Valid() && LinesFor(hs)[i].Says() == FieldText(hs[i].name, hs[i].value) {
        if i > 0 {
          assert LinesFor(hs)[i] == more[i - 1] && hs[i] == hs[1..][i - 1];
        }
      }
    } else {
      assert [] + CRLF == CRLF;
    }
  }

  lemma WrittenAlike(h: H.Header)
    ensures LineFor(h).Encoded() == H.Line(h)
  {
    assert LineFor(h).Padded() == SP + h.value;
  }

  // ---- the request line

  lemma VersionExactly(b: Bytes, e: nat)
    requires e <= |b|
    ensures VersionAt(b, e).Done? <==> e + |VERSION| <= |b| && b[e..e + |VERSION|] == VERSION
    ensures VersionAt(b, e).Done? ==> VersionAt(b, e).end == e + |VERSION|
  {
    if VersionAt(b, e).Done? {
      VersionChars(b, e);
      assert b[e..e + |VERSION|] == VERSION;
    }
    if e + |VERSION| <= |b| && b[e..e + |VERSION|] == VERSION {
      CharsAt(b, e, VERSION);
      var v := e + 1;
      assert forall k | 0 <= k < 8 :: FitsVersion(b, v, k);
    }
  }

  lemma VersionChars(b: Bytes, e: nat)
    requires e <= |b| && VersionAt(b, e).Done?
    ensures e + 11 <= |b| && b[e..e + 11] == [b[e], b[e + 1], b[e + 2], b[e + 3], b[e + 4], b[e + 5], b[e + 6], b[e + 7],
                                              b[e + 8], b[e + 9], b[e + 10]]
    ensures b[e] == ' ' && b[e + 1] == 'H' && b[e + 2] == 'T' && b[e + 3] == 'T' && b[e + 4] == 'P' && b[e + 5] == '/'
    ensures b[e + 6] == '1' && b[e + 7] == '.' && b[e + 8] == '1' && b[e + 9] == '\r' && b[e + 10] == '\n'
  {
    var v := e + 1;
    assert forall k | 0 <= k < 8 :: FitsVersion(b, v, k);
    assert FitsVersion(b, v, 0) && FitsVersion(b, v, 1) && FitsVersion(b, v, 2) && FitsVersion(b, v, 3);
    assert FitsVersion(b, v, 4) && FitsVersion(b, v, 6);
  }

  lemma MethodExactly(b: Bytes, name: Bytes)
    requires IsToken(name) && |name| + 1 < |b| && b[..|name| + 1] == name + SP
    ensures MethodAt(b) == Done((), |name| + 1) && b[..|name|] == name
  {
    hide IsTchar, TokenEnd;
    var n := |name|;
    assert b[..n] == b[..n + 1][..n] && b[n] == b[..n + 1][n];
    assert !IsTchar(' ') by { SpaceIsNoTchar(); }
    forall k | 0 <= k < n ensures IsTchar(b[k]) {
      assert b[k] == b[..n][k];
    }
    TokenUpTo(b, 0, n);
  }

  lemma SpaceIsNoTchar()
    ensures !IsTchar(' ')
  {
  }

  // ---- the whole head

  /** Where the parts of a head lie. */
  lemma HeadLies(b: Bytes, h: HeadText)
    requires h.Encoded() == b
    ensures var n := |h.name| + 1; var e := n + |h.target|; var k := e + |VERSION|;
            && k <= |b| && b[..n] == h.name + SP && b[n..e] == h.target
            && b[e] == ' ' && b[e..k] == VERSION && b[k..] == EncodeLines(h.lines)
  {
    hide EncodeLines;
    RequestLineLies(b, |h.name| + 1, h.name + SP, h.target, EncodeLines(h.lines));
  }

  lemma RequestLineLies(b: Bytes, n: nat, front: Bytes, target: Bytes, lines: Bytes)
    requires n == |front| && b == front + (target + (VERSION + lines))
    ensures var e := n + |target|; var k := e + |VERSION|;
            && k <= |b| && b[..n] == front && b[n..e] == target && b[e] == ' ' && b[e..k] == VERSION && b[k..] == lines
  {
    var e, all := n + |target|, |b|;
    assert b[0..all] == b && b[e + |VERSION|..all] == b[e + |VERSION|..];
    PiecesAt(b, 0, all, front, target + (VERSION + lines));
    PiecesAt(b, n, all, target, VERSION + lines);
    PiecesAt(b, e, all, VERSION, lines);
    assert b[e] == b[e..e + |VERSION|][0];
  }

  /** The texts of an authority that the interpreters are shown are those of its views. */
  lemma AuthorityShown(b: Bytes, a: Option<Authority>)
    requires Within(a, b)
    ensures AuthorityTexts(b, a) == PartsOf(b, Target(AbsoluteForm, NOWHERE, NOWHERE, a)).authority
  {
  }

  lemma HeadIsRead(r: Rules, h: HeadText, said: Said)
    requires h.Valid() && h.Says(r, said)
    ensures var o := HeadAt(r, h.Encoded());
            o.Done? && o.end == |h.Encoded()| && SaidOf(h.Encoded(), o.value) == said
  {
    hide MethodAt, TargetAt, TargetSays, VersionAt, FieldsAt, EncodeLines, AreMet, AuthorityTexts, HasNulTriplet, Within,
         HeadText.Encoded, FieldLine.Valid, Texts;
    var b, n := h.Encoded(), |h.name|;
    var e := n + 1 + |h.target|;
    HeadLies(b, h);
    MethodExactly(b, h.name);
    TargetShows(b, h.name, n + 1, e, said.target);
    var t := TargetAt(b, h.name, n + 1).value;
    TargetWithin(b, h.name, n + 1);
    AuthorityShown(b, t.authority);
    VersionExactly(b, e);
    LinesAreRead(r, b, e + |VERSION|, Context(AuthorityTexts(b, t.authority), []), [], h.lines, said.framing);
    assert [] + Texts(h.lines) == Texts(h.lines);
  }

  lemma HeadIsText(r: Rules, b: Bytes) returns (h: HeadText)
    requires HeadAt(r, b).Done? && HeadAt(r, b).end == |b|
    ensures h.Valid() && h.Encoded() == b && h.Says(r, SaidOf(b, HeadAt(r, b).value))
  {
    hide MethodAt, TargetAt, IsTarget, TargetSays, VersionAt, FieldsAt, EncodeLines, AreMet, AuthorityTexts, HasNulTriplet,
         Within, FieldLine.Valid, Texts;
    AcceptedTarget(r, b);
    MethodIsToken(b);
    var i := MethodAt(b).end;
    var name := b[..i - 1];
    var e := TargetAt(b, name, i).end;
    var t := TargetAt(b, name, i).value;
    TargetShows(b, name, i, e, PartsOf(b, t));
    TargetWithin(b, name, i);
    AuthorityShown(b, t.authority);
    VersionExactly(b, e);
    var k := e + |VERSION|;
    var lines := LinesOf(r, b, k, Context(AuthorityTexts(b, t.authority), []), []);
    h := HeadText(name, b[i..e], lines);
    assert [] + Texts(lines) == Texts(lines);
    FourPieces(b, i, e, k);
  }

  lemma FourPieces(b: Bytes, i: nat, e: nat, k: nat)
    requires i <= e <= k <= |b|
    ensures b == b[..i] + (b[i..e] + (b[e..k] + b[k..]))
  {
    assert b[e..] == b[e..k] + b[k..];
    assert b[i..] == b[i..e] + b[e..];
    assert b == b[..i] + b[i..];
  }

  lemma MethodIsToken(b: Bytes)
    requires MethodAt(b).Done?
    ensures var i := MethodAt(b).end; IsToken(b[..i - 1]) && b[..i] == b[..i - 1] + SP
  {
    hide IsTchar, TokenEnd;
  }

  /** More bytes behind a head do not change what it shows. */
  lemma {:induction false} TextsStay(b: Bytes, d: Bytes, fields: seq<Field>)
    requires b <= d && forall k | 0 <= k < |fields| :: fields[k].name.In(b) && fields[k].value.In(b)
    ensures TextsIn(d, fields) == TextsIn(b, fields)
    decreases |fields|
  {
    if fields != [] {
      var f := fields[|fields| - 1];
      TextsStay(b, d, fields[..|fields| - 1]);
      ViewStable(b, d, f.name);
      ViewStable(b, d, f.value);
    }
  }

  lemma {:induction false} FieldsAreIn(r: Rules, b: Bytes, i: nat, context: Context, fields: seq<Field>)
    requires i <= |b| && FieldsAt(r, b, i, context, fields).Done?
    requires forall k | 0 <= k < |fields| :: fields[k].name.In(b) && fields[k].value.In(b)
    ensures var o := FieldsAt(r, b, i, context, fields);
            forall k | 0 <= k < |o.value.0| :: o.value.0[k].name.In(b) && o.value.0[k].value.In(b)
    decreases |b| - i
  {
    hide FieldAt, TextOf;
    if b[i] != '\r' {
      var o := FieldAt(b, i);
      FieldsAreIn(r, b, o.end, context.(fields := context.fields + [TextOf(b, o.value)]), fields + [o.value]);
    }
  }

  lemma SaidStays(r: Rules, b: Bytes, d: Bytes)
    requires b <= d && HeadAt(r, b).Done?
    ensures SaidOf(d, HeadAt(r, b).value) == SaidOf(b, HeadAt(r, b).value)
  {
    hide MethodAt, TargetAt, VersionAt, FieldsAt, HasNulTriplet, TextsIn, Within;
    var i := MethodAt(b).end;
    var name := b[..i - 1];
    var t := TargetAt(b, name, i);
    TargetWithin(b, name, i);
    QueryWithin(b, name, i);
    PartsStay(b, d, t.value);
    FieldsAreIn(r, b, VersionAt(b, t.end).end, Context(AuthorityTexts(b, t.value.authority), []), []);
    TextsStay(b, d, HeadAt(r, b).value.fields);
    ViewStable(b, d, View(0, i - 1));
  }

  lemma PartsStay(b: Bytes, d: Bytes, t: Target)
    requires b <= d && t.path.In(b) && t.query.In(b) && Within(t.authority, b)
    ensures PartsOf(d, t) == PartsOf(b, t)
  {
    ViewStable(b, d, t.path);
    ViewStable(b, d, t.query);
    if t.authority.Some? {
      ViewStable(b, d, t.authority.value.scheme);
      ViewStable(b, d, t.authority.value.host);
      ViewStable(b, d, t.authority.value.port);
    }
  }

  lemma QueryWithin(b: Bytes, name: Bytes, i: nat)
    requires i < |b| && TargetAt(b, name, i).Done?
    ensures TargetAt(b, name, i).value.query.In(b)
  {
    hide Run, AuthorityAt, IsHost, SplitAuthorityHostPort, DigitsEnd, QueryAt, SchemeStop;
  }

  /**
   The first `n` bytes are an accepted head that says this exactly when they are the text of one: a token, a target,
   the version and header lines, for which the rules are met.  What stands behind them does not matter.
   */
  lemma HeadExactly(r: Rules, b: Bytes, n: nat, said: Said)
    ensures HeadAt(r, b).Done? && HeadAt(r, b).end == n && SaidOf(b, HeadAt(r, b).value) == said
            <==> n <= |b| && IsHead(r, b[..n], said)
  {
    hide HeadAt, HeadText.Valid, HeadText.Says, HeadText.Encoded, SaidOf;
    if HeadAt(r, b).Done? && HeadAt(r, b).end == n {
      HeadIsComplete(r, b[..n], b);
      var h := HeadIsText(r, b[..n]);
      SaidStays(r, b[..n], b);
    }
    if n <= |b| && IsHead(r, b[..n], said) {
      var h: HeadText :| h.Valid() && h.Says(r, said) && h.Encoded() == b[..n];
      HeadIsRead(r, h, said);
      HeadStable(r, b[..n], b);
      SaidStays(r, b[..n], b);
    }
  }
}
