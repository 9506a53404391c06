/**
 The head of a request, as the decoder reads it: request line and header fields. Everything here is about one
 run over the bytes received so far; what may happen when more bytes arrive is the subject of HeadStability.
 */
module RequestHead {
  import opened Octets
  import opened HttpText
  import opened IpAddress
  import opened UriReference
  import opened PercentDecode

  /** The text between two indices of the buffer. */
  datatype View = View(from: nat, to: nat)
  {
    predicate In(b: string) { from <= to <= |b| }

    function Of(b: Bytes): Bytes
      requires In(b)
    {
      b[from..to]
    }
  }

  const NOWHERE := View(0, 0)

  /** kInvalidSource, kMoreBytesNeeded, or success with the index behind what was used. */
  datatype Outcome<+T> = Invalid | More | Done(value: T, end: nat)

  datatype Form = OriginForm | AbsoluteForm | AuthorityForm | AsteriskForm

  datatype Authority = Authority(scheme: View, host: View, port: View)

  datatype Target = Target(form: Form, path: View, query: View, authority: Option<Authority>)

  datatype Field = Field(name: View, value: View)

  /** What the transversal rules make of the header fields. */
  datatype Framing = Framing(chunked: bool, contentLength: nat, close: bool, expectsContinue: bool)
  {
    predicate BodyExpected() { chunked || contentLength > 0 }
  }

  datatype Head = Head(name: View, target: Target, fields: seq<Field>, framing: Framing)

  datatype FieldText = FieldText(name: Bytes, value: Bytes)

  /** Everything the header interpreters have seen when they are called. */
  datatype Context = Context(authority: Option<(Bytes, Bytes, Bytes)>, fields: seq<FieldText>)

  /** The header interpreters and the transversal rules, whose verdicts depend on what they are shown only. */
  datatype Rules = Rules(accepts: (Context, FieldText) -> bool, verdict: Context -> Option<Framing>)

  // ---- runs of characters

  /** A malformed triplet, a triplet cut off by the end of the data, or the index of the first other character. */
  datatype Scan = Bad | Cut | Stop(at: nat)

  function Run(b: Bytes, i: nat, extra: string): (s: Scan)
    requires i <= |b|
    ensures s.Stop? ==> i <= s.at <= |b| && (s.at < |b| ==> b[s.at] != '%' && !Allowed(extra, b[s.at]))
    decreases |b| - i
  {
    if i == |b| then Stop(i)
    else if b[i] == '%' then
      if i + 2 >= |b| then Cut
      else if !IsHexDigit(b[i + 1]) || !IsHexDigit(b[i + 2]) then Bad
      else Run(b, i + 3, extra)
    else if Allowed(extra, b[i]) then Run(b, i + 1, extra)
    else Stop(i)
  }

  function TokenEnd(b: Bytes, i: nat): (j: nat)
    requires i <= |b|
    ensures i <= j <= |b| && (j < |b| ==> !IsTchar(b[j]))
    ensures forall k | i <= k < j :: IsTchar(b[k])
    decreases |b| - i
  {
    if i < |b| && IsTchar(b[i]) then TokenEnd(b, i + 1) else i
  }

  function DigitsEnd(b: Bytes, i: nat): (j: nat)
    requires i <= |b|
    ensures i <= j <= |b| && (j < |b| ==> !IsDigit(b[j]))
    ensures forall k | i <= k < j :: IsDigit(b[k])
    decreases |b| - i
  {
    if i < |b| && IsDigit(b[i]) then DigitsEnd(b, i + 1) else i
  }

  // ---- request targets

  /** uri-host ":" port */
  ghost function AuthorityFormAt(b: Bytes, i: nat): (o: Outcome<Target>)
    requires i <= |b|
    ensures o.Done? ==> i < o.end <= |b|
  {
    var sv := b[i..];
    if sv == [] then More
    else match SplitAuthorityHostPort(sv)
         case None => More
         case Some((host, colon)) =>
           if sv[0] != '[' && colon == |sv| then More
           else if !IsHost(host) then Invalid
           else if colon == |sv| then More
           else if sv[colon] != ':' then Invalid
           else
             var end := DigitsEnd(b, i + colon + 1);
             var authority := Authority(NOWHERE, View(i, i + colon), View(i + colon + 1, end));
             Done(Target(AuthorityForm, NOWHERE, NOWHERE, Some(authority)), end)
  }

  function AsteriskFormAt(b: Bytes, i: nat): (o: Outcome<Target>)
    requires i <= |b|
    ensures o.Done? ==> i < o.end <= |b|
  {
    if i == |b| then More
    else if b[i] != '*' then Invalid
    else Done(Target(AsteriskForm, NOWHERE, NOWHERE, None), i + 1)
  }

  /** [ "?" query ], behind a path that ends at `p` */
  function QueryAt(b: Bytes, p: nat): (o: Outcome<View>)
    requires p <= |b|
    ensures o.Done? ==> p <= o.value.from <= o.value.to && o.value.to == o.end <= |b|
  {
    if p < |b| && b[p] == '?' then
      match Run(b, p + 1, QUERY)
      case Bad => Invalid
      case Cut => More
      case Stop(q) => Done(View(p + 1, q), q)
    else Done(View(p, p), p)
  }

  /** absolute-path [ "?" query ] */
  function OriginFormAt(b: Bytes, i: nat): (o: Outcome<Target>)
    requires i <= |b|
    ensures o.Done? ==> i < o.end <= |b| && o.value.path.In(b)
  {
    if i == |b| then More
    else if b[i] != '/' then Invalid
    else match Run(b, i + 1, PATH)
         case Bad => Invalid
         case Cut => More
         case Stop(p) =>
           match QueryAt(b, p)
           case Invalid => Invalid
           case More => More
           case Done(query, q) => Done(Target(OriginForm, View(i, p), query, None), q)
  }

  /** scheme ":" hier-part [ "?" query ] */
  ghost function AbsoluteFormAt(b: Bytes, i: nat): (o: Outcome<Target>)
    requires i <= |b|
    ensures o.Done? ==> i < o.end <= |b| && o.value.path.In(b)
  {
    if i == |b| then More
    else if !IsAlpha(b[i]) then Invalid
    else
      var k := SchemeStop(b, i + 1);
      if k == |b| then More
      else if b[k] != ':' then Invalid
      else if SlashesAt(b, k + 1) then
        match AuthorityRun(b, k + 3)
        case Bad => Invalid
        case Cut => More
        case Stop(a) =>
          (match AuthorityAt(b, View(i, k), k + 3, a)
           case Invalid => Invalid
           case More => More
           case Done(authority, _) => PathAndQueryAt(b, a, Some(authority)))
      else PathAndQueryAt(b, k + 1, None)
  }

  function PathAndQueryAt(b: Bytes, from: nat, authority: Option<Authority>): (o: Outcome<Target>)
    requires from <= |b|
    ensures o.Done? ==> from <= o.end <= |b| && o.value.path.In(b)
  {
    match Run(b, from, PATH)
    case Bad => Invalid
    case Cut => More
    case Stop(p) =>
      match QueryAt(b, p)
      case Invalid => Invalid
      case More => More
      case Done(query, q) => Done(Target(AbsoluteForm, View(from, p), query, authority), q)
  }

  function SchemeStop(b: Bytes, i: nat): (j: nat)
    requires i <= |b|
    ensures i <= j <= |b| && (j < |b| ==> !IsSchemeChar(b[j]))
    ensures forall k | i <= k < j :: IsSchemeChar(b[k])
    decreases |b| - i
  {
    if i < |b| && IsSchemeChar(b[i]) then SchemeStop(b, i + 1) else i
  }

  /** The characters that may occur in an authority. */
  const AUTHORITY := ":@[]"

  function AuthorityRun(b: Bytes, i: nat): Scan
    requires i <= |b|
  {
    Run(b, i, AUTHORITY)
  }

  /** [ userinfo "@" ] host [ ":" port ]; what follows the brackets of an IP-literal is not looked at. */
  ghost function AuthorityAt(b: Bytes, scheme: View, from: nat, to: nat): (o: Outcome<Authority>)
    requires from <= to <= |b|
  {
    var at := First(b[..to], '@', from);
    var start := if at < to then at + 1 else from;
    var hostPort := b[start..to];
    if at < to && !Text(":", b[from..at]) then Invalid
    else match SplitAuthorityHostPort(hostPort)
         case None => More
         case Some((host, colon)) =>
           if !IsHost(host) then Invalid
           else if colon < |hostPort| && hostPort[colon] == ':' then
             if IsPort(hostPort[colon + 1..])
             then Done(Authority(scheme, View(start, start + colon), View(start + colon + 1, to)), to)
             else Invalid
           else Done(Authority(scheme, View(start, start + colon), NOWHERE), to)
  }

  /** Which form to expect depends on the method and the first character. */
  ghost function TargetAt(b: Bytes, name: Bytes, i: nat): (o: Outcome<Target>)
    requires i < |b|
    ensures o.Done? ==> i < o.end <= |b| && o.value.path.In(b)
  {
    if name == "CONNECT" then AuthorityFormAt(b, i)
    else if name == "OPTIONS" && b[i] == '*' then AsteriskFormAt(b, i)
    else match OriginFormAt(b, i)
         case Invalid => AbsoluteFormAt(b, i)
         case More => More
         case Done(t, e) => Done(t, e)
  }

  // ---- the version and the end of the request line

  const HTTP_VERSION := "HTTP/0.0"

  predicate FitsVersion(b: Bytes, v: nat, k: nat)
    requires k < 8 && v + k < |b|
  {
    if HTTP_VERSION[k] == '0' then IsDigit(b[v + k]) else b[v + k] == HTTP_VERSION[k]
  }

  /** SP HTTP-version CRLF */
  function VersionAt(b: Bytes, i: nat): (o: Outcome<()>)
    requires i <= |b|
    ensures o.Done? ==> i < o.end <= |b|
  {
    if i == |b| then More
    else if b[i] != ' ' then Invalid
    else
      var v := i + 1;
      var available := Min(8, |b| - v);
      if exists k | 0 <= k < available :: !FitsVersion(b, v, k) then Invalid
      else if available < 8 then More
      else if b[v + 5] != '1' || b[v + 7] != '1' then Invalid
      else if v + 8 == |b| then More
      else if b[v + 8] != '\r' then Invalid
      else if v + 9 == |b| then More
      else if b[v + 9] != '\n' then Invalid
      else Done((), v + 10)
  }

  // ---- header fields

  function ValueEnd(b: Bytes, i: nat): (j: nat)
    requires i <= |b|
    ensures i <= j <= |b| && (j < |b| ==> !IsFieldChar(b[j]))
    ensures forall k | i <= k < j :: IsFieldChar(b[k])
    decreases |b| - i
  {
    if i < |b| && IsFieldChar(b[i]) then ValueEnd(b, i + 1) else i
  }

  /** The value without the white space around it. */
  function Trimmed(b: Bytes, v: View): (w: View)
    requires v.In(b)
    ensures v.from <= w.from <= w.to <= v.to
    decreases v.to - v.from
  {
    if v.from < v.to && IsOws(b[v.from]) then Trimmed(b, View(v.from + 1, v.to))
    else if v.from < v.to && IsOws(b[v.to - 1]) then Trimmed(b, View(v.from, v.to - 1))
    else v
  }

  /** field-name ":" OWS field-value OWS CRLF */
  function FieldAt(b: Bytes, i: nat): (o: Outcome<Field>)
    requires i <= |b|
    ensures o.Done? ==> i < o.end <= |b| && o.value.name.In(b) && o.value.value.In(b)
  {
    var k := TokenEnd(b, i);
    if k == |b| then More
    else if k == i || b[k] != ':' then Invalid
    else
      var v := ValueEnd(b, k + 1);
      if v == |b| then More
      else if b[v] != '\r' then Invalid
      else if v + 1 == |b| then More
      else if b[v + 1] != '\n' then Invalid
      else Done(Field(View(i, k), Trimmed(b, View(k + 1, v))), v + 2)
  }

  function TextOf(b: Bytes, f: Field): FieldText
    requires f.name.In(b) && f.value.In(b)
  {
    FieldText(f.name.Of(b), f.value.Of(b))
  }

  /** The header section from a line that starts at `i`. */
  function FieldsAt(r: Rules, b: Bytes, i: nat, context: Context, fields: seq<Field>): (o: Outcome<(seq<Field>, Framing)>)
    requires i <= |b|
    ensures o.Done? ==> i < o.end <= |b|
    decreases |b| - i
  {
    if i == |b| then More
    else if b[i] == '\r' then
      if i + 1 == |b| then More
      else if b[i + 1] != '\n' then Invalid
      else match r.verdict(context)
           case None => Invalid
           case Some(framing) => Done((fields, framing), i + 2)
    else match FieldAt(b, i)
         case Invalid => Invalid
         case More => More
         case Done(field, j) =>
           var text := TextOf(b, field);
           if !r.accepts(context, text) then Invalid
           else FieldsAt(r, b, j, context.(fields := context.fields + [text]), fields + [field])
  }

  // ---- the whole head

  /** The index where the request target starts, once the method and the space behind it are there. */
  function MethodAt(b: Bytes): (o: Outcome<()>)
    ensures o.Done? ==> 2 <= o.end < |b|
  {
    var m := TokenEnd(b, 0);
    if b == [] then More
    else if m == 0 then Invalid
    else if m == |b| then More
    else if b[m] != ' ' then Invalid
    else if m + 1 == |b| then More
    else Done((), m + 1)
  }

  function AuthorityTexts(b: Bytes, a: Option<Authority>): Option<(Bytes, Bytes, Bytes)> {
    if a.Some? && a.value.scheme.In(b) && a.value.host.In(b) && a.value.port.In(b)
    then Some((a.value.scheme.Of(b), a.value.host.Of(b), a.value.port.Of(b)))
    else None
  }

  /** What follows the request target. */
  function RestAt(r: Rules, b: Bytes, i: nat, target: Target, e: nat): (o: Outcome<Head>)
    requires 0 < i && e <= |b|
    ensures o.Done? ==> e < o.end <= |b|
  {
    match VersionAt(b, e)
    case Invalid => Invalid
    case More => More
    case Done(_, k) =>
      match FieldsAt(r, b, k, Context(AuthorityTexts(b, target.authority), []), [])
      case Invalid => Invalid
      case More => More
      case Done((fields, framing), n) => Done(Head(View(0, i - 1), target, fields, framing), n)
  }

  ghost function HeadAt(r: Rules, b: Bytes): (o: Outcome<Head>)
    ensures o.Done? ==> 0 < o.end <= |b|
  {
    match MethodAt(b)
    case Invalid => Invalid
    case More => More
    case Done(_, i) =>
      match TargetAt(b, b[..i - 1], i)
      case Invalid => Invalid
      case More => More
      case Done(target, e) => if HasNulTriplet(target.path.Of(b)) then Invalid else RestAt(r, b, i, target, e)
  }

  // ---- the texts of fields

  function TextsIn(b: Bytes, fields: seq<Field>): seq<FieldText> {
    if fields == [] then []
    else
      var f := fields[|fields| - 1];
      TextsIn(b, fields[..|fields| - 1])
      + [if f.name.In(b) && f.value.In(b) then FieldText(f.name.Of(b), f.value.Of(b)) else FieldText([], [])]
  }

  lemma {:induction false} TextsAt(b: Bytes, fields: seq<Field>, k: nat)
    requires k < |fields| && fields[k].name.In(b) && fields[k].value.In(b)
    ensures |TextsIn(b, fields)| == |fields|
    ensures TextsIn(b, fields)[k] == FieldText(fields[k].name.Of(b), fields[k].value.Of(b))
    decreases |fields|
  {
    TextsCount(b, fields[..|fields| - 1]);
    if k < |fields| - 1 {
      TextsAt(b, fields[..|fields| - 1], k);
    }
  }

  lemma {:induction false} TextsCount(b: Bytes, fields: seq<Field>)
    ensures |TextsIn(b, fields)| == |fields|
  {
    if fields != [] {
      TextsCount(b, fields[..|fields| - 1]);
    }
  }

  lemma TextsGrow(b: Bytes, fields: seq<Field>, f: Field)
    requires f.name.In(b) && f.value.In(b)
    ensures TextsIn(b, fields + [f]) == TextsIn(b, fields) + [TextOf(b, f)]
    ensures |TextsIn(b, fields)| == |fields|
  {
    assert (fields + [f])[..|fields|] == fields;
    TextsCount(b, fields);
  }

  lemma NoTexts(b: Bytes)
    ensures TextsIn(b, []) == []
  {
  }
}
