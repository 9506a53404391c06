/**
 The request object: a copy of the head, the views of the parser moved over to the copy, and the path decoded
 in place inside it.
 */
module RequestObject {
  import opened Octets
  import opened HttpText
  import opened PercentDecode
  import opened IpAddress
  import opened UriReference
  import opened RequestHead
  import opened QueryParameters
  import opened TargetViews
  import opened HeadGrammar

  predicate Apart(v: View, w: View) { v.to <= w.from || w.to <= v.from }

  /** A view of a text of this length that decoding the path leaves alone. */
  predicate Clear(v: View, n: nat, path: View) { v.from <= v.to <= n && Apart(v, path) }

  predicate AllClear(fields: seq<Field>, n: nat, path: View) {
    forall k | 0 <= k < |fields| :: Clear(fields[k].name, n, path) && Clear(fields[k].value, n, path)
  }

  predicate OptionClear(v: Option<View>, n: nat, path: View) { v.Some? ==> Clear(v.value, n, path) }

  function OrNowhere(v: Option<View>): View { if v.Some? then v.value else NOWHERE }

  /** The kind of host that the text is; unknown if it is none. */
  ghost predicate IsKindOf(kind: HostType, host: string) {
    && (kind.Unknown? <==> !IsHost(host)) && (kind.IpLiteral? <==> IsIpLiteral(host))
    && (kind.IpV4Address? <==> IsIPv4Address(host))
  }

  class RequestObject {
    const buffer: array<Octet>
    const method_: View
    const absPath: View
    const form: Form
    const headers: seq<Field>
    const queryParameters: seq<Field>
    const host: View
    const hostPort: View
    const hostType: HostType
    const targetHost: View
    const targetPort: View
    const targetType: HostType
    const wantsConnectionClose: bool

    function Text(v: View): Bytes
      reads buffer
    {
      if v.from <= v.to <= buffer.Length then buffer[v.from..v.to] else []
    }

    /** The same names and values as in the text that was copied. */
    predicate TextsOf(fields: seq<Field>, given: seq<Field>, full: Bytes)
      reads buffer
    {
      && |fields| == |given|
      && forall k | 0 <= k < |given| ::
           && given[k].name.In(full) && Text(fields[k].name) == given[k].name.Of(full)
           && given[k].value.In(full) && Text(fields[k].value) == given[k].value.Of(full)
    }

    /** These names and values. */
    predicate ReadsAs(fields: seq<Field>, texts: seq<FieldText>)
      reads buffer
    {
      && |fields| == |texts|
      && forall k | 0 <= k < |texts| :: FieldText(Text(fields[k].name), Text(fields[k].value)) == texts[k]
    }

    lemma TextsRead(fields: seq<Field>, given: seq<Field>, b: Bytes)
      requires TextsOf(fields, given, b)
      ensures ReadsAs(fields, TextsIn(b, given))
    {
      hide Text, TextsIn;
      TextsCount(b, given);
      forall k | 0 <= k < |given| ensures FieldText(Text(fields[k].name), Text(fields[k].value)) == TextsIn(b, given)[k] {
        TextsAt(b, given, k);
      }
    }

    /** What is absent reads as empty. */
    predicate TextOrEmpty(v: View, given: Option<View>, full: Bytes)
      reads buffer
    {
      if given.Some? then given.value.In(full) && Text(v) == given.value.Of(full) else Text(v) == []
    }

    /** What the head says is what the object has, with the path decoded and the query split. */
    ghost predicate Says(said: Said)
      reads buffer
    {
      && Text(method_) == said.name && form == said.target.form && wantsConnectionClose == said.framing.close
      && Text(absPath) == Decode(said.target.path) && '\0' !in Text(absPath)
      && ReadsAs(headers, said.fields)
      && ReadsAs(queryParameters, FirstPairs(said.target.query, MAX_QUERY_PARAMETERS))
      && (match said.target.authority
          case None => Text(targetHost) == [] && Text(targetPort) == [] && targetType == Unknown
          case Some(a) => Text(targetHost) == a.1 && Text(targetPort) == a.2 && IsKindOf(targetType, a.1))
    }

    /** The views that are left alone show what they showed. */
    lemma SaysWhatIsShown(b: Bytes, head: Head)
      requires head.name.In(b) && Text(method_) == head.name.Of(b) && form == head.target.form
      requires head.target.path.In(b) && Text(absPath) == Decode(head.target.path.Of(b)) && '\0' !in Text(absPath)
      requires head.target.query.In(b) && wantsConnectionClose == head.framing.close
      requires ReadsAs(queryParameters, FirstPairs(head.target.query.Of(b), MAX_QUERY_PARAMETERS))
      requires ReadsAs(headers, TextsIn(b, head.fields))
      requires var a := head.target.authority;
               && TextOrEmpty(targetHost, if a.Some? then Some(a.value.host) else None, b)
               && TextOrEmpty(targetPort, if a.Some? then Some(a.value.port) else None, b)
               && if a.None? then targetType == Unknown else IsKindOf(targetType, Shown(b, a.value.host))
      ensures Says(SaidOf(b, head))
    {
      hide Decode, Text, ReadsAs, FirstPairs, TextsIn, IsKindOf;
    }

    lemma TextIs(v: View)
      requires v.from <= v.to <= buffer.Length
      ensures Text(v) == buffer[v.from..v.to]
    {
    }

    lemma ClearIsKept(full: Bytes, v: View, path: View)
      requires buffer.Length == |full| && path.In(full) && Clear(v, |full|, path)
      requires buffer[..path.from] == full[..path.from] && buffer[path.to..] == full[path.to..]
      ensures v.In(full) && Text(v) == v.Of(full)
    {
      KeptOutside(full, buffer[..], path, v);
    }

    ghost predicate KeepsClear(full: Bytes, path: View)
      reads buffer
    {
      forall v: View | Clear(v, |full|, path) :: v.In(full) && Text(v) == v.Of(full)
    }

    lemma TextsKept(fields: seq<Field>, full: Bytes, path: View)
      requires KeepsClear(full, path) && AllClear(fields, |full|, path)
      ensures TextsOf(fields, fields, full)
    {
      hide Clear, Text;
    }

    lemma OptionKept(v: Option<View>, full: Bytes, path: View)
      requires KeepsClear(full, path) && OptionClear(v, |full|, path)
      ensures TextOrEmpty(OrNowhere(v), v, full)
    {
      hide Clear;
    }

    lemma TextsOfWhole(fields: seq<Field>, given: seq<Field>, b: Bytes, n: nat)
      requires n <= |b| && TextsOf(fields, given, b[..n])
      ensures TextsOf(fields, given, b)
    {
      hide Text;
    }

    lemma TextOfWhole(v: View, given: Option<View>, b: Bytes, n: nat)
      requires n <= |b| && TextOrEmpty(v, given, b[..n])
      ensures TextOrEmpty(v, given, b)
    {
      hide Text;
    }

    /** All views keep their text, but the path becomes what it encodes. */
    constructor (full: Bytes, method_: View, absPath: View, form: Form, headers: seq<Field>, queryParameters: seq<Field>,
                 host: Option<View>, port: Option<View>, kind: Option<HostType>,
                 targetHost: Option<View>, targetPort: Option<View>, targetKind: Option<HostType>, close: bool)
      requires absPath.In(full) && Clear(method_, |full|, absPath)
      requires AllClear(headers, |full|, absPath) && AllClear(queryParameters, |full|, absPath)
      requires OptionClear(host, |full|, absPath) && OptionClear(port, |full|, absPath)
      requires OptionClear(targetHost, |full|, absPath) && OptionClear(targetPort, |full|, absPath)
      ensures fresh(buffer) && buffer.Length == |full|
      ensures Text(this.method_) == method_.Of(full) && this.form == form && wantsConnectionClose == close
      ensures this.absPath.from == absPath.from && Text(this.absPath) == Decode(absPath.Of(full))
      ensures TextsOf(this.headers, headers, full) && TextsOf(this.queryParameters, queryParameters, full)
      ensures TextOrEmpty(this.host, host, full) && TextOrEmpty(hostPort, port, full)
      ensures TextOrEmpty(this.targetHost, targetHost, full) && TextOrEmpty(this.targetPort, targetPort, full)
      ensures hostType == (if kind.Some? then kind.value else Unknown)
      ensures targetType == (if targetKind.Some? then targetKind.value else Unknown)
    {
      hide Decode, Clear, AllClear, OptionClear, Text, TextsOf, TextOrEmpty, Apart;
      var copy := new Octet[|full|];
      forall k | 0 <= k < |full| {
        copy[k] := full[k];
      }
      assert copy[..] == full;
      assert copy[absPath.from..absPath.to] == full[absPath.from..absPath.to];
      buffer := copy;
      this.method_, this.form := method_, form;
      var size := PercentDecodeInPlace(copy, absPath.from, absPath.to - absPath.from);
      this.absPath := View(absPath.from, absPath.from + size);
      this.headers, this.queryParameters := headers, queryParameters;
      this.host := OrNowhere(host);
      hostPort := OrNowhere(port);
      hostType := if kind.Some? then kind.value else Unknown;
      this.targetHost := OrNowhere(targetHost);
      this.targetPort := OrNowhere(targetPort);
      targetType := if targetKind.Some? then targetKind.value else Unknown;
      wantsConnectionClose := close;
      new;
      forall v: View | Clear(v, |full|, absPath) ensures v.In(full) && Text(v) == v.Of(full) {
        ClearIsKept(full, v, absPath);
      }
      assert Text(this.absPath) == Decode(absPath.Of(full)) by { TextIs(this.absPath); }
      TextsKept(headers, full, absPath);
      TextsKept(queryParameters, full, absPath);
      OptionKept(host, full, absPath);
      OptionKept(port, full, absPath);
      OptionKept(targetHost, full, absPath);
      OptionKept(targetPort, full, absPath);
    }
  }

  lemma KeptOutside(was: Bytes, now: Bytes, path: View, v: View)
    requires |was| == |now| && path.In(was) && v.In(was) && Apart(v, path)
    requires now[..path.from] == was[..path.from] && now[path.to..] == was[path.to..]
    ensures now[v.from..v.to] == was[v.from..v.to]
  {
    forall k | v.from <= k < v.to ensures now[k] == was[k] {
      if k < path.from {
        assert now[k] == now[..path.from][k];
      } else if path.to <= k {
        assert now[k] == now[path.to..][k - path.to];
      }
    }
  }

  // ---- the views of an accepted head

  lemma {:induction false} FieldsLieBehind(r: Rules, b: Bytes, i: nat, context: Context, fields: seq<Field>, path: View)
    requires i <= |b| && path.to <= i && AllClear(fields, i, path)
    ensures var o := FieldsAt(r, b, i, context, fields); o.Done? ==> AllClear(o.value.0, o.end, path)
    decreases |b| - i
  {
    hide FieldAt, TextOf;
    if i < |b| && b[i] != '\r' {
      var o := FieldAt(b, i);
      if o.Done? && r.accepts(context, TextOf(b, o.value)) {
        var text := TextOf(b, o.value);
        FieldLiesBehind(b, i);
        FieldsLieBehind(r, b, o.end, context.(fields := context.fields + [text]), fields + [o.value], path);
      }
    }
  }

  lemma FieldLiesBehind(b: Bytes, i: nat)
    requires i <= |b| && FieldAt(b, i).Done?
    ensures var f, n := FieldAt(b, i).value, FieldAt(b, i).end;
            i <= f.name.from <= f.name.to <= n && i <= f.value.from <= f.value.to <= n
  {
  }

  predicate AuthorityClear(a: Option<Authority>, n: nat, path: View) {
    a.Some? ==> Clear(a.value.scheme, n, path) && Clear(a.value.host, n, path) && Clear(a.value.port, n, path)
  }

  /** Every view of an accepted head lies apart from its path, so decoding the path leaves it alone. */
  lemma HeadViewsApart(r: Rules, b: Bytes)
    requires HeadAt(r, b).Done?
    ensures var head, n := HeadAt(r, b).value, HeadAt(r, b).end;
            var path := head.target.path;
            && path.from <= path.to <= n && Clear(head.name, n, path) && Clear(head.target.query, n, path)
            && AuthorityClear(head.target.authority, n, path) && AllClear(head.fields, n, path)
  {
    hide MethodAt, TargetAt, FieldsAt, VersionAt, HasNulTriplet, Clear, AllClear, AuthorityClear;
    var i, n := MethodAt(b).end, HeadAt(r, b).end;
    var target := TargetAt(b, b[..i - 1], i);
    var path := target.value.path;
    TargetViewsApart(b, b[..i - 1], i);
    NameIsClear(i, n, path);
    WiderIsClear(target.value.query, target.end, n, path);
    WiderAuthority(target.value.authority, target.end, n, path);
    FieldsLieBehind(r, b, VersionAt(b, target.end).end, Context(AuthorityTexts(b, target.value.authority), []), [],
                    target.value.path);
  }

  lemma NameIsClear(i: nat, n: nat, path: View)
    requires 0 < i <= n && (path == NOWHERE || i <= path.from)
    ensures Clear(View(0, i - 1), n, path) && forall k: nat :: AllClear([], k, path)
  {
  }

  lemma WiderIsClear(v: View, m: nat, n: nat, path: View)
    requires Clear(v, m, path) && m <= n
    ensures Clear(v, n, path)
  {
  }

  lemma WiderAuthority(a: Option<Authority>, m: nat, n: nat, path: View)
    requires AuthorityClear(a, m, path) && m <= n
    ensures AuthorityClear(a, n, path)
  {
  }

  lemma TargetViewsApart(b: Bytes, name: Bytes, i: nat)
    requires i < |b| && TargetAt(b, name, i).Done?
    ensures var o := TargetAt(b, name, i); var t := o.value;
            && (t.path == NOWHERE || i <= t.path.from) && t.path.from <= t.path.to <= o.end
            && Clear(t.query, o.end, t.path) && AuthorityClear(t.authority, o.end, t.path)
  {
    hide Run, AuthorityFormAt, AbsoluteFormAt, Clear, AuthorityClear, QueryAt;
    AuthorityFormApart(b, i);
    AbsoluteFormApart(b, i);
    OriginFormApart(b, i);
    NothingClear(i + 1, NOWHERE);
  }

  predicate IsApart(t: Target, i: nat, end: nat) {
    && (t.path == NOWHERE || i <= t.path.from) && t.path.from <= t.path.to <= end
    && Clear(t.query, end, t.path) && AuthorityClear(t.authority, end, t.path)
  }

  lemma NothingClear(n: nat, path: View)
    requires path.from <= path.to
    ensures Clear(NOWHERE, n, path) && AuthorityClear(None, n, path)
  {
  }

  lemma OriginFormApart(b: Bytes, i: nat)
    requires i < |b|
    ensures OriginFormAt(b, i).Done? ==> IsApart(OriginFormAt(b, i).value, i, OriginFormAt(b, i).end)
  {
    hide Run;
  }

  lemma AuthorityFormApart(b: Bytes, i: nat)
    requires i < |b|
    ensures AuthorityFormAt(b, i).Done? ==> IsApart(AuthorityFormAt(b, i).value, i, AuthorityFormAt(b, i).end)
  {
    hide IsHost, SplitAuthorityHostPort, DigitsEnd;
  }

  lemma AbsoluteFormApart(b: Bytes, i: nat)
    requires i < |b|
    ensures AbsoluteFormAt(b, i).Done? ==> IsApart(AbsoluteFormAt(b, i).value, i, AbsoluteFormAt(b, i).end)
  {
    hide Run, IsHost, SplitAuthorityHostPort, QueryAt, UriReference.Text, SchemeStop;
  }

  /** The decoded path of an accepted request has no NUL. */
  lemma PathHasNoNul(r: Rules, b: Bytes)
    requires HeadAt(r, b).Done?
    ensures '\0' !in Decode(HeadAt(r, b).value.target.path.Of(b))
  {
    hide TargetAt, VersionAt, FieldsAt, HasNulTriplet, Decode;
    var i := MethodAt(b).end;
    var path := TargetAt(b, b[..i - 1], i).value.path.Of(b);
    PathIsText(b, b[..i - 1], i);
    NulTripletMeansNul(path);
  }

  lemma PathIsText(b: Bytes, name: Bytes, i: nat)
    requires i < |b| && TargetAt(b, name, i).Done?
    ensures '\0' !in TargetAt(b, name, i).value.path.Of(b)
  {
    hide OriginFormAt, AbsoluteFormAt, IsHost, SplitAuthorityHostPort, DigitsEnd;
    var path := TargetAt(b, name, i).value.path;
    if name == "CONNECT" || (name == "OPTIONS" && b[i] == '*') {
      assert path == NOWHERE;
      assert path.Of(b) == [];
    } else if OriginFormAt(b, i).Done? {
      OriginPathIsText(b, i);
      assert path == OriginFormAt(b, i).value.path;
    } else {
      AbsolutePathIsText(b, i);
      assert path == AbsoluteFormAt(b, i).value.path;
    }
  }

  lemma OriginPathIsText(b: Bytes, i: nat)
    requires i < |b| && OriginFormAt(b, i).Done?
    ensures '\0' !in OriginFormAt(b, i).value.path.Of(b)
  {
    hide Run, QueryAt;
    RunHasNoNul(b, i + 1, PATH);
    var at := Run(b, i + 1, PATH).at;
    assert b[i..at] == [b[i]] + b[i + 1..at];
  }

  lemma AbsolutePathIsText(b: Bytes, i: nat)
    requires i < |b| && AbsoluteFormAt(b, i).Done?
    ensures '\0' !in AbsoluteFormAt(b, i).value.path.Of(b)
  {
    hide Run, QueryAt, AuthorityRun, AuthorityAt, SchemeStop;
    RunHasNoNul(b, AbsoluteFormAt(b, i).value.path.from, PATH);
  }

  lemma {:induction false} RunHasNoNul(b: Bytes, i: nat, extra: string)
    requires i <= |b| && Run(b, i, extra).Stop? && '\0' !in extra
    ensures '\0' !in b[i..Run(b, i, extra).at]
    decreases |b| - i
  {
    if i < |b| && (b[i] == '%' || Allowed(extra, b[i])) {
      var n := if b[i] == '%' then 3 else 1;
      var at := Run(b, i, extra).at;
      RunHasNoNul(b, i + n, extra);
      assert b[i..at] == b[i..i + n] + b[i + n..at];
    }
  }

  predicate PartOfSomeValue(v: Option<View>, fields: seq<Field>) {
    v.Some? ==> exists k | 0 <= k < |fields| :: LiesIn(v.value, fields[k].value)
  }

  lemma PartsAreClear(v: View, w: View, n: nat, path: View)
    requires LiesIn(v, w) && Clear(w, n, path)
    ensures Clear(v, n, path)
  {
  }

  lemma ShownInFront(b: Bytes, n: nat, v: View)
    requires n <= |b| && v.In(b[..n])
    ensures Shown(b, v) == v.Of(b[..n])
  {
  }

  /**
   An accepted head becomes a request object: the query is split into its parameters, host and port have been taken
   from the value of a header field. The path is the decoded one and has no NUL, everything else reads as it was
   received.
   */
  method MountRequest(r: Rules, b: Bytes, head: Head, n: nat, host: Option<View>, port: Option<View>,
                      kind: Option<HostType>) returns (request: RequestObject)
    requires HeadAt(r, b) == Done(head, n)
    requires PartOfSomeValue(host, head.fields) && PartOfSomeValue(port, head.fields)
    ensures fresh(request) && IsHead(r, b[..n], SaidOf(b, head)) && request.Says(SaidOf(b, head))
    ensures request.TextOrEmpty(request.host, host, b) && request.TextOrEmpty(request.hostPort, port, b)
  {
    hide HeadAt, Decode, Clear, AllClear, LiesIn, IsHost, IsIpLiteral, IsIPv4Address, FirstPairs, RequestObject.ReadsAs,
         RequestObject.TextsOf, RequestObject.TextOrEmpty, RequestObject.Text, RequestObject.Says, SaidOf, IsHead, Shown,
         TextsIn;
    HeadViewsApart(r, b);
    PathHasNoNul(r, b);
    var full := b[..n];
    var path := head.target.path;
    ClearIsIn(head.target.query, n, path);
    var parameters := SplitQueryParameters(b, head.target.query, MAX_QUERY_PARAMETERS);
    PartsOfHead(head, n, parameters, host, port);
    var a := head.target.authority;
    var targetHost, targetPort, targetKind := None, None, None;
    if a.Some? {
      ClearAuthority(a, b, n, path);
      var k := CheckUriHost(a.value.host.Of(full));
      assert IsKindOf(k, Shown(b, a.value.host)) by { ShownInFront(b, n, a.value.host); }
      targetHost, targetPort, targetKind := Some(a.value.host), Some(a.value.port), Some(k);
    }
    request := new RequestObject(full, head.name, path, head.target.form, head.fields, parameters, host, port, kind,
                                 targetHost, targetPort, targetKind, head.framing.close);
    ClearIsIn(head.name, n, path);
    assert path.Of(full) == path.Of(b) && head.name.Of(full) == head.name.Of(b);
    request.TextsOfWhole(request.headers, head.fields, b, n);
    request.TextsOfWhole(request.queryParameters, parameters, b, n);
    request.TextsRead(request.queryParameters, parameters, b);
    request.TextsRead(request.headers, head.fields, b);
    request.TextOfWhole(request.host, host, b, n);
    request.TextOfWhole(request.hostPort, port, b, n);
    request.TextOfWhole(request.targetHost, targetHost, b, n);
    request.TextOfWhole(request.targetPort, targetPort, b, n);
    HeadExactly(r, b, n, SaidOf(b, head));
    request.SaysWhatIsShown(b, head);
  }

  lemma ClearIsIn(v: View, n: nat, path: View)
    requires Clear(v, n, path)
    ensures v.from <= v.to <= n
  {
  }

  lemma ClearAuthority(a: Option<Authority>, b: Bytes, n: nat, path: View)
    requires AuthorityClear(a, n, path) && n <= |b| && a.Some?
    ensures OptionClear(Some(a.value.host), n, path) && OptionClear(Some(a.value.port), n, path)
    ensures a.value.host.In(b[..n])
  {
  }

  lemma PartsOfHead(head: Head, n: nat, parameters: seq<Field>, host: Option<View>, port: Option<View>)
    requires Clear(head.target.query, n, head.target.path) && AllClear(head.fields, n, head.target.path)
    requires forall k | 0 <= k < |parameters| ::
               LiesIn(parameters[k].name, head.target.query) && LiesIn(parameters[k].value, head.target.query)
    requires PartOfSomeValue(host, head.fields) && PartOfSomeValue(port, head.fields)
    ensures AllClear(parameters, n, head.target.path)
    ensures OptionClear(host, n, head.target.path) && OptionClear(port, n, head.target.path)
  {
    hide Clear, LiesIn;
    var path := head.target.path;
    forall k | 0 <= k < |parameters| ensures Clear(parameters[k].name, n, path) && Clear(parameters[k].value, n, path) {
      PartsAreClear(parameters[k].name, head.target.query, n, path);
      PartsAreClear(parameters[k].value, head.target.query, n, path);
    }
    PartOfValueIsClear(host, head.fields, n, path);
    PartOfValueIsClear(port, head.fields, n, path);
  }

  lemma PartOfValueIsClear(v: Option<View>, fields: seq<Field>, n: nat, path: View)
    requires PartOfSomeValue(v, fields) && AllClear(fields, n, path)
    ensures OptionClear(v, n, path)
  {
    hide Clear, LiesIn;
    if v.Some? {
      var k :| 0 <= k < |fields| && LiesIn(v.value, fields[k].value);
      PartsAreClear(v.value, fields[k].value, n, path);
    }
  }
}
