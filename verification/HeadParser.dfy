/**
 The loops that read a request head, each against the function that says what it reads.
 */
module HeadParser {
  import opened Octets
  import opened HttpText
  import opened IpAddress
  import opened UriReference
  import opened PercentDecode
  import opened RequestHead

  // ---- request targets

  /** The loop over pchar-like characters and triplets, wherever one is cut off by the end of the data. */
  method ScanRun(b: Bytes, from: nat, extra: string) returns (s: Scan)
    requires from <= |b|
    ensures s == Run(b, from, extra)
  {
    var i := from;
    while i < |b|
      invariant from <= i <= |b| && Run(b, from, extra) == Run(b, i, extra)
    {
      if b[i] == '%' {
        if i + 2 >= |b| {
          return Cut;
        }
        if !IsHexDigit(b[i + 1]) || !IsHexDigit(b[i + 2]) {
          return Bad;
        }
        i := i + 3;
        continue;
      }
      if !Allowed(extra, b[i]) {
        break;
      }
      i := i + 1;
    }
    return Stop(i);
  }

  method TryToDeserializeAsAuthorityForm(b: Bytes, from: nat) returns (o: Outcome<Target>)
    requires from <= |b|
    ensures o == AuthorityFormAt(b, from)
  {
    hide IsHost;
    var sv := b[from..];
    if sv == [] {
      return More;
    }
    var split := SplitAuthorityHostPort(sv);
    if split.None? {
      return More;
    }
    var colonAt := split.value.1;
    if sv[0] != '[' && colonAt == |sv| {
      return More;
    }
    var kind := CheckUriHost(split.value.0);
    if kind.Unknown? {
      return Invalid;
    }
    if colonAt >= |sv| {
      return More;
    }
    if sv[colonAt] != ':' {
      return Invalid;
    }
    var start := from + colonAt + 1;
    var i := start;
    while i < |b| && IsDigit(b[i])
      invariant start <= i <= |b| && DigitsEnd(b, start) == DigitsEnd(b, i)
    {
      i := i + 1;
    }
    var authority := Authority(NOWHERE, View(from, from + colonAt), View(start, i));
    return Done(Target(AuthorityForm, NOWHERE, NOWHERE, Some(authority)), i);
  }

  method TryToDeserializeAsAsteriskForm(b: Bytes, from: nat) returns (o: Outcome<Target>)
    requires from <= |b|
    ensures o == AsteriskFormAt(b, from)
  {
    if from == |b| {
      return More;
    }
    if b[from] != '*' {
      return Invalid;
    }
    return Done(Target(AsteriskForm, NOWHERE, NOWHERE, None), from + 1);
  }

  function OutcomeOf(s: Scan, from: nat): Outcome<View> {
    match s case Bad => Invalid case Cut => More case Stop(at) => Done(View(from, at), at)
  }

  method TryToDeserializeAsAbsolutePath(b: Bytes, from: nat) returns (o: Outcome<View>)
    requires from <= |b|
    ensures o == if from == |b| then More
                 else if b[from] != '/' then Invalid
                 else OutcomeOf(Run(b, from + 1, PATH), from)
  {
    if from == |b| {
      return More;
    }
    if b[from] != '/' {
      return Invalid;
    }
    var s := ScanRun(b, from + 1, PATH);
    return OutcomeOf(s, from);
  }

  method TryToDeserializeAsQuery(b: Bytes, from: nat) returns (o: Outcome<View>)
    requires from <= |b|
    ensures o == OutcomeOf(Run(b, from, QUERY), from)
  {
    var s := ScanRun(b, from, QUERY);
    return OutcomeOf(s, from);
  }

  method TryToDeserializeAsOriginForm(b: Bytes, from: nat) returns (o: Outcome<Target>)
    requires from <= |b|
    ensures o == OriginFormAt(b, from)
  {
    hide Run;
    var path := TryToDeserializeAsAbsolutePath(b, from);
    match path {
      case Invalid => return Invalid;
      case More => return More;
      case Done(view, i) =>
        if i < |b| && b[i] == '?' {
          var query := TryToDeserializeAsQuery(b, i + 1);
          match query {
            case Invalid => return Invalid;
            case More => return More;
            case Done(q, j) => return Done(Target(OriginForm, view, q, None), j);
          }
        }
        return Done(Target(OriginForm, view, View(i, i), None), i);
    }
  }

  /** Triplets have been checked with the whole authority, so they are skipped here. */
  method CheckUserinfo(b: Bytes, from: nat, at: nat, end: nat) returns (ok: bool)
    requires from <= at < end <= |b| && b[at] == '@' && AuthorityRun(b, from) == Stop(end)
    ensures ok <==> Text(":", b[from..at])
  {
    hide Text;
    var j := from;
    while j < at
      invariant from <= j <= at && Run(b, j, AUTHORITY) == Stop(end)
      invariant Text(":", b[from..at]) <==> Text(":", b[j..at])
    {
      TextStep(":", b, j, at);
      if b[j] == '%' {
        assert j + 3 <= at by { assert !IsHexDigit(b[at]); }
        j := j + 3;
        continue;
      }
      if !IsUnreserved(b[j]) && !IsSubDelim(b[j]) && b[j] != ':' {
        return false;
      }
      j := j + 1;
    }
    assert b[at..at] == [];
    EmptyText(":");
    return true;
  }

  method CheckAuthority(b: Bytes, scheme: View, from: nat, to: nat) returns (o: Outcome<Authority>)
    requires from <= to <= |b| && AuthorityRun(b, from) == Stop(to)
    ensures o == AuthorityAt(b, scheme, from, to)
  {
    hide IsHost, Text, Run;
    var at := First(b[..to], '@', from);
    var start := from;
    if at < to {
      var ok := CheckUserinfo(b, from, at, to);
      if !ok {
        return Invalid;
      }
      start := at + 1;
    }
    var hostPort := b[start..to];
    var split := SplitAuthorityHostPort(hostPort);
    if split.None? {
      return More;
    }
    var colonAt := split.value.1;
    var kind := CheckUriHost(split.value.0);
    if kind.Unknown? {
      return Invalid;
    }
    var port := NOWHERE;
    if colonAt < |hostPort| && hostPort[colonAt] == ':' {
      var ok := IsPortText(hostPort[colonAt + 1..]);
      if !ok {
        return Invalid;
      }
      port := View(start + colonAt + 1, to);
    }
    return Done(Authority(scheme, View(start, start + colonAt), port), to);
  }

  method TryToDeserializeAsAbsoluteForm(b: Bytes, from: nat) returns (o: Outcome<Target>)
    requires from <= |b|
    ensures o == AbsoluteFormAt(b, from)
  {
    hide AuthorityAt, Run;
    if from == |b| {
      return More;
    }
    if !IsAlpha(b[from]) {
      return Invalid;
    }
    var i := from + 1;
    while i < |b| && b[i] != ':'
      invariant from < i <= |b| && SchemeStop(b, from + 1) == SchemeStop(b, i)
    {
      if !IsSchemeChar(b[i]) {
        return Invalid;
      }
      i := i + 1;
    }
    if i >= |b| {
      return More;
    }
    var scheme := View(from, i);
    i := i + 1;
    var authority := None;
    if i + 1 < |b| && b[i] == '/' && b[i + 1] == '/' {
      var s := ScanRun(b, i + 2, AUTHORITY);
      match s {
        case Bad => return Invalid;
        case Cut => return More;
        case Stop(end) =>
          var a := CheckAuthority(b, scheme, i + 2, end);
          match a {
            case Invalid => return Invalid;
            case More => return More;
            case Done(value, _) =>
              authority := Some(value);
              i := end;
          }
      }
    }
    o := FinishAbsoluteForm(b, i, authority);
  }

  method FinishAbsoluteForm(b: Bytes, from: nat, authority: Option<Authority>) returns (o: Outcome<Target>)
    requires from <= |b|
    ensures o == PathAndQueryAt(b, from, authority)
  {
    hide Run;
    var path := ScanRun(b, from, PATH);
    match path {
      case Bad => return Invalid;
      case Cut => return More;
      case Stop(i) =>
        if i < |b| && b[i] == '?' {
          var query := TryToDeserializeAsQuery(b, i + 1);
          match query {
            case Invalid => return Invalid;
            case More => return More;
            case Done(q, j) => return Done(Target(AbsoluteForm, View(from, i), q, authority), j);
          }
        }
        return Done(Target(AbsoluteForm, View(from, i), View(i, i), authority), i);
    }
  }

  method ParseTarget(b: Bytes, name: Bytes, from: nat) returns (o: Outcome<Target>)
    requires from < |b|
    ensures o == TargetAt(b, name, from)
  {
    hide AuthorityFormAt, OriginFormAt, AbsoluteFormAt;
    if name == "CONNECT" {
      o := TryToDeserializeAsAuthorityForm(b, from);
    } else if name == "OPTIONS" && b[from] == '*' {
      o := TryToDeserializeAsAsteriskForm(b, from);
    } else {
      o := TryToDeserializeAsOriginForm(b, from);
      if o.Invalid? {
        o := TryToDeserializeAsAbsoluteForm(b, from);
      }
    }
  }

  // ---- the rest of the request line

  method ParseVersion(b: Bytes, from: nat) returns (o: Outcome<()>)
    requires from <= |b|
    ensures o == VersionAt(b, from)
  {
    if from >= |b| {
      return More;
    }
    if b[from] != ' ' {
      return Invalid;
    }
    var i := from + 1;
    var available := Min(8, |b| - i);
    var versionIndex := 0;
    while versionIndex < available
      invariant versionIndex <= available && forall k | 0 <= k < versionIndex :: FitsVersion(b, i, k)
    {
      var expected := HTTP_VERSION[versionIndex];
      if (expected == '0' && !IsDigit(b[i + versionIndex])) || (expected != '0' && b[i + versionIndex] != expected) {
        assert !FitsVersion(b, i, versionIndex);
        return Invalid;
      }
      versionIndex := versionIndex + 1;
    }
    if available < 8 {
      return More;
    }
    if b[i + 5] != '1' || b[i + 7] != '1' {
      return Invalid;
    }
    i := i + 8;
    if i >= |b| {
      return More;
    }
    if b[i] != '\r' {
      return Invalid;
    }
    if i + 1 >= |b| {
      return More;
    }
    if b[i + 1] != '\n' {
      return Invalid;
    }
    return Done((), i + 2);
  }

  // ---- header fields

  method OwsTrim(b: Bytes, v: View) returns (w: View)
    requires v.In(b)
    ensures w == Trimmed(b, v)
  {
    var from, to := v.from, v.to;
    while from < to && IsOws(b[from])
      invariant v.from <= from <= to && Trimmed(b, v) == Trimmed(b, View(from, to))
    {
      from := from + 1;
    }
    while from < to && IsOws(b[to - 1])
      invariant from <= to <= v.to && Trimmed(b, v) == Trimmed(b, View(from, to))
      invariant from < to ==> !IsOws(b[from])
    {
      to := to - 1;
    }
    return View(from, to);
  }

  /** The part of a header line behind the field name. */
  method ParseValue(b: Bytes, start: nat, colon: nat) returns (o: Outcome<Field>)
    requires start < colon < |b| && b[colon] == ':' && TokenEnd(b, start) == colon
    ensures o == FieldAt(b, start)
    ensures o.Done? ==> colon < o.end
  {
    hide IsFieldChar, Trimmed;
    var i := colon + 1;
    while i < |b|
      invariant colon < i <= |b| && ValueEnd(b, colon + 1) == ValueEnd(b, i)
    {
      if b[i] == '\r' {
        break;
      }
      if !IsVchar(b[i]) && !IsObsText(b[i]) && !IsOws(b[i]) {
        NotInValue(b[i]);
        return Invalid;
      }
      IsInValue(b[i]);
      i := i + 1;
    }
    NotInValue('\r');
    if i + 1 >= |b| {
      return More;
    }
    if b[i] != '\r' || b[i + 1] != '\n' {
      return Invalid;
    }
    var value := OwsTrim(b, View(colon + 1, i));
    return Done(Field(View(start, colon), value), i + 2);
  }

  lemma IsInValue(c: char)
    requires IsVchar(c) || IsObsText(c) || IsOws(c)
    ensures IsFieldChar(c)
  {
  }

  lemma NotInValue(c: char)
    requires !IsVchar(c) && !IsObsText(c) && !IsOws(c)
    ensures !IsFieldChar(c)
  {
  }

  method ParseFields(r: Rules, b: Bytes, from: nat, context0: Context) returns (o: Outcome<(seq<Field>, Framing)>)
    requires from <= |b|
    ensures o == FieldsAt(r, b, from, context0, [])
  {
    hide FieldAt;
    var fieldNameDecoded := false;
    var fnStart, i := from, from;
    var context, fields := context0, [];
    while i < |b|
      invariant from <= fnStart <= i <= |b|
      invariant FieldsAt(r, b, from, context0, []) == FieldsAt(r, b, fnStart, context, fields)
      invariant TokenEnd(b, fnStart) == TokenEnd(b, i)
      invariant forall k | fnStart <= k < i :: IsTchar(b[k])
      invariant fieldNameDecoded ==> fnStart < i < |b| && b[i] == ':'
      decreases |b| - i, if fieldNameDecoded then 0 else 1
    {
      if !fieldNameDecoded {
        if b[i] == '\r' {
          if i != fnStart {
            FieldIsInvalid(b, fnStart, i);
            return Invalid;
          }
          if i + 1 >= |b| {
            return More;
          }
          if b[i + 1] != '\n' {
            return Invalid;
          }
          var framing := r.verdict(context);
          return match framing case None => Invalid case Some(f) => Done((fields, f), i + 2);
        }
        if b[i] == '\n' {
          FieldIsInvalid(b, fnStart, i);
          return Invalid;
        }
        if b[i] != ':' {
          if !IsTchar(b[i]) {
            FieldIsInvalid(b, fnStart, i);
            return Invalid;
          }
          i := i + 1;
        } else {
          if i == fnStart {
            FieldIsInvalid(b, fnStart, i);
            return Invalid;
          }
          fieldNameDecoded := true;
        }
        continue;
      }
      var field := ParseValue(b, fnStart, i);
      match field {
        case Invalid => return Invalid;
        case More => return More;
        case Done(value, j) =>
          var text := TextOf(b, value);
          if !r.accepts(context, text) {
            return Invalid;
          }
          context, fields := context.(fields := context.fields + [text]), fields + [value];
          i, fnStart := j, j;
          fieldNameDecoded := false;
      }
    }
    FieldIsIncomplete(b, fnStart);
    return More;
  }

  /** A line whose name ends in anything but a colon. */
  lemma FieldIsInvalid(b: Bytes, start: nat, i: nat)
    requires start <= i < |b| && TokenEnd(b, start) == TokenEnd(b, i) && !IsTchar(b[i]) && (b[i] != ':' || i == start)
    ensures FieldAt(b, start).Invalid?
  {
  }

  lemma FieldIsIncomplete(b: Bytes, start: nat)
    requires start <= |b| && TokenEnd(b, start) == |b|
    ensures FieldAt(b, start).More?
  {
  }

  // ---- the whole head

  method ConsumeToken(b: Bytes) returns (m: nat)
    ensures m == TokenEnd(b, 0)
  {
    m := 0;
    while m < |b| && IsTchar(b[m])
      invariant m <= |b| && TokenEnd(b, 0) == TokenEnd(b, m)
    {
      m := m + 1;
    }
  }

  method ParseHead(r: Rules, sv: Bytes) returns (o: Outcome<Head>)
    ensures o == HeadAt(r, sv)
  {
    hide TargetAt, VersionAt, FieldsAt, HasNulTriplet, TokenEnd;
    if sv == [] {
      return More;
    }
    var i := ConsumeToken(sv);
    if i == 0 {
      return Invalid;
    }
    var name := sv[..i];
    if i >= |sv| {
      return More;
    }
    if sv[i] != ' ' {
      return Invalid;
    }
    i := i + 1;
    if i >= |sv| {
      return More;
    }
    var target := ParseTarget(sv, name, i);
    match target {
      case Invalid => return Invalid;
      case More => return More;
      case Done(t, e) =>
        var ok := PercentDecodeValidate(t.path.Of(sv));
        if !ok {
          return Invalid;
        }
        o := ParseRest(r, sv, i, t, e);
    }
  }

  method ParseRest(r: Rules, sv: Bytes, i: nat, target: Target, e: nat) returns (o: Outcome<Head>)
    requires 0 < i && e <= |sv|
    ensures o == RestAt(r, sv, i, target, e)
  {
    hide VersionAt, FieldsAt;
    var version := ParseVersion(sv, e);
    match version {
      case Invalid => return Invalid;
      case More => return More;
      case Done(_, k) =>
        var fields := ParseFields(r, sv, k, Context(AuthorityTexts(sv, target.authority), []));
        match fields {
          case Invalid => return Invalid;
          case More => return More;
          case Done(pair, n) => return Done(Head(View(0, i - 1), target, pair.0, pair.1), n);
        }
    }
  }
}
