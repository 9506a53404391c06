/**
 Which heads the decoder waits for in vain: whatever follows, more bytes are asked for.
 */
module EndlessHead {
  import opened Octets
  import opened HttpText
  import opened IpAddress
  import opened UriReference
  import opened PercentDecode
  import opened RequestHead
  import opened Scanning
  import opened AbsoluteForm
  import opened HeadStability
  import opened Rejection

  /** Well-formed user information, if there is an "@", and behind it a bracket that is not closed. */
  predicate OpensBracket(t: Bytes) {
    var at := First(t, '@', 0);
    var h := if at == |t| then t else t[at + 1..];
    (at < |t| ==> Text(":", t[..at])) && h != [] && h[0] == '[' && ']' !in h
  }

  /** The authority of the target is over, and opens a bracket that it does not close. */
  predicate IsUnclosed(b: Bytes) {
    HasAuthority(b) &&
      var s := AuthorityStart(b, MethodAt(b).end).value;
      var run := AuthorityRun(b, s);
      run.Stop? && run.at < |b| && OpensBracket(b[s..run.at])
  }

  lemma SplitFails(h: string)
    ensures SplitAuthorityHostPort(h).None? <==> h != [] && h[0] == '[' && ']' !in h
  {
    if h != [] && h[0] == '[' {
      var k := First(h, ']', 0);
      assert k < |h| ==> h[k] in h;
    }
  }

  lemma AuthorityMoreOnText(b: Bytes, scheme: View, from: nat, to: nat)
    requires from <= to <= |b|
    ensures AuthorityAt(b, scheme, from, to).More? <==> OpensBracket(b[from..to])
  {
    hide IsHost, Text, SplitAuthorityHostPort, IsPort, First;
    var t := b[from..to];
    var at, here := First(b[..to], '@', from), First(t, '@', 0);
    assert here == at - from by {
      assert forall k | 0 <= k < |t| :: t[k] == b[..to][from + k];
      assert at < to ==> b[..to][at] == t[at - from];
    }
    if at < to {
      assert t[..here] == b[from..at] && t[here + 1..] == b[at + 1..to];
    }
    SplitFails(if here == |t| then t else t[here + 1..]);
  }

  /** No byte that follows matters any more. */
  lemma UnclosedWaits(r: Rules, b: Bytes, d: Bytes)
    requires b <= d && IsUnclosed(b)
    ensures HeadAt(r, d).More?
  {
    hide MethodAt, AuthorityStart, AbsoluteFormAt, TargetAt, AuthorityAt, Run, PathAndQueryAt, RestAt, HasNulTriplet,
         OpensBracket;
    MethodStable(b, d);
    var i := MethodAt(b).end;
    var s := AuthorityStart(b, i).value;
    StartStable(b, d, i);
    StartsWithAlpha(d, i);
    TargetIs(d, d[..i - 1], i);
    WithAuthority(d, i);
    RunStable(b, d, s, AUTHORITY);
    var a := AuthorityRun(b, s).at;
    assert d[s..a] == b[s..a];
    AuthorityMoreOnText(d, View(i, s - 3), s, a);
  }

  // ---- every other head can be spoilt

  const NULS: Bytes := ['\0', '\0']

  lemma {:induction false} RunMeetsNul(b: Bytes, i: nat, extra: string)
    requires i <= |b| && '\0' !in extra
    ensures Run(b, i, extra).Cut? ==> Run(b + NULS, i, extra).Bad?
    ensures Run(b, i, extra).Stop? ==> Run(b + NULS, i, extra) == Run(b, i, extra)
    decreases |b| - i
  {
    if i < |b| {
      if b[i] == '%' {
        if i + 2 < |b| && IsHexDigit(b[i + 1]) && IsHexDigit(b[i + 2]) {
          RunMeetsNul(b, i + 3, extra);
        }
      } else if Allowed(extra, b[i]) {
        RunMeetsNul(b, i + 1, extra);
      }
    }
  }

  /** What needed more bytes is rejected, and what was done is done. */
  predicate Spoils<T(==)>(o: Outcome<T>, p: Outcome<T>) { (o.More? ==> p.Invalid?) && (o.Done? ==> p == o) }

  lemma QueryMeetsNul(b: Bytes, p: nat)
    requires p <= |b|
    ensures Spoils(QueryAt(b, p), QueryAt(b + NULS, p))
  {
    hide Run;
    if p < |b| {
      RunMeetsNul(b, p + 1, QUERY);
    }
  }

  lemma PathAndQueryMeetsNul(b: Bytes, from: nat, authority: Option<Authority>)
    requires from <= |b|
    ensures Spoils(PathAndQueryAt(b, from, authority), PathAndQueryAt(b + NULS, from, authority))
  {
    hide Run, QueryAt;
    RunMeetsNul(b, from, PATH);
    var s := Run(b, from, PATH);
    if s.Stop? {
      QueryMeetsNul(b, s.at);
    }
  }

  lemma OriginMeetsNul(b: Bytes, i: nat)
    requires i < |b|
    ensures Spoils(OriginFormAt(b, i), OriginFormAt(b + NULS, i))
  {
    hide Run, QueryAt;
    RunMeetsNul(b, i + 1, PATH);
    var s := Run(b, i + 1, PATH);
    if s.Stop? {
      QueryMeetsNul(b, s.at);
    }
  }

  lemma WithAuthorityMeetsNul(b: Bytes, i: nat)
    requires AuthorityStart(b, i).Some?
    ensures var s := AuthorityStart(b, i).value; var run := AuthorityRun(b, s);
            || Spoils(AbsoluteFormAt(b, i), AbsoluteFormAt(b + NULS, i))
            || (run.Stop? && AuthorityAt(b, View(i, s - 3), s, run.at).More?)
  {
    hide AbsoluteFormAt, AuthorityAt, Run, PathAndQueryAt, AuthorityStart;
    var d := b + NULS;
    StartStable(b, d, i);
    WithAuthority(b, i);
    WithAuthority(d, i);
    var s := AuthorityStart(b, i).value;
    RunMeetsNul(b, s, AUTHORITY);
    var run := AuthorityRun(b, s);
    if run.Stop? {
      AuthorityStable(b, d, View(i, s - 3), s, run.at);
      var o := AuthorityAt(b, View(i, s - 3), s, run.at);
      if o.Done? {
        PathAndQueryMeetsNul(b, run.at, Some(o.value));
      }
    }
  }

  lemma AbsoluteMeetsNul(b: Bytes, i: nat)
    requires i < |b|
    ensures || Spoils(AbsoluteFormAt(b, i), AbsoluteFormAt(b + NULS, i))
            || (AuthorityStart(b, i).Some? &&
                 var s := AuthorityStart(b, i).value; var run := AuthorityRun(b, s);
                 run.Stop? && AuthorityAt(b, View(i, s - 3), s, run.at).More?)
  {
    hide AuthorityAt, Run, PathAndQueryAt, SchemeStop;
    var d := b + NULS;
    if AuthorityStart(b, i).Some? {
      hide AuthorityStart;
      WithAuthorityMeetsNul(b, i);
    } else if IsAlpha(b[i]) {
      SchemeStable(b, d, i + 1);
      var k := SchemeStop(b, i + 1);
      if k == |b| {
        SchemeMeetsNul(b, i + 1);
      } else if b[k] == ':' {
        PathAndQueryMeetsNul(b, k + 1, None);
      }
    }
  }

  lemma SchemeMeetsNul(b: Bytes, i: nat)
    requires i <= |b| && SchemeStop(b, i) == |b|
    ensures SchemeStop(b + NULS, i) == |b|
  {
    SchemeStable(b, b + NULS, i);
    assert (b + NULS)[|b|] == '\0';
  }

  lemma AuthorityFormMeetsNul(b: Bytes, i: nat)
    requires i < |b| && AuthorityFormAt(b, i).Done?
    ensures AuthorityFormAt(b + NULS, i) == AuthorityFormAt(b, i)
  {
    hide IsHost, SplitAuthorityHostPort;
    var d := b + NULS;
    var sv, dv := b[i..], d[i..];
    assert sv <= dv && forall k | 0 <= k < |sv| :: sv[k] == dv[k];
    SplitStable(sv, dv);
    assert d[|b|] == '\0';
    DigitsStable(b, d, i + SplitAuthorityHostPort(sv).value.1 + 1);
  }

  lemma TargetMeetsNul(b: Bytes, name: Bytes, i: nat)
    requires i < |b| && TargetAt(b, name, i).Done?
    ensures TargetAt(b + NULS, name, i) == TargetAt(b, name, i)
  {
    hide AuthorityFormAt, OriginFormAt, AbsoluteFormAt, TargetAt, AuthorityStart, AuthorityAt, Run;
    var d := b + NULS;
    TargetIs(b, name, i);
    TargetIs(d, name, i);
    if name == "CONNECT" {
      AuthorityFormMeetsNul(b, i);
    } else if b[i] == '/' {
      OriginMeetsNul(b, i);
    } else if IsAlpha(b[i]) {
      AbsoluteMeetsNul(b, i);
      if AuthorityStart(b, i).Some? {
        WithAuthority(b, i);
      }
    }
  }

  lemma VersionMeetsNul(b: Bytes, i: nat)
    requires i <= |b|
    ensures Spoils(VersionAt(b, i), VersionAt(b + NULS, i))
  {
    var d := b + NULS;
    VersionStable(b, d, i);
    assert d[|b|] == '\0';
    if VersionAt(b, i).More? && i < |b| && |b| < i + 9 {
      assert !FitsVersion(d, i + 1, |b| - i - 1);
    }
  }

  lemma FieldMeetsNul(b: Bytes, i: nat)
    requires i <= |b| && FieldAt(b, i).More?
    ensures FieldAt(b + NULS, i).Invalid?
  {
    hide TokenEnd, ValueEnd, Trimmed;
    var d := b + NULS;
    TokenMeetsNul(b, i);
    var k := TokenEnd(b, i);
    if k < |b| {
      ValueMeetsNul(b, k + 1);
    }
  }

  lemma TokenMeetsNul(b: Bytes, i: nat)
    requires i <= |b|
    ensures TokenEnd(b + NULS, i) == TokenEnd(b, i)
  {
    TokenStable(b, b + NULS, i);
    assert (b + NULS)[|b|] == '\0';
  }

  lemma ValueMeetsNul(b: Bytes, i: nat)
    requires i <= |b|
    ensures ValueEnd(b + NULS, i) == ValueEnd(b, i)
  {
    var d := b + NULS;
    var j, k := ValueEnd(b, i), ValueEnd(d, i);
    assert forall m | i <= m < j :: IsFieldChar(b[m]) && b[m] == d[m];
    assert !IsFieldChar(d[j]);
  }

  lemma {:induction false} FieldsMeetNul(r: Rules, b: Bytes, i: nat, context: Context, fields: seq<Field>)
    requires i <= |b| && FieldsAt(r, b, i, context, fields).More?
    ensures FieldsAt(r, b + NULS, i, context, fields).Invalid?
    decreases |b| - i
  {
    hide FieldAt, TextOf;
    var d := b + NULS;
    if i == |b| {
      NulIsNoField(b);
    } else if b[i] != '\r' {
      FieldStable(b, d, i);
      var o := FieldAt(b, i);
      if o.More? {
        FieldMeetsNul(b, i);
      } else {
        var text := TextOf(b, o.value);
        FieldsMeetNul(r, b, o.end, context.(fields := context.fields + [text]), fields + [o.value]);
      }
    }
  }

  lemma NulIsNoField(b: Bytes)
    ensures FieldAt(b + NULS, |b|).Invalid?
  {
  }

  lemma RestMeetsNul(r: Rules, b: Bytes, i: nat, target: Target, e: nat)
    requires 0 < i && e <= |b| && Within(target.authority, b) && RestAt(r, b, i, target, e).More?
    ensures RestAt(r, b + NULS, i, target, e).Invalid?
  {
    hide VersionAt, FieldsAt;
    var d := b + NULS;
    VersionMeetsNul(b, e);
    if target.authority.Some? {
      ViewStable(b, d, target.authority.value.scheme);
      ViewStable(b, d, target.authority.value.host);
      ViewStable(b, d, target.authority.value.port);
    }
    if VersionAt(b, e).Done? {
      FieldsMeetNul(r, b, VersionAt(b, e).end, Context(AuthorityTexts(b, target.authority), []), []);
    }
  }

  /** A head whose target is complete. */
  lemma CompleteTargetCanFail(r: Rules, b: Bytes)
    requires HeadAt(r, b).More? && MethodAt(b).Done?
    requires var i := MethodAt(b).end; TargetAt(b, b[..i - 1], i).Done?
    ensures HeadAt(r, b + NULS).Invalid?
  {
    hide MethodAt, TargetAt, RestAt, HasNulTriplet;
    var d := b + NULS;
    MethodStable(b, d);
    var i := MethodAt(b).end;
    var t := TargetAt(b, b[..i - 1], i);
    TargetMeetsNul(b, b[..i - 1], i);
    ViewStable(b, d, t.value.path);
    TargetWithin(b, b[..i - 1], i);
    RestMeetsNul(r, b, i, t.value, t.end);
  }

  // ---- targets that are still coming in

  /** "/:]" is no continuation of a host, nor of a bracket. */
  lemma AuthorityFormCanFail(b: Bytes, i: nat)
    requires i < |b| && AuthorityFormAt(b, i).More?
    ensures AuthorityFormAt(b + "/:]", i).Invalid?
  {
    hide IsHost, AuthorityFormAt;
    var d := b + "/:]";
    var sv, dv := b[i..], d[i..];
    assert dv == sv + "/:]" && forall k | 0 <= k < |sv| :: dv[k] == sv[k];
    var n := |sv|;
    assert dv[n] == '/' && dv[n + 1] == ':' && dv[n + 2] == ']';
    if sv[0] == '[' && First(sv, ']', 0) < n {
      FirstStable(sv, dv, ']');
      assert dv[..First(sv, ']', 0) + 1] == sv[..First(sv, ']', 0) + 1];
      SlashFails(b, d, i);
    } else {
      if sv[0] == '[' {
        FirstIs(dv, ']', n + 2);
      } else {
        NoColonYet(b, i);
        FirstIs(dv, ':', n + 1);
      }
      var host := SplitAuthorityHostPort(dv).value.0;
      SlashIsNoHost(host, n);
      HostFails(d, i);
    }
  }

  lemma NoColonYet(b: Bytes, i: nat)
    requires i < |b| && AuthorityFormAt(b, i).More? && b[i] != '['
    ensures First(b[i..], ':', 0) == |b| - i
  {
    hide IsHost, First, DigitsEnd;
  }

  lemma HostFails(d: Bytes, i: nat)
    requires i < |d| && SplitAuthorityHostPort(d[i..]).Some? && !IsHost(SplitAuthorityHostPort(d[i..]).value.0)
    requires d[i] != '[' ==> SplitAuthorityHostPort(d[i..]).value.1 < |d| - i
    ensures AuthorityFormAt(d, i).Invalid?
  {
    hide IsHost, SplitAuthorityHostPort, DigitsEnd;
  }

  lemma SlashFails(b: Bytes, d: Bytes, i: nat)
    requires i < |b| && AuthorityFormAt(b, i).More? && d == b + "/:]"
    requires SplitAuthorityHostPort(b[i..]).Some? && SplitAuthorityHostPort(d[i..]) == SplitAuthorityHostPort(b[i..])
    ensures AuthorityFormAt(d, i).Invalid?
  {
    hide IsHost, SplitAuthorityHostPort, DigitsEnd;
    assert d[|b|] == '/';
  }

  lemma SlashIsNoHost(host: string, k: nat)
    requires k < |host| && host[k] == '/'
    ensures !IsHost(host)
  {
    hide IsHost;
    if IsHost(host) {
      HostAlphabet(host);
    }
  }

  /** A bracket that is closed and followed by a port that is none. */
  lemma BracketedPort(h: Bytes)
    requires h != [] && h[0] == '[' && ']' !in h
    ensures IsBadHostPort(h + "]:z")
  {
    hide IsHost;
    var g := h + "]:z";
    assert forall k | 0 <= k < |h| :: g[k] == h[k] && h[k] in h;
    FirstIs(g, ']', |h|);
    assert g[|h| + 2..] == "z" && "z"[0] == 'z';
  }

  lemma BracketCanFail(t: Bytes)
    requires OpensBracket(t)
    ensures IsBadAuthority(t + "]:z")
  {
    hide IsBadHostPort, Text;
    var u := t + "]:z";
    var at := First(t, '@', 0);
    var h := if at == |t| then t else t[at + 1..];
    BracketedPort(h);
    assert forall k | 0 <= k < |t| :: u[k] == t[k];
    FirstIs(u, '@', if at == |t| then |u| else at);
    if at < |t| {
      assert u[..at] == t[..at] && u[at + 1..] == h + "]:z";
    }
  }

  lemma OpenAuthorityCanFail(b: Bytes, i: nat)
    requires AuthorityRunsOn(b, i)
    requires var s := AuthorityStart(b, i).value; AuthorityAt(b, View(i, s - 3), s, |b|).More?
    ensures AbsoluteFormAt(b + "]:z ", i).Invalid?
  {
    hide AbsoluteFormAt, AuthorityAt, Run, PathAndQueryAt, AuthorityStart, OpensBracket, IsBadAuthority;
    var d := b + "]:z ";
    var s := AuthorityStart(b, i).value;
    StartStable(b, d, i);
    WithAuthority(d, i);
    RunGoesOn(b, d, s, AUTHORITY);
    RunOver(d, |b|, |b| + 3, AUTHORITY);
    AuthorityMoreOnText(b, View(i, s - 3), s, |b|);
    assert b[s..|b|] == b[s..];
    BracketCanFail(b[s..]);
    assert d[s..|b| + 3] == b[s..] + "]:z";
    AuthorityOnText(d, View(i, s - 3), s, |b| + 3);
  }

  lemma MethodCanFail(r: Rules, b: Bytes)
    requires MethodAt(b).More?
    ensures HeadAt(r, b + "\0\0:]").Invalid?
  {
    hide TargetAt;
    var d := b + "\0\0:]";
    TokenStable(b, d, 0);
    var m := TokenEnd(b, 0);
    assert d[|b|] == '\0';
    if m < |b| {
      NulIsNoTarget(d, d[..m], m + 1);
    }
  }

  lemma NulIsNoTarget(d: Bytes, name: Bytes, i: nat)
    requires i + 4 == |d| && d[i..] == "\0\0:]"
    ensures TargetAt(d, name, i).Invalid?
  {
    hide IsHost;
    var sv := d[i..];
    assert d[i] == sv[0];
    TargetIs(d, name, i);
    FirstIs(sv, ':', 2);
    assert sv[..2][0] == '\0';
    NulIsNoHost(sv[..2]);
  }

  lemma NulIsNoHost(host: string)
    requires host != [] && host[0] == '\0'
    ensures !IsHost(host)
  {
    hide IsIPv4Address, IsIPv6Address, IsIPvFuture, Text;
    if IsIPv4Address(host) {
      IPv4Run(host);
    }
    if Text("", host) {
      TextAlphabet("", host);
    }
  }

  lemma TargetCanFail(r: Rules, b: Bytes) returns (d: Bytes)
    requires MethodAt(b).Done? && !IsUnclosed(b)
    requires var i := MethodAt(b).end; TargetAt(b, b[..i - 1], i).More?
    ensures b <= d && HeadAt(r, d).Invalid?
  {
    hide MethodAt, TargetAt, AuthorityFormAt, OriginFormAt, AbsoluteFormAt, AuthorityStart, AuthorityAt, Run, RestAt,
         HasNulTriplet, OpensBracket;
    var i := MethodAt(b).end;
    var name := b[..i - 1];
    TargetIs(b, name, i);
    if name == "CONNECT" {
      d := b + "/:]";
      AuthorityFormCanFail(b, i);
    } else if b[i] == '/' {
      d := b + NULS;
      OriginMeetsNul(b, i);
    } else {
      AbsoluteMeetsNul(b, i);
      if Spoils(AbsoluteFormAt(b, i), AbsoluteFormAt(b + NULS, i)) {
        d := b + NULS;
      } else {
        var s := AuthorityStart(b, i).value;
        AuthorityMoreOnText(b, View(i, s - 3), s, AuthorityRun(b, s).at);
        d := b + "]:z ";
        OpenAuthorityCanFail(b, i);
      }
    }
    MethodStable(b, d);
    assert d[..i - 1] == name;
    TargetIs(d, name, i);
  }

  /**
   Which heads wait for ever, exactly, whatever the rules: those whose authority is over and has opened a bracket that
   it did not close.  Every other head can be completed or rejected by what follows.
   */
  lemma WaitsForEver(r: Rules, b: Bytes)
    ensures (forall d | b <= d :: HeadAt(r, d).More?) <==> IsUnclosed(b)
  {
    hide MethodAt, TargetAt, RestAt, HasNulTriplet, IsUnclosed;
    if IsUnclosed(b) {
      forall d | b <= d ensures HeadAt(r, d).More? {
        UnclosedWaits(r, b, d);
      }
    } else if HeadAt(r, b).More? {
      var d;
      if MethodAt(b).More? {
        d := b + "\0\0:]";
        MethodCanFail(r, b);
      } else {
        var i := MethodAt(b).end;
        if TargetAt(b, b[..i - 1], i).More? {
          d := TargetCanFail(r, b);
        } else {
          d := b + NULS;
          CompleteTargetCanFail(r, b);
        }
      }
      assert b <= d && HeadAt(r, d).Invalid?;
    }
  }

  /** GET h://[x, with a space behind it. */
  lemma WaitsForABracket(r: Rules)
    ensures IsUnclosed("GET h://[x ") && forall d | "GET h://[x " <= d :: HeadAt(r, d).More?
  {
    hide Run, Text, HeadAt, MethodAt;
    var b: Bytes := "GET h://[x ";
    GetTarget(b);
    assert SchemeStop(b, 5) == 5 && AuthorityStart(b, 4) == Some(8);
    RunOver(b, 8, 10, AUTHORITY);
    var t := b[8..10];
    assert t == "[x";
    FirstIs(t, '@', 2);
    assert OpensBracket(t);
    WaitsForEver(r, b);
  }
}
