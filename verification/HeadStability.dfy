/**
 What more bytes can change about the head of a request. A complete head stays what it is. A rejection stays a
 rejection unless the target still runs to the end of the data: then it may be that a NUL in the path was seen
 too early, or that user information was taken for a host and a port.
 */
module HeadStability {
  import opened Octets
  import opened HttpText
  import opened IpAddress
  import opened UriReference
  import opened PercentDecode
  import opened RequestHead
  import opened Scanning
  import opened AbsoluteForm

  // ---- targets

  /** The same of a step that ends in a delimiter, and so never leans on the end of the data. */
  predicate Settled<T(==)>(o: Outcome<T>, p: Outcome<T>, b: Bytes) {
    && (o.Invalid? ==> p.Invalid?)
    && (o.Done? ==> p == o)
    && (o.More? && p.Done? ==> |b| < p.end)
  }

  lemma SplitStable(b: Bytes, d: Bytes)
    requires b <= d && b != []
    requires var s := SplitAuthorityHostPort(b); s.Some? && (b[0] == '[' || s.value.1 < |b|)
    ensures SplitAuthorityHostPort(d) == SplitAuthorityHostPort(b)
  {
    var c := if b[0] == '[' then ']' else ':';
    FirstStable(b, d, c);
    var n := SplitAuthorityHostPort(b).value.1;
    assert d[..n] == b[..n];
  }

  lemma SplitGrows(b: Bytes, d: Bytes)
    requires b <= d && b != []
    requires var s := SplitAuthorityHostPort(b); s.None? || s.value.1 == |b|
    ensures var s := SplitAuthorityHostPort(d); s.Some? ==> |b| <= s.value.1
  {
    assert forall m | 0 <= m < |b| :: d[m] == b[m];
  }

  lemma AuthorityFormStable(b: Bytes, d: Bytes, i: nat)
    requires b <= d && i < |b|
    ensures Kept(AuthorityFormAt(b, i), AuthorityFormAt(d, i), b)
  {
    hide IsHost, SplitAuthorityHostPort, DigitsEnd;
    var sv, dv := b[i..], d[i..];
    var split := SplitAuthorityHostPort(sv);
    assert sv <= dv && forall k | 0 <= k < |sv| :: sv[k] == dv[k];
    if split.None? || split.value.1 == |sv| {
      SplitGrows(sv, dv);
    }
    if split.Some? && (sv[0] == '[' || split.value.1 < |sv|) {
      SplitStable(sv, dv);
      var colon := split.value.1;
      if colon < |sv| {
        DigitsStable(b, d, i + colon + 1);
      }
    }
  }

  lemma OriginFormStable(b: Bytes, d: Bytes, i: nat)
    requires b <= d && i < |b|
    ensures Kept(OriginFormAt(b, i), OriginFormAt(d, i), b)
  {
    hide Run;
    if b[i] == '/' {
      RunStable(b, d, i + 1, PATH);
      var s := Run(b, i + 1, PATH);
      if s.Stop? && s.at < |b| {
        QueryStable(b, d, s.at);
      }
    }
  }

  /** Which form it is, once the first character is known. */
  lemma TargetIs(b: Bytes, name: Bytes, i: nat)
    requires i < |b|
    ensures name == "CONNECT" ==> TargetAt(b, name, i) == AuthorityFormAt(b, i)
    ensures name != "CONNECT" && b[i] == '/' ==> TargetAt(b, name, i) == OriginFormAt(b, i)
    ensures name != "CONNECT" && IsAlpha(b[i]) ==> TargetAt(b, name, i) == AbsoluteFormAt(b, i)
    ensures name != "CONNECT" && b[i] != '/' && !IsAlpha(b[i]) ==>
              TargetAt(b, name, i) == if name == "OPTIONS" then AsteriskFormAt(b, i) else Invalid
  {
    hide AuthorityFormAt, Run, AuthorityAt, PathAndQueryAt, SchemeStop;
  }

  lemma TargetStable(b: Bytes, d: Bytes, name: Bytes, i: nat)
    requires b <= d && i < |b|
    ensures || Kept(TargetAt(b, name, i), TargetAt(d, name, i), b)
            || (TargetAt(b, name, i).Invalid? && name != "CONNECT" && AuthorityRunsOn(b, i))
  {
    hide AuthorityFormAt, OriginFormAt, AbsoluteFormAt, TargetAt, AuthorityRunsOn;
    TargetIs(b, name, i);
    TargetIs(d, name, i);
    if name == "CONNECT" {
      AuthorityFormStable(b, d, i);
    } else if b[i] == '/' {
      OriginFormStable(b, d, i);
    } else if IsAlpha(b[i]) {
      AbsoluteFormStable(b, d, i);
    }
  }

  /** The parts of the authority lie before the index where the target ends. */
  predicate Within(a: Option<Authority>, b: Bytes) {
    a.Some? ==> a.value.scheme.In(b) && a.value.host.In(b) && a.value.port.In(b)
  }

  lemma TargetWithin(b: Bytes, name: Bytes, i: nat)
    requires i < |b|
    ensures TargetAt(b, name, i).Done? ==> Within(TargetAt(b, name, i).value.authority, b)
  {
    hide Run, AuthorityFormAt, AbsoluteFormAt, Within;
    AuthorityFormWithin(b, i);
    AbsoluteFormWithin(b, i);
    NothingWithin(b);
  }

  lemma NothingWithin(b: Bytes)
    ensures Within(None, b)
  {
  }

  lemma AuthorityFormWithin(b: Bytes, i: nat)
    requires i <= |b|
    ensures AuthorityFormAt(b, i).Done? ==> Within(AuthorityFormAt(b, i).value.authority, b)
  {
    hide IsHost, SplitAuthorityHostPort, DigitsEnd;
  }

  lemma AbsoluteFormWithin(b: Bytes, i: nat)
    requires i <= |b|
    ensures AbsoluteFormAt(b, i).Done? ==> Within(AbsoluteFormAt(b, i).value.authority, b)
  {
    hide Run, IsHost, SplitAuthorityHostPort, Text, IsPort, First;
  }

  // ---- version and fields

  lemma VersionStable(b: Bytes, d: Bytes, i: nat)
    requires b <= d && i <= |b|
    ensures Settled(VersionAt(b, i), VersionAt(d, i), b)
  {
    if i < |b| && b[i] == ' ' {
      var v := i + 1;
      var have, will := Min(8, |b| - v), Min(8, |d| - v);
      assert forall k | 0 <= k < have :: FitsVersion(d, v, k) == FitsVersion(b, v, k);
      if k :| 0 <= k < have && !FitsVersion(b, v, k) {
        assert !FitsVersion(d, v, k);
      }
    }
  }

  lemma FieldStable(b: Bytes, d: Bytes, i: nat)
    requires b <= d && i <= |b|
    ensures Settled(FieldAt(b, i), FieldAt(d, i), b)
    ensures FieldAt(b, i).Done? ==> TextOf(d, FieldAt(b, i).value) == TextOf(b, FieldAt(b, i).value)
  {
    hide TokenEnd, ValueEnd, Trimmed;
    TokenStable(b, d, i);
    var k := TokenEnd(b, i);
    if k < |b| {
      ValueStable(b, d, k + 1);
      var v := ValueEnd(b, k + 1);
      TrimmedStable(b, d, View(k + 1, v));
    }
    if FieldAt(b, i).Done? {
      ViewStable(b, d, FieldAt(b, i).value.name);
      ViewStable(b, d, FieldAt(b, i).value.value);
    }
  }

  lemma ViewStable(b: Bytes, d: Bytes, v: View)
    requires b <= d && v.In(b)
    ensures v.In(d) && v.Of(d) == v.Of(b)
  {
  }

  lemma {:induction false} FieldsStable(r: Rules, b: Bytes, d: Bytes, i: nat, context: Context, fields: seq<Field>)
    requires b <= d && i <= |b|
    ensures Settled(FieldsAt(r, b, i, context, fields), FieldsAt(r, d, i, context, fields), b)
    decreases |b| - i
  {
    hide FieldAt, TextOf;
    if i < |b| && b[i] != '\r' {
      FieldStable(b, d, i);
      var o := FieldAt(b, i);
      if o.Done? && r.accepts(context, TextOf(b, o.value)) {
        var text := TextOf(b, o.value);
        FieldsStable(r, b, d, o.end, context.(fields := context.fields + [text]), fields + [o.value]);
      }
    }
  }

  lemma MethodStable(b: Bytes, d: Bytes)
    requires b <= d
    ensures MethodAt(b).Invalid? ==> MethodAt(d).Invalid?
    ensures MethodAt(b).Done? ==> MethodAt(d) == MethodAt(b) && d[..MethodAt(b).end - 1] == b[..MethodAt(b).end - 1]
    ensures MethodAt(b).More? && MethodAt(d).Done? ==> |b| <= MethodAt(d).end
  {
    TokenStable(b, d, 0);
  }

  lemma RestStable(r: Rules, b: Bytes, d: Bytes, i: nat, target: Target, e: nat)
    requires b <= d && 0 < i && e <= |b| && Within(target.authority, b)
    ensures Settled(RestAt(r, b, i, target, e), RestAt(r, d, i, target, e), b)
  {
    hide VersionAt, FieldsAt;
    VersionStable(b, d, e);
    if target.authority.Some? {
      ViewStable(b, d, target.authority.value.scheme);
      ViewStable(b, d, target.authority.value.host);
      ViewStable(b, d, target.authority.value.port);
    }
    if VersionAt(b, e).Done? {
      FieldsStable(r, b, d, VersionAt(b, e).end, Context(AuthorityTexts(b, target.authority), []), []);
    }
  }

  lemma AtEnd(r: Rules, b: Bytes, i: nat, target: Target)
    requires 0 < i
    ensures RestAt(r, b, i, target, |b|).More?
  {
  }

  // ---- NUL in the path

  lemma NulStep(b: Bytes, i: nat, j: nat)
    requires i < j <= |b|
    ensures HasNulTriplet(b[i..j]) <==>
            if b[i] == '%' && i + 2 < j && IsHexDigit(b[i + 1]) && IsHexDigit(b[i + 2])
            then Decoded(b, i) == '\0' || HasNulTriplet(b[i + 3..j])
            else HasNulTriplet(b[i + 1..j])
  {
    var s := b[i..j];
    assert s[1..] == b[i + 1..j];
    if i + 2 < j {
      assert s[3..] == b[i + 3..j];
    }
  }

  /** A NUL that the run has passed stays passed. */
  lemma {:induction false} NulStays(b: Bytes, d: Bytes, i: nat, extra: string)
    requires b <= d && i <= |b| && HasNulTriplet(b[i..Reach(b, i, extra)])
    ensures HasNulTriplet(d[i..Reach(d, i, extra)])
    decreases |b| - i
  {
    hide HasNulTriplet;
    var j, k := Reach(b, i, extra), Reach(d, i, extra);
    NoNul(b, i);
    if i < j {
      NulStep(b, i, j);
      NulStep(d, i, k);
      if b[i] == '%' {
        if Decoded(b, i) != '\0' {
          NulStays(b, d, i + 3, extra);
        }
      } else {
        NulStays(b, d, i + 1, extra);
      }
    }
  }

  lemma NoNul(b: Bytes, i: nat)
    requires i <= |b|
    ensures !HasNulTriplet(b[i..i])
  {
  }

  lemma EmptyPath(b: Bytes, v: View)
    requires v.In(b) && v.from == v.to
    ensures !HasNulTriplet(v.Of(b))
  {
  }

  lemma NulTakesThree(s: Bytes)
    requires HasNulTriplet(s)
    ensures |s| >= 3
  {
  }

  /** Where the path starts, once that is certain. */
  ghost function PathStart(b: Bytes, name: Bytes, i: nat): (p: Option<nat>)
    requires i < |b|
    ensures p.Some? ==> p.value <= |b|
  {
    if name == "CONNECT" then None
    else if b[i] == '/' then Some(i)
    else if !IsAlpha(b[i]) then None
    else
      var k := SchemeStop(b, i + 1);
      if k == |b| || b[k] != ':' then None
      else if SlashesAt(b, k + 1) then
        var run := AuthorityRun(b, k + 3);
        if run.Stop? && run.at < |b| && AuthorityAt(b, View(i, k), k + 3, run.at).Done? then Some(run.at) else None
      else Some(k + 1)
  }

  /** What has been received of the path stands for a NUL. */
  ghost predicate NulPending(b: Bytes) {
    var o := MethodAt(b);
    o.Done? && NulIn(b, PathStart(b, b[..o.end - 1], o.end))
  }

  predicate NulIn(b: Bytes, p: Option<nat>) {
    p.Some? && p.value <= |b| && HasNulTriplet(b[p.value..Reach(b, p.value, PATH)])
  }

  lemma PathStartStable(b: Bytes, d: Bytes, name: Bytes, i: nat)
    requires b <= d && i < |b| && NulIn(b, PathStart(b, name, i))
    ensures PathStart(d, name, i) == PathStart(b, name, i)
  {
    hide HasNulTriplet, Reach, Run, AuthorityAt, SchemeStop;
    var p := PathStart(b, name, i).value;
    NulTakesThree(b[p..Reach(b, p, PATH)]);
    if b[i] != '/' {
      SchemeStable(b, d, i + 1);
      var k := SchemeStop(b, i + 1);
      if SlashesAt(b, k + 1) {
        RunStable(b, d, k + 3, AUTHORITY);
        AuthorityStable(b, d, View(i, k), k + 3, p);
      }
    }
  }

  lemma NulPendingStays(b: Bytes, d: Bytes)
    requires b <= d && NulPending(b)
    ensures NulPending(d)
  {
    hide HasNulTriplet, Reach, MethodAt, PathStart;
    MethodStable(b, d);
    var i := MethodAt(b).end;
    PathStartStable(b, d, b[..i - 1], i);
    NulStays(b, d, PathStart(b, b[..i - 1], i).value, PATH);
  }

  /** The path of an accepted target is what has been passed. */
  lemma PathIsReach(b: Bytes, name: Bytes, i: nat)
    requires i < |b| && TargetAt(b, name, i).Done?
    ensures var path := TargetAt(b, name, i).value.path;
            match PathStart(b, name, i)
            case Some(p) => path == View(p, Reach(b, p, PATH))
            case None => path.In(b) && path.from == path.to
  {
    hide Run, Reach, AuthorityAt, SchemeStop, AuthorityFormAt, QueryAt;
    TargetIs(b, name, i);
    if name == "CONNECT" {
      AuthorityFormHasNoPath(b, i);
    } else if b[i] == '/' {
      SlashGoesOn(b, i);
    }
  }

  lemma AuthorityFormHasNoPath(b: Bytes, i: nat)
    requires i <= |b| && AuthorityFormAt(b, i).Done?
    ensures AuthorityFormAt(b, i).value.path == NOWHERE
  {
    hide IsHost, SplitAuthorityHostPort, DigitsEnd;
  }

  lemma SlashGoesOn(b: Bytes, i: nat)
    requires i < |b| && b[i] == '/'
    ensures Reach(b, i, PATH) == Reach(b, i + 1, PATH) && Run(b, i, PATH) == Run(b, i + 1, PATH)
  {
  }

  /** The origin form reads as path and query of the absolute form do. */
  lemma OriginIsPathAndQuery(b: Bytes, i: nat)
    requires i < |b| && b[i] == '/'
    ensures var o, p := OriginFormAt(b, i), PathAndQueryAt(b, i, None);
            (o.More? <==> p.More?) && (o.Done? <==> p.Done?) && (o.Done? ==> o.end == p.end)
  {
    hide Run, QueryAt;
    SlashGoesOn(b, i);
  }

  /** The check on the decoded path is the check on what has been passed. */
  lemma NulInTarget(b: Bytes)
    requires MethodAt(b).Done?
    ensures var i := MethodAt(b).end; var o := TargetAt(b, b[..i - 1], i);
            o.Done? ==> (HasNulTriplet(o.value.path.Of(b)) <==> NulPending(b))
  {
    hide HasNulTriplet, Reach, MethodAt, TargetAt, PathStart;
    var i := MethodAt(b).end;
    if TargetAt(b, b[..i - 1], i).Done? {
      PathIsReach(b, b[..i - 1], i);
      var path := TargetAt(b, b[..i - 1], i).value.path;
      if path.from == path.to {
        EmptyPath(b, path);
      }
    }
  }

  // ---- user information

  /** The target has an authority, as far as it has been received. */
  predicate HasAuthority(b: Bytes) {
    var o := MethodAt(b);
    o.Done? && b[..o.end - 1] != "CONNECT" && AuthorityStart(b, o.end).Some?
  }

  function ReceivedAuthority(b: Bytes): Bytes
    requires HasAuthority(b)
  {
    AuthoritySoFar(b, MethodAt(b).end)
  }

  /** What has been received of the authority is rejected when nothing comes behind it. */
  ghost predicate AuthorityBroken(b: Bytes) { HasAuthority(b) && IsBadAuthority(ReceivedAuthority(b)) }

  /** User information, if there is any, would pass for a host and a port. */
  ghost predicate IsPlain(b: Bytes) {
    HasAuthority(b) ==>
      var t := ReceivedAuthority(b);
      var at := First(t, '@', 0);
      at < |t| ==> !IsBadHostPort(t[..at])
  }

  lemma ReceivedGrows(b: Bytes, d: Bytes)
    requires b <= d && HasAuthority(b)
    ensures HasAuthority(d) && MethodAt(d) == MethodAt(b)
    ensures ReceivedAuthority(b) <= ReceivedAuthority(d) && Text(AUTHORITY, ReceivedAuthority(b))
  {
    hide MethodAt, AuthorityStart, AuthoritySoFar, Text;
    MethodStable(b, d);
    SoFarGrows(b, d, MethodAt(b).end);
  }

  lemma PlainStays(b: Bytes, d: Bytes)
    requires b <= d && IsPlain(d)
    ensures IsPlain(b)
  {
    hide HasAuthority, ReceivedAuthority, IsBadHostPort, Text;
    if HasAuthority(b) {
      ReceivedGrows(b, d);
      var t, u := ReceivedAuthority(b), ReceivedAuthority(d);
      var at := First(t, '@', 0);
      if at < |t| {
        FirstStable(t, u, '@');
        assert u[..at] == t[..at];
      }
    }
  }

  lemma BrokenStays(b: Bytes, d: Bytes)
    requires b <= d && AuthorityBroken(b) && IsPlain(d)
    ensures AuthorityBroken(d)
  {
    hide HasAuthority, ReceivedAuthority, IsBadHostPort, IsBadAuthority, Text;
    ReceivedGrows(b, d);
    BadAuthorityStays(ReceivedAuthority(b), ReceivedAuthority(d));
  }

  /** A broken authority is no part of a complete target. */
  lemma BrokenIsRejected(b: Bytes)
    requires AuthorityBroken(b)
    ensures MethodAt(b).Done?
    ensures var i := MethodAt(b).end; var o := TargetAt(b, b[..i - 1], i);
            !o.Done? && (AuthorityRunsOn(b, i) ==> o.Invalid?)
  {
    hide MethodAt, AuthorityStart, TargetAt, AbsoluteFormAt, AuthorityAt, Reach, Run, IsBadAuthority, PathAndQueryAt;
    var i := MethodAt(b).end;
    var s := AuthorityStart(b, i).value;
    StartsWithAlpha(b, i);
    TargetIs(b, b[..i - 1], i);
    WithAuthority(b, i);
    var run := AuthorityRun(b, s);
    if run.Stop? {
      AuthorityOnText(b, View(i, s - 3), s, run.at);
    }
  }

  lemma StartsWithAlpha(b: Bytes, i: nat)
    requires AuthorityStart(b, i).Some?
    ensures i < |b| && IsAlpha(b[i]) && b[i] != '/'
  {
  }

  /** A rejected target with its authority at the end of the data has a broken authority. */
  lemma RunsOnBroken(b: Bytes)
    requires MethodAt(b).Done?
    requires var i := MethodAt(b).end;
             b[..i - 1] != "CONNECT" && AuthorityRunsOn(b, i) && TargetAt(b, b[..i - 1], i).Invalid?
    ensures AuthorityBroken(b)
  {
    hide MethodAt, AuthorityStart, TargetAt, AbsoluteFormAt, AuthorityAt, Reach, Run, IsBadAuthority, PathAndQueryAt;
    var i := MethodAt(b).end;
    var s := AuthorityStart(b, i).value;
    StartsWithAlpha(b, i);
    TargetIs(b, b[..i - 1], i);
    WithAuthority(b, i);
    AuthorityOnText(b, View(i, s - 3), s, |b|);
    var o := AuthorityAt(b, View(i, s - 3), s, |b|);
    if o.Done? {
      PathAtEnd(b, Some(o.value));
    }
  }

  // ---- the head

  /** What more bytes leave unchanged. */
  lemma HeadStable(r: Rules, b: Bytes, d: Bytes)
    requires b <= d
    ensures HeadAt(r, b).Done? ==> HeadAt(r, d) == HeadAt(r, b)
    ensures HeadAt(r, b).Invalid? ==> HeadAt(r, d).Invalid? || NulPending(b) || AuthorityBroken(b)
    ensures HeadAt(r, b).More? && HeadAt(r, d).Done? ==> |b| < HeadAt(r, d).end
  {
    hide TargetAt, RestAt, HasNulTriplet, NulPending, MethodAt, AuthorityBroken, AuthorityRunsOn;
    MethodStable(b, d);
    if MethodAt(b).Done? {
      var i := MethodAt(b).end;
      TargetStable(b, d, b[..i - 1], i);
      NulInTarget(b);
      var t := TargetAt(b, b[..i - 1], i);
      if t.Done? && t.end < |b| {
        ViewStable(b, d, t.value.path);
        TargetWithin(b, b[..i - 1], i);
        RestStable(r, b, d, i, t.value, t.end);
      } else if t.Done? {
        AtEnd(r, b, i, t.value);
      } else if t.Invalid? && b[..i - 1] != "CONNECT" && AuthorityRunsOn(b, i) {
        RunsOnBroken(b);
      }
    }
  }

  // ---- heads that will be rejected sooner or later

  /** Whatever follows, as long as it is plain, this is never a complete head. */
  ghost predicate IsDoomedHead(b: Bytes) { IsPlain(b) && (NulPending(b) || AuthorityBroken(b)) }

  lemma DoomedHeadStays(b: Bytes, d: Bytes)
    requires b <= d && IsDoomedHead(b) && IsPlain(d)
    ensures IsDoomedHead(d)
  {
    hide NulPending, AuthorityBroken, IsPlain;
    if NulPending(b) {
      NulPendingStays(b, d);
    } else {
      BrokenStays(b, d);
    }
  }

  lemma NulIsRejected(r: Rules, b: Bytes)
    requires NulPending(b)
    ensures MethodAt(b).Done? && !HeadAt(r, b).Done?
    ensures var i := MethodAt(b).end; TargetAt(b, b[..i - 1], i).Done? ==> HeadAt(r, b).Invalid?
  {
    hide HasNulTriplet, NulPending, MethodAt, TargetAt, RestAt;
    assert MethodAt(b).Done? by { PendingHasMethod(b); }
    NulInTarget(b);
  }

  lemma PendingHasMethod(b: Bytes)
    requires NulPending(b)
    ensures MethodAt(b).Done?
  {
  }

  lemma DoomedIsNotDone(r: Rules, b: Bytes)
    requires IsDoomedHead(b)
    ensures b != [] && !HeadAt(r, b).Done?
  {
    hide NulPending, AuthorityBroken, IsPlain, MethodAt, TargetAt, RestAt, HasNulTriplet;
    if NulPending(b) {
      NulIsRejected(r, b);
    } else {
      BrokenIsRejected(b);
    }
  }

  lemma MethodOfPrefix(b: Bytes, j: nat)
    requires MethodAt(b).Done? && MethodAt(b).end < j <= |b|
    ensures MethodAt(b[..j]) == MethodAt(b)
  {
    var m := TokenEnd(b, 0);
    var q := b[..j];
    var n := TokenEnd(q, 0);
    assert q[m] == b[m];
    TokenStable(q, b, 0);
    assert forall k | 0 <= k < n :: IsTchar(q[k]) && q[k] == b[k];
    assert n == m;
  }

  lemma SchemeOfPrefix(b: Bytes, i: nat, j: nat)
    requires i <= |b| && SchemeStop(b, i) < j <= |b|
    ensures SchemeStop(b[..j], i) == SchemeStop(b, i)
  {
    var q := b[..j];
    var k, n := SchemeStop(b, i), SchemeStop(q, i);
    SchemeStable(q, b, i);
    assert q[k] == b[k];
    assert forall m | i <= m < k :: q[m] == b[m];
  }

  lemma RunOfPrefix(b: Bytes, i: nat, j: nat, extra: string)
    requires i <= |b| && Run(b, i, extra).Stop? && Run(b, i, extra).at < j <= |b|
    ensures Run(b[..j], i, extra) == Run(b, i, extra)
  {
    hide Run;
    RunStable(b[..j], b, i, extra);
  }

  /** A head is complete as soon as its last byte is there. */
  lemma HeadIsComplete(r: Rules, b: Bytes, d: Bytes)
    requires b <= d && HeadAt(r, d).Done? && HeadAt(r, d).end <= |b|
    ensures HeadAt(r, b) == HeadAt(r, d)
  {
    hide HeadAt, NulPending, AuthorityBroken, MethodAt, TargetAt;
    HeadStable(r, b, d);
    if NulPending(b) {
      NulPendingStays(b, d);
      NulIsRejected(r, d);
    }
    if AuthorityBroken(b) {
      BrokenIsRejected(b);
      TargetIsInside(r, d);
      MethodStable(b, d);
      TargetIsComplete(b, d, b[..MethodAt(b).end - 1], MethodAt(b).end);
    }
  }

  lemma TargetIsInside(r: Rules, d: Bytes)
    requires HeadAt(r, d).Done?
    ensures MethodAt(d).Done?
    ensures var i := MethodAt(d).end; var o := TargetAt(d, d[..i - 1], i); o.Done? && o.end < HeadAt(r, d).end
  {
    hide MethodAt, TargetAt, HasNulTriplet, VersionAt, FieldsAt;
  }

  lemma TargetIsComplete(b: Bytes, d: Bytes, name: Bytes, i: nat)
    requires b <= d && i < |b| && TargetAt(d, name, i).Done? && TargetAt(d, name, i).end < |b|
    ensures TargetAt(b, name, i).Done?
  {
    hide TargetAt, Run, AuthorityStart, AbsoluteFormAt, AuthorityAt, PathAndQueryAt;
    TargetStable(b, d, name, i);
    if name != "CONNECT" && AuthorityRunsOn(b, i) {
      var s := AuthorityStart(b, i).value;
      StartStable(b, d, i);
      StartsWithAlpha(d, i);
      TargetIs(d, name, i);
      WithAuthority(d, i);
      assert d[..|b|] == b;
      RunOfPrefix(d, s, |b|, AUTHORITY);
    }
  }

  /** Had nothing arrived behind the path, its NUL would have been noticed. */
  lemma NulIsNoticed(r: Rules, b: Bytes) returns (q: Bytes)
    requires NulPending(b)
    ensures q <= b && q != [] && HeadAt(r, q).Invalid?
  {
    hide HasNulTriplet, Reach, Run, RestAt, MethodAt, PathStart, TargetAt, NulIn;
    assert MethodAt(b).Done? by { PendingHasMethod(b); }
    var i := MethodAt(b).end;
    var name := b[..i - 1];
    var p, j := PathEndsHere(b, name, i);
    q := b[..j];
    MethodOfPrefix(b, j);
    assert q[..i - 1] == name;
    TargetUpToPath(b, name, i, p, j);
    assert q[p..j] == b[p..j];
  }

  lemma PathEndsHere(b: Bytes, name: Bytes, i: nat) returns (p: nat, j: nat)
    requires i < |b| && NulIn(b, PathStart(b, name, i))
    ensures PathStart(b, name, i) == Some(p) && j == Reach(b, p, PATH) && i <= p < j && HasNulTriplet(b[p..j])
  {
    hide HasNulTriplet, Reach, AuthorityAt;
    p := PathStart(b, name, i).value;
    j := Reach(b, p, PATH);
    NulTakesThree(b[p..j]);
  }

  lemma TargetUpToPath(b: Bytes, name: Bytes, i: nat, p: nat, j: nat)
    requires i <= p < j <= |b| && PathStart(b, name, i) == Some(p) && Reach(b, p, PATH) == j
    ensures TargetAt(b[..j], name, i).Done? && TargetAt(b[..j], name, i).value.path == View(p, j)
  {
    hide Reach, Run, AuthorityAt, TargetAt, SchemeStop, QueryAt, AbsoluteFormAt;
    var q := b[..j];
    RunToReach(b, p, j, PATH);
    NoQuery(q, j);
    TargetIs(q, name, i);
    if b[i] == '/' {
      SlashGoesOn(q, i);
    } else {
      AbsoluteUpToPath(b, i, p, j);
    }
  }

  lemma AbsoluteUpToPath(b: Bytes, i: nat, p: nat, j: nat)
    requires i <= p < j <= |b| && b[i] != '/' && PathStart(b, [], i) == Some(p)
    requires Run(b[..j], p, PATH) == Stop(j) && QueryAt(b[..j], j) == Done(View(j, j), j)
    ensures AbsoluteFormAt(b[..j], i).Done? && AbsoluteFormAt(b[..j], i).value.path == View(p, j)
  {
    hide Run, AuthorityAt, SchemeStop, QueryAt;
    var q := b[..j];
    SchemeOfPrefix(b, i + 1, j);
    var k := SchemeStop(b, i + 1);
    if SlashesAt(b, k + 1) {
      RunOfPrefix(b, k + 3, j, AUTHORITY);
      AuthorityStable(q, b, View(i, k), k + 3, p);
    }
  }

  /** Had nothing arrived behind what is broken, it would have been rejected. */
  lemma BrokenIsNoticed(r: Rules, b: Bytes) returns (q: Bytes)
    requires AuthorityBroken(b)
    ensures q <= b && q != [] && HeadAt(r, q).Invalid?
  {
    hide MethodAt, AuthorityStart, Reach, Run, IsBadAuthority, TargetAt, RestAt, HasNulTriplet;
    var i := MethodAt(b).end;
    var s, t := AuthorityStart(b, i).value, ReceivedAuthority(b);
    var j := s + |t|;
    q := b[..j];
    MethodOfPrefix(b, j);
    StartOfPrefix(b, i, j);
    RunToReach(b, s, j, AUTHORITY);
    assert q[..i - 1] == b[..i - 1] && q[s..j] == t;
    BrokenIsRejected(q);
  }

  lemma StartOfPrefix(b: Bytes, i: nat, j: nat)
    requires AuthorityStart(b, i).Some? && AuthorityStart(b, i).value <= j <= |b|
    ensures AuthorityStart(b[..j], i) == AuthorityStart(b, i)
  {
    hide SchemeStop;
    SchemeOfPrefix(b, i + 1, j);
  }
}
