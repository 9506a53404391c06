/**
 What a target says: its path, query, scheme, host and port, on the text and as the views of the decoder.
 */
module TargetViews {
  import opened Octets
  import opened HttpText
  import opened IpAddress
  import opened UriReference
  import opened PercentDecode
  import opened RequestHead
  import opened Scanning
  import opened AbsoluteForm
  import opened HeadStability
  import opened TargetGrammar

  /** The texts that a target is written from; what is absent is empty. */
  datatype Parts = Parts(form: Form, path: Bytes, query: Bytes, authority: Option<(Bytes, Bytes, Bytes)>)

  function OrEmpty(s: Option<string>): string { if s.Some? then s.value else "" }

  // ---- the grammar, with what it says

  /** host [ ":" port ]; behind an IP-literal that something else follows there is no port. */
  ghost predicate HostPortSays(h: string, host: string, port: string) {
    || (exists hp :: IsWellFormedHostPort(hp) && HostPortText(hp) == h && host == hp.host && port == OrEmpty(hp.port))
    || (exists n | 2 <= n < |h| :: IsIpLiteral(h[..n]) && h[n] != ':' && host == h[..n] && port == "")
  }

  /** The text behind the user information, if there is any. */
  ghost predicate IsBehindUserinfo(t: string, h: string) {
    || (t == h && '@' !in t)
    || (exists userinfo :: Text(":", userinfo) && t == userinfo + "@" + h)
  }

  ghost predicate AuthoritySays(t: string, host: string, port: string) {
    exists h :: IsBehindUserinfo(t, h) && HostPortSays(h, host, port)
  }

  ghost predicate OriginSays(s: string, p: Parts) {
    exists path: string, query :: IsPathAndQuery(path, query) && path != [] && IsPathAbEmpty(path)
      && path + Suffixed('?', query) == s && p.path == path && p.query == OrEmpty(query)
  }

  ghost predicate AuthorityFormSays(s: string, p: Parts) {
    exists hp :: IsWellFormedHostPort(hp) && hp.port.Some? && HostPortText(hp) == s
      && p.authority.Some? && p.authority.value.0 == "" && p.authority.value.1 == hp.host && p.authority.value.2 == hp.port.value
  }

  /** The components of the reference that is written there. */
  ghost predicate ReferenceSays(u: Reference, p: Parts) {
    && IsReadAsReference(u) && p.path == u.path && p.query == OrEmpty(u.query)
    && (p.authority.Some? <==> u.authority.Some?)
    && (u.authority.Some? ==>
          && p.authority.value.0 == u.scheme.value
          && AuthoritySays(u.authority.value, p.authority.value.1, p.authority.value.2))
  }

  ghost predicate AbsoluteSays(s: string, p: Parts) { exists u :: Compose(u) == s && ReferenceSays(u, p) }

  /** What a target says, in the form that the method and the text call for. */
  ghost predicate TargetSays(name: Bytes, s: string, p: Parts) {
    match p.form
    case AuthorityForm => name == "CONNECT" && AuthorityFormSays(s, p) && p.path == p.query == []
    case AsteriskForm => name == "OPTIONS" && s == "*" && p.path == p.query == [] && p.authority.None?
    case OriginForm => name != "CONNECT" && OriginSays(s, p) && p.authority.None?
    case AbsoluteForm => name != "CONNECT" && AbsoluteSays(s, p)
  }

  // ---- the views, as texts

  function Shown(b: Bytes, v: View): Bytes { if v.In(b) then v.Of(b) else [] }

  function PartsOf(b: Bytes, t: Target): Parts {
    Parts(t.form, Shown(b, t.path), Shown(b, t.query),
          if t.authority.None? then None
          else Some((Shown(b, t.authority.value.scheme), Shown(b, t.authority.value.host), Shown(b, t.authority.value.port))))
  }

  // ---- path and query

  lemma PathAndQueryViews(b: Bytes, from: nat, e: nat, authority: Option<Authority>)
    requires from <= e < |b| && b[e] == ' '
    requires PathAndQueryAt(b, from, authority).Done? && PathAndQueryAt(b, from, authority).end == e
    ensures var t, p := PathAndQueryAt(b, from, authority).value, Mark(b, from, e);
            && t.form == AbsoluteForm && t.authority == authority && t.path == View(from, p)
            && t.query == if p < e then View(p + 1, e) else View(p, p)
  {
    hide Run, Mark;
    var p := Run(b, from, PATH).at;
    RunStopsAtMark(b, from, p);
    MarkIs(b, from, e, p);
  }

  lemma OriginIsPathAndQueryToo(b: Bytes, i: nat)
    requires i < |b| && b[i] == '/' && OriginFormAt(b, i).Done?
    ensures var o, p := OriginFormAt(b, i), PathAndQueryAt(b, i, None);
            p.Done? && p.end == o.end && o.value == p.value.(form := OriginForm)
  {
    hide Run, QueryAt;
    SlashGoesOn(b, i);
  }

  /** Path and query are shown as the texts they are cut into. */
  lemma ShownAtMark(b: Bytes, from: nat, e: nat, authority: Option<Authority>, path: string, query: Option<string>)
    requires from <= e < |b| && b[e] == ' ' && IsPathAndQuery(path, query) && path + Suffixed('?', query) == b[from..e]
    ensures var o := PathAndQueryAt(b, from, authority);
            && o.Done? && o.end == e && o.value.form == AbsoluteForm && o.value.authority == authority
            && Shown(b, o.value.path) == path && Shown(b, o.value.query) == OrEmpty(query)
  {
    hide Text, Mark, PathAndQueryAt, Suffixed;
    CutAtMark(b, from, e, path, query);
    PathAndQueryOnText(b, from, e, authority);
    PathAndQueryViews(b, from, e, authority);
  }

  lemma OriginShows(b: Bytes, i: nat, e: nat, p: Parts)
    requires i < e < |b| && b[e] == ' ' && OriginSays(b[i..e], p)
    ensures var o := OriginFormAt(b, i);
            && b[i] == '/' && o.Done? && o.end == e && o.value.form == OriginForm && o.value.authority.None?
            && Shown(b, o.value.path) == p.path && Shown(b, o.value.query) == p.query
  {
    hide Text, IsPathAbEmpty, OriginFormAt, PathAndQueryAt, Shown, Suffixed;
    var path: string, query :| IsPathAndQuery(path, query) && path != [] && IsPathAbEmpty(path)
      && path + Suffixed('?', query) == b[i..e] && p.path == path && p.query == OrEmpty(query);
    OriginOnText(b, i, e);
    AbEmptyIsRun(path);
    assert b[i] == b[i..e][0] == path[0];
    OriginIsPathAndQueryToo(b, i);
    ShownAtMark(b, i, e, None, path, query);
  }

  // ---- host and port

  /** Host and port are found by cutting, whatever they are written from. */
  lemma HostPortCut(h: string, host: string, port: string)
    requires HostPortSays(h, host, port)
    ensures SplitAuthorityHostPort(h) == Some((host, |host|)) && IsHost(host)
    ensures if |host| < |h| && h[|host|] == ':' then port == h[|host| + 1..] && IsPort(port) else port == ""
  {
    hide IsHost, IsPort, SplitAuthorityHostPort, HostPortText, IsIpLiteral;
    if hp :| IsWellFormedHostPort(hp) && HostPortText(hp) == h && host == hp.host && port == OrEmpty(hp.port) {
      HostIsCutOff(hp);
      HostPortIs(hp);
    } else {
      var n: nat :| 2 <= n < |h| && IsIpLiteral(h[..n]) && h[n] != ':' && host == h[..n] && port == "";
      LiteralIsCutOff(h, n);
      LiteralIsHost(h[..n]);
    }
  }

  lemma UserinfoCut(t: string, h: string)
    requires IsBehindUserinfo(t, h)
    ensures var at := First(t, '@', 0);
            if at == |t| then h == t else Text(":", t[..at]) && h == t[at + 1..]
  {
    hide Text;
    if t == h && '@' !in t {
      FirstIs(t, '@', |t|);
    } else {
      var userinfo :| Text(":", userinfo) && t == userinfo + "@" + h;
      AtIsNoUserinfo();
      RunHasNone(":", userinfo, "@");
      BehindAt(t, userinfo, h);
      FirstIs(t, '@', |userinfo|);
    }
  }

  lemma BehindAt(t: string, x: string, y: string)
    requires t == x + "@" + y
    ensures t[..|x|] == x && t[|x|] == '@' && t[|x| + 1..] == y && forall j | 0 <= j < |x| :: t[j] == x[j]
  {
  }

  lemma AtIsNoUserinfo()
    ensures !Allowed(":", '@')
  {
  }

  /** The views of an authority are those of its host and port. */
  lemma AuthorityShows(b: Bytes, scheme: View, from: nat, to: nat, host: string, port: string)
    requires from <= to <= |b| && AuthoritySays(b[from..to], host, port)
    ensures var o := AuthorityAt(b, scheme, from, to);
            o.Done? && o.value.scheme == scheme && Shown(b, o.value.host) == host && Shown(b, o.value.port) == port
  {
    hide IsHost, Text, SplitAuthorityHostPort, IsPort, First, HostPortSays, AuthorityAt, Shown, AuthoritySays;
    var h, start := HostPortStarts(b, from, to, host, port);
    HostPortCut(h, host, port);
    HostPortInPlace(b, start, to, h, |host|);
    AuthorityIs(b, scheme, from, to, start, h, |host|);
    HostPortShown(b, start, to, |host|);
  }

  /** What says host and port starts behind the user information, if there is any. */
  lemma HostPortStarts(b: Bytes, from: nat, to: nat, host: string, port: string) returns (h: string, start: nat)
    requires from <= to <= |b| && AuthoritySays(b[from..to], host, port)
    ensures start == (var at := First(b[..to], '@', from); if at < to then at + 1 else from)
    ensures start > from ==> Text(":", b[from..start - 1])
    ensures b[start..to] == h && HostPortSays(h, host, port)
  {
    hide Text, First, HostPortSays, IsBehindUserinfo;
    var t := b[from..to];
    h :| IsBehindUserinfo(t, h) && HostPortSays(h, host, port);
    UserinfoCut(t, h);
    AtInPlace(b, from, to);
    var at := First(b[..to], '@', from);
    start := if at < to then at + 1 else from;
  }

  lemma HostPortShown(b: Bytes, start: nat, to: nat, n: nat)
    requires start + n <= to <= |b|
    ensures Shown(b, View(start, start + n)) == b[start..start + n] && Shown(b, NOWHERE) == []
    ensures start + n < to ==> Shown(b, View(start + n + 1, to)) == b[start + n + 1..to]
  {
  }

  lemma AtInPlace(b: Bytes, from: nat, to: nat)
    requires from <= to <= |b|
    ensures var t, at := b[from..to], First(b[..to], '@', from);
            && at == from + First(t, '@', 0)
            && t[..at - from] == b[from..at] && (at < to ==> t[at - from + 1..] == b[at + 1..to])
  {
    hide First;
    var t := b[from..to];
    var at, here := First(b[..to], '@', from), First(t, '@', 0);
    assert forall k | 0 <= k < |t| :: t[k] == b[..to][from + k];
    if at < to {
      assert b[..to][at] == t[at - from];
    }
    assert here == at - from;
  }

  lemma AuthorityIs(b: Bytes, scheme: View, from: nat, to: nat, start: nat, h: string, n: nat)
    requires from <= to <= |b| && start == (var at := First(b[..to], '@', from); if at < to then at + 1 else from)
    requires start > from ==> Text(":", b[from..start - 1])
    requires b[start..to] == h && n <= |h| && SplitAuthorityHostPort(h) == Some((h[..n], n)) && IsHost(h[..n])
    requires n < |h| && h[n] == ':' ==> IsPort(h[n + 1..])
    ensures AuthorityAt(b, scheme, from, to) ==
            Done(Authority(scheme, View(start, start + n),
                           if n < |h| && h[n] == ':' then View(start + n + 1, to) else NOWHERE), to)
  {
    hide IsHost, Text, SplitAuthorityHostPort, IsPort, First;
  }

  lemma HostPortInPlace(b: Bytes, start: nat, to: nat, h: string, n: nat)
    requires start <= to <= |b| && b[start..to] == h && n <= |h|
    ensures b[start..start + n] == h[..n] && (n < |h| ==> b[start + n + 1..to] == h[n + 1..])
  {
    SliceOf(b, start, to, 0, n);
    if n < |h| {
      SliceOf(b, start, to, n + 1, |h|);
    }
  }

  lemma AuthorityFormShows(b: Bytes, i: nat, e: nat, p: Parts)
    requires i < e < |b| && b[e] == ' ' && AuthorityFormSays(b[i..e], p)
    ensures var o := AuthorityFormAt(b, i);
            o.Done? && o.end == e && PartsOf(b, o.value) == Parts(AuthorityForm, [], [], p.authority)
  {
    hide IsHost, SplitAuthorityHostPort, DigitsEnd, IsPort, HostPortText;
    var hp :| IsWellFormedHostPort(hp) && hp.port.Some? && HostPortText(hp) == b[i..e]
      && p.authority.Some? && p.authority.value.0 == "" && p.authority.value.1 == hp.host && p.authority.value.2 == hp.port.value;
    AuthorityFormOnText(b, i, e);
    var n := |hp.host|;
    HostIsCutOff(hp);
    HostPortIs(hp);
    assert b[i..] == b[i..e] + b[e..];
    SplitStable(b[i..e], b[i..]);
    HostPortInPlace(b, i, e, b[i..e], n);
  }

  // ---- absolute form

  lemma AbsoluteShows(b: Bytes, i: nat, e: nat, p: Parts)
    requires i < e < |b| && b[e] == ' ' && AbsoluteSays(b[i..e], p) && p.form == AbsoluteForm
    ensures var o := AbsoluteFormAt(b, i); IsAlpha(b[i]) && o.Done? && o.end == e && PartsOf(b, o.value) == p
  {
    hide Run, Text, AuthorityAt, PathAndQueryAt, IsPathAndQuery, IsScheme, Compose, SchemeStop, AbsoluteFormAt,
         SlashesAt, Suffixed, ReferenceSays, IsReadAsReference, Shown;
    var u :| Compose(u) == b[i..e] && ReferenceSays(u, p);
    WhatIsSaid(u, p);
    var k, a := PlacesOf(b, i, e, u);
    SchemeUpTo(b, i, k);
    var authority := AuthorityStands(b, i, k, a, e, u, p);
    ShownAtMark(b, a, e, authority, u.path, u.query);
    AbsoluteFormIs(b, i, k, a, e, authority);
    assert Shown(b, View(i, k)) == b[i..k] by { HostPortShown(b, i, k, k - i); }
  }

  lemma WhatIsSaid(u: Reference, p: Parts)
    requires ReferenceSays(u, p)
    ensures IsReadAsReference(u) && IsPathAndQuery(u.path, u.query) && u.scheme.Some? && IsScheme(u.scheme.value)
    ensures p.path == u.path && p.query == OrEmpty(u.query) && (p.authority.Some? <==> u.authority.Some?)
    ensures p.authority.Some? ==> p.authority.value.0 == u.scheme.value
  {
  }

  /** The authority of a reference, if it has one, behind the slashes that announce it. */
  lemma AuthorityStands(b: Bytes, i: nat, k: nat, a: nat, e: nat, u: Reference, p: Parts)
    returns (authority: Option<Authority>)
    requires i < k < a <= e < |b| && b[e] == ' ' && ReferenceSays(u, p) && u.path + Suffixed('?', u.query) == b[a..e]
    requires if u.authority.Some? then SlashesAt(b, k + 1) && k + 3 <= a && u.authority.value == b[k + 3..a] else a == k + 1
    ensures SlashesAt(b, k + 1) <==> authority.Some?
    ensures p.authority.Some? <==> authority.Some?
    ensures authority.Some? ==> k + 3 <= a && Run(b, k + 3, AUTHORITY) == Stop(a)
    ensures authority.Some? ==> AuthorityAt(b, View(i, k), k + 3, a).Done?
                                && AuthorityAt(b, View(i, k), k + 3, a).value == authority.value
    ensures authority.Some? ==> authority.value.scheme == View(i, k)
                                && Shown(b, authority.value.host) == p.authority.value.1
                                && Shown(b, authority.value.port) == p.authority.value.2
  {
    hide Run, Text, AuthorityAt, PathAndQueryAt, IsReadAsAuthority, IsScheme, Mark, SlashesAt, AuthoritySays, Suffixed, Shown;
    CutAtMark(b, a, e, u.path, u.query);
    FollowsAuthority(b, a, e, u);
    authority := None;
    if u.authority.Some? {
      AuthorityFromText(b, View(i, k), k + 3, a);
      AuthorityShows(b, View(i, k), k + 3, a, p.authority.value.1, p.authority.value.2);
      authority := Some(AuthorityAt(b, View(i, k), k + 3, a).value);
    }
  }

  lemma AbsoluteFormIs(b: Bytes, i: nat, k: nat, a: nat, e: nat, authority: Option<Authority>)
    requires i < k < a <= e < |b| && IsAlpha(b[i]) && k == SchemeStop(b, i + 1) && b[k] == ':'
    requires SlashesAt(b, k + 1) <==> authority.Some?
    requires if authority.None? then a == k + 1
             else && Run(b, k + 3, AUTHORITY) == Stop(a)
                  && var o := AuthorityAt(b, View(i, k), k + 3, a); o.Done? && o.value == authority.value
    requires PathAndQueryAt(b, a, authority).Done?
    ensures AbsoluteFormAt(b, i) == PathAndQueryAt(b, a, authority)
  {
    hide Run, AuthorityAt, PathAndQueryAt, SchemeStop;
  }

  // ---- all forms

  /** Every target says something. */
  lemma SomethingIsSaid(name: Bytes, s: Bytes) returns (p: Parts)
    requires IsTarget(name, s)
    ensures TargetSays(name, s, p)
  {
    hide IsAuthorityForm, IsOriginForm, IsAbsoluteUri, IsLooseUri, OriginSays, AuthorityFormSays, AbsoluteSays;
    if name == "CONNECT" {
      p := AuthorityFormIsSaid(s);
    } else if name == "OPTIONS" && s == "*" {
      p := Parts(AsteriskForm, [], [], None);
    } else if IsOriginForm(s) {
      p := OriginIsSaid(s);
    } else {
      p := AbsoluteIsSaid(s);
    }
  }

  lemma Prefixed(s: Bytes, x: string, y: string) returns (u: Bytes, v: Bytes)
    requires s == x + y
    ensures u == x && v == y
  {
    u, v := s[..|x|], s[|x|..];
  }

  lemma OriginIsSaid(s: Bytes) returns (p: Parts)
    requires IsOriginForm(s)
    ensures p.form == OriginForm && p.authority.None? && OriginSays(s, p)
  {
    hide Text, IsPathAbEmpty;
    var path: string, query :| IsPathAndQuery(path, query) && path != [] && IsPathAbEmpty(path) && path + Suffixed('?', query) == s;
    var u, v := Prefixed(s, path, Suffixed('?', query));
    p := Parts(OriginForm, u, if query.Some? then v[1..] else [], None);
  }

  lemma AuthorityFormIsSaid(s: Bytes) returns (p: Parts)
    requires IsAuthorityForm(s)
    ensures p.form == AuthorityForm && p.path == p.query == [] && AuthorityFormSays(s, p)
  {
    hide IsHost, IsPort;
    var hp :| IsWellFormedHostPort(hp) && hp.port.Some? && HostPortText(hp) == s;
    var u, v := Prefixed(s, hp.host, Suffixed(':', hp.port));
    p := Parts(AuthorityForm, [], [], Some(([], u, v[1..])));
  }

  lemma HostPortIsSaid(h: Bytes) returns (host: Bytes, port: Bytes)
    requires IsHostPort(h) || IsLooseLiteral(h)
    ensures HostPortSays(h, host, port)
  {
    hide IsHost, IsPort, IsIpLiteral;
    if hp :| IsWellFormedHostPort(hp) && HostPortText(hp) == h {
      var u, v := Prefixed(h, hp.host, Suffixed(':', hp.port));
      host, port := u, if hp.port.Some? then v[1..] else [];
    } else {
      var n: nat :| 2 <= n < |h| && IsIpLiteral(h[..n]) && h[n] != ':';
      host, port := h[..n], [];
    }
  }

  lemma AuthorityIsSaid(t: Bytes) returns (host: Bytes, port: Bytes)
    requires Text(AUTHORITY, t) && IsReadAsAuthority(t)
    ensures AuthoritySays(t, host, port)
  {
    hide Text, IsReadAsHostPort, HostPortSays, IsHostPort, IsLooseLiteral;
    var at := First(t, '@', 0);
    var h := if at < |t| then t[at + 1..] else t;
    HostPortIsRead(h);
    host, port := HostPortIsSaid(h);
    if at < |t| {
      assert t == t[..at] + "@" + h;
    } else {
      assert '@' !in t;
    }
    assert IsBehindUserinfo(t, h);
  }

  lemma AbsoluteIsSaid(s: Bytes) returns (p: Parts)
    requires IsAbsoluteUri(s) || IsLooseUri(s)
    ensures p.form == AbsoluteForm && AbsoluteSays(s, p)
  {
    hide IsWellFormed, IsLooseReference, Compose, IsReadAsReference, AuthoritySays;
    var u;
    if IsAbsoluteUri(s) {
      u :| IsAbsolute(u) && IsWellFormed(u) && Compose(u) == s;
    } else {
      u :| IsLooseReference(u) && Compose(u) == s;
    }
    ReferenceIsRead(u);
    p := ReferenceIsSaid(s, u);
  }

  lemma ReferenceIsSaid(s: Bytes, u: Reference) returns (p: Parts)
    requires Compose(u) == s && IsReadAsReference(u)
    ensures p.form == AbsoluteForm && ReferenceSays(u, p)
  {
    hide Text, IsReadAsAuthority, IsScheme, AuthoritySays, Compose;
    var scheme, authority, path, query := ComponentsOf(s, u);
    p := Parts(AbsoluteForm, path, query, None);
    if u.authority.Some? {
      var host, port := AuthorityIsSaid(authority);
      p := p.(authority := Some((scheme, host, port)));
    }
  }

  /** The components of a reference that is written in bytes are bytes. */
  lemma ComponentsOf(s: Bytes, u: Reference) returns (scheme: Bytes, authority: Bytes, path: Bytes, query: Bytes)
    requires Compose(u) == s && IsAbsolute(u)
    ensures scheme == u.scheme.value && authority == OrEmpty(u.authority) && path == u.path && query == OrEmpty(u.query)
  {
    hide SchemeText, AuthorityText, Suffixed;
    var x, y, z, w := SchemeText(u.scheme), AuthorityText(u.authority), u.path, Suffixed('?', u.query);
    NoFragment(u);
    PiecesOf(x, y, z, w, "");
    assert s == x + y + z + w;
    InTwo(x, y, z, w);
    var front, back := Prefixed(s, x + y, z + w);
    var first, second := Prefixed(front, x, y);
    var third, fourth := Prefixed(back, z, w);
    SuffixIs('?', u.query);
    SchemeAndAuthority(u);
    scheme, path := first[..|x| - 1], third;
    authority := if u.authority.Some? then second[2..] else [];
    query := if u.query.Some? then fourth[1..] else [];
  }

  lemma InTwo(x: string, y: string, z: string, w: string)
    ensures x + y + z + w == (x + y) + (z + w)
  {
  }

  lemma SchemeAndAuthority(u: Reference)
    requires u.scheme.Some?
    ensures var x, y := SchemeText(u.scheme), AuthorityText(u.authority);
            && x != [] && x[..|x| - 1] == u.scheme.value
            && (u.authority.Some? ==> |y| >= 2 && y[2..] == u.authority.value)
  {
  }

  /** What is said is what is shown. */
  lemma SaidIsShown(b: Bytes, name: Bytes, i: nat, e: nat, p: Parts)
    requires i < e < |b| && b[e] == ' ' && TargetSays(name, b[i..e], p)
    ensures var o := TargetAt(b, name, i); o.Done? && o.end == e && PartsOf(b, o.value) == p
  {
    hide AuthorityFormAt, OriginFormAt, AbsoluteFormAt, TargetAt, AuthorityFormSays, OriginSays, AbsoluteSays, Shown;
    TargetIs(b, name, i);
    NowhereIsEmpty(b);
    assert b[i] == b[i..e][0];
    match p.form {
      case AuthorityForm => AuthorityFormShows(b, i, e, p);
      case OriginForm => OriginShows(b, i, e, p);
      case AbsoluteForm => AbsoluteShows(b, i, e, p);
      case AsteriskForm => AsteriskShows(b, i);
    }
  }

  lemma NowhereIsEmpty(b: Bytes)
    ensures Shown(b, NOWHERE) == []
  {
  }

  lemma AsteriskShows(b: Bytes, i: nat)
    requires i < |b| && b[i] == '*'
    ensures AsteriskFormAt(b, i) == Done(Target(AsteriskForm, NOWHERE, NOWHERE, None), i + 1)
    ensures b[i] != '/' && !IsAlpha(b[i])
  {
  }

  /**
   The decoder reads a target up to the space behind it and shows these texts exactly when they are what the target
   says: the components that it is written from.
   */
  lemma TargetShows(b: Bytes, name: Bytes, i: nat, e: nat, p: Parts)
    requires i < e < |b| && b[e] == ' '
    ensures TargetAt(b, name, i).Done? && TargetAt(b, name, i).end == e && PartsOf(b, TargetAt(b, name, i).value) == p
            <==> TargetSays(name, b[i..e], p)
  {
    hide TargetAt, TargetSays, IsTarget, PartsOf;
    if TargetSays(name, b[i..e], p) {
      SaidIsShown(b, name, i, e, p);
    }
    TargetOnText(b, name, i, e);
    if TargetAt(b, name, i).Done? && TargetAt(b, name, i).end == e {
      var said := SomethingIsSaid(name, b[i..e]);
      SaidIsShown(b, name, i, e, said);
    }
  }
}
