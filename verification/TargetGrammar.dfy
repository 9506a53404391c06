/**
 Which request targets the decoder accepts: those of section 3.2 of RFC 9112, and one kind of text that is not.
 A target is what stands in front of the first space.
 */
module TargetGrammar {
  import opened Octets
  import opened HttpText
  import opened IpAddress
  import opened UriReference
  import opened PercentDecode
  import opened RequestHead
  import opened Scanning
  import opened AbsoluteForm
  import opened HeadStability

  // ---- the grammar

  /** absolute-path [ "?" query ], where absolute-path is 1*( "/" segment ) */
  ghost predicate IsOriginForm(s: string) {
    exists path: string, query :: IsPathAndQuery(path, query) && path != [] && IsPathAbEmpty(path) && path + Suffixed('?', query) == s
  }

  predicate IsPathAndQuery(path: string, query: Option<string>) {
    Text(PATH, path) && (query.Some? ==> Text(QUERY, query.value))
  }

  /** uri-host ":" port */
  ghost predicate IsAuthorityForm(s: string) {
    exists hp :: IsWellFormedHostPort(hp) && hp.port.Some? && HostPortText(hp) == s
  }

  /** absolute-URI: a reference with a scheme and without a fragment. */
  ghost predicate IsAbsoluteUri(s: string) { exists u :: IsAbsolute(u) && IsWellFormed(u) && Compose(u) == s }

  predicate IsAbsolute(u: Reference) { u.scheme.Some? && u.fragment.None? }

  /** An IP-literal, and something behind it that is no port. */
  ghost predicate IsLooseLiteral(h: string) { exists n | 2 <= n < |h| :: IsIpLiteral(h[..n]) && h[n] != ':' }

  /** Not in the grammar: more characters of an authority behind an IP-literal. */
  ghost predicate IsLooseAuthority(t: string) {
    && Text(AUTHORITY, t)
    && var at := First(t, '@', 0);
       if at == |t| then IsLooseLiteral(t) else Text(":", t[..at]) && IsLooseLiteral(t[at + 1..])
  }

  ghost predicate IsLooseReference(u: Reference) {
    && IsAbsolute(u) && IsScheme(u.scheme.value)
    && u.authority.Some? && IsLooseAuthority(u.authority.value) && IsPathAbEmpty(u.path)
    && (u.query.Some? ==> Text(QUERY, u.query.value))
  }

  ghost predicate IsLooseUri(s: string) { exists u :: IsLooseReference(u) && Compose(u) == s }

  /** What the decoder takes for a target. */
  ghost predicate IsTarget(name: Bytes, s: string) {
    if name == "CONNECT" then IsAuthorityForm(s)
    else (name == "OPTIONS" && s == "*") || IsOriginForm(s) || IsAbsoluteUri(s) || IsLooseUri(s)
  }

  // ---- runs and texts

  /** A run ends in front of a character that stops it exactly when what it has passed is a text. */
  lemma {:induction false} RunOnText(b: Bytes, i: nat, j: nat, extra: string)
    requires i <= j < |b| && b[j] != '%' && !Allowed(extra, b[j]) && !IsHexDigit(b[j]) && '%' !in extra
    ensures Run(b, i, extra) == Stop(j) <==> Text(extra, b[i..j])
    decreases j - i
  {
    hide Text;
    if i == j {
      EmptyText(extra);
      assert b[i..j] == [];
    } else {
      TextStep(extra, b, i, j);
      if b[i] == '%' {
        if i + 3 <= j && IsHexDigit(b[i + 1]) && IsHexDigit(b[i + 2]) {
          RunOnText(b, i + 3, j, extra);
        }
      } else if Allowed(extra, b[i]) {
        RunOnText(b, i + 1, j, extra);
      }
    }
  }

  lemma {:induction false} AllAllowed(extra: string, s: string)
    requires forall k | 0 <= k < |s| :: Allowed(extra, s[k])
    ensures Text(extra, s)
    decreases |s|
  {
    hide Allowed;
    if s != [] {
      AllAllowed(extra, s[1..]);
    }
  }

  /** Where the "?" of a query is, or where it would be. */
  function Mark(b: Bytes, from: nat, e: nat): (p: nat)
    requires from <= e <= |b|
    ensures from <= p <= e && (p < e ==> b[p] == '?') && forall k | from <= k < p :: b[k] != '?'
    decreases e - from
  {
    if from == e || b[from] == '?' then from else Mark(b, from + 1, e)
  }

  lemma MarkIs(b: Bytes, from: nat, e: nat, p: nat)
    requires from <= p <= e <= |b| && (p < e ==> b[p] == '?') && forall k | from <= k < p :: b[k] != '?'
    ensures Mark(b, from, e) == p
  {
  }

  lemma RunStopsAtMark(b: Bytes, from: nat, at: nat)
    requires from <= |b| && Run(b, from, PATH) == Stop(at)
    ensures forall k | from <= k < at :: b[k] !in "? #"
  {
    hide Run, Text;
    ReachIsText(b, from, PATH);
    TextAlphabet(PATH, b[from..at]);
    forall k | from <= k < at ensures b[k] !in "? #" {
      assert b[k] == b[from..at][k - from];
    }
  }

  /** Path and query together end where they should exactly when both are texts. */
  lemma PathAndQueryOnText(b: Bytes, from: nat, e: nat, authority: Option<Authority>)
    requires from <= e < |b| && b[e] == ' '
    ensures var o := PathAndQueryAt(b, from, authority); var p := Mark(b, from, e);
            o.Done? && o.end == e <==> Text(PATH, b[from..p]) && (p < e ==> Text(QUERY, b[p + 1..e]))
  {
    hide Run, Text, Mark;
    var p := Mark(b, from, e);
    RunOnText(b, from, p, PATH);
    if p < e {
      RunOnText(b, p + 1, e, QUERY);
    }
    var run := Run(b, from, PATH);
    if run.Stop? && run.at <= e && run.at != p {
      RunStopsAtMark(b, from, run.at);
      assert run.at < p;
      NoQuery(b, run.at);
    }
    assert !(run.Stop? && run.at > e) by {
      if run.Stop? {
        RunStopsAtMark(b, from, run.at);
      }
    }
  }

  lemma SuffixIs(c: char, text: Option<string>)
    ensures Suffixed(c, text) == if text.Some? then [c] + text.value else ""
  {
  }

  /** A path and a query are cut apart at the mark. */
  lemma CutAtMark(b: Bytes, from: nat, e: nat, path: string, query: Option<string>)
    requires from <= e <= |b| && IsPathAndQuery(path, query) && path + Suffixed('?', query) == b[from..e]
    ensures var p := Mark(b, from, e);
            p == from + |path| && path == b[from..p] && query == if p < e then Some(b[p + 1..e]) else None
  {
    hide Text, Suffixed;
    var p, rest := from + |path|, Suffixed('?', query);
    SuffixIs('?', query);
    assert b[from..e] == ("" + path) + rest;
    TwoInPlace(b, from, e, "", path, rest);
    SliceOf(b, from, e, |path|, e - from);
    assert b[p..e] == rest;
    RunHasNone(PATH, path, "?");
    forall k | from <= k < p ensures b[k] != '?' {
      assert b[from..p][k - from] == b[k];
    }
    if p < e {
      assert b[p] == b[p..e][0] && b[p + 1..e] == b[p..e][1..];
    }
    MarkIs(b, from, e, p);
  }

  lemma JoinAtMark(b: Bytes, from: nat, e: nat)
    requires from <= e <= |b|
    ensures var p := Mark(b, from, e);
            b[from..p] + Suffixed('?', if p < e then Some(b[p + 1..e]) else None) == b[from..e]
  {
  }

  // ---- origin form

  lemma OriginOnText(b: Bytes, i: nat, e: nat)
    requires i < e < |b| && b[e] == ' '
    ensures OriginFormAt(b, i).Done? && OriginFormAt(b, i).end == e <==> IsOriginForm(b[i..e])
  {
    hide Text, Mark, OriginFormAt, PathAndQueryAt, IsPathAbEmpty;
    var s, p := b[i..e], Mark(b, i, e);
    PathAndQueryOnText(b, i, e, None);
    if b[i] == '/' {
      OriginIsPathAndQuery(b, i);
      JoinAtMark(b, i, e);
      AbEmptyIsRun(b[i..p]);
      if Text(PATH, b[i..p]) && (p < e ==> Text(QUERY, b[p + 1..e])) {
        assert IsPathAndQuery(b[i..p], if p < e then Some(b[p + 1..e]) else None);
      }
    } else {
      OriginStartsWithSlash(b, i);
    }
    if path: string, query :| IsPathAndQuery(path, query) && path != [] && IsPathAbEmpty(path) && path + Suffixed('?', query) == s {
      AbEmptyIsRun(path);
      assert b[i] == s[0] == path[0];
      CutAtMark(b, i, e, path, query);
    }
  }

  lemma OriginStartsWithSlash(b: Bytes, i: nat)
    requires i < |b|
    ensures OriginFormAt(b, i).Done? ==> b[i] == '/'
  {
  }

  // ---- authority form

  lemma AuthorityFormOnText(b: Bytes, i: nat, e: nat)
    requires i < e < |b| && b[e] == ' '
    ensures AuthorityFormAt(b, i).Done? && AuthorityFormAt(b, i).end == e <==> IsAuthorityForm(b[i..e])
  {
    hide IsHost, SplitAuthorityHostPort, DigitsEnd;
    var sv, s := b[i..], b[i..e];
    if AuthorityFormAt(b, i).Done? && AuthorityFormAt(b, i).end == e {
      var (host, colon) := SplitAuthorityHostPort(sv).value;
      var port := b[i + colon + 1..e];
      assert HostPortText(HostPort(host, Some(port))) == s;
      assert forall k | 0 <= k < |port| :: port[k] == b[i + colon + 1 + k];
    }
    if hp :| IsWellFormedHostPort(hp) && hp.port.Some? && HostPortText(hp) == s {
      HostIsCutOff(hp);
      var n := |hp.host|;
      SplitStable(s, sv);
      assert s[n] == ':' && s[n + 1..] == hp.port.value;
      forall k | i + n + 1 <= k < e ensures IsDigit(b[k]) {
        assert b[k] == hp.port.value[k - i - n - 1];
      }
      DigitsUpTo(b, i + n + 1, e);
    }
  }

  lemma DigitsUpTo(b: Bytes, i: nat, j: nat)
    requires i <= j < |b| && !IsDigit(b[j]) && forall k | i <= k < j :: IsDigit(b[k])
    ensures DigitsEnd(b, i) == j
  {
  }

  // ---- authorities

  /** What the decoder makes of host and port, once they are complete. */
  ghost predicate IsReadAsHostPort(h: string) {
    var split := SplitAuthorityHostPort(h);
    && split.Some? && IsHost(split.value.0)
    && var colon := split.value.1; colon < |h| && h[colon] == ':' ==> IsPort(h[colon + 1..])
  }

  ghost predicate IsReadAsAuthority(t: string) {
    var at := First(t, '@', 0);
    if at == |t| then IsReadAsHostPort(t) else Text(":", t[..at]) && IsReadAsHostPort(t[at + 1..])
  }

  lemma LiteralIsCutOff(h: string, n: nat)
    requires 2 <= n < |h| && IsIpLiteral(h[..n])
    ensures SplitAuthorityHostPort(h) == Some((h[..n], n))
  {
    hide IsIPv6Address, IsIPvFuture, IsIpLiteral, IsIPv4Address, Text;
    HostAlphabet(h[..n]);
    LiteralBrackets(h[..n]);
    forall j | 0 <= j < n - 1 ensures h[j] != ']' {
      assert h[j] == h[..n][..n - 1][j];
    }
    assert h[n - 1] == h[..n][n - 1] && h[0] == h[..n][0];
    FirstIs(h, ']', n - 1);
  }

  lemma LiteralBrackets(s: string)
    requires IsIpLiteral(s)
    ensures |s| >= 2 && s[0] == '[' && s[|s| - 1] == ']'
  {
    hide IsIPv6Address, IsIPvFuture;
  }

  /** host [ ":" port ], or an IP-literal and something else. */
  lemma HostPortIsRead(h: string)
    ensures IsReadAsHostPort(h) <==> IsHostPort(h) || IsLooseLiteral(h)
    ensures !(IsHostPort(h) && IsLooseLiteral(h))
  {
    hide IsHost, IsHostPort, IsPort;
    HostPortBySplit(h);
    if n: nat :| 2 <= n < |h| && IsIpLiteral(h[..n]) && h[n] != ':' {
      LiteralIsCutOff(h, n);
      LiteralIsHost(h[..n]);
    }
    if IsReadAsHostPort(h) && !IsHostPort(h) {
      BracketedHost(h);
    }
  }

  lemma LiteralIsHost(s: string)
    requires IsIpLiteral(s)
    ensures IsHost(s)
  {
  }

  lemma BracketedHost(h: string)
    requires var split := SplitAuthorityHostPort(h);
             split.Some? && IsHost(split.value.0) && split.value.1 < |h| && h[split.value.1] != ':'
    ensures IsLooseLiteral(h)
  {
    hide IsIpLiteral, IsIPv4Address, Text;
    var n := SplitAuthorityHostPort(h).value.1;
    var host := h[..n];
    assert h[0] == '[' && n >= 2 && host[0] == '[';
    if IsIPv4Address(host) {
      IPv4Run(host);
    } else if Text("", host) {
      TextAlphabet("", host);
    }
  }

  lemma AuthorityIsRead(t: string)
    requires Text(AUTHORITY, t)
    ensures IsReadAsAuthority(t) <==> IsAuthority(t) || IsLooseAuthority(t)
    ensures !(IsAuthority(t) && IsLooseAuthority(t))
  {
    hide Text, IsHostPort, IsReadAsHostPort, IsLooseLiteral, IsAuthority, First;
    AuthorityByAt(t);
    var at := First(t, '@', 0);
    HostPortIsRead(if at < |t| then t[at + 1..] else t);
  }

  lemma HostIsText(host: string)
    requires IsHost(host)
    ensures Text(AUTHORITY, host)
  {
    hide IsIPv6Address, IsIPvFuture, IsIPv4Address, Text;
    if IsIpLiteral(host) {
      var inner := host[1..|host| - 1];
      if IsIPv6Address(inner) {
        IPv6Alphabet(inner);
      } else {
        IPvFutureAlphabet(inner);
      }
      assert forall k | 0 < k < |host| - 1 :: host[k] == inner[k - 1];
      AllAllowed(AUTHORITY, host);
    } else if IsIPv4Address(host) {
      IPv4Run(host);
      AllAllowed(AUTHORITY, host);
    } else {
      TextChange("", AUTHORITY, host);
    }
  }

  lemma HostPortIsText(s: string)
    requires IsHostPort(s)
    ensures Text(AUTHORITY, s)
  {
    hide IsHost, Text;
    var hp :| IsWellFormedHostPort(hp) && HostPortText(hp) == s;
    HostIsText(hp.host);
    if hp.port.Some? {
      AllAllowed(AUTHORITY, [':'] + hp.port.value);
      TextConcat(AUTHORITY, hp.host, [':'] + hp.port.value);
    } else {
      assert s == hp.host;
    }
  }

  lemma AuthorityIsText(t: string)
    requires IsAuthority(t)
    ensures Text(AUTHORITY, t)
  {
    hide IsHostPort, Text;
    if IsHostPort(t) {
      HostPortIsText(t);
    } else {
      var k: nat :| UserinfoEndsAt(t, k);
      TextChange(":", AUTHORITY, t[..k]);
      HostPortIsText(t[k + 1..]);
      AllAllowed(AUTHORITY, "@");
      TextConcat(AUTHORITY, "@", t[k + 1..]);
      TextConcat(AUTHORITY, t[..k], "@" + t[k + 1..]);
      assert t == t[..k] + ("@" + t[k + 1..]);
    }
  }

  lemma AuthorityDoneOnText(b: Bytes, scheme: View, from: nat, to: nat)
    requires from <= to <= |b|
    ensures AuthorityAt(b, scheme, from, to).Done? <==> IsReadAsAuthority(b[from..to])
  {
    hide IsHost, Text, SplitAuthorityHostPort, IsPort, First;
    var t := b[from..to];
    var at, here := First(b[..to], '@', from), First(t, '@', 0);
    assert here == at - from by {
      assert forall k | 0 <= k < |t| :: t[k] == b[..to][from + k];
      assert at < to ==> b[..to][at] == t[at - from];
    }
    if at < to {
      assert t[..here] == b[from..at] && t[here + 1..] == b[at + 1..to];
    }
  }

  // ---- absolute form

  /** What both kinds of texts come to, component by component. */
  ghost predicate IsReadAsReference(u: Reference) {
    && IsAbsolute(u) && IsScheme(u.scheme.value)
    && (u.authority.Some? ==> Text(AUTHORITY, u.authority.value) && IsReadAsAuthority(u.authority.value))
    && (u.authority.Some? ==> u.path == [] || u.path[0] == '/')
    && (u.authority.None? ==> |u.path| < 2 || u.path[0] != '/' || u.path[1] != '/')
    && IsPathAndQuery(u.path, u.query)
  }

  lemma ReferenceIsRead(u: Reference)
    ensures IsReadAsReference(u) <==> (IsAbsolute(u) && IsWellFormed(u)) || IsLooseReference(u)
    ensures !(IsWellFormed(u) && IsLooseReference(u))
  {
    hide Text, IsPathAbEmpty, IsPathAbsolute, IsPathFrom, IsScheme, IsAuthority, IsLooseAuthority, IsReadAsAuthority;
    AbEmptyIsRun(u.path);
    EmptyText(PATH);
    if u.authority.Some? {
      var t := u.authority.value;
      if Text(AUTHORITY, t) {
        AuthorityIsRead(t);
      } else {
        LooseIsText(t);
      }
      if IsAuthority(t) {
        AuthorityIsText(t);
      }
    } else if IsAbsolute(u) {
      WellFormedPath(u);
    }
  }

  lemma LooseIsText(t: string)
    ensures IsLooseAuthority(t) ==> Text(AUTHORITY, t)
  {
  }

  lemma WellFormedPath(u: Reference)
    requires IsAbsolute(u) && u.authority.None?
    ensures IsWellFormed(u) <==>
            && IsScheme(u.scheme.value) && IsPathAndQuery(u.path, u.query)
            && (|u.path| < 2 || u.path[0] != '/' || u.path[1] != '/')
  {
    hide Text, IsPathAbEmpty, IsPathAbsolute, IsPathFrom, IsScheme;
    AbsoluteIsRun(u.path);
    PathFromIsRun(PCHAR, u.path);
    EmptyText(PATH);
  }

  /** Behind an authority there is a slash, or no path. */
  lemma PathBehindAuthority(b: Bytes, s: nat, a: nat, p: nat)
    requires s <= a <= p <= |b| && Run(b, s, AUTHORITY) == Stop(a) && Text(PATH, b[a..p])
    ensures p == a || b[a] == '/'
  {
    hide Run;
    if a < p {
      assert b[a..p][0] == b[a];
    }
  }

  lemma Composed(b: Bytes, i: nat, k: nat, a: nat, p: nat, e: nat, u: Reference)
    requires i <= k < a <= p <= e <= |b| && b[k] == ':'
    requires if u.authority.Some? then SlashesAt(b, k + 1) && k + 3 <= a && u.authority.value == b[k + 3..a] else a == k + 1
    requires u.scheme == Some(b[i..k]) && u.path == b[a..p] && u.fragment.None? && p == Mark(b, a, e)
    requires u.query == if p < e then Some(b[p + 1..e]) else None
    ensures Compose(u) == b[i..e]
  {
    hide Mark, Suffixed, SchemeText, AuthorityText;
    JoinAtMark(b, a, e);
    SchemeInPlace(b, i, k, u.scheme);
    AuthorityInPlace(b, k, a, u.authority);
    NoFragment(u);
    Joined(b, i, k + 1, a, e);
    Regrouped(b[i..k + 1], b[k + 1..a], u.path, Suffixed('?', u.query));
  }

  lemma SchemeInPlace(b: Bytes, i: nat, k: nat, scheme: Option<string>)
    requires i <= k < |b| && b[k] == ':' && scheme == Some(b[i..k])
    ensures SchemeText(scheme) == b[i..k + 1]
  {
  }

  lemma AuthorityInPlace(b: Bytes, k: nat, a: nat, authority: Option<string>)
    requires k < a <= |b|
    requires if authority.Some? then SlashesAt(b, k + 1) && k + 3 <= a && authority.value == b[k + 3..a] else a == k + 1
    ensures AuthorityText(authority) == b[k + 1..a]
  {
  }

  lemma Joined(b: Bytes, i: nat, j: nat, a: nat, e: nat)
    requires i <= j <= a <= e <= |b|
    ensures b[i..j] + b[j..a] + b[a..e] == b[i..e]
  {
  }

  lemma Regrouped(x: string, y: string, z: string, w: string)
    ensures x + y + z + w + "" == x + y + (z + w)
  {
  }

  /** What is behind the scheme: the authority, if there is one, and where the path starts. */
  lemma AuthorityToText(b: Bytes, i: nat, k: nat, e: nat) returns (a: nat, authority: Option<string>)
    requires i < k < e < |b| && b[e] == ' ' && IsAlpha(b[i]) && k == SchemeStop(b, i + 1) && b[k] == ':'
    requires AbsoluteFormAt(b, i).Done? && AbsoluteFormAt(b, i).end == e
    ensures k < a <= e
    ensures if authority.Some? then SlashesAt(b, k + 1) && k + 3 <= a && authority.value == b[k + 3..a] else a == k + 1
    ensures var p := Mark(b, a, e); Text(PATH, b[a..p]) && (p < e ==> Text(QUERY, b[p + 1..e]))
    ensures var p := Mark(b, a, e);
            if authority.Some? then
              Text(AUTHORITY, authority.value) && IsReadAsAuthority(authority.value) && (p == a || b[a] == '/')
            else !SlashesAt(b, a)
  {
    hide Run, Text, AuthorityAt, PathAndQueryAt, IsReadAsAuthority, Mark, AbsoluteFormAt, SlashesAt;
    var value;
    a, value := AbsoluteFormParts(b, i, k, e);
    authority := if value.Some? then Some(b[k + 3..a]) else None;
    PathAndQueryOnText(b, a, e, value);
    if value.Some? {
      AuthorityDoneOnText(b, View(i, k), k + 3, a);
      ReachIsText(b, k + 3, AUTHORITY);
      PathBehindAuthority(b, k + 3, a, Mark(b, a, e));
    }
  }

  lemma AbsoluteFormParts(b: Bytes, i: nat, k: nat, e: nat) returns (a: nat, authority: Option<Authority>)
    requires i < k < e < |b| && IsAlpha(b[i]) && k == SchemeStop(b, i + 1) && b[k] == ':'
    requires AbsoluteFormAt(b, i).Done? && AbsoluteFormAt(b, i).end == e
    ensures k < a <= e && (SlashesAt(b, k + 1) <==> authority.Some?)
    ensures if authority.None? then a == k + 1
            else && k + 3 <= a && Run(b, k + 3, AUTHORITY) == Stop(a)
                 && AuthorityAt(b, View(i, k), k + 3, a).Done?
    ensures PathAndQueryAt(b, a, authority).Done? && PathAndQueryAt(b, a, authority).end == e
  {
    hide Run, AuthorityAt, PathAndQueryAt, SchemeStop;
    a, authority := k + 1, None;
    if SlashesAt(b, k + 1) {
      a := AuthorityRun(b, k + 3).at;
      authority := Some(AuthorityAt(b, View(i, k), k + 3, a).value);
    }
  }

  lemma ColonBehindScheme(b: Bytes, i: nat, e: nat)
    requires i < e < |b| && b[e] == ' ' && AbsoluteFormAt(b, i).Done? && AbsoluteFormAt(b, i).end == e
    ensures IsAlpha(b[i]) && SchemeStop(b, i + 1) < e && b[SchemeStop(b, i + 1)] == ':'
  {
    hide Run, AuthorityAt, PathAndQueryAt, SchemeStop;
  }

  lemma AbsoluteToText(b: Bytes, i: nat, e: nat) returns (u: Reference)
    requires i < e < |b| && b[e] == ' ' && AbsoluteFormAt(b, i).Done? && AbsoluteFormAt(b, i).end == e
    ensures IsReadAsReference(u) && Compose(u) == b[i..e]
  {
    hide AbsoluteFormAt, Text, IsReadAsAuthority, IsScheme, Compose, Mark;
    ColonBehindScheme(b, i, e);
    var k := SchemeStop(b, i + 1);
    SchemeIs(b, i, k);
    var a, authority := AuthorityToText(b, i, k, e);
    var p := Mark(b, a, e);
    u := Reference(Some(b[i..k]), authority, b[a..p], if p < e then Some(b[p + 1..e]) else None, None);
    Composed(b, i, k, a, p, e, u);
  }

  lemma SchemeIs(b: Bytes, i: nat, k: nat)
    requires i < k <= |b| && IsAlpha(b[i]) && forall j | i < j < k :: IsSchemeChar(b[j])
    ensures IsScheme(b[i..k])
  {
  }

  lemma SchemeUpTo(b: Bytes, i: nat, k: nat)
    requires i < k < |b| && b[k] == ':' && IsScheme(b[i..k])
    ensures IsAlpha(b[i]) && SchemeStop(b, i + 1) == k
  {
    assert b[i] == b[i..k][0];
    forall j | i <= j < k ensures IsSchemeChar(b[j]) {
      assert b[j] == b[i..k][j - i];
    }
  }

  /** Where the components are in the buffer. */
  lemma PlacesOf(b: Bytes, i: nat, e: nat, u: Reference) returns (k: nat, a: nat)
    requires i < e < |b| && b[e] == ' ' && IsReadAsReference(u) && Compose(u) == b[i..e]
    ensures i < k < a <= e && b[k] == ':' && u.scheme == Some(b[i..k])
    ensures u.path + Suffixed('?', u.query) == b[a..e]
    ensures if u.authority.Some? then SlashesAt(b, k + 1) && k + 3 <= a && u.authority.value == b[k + 3..a] else a == k + 1
  {
    hide Text, IsReadAsAuthority, SchemeText, AuthorityText, Suffixed;
    var s := b[i..e];
    var x, y, z, w := SchemeText(u.scheme), AuthorityText(u.authority), u.path, Suffixed('?', u.query);
    assert Suffixed('#', u.fragment) == "" by { NoFragment(u); }
    PiecesOf(x, y, z, w, "");
    assert s == x + y + z + w;
    k, a := i + |u.scheme.value|, i + |x + y|;
    PiecesInPlace(b, i, e, u);
    assert b[a..e] == s[|x + y|..] == z + w;
  }

  lemma NoFragment(u: Reference)
    requires u.fragment.None?
    ensures Suffixed('#', u.fragment) == ""
  {
  }

  lemma PiecesInPlace(b: Bytes, i: nat, e: nat, u: Reference)
    requires i <= e <= |b| && u.scheme.Some? && u.scheme.value != []
    requires SchemeText(u.scheme) + AuthorityText(u.authority) + u.path + Suffixed('?', u.query) == b[i..e]
    ensures var x, y := SchemeText(u.scheme), AuthorityText(u.authority);
            var k, a := i + |u.scheme.value|, i + |x + y|;
            && i < k < a <= e && b[k] == ':' && u.scheme == Some(b[i..k])
            && if u.authority.Some? then SlashesAt(b, k + 1) && k + 3 <= a && u.authority.value == b[k + 3..a] else a == k + 1
  {
    hide Suffixed;
    var x, y, z := SchemeText(u.scheme), AuthorityText(u.authority), u.path + Suffixed('?', u.query);
    assert b[i..e] == (x + y) + z by { assert x + y + u.path + Suffixed('?', u.query) == (x + y) + z; }
    TwoInPlace(b, i, e, x, y, z);
    var j, k := i + |x|, i + |u.scheme.value|;
    assert b[i..k] == b[i..j][..|x| - 1] && b[k] == b[i..j][|x| - 1];
    if u.authority.Some? {
      var a := j + |y|;
      assert b[j] == b[j..a][0] && b[j + 1] == b[j..a][1] && b[j + 2..a] == b[j..a][2..];
    }
  }

  lemma TwoInPlace(b: Bytes, i: nat, e: nat, x: string, y: string, z: string)
    requires i <= e <= |b| && b[i..e] == (x + y) + z
    ensures i + |x + y| <= e && b[i..i + |x|] == x && b[i + |x|..i + |x + y|] == y
  {
    var s := b[i..e];
    assert s[..|x|] == x && s[|x|..|x + y|] == y;
    SliceOf(b, i, e, 0, |x|);
    SliceOf(b, i, e, |x|, |x + y|);
  }

  lemma SliceOf(b: Bytes, i: nat, e: nat, p: nat, q: nat)
    requires p <= q && i + q <= e <= |b|
    ensures b[i..e][p..q] == b[i + p..i + q]
  {
    var t, u := b[i..e][p..q], b[i + p..i + q];
    assert |t| == |u| && forall m | 0 <= m < |t| :: t[m] == b[i + (p + m)] == u[m];
  }

  lemma AuthorityFromText(b: Bytes, scheme: View, from: nat, a: nat)
    requires from <= a < |b| && b[a] in "/? " && Text(AUTHORITY, b[from..a]) && IsReadAsAuthority(b[from..a])
    ensures Run(b, from, AUTHORITY) == Stop(a) && AuthorityAt(b, scheme, from, a).Done?
  {
    hide Run, Text, AuthorityAt, IsReadAsAuthority;
    RunOnText(b, from, a, AUTHORITY);
    AuthorityDoneOnText(b, scheme, from, a);
  }

  lemma TextToAbsolute(b: Bytes, i: nat, e: nat, u: Reference)
    requires i < e < |b| && b[e] == ' ' && IsReadAsReference(u) && Compose(u) == b[i..e]
    ensures AbsoluteFormAt(b, i).Done? && AbsoluteFormAt(b, i).end == e
  {
    hide Run, Text, AuthorityAt, PathAndQueryAt, IsReadAsAuthority, IsScheme, Compose, Mark, SchemeStop, AbsoluteFormAt,
         SlashesAt;
    var k, a := PlacesOf(b, i, e, u);
    SchemeUpTo(b, i, k);
    CutAtMark(b, a, e, u.path, u.query);
    FollowsAuthority(b, a, e, u);
    var authority := None;
    if u.authority.Some? {
      AuthorityFromText(b, View(i, k), k + 3, a);
      authority := Some(AuthorityAt(b, View(i, k), k + 3, a).value);
    }
    PathAndQueryOnText(b, a, e, authority);
    AbsoluteFormDone(b, i, k, a, e, authority);
  }

  /** The absolute form is read when its parts are. */
  lemma AbsoluteFormDone(b: Bytes, i: nat, k: nat, a: nat, e: nat, authority: Option<Authority>)
    requires i < k < a <= e < |b| && IsAlpha(b[i]) && k == SchemeStop(b, i + 1) && b[k] == ':'
    requires SlashesAt(b, k + 1) <==> authority.Some?
    requires if authority.None? then a == k + 1
             else && Run(b, k + 3, AUTHORITY) == Stop(a)
                  && var o := AuthorityAt(b, View(i, k), k + 3, a); o.Done? && o.value == authority.value
    requires PathAndQueryAt(b, a, authority).Done? && PathAndQueryAt(b, a, authority).end == e
    ensures AbsoluteFormAt(b, i).Done? && AbsoluteFormAt(b, i).end == e
  {
    hide Run, AuthorityAt, PathAndQueryAt, SchemeStop;
  }

  /** The first character behind the authority, or behind the colon of the scheme. */
  lemma FollowsAuthority(b: Bytes, a: nat, e: nat, u: Reference)
    requires a <= e < |b| && b[e] == ' ' && IsReadAsReference(u)
    requires var p := Mark(b, a, e); u.path == b[a..p]
    ensures u.authority.Some? ==> b[a] in "/? "
    ensures u.authority.None? ==> !SlashesAt(b, a)
  {
    hide Text, IsReadAsAuthority, IsScheme, Mark;
    var p := Mark(b, a, e);
    assert a < p ==> b[a] == u.path[0];
    assert a + 1 < p ==> b[a + 1] == u.path[1];
  }

  lemma AbsoluteOnText(b: Bytes, i: nat, e: nat)
    requires i < e < |b| && b[e] == ' '
    ensures AbsoluteFormAt(b, i).Done? && AbsoluteFormAt(b, i).end == e <==>
            IsAbsoluteUri(b[i..e]) || IsLooseUri(b[i..e])
  {
    hide AbsoluteFormAt, IsWellFormed, IsLooseReference, IsReadAsReference, Compose;
    if AbsoluteFormAt(b, i).Done? && AbsoluteFormAt(b, i).end == e {
      var u := AbsoluteToText(b, i, e);
      ReferenceIsRead(u);
    }
    if IsAbsoluteUri(b[i..e]) {
      var u :| IsAbsolute(u) && IsWellFormed(u) && Compose(u) == b[i..e];
      ReferenceIsRead(u);
      TextToAbsolute(b, i, e, u);
    } else if IsLooseUri(b[i..e]) {
      var u :| IsLooseReference(u) && Compose(u) == b[i..e];
      ReferenceIsRead(u);
      TextToAbsolute(b, i, e, u);
    }
  }

  // ---- all forms

  lemma SchemeFirst(s: string)
    requires IsAbsoluteUri(s) || IsLooseUri(s)
    ensures s != [] && IsAlpha(s[0])
  {
    hide Text, IsPathAbEmpty, IsAuthority, IsLooseAuthority;
    var u;
    if IsAbsoluteUri(s) {
      u :| IsAbsolute(u) && IsWellFormed(u) && Compose(u) == s;
    } else {
      u :| IsLooseReference(u) && Compose(u) == s;
    }
    assert s[0] == u.scheme.value[0];
  }

  lemma SlashFirst(s: string)
    requires IsOriginForm(s)
    ensures s != [] && s[0] == '/'
  {
    hide Text, IsPathAbEmpty;
    var path: string, query :| IsPathAndQuery(path, query) && path != [] && IsPathAbEmpty(path) && path + Suffixed('?', query) == s;
    AbEmptyIsRun(path);
    assert s[0] == path[0];
  }

  /**
   A text with a space behind it is taken for a target exactly when it is one of section 3.2 of RFC 9112, in the
   form that the method and the first character call for, or an absolute form with more behind an IP-literal.
   */
  lemma TargetOnText(b: Bytes, name: Bytes, i: nat, e: nat)
    requires i < e < |b| && b[e] == ' '
    ensures TargetAt(b, name, i).Done? && TargetAt(b, name, i).end == e <==> IsTarget(name, b[i..e])
  {
    hide AuthorityFormAt, OriginFormAt, AbsoluteFormAt, TargetAt, IsAuthorityForm, IsOriginForm, IsAbsoluteUri, IsLooseUri;
    var s := b[i..e];
    TargetIs(b, name, i);
    assert s[0] == b[i];
    if IsOriginForm(s) {
      SlashFirst(s);
    }
    if IsAbsoluteUri(s) || IsLooseUri(s) {
      SchemeFirst(s);
    }
    if name == "CONNECT" {
      AuthorityFormOnText(b, i, e);
    } else if b[i] == '/' {
      OriginOnText(b, i, e);
    } else if IsAlpha(b[i]) {
      AbsoluteOnText(b, i, e);
    } else {
      assert s == "*" <==> b[i] == '*' && e == i + 1;
    }
  }

  /** The target of an accepted head, with the space that follows it. */
  lemma AcceptedTarget(r: Rules, b: Bytes)
    requires HeadAt(r, b).Done?
    ensures var i := MethodAt(b).end; var name := b[..i - 1];
            var t := TargetAt(b, name, i);
            t.Done? && t.end < |b| && b[t.end] == ' ' && IsTarget(name, b[i..t.end]) && HeadAt(r, b).value.target == t.value
  {
    hide MethodAt, TargetAt, IsTarget, HasNulTriplet, FieldsAt;
    var i := MethodAt(b).end;
    TargetOnText(b, b[..i - 1], i, TargetAt(b, b[..i - 1], i).end);
  }

  /** The exception is outside the grammar. */
  lemma LooseIsOutside(s: string)
    requires IsLooseUri(s)
    ensures !IsAbsoluteUri(s) && !IsReference(s, true)
  {
    hide IsWellFormed, Compose, Split, HasShape, IsLooseReference;
    var u :| IsLooseReference(u) && Compose(u) == s;
    LooseHasShape(u);
    SplitCompose(u);
    ReferenceIsRead(u);
    ReferenceBySplit(s, true);
    AbsoluteIsReference(s);
  }

  lemma AbsoluteIsReference(s: string)
    ensures IsAbsoluteUri(s) ==> IsReference(s, true)
  {
    hide IsWellFormed, Compose;
  }

  lemma StopsAreNotAllowed()
    ensures forall c | c in "/?#" :: c != '%' && !Allowed(AUTHORITY, c)
    ensures forall c | c in "?#" :: c != '%' && !Allowed(PATH, c)
    ensures forall c | c in "#" :: c != '%' && !Allowed(QUERY, c)
  {
  }

  lemma LooseHasShape(u: Reference)
    requires IsLooseReference(u)
    ensures HasShape(u)
  {
    hide Text, IsPathAbEmpty, IsScheme, IsLooseAuthority, Allowed;
    StopsAreNotAllowed();
    AbEmptyIsRun(u.path);
    RunHasNone(PATH, u.path, "?#");
    LooseIsText(u.authority.value);
    RunHasNone(AUTHORITY, u.authority.value, "/?#");
    if u.query.Some? {
      RunHasNone(QUERY, u.query.value, "#");
    }
  }

  const GET: Bytes := "GET"
  const LOOSE: Bytes := "h://[v1.a]x"

  /** The exception exists. */
  lemma LooseExample()
    ensures IsLooseUri(LOOSE) && IsTarget(GET, LOOSE)
  {
    hide Text, IsPathAbEmpty, IsLooseAuthority, IsScheme;
    LooseLiteralExample();
    AbEmptyIsRun("");
    EmptyText(PATH);
    var u := Reference(Some("h"), Some("[v1.a]x"), "", None, None);
    assert "h"[0..1] == "h";
    SchemeIs("h", 0, 1);
    assert Compose(u) == LOOSE;
    assert IsLooseReference(u);
  }

  lemma LooseLiteralExample()
    ensures IsLooseAuthority("[v1.a]x")
  {
    hide Text, IsIPv6Address;
    var t := "[v1.a]x";
    assert DotAt("v1.a", 2);
    assert t[..6] == "[v1.a]" && "[v1.a]"[1..5] == "v1.a";
    assert IsIpLiteral(t[..6]);
    AllAllowed(AUTHORITY, t);
    FirstIs(t, '@', 7);
  }
}
