/**
 The authority of a target in absolute form, as the decoder judges it while it is still coming in: the text up
 to the end of the data is taken for [ userinfo "@" ] host [ ":" port ], although it may be user information
 only.
 */
module AbsoluteForm {
  import opened Octets
  import opened HttpText
  import opened IpAddress
  import opened UriReference
  import opened RequestHead
  import opened Scanning

  // ---- texts

  /** The host or the port is rejected. */
  ghost predicate IsBadHostPort(t: Bytes) {
    match SplitAuthorityHostPort(t)
    case None => false
    case Some((host, colon)) => !IsHost(host) || (colon < |t| && t[colon] == ':' && !IsPort(t[colon + 1..]))
  }

  ghost predicate IsBadAuthority(t: Bytes) {
    var at := First(t, '@', 0);
    if at == |t| then IsBadHostPort(t) else !Text(":", t[..at]) || IsBadHostPort(t[at + 1..])
  }

  lemma FirstStable(b: Bytes, d: Bytes, c: char)
    requires b <= d && First(b, c, 0) < |b|
    ensures First(d, c, 0) == First(b, c, 0)
  {
    var j := First(b, c, 0);
    assert d[j] == b[j] && forall m | 0 <= m < j :: d[m] == b[m];
  }

  /** An "@" or a bracket in the host. */
  lemma StrayIsNoHost(s: Bytes, k: nat)
    requires k < |s| && s[k] in "@[]" && s[0] != '['
    ensures !IsHost(s)
  {
    hide IsIPv4Address, Text, IsIPv6Address;
    if IsIPv4Address(s) {
      IPv4Run(s);
    }
    if Text("", s) {
      TextAlphabet("", s);
    }
  }

  /** What is rejected of a host and a port stays rejected. */
  lemma BadHostPortStays(t: Bytes, u: Bytes)
    requires t <= u && Text(AUTHORITY, t) && IsBadHostPort(t)
    ensures IsBadHostPort(u)
  {
    hide Text, IsHost;
    assert t != [] by { EmptyIsHost(); }
    if t[0] == '[' || First(t, ':', 0) < |t| {
      FirstStable(t, u, if t[0] == '[' then ']' else ':');
      var colon := SplitAuthorityHostPort(t).value.1;
      assert u[..colon] == t[..colon];
      if colon < |t| {
        assert t[colon + 1..] <= u[colon + 1..];
      }
    } else {
      assert t[..|t|] == t;
      StrayIn(t);
      var k :| 0 <= k < |t| && t[k] in "@[]";
      var colon := First(u, ':', 0);
      assert k < colon by { assert forall m | 0 <= m < |t| :: u[m] == t[m]; }
      StrayIsNoHost(u[..colon], k);
    }
  }

  lemma EmptyIsHost()
    ensures IsHost([])
  {
  }

  /** A rejected host without brackets in front and without a colon. */
  lemma StrayIn(t: Bytes)
    requires Text(AUTHORITY, t) && !IsHost(t) && ':' !in t
    ensures exists k | 0 <= k < |t| :: t[k] in "@[]"
  {
    if forall k | 0 <= k < |t| :: t[k] !in "@[]" {
      TextChange(AUTHORITY, "", t);
    }
  }

  /** The user information, the host or the port was rejected: more text helps only if what there is turns out
      to be user information. */
  lemma BadAuthorityStays(t: Bytes, u: Bytes)
    requires t <= u && Text(AUTHORITY, t) && IsBadAuthority(t)
    ensures var at := First(u, '@', 0);
            IsBadAuthority(u) || (|t| <= at < |u| && IsBadHostPort(u[..at]) && Text(":", t))
  {
    hide Text, IsBadHostPort;
    var at := First(t, '@', 0);
    if at < |t| {
      FirstStable(t, u, '@');
      assert u[..at] == t[..at] && t[at + 1..] <= u[at + 1..];
      if IsBadHostPort(t[at + 1..]) {
        TextCut(AUTHORITY, t, at);
        BehindAt(t, at);
        BadHostPortStays(t[at + 1..], u[at + 1..]);
      }
    } else {
      var next := First(u, '@', 0);
      assert |t| <= next by { assert forall m | 0 <= m < |t| :: u[m] == t[m]; }
      assert t <= u[..next] && u[..|u|] == u;
      BadHostPortStays(t, u[..next]);
      if next < |u| && Text(":", u[..next]) {
        InUserinfo(t, u[..next]);
      }
    }
  }

  lemma BehindAt(t: Bytes, at: nat)
    requires at < |t| && t[at] == '@' && Text(AUTHORITY, t[at..])
    ensures Text(AUTHORITY, t[at + 1..])
  {
    hide Text;
    TextStep(AUTHORITY, t, at, |t|);
    assert t[at..|t|] == t[at..] && t[at + 1..|t|] == t[at + 1..];
  }

  /** A part of user information that ends in no triplet is user information. */
  lemma InUserinfo(t: Bytes, u: Bytes)
    requires t <= u && Text(AUTHORITY, t) && Text(":", u)
    ensures Text(":", t)
  {
    hide Text;
    TextAlphabet(":", u);
    forall i | 0 <= i < |t| && t[i] in AUTHORITY ensures t[i] in ":" {
      assert t[i] == u[i];
    }
    TextChange(AUTHORITY, ":", t);
  }

  // ---- in the buffer

  lemma AuthorityOnText(b: Bytes, scheme: View, from: nat, to: nat)
    requires from <= to <= |b|
    ensures AuthorityAt(b, scheme, from, to).Invalid? <==> IsBadAuthority(b[from..to])
  {
    hide IsHost, Text, SplitAuthorityHostPort, IsPort, First;
    var t := b[from..to];
    var at, here := First(b[..to], '@', from), First(t, '@', 0);
    assert here == at - from by {
      assert forall k | 0 <= k < |t| :: t[k] == b[..to][from + k];
      assert at < to ==> b[..to][at] == t[at - from];
    }
    if at < to {
      assert t[..here] == b[from..at] && t[here + 1..] == b[at + 1..to];
    }
  }

  lemma SliceStable(b: Bytes, d: Bytes, i: nat, j: nat)
    requires b <= d && i <= j <= |b|
    ensures d[i..j] == b[i..j]
  {
    assert d[i..j] == d[..|b|][i..j];
  }

  lemma AuthorityStable(b: Bytes, d: Bytes, scheme: View, from: nat, to: nat)
    requires b <= d && from <= to <= |b|
    ensures AuthorityAt(d, scheme, from, to) == AuthorityAt(b, scheme, from, to)
  {
    hide IsHost, Text, SplitAuthorityHostPort, IsPort, First;
    assert d[..to] == b[..to];
    var at := First(b[..to], '@', from);
    var start := if at < to then at + 1 else from;
    SliceStable(b, d, start, to);
    SliceStable(b, d, from, at);
  }

  /** Where the authority starts, if the target at `i` has one. */
  function AuthorityStart(b: Bytes, i: nat): (s: Option<nat>)
    ensures s.Some? ==> i + 3 < s.value <= |b| && SchemeStop(b, i + 1) == s.value - 3
  {
    if i >= |b| || !IsAlpha(b[i]) then None
    else
      var k := SchemeStop(b, i + 1);
      if k < |b| && b[k] == ':' && SlashesAt(b, k + 1) then Some(k + 3) else None
  }

  lemma StartStable(b: Bytes, d: Bytes, i: nat)
    requires b <= d && AuthorityStart(b, i).Some?
    ensures AuthorityStart(d, i) == AuthorityStart(b, i)
  {
    SchemeStable(b, d, i + 1);
  }

  /** The authority still runs to the end of the data. */
  predicate AuthorityRunsOn(b: Bytes, i: nat) {
    var s := AuthorityStart(b, i);
    s.Some? && AuthorityRun(b, s.value) == Stop(|b|)
  }

  /** What has been received of the authority. */
  function AuthoritySoFar(b: Bytes, i: nat): (t: Bytes)
    requires AuthorityStart(b, i).Some?
    ensures var s := AuthorityStart(b, i).value; s + |t| == Reach(b, s, AUTHORITY) && t == b[s..s + |t|]
  {
    var s := AuthorityStart(b, i).value;
    b[s..Reach(b, s, AUTHORITY)]
  }

  lemma SoFarGrows(b: Bytes, d: Bytes, i: nat)
    requires b <= d && AuthorityStart(b, i).Some?
    ensures AuthorityStart(d, i) == AuthorityStart(b, i)
    ensures AuthoritySoFar(b, i) <= AuthoritySoFar(d, i) && Text(AUTHORITY, AuthoritySoFar(b, i))
  {
    hide Text, Reach, AuthorityStart;
    StartStable(b, d, i);
    var s := AuthorityStart(b, i).value;
    ReachGrows(b, d, s, AUTHORITY);
    ReachIsText(b, s, AUTHORITY);
  }

  /** With the authority complete, a target in absolute form is as good as its authority and what follows it. */
  lemma WithAuthority(b: Bytes, i: nat)
    requires AuthorityStart(b, i).Some?
    ensures var s := AuthorityStart(b, i).value;
            AbsoluteFormAt(b, i) ==
            match AuthorityRun(b, s)
            case Bad => Invalid
            case Cut => More
            case Stop(a) =>
              (match AuthorityAt(b, View(i, s - 3), s, a)
               case Invalid => Invalid
               case More => More
               case Done(authority, _) => PathAndQueryAt(b, a, Some(authority)))
  {
    hide AuthorityAt, Run, PathAndQueryAt;
  }

  // ---- what more bytes change

  /** What a step reports stays, once it does not lean on the end of the data; what needed more bytes was
      not all there. */
  predicate Kept<T(==)>(o: Outcome<T>, p: Outcome<T>, b: Bytes) {
    && (o.Invalid? ==> p.Invalid?)
    && (o.Done? && o.end < |b| ==> p == o)
    && (o.Done? && o.end >= |b| && p.Done? ==> |b| <= p.end)
    && (o.More? && p.Done? ==> |b| < p.end)
  }

  lemma QueryStable(b: Bytes, d: Bytes, p: nat)
    requires b <= d && p < |b|
    ensures Kept(QueryAt(b, p), QueryAt(d, p), b)
  {
    hide Run;
    if b[p] == '?' {
      RunStable(b, d, p + 1, QUERY);
    }
  }

  lemma PathAndQueryStable(b: Bytes, d: Bytes, from: nat, authority: Option<Authority>)
    requires b <= d && from <= |b|
    ensures Kept(PathAndQueryAt(b, from, authority), PathAndQueryAt(d, from, authority), b)
  {
    hide Run, QueryAt;
    RunStable(b, d, from, PATH);
    var s := Run(b, from, PATH);
    if s.Stop? && s.at < |b| {
      QueryStable(b, d, s.at);
    } else if s.Stop? {
      NoQuery(b, s.at);
    }
  }

  lemma NoQuery(b: Bytes, p: nat)
    requires p <= |b| && (p < |b| ==> b[p] != '?')
    ensures QueryAt(b, p) == Done(View(p, p), p)
  {
  }

  lemma WithAuthorityStable(b: Bytes, d: Bytes, i: nat)
    requires b <= d && AuthorityStart(b, i).Some?
    ensures Kept(AbsoluteFormAt(b, i), AbsoluteFormAt(d, i), b) || (AbsoluteFormAt(b, i).Invalid? && AuthorityRunsOn(b, i))
  {
    hide AbsoluteFormAt, AuthorityAt, Run, PathAndQueryAt, AuthorityStart;
    StartStable(b, d, i);
    WithAuthority(b, i);
    WithAuthority(d, i);
    var s := AuthorityStart(b, i).value;
    RunStable(b, d, s, AUTHORITY);
    var run := AuthorityRun(b, s);
    if run.Stop? {
      AuthorityStable(b, d, View(i, s - 3), s, run.at);
      var o := AuthorityAt(b, View(i, s - 3), s, run.at);
      if o.Done? {
        if run.at < |b| {
          PathAndQueryStable(b, d, run.at, Some(o.value));
        } else {
          PathAtEnd(b, Some(o.value));
        }
      }
    }
  }

  lemma PathAtEnd(b: Bytes, authority: Option<Authority>)
    ensures PathAndQueryAt(b, |b|, authority).Done? && PathAndQueryAt(b, |b|, authority).end == |b|
  {
    NoQuery(b, |b|);
  }

  lemma AbsoluteFormStable(b: Bytes, d: Bytes, i: nat)
    requires b <= d && i < |b|
    ensures Kept(AbsoluteFormAt(b, i), AbsoluteFormAt(d, i), b) || (AbsoluteFormAt(b, i).Invalid? && AuthorityRunsOn(b, i))
  {
    hide AuthorityAt, Run, PathAndQueryAt, SchemeStop;
    if AuthorityStart(b, i).Some? {
      hide AuthorityStart;
      WithAuthorityStable(b, d, i);
    } else if IsAlpha(b[i]) {
      SchemeStable(b, d, i + 1);
      var k := SchemeStop(b, i + 1);
      if k < |b| && b[k] == ':' {
        PathAndQueryStable(b, d, k + 1, None);
        if SlashesAt(d, k + 1) {
          ShortPath(b, k + 1);
        }
      }
    }
  }

  /** At most one slash, and the end of the data. */
  lemma ShortPath(b: Bytes, from: nat)
    requires from <= |b| <= from + 1 && (from < |b| ==> b[from] == '/')
    ensures PathAndQueryAt(b, from, None).Done? && PathAndQueryAt(b, from, None).end == |b|
  {
    RunOver(b, from, |b|, PATH);
    NoQuery(b, |b|);
  }
}
