/**
 When the rejection of a head is final, exactly, and which heads are not rejected on the way to being complete.
 */
module Rejection {
  import opened Octets
  import opened HttpText
  import opened IpAddress
  import opened UriReference
  import opened PercentDecode
  import opened RequestHead
  import opened Scanning
  import opened AbsoluteForm
  import opened HeadStability

  /** Nothing has ended the target yet, or the authority in it. */
  ghost predicate TargetRunsOn(b: Bytes) {
    var o := MethodAt(b);
    o.Done? &&
      var name := b[..o.end - 1];
      var t := TargetAt(b, name, o.end);
      (t.Done? && t.end == |b|) || (name != "CONNECT" && AuthorityRunsOn(b, o.end))
  }

  // ---- a "%" reopens what runs on

  lemma PercentCutsPathAndQuery(b: Bytes, from: nat, authority: Option<Authority>)
    requires from <= |b| && PathAndQueryAt(b, from, authority).Done? && PathAndQueryAt(b, from, authority).end == |b|
    ensures PathAndQueryAt(b + "%", from, authority).More?
  {
    hide Run;
    var s := Run(b, from, PATH);
    if s.at == |b| {
      PercentCutsRun(b, from, PATH);
    } else {
      RunStable(b, b + "%", from, PATH);
      PercentCutsRun(b, s.at + 1, QUERY);
    }
  }

  lemma PercentCutsAbsoluteForm(b: Bytes, i: nat)
    requires i < |b| && AbsoluteFormAt(b, i).Done? && AbsoluteFormAt(b, i).end == |b|
    requires AbsoluteFormAt(b, i).value.path.from + 3 <= |b|
    ensures AbsoluteFormAt(b + "%", i).More?
  {
    hide Run, AuthorityAt, SchemeStop, PathAndQueryAt;
    var d := b + "%";
    SchemeStable(b, d, i + 1);
    var k := SchemeStop(b, i + 1);
    if SlashesAt(b, k + 1) {
      RunStable(b, d, k + 3, AUTHORITY);
      var run := AuthorityRun(b, k + 3);
      AuthorityStable(b, d, View(i, k), k + 3, run.at);
      var authority := Some(AuthorityAt(b, View(i, k), k + 3, run.at).value);
      PathAndQueryFrom(b, run.at, authority);
      PercentCutsPathAndQuery(b, run.at, authority);
    } else {
      PathAndQueryFrom(b, k + 1, None);
      PercentCutsPathAndQuery(b, k + 1, None);
    }
  }

  lemma PathAndQueryFrom(b: Bytes, from: nat, authority: Option<Authority>)
    requires from <= |b| && PathAndQueryAt(b, from, authority).Done?
    ensures PathAndQueryAt(b, from, authority).value.path.from == from
  {
    hide Run, QueryAt;
  }

  lemma PercentCutsAuthority(b: Bytes, i: nat)
    requires AuthorityRunsOn(b, i)
    ensures AbsoluteFormAt(b + "%", i).More?
  {
    hide AuthorityStart, AbsoluteFormAt, AuthorityAt, Run, PathAndQueryAt;
    StartStable(b, b + "%", i);
    WithAuthority(b + "%", i);
    PercentCutsRun(b, AuthorityStart(b, i).value, AUTHORITY);
  }

  /** A complete target at the end of the data is rejected only for a NUL in its path. */
  lemma RejectedForNul(r: Rules, b: Bytes)
    requires HeadAt(r, b).Invalid? && MethodAt(b).Done?
    requires var i := MethodAt(b).end; var t := TargetAt(b, b[..i - 1], i); t.Done? && t.end == |b|
    ensures var i := MethodAt(b).end; var name := b[..i - 1];
            name != "CONNECT" && (b[i] == '/' || IsAlpha(b[i])) && TargetAt(b, name, i).value.path.from + 3 <= |b|
  {
    hide HasNulTriplet, MethodAt, TargetAt, RestAt, AuthorityFormAt, AbsoluteFormAt, OriginFormAt;
    var i := MethodAt(b).end;
    var name := b[..i - 1];
    var target := TargetAt(b, name, i).value;
    AtEnd(r, b, i, target);
    NulTakesThree(target.path.Of(b));
    TargetIs(b, name, i);
    if name == "CONNECT" {
      AuthorityFormHasNoPath(b, i);
    }
  }

  lemma PercentReopens(r: Rules, b: Bytes)
    requires HeadAt(r, b).Invalid? && TargetRunsOn(b)
    ensures HeadAt(r, b + "%").More?
  {
    hide MethodAt, TargetAt, OriginFormAt, AbsoluteFormAt, HasNulTriplet, RestAt, AuthorityRunsOn, PathAndQueryAt;
    var d := b + "%";
    MethodStable(b, d);
    var i := MethodAt(b).end;
    var name := b[..i - 1];
    TargetIs(b, name, i);
    TargetIs(d, name, i);
    if name != "CONNECT" && AuthorityRunsOn(b, i) {
      RunsOnStartsWithAlpha(b, i);
      PercentCutsAuthority(b, i);
    } else {
      RejectedForNul(r, b);
      if b[i] == '/' {
        OriginIsPathAndQuery(b, i);
        OriginIsPathAndQuery(d, i);
        PercentCutsPathAndQuery(b, i, None);
      } else {
        PercentCutsAbsoluteForm(b, i);
      }
    }
  }

  lemma RunsOnStartsWithAlpha(b: Bytes, i: nat)
    requires AuthorityRunsOn(b, i)
    ensures i < |b| && IsAlpha(b[i]) && b[i] != '/'
  {
    StartsWithAlpha(b, i);
  }

  lemma RejectionStays(r: Rules, b: Bytes, d: Bytes)
    requires b <= d && HeadAt(r, b).Invalid? && !TargetRunsOn(b)
    ensures HeadAt(r, d).Invalid?
  {
    hide MethodAt, TargetAt, HasNulTriplet, RestAt, AuthorityRunsOn;
    MethodStable(b, d);
    if MethodAt(b).Done? {
      var i := MethodAt(b).end;
      TargetStable(b, d, b[..i - 1], i);
      var t := TargetAt(b, b[..i - 1], i);
      if t.Done? {
        ViewStable(b, d, t.value.path);
        TargetWithin(b, b[..i - 1], i);
        RestStable(r, b, d, i, t.value, t.end);
      }
    }
  }

  /**
   When a rejection is final, exactly: unless the target, or the authority in it, runs to the end of the data.
   Then a further "%" turns it back into a head of which more bytes are needed.
   */
  lemma RejectionIsFinal(r: Rules, b: Bytes)
    ensures (forall d | b <= d :: HeadAt(r, d).Invalid?) <==> HeadAt(r, b).Invalid? && !TargetRunsOn(b)
  {
    hide HeadAt, TargetRunsOn;
    if HeadAt(r, b).Invalid? && !TargetRunsOn(b) {
      forall d | b <= d ensures HeadAt(r, d).Invalid? {
        RejectionStays(r, b, d);
      }
    }
    if HeadAt(r, b).Invalid? && TargetRunsOn(b) {
      PercentReopens(r, b);
      assert b <= b + "%";
    }
  }

  // ---- a rejected head that can still be completed

  /** The data ends in what may be user information, because no "@" has come yet. */
  predicate UserinfoOpen(b: Bytes) {
    && HasAuthority(b) && AuthorityRunsOn(b, MethodAt(b).end)
    && '@' !in ReceivedAuthority(b) && Text(":", ReceivedAuthority(b))
  }

  /** The target is there, and the head is not rejected. */
  ghost predicate IsPromising(r: Rules, d: Bytes) {
    var o := MethodAt(d);
    o.Done? && TargetAt(d, d[..o.end - 1], o.end).Done? && !HeadAt(r, d).Invalid?
  }

  lemma OneLetterHost(s: string)
    requires |s| == 1 && IsAlpha(s[0])
    ensures IsHost(s) && SplitAuthorityHostPort(s) == Some((s, 1))
  {
    assert s[1..] == "" && Text("", s[1..]);
    assert s[..1] == s && First(s, ':', 0) == 1;
  }

  lemma HostBehindUserinfo(b: Bytes, scheme: View, s: nat)
    requires s <= |b| && '@' !in b[s..] && Text(":", b[s..])
    ensures AuthorityAt(b + "@h ", scheme, s, |b| + 2).Done?
  {
    hide IsHost, SplitAuthorityHostPort, Text, First;
    var d := b + "@h ";
    var at := First(d[..|b| + 2], '@', s);
    assert at == |b| by {
      assert d[..|b| + 2][|b|] == '@';
      assert forall k | s <= k < |b| :: d[k] == b[k] && b[k] in b[s..];
    }
    assert d[s..at] == b[s..] && d[at + 1..|b| + 2] == "h";
    OneLetterHost("h");
  }

  lemma SpaceEndsTarget(d: Bytes, a: nat, authority: Option<Authority>)
    requires a < |d| && d[a] == ' '
    ensures PathAndQueryAt(d, a, authority) == Done(Target(AbsoluteForm, View(a, a), View(a, a), authority), a)
  {
    RunOver(d, a, a, PATH);
    NoQuery(d, a);
  }

  lemma AuthorityCompletes(b: Bytes, i: nat, s: nat)
    requires AuthorityStart(b, i) == Some(s) && AuthorityRun(b, s) == Stop(|b|)
    requires '@' !in b[s..] && Text(":", b[s..])
    ensures var o := AbsoluteFormAt(b + "@h ", i);
            o.Done? && o.end == |b| + 2 && o.value.path == View(|b| + 2, |b| + 2)
  {
    hide AbsoluteFormAt, AuthorityStart, AuthorityAt, Run, PathAndQueryAt, Text;
    var d := b + "@h ";
    StartStable(b, d, i);
    WithAuthority(d, i);
    RunGoesOn(b, d, s, AUTHORITY);
    RunOver(d, |b|, |b| + 2, AUTHORITY);
    HostBehindUserinfo(b, View(i, s - 3), s);
    SpaceEndsTarget(d, |b| + 2, Some(AuthorityAt(d, View(i, s - 3), s, |b| + 2).value));
  }

  /** User information, a host and a space. */
  lemma UserinfoCompletes(b: Bytes)
    requires UserinfoOpen(b)
    ensures var d := b + "@h "; var i := MethodAt(b).end;
            && MethodAt(b).Done? && MethodAt(d) == MethodAt(b) && d[..i - 1] == b[..i - 1]
            && var t := TargetAt(d, d[..i - 1], i);
               t.Done? && t.end == |b| + 2 && t.value.path == View(|b| + 2, |b| + 2)
  {
    hide MethodAt, TargetAt, AbsoluteFormAt, AuthorityStart, AuthorityAt, Run, PathAndQueryAt, Text;
    var d := b + "@h ";
    MethodStable(b, d);
    var i := MethodAt(b).end;
    var s := AuthorityStart(b, i).value;
    StartStable(b, d, i);
    StartsWithAlpha(d, i);
    TargetIs(d, d[..i - 1], i);
    assert b[s..] == ReceivedAuthority(b);
    AuthorityCompletes(b, i, s);
  }

  lemma SpaceNeedsVersion(r: Rules, d: Bytes, i: nat, target: Target, e: nat)
    requires 0 < i && e + 1 == |d| && d[e] == ' '
    ensures RestAt(r, d, i, target, e).More?
  {
  }

  lemma CompletedIsPromising(r: Rules, b: Bytes)
    requires UserinfoOpen(b)
    ensures IsPromising(r, b + "@h ") && HeadAt(r, b + "@h ").More?
  {
    hide MethodAt, TargetAt, UserinfoOpen, HasNulTriplet, RestAt;
    var d := b + "@h ";
    UserinfoCompletes(b);
    var i := MethodAt(b).end;
    var t := TargetAt(d, d[..i - 1], i);
    EmptyPath(d, t.value.path);
    SpaceNeedsVersion(r, d, i, t.value, t.end);
  }

  lemma PromisingWasUserinfo(r: Rules, b: Bytes, d: Bytes)
    requires b <= d && HeadAt(r, b).Invalid? && IsPromising(r, d)
    ensures UserinfoOpen(b)
  {
    hide MethodAt, TargetAt, HasNulTriplet, NulPending, AuthorityStart, AuthorityRunsOn, RestAt, Text, IsBadAuthority,
         IsBadHostPort, AuthoritySoFar;
    HeadStable(r, b, d);
    MethodStable(b, d);
    if NulPending(b) {
      NulPendingStays(b, d);
      NulIsRejected(r, d);
    }
    BrokenIsRejected(b);
    var i := MethodAt(b).end;
    TargetStable(b, d, b[..i - 1], i);
    ReceivedGrows(b, d);
    var t, u := ReceivedAuthority(b), ReceivedAuthority(d);
    BadAuthorityStays(t, u);
    if IsBadAuthority(u) {
      BrokenIsRejected(d);
    }
    assert forall k | 0 <= k < |t| :: t[k] == u[k] != '@';
  }

  /**
   A rejected head can still get a complete and acceptable target exactly when it ends in what may be user
   information: the text was taken for a host and a port too early.
   */
  lemma UserinfoReopens(r: Rules, b: Bytes)
    requires HeadAt(r, b).Invalid?
    ensures (exists d :: b <= d && IsPromising(r, d)) <==> UserinfoOpen(b)
  {
    hide HeadAt, IsPromising, UserinfoOpen;
    if UserinfoOpen(b) {
      CompletedIsPromising(r, b);
      assert b <= b + "@h ";
    }
    if d :| b <= d && IsPromising(r, d) {
      PromisingWasUserinfo(r, b, d);
    }
  }

  // ---- heads that are never rejected on the way

  /** User information that would not pass for a host and a port is rejected when the data ends behind it. */
  lemma NotPlainShows(r: Rules, d: Bytes) returns (q: Bytes)
    requires !IsPlain(d)
    ensures q <= d && q != [] && HeadAt(r, q).Invalid?
  {
    hide MethodAt, AuthorityStart, Reach, Run, IsBadHostPort, TargetAt, RestAt, HasNulTriplet;
    var i := MethodAt(d).end;
    var s, t := AuthorityStart(d, i).value, ReceivedAuthority(d);
    var at := First(t, '@', 0);
    var j := s + at;
    assert d[j] == t[at];
    q := d[..j];
    MethodOfPrefix(d, j);
    StartOfPrefix(d, i, j);
    RunToHere(d, s, j, AUTHORITY);
    assert q[..i - 1] == d[..i - 1] && q[s..j] == t[..at];
    NoAtIn(t, at);
    BrokenIsRejected(q);
  }

  lemma NoAtIn(t: Bytes, at: nat)
    requires at == First(t, '@', 0)
    ensures First(t[..at], '@', 0) == at && t[..at][..at] == t[..at]
  {
  }

  /**
   A complete head is not rejected at any point of its way, however it comes in, exactly when its user
   information, if it has any, would pass for a host and a port.
   */
  lemma PlainNeverRejected(r: Rules, d: Bytes)
    requires HeadAt(r, d).Done?
    ensures (forall b | b <= d :: !HeadAt(r, b).Invalid?) <==> IsPlain(d)
  {
    hide HeadAt, IsPlain, NulPending, AuthorityBroken;
    if IsPlain(d) {
      forall b | b <= d ensures !HeadAt(r, b).Invalid? {
        if HeadAt(r, b).Invalid? {
          HeadStable(r, b, d);
          PlainStays(b, d);
          DoomedHeadStays(b, d);
          DoomedIsNotDone(r, d);
        }
      }
    } else {
      var q := NotPlainShows(r, d);
    }
  }

  // ---- examples

  lemma GetTarget(b: Bytes)
    requires |b| > 4 && b[..4] == "GET "
    ensures MethodAt(b) == Done((), 4) && b[..3] == "GET"
  {
    assert b[0] == b[..4][0] && b[1] == b[..4][1] && b[2] == b[..4][2] && b[3] == b[..4][3];
    assert TokenEnd(b, 3) == 3 && TokenEnd(b, 2) == 3 && TokenEnd(b, 1) == 3;
  }

  /** GET h:// and an authority that the data ends in. */
  lemma AuthorityInGet(b: Bytes)
    requires |b| >= 8 && b[..8] == "GET h://" && forall k | 8 <= k < |b| :: b[k] != '%' && Allowed(AUTHORITY, b[k])
    ensures MethodAt(b) == Done((), 4) && HasAuthority(b) && AuthorityRunsOn(b, 4) && ReceivedAuthority(b) == b[8..]
  {
    hide Run, Reach;
    assert b[..4] == b[..8][..4];
    GetTarget(b);
    assert b[4] == b[..8][4] && b[5] == b[..8][5] && b[6] == b[..8][6] && b[7] == b[..8][7];
    assert SchemeStop(b, 5) == 5 && AuthorityStart(b, 4) == Some(8);
    RunOver(b, 8, |b|, AUTHORITY);
  }

  lemma BadPort(t: Bytes)
    requires |t| == 3 && t[1] == ':' && IsAlpha(t[0]) && IsAlpha(t[2])
    ensures IsBadHostPort(t)
  {
    hide IsHost;
    assert First(t, ':', 0) == 1;
    assert t[2..][0] == t[2];
  }

  /** GET h://u:p with nothing behind it. */
  lemma PasswordLooksLikeAPort(r: Rules)
    ensures HeadAt(r, "GET h://u:p").Invalid? && UserinfoOpen("GET h://u:p") && AuthorityBroken("GET h://u:p")
  {
    hide HasAuthority, AuthorityRunsOn, ReceivedAuthority, RestAt, TargetAt, HasNulTriplet, MethodAt, IsBadHostPort;
    var b: Bytes := "GET h://u:p";
    AuthorityInGet(b);
    var t := b[8..];
    assert t == "u:p" && First(t, '@', 0) == 3;
    BadPort(t);
    BrokenIsRejected(b);
    assert t[1..] == ":p" && ":p"[1..] == "p" && "p"[1..] == "" && Text(":", "p") && Text(":", ":p");
  }

  /** The same with the host and the rest of the request line. */
  lemma PasswordIsAPassword(r: Rules)
    ensures HeadAt(r, "GET h://u:p@h HTTP/1.1\r\n").More? && !IsPlain("GET h://u:p@h HTTP/1.1\r\n")
  {
    hide UserinfoOpen, TargetAt, HasNulTriplet, MethodAt, RestAt, AuthorityBroken, IsPlain;
    var b: Bytes, d: Bytes := "GET h://u:p", "GET h://u:p@h HTTP/1.1\r\n";
    PasswordLooksLikeAPort(r);
    UserinfoCompletes(b);
    var e := b + "@h ";
    assert e <= d && b <= d;
    GetTarget(b);
    GetTarget(d);
    assert e[..3] == d[..3];
    TargetStable(e, d, d[..3], 4);
    EmptyPath(d, View(13, 13));
    VersionOfD(r, d, TargetAt(d, d[..3], 4).value);
    if IsPlain(d) {
      BrokenStays(b, d);
      BrokenIsRejected(d);
    }
  }

  lemma VersionOfD(r: Rules, d: Bytes, target: Target)
    requires d == "GET h://u:p@h HTTP/1.1\r\n"
    ensures RestAt(r, d, 4, target, 13).More?
  {
    assert forall k | 0 <= k < 8 :: FitsVersion(d, 14, k);
    assert VersionAt(d, 13) == Done((), 24);
  }

  /** A bad port behind user information is rejected, a "%" makes it a matter of more bytes, and still no target
      can come of it. */
  lemma BadPortStaysBad(r: Rules)
    ensures HeadAt(r, "GET h://u@h:p").Invalid? && HeadAt(r, "GET h://u@h:p%").More?
    ensures !exists d :: "GET h://u@h:p" <= d && IsPromising(r, d)
  {
    hide HasAuthority, AuthorityRunsOn, ReceivedAuthority, RestAt, TargetAt, HasNulTriplet, MethodAt, IsBadHostPort,
         IsPromising, Text;
    var b: Bytes := "GET h://u@h:p";
    AuthorityInGet(b);
    var t := b[8..];
    assert t == "u@h:p" && First(t, '@', 0) == 1 && t[2..] == "h:p";
    BadPort(t[2..]);
    BrokenIsRejected(b);
    PercentReopens(r, b);
    assert b + "%" == "GET h://u@h:p%";
    assert t[1] == '@';
    UserinfoReopens(r, b);
  }

  lemma NulInText()
    ensures HasNulTriplet("/%00")
  {
    assert "/%00"[1..] == "%00" && Decoded("%00", 0) == '\0';
  }

  /** A NUL in a path that may go on: rejected, and with a "%" no longer. */
  lemma NulIsSeenTooEarly(r: Rules)
    ensures HeadAt(r, "GET /%00").Invalid? && TargetRunsOn("GET /%00") && HeadAt(r, "GET /%00%").More?
  {
    hide Run, TargetAt, RestAt, HasNulTriplet, MethodAt;
    var b: Bytes := "GET /%00";
    GetTarget(b);
    OneTriplet(b, 5);
    NoQuery(b, 8);
    TargetIs(b, b[..3], 4);
    assert b[4..8] == "/%00";
    NulInText();
    PercentReopens(r, b);
    assert b + "%" == "GET /%00%";
  }

  lemma OneTriplet(b: Bytes, i: nat)
    requires i + 3 == |b| && b[i] == '%' && IsHexDigit(b[i + 1]) && IsHexDigit(b[i + 2])
    ensures Run(b, i, PATH) == Stop(|b|)
  {
    assert Run(b, i + 3, PATH) == Stop(|b|);
  }
}
