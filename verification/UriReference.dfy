/**
 The recognizers of URI references, authorities and hosts against the grammar of RFC 3986. A reference is a
 record of its components, the grammar says which records are well formed and how each is written down
 (section 5.3), and the index loops accept exactly the texts that some well-formed record is written as.
 */
module UriReference {
  import opened Octets
  import opened HttpText
  import opened IpAddress

  // ---- the grammar

  predicate Allowed(extra: string, c: char) { IsUnreserved(c) || IsSubDelim(c) || c in extra }

  /** *( unreserved / pct-encoded / sub-delims / one of `extra` ) */
  predicate Text(extra: string, s: string)
    decreases |s|
  {
    || s == []
    || (|s| >= 3 && s[0] == '%' && IsHexDigit(s[1]) && IsHexDigit(s[2]) && Text(extra, s[3..]))
    || (Allowed(extra, s[0]) && Text(extra, s[1..]))
  }

  const PCHAR := ":@"
  const PATH := ":@/"
  const QUERY := ":@/?"

  /** *( "/" segment ) */
  ghost predicate IsPathAbEmpty(s: string)
    decreases |s|
  {
    s == [] || exists k: nat :: SegmentEndsAt(s, k) && IsPathAbEmpty(s[k..])
  }

  /** "/" segment, up to index k */
  predicate SegmentEndsAt(s: string, k: nat) { 1 <= k <= |s| && s[0] == '/' && Text(PCHAR, s[1..k]) }

  /** "/" [ segment-nz *( "/" segment ) ] */
  ghost predicate IsPathAbsolute(s: string) {
    s != [] && s[0] == '/' && (s[1..] == [] || IsPathFrom(PCHAR, s[1..]))
  }

  /** A nonempty segment of the given characters, then *( "/" segment ): path-rootless, or path-noscheme
      when the first segment has no colon. */
  ghost predicate IsPathFrom(extra: string, s: string) { exists k: nat :: FirstEndsAt(extra, s, k) }

  ghost predicate FirstEndsAt(extra: string, s: string, k: nat) {
    1 <= k <= |s| && Text(extra, s[..k]) && IsPathAbEmpty(s[k..])
  }

  /** ALPHA *( ALPHA / DIGIT / "+" / "-" / "." ) */
  predicate IsScheme(s: string) {
    s != [] && IsAlpha(s[0]) && forall i | 0 <= i < |s| :: IsSchemeChar(s[i])
  }

  predicate IsSchemeChar(c: char) { IsAlpha(c) || IsDigit(c) || c in "+-." }

  /** "v" 1*HEXDIG "." 1*( unreserved / sub-delims / ":" ) */
  predicate IsIPvFuture(s: string) { exists k | 0 <= k < |s| :: DotAt(s, k) }

  predicate DotAt(s: string, k: nat) {
    && 2 <= k < |s| - 1 && s[0] in "vV" && s[k] == '.'
    && (forall i | 1 <= i < k :: IsHexDigit(s[i]))
    && (forall i | k < i < |s| :: Allowed(":", s[i]))
  }

  ghost predicate IsIpLiteral(s: string) {
    && |s| >= 2 && s[0] == '[' && s[|s| - 1] == ']'
    && (IsIPv6Address(s[1..|s| - 1]) || IsIPvFuture(s[1..|s| - 1]))
  }

  ghost predicate IsHost(s: string) { IsIpLiteral(s) || IsIPv4Address(s) || Text("", s) }

  predicate IsPort(s: string) { forall i | 0 <= i < |s| :: IsDigit(s[i]) }

  datatype HostPort = HostPort(host: string, port: Option<string>)

  function HostPortText(hp: HostPort): string { hp.host + Suffixed(':', hp.port) }

  function Suffixed(c: char, s: Option<string>): string { if s.Some? then [c] + s.value else "" }

  ghost predicate IsWellFormedHostPort(hp: HostPort) {
    IsHost(hp.host) && (hp.port.Some? ==> IsPort(hp.port.value))
  }

  /** host [ ":" port ] */
  ghost predicate IsHostPort(s: string) { exists hp :: IsWellFormedHostPort(hp) && HostPortText(hp) == s }

  ghost predicate UserinfoEndsAt(s: string, k: nat) {
    k < |s| && s[k] == '@' && Text(":", s[..k]) && IsHostPort(s[k + 1..])
  }

  /** [ userinfo "@" ] host [ ":" port ] */
  ghost predicate IsAuthority(s: string) { IsHostPort(s) || exists k: nat :: UserinfoEndsAt(s, k) }

  datatype Reference = Reference(scheme: Option<string>, authority: Option<string>, path: string,
                                 query: Option<string>, fragment: Option<string>)

  /** How the components of a reference are written down. */
  function Compose(u: Reference): string {
    SchemeText(u.scheme) + AuthorityText(u.authority) + u.path + Suffixed('?', u.query) + Suffixed('#', u.fragment)
  }

  function SchemeText(scheme: Option<string>): string { if scheme.Some? then scheme.value + ":" else "" }

  function AuthorityText(authority: Option<string>): string { if authority.Some? then "//" + authority.value else "" }

  /** URI / relative-ref, component by component */
  ghost predicate IsWellFormed(u: Reference) {
    && (u.scheme.Some? ==> IsScheme(u.scheme.value))
    && (u.authority.Some? ==> IsAuthority(u.authority.value) && IsPathAbEmpty(u.path))
    && (u.authority.None? ==>
          || u.path == []
          || IsPathAbsolute(u.path)
          || (u.scheme.Some? && IsPathFrom(PCHAR, u.path))
          || (u.scheme.None? && IsPathFrom("@", u.path)))
    && (u.query.Some? ==> Text(QUERY, u.query.value))
    && (u.fragment.Some? ==> Text(QUERY, u.fragment.value))
  }

  /** URI-reference, or absolute-URI / partial-URI when fragments are not allowed */
  ghost predicate IsReference(s: string, allowFragment: bool) {
    exists u :: IsWellFormed(u) && Compose(u) == s && (allowFragment || u.fragment.None?)
  }

  // ---- runs of characters

  lemma {:induction false} TextConcat(extra: string, a: string, b: string)
    requires Text(extra, a)
    ensures Text(extra, a + b) <==> Text(extra, b)
    requires '%' !in extra
    decreases |a|
  {
    if a == [] {
      assert a + b == b;
    } else if a[0] == '%' {
      assert (a + b)[3..] == a[3..] + b;
      TextConcat(extra, a[3..], b);
    } else {
      assert (a + b)[1..] == a[1..] + b;
      TextConcat(extra, a[1..], b);
    }
  }

  lemma {:induction false} TextAlphabet(extra: string, s: string)
    requires Text(extra, s)
    ensures forall i | 0 <= i < |s| :: s[i] == '%' || Allowed(extra, s[i])
    decreases |s|
  {
    if s != [] {
      var n := if s[0] == '%' && !Allowed(extra, s[0]) then 3 else 1;
      TextAlphabet(extra, s[n..]);
      assert forall i | n <= i < |s| :: s[i] == s[n..][i - n];
    }
  }

  /** The text may be cut at anything that is not the tail of a triplet. */
  lemma {:induction false} TextCut(extra: string, s: string, k: nat)
    requires Text(extra, s) && k < |s| && !IsHexDigit(s[k]) && '%' !in extra
    ensures Text(extra, s[..k]) && Text(extra, s[k..])
    decreases |s|
  {
    if k == 0 {
      assert s[0..] == s;
    } else {
      var n := if s[0] == '%' then 3 else 1;
      TextCut(extra, s[n..], k - n);
      assert s[..k][n..] == s[n..][..k - n] && s[k..] == s[n..][k - n..];
    }
  }

  /** Only the characters that occur matter. */
  lemma {:induction false} TextChange(extra: string, other: string, s: string)
    requires Text(extra, s) && '%' !in extra
    requires forall i | 0 <= i < |s| :: s[i] in extra ==> s[i] in other
    ensures Text(other, s)
    decreases |s|
  {
    if s != [] {
      var n := if s[0] == '%' then 3 else 1;
      TextChange(extra, other, s[n..]);
    }
  }

  /** One step of every loop over such a text. */
  lemma TextStep(extra: string, s: string, i: nat, end: nat)
    requires i < end <= |s| && '%' !in extra
    ensures Text(extra, s[i..end]) <==>
            if s[i] == '%' then i + 3 <= end && IsHexDigit(s[i + 1]) && IsHexDigit(s[i + 2]) && Text(extra, s[i + 3..end])
            else Allowed(extra, s[i]) && Text(extra, s[i + 1..end])
  {
    var t := s[i..end];
    assert t[1..] == s[i + 1..end];
    if i + 3 <= end {
      assert t[3..] == s[i + 3..end];
    }
  }

  method ConsumeUriPctEncoded(sv: string, i: nat) returns (ok: bool, next: nat)
    ensures ok <==> i + 2 < |sv| && IsHexDigit(sv[i + 1]) && IsHexDigit(sv[i + 2])
    ensures next == if ok then i + 3 else i
  {
    if i + 2 >= |sv| {
      return false, i;
    }
    if !IsHexDigit(sv[i + 1]) || !IsHexDigit(sv[i + 2]) {
      return false, i;
    }
    return true, i + 3;
  }

  method IsRegName(sv: string) returns (ok: bool)
    ensures ok <==> Text("", sv)
  {
    hide Text;
    var off := 0;
    assert sv[0..|sv|] == sv;
    while off < |sv|
      invariant off <= |sv|
      invariant Text("", sv) <==> Text("", sv[off..|sv|])
    {
      TextStep("", sv, off, |sv|);
      if !IsUnreserved(sv[off]) {
        if !IsSubDelim(sv[off]) {
          if sv[off] != '%' {
            return false;
          }
          if off + 2 >= |sv| {
            return false;
          }
          if !IsHexDigit(sv[off + 1]) {
            return false;
          }
          if !IsHexDigit(sv[off + 2]) {
            return false;
          }
          off := off + 2;
        }
      }
      off := off + 1;
    }
    assert sv[off..|sv|] == "";
    EmptyText("");
    return true;
  }

  lemma EmptyText(extra: string)
    ensures Text(extra, "")
  {
  }

  /** The index of the first of `stops` from `from` on, or the length. */
  function FirstOf(s: string, stops: string, from: nat): (i: nat)
    requires from <= |s|
    ensures from <= i <= |s| && (i < |s| ==> s[i] in stops)
    ensures forall j | from <= j < i :: s[j] !in stops
    decreases |s| - from
  {
    if from == |s| || s[from] in stops then from else FirstOf(s, stops, from + 1)
  }

  /** The loop shared by userinfo, path, query and fragment. */
  method ScanText(sv: string, from: nat, extra: string, stops: string) returns (ok: bool, i: nat)
    requires from <= |sv| && '%' !in extra
    requires forall c | c in stops :: c != '%' && !IsHexDigit(c)
    ensures ok <==> Text(extra, sv[from..FirstOf(sv, stops, from)])
    ensures ok ==> i == FirstOf(sv, stops, from)
  {
    hide Text;
    ghost var end := FirstOf(sv, stops, from);
    i := from;
    while i < |sv| && sv[i] !in stops
      invariant from <= i <= end
      invariant Text(extra, sv[from..end]) <==> Text(extra, sv[i..end])
    {
      TextStep(extra, sv, i, end);
      if sv[i] == '%' {
        ok, i := ConsumeUriPctEncoded(sv, i);
        if !ok {
          return;
        }
        continue;
      }
      if !Allowed(extra, sv[i]) {
        return false, i;
      }
      i := i + 1;
    }
    assert sv[i..end] == "";
    EmptyText(extra);
    return true, i;
  }

  method CheckUriUserinfo(sv: string) returns (ok: bool)
    ensures ok <==> Text(":", sv)
  {
    hide Text;
    var i;
    ok, i := ScanText(sv, 0, ":", "");
    assert sv[0..FirstOf(sv, "", 0)] == sv;
  }

  // ---- hosts and ports

  method IsIpVFuture(sv: string) returns (ok: bool)
    ensures ok <==> IsIPvFuture(sv)
  {
    if sv == [] {
      return false;
    }
    if sv[0] != 'v' && sv[0] != 'V' {
      return false;
    }
    var hexDigitsFound, off := 0, 1;
    while off < |sv| && sv[off] != '.'
      invariant 1 <= off <= |sv| && hexDigitsFound == off - 1
      invariant forall i | 1 <= i < off :: IsHexDigit(sv[i])
    {
      if !IsHexDigit(sv[off]) {
        assert forall k: nat | k < |sv| :: !DotAt(sv, k);
        return false;
      }
      hexDigitsFound := hexDigitsFound + 1;
      off := off + 1;
    }
    assert forall k: nat | k < |sv| && k != off :: !DotAt(sv, k);
    ghost var dot := off;
    if off == |sv| || hexDigitsFound == 0 {
      return false;
    }
    off := off + 1;
    var subpartsFound := 0;
    while off < |sv|
      invariant dot < off <= |sv| && subpartsFound == off - dot - 1
      invariant forall i | dot < i < off :: Allowed(":", sv[i])
    {
      if !IsUnreserved(sv[off]) && !IsSubDelim(sv[off]) && sv[off] != ':' {
        return false;
      }
      subpartsFound := subpartsFound + 1;
      off := off + 1;
    }
    assert subpartsFound > 0 ==> DotAt(sv, dot);
    return subpartsFound > 0;
  }

  method IsIpLiteralText(sv: string) returns (ok: bool)
    ensures ok <==> IsIpLiteral(sv)
  {
    hide IsIPv6Address, IsIPvFuture;
    if |sv| < 2 {
      return false;
    }
    if sv[0] != '[' {
      return false;
    }
    if sv[|sv| - 1] != ']' {
      return false;
    }
    var inner := sv[1..|sv| - 1];
    if inner == [] {
      EmptyIsNoAddress();
      return false;
    }
    ok := IsIpVFuture(inner);
    if !ok {
      ok := IsIpV6Address(inner);
    }
  }

  lemma EmptyIsNoAddress()
    ensures !IsIPv6Address("") && !IsIPvFuture("")
  {
    hide IsTail;
    if IsTail("", 6) {
      TailIsCalm("", 6);
    }
  }

  datatype HostType = IpLiteral | IpV4Address | RegName | Unknown

  method CheckUriHost(sv: string) returns (kind: HostType)
    ensures kind.Unknown? <==> !IsHost(sv)
    ensures kind.IpLiteral? <==> IsIpLiteral(sv)
    ensures kind.IpV4Address? <==> IsIPv4Address(sv)
  {
    hide IsIPv4Address, IsIpLiteral, Text;
    if sv == [] {
      EmptyText("");
      EmptyIsNoIPv4();
      NoBrackets(sv);
      return RegName;
    }
    var ok := IsIpLiteralText(sv);
    if ok {
      BracketsAreNoIPv4(sv);
      return IpLiteral;
    }
    ok := IsIpV4Address(sv);
    if ok {
      return IpV4Address;
    }
    ok := IsRegName(sv);
    return if ok then RegName else Unknown;
  }

  lemma NoBrackets(s: string)
    requires s == [] || s[0] != '['
    ensures !IsIpLiteral(s)
  {
    hide IsIPv6Address, IsIPvFuture;
  }

  lemma BracketsAreNoIPv4(s: string)
    requires IsIpLiteral(s)
    ensures !IsIPv4Address(s)
  {
    hide IsIPv6Address, IsIPvFuture, IsList;
    if IsIPv4Address(s) {
      ListIsRun(DecOctet, s, 4);
    }
  }

  /** The host, and where the ":" of a port has to be; none for an unterminated IP-literal. */
  function SplitAuthorityHostPort(sv: string): (r: Option<(string, nat)>)
    ensures r.Some? ==> r.value.1 <= |sv| && r.value.0 == sv[..r.value.1]
  {
    if sv != [] && sv[0] == '[' then
      var clb := First(sv, ']', 0);
      if clb == |sv| then None else Some((sv[..clb + 1], clb + 1))
    else
      var colon := First(sv, ':', 0);
      Some((sv[..colon], colon))
  }

  method CheckHostPort(sv: string) returns (ok: bool, uriHost: string, port: string, kind: HostType)
    ensures ok <==> IsHostPort(sv)
    ensures ok ==> IsHost(uriHost) && IsPort(port) && (sv == uriHost || sv == uriHost + ":" + port)
    ensures ok ==> (kind.IpLiteral? <==> IsIpLiteral(uriHost)) && (kind.IpV4Address? <==> IsIPv4Address(uriHost))
  {
    hide IsHost, IsIpLiteral, IsIPv4Address, IsHostPort;
    ok, uriHost, port, kind := false, "", "", Unknown;
    HostPortBySplit(sv);
    var split := SplitAuthorityHostPort(sv);
    if split.None? {
      return;
    }
    var colonAt := split.value.1;
    uriHost := split.value.0;
    kind := CheckUriHost(uriHost);
    if kind.Unknown? {
      return;
    }
    if colonAt < |sv| {
      if sv[colonAt] != ':' {
        return;
      }
      port := sv[colonAt + 1..];
      ok := IsPortText(port);
      return;
    }
    ok := true;
  }

  method IsPortText(sv: string) returns (ok: bool)
    ensures ok <==> IsPort(sv)
  {
    var off := 0;
    while off < |sv|
      invariant off <= |sv| && forall i | 0 <= i < off :: IsDigit(sv[i])
    {
      if !IsDigit(sv[off]) {
        return false;
      }
      off := off + 1;
    }
    return true;
  }

  /** Cutting at the first "]" or ":" decides: no host contains the one inside or the other outside brackets. */
  lemma HostPortBySplit(s: string)
    ensures IsHostPort(s) <==>
            var split := SplitAuthorityHostPort(s);
            && split.Some? && IsHost(split.value.0)
            && (split.value.1 < |s| ==> s[split.value.1] == ':' && IsPort(s[split.value.1 + 1..]))
  {
    hide IsHost, IsPort, SplitAuthorityHostPort, HostPortText;
    if hp :| IsWellFormedHostPort(hp) && HostPortText(hp) == s {
      HostIsCutOff(hp);
      HostPortIs(hp);
    }
    var split := SplitAuthorityHostPort(s);
    if split.Some? && IsHost(split.value.0) {
      var at := split.value.1;
      var hp := HostPort(s[..at], if at < |s| then Some(s[at + 1..]) else None);
      HostPortIs(hp);
      assert at < |s| && s[at] == ':' ==> s == s[..at] + ([':'] + s[at + 1..]);
    }
  }

  lemma HostPortIs(hp: HostPort)
    ensures var s := HostPortText(hp);
            if hp.port.None? then s == hp.host
            else s == hp.host + ([':'] + hp.port.value) && s[|hp.host|] == ':' && s[|hp.host| + 1..] == hp.port.value
  {
  }

  lemma HostIsCutOff(hp: HostPort)
    requires IsWellFormedHostPort(hp)
    ensures SplitAuthorityHostPort(HostPortText(hp)) == Some((hp.host, |hp.host|))
  {
    hide IsHost, IsPort;
    var s, n := HostPortText(hp), |hp.host|;
    assert s[..n] == hp.host;
    assert forall i | 0 <= i < n :: s[i] == hp.host[i];
    HostAlphabet(hp.host);
    if n > 0 && hp.host[0] == '[' {
      forall j | 0 <= j < n - 1 ensures s[j] != ']' {
        assert s[j] == hp.host[..n - 1][j];
      }
      FirstIs(s, ']', n - 1);
    } else {
      forall j | 0 <= j < n ensures s[j] != ':' {
        assert s[j] == hp.host[j];
      }
      FirstIs(s, ':', n);
    }
  }

  lemma FirstIs(s: string, c: char, k: nat)
    requires k <= |s| && (k < |s| ==> s[k] == c) && forall j | 0 <= j < k :: s[j] != c
    ensures First(s, c, 0) == k
  {
  }

  /** Brackets, and colons only inside them; and never a delimiter of the other components. */
  lemma HostAlphabet(host: string)
    requires IsHost(host)
    ensures forall i | 0 <= i < |host| :: host[i] !in "/?#@"
    ensures if host != [] && host[0] == '[' then
              |host| >= 2 && host[|host| - 1] == ']' && ']' !in host[..|host| - 1]
            else ':' !in host
  {
    hide IsIPv6Address, IsIPvFuture, IsIPv4Address, Text;
    if IsIpLiteral(host) {
      var inner := host[1..|host| - 1];
      if IsIPv6Address(inner) {
        IPv6Alphabet(inner);
      } else {
        IPvFutureAlphabet(inner);
      }
      assert forall i | 0 < i < |host| - 1 :: host[i] == inner[i - 1];
    } else if IsIPv4Address(host) {
      IPv4Run(host);
    } else {
      TextAlphabet("", host);
    }
  }

  lemma IPv4Run(s: string)
    requires IsIPv4Address(s)
    ensures forall i | 0 <= i < |s| :: IsHexDigit(s[i]) || s[i] == '.'
  {
    hide IsList;
    ListIsRun(DecOctet, s, 4);
  }

  lemma IPvFutureAlphabet(s: string)
    requires IsIPvFuture(s)
    ensures forall i | 0 <= i < |s| :: Allowed(":", s[i])
  {
    var k :| 0 <= k < |s| && DotAt(s, k);
    forall i | 0 <= i < |s| ensures Allowed(":", s[i]) {
      if 1 <= i < k {
        assert IsHexDigit(s[i]);
      }
    }
  }

  // ---- authorities

  lemma UserinfoIsCutOff(s: string, k: nat)
    requires UserinfoEndsAt(s, k)
    ensures First(s, '@', 0) == k
  {
    hide Text, IsHostPort;
    TextAlphabet(":", s[..k]);
    forall i | 0 <= i < k ensures s[i] != '@' {
      assert s[i] == s[..k][i];
    }
    FirstIs(s, '@', k);
  }

  lemma HostPortHasNoAt(s: string)
    requires IsHostPort(s)
    ensures First(s, '@', 0) == |s|
  {
    hide IsHostPort;
    HostPortAlphabet(s);
    FirstIs(s, '@', |s|);
  }

  /** Cutting at the first "@" decides. */
  lemma AuthorityByAt(s: string)
    ensures var at := First(s, '@', 0);
            IsAuthority(s) <==> if at < |s| then Text(":", s[..at]) && IsHostPort(s[at + 1..]) else IsHostPort(s)
  {
    hide Text, IsHostPort, First;
    var at := First(s, '@', 0);
    if IsHostPort(s) {
      HostPortHasNoAt(s);
    }
    if k: nat :| UserinfoEndsAt(s, k) {
      UserinfoIsCutOff(s, k);
    }
    if at < |s| && Text(":", s[..at]) && IsHostPort(s[at + 1..]) {
      assert UserinfoEndsAt(s, at);
    }
  }

  lemma HostPortAlphabet(s: string)
    requires IsHostPort(s)
    ensures forall i | 0 <= i < |s| :: s[i] !in "/?#@"
  {
    hide IsHost;
    var hp :| IsWellFormedHostPort(hp) && HostPortText(hp) == s;
    HostAlphabet(hp.host);
    forall i | 0 <= i < |s| ensures s[i] !in "/?#@" {
      if i > |hp.host| {
        assert IsDigit(hp.port.value[i - |hp.host| - 1]);
      } else if i < |hp.host| {
        assert s[i] == hp.host[i];
      }
    }
  }

  lemma AuthorityAlphabet(s: string)
    requires IsAuthority(s)
    ensures forall i | 0 <= i < |s| :: s[i] !in "/?#"
  {
    hide Text, IsHostPort;
    if IsHostPort(s) {
      HostPortAlphabet(s);
    } else {
      var k: nat :| UserinfoEndsAt(s, k);
      TextAlphabet(":", s[..k]);
      HostPortAlphabet(s[k + 1..]);
      forall i | 0 <= i < |s| ensures s[i] !in "/?#" {
        if i < k {
          assert s[i] == s[..k][i];
        } else if i > k {
          assert s[i] == s[k + 1..][i - k - 1];
        }
      }
    }
  }

  method CheckUriAuthority(sv: string) returns (ok: bool)
    ensures ok <==> IsAuthority(sv)
  {
    hide Text, IsHostPort, IsAuthority;
    AuthorityByAt(sv);
    var rest := sv;
    var atPos := First(sv, '@', 0);
    if atPos < |sv| {
      ok := CheckUriUserinfo(sv[..atPos]);
      if !ok {
        return;
      }
      rest := sv[atPos + 1..];
    }
    var uriHost, port, kind;
    ok, uriHost, port, kind := CheckHostPort(rest);
  }

  // ---- paths

  /** Segments between slashes are the same as one run that may contain slashes. */
  lemma {:induction false} AbEmptyIsRun(s: string)
    ensures IsPathAbEmpty(s) <==> (s == [] || s[0] == '/') && Text(PATH, s)
    decreases |s|
  {
    hide Text, IsPathAbEmpty;
    if s == [] {
      AbEmptyCons(s, 0);
      EmptyText(PATH);
      return;
    }
    if IsPathAbEmpty(s) {
      var k := AbEmptyUncons(s);
      AbEmptyIsRun(s[k..]);
      TextChange(PCHAR, PATH, s[1..k]);
      TextConcat(PATH, s[1..k], s[k..]);
      assert s[1..k] + s[k..] == s[1..|s|];
      TextStep(PATH, s, 0, |s|);
      assert s[0..|s|] == s;
    }
    if s[0] == '/' && Text(PATH, s) {
      TextStep(PATH, s, 0, |s|);
      assert s[0..|s|] == s && s[1..|s|] == s[1..];
      var k := First(s, '/', 1);
      SegmentOf(s, 1);
      AbEmptyIsRun(s[k..]);
      AbEmptyCons(s, k);
    }
  }

  /** What runs up to the next slash is a segment, and a run again from there. */
  lemma SegmentOf(s: string, from: nat)
    requires from <= |s| && Text(PATH, s[from..])
    ensures var k := First(s, '/', from); Text(PCHAR, s[from..k]) && Text(PATH, s[k..])
  {
    hide Text;
    var k, t := First(s, '/', from), s[from..];
    if k < |s| {
      TextCut(PATH, t, k - from);
      assert t[..k - from] == s[from..k] && t[k - from..] == s[k..];
    } else {
      assert t == s[from..k];
      EmptyText(PATH);
      assert s[k..] == "";
    }
    TextChange(PATH, PCHAR, s[from..k]);
  }

  lemma AbEmptyUncons(s: string) returns (k: nat)
    requires s != [] && IsPathAbEmpty(s)
    ensures SegmentEndsAt(s, k) && IsPathAbEmpty(s[k..])
  {
    k :| SegmentEndsAt(s, k) && IsPathAbEmpty(s[k..]);
  }

  lemma AbEmptyCons(s: string, k: nat)
    requires s == [] || (SegmentEndsAt(s, k) && IsPathAbEmpty(s[k..]))
    ensures IsPathAbEmpty(s)
  {
  }

  lemma PathFromToRun(extra: string, s: string, k: nat)
    requires (extra == PCHAR || extra == "@") && FirstEndsAt(extra, s, k)
    ensures s != [] && s[0] != '/' && Text(PATH, s) && First(s, '/', 0) == k && (extra == "@" ==> ':' !in s[..k])
  {
    hide Text, IsPathAbEmpty;
    AbEmptyIsRun(s[k..]);
    RunHasNone(extra, s[..k], if extra == "@" then "/:" else "/");
    forall i | 0 <= i < k ensures s[i] != '/' {
      assert s[i] == s[..k][i];
    }
    assert k < |s| ==> s[k] == s[k..][0];
    FirstIs(s, '/', k);
    TextChange(extra, PATH, s[..k]);
    TextConcat(PATH, s[..k], s[k..]);
    assert s[..k] + s[k..] == s;
  }

  lemma RunToPathFrom(extra: string, s: string)
    requires extra == PCHAR || extra == "@"
    requires s != [] && s[0] != '/' && Text(PATH, s) && (extra == "@" ==> ':' !in s[..First(s, '/', 0)])
    ensures IsPathFrom(extra, s)
  {
    hide Text, IsPathAbEmpty;
    assert s[0..] == s;
    SegmentOf(s, 0);
    var k := First(s, '/', 0);
    assert s[0..k] == s[..k];
    TextChange(PCHAR, extra, s[..k]);
    AbEmptyIsRun(s[k..]);
    assert FirstEndsAt(extra, s, k);
  }

  /** `extra` is that of path-rootless or of path-noscheme. */
  lemma PathFromIsRun(extra: string, s: string)
    requires extra == PCHAR || extra == "@"
    ensures IsPathFrom(extra, s) <==>
            s != [] && s[0] != '/' && Text(PATH, s) && (extra == "@" ==> ':' !in s[..First(s, '/', 0)])
  {
    hide Text, FirstEndsAt, First;
    if k: nat :| FirstEndsAt(extra, s, k) {
      PathFromToRun(extra, s, k);
    }
    if s != [] && s[0] != '/' && Text(PATH, s) && (extra == "@" ==> ':' !in s[..First(s, '/', 0)]) {
      RunToPathFrom(extra, s);
    }
  }

  lemma AbsoluteIsRun(s: string)
    ensures IsPathAbsolute(s) <==> s != [] && s[0] == '/' && Text(PATH, s) && (|s| > 1 ==> s[1] != '/')
  {
    hide Text, IsPathFrom;
    if s != [] && s[0] == '/' {
      PathFromIsRun(PCHAR, s[1..]);
      EmptyText(PATH);
      TextStep(PATH, s, 0, |s|);
      assert s[0..|s|] == s && s[1..|s|] == s[1..];
    }
  }

  /** What the checks on a path come to. */
  predicate PathChecks(hasScheme: bool, hasAuthority: bool, path: string) {
    Text(PATH, path) && (hasScheme || hasAuthority || ':' !in path[..First(path, '/', 0)])
  }

  /** Behind an authority the path begins with a slash or is empty; without one, two slashes would begin one. */
  lemma PathMeaning(u: Reference)
    requires u.authority.Some? ==> u.path == [] || u.path[0] == '/'
    requires u.authority.None? ==> |u.path| < 2 || u.path[0] != '/' || u.path[1] != '/'
    ensures IsWellFormed(u) <==>
            && (u.scheme.Some? ==> IsScheme(u.scheme.value))
            && (u.authority.Some? ==> IsAuthority(u.authority.value))
            && PathChecks(u.scheme.Some?, u.authority.Some?, u.path)
            && (u.query.Some? ==> Text(QUERY, u.query.value))
            && (u.fragment.Some? ==> Text(QUERY, u.fragment.value))
  {
    hide Text, IsPathAbEmpty, IsPathAbsolute, IsPathFrom, IsScheme, IsAuthority;
    AbEmptyIsRun(u.path);
    AbsoluteIsRun(u.path);
    PathFromIsRun(PCHAR, u.path);
    PathFromIsRun("@", u.path);
    EmptyText(PATH);
  }

  // ---- splitting a reference

  function SchemeEnd(s: string): (i: nat)
    ensures i <= |s|
  {
    var colon := First(s, ':', 0);
    if colon < |s| && IsScheme(s[..colon]) then colon + 1 else 0
  }

  predicate SlashesAt(s: string, i: nat) { i + 1 < |s| && s[i] == '/' && s[i + 1] == '/' }

  function AuthorityEnd(s: string, i: nat): (j: nat)
    requires i <= |s|
    ensures i <= j <= |s| && (j > i <==> SlashesAt(s, i)) && (j > i ==> i + 2 <= j)
    ensures j > i && j < |s| ==> s[j] in "/?#"
  {
    if SlashesAt(s, i) then FirstOf(s, "/?#", i + 2) else i
  }

  function QueryEnd(s: string, p: nat): (q: nat)
    requires p <= |s|
    ensures p <= q <= |s| && (q > p <==> p < |s| && s[p] == '?')
    ensures q > p && q < |s| ==> s[q] == '#'
  {
    if p < |s| && s[p] == '?' then FirstOf(s, "#", p + 1) else p
  }

  /** The components of a text, whether or not they are well formed. */
  function Split(s: string): Reference {
    var i := SchemeEnd(s);
    var j := AuthorityEnd(s, i);
    var p := FirstOf(s, "?#", j);
    var q := QueryEnd(s, p);
    Reference(if i > 0 then Some(s[..i - 1]) else None,
              if j > i then Some(s[i + 2..j]) else None,
              s[j..p],
              if q > p then Some(s[p + 1..q]) else None,
              if q < |s| then Some(s[q + 1..]) else None)
  }

  /** Every text is what its own components are written as. */
  lemma ComposeSplit(s: string)
    ensures Compose(Split(s)) == s
  {
    hide IsScheme, FirstOf, SchemeEnd, AuthorityEnd, QueryEnd, SchemeText, AuthorityText, Suffixed;
    var i := SchemeEnd(s);
    var j := AuthorityEnd(s, i);
    var p := FirstOf(s, "?#", j);
    var q := QueryEnd(s, p);
    Pieces(s, i, j, p, q);
    SchemePiece(s);
    AuthorityPiece(s, i, j);
    SuffixPiece(s, '?', p, q);
    LastPiece(s, q);
  }

  lemma AuthorityPiece(s: string, i: nat, j: nat)
    requires i <= |s| && j == AuthorityEnd(s, i)
    ensures AuthorityText(if j > i then Some(s[i + 2..j]) else None) == s[i..j]
  {
  }

  lemma SuffixPiece(s: string, c: char, p: nat, q: nat)
    requires p <= q <= |s| && (q > p ==> s[p] == c)
    ensures Suffixed(c, if q > p then Some(s[p + 1..q]) else None) == s[p..q]
  {
  }

  lemma LastPiece(s: string, q: nat)
    requires q <= |s| && (q < |s| ==> s[q] == '#')
    ensures Suffixed('#', if q < |s| then Some(s[q + 1..]) else None) == s[q..]
  {
    if q < |s| {
      assert s[q..] == [s[q]] + s[q + 1..];
    }
  }

  lemma Pieces(s: string, i: nat, j: nat, p: nat, q: nat)
    requires i <= j <= p <= q <= |s|
    ensures s[..i] + s[i..j] + s[j..p] + s[p..q] + s[q..] == s
  {
    assert s[..i] + s[i..j] == s[..j] && s[..j] + s[j..p] == s[..p] && s[..p] + s[p..q] == s[..q];
  }

  lemma SchemePiece(s: string)
    ensures var i := SchemeEnd(s); SchemeText(if i > 0 then Some(s[..i - 1]) else None) == s[..i]
  {
    hide IsScheme;
  }

  /** What the components of a well-formed reference can contain, as far as splitting depends on it. */
  ghost predicate HasShape(u: Reference) {
    && (u.scheme.Some? ==> IsScheme(u.scheme.value))
    && (u.authority.Some? ==> forall i | 0 <= i < |u.authority.value| :: u.authority.value[i] !in "/?#")
    && (u.authority.Some? ==> u.path == [] || u.path[0] == '/')
    && (u.authority.None? ==> |u.path| < 2 || u.path[0] != '/' || u.path[1] != '/')
    && (forall i | 0 <= i < |u.path| :: u.path[i] !in "?#")
    && (u.query.Some? ==> forall i | 0 <= i < |u.query.value| :: u.query.value[i] !in "#")
    && (u.scheme.None? && u.authority.None? ==> ':' !in u.path[..First(u.path, '/', 0)])
  }

  lemma WellFormedHasShape(u: Reference)
    requires IsWellFormed(u)
    ensures HasShape(u)
  {
    hide Text, IsPathAbEmpty, IsPathAbsolute, IsPathFrom, IsScheme, IsAuthority;
    AbEmptyIsRun(u.path);
    AbsoluteIsRun(u.path);
    PathFromIsRun(PCHAR, u.path);
    PathFromIsRun("@", u.path);
    EmptyText(PATH);
    RunHasNone(PATH, u.path, "?#");
    if u.authority.Some? {
      AuthorityAlphabet(u.authority.value);
    }
    if u.query.Some? {
      RunHasNone(QUERY, u.query.value, "#");
    }
  }

  lemma RunHasNone(extra: string, s: string, stops: string)
    requires Text(extra, s) && forall c | c in stops :: c != '%' && !Allowed(extra, c)
    ensures forall i | 0 <= i < |s| :: s[i] !in stops
  {
    TextAlphabet(extra, s);
  }

  lemma NoSchemeFound(s: string, k: nat)
    requires k <= |s| && (k == |s| || s[k] in "/?#") && forall j | 0 <= j < k :: s[j] != ':'
    ensures SchemeEnd(s) == 0
  {
    var colon := First(s, ':', 0);
    if colon < |s| {
      assert k < colon && s[..colon][k] == s[k];
    }
  }

  lemma SchemeFound(s: string, i: nat)
    requires 0 < i <= |s| && s[i - 1] == ':' && IsScheme(s[..i - 1])
    ensures SchemeEnd(s) == i
  {
    forall j | 0 <= j < i - 1 ensures s[j] != ':' {
      assert s[..i - 1][j] == s[j] && IsSchemeChar(s[..i - 1][j]);
    }
    FirstIs(s, ':', i - 1);
  }

  lemma FirstOfIs(s: string, stops: string, from: nat, k: nat, part: string)
    requires from <= k <= |s| && part == s[from..k] && forall j | 0 <= j < |part| :: part[j] !in stops
    requires k == |s| || s[k] in stops
    ensures FirstOf(s, stops, from) == k
  {
    forall j | from <= j < k ensures s[j] !in stops {
      assert s[j] == part[j - from];
    }
  }

  /** The components can be read back from what they are written as, so no text has two readings. */
  lemma SplitCompose(u: Reference)
    requires HasShape(u)
    ensures Split(Compose(u)) == u
  {
    hide HasShape, IsScheme, SchemeEnd, AuthorityEnd, QueryEnd, FirstOf;
    var s := Compose(u);
    var a, b, c := SchemeText(u.scheme), AuthorityText(u.authority), u.path;
    var d, e := Suffixed('?', u.query), Suffixed('#', u.fragment);
    PiecesOf(a, b, c, d, e);
    var i, j, p, q := |a|, |a + b|, |a + b + c|, |a + b + c + d|;
    QueryFound(s, u, p, q);
    assert p == |s| || s[p] in "?#" by { TailBegins(s, u, p, q); }
    PathFound(s, u, j, p);
    AuthorityFound(s, u, i, j, p);
    SchemeIsFound(s, u, i, j, p);
  }

  lemma PiecesOf(a: string, b: string, c: string, d: string, e: string)
    ensures var s := a + b + c + d + e; var i, j, p, q := |a|, |a + b|, |a + b + c|, |a + b + c + d|;
            s[..i] == a && s[i..j] == b && s[j..p] == c && s[p..q] == d && s[q..] == e
  {
  }

  lemma TailBegins(s: string, u: Reference, p: nat, q: nat)
    requires p <= q <= |s| && s[p..q] == Suffixed('?', u.query) && s[q..] == Suffixed('#', u.fragment)
    ensures p == |s| || s[p] in "?#"
    ensures q == |s| || s[q] == '#'
    ensures q > p <==> p < |s| && s[p] == '?'
  {
    if q > p {
      assert s[p] == s[p..q][0];
    }
    if q < |s| {
      assert s[q] == s[q..][0];
    }
  }

  lemma QueryFound(s: string, u: Reference, p: nat, q: nat)
    requires HasShape(u)
    requires p <= q <= |s| && s[p..q] == Suffixed('?', u.query) && s[q..] == Suffixed('#', u.fragment)
    ensures QueryEnd(s, p) == q
    ensures u.query == if q > p then Some(s[p + 1..q]) else None
    ensures u.fragment == if q < |s| then Some(s[q + 1..]) else None
  {
    hide IsScheme;
    TailBegins(s, u, p, q);
    if q > p {
      assert s[p + 1..q] == s[p..q][1..] == u.query.value;
      FirstOfIs(s, "#", p + 1, q, u.query.value);
    }
    if q < |s| {
      assert s[q + 1..] == s[q..][1..] == u.fragment.value;
    }
  }

  lemma PathFound(s: string, u: Reference, j: nat, p: nat)
    requires HasShape(u) && j <= p <= |s| && s[j..p] == u.path && (p == |s| || s[p] in "?#")
    ensures FirstOf(s, "?#", j) == p
  {
    FirstOfIs(s, "?#", j, p, u.path);
  }

  lemma AuthorityFound(s: string, u: Reference, i: nat, j: nat, p: nat)
    requires HasShape(u) && i <= j <= p <= |s| && s[j..p] == u.path && (p == |s| || s[p] in "?#")
    requires s[i..j] == AuthorityText(u.authority)
    ensures AuthorityEnd(s, i) == j
    ensures u.authority == if j > i then Some(s[i + 2..j]) else None
  {
    hide IsScheme;
    assert p > j ==> s[j] == u.path[0];
    assert p > j + 1 ==> s[j + 1] == u.path[1];
    if j > i {
      assert s[i] == s[i..j][0] && s[i + 1] == s[i..j][1];
      assert s[i + 2..j] == s[i..j][2..] == u.authority.value;
      FirstOfIs(s, "/?#", i + 2, j, u.authority.value);
    }
  }

  lemma SchemeIsFound(s: string, u: Reference, i: nat, j: nat, p: nat)
    requires HasShape(u) && i <= j <= p <= |s| && s[j..p] == u.path && (p == |s| || s[p] in "?#")
    requires s[i..j] == AuthorityText(u.authority) && s[..i] == SchemeText(u.scheme)
    ensures SchemeEnd(s) == i
    ensures u.scheme == if i > 0 then Some(s[..i - 1]) else None
  {
    hide IsScheme;
    if u.scheme.Some? {
      assert s[i - 1] == s[..i][i - 1] == ':';
      assert s[..i - 1] == s[..i][..i - 1] == u.scheme.value;
      SchemeFound(s, i);
    } else if u.authority.Some? {
      assert s[0] == s[i..j][0];
      NoSchemeFound(s, 0);
    } else {
      var k := First(u.path, '/', 0);
      assert forall m | 0 <= m < k :: s[m] == u.path[..k][m];
      assert k < p ==> s[k] == u.path[k];
      NoSchemeFound(s, k);
    }
  }

  /** The text is a reference exactly when the components it is cut into are well formed. */
  lemma ReferenceBySplit(s: string, allowFragment: bool)
    ensures IsReference(s, allowFragment) <==> IsWellFormed(Split(s)) && (allowFragment || Split(s).fragment.None?)
  {
    hide IsWellFormed, Split, Compose, HasShape;
    ComposeSplit(s);
    if IsReference(s, allowFragment) {
      var u :| IsWellFormed(u) && Compose(u) == s && (allowFragment || u.fragment.None?);
      WellFormedHasShape(u);
      SplitCompose(u);
    }
  }

  /** No two records of components are written as the same text. */
  lemma Unambiguous(u: Reference, v: Reference)
    requires IsWellFormed(u) && IsWellFormed(v) && Compose(u) == Compose(v)
    ensures u == v
  {
    hide IsWellFormed, Compose, Split, HasShape;
    WellFormedHasShape(u);
    WellFormedHasShape(v);
    SplitCompose(u);
    SplitCompose(v);
  }

  method IsUriScheme(sv: string) returns (ok: bool)
    ensures ok <==> IsScheme(sv)
  {
    if sv == [] || !IsAlpha(sv[0]) {
      return false;
    }
    var i := 1;
    while i < |sv|
      invariant 1 <= i <= |sv| && forall k | 0 <= k < i :: IsSchemeChar(sv[k])
    {
      if !IsAlpha(sv[i]) && !IsDigit(sv[i]) && sv[i] != '+' && sv[i] != '-' && sv[i] != '.' {
        return false;
      }
      i := i + 1;
    }
    return true;
  }

  method ConsumeUriScheme(sv: string, from: nat) returns (ok: bool, i: nat)
    ensures ok <==> SchemeEnd(sv) > 0
    ensures i == if ok then SchemeEnd(sv) else from
  {
    hide IsScheme;
    ok, i := false, from;
    var colonAt := First(sv, ':', 0);
    if colonAt == |sv| {
      return;
    }
    ok := IsUriScheme(sv[..colonAt]);
    if ok {
      i := colonAt + 1;
    }
  }

  /** Two slashes and the authority, if they are there. */
  method ScanAuthority(sv: string, from: nat) returns (ok: bool, i: nat)
    requires from <= |sv|
    ensures from <= i <= |sv|
    ensures ok <==> (AuthorityEnd(sv, from) > from ==> IsAuthority(sv[from + 2..AuthorityEnd(sv, from)]))
    ensures ok ==> i == AuthorityEnd(sv, from)
  {
    hide IsAuthority, FirstOf;
    i := from;
    if i + 1 < |sv| && sv[i] == '/' && sv[i + 1] == '/' {
      i := i + 2;
      var authorityStart := i;
      while i < |sv| && sv[i] != '/' && sv[i] != '?' && sv[i] != '#'
        invariant authorityStart <= i <= FirstOf(sv, "/?#", authorityStart)
      {
        i := i + 1;
      }
      ok := CheckUriAuthority(sv[authorityStart..i]);
      return;
    }
    ok := true;
  }

  /**
   The single pass over the text accepts exactly URI-reference, or absolute-URI / partial-URI when fragments
   are not allowed.
   */
  method CheckUriReference(sv: string, allowFragment: bool) returns (ok: bool)
    ensures ok <==> IsReference(sv, allowFragment)
  {
    hide IsReference, IsAuthority, Text, FirstOf, SchemeEnd, PathChecks, QueryEnd;
    ghost var schemeEnd, authorityEnd, pathEnd, queryEnd := SplitMeaning(sv, allowFragment);
    if sv == [] {
      EmptyText(PATH);
      PathNeedsText(false, false, sv);
      return true;
    }
    var hasScheme, i := ConsumeUriScheme(sv, 0);
    var start := i;
    ok, i := ScanAuthority(sv, i);
    if !ok {
      return;
    }
    ok, i := CheckPath(sv, i, hasScheme, i > start);
    if !ok {
      return;
    }
    ok := CheckQueryAndFragment(sv, i, allowFragment);
  }

  /** The part of the pass over the path; without scheme and authority its first segment has no colon. */
  method CheckPath(sv: string, from: nat, hasScheme: bool, hasAuthority: bool) returns (ok: bool, i: nat)
    requires from <= |sv|
    ensures ok <==> PathChecks(hasScheme, hasAuthority, sv[from..FirstOf(sv, "?#", from)])
    ensures ok ==> i == FirstOf(sv, "?#", from)
  {
    hide Text, FirstOf, PathChecks;
    ok, i := ScanText(sv, from, PATH, "?#");
    PathNeedsText(hasScheme, hasAuthority, sv[from..FirstOf(sv, "?#", from)]);
    if !ok {
      return;
    }
    if !hasScheme && !hasAuthority {
      var path := sv[from..i];
      var firstSegment := path[..First(path, '/', 0)];
      if First(firstSegment, ':', 0) < |firstSegment| {
        return false, i;
      }
    }
  }

  /** The part of the pass behind the path. */
  method CheckQueryAndFragment(sv: string, from: nat, allowFragment: bool) returns (ok: bool)
    requires from <= |sv| && (from < |sv| ==> sv[from] in "?#")
    ensures var q := QueryEnd(sv, from);
            ok <==> (q > from ==> Text(QUERY, sv[from + 1..q])) && (q < |sv| ==> allowFragment && Text(QUERY, sv[q + 1..]))
  {
    hide Text, FirstOf;
    var i := from;
    if i < |sv| && sv[i] == '?' {
      ok, i := ScanText(sv, i + 1, QUERY, "#");
      if !ok {
        return;
      }
    }
    assert i < |sv| ==> sv[i] == '#' && sv[i + 1..|sv|] == sv[i + 1..];
    if allowFragment && i < |sv| && sv[i] == '#' {
      ok, i := ScanText(sv, i + 1, QUERY, "");
      if !ok {
        return;
      }
    }
    return i == |sv|;
  }

  lemma PathNeedsText(hasScheme: bool, hasAuthority: bool, path: string)
    ensures PathChecks(hasScheme, hasAuthority, path) <==>
            Text(PATH, path) && (hasScheme || hasAuthority || ':' !in path[..First(path, '/', 0)])
  {
  }

  /** What has to be checked, in terms of the indices where the components end. */
  lemma SplitMeaning(s: string, allowFragment: bool) returns (i: nat, j: nat, p: nat, q: nat)
    ensures i == SchemeEnd(s) && j == AuthorityEnd(s, i) && p == FirstOf(s, "?#", j) && q == QueryEnd(s, p)
    ensures IsReference(s, allowFragment) <==>
            && (j > i ==> IsAuthority(s[i + 2..j]))
            && PathChecks(i > 0, j > i, s[j..p])
            && (q > p ==> Text(QUERY, s[p + 1..q]))
            && (q < |s| ==> allowFragment && Text(QUERY, s[q + 1..]))
  {
    hide IsWellFormed, IsReference, IsAuthority, Text, IsScheme, FirstOf, SchemeEnd, PathChecks;
    i := SchemeEnd(s);
    j := AuthorityEnd(s, i);
    p := FirstOf(s, "?#", j);
    q := QueryEnd(s, p);
    ReferenceBySplit(s, allowFragment);
    SchemeIsScheme(s);
    PathMeaning(Split(s));
  }

  lemma SchemeIsScheme(s: string)
    ensures SchemeEnd(s) > 0 ==> IsScheme(s[..SchemeEnd(s) - 1])
  {
  }
}
