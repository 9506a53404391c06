/**
 The hand-written recognizers of IPv4 and IPv6 addresses against the grammar of section 3.2.2 of RFC 3986.
 */
module IpAddress {
  import opened Octets
  import opened HttpText

  // ---- the grammar

  /** The two kinds of items that addresses are made of, and what separates them. */
  datatype Kind = Hextet | DecOctet

  function Separator(kind: Kind): char { if kind.Hextet? then ':' else '.' }

  /** 1*4HEXDIG */
  predicate IsH16(s: string) { 1 <= |s| <= 4 && forall i | 0 <= i < |s| :: IsHexDigit(s[i]) }

  /** DIGIT / %x31-39 DIGIT / "1" 2DIGIT / "2" %x30-34 DIGIT / "25" %x30-35 */
  predicate IsDecOctet(s: string) {
    || (|s| == 1 && IsDigit(s[0]))
    || (|s| == 2 && '1' <= s[0] <= '9' && IsDigit(s[1]))
    || (|s| == 3 && s[0] == '1' && IsDigit(s[1]) && IsDigit(s[2]))
    || (|s| == 3 && s[0] == '2' && '0' <= s[1] <= '4' && IsDigit(s[2]))
    || (|s| == 3 && s[0] == '2' && s[1] == '5' && '0' <= s[2] <= '5')
  }

  predicate IsItem(kind: Kind, s: string) { if kind.Hextet? then IsH16(s) else IsDecOctet(s) }

  predicate ItemEndsAt(kind: Kind, s: string, k: nat) {
    k < |s| && s[k] == Separator(kind) && IsItem(kind, s[..k])
  }

  /** item *( separator item ), with `n` items in all. */
  ghost predicate IsList(kind: Kind, s: string, n: nat) {
    if n <= 1 then n == 1 && IsItem(kind, s)
    else exists k: nat :: ItemEndsAt(kind, s, k) && IsList(kind, s[k + 1..], n - 1)
  }

  /** n( h16 ":" ) */
  ghost predicate IsGroups(s: string, n: nat) {
    if n == 0 then s == []
    else exists k: nat :: ItemEndsAt(Hextet, s, k) && IsGroups(s[k + 1..], n - 1)
  }

  ghost predicate IsIPv4Address(s: string) { IsList(DecOctet, s, 4) }

  /** ( h16 ":" h16 ) / IPv4address */
  ghost predicate IsLs32(s: string) { IsList(Hextet, s, 2) || IsIPv4Address(s) }

  /** n( h16 ":" ) ls32, with the cut between the two parts at `c` */
  ghost predicate TailCut(s: string, n: nat, c: nat) { c <= |s| && IsGroups(s[..c], n) && IsLs32(s[c..]) }

  ghost predicate IsTail(s: string, n: nat) { exists c: nat :: TailCut(s, n, c) }

  /** [ *( n - 1 )( h16 ":" ) h16 ] */
  ghost predicate IsUpTo(s: string, n: nat) { s == [] || exists j: nat :: j <= n && IsList(Hextet, s, j) }

  predicate DoubleColonAt(s: string, c: nat) { c + 2 <= |s| && s[c] == ':' && s[c + 1] == ':' }

  /** The eight alternatives with "::", given what is left and right of it. */
  ghost predicate IsCompressed(left: string, right: string) {
    || (left == [] && IsTail(right, 5))
    || (IsUpTo(left, 1) && IsTail(right, 4))
    || (IsUpTo(left, 2) && IsTail(right, 3))
    || (IsUpTo(left, 3) && IsTail(right, 2))
    || (IsUpTo(left, 4) && IsTail(right, 1))
    || (IsUpTo(left, 5) && IsLs32(right))
    || (IsUpTo(left, 6) && IsH16(right))
    || (IsUpTo(left, 7) && right == [])
  }

  ghost predicate IsIPv6Address(s: string) {
    || IsTail(s, 6)
    || exists c: nat :: DoubleColonAt(s, c) && IsCompressed(s[..c], s[c + 2..])
  }

  // ---- reading items off from the left

  /** The number of items, if that is what `s` consists of. */
  function Count(kind: Kind, s: string): Option<nat>
    decreases |s|
  {
    var k := First(s, Separator(kind), 0);
    if !IsItem(kind, s[..k]) then None
    else if k == |s| then Some(1)
    else match Count(kind, s[k + 1..]) case None => None case Some(n) => Some(n + 1)
  }

  lemma ItemHasNoSeparator(kind: Kind, s: string, k: nat)
    requires k <= |s| && IsItem(kind, s[..k])
    ensures forall j | 0 <= j < k :: s[j] != Separator(kind) && s[j] != ':' && s[j] != '.'
    ensures 1 <= k
  {
    assert forall j | 0 <= j < k :: s[..k][j] == s[j];
  }

  lemma CountNext(kind: Kind, s: string, k: nat)
    requires ItemEndsAt(kind, s, k)
    ensures Count(kind, s) == match Count(kind, s[k + 1..]) case None => None case Some(n) => Some(n + 1)
  {
    ItemHasNoSeparator(kind, s, k);
    hide IsItem;
    assert First(s, Separator(kind), 0) == k;
  }

  lemma CountLast(kind: Kind, s: string)
    requires forall i | 0 <= i < |s| :: s[i] != Separator(kind)
    ensures Count(kind, s) == if IsItem(kind, s) then Some(1) else None
  {
    hide IsItem;
    assert First(s, Separator(kind), 0) == |s| && s[..|s|] == s;
  }

  lemma CountFails(kind: Kind, s: string, k: nat)
    requires k <= |s| && (forall i | 0 <= i < k :: s[i] != Separator(kind)) && (k < |s| ==> s[k] == Separator(kind))
    requires !IsItem(kind, s[..k])
    ensures Count(kind, s).None?
  {
    hide IsItem;
    assert First(s, Separator(kind), 0) == k;
  }

  /** Reading from the left finds the list whenever there is one, and its length is unique. */
  lemma {:induction false} ListIsCounted(kind: Kind, s: string, n: nat)
    requires IsList(kind, s, n)
    ensures Count(kind, s) == Some(n)
    decreases |s|
  {
    hide IsItem, Count;
    if n == 1 {
      assert s[..|s|] == s;
      ItemHasNoSeparator(kind, s, |s|);
      CountLast(kind, s);
    } else {
      var k: nat :| ItemEndsAt(kind, s, k) && IsList(kind, s[k + 1..], n - 1);
      CountNext(kind, s, k);
      ListIsCounted(kind, s[k + 1..], n - 1);
    }
  }

  lemma {:induction false} CountedIsList(kind: Kind, s: string, n: nat)
    requires Count(kind, s) == Some(n)
    ensures IsList(kind, s, n)
    decreases |s|
  {
    hide IsItem;
    var first := First(s, Separator(kind), 0);
    if first == |s| {
      assert s[..|s|] == s;
    } else {
      CountedIsList(kind, s[first + 1..], n - 1);
      assert ItemEndsAt(kind, s, first);
    }
  }

  lemma CountIsList(kind: Kind, s: string, n: nat)
    ensures Count(kind, s) == Some(n) <==> IsList(kind, s, n)
  {
    if IsList(kind, s, n) {
      ListIsCounted(kind, s, n);
    }
    if Count(kind, s) == Some(n) {
      CountedIsList(kind, s, n);
    }
  }

  // ---- the loops

  /** What is read so far are `found` items, and the rest begins at `start`. */
  ghost predicate Continues(kind: Kind, s: string, start: int, found: int) {
    && 0 <= start <= |s| && 0 <= found
    && Count(kind, s) == match Count(kind, s[start..]) case None => None case Some(n) => Some(found + n)
  }

  lemma SliceOfRest(s: string, start: nat, k: nat)
    requires start <= k < |s|
    ensures s[start..][..k - start] == s[start..k] && s[start..][k - start + 1..] == s[k + 1..]
    ensures s[start..][k - start] == s[k] && forall i | 0 <= i < k - start :: s[start..][i] == s[start + i]
  {
  }

  lemma ContinuesAfter(kind: Kind, s: string, start: nat, found: nat, k: nat)
    requires Continues(kind, s, start, found) && start <= k < |s| && s[k] == Separator(kind)
    requires forall i | start <= i < k :: s[i] != Separator(kind)
    ensures IsItem(kind, s[start..k]) ==> Continues(kind, s, k + 1, found + 1)
    ensures !IsItem(kind, s[start..k]) ==> Count(kind, s).None?
  {
    hide IsItem, Count, First;
    SliceOfRest(s, start, k);
    if IsItem(kind, s[start..k]) {
      CountNext(kind, s[start..], k - start);
    } else {
      CountFails(kind, s[start..], k - start);
    }
  }

  lemma ContinuesToEnd(kind: Kind, s: string, start: nat, found: nat)
    requires Continues(kind, s, start, found) && forall i | start <= i < |s| :: s[i] != Separator(kind)
    ensures Count(kind, s) == if IsItem(kind, s[start..]) then Some(found + 1) else None
  {
    hide IsItem, Count;
    CountLast(kind, s[start..]);
  }

  /** A character that no item may contain, or one too many, spoils the list. */
  lemma ContinuesToFailure(kind: Kind, s: string, start: nat, found: nat, k: nat)
    requires Continues(kind, s, start, found) && start <= k < |s|
    requires forall i | start <= i <= k :: s[i] != Separator(kind)
    requires (kind.Hextet? && (!IsHexDigit(s[k]) || k - start >= 4)) || (kind.DecOctet? && !IsDigit(s[k]))
    ensures Count(kind, s).None?
  {
    hide IsItem, Count;
    var t := s[start..];
    var first := First(t, Separator(kind), 0);
    assert forall i | 0 <= i < |t| :: t[i] == s[start + i];
    assert k - start < first && t[..first][k - start] == s[k];
    IsNoItem(kind, t[..first], k - start);
    CountFails(kind, t, first);
  }

  lemma IsNoItem(kind: Kind, s: string, k: nat)
    requires k < |s|
    requires (kind.Hextet? && (!IsHexDigit(s[k]) || k >= 4)) || (kind.DecOctet? && !IsDigit(s[k]))
    ensures !IsItem(kind, s)
  {
  }

  /** -1, or the number of h16 separated by ":"; none in an empty text. */
  method SkipNHextets(sv: string) returns (n: int)
    ensures sv == [] ==> n == 0
    ensures sv != [] ==> n == if Count(Hextet, sv).Some? then Count(Hextet, sv).value else -1
  {
    hide Count, Continues;
    var hextetsFound, off, hexDigits := 0, 0, 0;
    assert Continues(Hextet, sv, 0, 0) by { StartOfList(Hextet, sv); }
    while off < |sv|
      invariant 0 <= off <= |sv| && 0 <= hexDigits <= 4 && hexDigits <= off && 0 <= hextetsFound <= off
      invariant forall i | off - hexDigits <= i < off :: IsHexDigit(sv[i])
      invariant off > 0 && hexDigits == 0 ==> sv[off - 1] == ':'
      invariant Continues(Hextet, sv, off - hexDigits, hextetsFound)
    {
      if IsHexDigit(sv[off]) {
        hexDigits := hexDigits + 1;
        if hexDigits > 4 {
          ContinuesToFailure(Hextet, sv, off + 1 - hexDigits, hextetsFound, off);
          return -1;
        }
      } else if sv[off] == ':' {
        ContinuesAfter(Hextet, sv, off - hexDigits, hextetsFound, off);
        if hexDigits == 0 {
          return -1;
        }
        hextetsFound := hextetsFound + 1;
        hexDigits := 0;
      } else {
        ContinuesToFailure(Hextet, sv, off - hexDigits, hextetsFound, off);
        return -1;
      }
      off := off + 1;
    }
    ContinuesToEnd(Hextet, sv, off - hexDigits, hextetsFound);
    if |sv| > 0 && sv[|sv| - 1] == ':' {
      return -1;
    }
    if hexDigits > 0 {
      assert IsH16(sv[off - hexDigits..]);
      hextetsFound := hextetsFound + 1;
    }
    return hextetsFound;
  }

  lemma StartOfList(kind: Kind, s: string)
    ensures Continues(kind, s, 0, 0)
  {
    assert s[0..] == s;
  }

  /** The positional check of the one to three digits that end before `off`. */
  predicate IsDecOctetBefore(sv: string, digits: nat, off: nat)
    requires off <= |sv|
  {
    if digits == 0 || digits > 3 || off < digits then false
    else if digits == 2 then sv[off - 2] != '0'
    else if digits == 3 then
      if sv[off - 3] == '2' then
        if sv[off - 2] == '5' then sv[off - 1] <= '5' else sv[off - 2] <= '4'
      else sv[off - 3] == '1'
    else true
  }

  lemma DecOctetBefore(sv: string, digits: nat, off: nat)
    requires digits <= off <= |sv| && forall i | off - digits <= i < off :: IsDigit(sv[i])
    ensures IsDecOctetBefore(sv, digits, off) <==> IsDecOctet(sv[off - digits..off])
  {
    if digits >= 1 { assert IsDigit(sv[off - 1]); }
    if digits >= 2 { assert IsDigit(sv[off - 2]); }
    if digits >= 3 { assert IsDigit(sv[off - 3]); }
  }

  method IsIpV4Address(sv: string) returns (ok: bool)
    ensures ok <==> IsIPv4Address(sv)
  {
    hide Count, Continues, IsList, IsDecOctet, IsDecOctetBefore;
    CountIsList(DecOctet, sv, 4);
    if sv == [] {
      CountLast(DecOctet, sv);
      EmptyIsNoOctet();
      return false;
    }
    var decOctetsCount, off, digits := 0, 0, 0;
    StartOfList(DecOctet, sv);
    while off < |sv|
      invariant 0 <= off <= |sv| && 0 <= digits <= off && 0 <= decOctetsCount
      invariant forall i | off - digits <= i < off :: IsDigit(sv[i])
      invariant Continues(DecOctet, sv, off - digits, decOctetsCount)
    {
      if sv[off] == '.' {
        ContinuesAfter(DecOctet, sv, off - digits, decOctetsCount, off);
        DecOctetBefore(sv, digits, off);
        ShortOctets(sv, digits, off);
        if digits == 0 || digits > 3 {
          return false;
        }
        if !IsDecOctetBefore(sv, digits, off) {
          return false;
        }
        decOctetsCount := decOctetsCount + 1;
        digits := 0;
      } else if IsDigit(sv[off]) {
        digits := digits + 1;
      } else {
        ContinuesToFailure(DecOctet, sv, off - digits, decOctetsCount, off);
        return false;
      }
      off := off + 1;
    }
    ContinuesToEnd(DecOctet, sv, off - digits, decOctetsCount);
    assert sv[off - digits..] == sv[off - digits..off];
    DecOctetBefore(sv, digits, off);
    ShortOctets(sv, digits, off);
    if digits == 0 || digits > 3 {
      return false;
    }
    if !IsDecOctetBefore(sv, digits, off) {
      return false;
    }
    decOctetsCount := decOctetsCount + 1;
    return decOctetsCount == 4;
  }

  lemma EmptyIsNoOctet()
    ensures !IsDecOctet("")
  {
  }

  lemma ShortOctets(sv: string, digits: nat, off: nat)
    requires digits <= off <= |sv|
    ensures IsDecOctet(sv[off - digits..off]) ==> 1 <= digits <= 3
  {
  }

  // ---- putting IPv6 together

  lemma ListCons(kind: Kind, s: string, k: nat, n: nat)
    requires ItemEndsAt(kind, s, k) && 1 <= n && IsList(kind, s[k + 1..], n)
    ensures IsList(kind, s, n + 1)
  {
  }

  lemma ListUncons(kind: Kind, s: string, n: nat) returns (k: nat)
    requires IsList(kind, s, n + 1) && 1 <= n
    ensures ItemEndsAt(kind, s, k) && IsList(kind, s[k + 1..], n)
  {
    k :| ItemEndsAt(kind, s, k) && IsList(kind, s[k + 1..], n);
  }

  lemma GroupsCons(s: string, k: nat, n: nat)
    requires ItemEndsAt(Hextet, s, k) && IsGroups(s[k + 1..], n)
    ensures IsGroups(s, n + 1)
  {
  }

  lemma GroupsUncons(s: string, n: nat) returns (k: nat)
    requires IsGroups(s, n + 1)
    ensures ItemEndsAt(Hextet, s, k) && IsGroups(s[k + 1..], n)
  {
    k :| ItemEndsAt(Hextet, s, k) && IsGroups(s[k + 1..], n);
  }

  lemma NoGroups(s: string)
    ensures IsGroups(s, 0) <==> s == []
  {
  }

  lemma ListIsPositive(kind: Kind, s: string, n: nat)
    ensures IsList(kind, s, n) ==> 1 <= n
    ensures IsList(kind, s, 1) <==> IsItem(kind, s)
  {
  }

  lemma ItemEndsInside(kind: Kind, p: string, q: string, k: nat)
    requires ItemEndsAt(kind, p, k)
    ensures ItemEndsAt(kind, p + q, k) && (p + q)[k + 1..] == p[k + 1..] + q
  {
    assert (p + q)[..k] == p[..k];
  }

  lemma {:induction false} GroupsThenList(p: string, n: nat, q: string, m: nat)
    requires IsGroups(p, n) && IsList(Hextet, q, m)
    ensures IsList(Hextet, p + q, n + m)
    decreases n
  {
    hide IsItem, IsList, IsGroups, ItemEndsAt;
    if n == 0 {
      NoGroups(p);
      assert p + q == q;
    } else {
      var k := GroupsUncons(p, n - 1);
      ItemInside(Hextet, p, k);
      GroupsThenList(p[k + 1..], n - 1, q, m);
      ItemEndsInside(Hextet, p, q, k);
      ListIsPositive(Hextet, q, m);
      ListCons(Hextet, p + q, k, n - 1 + m);
    }
  }

  lemma ItemInside(kind: Kind, s: string, k: nat)
    ensures ItemEndsAt(kind, s, k) ==> k < |s| && s[k] == Separator(kind)
  {
  }

  /** A list of n + m items splits behind its n-th separator. */
  lemma {:induction false} ListSplits(s: string, n: nat, m: nat) returns (c: nat)
    requires IsList(Hextet, s, n + m) && 1 <= m
    ensures c <= |s| && IsGroups(s[..c], n) && IsList(Hextet, s[c..], m)
    decreases n
  {
    hide IsItem, IsList, IsGroups, ItemEndsAt;
    if n == 0 {
      c := 0;
      NoGroups(s[..0]);
      assert s[0..] == s;
    } else {
      var k := ListUncons(Hextet, s, n + m - 1);
      ItemInside(Hextet, s, k);
      var rest := s[k + 1..];
      var cut := ListSplits(rest, n - 1, m);
      c := k + 1 + cut;
      assert s[..c][k + 1..] == rest[..cut] && s[c..] == rest[cut..];
      ItemEndsEarly(Hextet, s, k, c);
      GroupsCons(s[..c], k, n - 1);
    }
  }

  lemma ItemEndsEarly(kind: Kind, s: string, k: nat, c: nat)
    requires ItemEndsAt(kind, s, k) && k < c <= |s|
    ensures ItemEndsAt(kind, s[..c], k)
  {
    assert s[..c][..k] == s[..k];
  }

  /** Only digits and single, inner separators. */
  predicate IsRun(kind: Kind, s: string) {
    && s != [] && s[0] != Separator(kind) && s[|s| - 1] != Separator(kind)
    && (forall i | 0 <= i < |s| :: IsHexDigit(s[i]) || s[i] == Separator(kind))
    && (forall i | 0 <= i < |s| - 1 :: s[i] == Separator(kind) ==> s[i + 1] != Separator(kind))
  }

  lemma ItemIsRun(kind: Kind, s: string)
    requires IsItem(kind, s)
    ensures IsRun(kind, s)
  {
  }

  lemma RunCons(kind: Kind, s: string, k: nat)
    requires ItemEndsAt(kind, s, k) && IsRun(kind, s[k + 1..])
    ensures IsRun(kind, s)
  {
    ItemIsRun(kind, s[..k]);
    hide IsItem;
    var p, q := s[..k], s[k + 1..];
    assert forall i | 0 <= i < k :: s[i] == p[i];
    assert forall i | k < i < |s| :: s[i] == q[i - k - 1];
    assert s[k + 1] == q[0] && s[|s| - 1] == q[|q| - 1];
  }

  lemma {:induction false} ListIsRun(kind: Kind, s: string, n: nat)
    requires IsList(kind, s, n)
    ensures IsRun(kind, s)
    decreases n
  {
    hide IsItem, IsList, IsRun, ItemEndsAt;
    ListIsPositive(kind, s, n);
    if n == 1 {
      ItemIsRun(kind, s);
    } else {
      var k := ListUncons(kind, s, n - 1);
      ItemInside(kind, s, k);
      ListIsRun(kind, s[k + 1..], n - 1);
      RunCons(kind, s, k);
    }
  }

  /** n( h16 ":" ) is a list of n items and one more colon. */
  lemma {:induction false} GroupsAreListAndColon(p: string, n: nat)
    requires 1 <= n
    ensures IsGroups(p, n) <==> p != [] && p[|p| - 1] == ':' && IsList(Hextet, p[..|p| - 1], n)
  {
    if IsGroups(p, n) {
      GroupsToList(p, n);
    }
    if p != [] && p[|p| - 1] == ':' && IsList(Hextet, p[..|p| - 1], n) {
      ListToGroups(p, n);
    }
  }

  lemma {:induction false} GroupsToList(p: string, n: nat)
    requires 1 <= n && IsGroups(p, n)
    ensures p != [] && p[|p| - 1] == ':' && IsList(Hextet, p[..|p| - 1], n)
    decreases n
  {
    hide IsItem, IsList, IsGroups, ItemEndsAt;
    var k := GroupsUncons(p, n - 1);
    ItemInside(Hextet, p, k);
    var rest := p[k + 1..];
    if n == 1 {
      NoGroups(rest);
      ItemAt(Hextet, p, k);
      ListIsPositive(Hextet, p[..k], 1);
      assert p[..|p| - 1] == p[..k];
    } else {
      GroupsToList(rest, n - 1);
      ItemEndsEarly(Hextet, p, k, |p| - 1);
      assert p[..|p| - 1][k + 1..] == rest[..|rest| - 1];
      ListCons(Hextet, p[..|p| - 1], k, n - 1);
    }
  }

  lemma ItemAt(kind: Kind, s: string, k: nat)
    requires k < |s| && s[k] == Separator(kind)
    ensures ItemEndsAt(kind, s, k) <==> IsItem(kind, s[..k])
  {
  }

  lemma {:induction false} ListToGroups(p: string, n: nat)
    requires 1 <= n && p != [] && p[|p| - 1] == ':' && IsList(Hextet, p[..|p| - 1], n)
    ensures IsGroups(p, n)
    decreases n
  {
    hide IsItem, IsList, IsGroups, ItemEndsAt;
    var q := p[..|p| - 1];
    if n == 1 {
      ListIsPositive(Hextet, q, 1);
      ItemAt(Hextet, p, |q|);
      NoGroups(p[|q| + 1..]);
      GroupsCons(p, |q|, 0);
    } else {
      var k := ListUncons(Hextet, q, n - 1);
      ItemInside(Hextet, q, k);
      var rest := p[k + 1..];
      assert rest[..|rest| - 1] == q[k + 1..];
      ListToGroups(rest, n - 1);
      assert p == q + [':'];
      ItemEndsInside(Hextet, q, [':'], k);
      GroupsCons(p, k, n - 1);
    }
  }

  /** The index of the last `c`, or -1. */
  function Last(s: string, c: char): (i: int)
    ensures -1 <= i < |s| && (0 <= i ==> s[i] == c)
    ensures forall j | i < j < |s| :: s[j] != c
  {
    if s == [] then -1 else if s[|s| - 1] == c then |s| - 1 else Last(s[..|s| - 1], c)
  }

  /** A tail that ends in an IPv4 address, read at its last colon. */
  ghost predicate IsDotted(s: string, n: nat) {
    var col := Last(s, ':');
    if col == -1 then n == 0 && IsIPv4Address(s)
    else 1 <= n && IsList(Hextet, s[..col], n) && IsIPv4Address(s[col + 1..])
  }

  lemma IPv4Alphabet(s: string)
    requires IsIPv4Address(s)
    ensures s != [] && '.' in s && ':' !in s
  {
    hide IsItem, IsList, ItemEndsAt;
    ListIsRun(DecOctet, s, 4);
    var k := ListUncons(DecOctet, s, 3);
    ItemInside(DecOctet, s, k);
  }

  lemma HextetAlphabet(s: string, n: nat)
    requires IsList(Hextet, s, n)
    ensures '.' !in s
  {
    hide IsItem, IsList;
    ListIsRun(Hextet, s, n);
  }

  /** What a tail is, by whether it has a dot. */
  lemma TailByDot(s: string, n: nat)
    ensures IsTail(s, n) <==> ('.' !in s && IsList(Hextet, s, n + 2)) || ('.' in s && IsDotted(s, n))
  {
    hide IsItem, IsList, IsGroups, IsDotted;
    if IsTail(s, n) {
      var c: nat :| TailCut(s, n, c);
      TailSplit(s, n, c);
    }
    if '.' !in s && IsList(Hextet, s, n + 2) {
      var c := ListSplits(s, n, 2);
      assert TailCut(s, n, c);
    }
    if '.' in s && IsDotted(s, n) {
      DottedIsTail(s, n);
    }
  }

  lemma TailSplit(s: string, n: nat, c: nat)
    requires TailCut(s, n, c)
    ensures ('.' !in s && IsList(Hextet, s, n + 2)) || ('.' in s && IsDotted(s, n))
  {
    hide IsItem, IsList, IsGroups, Last, IsIPv4Address;
    assert s == s[..c] + s[c..];
    if IsList(Hextet, s[c..], 2) {
      GroupsThenList(s[..c], n, s[c..], 2);
      HextetAlphabet(s, n + 2);
    } else {
      IPv4Alphabet(s[c..]);
      assert '.' in s;
      if n == 0 {
        NoGroups(s[..c]);
        assert s[c..] == s;
        assert Last(s, ':') == -1;
      } else {
        GroupsAreListAndColon(s[..c], n);
        assert s[c - 1] == ':';
        assert forall j | c <= j < |s| :: s[j] == s[c..][j - c];
        assert Last(s, ':') == c - 1;
        assert s[..c][..c - 1] == s[..c - 1];
      }
    }
  }

  lemma DottedIsTail(s: string, n: nat)
    requires IsDotted(s, n)
    ensures IsTail(s, n) && '.' in s
  {
    hide IsItem, IsList, IsGroups, Last, IsIPv4Address;
    var col := Last(s, ':');
    if col == -1 {
      NoGroups(s[..0]);
      assert s[0..] == s;
      assert TailCut(s, 0, 0);
      IPv4Alphabet(s);
    } else {
      assert s[..col + 1][..col] == s[..col];
      GroupsAreListAndColon(s[..col + 1], n);
      assert TailCut(s, n, col + 1);
      IPv4Alphabet(s[col + 1..]);
    }
  }

  /** No colon at either end that "::" could run into, and no "::" inside. */
  ghost predicate IsCalm(s: string) {
    s != [] ==> s[0] != ':' && s[|s| - 1] != ':' && forall c: nat :: !DoubleColonAt(s, c)
  }

  lemma ListIsCalm(s: string, n: nat)
    requires IsList(Hextet, s, n)
    ensures IsCalm(s)
  {
    hide IsItem, IsList;
    ListIsRun(Hextet, s, n);
  }

  lemma TailIsCalm(s: string, n: nat)
    requires IsTail(s, n)
    ensures IsCalm(s) && s != []
  {
    hide IsItem, IsList, IsGroups, IsTail, Last, IsIPv4Address;
    TailByDot(s, n);
    if '.' !in s {
      ListIsCalm(s, n + 2);
      ListIsRun(Hextet, s, n + 2);
    } else {
      var col := Last(s, ':');
      IPv4Alphabet(s[col + 1..]);
      assert s[-1 + 1..] == s;
      assert forall j | col < j < |s| :: s[j] == s[col + 1..][j - col - 1];
      if col != -1 {
        ListIsRun(Hextet, s[..col], n);
        assert forall j | 0 <= j < col :: s[j] == s[..col][j];
      }
    }
  }

  // ---- the count that decides

  /** The number of hextets of a possibly empty list; -1 if it is none. */
  function Hextets(s: string): int {
    if s == [] then 0 else match Count(Hextet, s) case None => -1 case Some(n) => n
  }

  lemma HextetsCount(s: string, n: nat)
    requires s != []
    ensures Hextets(s) == n <==> IsList(Hextet, s, n)
  {
    CountIsList(Hextet, s, n);
  }

  lemma UpToByCount(s: string, m: nat)
    ensures IsUpTo(s, m) <==> 0 <= Hextets(s) <= m
  {
    hide Count, IsList;
    if s != [] {
      if 0 <= Hextets(s) <= m {
        HextetsCount(s, Hextets(s));
      }
      if IsUpTo(s, m) {
        var j: nat :| j <= m && IsList(Hextet, s, j);
        HextetsCount(s, j);
      }
    }
  }

  lemma Ls32ByDot(s: string)
    ensures IsLs32(s) <==> IsTail(s, 0)
  {
    hide IsList, IsLs32, IsIPv4Address;
    NoGroups(s[..0]);
    assert s[0..] == s;
    if IsTail(s, 0) {
      var c: nat :| TailCut(s, 0, c);
      NoGroups(s[..c]);
      assert s[c..] == s;
    }
    if IsLs32(s) {
      assert TailCut(s, 0, 0);
    }
  }

  /** The eight alternatives come down to a number: at most seven items, an address counting for two. */
  lemma CompressedByCount(left: string, right: string)
    ensures '.' !in right ==> (IsCompressed(left, right) <==>
              0 <= Hextets(left) && 0 <= Hextets(right) && Hextets(left) + Hextets(right) <= 7)
    ensures '.' in right ==> (IsCompressed(left, right) <==>
              0 <= Hextets(left) && exists n: nat :: IsDotted(right, n) && Hextets(left) + n <= 5)
  {
    hide Count, IsList, IsDotted, IsTail, IsUpTo, IsLs32, Hextets;
    UpToAll(left);
    Ls32ByDot(right);
    TailByDot(right, 0);
    TailByDot(right, 1);
    TailByDot(right, 2);
    TailByDot(right, 3);
    TailByDot(right, 4);
    TailByDot(right, 5);
    RightCounts(right);
  }

  lemma UpToAll(left: string)
    ensures forall m: nat :: IsUpTo(left, m) <==> 0 <= Hextets(left) <= m
    ensures left == [] <==> Hextets(left) == 0
  {
    forall m: nat ensures IsUpTo(left, m) <==> 0 <= Hextets(left) <= m {
      UpToByCount(left, m);
    }
    if left != [] {
      HextetsCount(left, 0);
    }
  }

  lemma RightCounts(right: string)
    ensures right == [] <==> Hextets(right) == 0
    ensures forall n: nat :: 1 <= n ==> (Hextets(right) == n <==> IsList(Hextet, right, n))
    ensures IsH16(right) <==> IsList(Hextet, right, 1)
    ensures IsH16(right) ==> '.' !in right
  {
    UpToAll(right);
    forall n: nat | 1 <= n ensures Hextets(right) == n <==> IsList(Hextet, right, n) {
      if right == [] {
        ListIsPositive(Hextet, right, n);
        if IsList(Hextet, right, n) {
          ListIsRun(Hextet, right, n);
        }
      } else {
        HextetsCount(right, n);
      }
    }
    ListIsPositive(Hextet, right, 1);
    if IsH16(right) {
      HextetAlphabet(right, 1);
    }
  }

  /** Neither side of "::" runs into a colon of its own. */
  lemma CompressedIsCalm(left: string, right: string)
    requires IsCompressed(left, right)
    ensures IsCalm(left) && IsCalm(right)
  {
    hide Count, IsList, IsTail, IsLs32, IsCalm, Hextets, IsUpTo;
    EmptyIsCalm();
    Ls32ByDot(right);
    UpToAll(left);
    if left != [] {
      HextetsCount(left, Hextets(left));
      ListIsCalm(left, Hextets(left));
    }
    if n: nat :| IsTail(right, n) {
      TailIsCalm(right, n);
    } else if IsH16(right) {
      RightCounts(right);
      ListIsCalm(right, 1);
    }
  }

  predicate IsAddressText(s: string) { forall i | 0 <= i < |s| :: IsHexDigit(s[i]) || s[i] == ':' || s[i] == '.' }

  lemma ListAlphabet(kind: Kind, s: string, n: nat)
    requires IsList(kind, s, n)
    ensures IsAddressText(s)
  {
    hide IsItem, IsList;
    ListIsRun(kind, s, n);
  }

  lemma TailAlphabet(s: string, n: nat)
    requires IsTail(s, n)
    ensures IsAddressText(s)
  {
    hide IsItem, IsList, IsTail, IsGroups;
    TailByDot(s, n);
    if '.' !in s {
      ListAlphabet(Hextet, s, n + 2);
    } else {
      var col := Last(s, ':');
      ListAlphabet(DecOctet, s[col + 1..], 4);
      assert forall j | col < j < |s| :: s[j] == s[col + 1..][j - col - 1];
      if col == -1 {
        assert s[col + 1..] == s;
      } else {
        ListAlphabet(Hextet, s[..col], n);
        assert forall j | 0 <= j < col :: s[j] == s[..col][j];
      }
    }
  }

  lemma CompressedAlphabet(left: string, right: string)
    requires IsCompressed(left, right)
    ensures IsAddressText(left) && IsAddressText(right)
  {
    hide Count, IsList, IsTail, IsLs32, Hextets, IsUpTo, IsAddressText;
    EmptyAlphabet();
    Ls32ByDot(right);
    UpToAll(left);
    if left != [] {
      HextetsCount(left, Hextets(left));
      ListAlphabet(Hextet, left, Hextets(left));
    }
    if n: nat :| IsTail(right, n) {
      TailAlphabet(right, n);
    } else if IsH16(right) {
      RightCounts(right);
      ListAlphabet(Hextet, right, 1);
    }
  }

  lemma EmptyAlphabet()
    ensures IsAddressText("")
  {
  }

  lemma IPv6Alphabet(s: string)
    requires IsIPv6Address(s)
    ensures IsAddressText(s)
  {
    hide IsTail, IsCompressed;
    if IsTail(s, 6) {
      TailAlphabet(s, 6);
    } else {
      var c: nat :| DoubleColonAt(s, c) && IsCompressed(s[..c], s[c + 2..]);
      CompressedAlphabet(s[..c], s[c + 2..]);
      assert forall j | 0 <= j < c :: s[j] == s[..c][j];
      assert forall j | c + 2 <= j < |s| :: s[j] == s[c + 2..][j - c - 2];
    }
  }

  lemma EmptyIsCalm()
    ensures IsCalm("")
  {
  }

  /** The index of the first "::" from `from` on, or the length. */
  function FirstDouble(s: string, from: nat): (i: nat)
    requires from <= |s|
    ensures from <= i <= |s| && (i < |s| ==> DoubleColonAt(s, i))
    ensures forall j: nat | from <= j && (j < i || i == |s|) :: !DoubleColonAt(s, j)
    decreases |s| - from
  {
    if from == |s| || DoubleColonAt(s, from) then from else FirstDouble(s, from + 1)
  }

  /** The loops accept exactly the nine alternatives of the IPv6address rule. */
  method IsIpV6Address(sv: string) returns (ok: bool)
    ensures ok <==> IsIPv6Address(sv)
  {
    hide IsIPv6Address;
    var sep := FirstDouble(sv, 0);
    if sep == |sv| {
      NoDoubleColon(sv);
      ok := IsUncompressed(sv);
    } else if FirstDouble(sv, sep + 1) == |sv| {
      OneDoubleColon(sv, sep);
      ok := IsCompressedText(sv[..sep], sv[sep + 2..]);
    } else {
      TwoDoubleColons(sv, sep, FirstDouble(sv, sep + 1));
      ok := false;
    }
  }

  lemma NoDoubleColon(s: string)
    requires forall c: nat :: !DoubleColonAt(s, c)
    ensures IsIPv6Address(s) <==> IsTail(s, 6)
  {
    hide IsTail, IsCompressed;
  }

  lemma OneDoubleColon(s: string, sep: nat)
    requires DoubleColonAt(s, sep) && forall c: nat | c != sep :: !DoubleColonAt(s, c)
    ensures IsIPv6Address(s) <==> IsCompressed(s[..sep], s[sep + 2..])
  {
    hide IsTail, IsCompressed;
    if IsTail(s, 6) {
      TailIsCalm(s, 6);
    }
  }

  lemma TwoDoubleColons(s: string, a: nat, b: nat)
    requires a < b && DoubleColonAt(s, a) && DoubleColonAt(s, b)
    ensures !IsIPv6Address(s)
  {
    hide IsTail, IsCompressed, IsCalm;
    if IsTail(s, 6) {
      TailIsCalm(s, 6);
      CalmHasNone(s, a);
    }
    forall c: nat | DoubleColonAt(s, c) ensures !IsCompressed(s[..c], s[c + 2..]) {
      NotCalmAround(s, c, if c == a then b else a);
      if IsCompressed(s[..c], s[c + 2..]) {
        CompressedIsCalm(s[..c], s[c + 2..]);
      }
    }
  }

  lemma CalmHasNone(s: string, c: nat)
    requires IsCalm(s)
    ensures !DoubleColonAt(s, c)
  {
  }

  /** A second "::" lies left of the first, right of it, or overlaps it. */
  lemma NotCalmAround(s: string, c: nat, other: nat)
    requires DoubleColonAt(s, c) && DoubleColonAt(s, other) && c != other
    ensures !IsCalm(s[..c]) || !IsCalm(s[c + 2..])
  {
    var left, right := s[..c], s[c + 2..];
    if other + 2 <= c {
      assert DoubleColonAt(left, other);
    } else if c + 2 <= other {
      assert DoubleColonAt(right, other - c - 2);
    } else if other < c {
      assert left[|left| - 1] == s[c - 1] == ':';
    } else {
      assert right[0] == s[c + 2] == ':';
    }
  }

  method IsUncompressed(sv: string) returns (ok: bool)
    ensures ok <==> IsTail(sv, 6)
  {
    hide IsTail, Count, IsList, IsIPv4Address, Hextets;
    TailByDot(sv, 6);
    var dot := First(sv, '.', 0);
    if dot == |sv| {
      var n := SkipNHextets(sv);
      CountIsList(Hextet, sv, 8);
      EmptyIsNoList(8);
      return n == 8;
    }
    assert '.' in sv;
    var col := Last(sv, ':');
    if col == -1 {
      return false;
    }
    if dot <= col {
      DotLeftOfColon(sv, dot, col, 6);
      return false;
    }
    var n := SkipNHextets(sv[..col]);
    CountIsList(Hextet, sv[..col], 6);
    EmptyIsNoList(6);
    if n != 6 {
      return false;
    }
    ok := IsIpV4Address(sv[col + 1..]);
    assert IsList(Hextet, sv[..col], 6);
    assert IsDotted(sv, 6) <==> ok;
  }

  lemma EmptyIsNoList(n: nat)
    ensures !IsList(Hextet, "", n)
  {
    if IsList(Hextet, "", n) {
      ListIsRun(Hextet, "", n);
    }
  }

  lemma DotLeftOfColon(s: string, dot: nat, col: nat, n: nat)
    requires dot <= col < |s| && s[dot] == '.' && s[col] == ':'
    ensures !IsList(Hextet, s[..col], n)
  {
    assert s[..col][dot] == '.';
    if IsList(Hextet, s[..col], n) {
      HextetAlphabet(s[..col], n);
    }
  }

  method IsCompressedText(svl: string, svr: string) returns (ok: bool)
    requires svr == [] || svr[0] != ':'
    ensures ok <==> IsCompressed(svl, svr)
  {
    hide IsTail, Count, IsList, IsIPv4Address, IsCompressed;
    CompressedByCount(svl, svr);
    var lh := 0;
    if svl != [] {
      lh := SkipNHextets(svl);
    }
    assert lh == Hextets(svl);
    if lh == -1 {
      return false;
    }
    var dot := First(svr, '.', 0);
    if dot == |svr| {
      var rh := 0;
      if svr != [] {
        rh := SkipNHextets(svr);
      }
      assert rh == Hextets(svr);
      return rh != -1 && lh + rh <= 7;
    }
    assert '.' in svr;
    var col := Last(svr, ':');
    var head, tail := "", svr;
    if col != -1 {
      if dot <= col {
        forall n: nat ensures !IsDotted(svr, n) {
          DotLeftOfColon(svr, dot, col, n);
        }
        return false;
      }
      head, tail := svr[..col], svr[col + 1..];
    }
    var rh := 0;
    if head != [] {
      rh := SkipNHextets(head);
    }
    assert rh == Hextets(head);
    DottedCount(svr);
    assert tail == svr[col + 1..];
    if rh == -1 || lh + rh > 5 || tail == [] {
      if tail == [] {
        EmptyIsNoIPv4();
      }
      return false;
    }
    ok := IsIpV4Address(tail);
    assert IsDotted(svr, rh) <==> ok;
  }

  lemma EmptyIsNoIPv4()
    ensures !IsIPv4Address("")
  {
    if IsIPv4Address("") {
      IPv4Alphabet("");
    }
  }

  /** A dotted tail has one number of groups, which the part before its last colon shows. */
  lemma DottedCount(s: string)
    requires s == [] || s[0] != ':'
    ensures var col := Last(s, ':'); var head := if col == -1 then "" else s[..col]; var tail := s[col + 1..];
            forall n: nat :: IsDotted(s, n) <==> Hextets(head) == n && IsIPv4Address(tail)
  {
    hide IsList, IsIPv4Address, Count;
    var col := Last(s, ':');
    var tail := s[col + 1..];
    if col == -1 {
      assert tail == s;
    } else {
      var head := s[..col];
      UpToAll(head);
      forall n: nat ensures IsList(Hextet, head, n) <==> Hextets(head) == n {
        HextetsCount(head, n);
      }
      EmptyIsNoList(0);
      ListIsPositive(Hextet, head, 0);
    }
  }
}
