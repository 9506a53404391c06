/**
 An ordered list of header fields, what can be done to it, and how it is written out.
 */
module HeaderList {
  import opened Octets
  import opened HttpText

  datatype Header = Header(name: Bytes, value: Bytes)

  predicate WellFormed(hs: seq<Header>) {
    forall i | 0 <= i < |hs| :: IsToken(hs[i].name) && IsFieldValue(hs[i].value)
  }

  function Line(h: Header): Bytes { h.name + ": " + h.value + "\r\n" }

  function Render(hs: seq<Header>): Bytes {
    if hs == [] then [] else Line(hs[0]) + Render(hs[1..])
  }

  /** The position of the first field with that name, in any case; the length of the list if none has it. */
  function Find(hs: seq<Header>, name: Bytes): (i: nat)
    ensures i <= |hs|
    ensures i < |hs| ==> IEquals(hs[i].name, name)
    ensures forall j | 0 <= j < i :: !IEquals(hs[j].name, name)
  {
    if hs == [] || IEquals(hs[0].name, name) then 0 else 1 + Find(hs[1..], name)
  }

  predicate Has(hs: seq<Header>, name: Bytes) { Find(hs, name) < |hs| }

  function Set(hs: seq<Header>, name: Bytes, value: Bytes): seq<Header> {
    var i := Find(hs, name);
    if i < |hs| then hs[i := hs[i].(value := value)] else hs + [Header(name, value)]
  }

  function Remove(hs: seq<Header>, name: Bytes): seq<Header> {
    var i := Find(hs, name);
    if i < |hs| then hs[..i] + hs[i + 1..] else hs
  }

  /** The values of all fields with that name, in order. */
  function Values(hs: seq<Header>, name: Bytes): seq<Bytes> {
    if hs == [] then []
    else (if IEquals(hs[0].name, name) then [hs[0].value] else []) + Values(hs[1..], name)
  }

  // ---- rendering

  lemma {:induction false} RenderConcat(a: seq<Header>, b: seq<Header>)
    ensures Render(a + b) == Render(a) + Render(b)
  {
    if a == [] {
      assert a + b == b;
    } else {
      assert (a + b)[1..] == a[1..] + b;
      RenderConcat(a[1..], b);
    }
  }

  /** The block around field `i`. */
  lemma RenderSplit(hs: seq<Header>, i: nat)
    requires i < |hs|
    ensures Render(hs) == Render(hs[..i]) + (Line(hs[i]) + Render(hs[i + 1..]))
  {
    assert hs == hs[..i] + hs[i..];
    RenderConcat(hs[..i], hs[i..]);
    assert hs[i..][1..] == hs[i + 1..];
  }

  lemma RenderAppend(hs: seq<Header>, h: Header)
    ensures Render(hs + [h]) == Render(hs) + Line(h)
  {
    RenderConcat(hs, [h]);
    assert Render([h]) == Line(h);
  }

  lemma RenderReplace(hs: seq<Header>, i: nat, h: Header)
    requires i < |hs|
    ensures Render(hs[i := h]) == Render(hs[..i]) + (Line(h) + Render(hs[i + 1..]))
  {
    RenderSplit(hs[i := h], i);
    assert hs[i := h][..i] == hs[..i] && hs[i := h][i + 1..] == hs[i + 1..];
  }

  lemma RenderDelete(hs: seq<Header>, i: nat)
    requires i < |hs|
    ensures Render(hs[..i] + hs[i + 1..]) == Render(hs[..i]) + Render(hs[i + 1..])
  {
    RenderConcat(hs[..i], hs[i + 1..]);
  }

  /** A field can be read off the block at its place: no earlier colon, no earlier CR. */
  lemma LineShape(h: Header)
    requires IsToken(h.name) && IsFieldValue(h.value)
    ensures |Line(h)| == |h.name| + |h.value| + 4
    ensures Line(h)[|h.name|] == ':' && (forall i | 0 <= i < |h.name| :: Line(h)[i] == h.name[i] != ':')
    ensures Line(h)[|h.name| + 2 + |h.value|] == '\r'
    ensures forall i | 0 <= i < |h.value| :: Line(h)[|h.name| + 2 + i] == h.value[i] != '\r'
    ensures Line(h)[|h.name| + 1] == ' '
  {
  }

  // ---- a list laid out in a buffer

  lemma SubSlice(m: Bytes, base: nat, r: Bytes, lo: nat, hi: nat)
    requires base + |r| <= |m| && m[base..base + |r|] == r && lo <= hi <= |r|
    ensures m[base + lo..base + hi] == r[lo..hi]
  {
    assert forall k | 0 <= k < |r| :: r[k] == m[base..base + |r|][k] == m[base + k];
    assert forall k | 0 <= k < hi - lo :: m[base + lo..base + hi][k] == m[base + (lo + k)] == r[lo + k] == r[lo..hi][k];
  }

  predicate Placed(m: Bytes, base: nat, hs: seq<Header>) {
    base + |Render(hs)| <= |m| && m[base..base + |Render(hs)|] == Render(hs)
  }

  /** Where field `i` lies. */
  function Offset(hs: seq<Header>, i: nat): nat
    requires i <= |hs|
  {
    |Render(hs[..i])|
  }

  lemma OffsetBounds(hs: seq<Header>, i: nat)
    requires i <= |hs|
    ensures i < |hs| ==> Offset(hs, i) + |Line(hs[i])| == Offset(hs, i + 1) <= |Render(hs)|
    ensures i < |hs| ==> Offset(hs, i) + |hs[i].name| + |hs[i].value| + 4 == Offset(hs, i + 1)
    ensures i == |hs| ==> Offset(hs, i) == |Render(hs)|
    ensures i == 0 ==> Offset(hs, i) == 0
  {
    if i < |hs| {
      hide Render, Line;
      LineIs(hs[i]);
      RenderSplit(hs, i);
      RenderAppend(hs[..i], hs[i]);
      assert hs[..i] + [hs[i]] == hs[..i + 1];
    } else {
      assert hs[..i] == hs;
    }
  }

  lemma PlacedAround(m: Bytes, base: nat, hs: seq<Header>, i: nat)
    requires Placed(m, base, hs) && i < |hs|
    ensures Offset(hs, i) + |Line(hs[i])| == Offset(hs, i + 1) <= |Render(hs)|
    ensures m[base..base + Offset(hs, i)] == Render(hs[..i])
    ensures m[base + Offset(hs, i)..base + Offset(hs, i + 1)] == Line(hs[i])
    ensures m[base + Offset(hs, i + 1)..base + |Render(hs)|] == Render(hs[i + 1..])
  {
    hide Render, Line;
    OffsetBounds(hs, i);
    RenderSplit(hs, i);
    var before, line, after := Render(hs[..i]), Line(hs[i]), Render(hs[i + 1..]);
    ThreeParts(m, base, Render(hs), before, line, after);
  }

  lemma ThreeParts(m: Bytes, base: nat, r: Bytes, before: Bytes, line: Bytes, after: Bytes)
    requires r == before + (line + after)
    requires base + |r| <= |m| && m[base..base + |r|] == r
    ensures m[base..base + |before|] == before
    ensures m[base + |before|..base + |before| + |line|] == line
    ensures m[base + |before| + |line|..base + |r|] == after
  {
    SubSlice(m, base, r, 0, |before|);
    SubSlice(m, base, r, |before|, |before| + |line|);
    SubSlice(m, base, r, |before| + |line|, |r|);
    assert r[..|before|] == before && r[|before|..|before| + |line|] == line && r[|before| + |line|..] == after;
  }

  lemma ByteOf(m: Bytes, base: nat, r: Bytes, k: nat)
    requires base + |r| <= |m| && m[base..base + |r|] == r && k < |r|
    ensures m[base + k] == r[k]
  {
    assert m[base..base + |r|][k] == m[base + k];
  }

  lemma HasNot(m: Bytes, base: nat, r: Bytes, c: char)
    requires base + |r| <= |m| && m[base..base + |r|] == r && forall k | 0 <= k < |r| :: r[k] != c
    ensures forall k | base <= k < base + |r| :: m[k] != c
  {
    forall k | base <= k < base + |r| ensures m[k] != c {
      ByteOf(m, base, r, k - base);
    }
  }

  lemma LineAt(m: Bytes, p: nat, h: Header)
    requires IsToken(h.name) && IsFieldValue(h.value) && p + |Line(h)| <= |m| && m[p..p + |Line(h)|] == Line(h)
    ensures var n := |h.name|; var v := |h.value|;
            && |Line(h)| == n + v + 4
            && m[p..p + n] == h.name && m[p + n] == ':' && (forall k | p <= k < p + n :: m[k] != ':')
            && m[p + n + 2..p + n + 2 + v] == h.value && m[p + n + 2 + v] == '\r'
            && (forall k | p + n + 2 <= k < p + n + 2 + v :: m[k] != '\r')
  {
    hide Line, IsToken, IsFieldValue;
    var line, n, v := Line(h), |h.name|, |h.value|;
    LineShape(h);
    LineIs(h);
    SubSlice(m, p, line, 0, n);
    SubSlice(m, p, line, n + 2, n + 2 + v);
    ByteOf(m, p, line, n);
    ByteOf(m, p, line, n + 2 + v);
    assert line[..n] == h.name && line[n + 2..n + 2 + v] == h.value;
    HasNot(m, p, h.name, ':');
    HasNot(m, p + n + 2, h.value, '\r');
  }

  /** A field can be read off its place. */
  lemma PlacedField(m: Bytes, base: nat, hs: seq<Header>, i: nat)
    requires Placed(m, base, hs) && WellFormed(hs) && i < |hs|
    ensures var p := base + Offset(hs, i); var n := |hs[i].name|; var v := |hs[i].value|;
            && p + n + v + 4 == base + Offset(hs, i + 1) <= base + |Render(hs)|
            && m[p..p + n] == hs[i].name && m[p + n] == ':' && (forall k | p <= k < p + n :: m[k] != ':')
            && m[p + n + 2..p + n + 2 + v] == hs[i].value && m[p + n + 2 + v] == '\r'
            && (forall k | p + n + 2 <= k < p + n + 2 + v :: m[k] != '\r')
  {
    hide Line, Render, IsToken, IsFieldValue, Offset;
    PlacedAround(m, base, hs, i);
    LineAt(m, base + Offset(hs, i), hs[i]);
  }

  lemma FindIs(hs: seq<Header>, name: Bytes, i: nat)
    requires i <= |hs| && (i < |hs| ==> IEquals(hs[i].name, name))
    requires forall j | 0 <= j < i :: !IEquals(hs[j].name, name)
    ensures Find(hs, name) == i
  {
    hide IEquals;
  }

  /** `m` with the bytes from `lo` to `hi` replaced by `mid`, as far as the end of the block at `end`. */
  predicate Spliced(m: Bytes, m': Bytes, lo: nat, hi: nat, end: nat, mid: Bytes) {
    && lo <= hi <= end <= |m| == |m'| && lo + |mid| + (end - hi) <= |m'|
    && m'[..lo] == m[..lo]
    && m'[lo..lo + |mid|] == mid
    && m'[lo + |mid|..lo + |mid| + (end - hi)] == m[hi..end]
  }

  lemma SplicedBlock(m: Bytes, m': Bytes, base: nat, lo: nat, hi: nat, end: nat, mid: Bytes)
    requires Spliced(m, m', lo, hi, end, mid) && base <= lo
    ensures lo + |mid| + (end - hi) <= |m'|
    ensures m'[base..lo + |mid| + (end - hi)] == m[base..lo] + (mid + m[hi..end])
    ensures m'[..base] == m[..base]
  {
    assert m'[base..lo] == m'[..lo][base..] == m[base..lo];
    var after := lo + |mid| + (end - hi);
    assert m'[base..after] == m'[base..lo] + (m'[lo..lo + |mid|] + m'[lo + |mid|..after]);
    assert m'[..base] == m'[..lo][..base];
  }

  /** Replacing the value in place replaces it in the list. */
  lemma PlacedSet(m: Bytes, m': Bytes, base: nat, hs: seq<Header>, i: nat, value: Bytes)
    requires Placed(m, base, hs) && i < |hs| && base + Offset(hs, i) + |hs[i].name| + 2 + |hs[i].value| <= base + |Render(hs)|
    requires var lo := base + Offset(hs, i) + |hs[i].name| + 2;
             Spliced(m, m', lo, lo + |hs[i].value|, base + |Render(hs)|, value)
    ensures Placed(m', base, hs[i := hs[i].(value := value)])
    ensures |Render(hs[i := hs[i].(value := value)])| == |Render(hs)| - |hs[i].value| + |value|
    ensures m'[..base] == m[..base]
  {
    hide Render, Line, Offset, Spliced;
    var lo := base + Offset(hs, i) + |hs[i].name| + 2;
    var before, after := Render(hs[..i]), Render(hs[i + 1..]);
    var name, h := hs[i].name, hs[i].(value := value);
    SplicedBlock(m, m', base, lo, lo + |hs[i].value|, base + |Render(hs)|, value);
    PlacedValue(m, base, hs, i);
    RenderReplace(hs, i, h);
    RenderSplit(hs, i);
    LineIs(h);
    LineIs(hs[i]);
    LineParts(before, name, value, after);
  }

  lemma LineParts(before: Bytes, name: Bytes, value: Bytes, after: Bytes)
    ensures (before + (name + ": ")) + (value + ("\r\n" + after)) == before + (((name + ": ") + (value + "\r\n")) + after)
  {
  }

  lemma LineIs(h: Header)
    ensures Line(h) == (h.name + ": ") + (h.value + "\r\n")
  {
  }

  /** What lies around the value of field `i`. */
  lemma PlacedValue(m: Bytes, base: nat, hs: seq<Header>, i: nat)
    requires Placed(m, base, hs) && i < |hs|
    ensures var lo := base + Offset(hs, i) + |hs[i].name| + 2; var hi := lo + |hs[i].value|;
            && hi <= base + |Render(hs)|
            && m[base..lo] == Render(hs[..i]) + (hs[i].name + ": ")
            && m[hi..base + |Render(hs)|] == "\r\n" + Render(hs[i + 1..])
  {
    hide Render, Line, Offset;
    PlacedAround(m, base, hs, i);
    var p, next, end := base + Offset(hs, i), base + Offset(hs, i + 1), base + |Render(hs)|;
    var name, was := hs[i].name + ": ", hs[i].value;
    LineIs(hs[i]);
    var lo, hi := p + |name|, p + |name| + |was|;
    ThreeParts(m, p, m[p..next], name, was, "\r\n");
    assert m[base..lo] == m[base..p] + m[p..lo];
    assert m[hi..end] == m[hi..next] + m[next..end];
  }

  /** Closing the gap removes the field from the list. */
  lemma PlacedRemove(m: Bytes, m': Bytes, base: nat, hs: seq<Header>, i: nat)
    requires Placed(m, base, hs) && i < |hs| && base + Offset(hs, i + 1) <= base + |Render(hs)|
    requires Spliced(m, m', base + Offset(hs, i), base + Offset(hs, i + 1), base + |Render(hs)|, [])
    ensures Placed(m', base, hs[..i] + hs[i + 1..])
    ensures |Render(hs[..i] + hs[i + 1..])| == |Render(hs)| - (|hs[i].name| + |hs[i].value| + 4)
    ensures m'[..base] == m[..base]
  {
    hide Render, Line, Spliced;
    OffsetBounds(hs, i);
    SplicedBlock(m, m', base, base + Offset(hs, i), base + Offset(hs, i + 1), base + |Render(hs)|, []);
    PlacedAround(m, base, hs, i);
    RenderDelete(hs, i);
    var after := Render(hs[i + 1..]);
    assert [] + after == after;
  }

  /** Writing a line behind the block appends the field to the list. */
  lemma PlacedAdd(m: Bytes, m': Bytes, base: nat, hs: seq<Header>, h: Header)
    requires Placed(m, base, hs) && base + |Render(hs)| + |Line(h)| <= |m'|
    requires m'[base..base + |Render(hs)| + |Line(h)|] == m[base..base + |Render(hs)|] + Line(h)
    ensures Placed(m', base, hs + [h])
  {
    RenderAppend(hs, h);
  }

  // ---- which names are present

  lemma HasBy(hs: seq<Header>, name: Bytes, i: nat)
    requires i < |hs| && IEquals(hs[i].name, name)
    ensures Has(hs, name)
  {
  }

  lemma HasAfterAdd(hs: seq<Header>, h: Header, name: Bytes)
    requires Has(hs, name) || IEquals(h.name, name)
    ensures Has(hs + [h], name)
  {
    hide IEquals;
    var i := Find(hs, name);
    HasBy(hs + [h], name, i);
  }

  lemma HasAfterSet(hs: seq<Header>, i: nat, value: Bytes, name: Bytes)
    requires i < |hs| && (Has(hs, name) || IEquals(hs[i].name, name))
    ensures Has(hs[i := hs[i].(value := value)], name)
  {
    hide IEquals;
    HasBy(hs[i := hs[i].(value := value)], name, if Has(hs, name) then Find(hs, name) else i);
  }

  lemma HasAfterRemove(hs: seq<Header>, i: nat, name: Bytes)
    requires i < |hs| && Has(hs, name) && !IEquals(hs[i].name, name)
    ensures Has(hs[..i] + hs[i + 1..], name)
  {
    hide IEquals;
    var j := Find(hs, name);
    HasBy(hs[..i] + hs[i + 1..], name, if j < i then j else j - 1);
  }

  lemma RemoveKeeps(hs: seq<Header>, name: Bytes, other: Bytes)
    requires Has(hs, other) && !IEquals(name, other)
    ensures Has(Remove(hs, name), other)
  {
    var i := Find(hs, name);
    if i < |hs| {
      IEqualsAgrees(hs[i].name, name, other);
      HasAfterRemove(hs, i, other);
    }
  }

  lemma SetKeeps(hs: seq<Header>, name: Bytes, value: Bytes, other: Bytes)
    requires Has(hs, other) || IEquals(name, other)
    ensures Has(Set(hs, name, value), other)
  {
    var i := Find(hs, name);
    if i < |hs| {
      IEqualsAgrees(hs[i].name, name, other);
      HasAfterSet(hs, i, value, other);
    } else {
      HasAfterAdd(hs, Header(name, value), other);
    }
  }

  // ---- the values of a name after an edit

  lemma {:induction false} ValuesConcat(a: seq<Header>, b: seq<Header>, name: Bytes)
    ensures Values(a + b, name) == Values(a, name) + Values(b, name)
  {
    hide IEquals;
    if a == [] {
      assert a + b == b;
    } else {
      assert (a + b)[1..] == a[1..] + b;
      ValuesConcat(a[1..], b, name);
    }
  }

  lemma {:induction false} NoValuesBefore(hs: seq<Header>, name: Bytes)
    requires forall j | 0 <= j < |hs| :: !IEquals(hs[j].name, name)
    ensures Values(hs, name) == []
  {
    hide IEquals;
    if hs != [] {
      NoValuesBefore(hs[1..], name);
    }
  }

  function Here(h: Header, name: Bytes): seq<Bytes> { if IEquals(h.name, name) then [h.value] else [] }

  lemma ValuesAround(hs: seq<Header>, i: nat, name: Bytes)
    requires i < |hs|
    ensures Values(hs, name) == Values(hs[..i], name) + (Here(hs[i], name) + Values(hs[i + 1..], name))
  {
    hide IEquals;
    assert hs == hs[..i] + hs[i..] && hs[i..][1..] == hs[i + 1..];
    ValuesConcat(hs[..i], hs[i..], name);
  }

  lemma NamesAgree(a: Bytes, b: Bytes, c: Bytes)
    ensures IEquals(a, b) ==> (IEquals(a, c) <==> IEquals(b, c))
    ensures IEquals(b, c) ==> (IEquals(a, b) <==> IEquals(a, c))
  {
    if IEquals(a, b) {
      IEqualsAgrees(a, b, c);
    }
    if IEquals(b, c) {
      IEqualsAgrees(b, c, a);
      assert IEquals(a, b) == IEquals(b, a) && IEquals(a, c) == IEquals(c, a);
    }
  }

  lemma NoneBeforeFirst(hs: seq<Header>, name: Bytes, other: Bytes)
    requires IEquals(name, other)
    ensures Values(hs[..Find(hs, name)], other) == []
  {
    hide IEquals, Values;
    var i := Find(hs, name);
    forall j | 0 <= j < i ensures !IEquals(hs[..i][j].name, other) {
      NamesAgree(hs[j].name, name, other);
    }
    NoValuesBefore(hs[..i], other);
  }

  lemma ValuesFromFirst(hs: seq<Header>, name: Bytes, other: Bytes)
    requires IEquals(name, other)
    ensures var i := Find(hs, name);
            && Values(hs[..i], other) == []
            && Values(hs, other) == if i < |hs| then [hs[i].value] + Values(hs[i + 1..], other) else []
  {
    hide IEquals, Values;
    var i := Find(hs, name);
    NoneBeforeFirst(hs, name, other);
    if i < |hs| {
      NamesAgree(hs[i].name, name, other);
      ValuesAround(hs, i, other);
    } else {
      assert hs[..i] == hs;
    }
  }

  /** Setting a field replaces its first value, or adds the value, and leaves every other name alone. */
  lemma ValuesAfterSet(hs: seq<Header>, name: Bytes, value: Bytes, other: Bytes)
    ensures Values(Set(hs, name, value), other) ==
            if !IEquals(name, other) then Values(hs, other)
            else if Values(hs, other) == [] then [value] else [value] + Values(hs, other)[1..]
    ensures IEquals(name, other) ==> (Has(hs, name) <==> Values(hs, other) != [])
  {
    hide IEquals, Values, Find;
    var i := Find(hs, name);
    if IEquals(name, other) {
      ValuesFromFirst(hs, name, other);
    }
    if i < |hs| {
      NamesAgree(hs[i].name, name, other);
      var after := hs[i := hs[i].(value := value)];
      ValuesAround(hs, i, other);
      ValuesAround(after, i, other);
      assert after[..i] == hs[..i] && after[i + 1..] == hs[i + 1..];
    } else {
      ValuesConcat(hs, [Header(name, value)], other);
      var one := [Header(name, value)];
      ValuesAround(one, 0, other);
      assert one[..0] == [] && one[1..] == [];
      NoValuesBefore([], other);
      NamesAgree(name, name, other);
    }
  }

  /** Removing a field drops its first value and leaves every other name alone. */
  lemma ValuesAfterRemove(hs: seq<Header>, name: Bytes, other: Bytes)
    ensures Values(Remove(hs, name), other) ==
            if !IEquals(name, other) || Values(hs, other) == [] then Values(hs, other) else Values(hs, other)[1..]
  {
    hide IEquals, Values, Find;
    var i := Find(hs, name);
    if IEquals(name, other) {
      ValuesFromFirst(hs, name, other);
    }
    if i < |hs| {
      NamesAgree(hs[i].name, name, other);
      ValuesAround(hs, i, other);
      ValuesConcat(hs[..i], hs[i + 1..], other);
    }
  }
}
