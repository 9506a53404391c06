/**
 The HTTP/1.1 response: one fixed buffer that holds the status line, the header block and a small body,
 and is edited in place.  `Valid` says that it is the rendering of an ordered list of fields.
 */
module Response {
  import opened Octets
  import opened HttpText
  import opened HeaderList
  import opened ReplySlots

  const MEMORY_SIZE: nat := 4096      // kMaxResponseSizeInMemory
  const BODY_BEGIN: nat := 2048       // kMaxResponseSizeInMemory - kMaxResponseBodySizeInMemory

  const DATE: Bytes := "Date"
  const CONTENT_LENGTH: Bytes := "Content-Length"
  const TRANSFER_ENCODING: Bytes := "Transfer-Encoding"

  /** Done, or the exception that was thrown instead. */
  datatype Outcome = Done | InvalidName | InvalidValue | NoSpace | StoreFailed

  /** An adopted body writer: its framing, and what it puts on the wire; without chunks, that is what was
      written to it. */
  datatype BodyWriter = BodyWriter(chunked: bool, wire: Bytes)

  /** A field takes up its line, and the two bytes that end the block stay free behind it. */
  function RoomFor(name: Bytes, value: Bytes): nat { |name| + |value| + 4 + 2 }

  /** The buffer holds that status line and, behind it, that list of fields. */
  ghost predicate Laid(m: Bytes, sln: nat, hdr: nat, status: Bytes, hs: seq<Header>) {
    && |m| == MEMORY_SIZE
    && sln + hdr <= BODY_BEGIN
    && (hdr > 0 ==> sln + hdr + 2 <= BODY_BEGIN)
    && m[..sln] == status
    && hdr == |Render(hs)| && Placed(m, sln, hs) && WellFormed(hs)
  }

  function BodyOf(m: Bytes, len: nat): Bytes
    requires |m| == MEMORY_SIZE && len <= MEMORY_SIZE - BODY_BEGIN
  {
    m[BODY_BEGIN..BODY_BEGIN + len]
  }

  lemma BodyKept(m: Bytes, m': Bytes, len: nat)
    requires |m| == |m'| == MEMORY_SIZE && m[BODY_BEGIN..] == m'[BODY_BEGIN..] && len <= MEMORY_SIZE - BODY_BEGIN
    ensures BodyOf(m, len) == BodyOf(m', len)
  {
    assert BodyOf(m, len) == m[BODY_BEGIN..][..len];
    assert BodyOf(m', len) == m'[BODY_BEGIN..][..len];
  }

  lemma LaidAdd(m: Bytes, m': Bytes, sln: nat, hdr: nat, status: Bytes, hs: seq<Header>, h: Header)
    requires Laid(m, sln, hdr, status, hs) && IsToken(h.name) && IsFieldValue(h.value)
    requires sln + hdr + RoomFor(h.name, h.value) <= BODY_BEGIN
    requires m' == m[..sln + hdr] + Line(h) + m[sln + hdr + |Line(h)|..]
    ensures Laid(m', sln, hdr + |Line(h)|, status, hs + [h])
    ensures m'[BODY_BEGIN..] == m[BODY_BEGIN..]
  {
    hide Render, Line, IsToken, IsFieldValue;
    LineIs(h);
    RenderAppend(hs, h);
    var end := sln + hdr + |Line(h)|;
    assert m'[sln..end] == m[sln..sln + hdr] + Line(h);
    PlacedAdd(m, m', sln, hs, h);
    assert m'[..sln] == m[..sln];
  }

  lemma SpliceByMove(m: Bytes, m': Bytes, lo: nat, hi: nat, len: nat)
    requires lo <= hi && hi + len <= |m|
    requires m' == m[..lo] + m[hi..hi + len] + m[lo + len..]
    ensures Spliced(m, m', lo, hi, hi + len, [])
    ensures hi + len <= BODY_BEGIN <= |m| ==> m'[BODY_BEGIN..] == m[BODY_BEGIN..]
  {
    Parts(m, lo, m[hi..hi + len], m');
    if hi + len <= BODY_BEGIN <= |m| {
      Behind(m, m', lo + len, BODY_BEGIN, |m|);
      assert m'[BODY_BEGIN..] == m'[BODY_BEGIN..|m|] && m[BODY_BEGIN..] == m[BODY_BEGIN..|m|];
    }
  }

  lemma LaidRemove(m: Bytes, m': Bytes, sln: nat, hdr: nat, status: Bytes, hs: seq<Header>, i: nat)
    requires Laid(m, sln, hdr, status, hs) && i < |hs|
    requires Offset(hs, i) <= Offset(hs, i + 1) <= hdr
    requires var lo, hi := sln + Offset(hs, i), sln + Offset(hs, i + 1);
             m' == m[..lo] + m[hi..sln + hdr] + m[lo + (sln + hdr - hi)..]
    ensures |hs[i].name| + |hs[i].value| + 4 == Offset(hs, i + 1) - Offset(hs, i)
    ensures Laid(m', sln, hdr - (Offset(hs, i + 1) - Offset(hs, i)), status, hs[..i] + hs[i + 1..])
    ensures m'[BODY_BEGIN..] == m[BODY_BEGIN..]
  {
    hide Render, Line, IsToken, IsFieldValue, Placed;
    OffsetBounds(hs, i);
    var lo, hi := sln + Offset(hs, i), sln + Offset(hs, i + 1);
    SpliceByMove(m, m', lo, hi, sln + hdr - hi);
    PlacedRemove(m, m', sln, hs, i);
  }

  /** memmove of `len` bytes. */
  function Moved(m: Bytes, to: nat, from: nat, len: nat): (n: Bytes)
    requires from + len <= |m| && to + len <= |m|
    ensures |n| == |m|
  {
    m[..to] + m[from..from + len] + m[to + len..]
  }

  /** memcpy of the bytes. */
  function Copied(m: Bytes, at: nat, bytes: Bytes): (n: Bytes)
    requires at + |bytes| <= |m|
    ensures |n| == |m|
  {
    m[..at] + bytes + m[at + |bytes|..]
  }

  lemma LaidSet(m: Bytes, moved: Bytes, m': Bytes, lo: nat, hi: nat, len: nat, sln: nat, hdr: nat, status: Bytes, hs: seq<Header>, i: nat, v: Bytes)
    requires Laid(m, sln, hdr, status, hs) && i < |hs| && IsFieldValue(v)
    requires Offset(hs, i) + |hs[i].name| + |hs[i].value| + 4 == Offset(hs, i + 1) <= hdr
    requires |v| > |hs[i].value| ==> sln + hdr + |v| - |hs[i].value| + 2 <= BODY_BEGIN
    requires lo == sln + Offset(hs, i) + |hs[i].name| + 2 && hi == lo + |hs[i].value| && hi + len == sln + hdr
    requires hi + len <= |m| && lo + |v| + len <= |m| && moved == Moved(m, lo + |v|, hi, len) && m' == Copied(moved, lo, v)
    ensures Laid(m', sln, hdr - |hs[i].value| + |v|, status, hs[i := hs[i].(value := v)])
    ensures m'[BODY_BEGIN..] == m[BODY_BEGIN..]
  {
    hide Render, Line, IsToken, IsFieldValue, Placed, Offset;
    SpliceByMoveAndCopy(m, moved, m', lo, hi, len, v);
    PlacedSet(m, m', sln, hs, i, v);
  }

  lemma SpliceByMoveAndCopy(m: Bytes, moved: Bytes, m': Bytes, lo: nat, hi: nat, len: nat, v: Bytes)
    requires lo <= hi && hi + len <= |m| && lo + |v| + len <= |m|
    requires moved == m[..lo + |v|] + m[hi..hi + len] + m[lo + |v| + len..]
    requires m' == moved[..lo] + v + moved[lo + |v|..]
    ensures Spliced(m, m', lo, hi, hi + len, v)
    ensures hi + len <= BODY_BEGIN <= |m| && lo + |v| + len <= BODY_BEGIN ==> m'[BODY_BEGIN..] == m[BODY_BEGIN..]
  {
    var a, b := lo + |v|, lo + |v| + len;
    Parts(m, a, m[hi..hi + len], moved);
    Parts(moved, lo, v, m');
    assert m'[..lo] == moved[..a][..lo] == m[..lo];
    Behind(moved, m', a, a, b);
    if hi + len <= BODY_BEGIN <= |m| && b <= BODY_BEGIN {
      Behind(moved, m', a, BODY_BEGIN, |m|);
      Behind(m, moved, b, BODY_BEGIN, |m|);
      assert m'[BODY_BEGIN..] == m'[BODY_BEGIN..|m|] && m[BODY_BEGIN..] == m[BODY_BEGIN..|m|];
    }
  }

  /** What was put into the middle, and what it left alone. */
  lemma Parts(m: Bytes, lo: nat, mid: Bytes, m': Bytes)
    requires lo + |mid| <= |m| && m' == m[..lo] + mid + m[lo + |mid|..]
    ensures m'[..lo] == m[..lo] && m'[lo..lo + |mid|] == mid && m'[lo + |mid|..] == m[lo + |mid|..]
  {
  }

  lemma Behind(m: Bytes, m': Bytes, from: nat, i: nat, j: nat)
    requires from <= i <= j <= |m| == |m'| && m'[from..] == m[from..]
    ensures m'[i..j] == m[i..j]
  {
    forall k | i <= k < j ensures m'[k] == m[k] {
      assert m'[from..][k - from] == m[from..][k - from];
    }
    assert forall k | 0 <= k < j - i :: m'[i..j][k] == m'[i + k] == m[i + k] == m[i..j][k];
  }

  /** The free bytes that setting a field asks for. */
  function Growth(hs: seq<Header>, k: Bytes, v: Bytes): nat {
    var i := Find(hs, k);
    if i == |hs| then RoomFor(k, v)
    else if |v| > |hs[i].value| then |v| - |hs[i].value| + 2
    else 0
  }

  lemma LaidKept(m: Bytes, m': Bytes, sln: nat, hdr: nat, status: Bytes, hs: seq<Header>)
    requires Laid(m, sln, hdr, status, hs) && |m'| == MEMORY_SIZE && m'[..sln + hdr] == m[..sln + hdr]
    ensures Laid(m', sln, hdr, status, hs)
  {
    hide Render;
    assert m'[..sln] == m'[..sln + hdr][..sln] && m[..sln] == m[..sln + hdr][..sln];
    assert m'[sln..sln + hdr] == m'[..sln + hdr][sln..] && m[sln..sln + hdr] == m[..sln + hdr][sln..];
  }

  lemma NothingPlaced(m: Bytes, base: nat)
    requires base <= |m|
    ensures Placed(m, base, []) && Render([]) == []
  {
  }

  lemma DecimalIsFieldValue(n: nat)
    ensures IsFieldValue(Decimal(n)) && IsToken(CONTENT_LENGTH) && IsToken(TRANSFER_ENCODING)
  {
  }

  lemma ChunkedIsFieldValue()
    ensures IsFieldValue("chunked") && IsToken(TRANSFER_ENCODING)
  {
  }

  lemma NamesDiffer()
    ensures IEquals(DATE, DATE) && !IEquals(TRANSFER_ENCODING, DATE) && !IEquals(CONTENT_LENGTH, DATE)
    ensures !IEquals(DATE, TRANSFER_ENCODING) && !IEquals(DATE, CONTENT_LENGTH)
    ensures IEquals(CONTENT_LENGTH, CONTENT_LENGTH) && IEquals(TRANSFER_ENCODING, TRANSFER_ENCODING)
    ensures !IEquals(TRANSFER_ENCODING, CONTENT_LENGTH) && !IEquals(CONTENT_LENGTH, TRANSFER_ENCODING)
  {
  }

  // ---- what a status code allows (sections 8.6, 15.3.5 and 15.4.5 of RFC 9110)

  predicate OmitsLength(code: int) { code < 200 || code == 204 }

  predicate OmitsBody(code: int) { OmitsLength(code) || code == 304 }

  predicate MayCarryLength(code: int) { !OmitsBody(code) }

  /** 1xx and 204 go without both framing fields, 304 without a transfer coding, and all others with what there is. */
  lemma WhatStatusOmits(hs: seq<Header>, code: int)
    requires code >= 100
    ensures SentFields(hs, code) == if 100 <= code < 200 || code == 204 then Remove(Remove(hs, TRANSFER_ENCODING), CONTENT_LENGTH)
                                    else if code == 304 then Remove(hs, TRANSFER_ENCODING)
                                    else hs
  {
  }

  /** The fields that go on the wire with that status. */
  function SentFields(hs: seq<Header>, code: int): seq<Header> {
    if OmitsLength(code) then Remove(Remove(hs, TRANSFER_ENCODING), CONTENT_LENGTH)
    else if OmitsBody(code) then Remove(hs, TRANSFER_ENCODING)
    else hs
  }

  class Response {
    const memory: array<Octet>
    var slnLen: nat
    var hdrLen: nat
    var bdyLen: nat
    var statusCode: int
    var hasDate: bool
    var writer: Option<BodyWriter>

    ghost var status: Bytes
    ghost var headers: seq<Header>

    ghost predicate Valid()
      reads this, memory
    {
      && memory.Length == MEMORY_SIZE
      && Laid(memory[..], slnLen, hdrLen, status, headers)
      && bdyLen <= MEMORY_SIZE - BODY_BEGIN
      && (hasDate ==> Has(headers, DATE))
    }

    /** The bytes of the body region that are in use. */
    ghost function Body(): Bytes
      requires Valid()
      reads this, memory
    {
      BodyOf(memory[..], bdyLen)
    }

    function SpaceLeft(): int
      reads this
    {
      BODY_BEGIN - slnLen - hdrLen
    }

    /** What would be left with these fields. */
    function SpaceFor(hs: seq<Header>): int
      reads this
    {
      BODY_BEGIN - slnLen - |Render(hs)|
    }

    constructor ()
      ensures Valid() && fresh(memory) && headers == [] && status == [] && bdyLen == 0 && statusCode == 200
      ensures writer.None? && !hasDate
    {
      memory := new Octet[MEMORY_SIZE](_ => '\0');
      slnLen, hdrLen, bdyLen, statusCode, hasDate, writer := 0, 0, 0, 200, false, None;
      status, headers := [], [];
    }

    // ---- memcpy and memmove

    method Copy(at: nat, bytes: Bytes)
      requires at + |bytes| <= memory.Length
      modifies memory
      ensures memory[..] == Copied(old(memory[..]), at, bytes)
    {
      forall i | 0 <= i < |bytes| {
        memory[at + i] := bytes[i];
      }
    }

    method Move(to: nat, from: nat, len: nat)
      requires from + len <= memory.Length && to + len <= memory.Length
      modifies memory
      ensures memory[..] == Moved(old(memory[..]), to, from, len)
    {
      forall i | 0 <= i < len {
        memory[to + i] := memory[from + i];
      }
    }

    // ---- scanning

    /** Reads one line: the colon that ends the name and the CR that ends the value. */
    method ScanLine(pos: nat, ghost i: nat) returns (colon: nat, cr: nat)
      requires Valid() && i < |headers| && pos == slnLen + Offset(headers, i)
      ensures pos <= colon && colon + 2 <= cr && cr + 2 == slnLen + Offset(headers, i + 1) <= slnLen + hdrLen
      ensures memory[pos..colon] == headers[i].name
      ensures memory[colon + 2..cr] == headers[i].value
    {
      hide *;
      LineStands(i);
      ghost var n, v := |headers[i].name|, |headers[i].value|;
      var end := slnLen + hdrLen;
      colon := pos;
      while colon < end && memory[colon] != ':'
        invariant pos <= colon <= pos + n
      {
        colon := colon + 1;
      }
      cr := colon + 2;
      while cr < end && memory[cr] != '\r'
        invariant colon + 2 <= cr <= colon + 2 + v
      {
        cr := cr + 1;
      }
    }

    /** Where the i-th field is in the block. */
    lemma LineStands(i: nat)
      requires Valid() && i < |headers|
      ensures var p := slnLen + Offset(headers, i); var n, v := |headers[i].name|, |headers[i].value|;
              && p + n + v + 4 == slnLen + Offset(headers, i + 1) <= slnLen + hdrLen <= memory.Length
              && memory[p..p + n] == headers[i].name && memory[p + n] == ':'
              && memory[p + n + 2..p + n + 2 + v] == headers[i].value && memory[p + n + 2 + v] == '\r'
              && (forall k | p <= k < p + n :: memory[k] != ':')
              && (forall k | p + n + 2 <= k < p + n + 2 + v :: memory[k] != '\r')
    {
      hide Render, Line, Offset;
      PlacedField(memory[..], slnLen, headers, i);
      var p, n, v := slnLen + Offset(headers, i), |headers[i].name|, |headers[i].value|;
      assert memory[..][p..p + n] == memory[p..p + n];
      assert memory[..][p + n + 2..p + n + 2 + v] == memory[p + n + 2..p + n + 2 + v];
      assert forall k | p <= k < p + n :: memory[..][k] == memory[k];
      assert forall k | p + n + 2 <= k < p + n + 2 + v :: memory[..][k] == memory[k];
    }

    /** The scan over the serialized block finds the first field with that name, in any case. */
    method FindHeader(k: Bytes) returns (found: bool, lineOff: nat, valOff: nat, valLen: nat, lineLen: nat)
      requires Valid()
      ensures found <==> Has(headers, k)
      ensures found ==> var i := Find(headers, k);
                        && lineOff == slnLen + Offset(headers, i)
                        && lineLen == |headers[i].name| + |headers[i].value| + 4
                        && valOff == lineOff + |headers[i].name| + 2 && valLen == |headers[i].value|
    {
      hide Render, Line, Offset, IEquals, Find;
      found, lineOff, valOff, valLen, lineLen := false, 0, 0, 0, 0;
      var pos, end := slnLen, slnLen + hdrLen;
      ghost var i := 0;
      OffsetBounds(headers, 0);
      while pos < end
        invariant i <= |headers| && pos == slnLen + Offset(headers, i)
        invariant forall j | 0 <= j < i :: !IEquals(headers[j].name, k)
        decreases |headers| - i
      {
        OffsetBounds(headers, i);
        var colon, cr := ScanLine(pos, i);
        var same := EqualsInAnyCase(memory[pos..colon], k);
        if same {
          FindIs(headers, k, i);
          return true, pos, colon + 2, cr - (colon + 2), cr + 2 - pos;
        }
        pos := cr + 2;
        i := i + 1;
      }
      OffsetBounds(headers, i);
      FindIs(headers, k, i);
    }

    method HasHeader(k: Bytes) returns (has: bool)
      requires Valid()
      ensures has <==> Has(headers, k)
    {
      var lineOff, valOff, valLen, lineLen;
      has, lineOff, valOff, valLen, lineLen := FindHeader(k);
    }

    method GetHeader(k: Bytes) returns (value: Option<Bytes>)
      requires Valid()
      ensures value == if Has(headers, k) then Some(headers[Find(headers, k)].value) else None
    {
      hide Render, Line, Offset, IEquals, Find;
      var found, lineOff, valOff, valLen, lineLen := FindHeader(k);
      if !found {
        return None;
      }
      ghost var i := Find(headers, k);
      PlacedField(memory[..], slnLen, headers, i);
      assert memory[..][valOff..valOff + valLen] == memory[valOff..valOff + valLen];
      return Some(memory[valOff..valOff + valLen]);
    }

    method GetHeaderAt(index: nat) returns (header: Option<Header>)
      requires Valid()
      ensures header == if index < |headers| then Some(headers[index]) else None
    {
      hide Render, Line, Offset;
      var pos, end, current := slnLen, slnLen + hdrLen, 0;
      OffsetBounds(headers, 0);
      while pos < end
        invariant current <= |headers| && current <= index && pos == slnLen + Offset(headers, current)
        decreases |headers| - current
      {
        OffsetBounds(headers, current);
        var colon, cr := ScanLine(pos, current);
        if current == index {
          return Some(Header(memory[pos..colon], memory[colon + 2..cr]));
        }
        current := current + 1;
        pos := cr + 2;
      }
      OffsetBounds(headers, current);
      return None;
    }

    method GetHeadersLength() returns (count: nat)
      requires Valid()
      ensures count == |headers|
    {
      hide Render, Line, Offset;
      var pos, end := slnLen, slnLen + hdrLen;
      count := 0;
      OffsetBounds(headers, 0);
      while pos < end
        invariant count <= |headers| && pos == slnLen + Offset(headers, count)
        decreases |headers| - count
      {
        OffsetBounds(headers, count);
        var colon, cr := ScanLine(pos, count);
        count := count + 1;
        pos := cr + 2;
      }
      OffsetBounds(headers, count);
    }

    // ---- editing

    /** What every edit of the header block leaves alone. */
    twostate predicate BlockEdited()
      requires old(Valid()) && Valid()
      reads this, memory
    {
      && unchanged(`slnLen, `bdyLen, `statusCode, `writer, `status)
      && Body() == old(Body())
    }

    /** Appends bytes behind the block and behind what this edit has already appended to it. */
    method Append(bytes: Bytes, ghost m: Bytes, ghost end: nat, ghost before: Bytes)
      requires memory.Length == MEMORY_SIZE && slnLen + hdrLen + |bytes| <= MEMORY_SIZE
      requires slnLen + hdrLen == end + |before| <= |m| == MEMORY_SIZE
      requires memory[..] == m[..end] + before + m[end + |before|..]
      modifies `hdrLen, memory
      ensures hdrLen == old(hdrLen) + |bytes|
      ensures memory[..] == m[..end] + (before + bytes) + m[end + |before + bytes|..]
    {
      Copy(slnLen + hdrLen, bytes);
      hdrLen := hdrLen + |bytes|;
    }

    method AppendLine(k: Bytes, v: Bytes)
      requires memory.Length == MEMORY_SIZE && slnLen + hdrLen + |k| + |v| + 4 <= MEMORY_SIZE
      modifies `hdrLen, memory
      ensures hdrLen == old(hdrLen) + |Line(Header(k, v))| == old(hdrLen) + |k| + |v| + 4
      ensures var end := slnLen + old(hdrLen); var line := Line(Header(k, v));
              memory[..] == old(memory[..])[..end] + line + old(memory[..])[end + |line|..]
    {
      hide Line;
      ghost var m, end := memory[..], slnLen + hdrLen;
      assert m == m[..end] + [] + m[end..];
      AppendText(k, ":", " ", m, end, []);
      AppendText(v, "\r", "\n", m, end, [] + (k + ":" + " "));
      LinePieces(k, v);
    }

    /** A name or a value with the two characters behind it. */
    method AppendText(text: Bytes, one: Bytes, two: Bytes, ghost m: Bytes, ghost end: nat, ghost before: Bytes)
      requires memory.Length == MEMORY_SIZE && slnLen + hdrLen + |text| + |one| + |two| <= MEMORY_SIZE
      requires slnLen + hdrLen == end + |before| <= |m| == MEMORY_SIZE
      requires memory[..] == m[..end] + before + m[end + |before|..]
      modifies `hdrLen, memory
      ensures hdrLen == old(hdrLen) + |text| + |one| + |two|
      ensures var after := before + (text + one + two);
              memory[..] == m[..end] + after + m[end + |after|..]
    {
      Append(text, m, end, before);
      Append(one, m, end, before + text);
      Append(two, m, end, before + text + one);
      assert before + text + one + two == before + (text + one + two);
    }

    lemma LinePieces(k: Bytes, v: Bytes)
      ensures [] + (k + ":" + " ") + (v + "\r" + "\n") == Line(Header(k, v))
      ensures |Line(Header(k, v))| == |k| + |v| + 4
    {
    }

    method AddHeader(k: Bytes, v: Bytes) returns (outcome: Outcome)
      requires Valid()
      modifies `hdrLen, `hasDate, `headers, memory
      ensures Valid() && BlockEdited()
      ensures outcome == if !IsToken(k) then InvalidName
                         else if !IsFieldValue(v) then InvalidValue
                         else if old(SpaceLeft()) < RoomFor(k, v) then NoSpace
                         else Done
      ensures headers == if outcome.Done? then old(headers) + [Header(k, v)] else old(headers)
      ensures hasDate == (old(hasDate) || (outcome.Done? && IEquals(k, DATE)))
      ensures SpaceLeft() == old(SpaceLeft()) - (if outcome.Done? then |k| + |v| + 4 else 0)
    {
      hide Find, IEquals, IsToken, IsFieldValue, Laid;
      if !IsToken(k) {
        return InvalidName;
      }
      if !IsFieldValue(v) {
        return InvalidValue;
      }
      if RoomFor(k, v) > SpaceLeft() {
        return NoSpace;
      }
      PutHeader(k, v);
      return Done;
    }

    /** A field for which there is room goes behind the others. */
    method PutHeader(k: Bytes, v: Bytes)
      requires Valid() && IsToken(k) && IsFieldValue(v) && RoomFor(k, v) <= SpaceLeft()
      modifies `hdrLen, `hasDate, `headers, memory
      ensures Valid() && BlockEdited()
      ensures headers == old(headers) + [Header(k, v)]
      ensures hasDate == (old(hasDate) || IEquals(k, DATE))
      ensures SpaceLeft() == old(SpaceLeft()) - (|k| + |v| + 4)
    {
      hide Render, Line, Find, IEquals, IsToken, IsFieldValue, Placed, WellFormed, Laid;
      ghost var m, h := memory[..], Header(k, v);
      AppendLine(k, v);
      LaidAdd(m, memory[..], slnLen, hdrLen - |Line(h)|, status, headers, h);
      var isDate := EqualsInAnyCase(k, DATE);
      if hasDate || isDate {
        HasAfterAdd(headers, h, DATE);
      }
      headers := headers + [h];
      if isDate {
        hasDate := true;
      }
      BodyKept(m, memory[..], bdyLen);
    }

    /** memmove of everything behind a line onto the line. */
    method RemoveLine(lineOff: nat, lineLen: nat, ghost i: nat)
      requires Valid() && i < |headers|
      requires lineOff == slnLen + Offset(headers, i) && lineLen == |headers[i].name| + |headers[i].value| + 4
      modifies `hdrLen, memory
      ensures hdrLen == old(hdrLen) - lineLen
      ensures memory[..][BODY_BEGIN..] == old(memory[..])[BODY_BEGIN..]
      ensures Laid(memory[..], slnLen, hdrLen, status, headers[..i] + headers[i + 1..])
    {
      hide Render, Line, Offset, Placed, WellFormed, Laid, Spliced;
      LaidOffsets(i);
      ghost var m := memory[..];
      var tailOff := lineOff + lineLen;
      var tailLen := slnLen + hdrLen - tailOff;
      Move(lineOff, tailOff, tailLen);
      LaidRemove(m, memory[..], slnLen, hdrLen, status, headers, i);
      hdrLen := hdrLen - lineLen;
    }

    /** Removing an absent field does nothing. */
    method RemoveHeader(k: Bytes)
      requires Valid()
      modifies `hdrLen, `hasDate, `headers, memory
      ensures Valid() && BlockEdited()
      ensures headers == Remove(old(headers), k)
      ensures hasDate == (old(hasDate) && !(Has(old(headers), k) && IEquals(k, DATE)))
      ensures SpaceLeft() == old(SpaceLeft()) + (if !Has(old(headers), k) then 0 else
                var h := old(headers)[Find(old(headers), k)]; |h.name| + |h.value| + 4)
    {
      hide Render, Line, Offset, Find, IEquals, IsToken, IsFieldValue, Placed, WellFormed, Laid;
      var found, lineOff, valOff, valLen, lineLen := FindHeader(k);
      if !found {
        return;
      }
      ghost var m := memory[..];
      RemoveLine(lineOff, lineLen, Find(headers, k));
      BodyKept(m, memory[..], bdyLen);
      var isDate := EqualsInAnyCase(k, DATE);
      if hasDate && !isDate {
        RemoveKeeps(headers, k, DATE);
      }
      headers := Remove(headers, k);
      if isDate {
        hasDate := false;
      }
    }

    lemma LaidOffsets(i: nat)
      requires Valid() && i < |headers|
      ensures Offset(headers, i) + |headers[i].name| + |headers[i].value| + 4 == Offset(headers, i + 1) <= hdrLen
      ensures slnLen + hdrLen <= BODY_BEGIN
    {
      OffsetBounds(headers, i);
    }

    /** memmove of the tail to where the new value will end, then the new value over the old one. */
    method ReplaceValue(valOff: nat, valLen: nat, v: Bytes, ghost i: nat)
      requires Valid() && i < |headers| && IsFieldValue(v)
      requires valOff == slnLen + Offset(headers, i) + |headers[i].name| + 2 && valLen == |headers[i].value|
      requires |v| > valLen ==> |v| - valLen + 2 <= SpaceLeft()
      modifies `hdrLen, memory
      ensures hdrLen == old(hdrLen) - valLen + |v|
      ensures memory[..][BODY_BEGIN..] == old(memory[..])[BODY_BEGIN..]
      ensures Laid(memory[..], slnLen, hdrLen, status, headers[i := headers[i].(value := v)])
    {
      hide Render, Line, Offset, Placed, WellFormed, Laid, IsFieldValue, Moved, Copied;
      LaidOffsets(i);
      ghost var m := memory[..];
      var tailOff := valOff + valLen;
      var tailLen := slnLen + hdrLen - tailOff;
      Move(valOff + |v|, tailOff, tailLen);
      ghost var moved := memory[..];
      Copy(valOff, v);
      LaidSet(m, moved, memory[..], valOff, tailOff, tailLen, slnLen, hdrLen, status, headers, i, v);
      hdrLen := hdrLen - valLen + |v|;
    }

    method SetHeader(k: Bytes, v: Bytes) returns (outcome: Outcome)
      requires Valid()
      modifies `hdrLen, `hasDate, `headers, memory
      ensures Valid() && BlockEdited()
      ensures outcome == if !IsToken(k) then InvalidName
                         else if !IsFieldValue(v) then InvalidValue
                         else if old(SpaceLeft()) < Growth(old(headers), k, v) then NoSpace
                         else Done
      ensures headers == if outcome.Done? then Set(old(headers), k, v) else old(headers)
      ensures hasDate == (old(hasDate) || (outcome.Done? && IEquals(k, DATE)))
    {
      hide Render, Line, Offset, Find, IEquals, IsToken, IsFieldValue, Placed, WellFormed, Laid;
      if !IsToken(k) {
        return InvalidName;
      }
      if !IsFieldValue(v) {
        return InvalidValue;
      }
      var found, lineOff, valOff, valLen, lineLen := FindHeader(k);
      if !found {
        outcome := AddHeader(k, v);
        return;
      }
      LaidOffsets(Find(headers, k));
      if |v| > valLen && |v| - valLen + 2 > SpaceLeft() {
        return NoSpace;
      }
      ghost var m := memory[..];
      ReplaceValue(valOff, valLen, v, Find(headers, k));
      BodyKept(m, memory[..], bdyLen);
      var isDate := EqualsInAnyCase(k, DATE);
      if hasDate || isDate {
        SetKeeps(headers, k, v, DATE);
      }
      headers := Set(headers, k, v);
      if isDate {
        hasDate := true;
      }
      return Done;
    }

    // ---- status line and body

    method Status(line: Bytes, code: int) returns (outcome: Outcome)
      requires Valid()
      modifies this, memory
      ensures Valid() && statusCode == code && bdyLen == 0 && writer.None?
      ensures outcome.Done? || outcome.NoSpace?
      ensures status == if |line| <= BODY_BEGIN then line else []
      ensures headers == if outcome.Done? && code >= 200 && code !in {204, 304} then [Header(CONTENT_LENGTH, Decimal(0))] else []
      ensures outcome.Done? <==> |line| + (if code >= 200 && code !in {204, 304} then RoomFor(CONTENT_LENGTH, Decimal(0)) else 0)
                                 <= BODY_BEGIN
    {
      hide Placed, IEquals, Line;
      hdrLen, bdyLen, hasDate, writer, statusCode, headers := 0, 0, false, None, code, [];
      if |line| > BODY_BEGIN {
        slnLen, status := 0, [];
        NothingPlaced(memory[..], 0);
        return NoSpace;
      }
      slnLen, status := |line|, line;
      Copy(0, line);
      NothingPlaced(memory[..], slnLen);
      assert memory[..][..slnLen] == line;
      if MayCarryLength(code) {
        DecimalIsFieldValue(0);
        outcome := SetHeader(CONTENT_LENGTH, Decimal(0));
        return;
      }
      return Done;
    }

    /** reset_body and the body part of clear_body. */
    method DropBody()
      requires Valid()
      modifies `bdyLen, `writer
      ensures Valid() && bdyLen == 0 && writer.None?
    {
      bdyLen, writer := 0, None;
    }

    method ClearBody()
      requires Valid()
      modifies `bdyLen, `writer, `hdrLen, `hasDate, `headers, memory
      ensures Valid() && bdyLen == 0 && writer.None?
      ensures headers == Remove(Remove(old(headers), CONTENT_LENGTH), TRANSFER_ENCODING)
    {
      hide Laid, IEquals, Find;
      DropBody();
      RemoveHeader(CONTENT_LENGTH);
      RemoveHeader(TRANSFER_ENCODING);
    }

    method ResetBody()
      requires Valid()
      modifies `bdyLen, `writer, `hdrLen, `hasDate, `headers, memory
      ensures Valid() && bdyLen == 0 && writer.None? && hdrLen == |Render(headers)|
      ensures headers == Remove(Remove(old(headers), TRANSFER_ENCODING), CONTENT_LENGTH)
    {
      hide Laid, IEquals, Find;
      DropBody();
      RemoveHeader(TRANSFER_ENCODING);
      RemoveHeader(CONTENT_LENGTH);
      HeaderLength();
    }

    lemma HeaderLength()
      requires Valid()
      ensures hdrLen == |Render(headers)|
    {
    }

    method PutBody(body: Bytes)
      requires Valid() && |body| <= MEMORY_SIZE - BODY_BEGIN
      modifies `bdyLen, memory
      ensures Valid() && bdyLen == |body| && Body() == body
    {
      hide Placed;
      ghost var m := memory[..];
      Copy(BODY_BEGIN, body);
      LaidKept(m, memory[..], slnLen, hdrLen, status, headers);
      bdyLen := |body|;
      assert BodyOf(memory[..], bdyLen) == body;
    }

    /**
     Stores a small body in the buffer and hands a large one to a raw writer; either way the length field
     is rewritten.  `stored` says whether the writer could take the bytes.
     */
    method SetBody(body: Bytes, stored: bool) returns (outcome: Outcome)
      requires Valid()
      modifies `bdyLen, `writer, `hdrLen, `hasDate, `headers, memory
      ensures Valid()
      ensures |body| <= MEMORY_SIZE - BODY_BEGIN ==> writer.None? && bdyLen == |body| && Body() == body
      ensures MEMORY_SIZE - BODY_BEGIN < |body| ==> bdyLen == 0
      ensures MEMORY_SIZE - BODY_BEGIN < |body| && stored ==> writer == Some(BodyWriter(false, body))
      ensures MEMORY_SIZE - BODY_BEGIN < |body| && !stored ==> writer.None? && outcome.StoreFailed?
      ensures var rest := Remove(Remove(old(headers), TRANSFER_ENCODING), CONTENT_LENGTH);
              && headers == (if outcome.Done? then Set(rest, CONTENT_LENGTH, Decimal(|body|)) else rest)
              && outcome == if MEMORY_SIZE - BODY_BEGIN < |body| && !stored then StoreFailed
                            else if SpaceFor(rest) < Growth(rest, CONTENT_LENGTH, Decimal(|body|)) then NoSpace
                            else Done
    {
      hide Laid, IEquals, Find;
      ResetBody();
      DecimalIsFieldValue(|body|);
      if |body| <= MEMORY_SIZE - BODY_BEGIN {
        PutBody(body);
        outcome := SetHeader(CONTENT_LENGTH, Decimal(|body|));
        return;
      }
      if !stored {
        return StoreFailed;
      }
      writer := Some(BodyWriter(false, body));
      outcome := ApplyBodyFraming();
    }

    method SetBodyWriter(w: BodyWriter) returns (outcome: Outcome)
      requires Valid()
      modifies `bdyLen, `writer, `hdrLen, `hasDate, `headers, memory
      ensures Valid() && writer == Some(w) && bdyLen == 0
      ensures var rest := Remove(Remove(old(headers), TRANSFER_ENCODING), CONTENT_LENGTH);
              && headers == (if !outcome.Done? then rest
                             else if w.chunked then Set(rest, TRANSFER_ENCODING, "chunked")
                             else Set(rest, CONTENT_LENGTH, Decimal(|w.wire|)))
              && outcome == if SpaceFor(rest) < (if w.chunked then Growth(rest, TRANSFER_ENCODING, "chunked")
                                                 else Growth(rest, CONTENT_LENGTH, Decimal(|w.wire|)))
                            then NoSpace else Done
    {
      hide Laid, IEquals, Find;
      ResetBody();
      writer := Some(w);
      outcome := ApplyBodyFraming();
    }

    method ApplyBodyFraming() returns (outcome: Outcome)
      requires Valid() && writer.Some?
      modifies `hdrLen, `hasDate, `headers, memory
      ensures Valid() && BlockEdited()
      ensures outcome == if old(SpaceLeft()) < (if writer.value.chunked then Growth(old(headers), TRANSFER_ENCODING, "chunked")
                                                else Growth(old(headers), CONTENT_LENGTH, Decimal(|writer.value.wire|)))
                         then NoSpace else Done
      ensures headers == if !outcome.Done? then old(headers)
                         else if writer.value.chunked then Set(old(headers), TRANSFER_ENCODING, "chunked")
                         else Set(old(headers), CONTENT_LENGTH, Decimal(|writer.value.wire|))
    {
      hide Laid, IEquals, Find;
      ChunkedIsFieldValue();
      if writer.value.chunked {
        outcome := SetHeader(TRANSFER_ENCODING, "chunked");
      } else {
        DecimalIsFieldValue(|writer.value.wire|);
        outcome := SetHeader(CONTENT_LENGTH, Decimal(|writer.value.wire|));
      }
    }

    // ---- serialization

    /**
     The finished reply: status line, the fields that the status allows, the empty line, and the body
     if the status allows one.  Once the Date field is in, nothing can fail.
     */
    method Serialize(date: Bytes) returns (outcome: Outcome, reply: Option<Reply>)
      requires Valid() && IsFieldValue(date)
      modifies `hdrLen, `hasDate, `headers, `writer, memory
      ensures Valid()
      ensures outcome == if !old(hasDate) && old(SpaceLeft()) < RoomFor(DATE, date) then NoSpace else Done
      ensures outcome.Done? <==> reply.Some?
      ensures outcome.Done? ==>
                && headers == SentFields(if old(hasDate) then old(headers) else old(headers) + [Header(DATE, date)], statusCode)
                && reply.value.prefix == status + Render(headers) + "\r\n" + (if OmitsBody(statusCode) then [] else old(Body()))
                && reply.value.source == if OmitsBody(statusCode) || old(writer).None? then None
                                         else Some(Source(old(writer).value.wire, AtEof))
      ensures outcome.Done? && (100 <= statusCode < 200 || statusCode == 204 || statusCode == 304) ==>
                reply.value.Full() == status + Render(headers) + "\r\n"
      ensures outcome.Done? && statusCode >= 200 && statusCode !in {204, 304} ==>
                reply.value.Full() == status + Render(headers) + "\r\n" + old(Body())
                                      + if old(writer).Some? then old(writer).value.wire else []
    {
      hide Laid, IEquals, Find, Placed, Render, Remove, Has, RoomFor;
      NamesDiffer();
      if !hasDate {
        outcome := AddHeader(DATE, date);
        if !outcome.Done? {
          return outcome, None;
        }
      }
      var omitsBody := OmitsBody(statusCode);
      if omitsBody {
        RemoveHeader(TRANSFER_ENCODING);
        if OmitsLength(statusCode) {
          RemoveHeader(CONTENT_LENGTH);
        }
      }
      // The Date field is in the block, so the block is not empty and its end is free.
      DateTakesSpace();
      var prefix := FinishHead();
      if !omitsBody && bdyLen > 0 {
        prefix := prefix + memory[BODY_BEGIN..BODY_BEGIN + bdyLen];
      }
      var source := None;
      if writer.Some? {
        if !omitsBody {
          source := Some(Source(writer.value.wire, AtEof));
        }
        writer := None;
      }
      return Done, Some(Reply(prefix, source));
    }

    lemma DateTakesSpace()
      requires Valid() && hasDate
      ensures hdrLen > 0 && slnLen + hdrLen + 2 <= BODY_BEGIN
    {
      OffsetBounds(headers, Find(headers, DATE));
    }

    method FinishHead() returns (prefix: Bytes)
      requires Valid() && slnLen + hdrLen + 2 <= BODY_BEGIN
      modifies memory
      ensures Valid() && Body() == old(Body())
      ensures prefix == status + Render(headers) + "\r\n"
    {
      hide Render;
      ghost var m := memory[..];
      Copy(slnLen + hdrLen, "\r\n");
      LaidKept(m, memory[..], slnLen, hdrLen, status, headers);
      BodyKept(m, memory[..], bdyLen);
      prefix := memory[..slnLen + hdrLen + 2];
      assert prefix == memory[..][..slnLen] + memory[..][slnLen..slnLen + hdrLen] + "\r\n";
    }
  }
}
