/**
 Percent-decoding (section 2.1 of RFC 3986): what it means, the read-only check for NUL, and the two-pointer
 pass that rewrites a buffer in place.
 */
module PercentDecode {
  import opened Octets
  import opened HttpText

  predicate IsTriplet(s: string, i: nat) {
    i + 2 < |s| && s[i] == '%' && IsHexDigit(s[i + 1]) && IsHexDigit(s[i + 2])
  }

  function HexVal(h: char): (v: nat)
    requires IsHexDigit(h)
    ensures v < 16
  {
    if IsDigit(h) then h as int - '0' as int
    else if 'a' <= h <= 'f' then h as int - 'a' as int + 10
    else h as int - 'A' as int + 10
  }

  function Decoded(s: string, i: nat): Octet
    requires IsTriplet(s, i)
  {
    (HexVal(s[i + 1]) * 16 + HexVal(s[i + 2])) as char
  }

  /** Every triplet becomes the byte it stands for; everything else stays. */
  function Decode(s: Bytes): (t: Bytes)
    ensures |t| <= |s|
    decreases |s|
  {
    if s == [] then []
    else if IsTriplet(s, 0) then [Decoded(s, 0)] + Decode(s[3..])
    else [s[0]] + Decode(s[1..])
  }

  /** Some triplet stands for NUL. */
  predicate HasNulTriplet(s: string)
    decreases |s|
  {
    s != [] && if IsTriplet(s, 0) then Decoded(s, 0) == '\0' || HasNulTriplet(s[3..]) else HasNulTriplet(s[1..])
  }

  /** In text that has no NUL of its own, the check on the triplets is the check on the decoded text. */
  lemma {:induction false} NulTripletMeansNul(s: Bytes)
    requires '\0' !in s
    ensures HasNulTriplet(s) <==> '\0' in Decode(s)
    decreases |s|
  {
    if s != [] {
      NulTripletMeansNul(if IsTriplet(s, 0) then s[3..] else s[1..]);
    }
  }

  method PercentDecodeValidate(sv: string) returns (ok: bool)
    ensures ok <==> !HasNulTriplet(sv)
  {
    var r := 0;
    assert sv[0..] == sv;
    while r < |sv|
      invariant r <= |sv|
      invariant HasNulTriplet(sv) <==> HasNulTriplet(sv[r..])
    {
      assert sv[r..][1..] == sv[r + 1..];
      if sv[r] == '%' && r + 2 < |sv| && IsHexDigit(sv[r + 1]) && IsHexDigit(sv[r + 2]) {
        assert IsTriplet(sv[r..], 0) && sv[r..][3..] == sv[r + 3..];
        if Decoded(sv, r) == '\0' {
          return false;
        }
        r := r + 3;
        continue;
      }
      assert !IsTriplet(sv[r..], 0);
      r := r + 1;
    }
    return true;
  }

  lemma {:induction false} DecodeWithoutPercent(s: Bytes, t: Bytes)
    requires '%' !in s
    ensures Decode(s + t) == s + Decode(t)
    decreases |s|
  {
    if s == [] {
      assert s + t == t;
    } else {
      assert (s + t)[1..] == s[1..] + t && (s + t)[0] != '%';
      DecodeWithoutPercent(s[1..], t);
    }
  }

  /** One turn of the loop, on the text as it was. */
  lemma DecodeStep(s: Bytes, r: nat)
    requires r < |s|
    ensures Decode(s[r..]) ==
            if IsTriplet(s, r) then [Decoded(s, r)] + Decode(s[r + 3..]) else [s[r]] + Decode(s[r + 1..])
  {
    assert s[r..][1..] == s[r + 1..];
    assert IsTriplet(s, r) == IsTriplet(s[r..], 0);
    if IsTriplet(s, r) {
      assert s[r..][3..] == s[r + 3..];
    }
  }

  /**
   Decodes the bytes of the buffer from `from` on in place. Reading is never behind writing, so what is still
   to be read has not been overwritten; nothing outside the decoded region changes.
   */
  method PercentDecodeInPlace(data: array<Octet>, from: nat, len: nat) returns (size: nat)
    requires from + len <= data.Length
    modifies data
    ensures size <= len
    ensures data[from..from + size] == Decode(old(data[from..from + len]))
    ensures data[..from] == old(data[..from])
    ensures data[from + len..] == old(data[from + len..])
  {
    hide Decode, IsTriplet, Decoded;
    ghost var sv := data[from..from + len];
    var pctAt := 0;
    while pctAt < len && data[from + pctAt] != '%'
      invariant pctAt <= len && forall k | 0 <= k < pctAt :: sv[k] != '%'
    {
      pctAt := pctAt + 1;
    }
    StartOfDecoding(sv, pctAt);
    if pctAt == len {
      return len;
    }
    size := DecodeRest(data, from, len, pctAt, sv);
    assert data[from..from + size] == Decode(sv);
  }

  /** The two-pointer pass, from the first percent sign on. */
  method DecodeRest(data: array<Octet>, from: nat, len: nat, pctAt: nat, ghost sv: Bytes) returns (size: nat)
    requires pctAt <= len == |sv| && from + len <= data.Length
    requires forall k | 0 <= k < len :: data[from + k] == sv[k]
    requires sv[..pctAt] + Decode(sv[pctAt..]) == Decode(sv)
    modifies data
    ensures size <= len && size == |Decode(sv)|
    ensures forall k | 0 <= k < size :: data[from + k] == Decode(sv)[k]
    ensures forall k | 0 <= k < from || from + len <= k < data.Length :: data[k] == old(data[k])
  {
    hide Decode, IsTriplet, Decoded;
    ghost var done := sv[..pctAt];
    var r, w := pctAt, pctAt;
    while r < len
      invariant w <= r <= len && |done| == w && done + Decode(sv[r..]) == Decode(sv)
      invariant forall k | 0 <= k < w :: data[from + k] == done[k]
      invariant forall k | 0 <= k < from || from + r <= k < data.Length :: data[k] == old(data[k])
    {
      var byte, taken := ReadByte(data, from, len, r, sv);
      done := DecodingStep(sv, r, done);
      data[from + w] := byte;
      r, w := r + taken, w + 1;
    }
    EndOfDecoding(sv, done);
    return w;
  }

  /** The byte that comes next, and how many it is read from. */
  method ReadByte(data: array<Octet>, from: nat, len: nat, r: nat, ghost sv: Bytes) returns (byte: Octet, taken: nat)
    requires r < len == |sv| && from + len <= data.Length
    requires forall k | r <= k < len :: data[from + k] == sv[k]
    ensures 1 <= taken <= len - r
    ensures if IsTriplet(sv, r) then byte == Decoded(sv, r) && taken == 3 else byte == sv[r] && taken == 1
  {
    TripletAt(sv, r);
    if data[from + r] == '%' && r + 2 < len && IsHexDigit(data[from + r + 1]) && IsHexDigit(data[from + r + 2]) {
      return (HexVal(data[from + r + 1]) * 16 + HexVal(data[from + r + 2])) as char, 3;
    }
    return data[from + r], 1;
  }

  lemma StartOfDecoding(s: Bytes, n: nat)
    requires n <= |s| && forall k | 0 <= k < n :: s[k] != '%'
    ensures s[..n] + Decode(s[n..]) == Decode(s)
    ensures n == |s| ==> Decode(s) == s
  {
    DecodeWithoutPercent(s[..n], s[n..]);
    assert s == s[..n] + s[n..];
  }

  lemma DecodingStep(s: Bytes, r: nat, done: Bytes) returns (next: Bytes)
    requires r < |s| && done + Decode(s[r..]) == Decode(s)
    ensures next == done + [if IsTriplet(s, r) then Decoded(s, r) else s[r]]
    ensures next + Decode(s[if IsTriplet(s, r) then r + 3 else r + 1..]) == Decode(s)
  {
    hide Decode, IsTriplet, Decoded;
    DecodeStep(s, r);
    next := done + [if IsTriplet(s, r) then Decoded(s, r) else s[r]];
  }

  lemma EndOfDecoding(s: Bytes, done: Bytes)
    requires done + Decode(s[|s|..]) == Decode(s)
    ensures done == Decode(s)
  {
    assert s[|s|..] == [];
  }

  lemma TripletAt(s: string, i: nat)
    requires i < |s|
    ensures IsTriplet(s, i) <==> s[i] == '%' && i + 2 < |s| && IsHexDigit(s[i + 1]) && IsHexDigit(s[i + 2])
  {
  }

  // ---- the inverse

  /** "%" HEXDIG HEXDIG, each digit in one of the two cases. */
  function Triplet(c: Octet, high: bool, low: bool): Bytes {
    HexIsRead(high, c as int / 16);
    HexIsRead(low, c as int % 16);
    ['%', HexTable(high)[c as int / 16], HexTable(low)[c as int % 16]]
  }

  /** One of the ways to encode a text: a percent sign has to be, and everything else may be, a triplet of any case. */
  ghost predicate IsEncodingOf(e: Bytes, s: Bytes)
    decreases |s|
  {
    if s == [] then e == []
    else
      || (s[0] != '%' && e != [] && e[0] == s[0] && IsEncodingOf(e[1..], s[1..]))
      || (|e| >= 3 && (exists high, low :: e[..3] == Triplet(s[0], high, low)) && IsEncodingOf(e[3..], s[1..]))
  }

  lemma TripletIsRead(e: Bytes, c: Octet, high: bool, low: bool)
    requires |e| >= 3 && e[..3] == Triplet(c, high, low)
    ensures IsTriplet(e, 0) && Decoded(e, 0) == c
  {
    hide DigitOf;
    HexIsRead(high, c as int / 16);
    HexIsRead(low, c as int % 16);
    assert e[0] == e[..3][0] && e[1] == e[..3][1] && e[2] == e[..3][2];
    HexIsInTable(e[1]);
    HexIsInTable(e[2]);
  }

  /** Any bytes whatever survive being encoded, in whichever way, and decoded. */
  lemma {:induction false} DecodeEncode(e: Bytes, s: Bytes)
    requires IsEncodingOf(e, s)
    ensures Decode(e) == s
    decreases |s|
  {
    hide Triplet, Decoded;
    if s != [] {
      if s[0] != '%' && e != [] && e[0] == s[0] && IsEncodingOf(e[1..], s[1..]) {
        DecodeEncode(e[1..], s[1..]);
      } else {
        var high, low :| e[..3] == Triplet(s[0], high, low);
        TripletIsRead(e, s[0], high, low);
        DecodeEncode(e[3..], s[1..]);
      }
    }
  }

  /** Every text has such encodings: `small` says of every character whether it goes without, and in which case. */
  function Encode(s: Bytes, plain: Octet -> bool, small: bool): (e: Bytes)
    ensures IsEncodingOf(e, s)
  {
    if s == [] then []
    else
      var first := if s[0] != '%' && plain(s[0]) then [s[0]] else Triplet(s[0], small, small);
      var e := first + Encode(s[1..], plain, small);
      assert e[|first|..] == Encode(s[1..], plain, small) && e[..|first|] == first;
      e
  }
}
