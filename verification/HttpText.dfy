/**
 Character classes and small text predicates of the HTTP and URI grammars.
 */
module HttpText {
  import opened Octets

  predicate IsDigit(c: char) { '0' <= c <= '9' }

  predicate IsAlpha(c: char) { 'A' <= c <= 'Z' || 'a' <= c <= 'z' }

  predicate IsHexDigit(c: char) { IsDigit(c) || 'A' <= c <= 'F' || 'a' <= c <= 'f' }

  predicate IsTchar(c: char) { IsAlpha(c) || IsDigit(c) || c in "!#$%&'*+-.^_`|~" }

  predicate IsToken(s: string) { s != [] && forall i | 0 <= i < |s| :: IsTchar(s[i]) }

  predicate IsVchar(c: char) { '!' <= c <= '~' }

  predicate IsObsText(c: char) { 0x80 <= c as int <= 0xFF }

  predicate IsOws(c: char) { c == ' ' || c == '\t' }

  predicate IsFieldChar(c: char) { IsOws(c) || IsVchar(c) || IsObsText(c) }

  predicate IsFieldValue(s: string) { forall i | 0 <= i < |s| :: IsFieldChar(s[i]) }

  predicate IsUnreserved(c: char) { IsAlpha(c) || IsDigit(c) || c in "-._~" }

  predicate IsSubDelim(c: char) { c in "!$&'()*+,;=" }

  /** ctext of section 5.6.5 of RFC 9110: text in a comment other than parentheses and backslash. */
  predicate IsCtext(c: char) { (IsOws(c) || IsVchar(c) || IsObsText(c)) && c !in "()\\" }

  /** Section 5.6.2 of RFC 9110, the other way round: a token has every visible character but the delimiters. */
  lemma TcharByDelimiters(c: char)
    ensures IsTchar(c) <==> IsVchar(c) && c !in "(),/:;<=>?@[\\]{}" && c != '"'
  {
  }

  /** Section 2.2 of RFC 3986: what is neither reserved for the syntax nor outside the characters of a URI. */
  lemma UriCharacters(c: char)
    ensures IsUnreserved(c) || IsSubDelim(c) <==> IsVchar(c) && c !in ":/?#[]@" && c !in "%<>\\^`{|}" && c != '"'
    ensures !(IsUnreserved(c) && IsSubDelim(c))
  {
  }

  /** The ranges of section 5.6.5 of RFC 9110. */
  lemma CtextRanges(c: char)
    ensures IsCtext(c) <==> c == '\t' || c == ' ' || 0x21 <= c as int <= 0x27 || 0x2A <= c as int <= 0x5B
                            || 0x5D <= c as int <= 0x7E || 0x80 <= c as int <= 0xFF
  {
  }

  // ---- names in any case

  const CAPITALS := "ABCDEFGHIJKLMNOPQRSTUVWXYZ"
  const SMALLS := "abcdefghijklmnopqrstuvwxyz"

  /** The same character, or the same letter in the other case. */
  predicate SameLetter(c: char, d: char) {
    c == d || exists i | 0 <= i < 26 :: (c == CAPITALS[i] && d == SMALLS[i]) || (c == SMALLS[i] && d == CAPITALS[i])
  }

  predicate IEquals(a: string, b: string) {
    |a| == |b| && forall i | 0 <= i < |a| :: SameLetter(a[i], b[i])
  }

  function ToLower(c: char): char { if 'A' <= c <= 'Z' then (c as int + 32) as char else c }

  lemma LettersInOrder()
    ensures forall i | 0 <= i < 26 :: CAPITALS[i] as int == 65 + i && SMALLS[i] as int == 97 + i
  {
  }

  lemma SameLetterByLower(c: char, d: char)
    ensures SameLetter(c, d) <==> ToLower(c) == ToLower(d)
  {
    LettersInOrder();
    if ToLower(c) == ToLower(d) && c != d {
      var i := ToLower(c) as int - 97;
      assert CAPITALS[i] == (65 + i) as char && SMALLS[i] == (97 + i) as char;
    }
  }

  lemma IEqualsByLower(a: string, b: string)
    ensures IEquals(a, b) <==> |a| == |b| && forall i | 0 <= i < |a| :: ToLower(a[i]) == ToLower(b[i])
  {
    hide SameLetter, ToLower;
    forall i | 0 <= i < |a| && i < |b| ensures SameLetter(a[i], b[i]) <==> ToLower(a[i]) == ToLower(b[i]) {
      SameLetterByLower(a[i], b[i]);
    }
  }

  lemma IEqualsAgrees(a: string, b: string, c: string)
    requires IEquals(a, b)
    ensures IEquals(a, c) <==> IEquals(b, c)
  {
    hide IEquals, ToLower;
    IEqualsByLower(a, b);
    IEqualsByLower(b, c);
    IEqualsByLower(a, c);
    if IEquals(b, c) {
      assert forall i | 0 <= i < |a| :: ToLower(a[i]) == ToLower(b[i]) == ToLower(c[i]);
    }
    if IEquals(a, c) {
      assert forall i | 0 <= i < |a| :: ToLower(b[i]) == ToLower(a[i]) == ToLower(c[i]);
    }
  }

  /** The comparison that takes every character to lower case. */
  method EqualsInAnyCase(a: string, b: string) returns (same: bool)
    ensures same <==> IEquals(a, b)
  {
    hide IEquals, ToLower;
    IEqualsByLower(a, b);
    if |a| != |b| {
      return false;
    }
    for i := 0 to |a|
      invariant forall k | 0 <= k < i :: ToLower(a[k]) == ToLower(b[k])
    {
      if ToLower(a[i]) != ToLower(b[i]) {
        return false;
      }
    }
    return true;
  }

  // ---- hex digits

  const SMALL_HEX := "0123456789abcdef"
  const CAPITAL_HEX := "0123456789ABCDEF"

  function HexTable(small: bool): (t: string)
    ensures |t| == 16
  {
    if small then SMALL_HEX else CAPITAL_HEX
  }

  /** The place of the digit in one of the tables. */
  function DigitOf(c: char): nat {
    if c in SMALL_HEX then First(SMALL_HEX, c, 0) else if c in CAPITAL_HEX then First(CAPITAL_HEX, c, 0) else 0
  }

  lemma HexInOrder()
    ensures forall i | 0 <= i < 16 :: SMALL_HEX[i] as int == if i < 10 then 48 + i else 87 + i
    ensures forall i | 0 <= i < 16 :: CAPITAL_HEX[i] as int == if i < 10 then 48 + i else 55 + i
  {
  }

  /** A digit is read as the number it is written for, in both cases. */
  lemma HexIsRead(small: bool, d: nat)
    requires d < 16
    ensures IsHexDigit(HexTable(small)[d]) && DigitOf(HexTable(small)[d]) == d && HexTable(small)[d] != '%'
  {
    hide First;
    HexInOrder();
    var t, c := HexTable(small), HexTable(small)[d];
    var i, j := First(SMALL_HEX, c, 0), First(CAPITAL_HEX, c, 0);
    assert c in t;
  }

  /** There are no other hex digits. */
  lemma HexIsInTable(c: char)
    requires IsHexDigit(c)
    ensures DigitOf(c) < 16 && exists small :: HexTable(small)[DigitOf(c)] == c
    ensures DigitOf(c) == c as int - if IsDigit(c) then 48 else if 'a' <= c then 87 else 55
  {
    hide First;
    HexInOrder();
    var d := c as int - if IsDigit(c) then 48 else if 'a' <= c then 87 else 55;
    HexIsRead('a' <= c, d);
    assert HexTable('a' <= c)[d] == c;
  }

  // ---- decimal numbers

  function Decimal(n: nat): (s: string)
    ensures s != [] && forall i | 0 <= i < |s| :: IsDigit(s[i])
  {
    if n < 10 then [(n + '0' as int) as char] else Decimal(n / 10) + Decimal(n % 10)
  }

  function ParseDecimal(s: string): nat
    requires forall i | 0 <= i < |s| :: IsDigit(s[i])
  {
    if s == [] then 0
    else assert IsDigit(s[|s| - 1]); ParseDecimal(s[..|s| - 1]) * 10 + (s[|s| - 1] as int - '0' as int)
  }

  /** The digits that are printed are those of the table, the last one first. */
  lemma DecimalDigits(n: nat)
    ensures Decimal(n) == (if n < 10 then [] else Decimal(n / 10)) + ["0123456789"[n % 10]]
  {
    var d := n % 10;
    assert "0123456789"[d] == (d + '0' as int) as char by {
      assert d == 0 || d == 1 || d == 2 || d == 3 || d == 4 || d == 5 || d == 6 || d == 7 || d == 8 || d == 9;
    }
  }

  /** What is printed as a Content-Length reads back as the same number. */
  lemma {:induction false} DecimalRoundTrip(n: nat)
    ensures ParseDecimal(Decimal(n)) == n
  {
    if n < 10 {
      assert Decimal(n)[..0] == [];
    } else {
      DecimalRoundTrip(n / 10);
      var last := (n % 10 + '0' as int) as char;
      assert Decimal(n % 10) == [last];
      assert Decimal(n)[..|Decimal(n)| - 1] == Decimal(n / 10);
    }
  }
}
