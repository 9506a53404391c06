/**
 The parameters of a query: pairs between "&", cut apart at their first "=".
 */
module QueryParameters {
  import opened Octets
  import opened RequestHead

  const MAX_QUERY_PARAMETERS: nat := 128

  /** A key and, behind the first "=", a value. */
  function PairOf(p: Bytes): FieldText {
    var eq := First(p, '=', 0);
    FieldText(p[..eq], if eq < |p| then p[eq + 1..] else [])
  }

  function PairIn(p: Bytes): seq<FieldText> { if p == [] then [] else [PairOf(p)] }

  /** The pairs of a query, without the empty ones. */
  function Pairs(s: Bytes): seq<FieldText>
    decreases |s|
  {
    var end := First(s, '&', 0);
    if end == |s| then PairIn(s) else PairIn(s[..end]) + Pairs(s[end + 1..])
  }

  /** As many pairs as there is room for. */
  function FirstPairs(s: Bytes, room: nat): seq<FieldText> { Pairs(s)[..Min(room, |Pairs(s)|)] }

  // ---- writing pairs

  predicate IsWritable(pair: FieldText) { '&' !in pair.name && '=' !in pair.name && '&' !in pair.value }

  /** The text of a pair; without a value, the "=" may be left out. */
  predicate IsWrittenAs(pair: FieldText, text: Bytes) {
    text == pair.name + ['='] + pair.value || (text == pair.name != [] && pair.value == [])
  }

  /** The texts with "&" between them. */
  function Joined(texts: seq<Bytes>): Bytes {
    if texts == [] then [] else texts[0] + if |texts| == 1 then [] else ['&'] + Joined(texts[1..])
  }

  lemma FirstFound(s: Bytes, c: char, n: nat)
    requires n <= |s| && c !in s[..n] && (n < |s| ==> s[n] == c)
    ensures First(s, c, 0) == n
  {
    assert forall k | 0 <= k < n :: s[k] == s[..n][k];
  }

  lemma PairIsRead(pair: FieldText, text: Bytes)
    requires IsWritable(pair) && IsWrittenAs(pair, text)
    ensures PairOf(text) == pair && '&' !in text && text != []
  {
    hide First;
    var n := |pair.name|;
    if text == pair.name {
      FirstFound(text, '=', n);
      assert text[..n] == text;
    } else {
      assert text[..n] == pair.name && text[n + 1..] == pair.value;
      FirstFound(text, '=', n);
    }
  }

  /** What is written is read again, in order. */
  lemma {:induction false} PairsOfWritten(pairs: seq<FieldText>, texts: seq<Bytes>)
    requires |texts| == |pairs| && forall i | 0 <= i < |pairs| :: IsWritable(pairs[i]) && IsWrittenAs(pairs[i], texts[i])
    ensures Pairs(Joined(texts)) == pairs
    decreases |pairs|
  {
    hide First, PairOf, IsWritable, IsWrittenAs, Pairs;
    var s := Joined(texts);
    PairsUnfold(s);
    if pairs != [] {
      var p := texts[0];
      PairIsRead(pairs[0], p);
      assert s[..|p|] == p;
      FirstFound(s, '&', |p|);
      if |pairs| > 1 {
        PairsOfWritten(pairs[1..], texts[1..]);
        assert s[|p| + 1..] == Joined(texts[1..]);
        assert pairs == [pairs[0]] + pairs[1..];
      } else {
        assert s == p && pairs == [pairs[0]];
      }
    }
  }

  lemma PairsUnfold(s: Bytes)
    ensures var end := First(s, '&', 0);
            Pairs(s) == if end == |s| then PairIn(s) else PairIn(s[..end]) + Pairs(s[end + 1..])
  {
    hide First, PairIn;
  }

  lemma Cut(s: Bytes, t: Bytes, n: nat)
    requires n <= |s| && (n < |s| ==> s[n] == '&') && forall k | 0 <= k < n :: s[k] != '&'
    ensures var all := s + ['&'] + t;
            && all[..n] == s[..n] && '&' !in all[..n] && all[n] == '&' && (n == |s| ==> s[..n] == s)
            && all[n + 1..] == if n == |s| then t else s[n + 1..] + ['&'] + t
  {
    var all := s + ['&'] + t;
    if n < |s| {
      assert s == s[..n] + (['&'] + s[n + 1..]);
      assert all == s[..n] + (['&'] + (s[n + 1..] + ['&'] + t));
    }
  }

  /** The pairs of two queries with "&" between them are those of the one and then those of the other. */
  lemma {:induction false} PairsJoin(s: Bytes, t: Bytes)
    ensures Pairs(s + ['&'] + t) == Pairs(s) + Pairs(t)
    decreases |s|
  {
    hide First, PairOf, Pairs;
    var all, n := s + ['&'] + t, First(s, '&', 0);
    Cut(s, t, n);
    FirstFound(all, '&', n);
    PairsUnfold(all);
    PairsUnfold(s);
    if n < |s| {
      PairsJoin(s[n + 1..], t);
      var p := PairIn(s[..n]);
      assert p + (Pairs(s[n + 1..]) + Pairs(t)) == p + Pairs(s[n + 1..]) + Pairs(t);
    }
  }

  // ---- the loop

  predicate LiesIn(v: View, w: View) { w.from <= v.from <= v.to <= w.to }

  /** The views of the pairs; the empty value of a pair without "=" is a view of no text. */
  method SplitQueryParameters(b: Bytes, query: View, room: nat) returns (parameters: seq<Field>)
    requires query.In(b)
    ensures forall k | 0 <= k < |parameters| :: LiesIn(parameters[k].name, query) && LiesIn(parameters[k].value, query)
    ensures TextsIn(b, parameters) == FirstPairs(query.Of(b), room)
  {
    hide First, Pairs, LiesIn, TextsIn, PairOf;
    parameters := [];
    NoTexts(b);
    var s := query.Of(b);
    var i := 0;
    assert s[0..] == s;
    while i < |s| && |parameters| < room
      invariant i <= |s| && |parameters| <= room
      invariant forall k | 0 <= k < |parameters| :: LiesIn(parameters[k].name, query) && LiesIn(parameters[k].value, query)
      invariant Pairs(s) == TextsIn(b, parameters) + Pairs(s[i..])
    {
      var pairEnd := i;
      while pairEnd < |s| && s[pairEnd] != '&'
        invariant i <= pairEnd <= |s| && forall k | i <= k < pairEnd :: s[k] != '&'
      {
        pairEnd := pairEnd + 1;
      }
      PairsStep(s, i, pairEnd);
      var next := if pairEnd < |s| then pairEnd + 1 else pairEnd;
      assert pairEnd == |s| ==> s[next..] == [] && Pairs(s[next..]) == [] by { NoPairs(); }
      if pairEnd != i {
        var parameter := CutPair(b, query, i, pairEnd);
        TextsGrow(b, parameters, parameter);
        Regroup(TextsIn(b, parameters), [PairOf(s[i..pairEnd])], Pairs(s[next..]));
        parameters := parameters + [parameter];
      }
      i := next;
    }
    NoPairs();
    assert i == |s| ==> s[i..] == [];
    TextsCount(b, parameters);
    IsFront(TextsIn(b, parameters), Pairs(s[i..]), room);
  }

  lemma Regroup(a: seq<FieldText>, p: seq<FieldText>, rest: seq<FieldText>)
    ensures a + (p + rest) == (a + p) + rest
  {
  }

  lemma IsFront(taken: seq<FieldText>, rest: seq<FieldText>, room: nat)
    requires |taken| <= room && (|taken| == room || rest == [])
    ensures (taken + rest)[..Min(room, |taken + rest|)] == taken
  {
  }

  lemma NoPairs()
    ensures Pairs([]) == []
  {
  }

  lemma SubText(b: Bytes, from: nat, to: nat, i: nat, j: nat)
    requires from <= to <= |b| && i <= j <= to - from
    ensures b[from..to][i..j] == b[from + i..from + j]
  {
    assert forall k | 0 <= k < j - i :: b[from..to][i..j][k] == b[from + (i + k)] == b[from + i..from + j][k];
  }

  lemma PairsStep(s: Bytes, i: nat, end: nat)
    requires i < |s| && i <= end <= |s| && (end < |s| ==> s[end] == '&') && forall k | i <= k < end :: s[k] != '&'
    ensures Pairs(s[i..]) == PairIn(s[i..end]) + if end < |s| then Pairs(s[end + 1..]) else []
  {
    hide PairIn, First, Pairs;
    var t := s[i..];
    assert t[..end - i] == s[i..end] && (end < |s| ==> t[end - i + 1..] == s[end + 1..]);
    assert '&' !in t[..end - i];
    FirstFound(t, '&', end - i);
    PairsUnfold(t);
    if end == |s| {
      assert t == s[i..end] && PairIn(t) + [] == PairIn(t);
    }
  }

  method CutPair(b: Bytes, query: View, i: nat, end: nat) returns (parameter: Field)
    requires query.In(b) && i <= end <= query.to - query.from
    ensures LiesIn(parameter.name, query) && LiesIn(parameter.value, query)
    ensures parameter.name.In(b) && parameter.value.In(b)
    ensures FieldText(parameter.name.Of(b), parameter.value.Of(b)) == PairOf(query.Of(b)[i..end])
  {
    hide First;
    var pair := query.Of(b)[i..end];
    var from, to := query.from + i, query.from + end;
    SubText(b, query.from, query.to, i, end);
    var eq := First(pair, '=', 0);
    assert pair[..|pair|] == pair && pair == b[from..to];
    if eq == |pair| {
      return Field(View(from, to), View(to, to));
    }
    SubText(b, from, to, 0, eq);
    SubText(b, from, to, eq + 1, end - i);
    return Field(View(from, from + eq), View(from + eq + 1, to));
  }
}
