/**
 Runs of characters, and what more bytes can change about them.
 */
module Scanning {
  import opened Octets
  import opened HttpText
  import opened UriReference
  import opened RequestHead

  lemma {:induction false} RunStable(b: Bytes, d: Bytes, i: nat, extra: string)
    requires b <= d && i <= |b|
    ensures Run(b, i, extra).Bad? ==> Run(d, i, extra).Bad?
    ensures Run(b, i, extra).Stop? && Run(b, i, extra).at < |b| ==> Run(d, i, extra) == Run(b, i, extra)
    ensures Run(b, i, extra).Stop? && Run(b, i, extra).at == |b| && Run(d, i, extra).Stop? ==> |b| <= Run(d, i, extra).at
    ensures Run(b, i, extra).Cut? && Run(d, i, extra).Stop? ==> |b| < Run(d, i, extra).at
    decreases |b| - i
  {
    if i < |b| {
      if b[i] == '%' {
        if i + 2 < |b| && IsHexDigit(b[i + 1]) && IsHexDigit(b[i + 2]) {
          RunStable(b, d, i + 3, extra);
        }
      } else if Allowed(extra, b[i]) {
        RunStable(b, d, i + 1, extra);
      }
    }
  }

  lemma {:induction false} TokenStable(b: Bytes, d: Bytes, i: nat)
    requires b <= d && i <= |b|
    ensures TokenEnd(b, i) < |b| ==> TokenEnd(d, i) == TokenEnd(b, i)
    ensures TokenEnd(b, i) <= TokenEnd(d, i)
  {
    var j, k := TokenEnd(b, i), TokenEnd(d, i);
    assert forall m | i <= m < j :: IsTchar(b[m]) && b[m] == d[m];
    assert k < |d| ==> !IsTchar(d[k]);
    assert j <= k;
    if j < |b| {
      assert d[j] == b[j];
    }
  }

  lemma SchemeStable(b: Bytes, d: Bytes, i: nat)
    requires b <= d && i <= |b|
    ensures SchemeStop(b, i) < |b| ==> SchemeStop(d, i) == SchemeStop(b, i)
    ensures SchemeStop(b, i) <= SchemeStop(d, i)
  {
    var j, k := SchemeStop(b, i), SchemeStop(d, i);
    assert forall m | i <= m < j :: IsSchemeChar(b[m]) && b[m] == d[m];
    assert j <= k;
    if j < |b| {
      assert d[j] == b[j];
    }
  }

  lemma DigitsStable(b: Bytes, d: Bytes, i: nat)
    requires b <= d && i <= |b|
    ensures DigitsEnd(b, i) < |b| ==> DigitsEnd(d, i) == DigitsEnd(b, i)
    ensures DigitsEnd(b, i) <= DigitsEnd(d, i)
  {
    var j, k := DigitsEnd(b, i), DigitsEnd(d, i);
    assert forall m | i <= m < j :: IsDigit(b[m]) && b[m] == d[m];
    assert j <= k;
    if j < |b| {
      assert d[j] == b[j];
    }
  }

  lemma ValueStable(b: Bytes, d: Bytes, i: nat)
    requires b <= d && i <= |b|
    ensures ValueEnd(b, i) < |b| ==> ValueEnd(d, i) == ValueEnd(b, i)
  {
    hide IsFieldChar;
    var j, k := ValueEnd(b, i), ValueEnd(d, i);
    assert forall m | i <= m < j :: IsFieldChar(b[m]) && b[m] == d[m];
    assert j <= k;
    if j < |b| {
      assert d[j] == b[j];
    }
  }

  lemma {:induction false} TrimmedStable(b: Bytes, d: Bytes, v: View)
    requires b <= d && v.In(b)
    ensures Trimmed(d, v) == Trimmed(b, v)
    decreases v.to - v.from
  {
    if v.from < v.to && IsOws(b[v.from]) {
      TrimmedStable(b, d, View(v.from + 1, v.to));
    } else if v.from < v.to && IsOws(b[v.to - 1]) {
      TrimmedStable(b, d, View(v.from, v.to - 1));
    }
  }

  // ---- how far a run gets

  /** How far a run gets, whatever stops it. */
  function Reach(b: Bytes, i: nat, extra: string): (j: nat)
    requires i <= |b|
    ensures i <= j <= |b|
    ensures Run(b, i, extra).Stop? ==> Run(b, i, extra).at == j
    decreases |b| - i
  {
    if i == |b| then i
    else if b[i] == '%' then
      if i + 2 < |b| && IsHexDigit(b[i + 1]) && IsHexDigit(b[i + 2]) then Reach(b, i + 3, extra) else i
    else if Allowed(extra, b[i]) then Reach(b, i + 1, extra)
    else i
  }

  lemma {:induction false} ReachGrows(b: Bytes, d: Bytes, i: nat, extra: string)
    requires b <= d && i <= |b|
    ensures Reach(b, i, extra) <= Reach(d, i, extra)
    decreases |b| - i
  {
    if i < |b| {
      if b[i] == '%' {
        if i + 2 < |b| && IsHexDigit(b[i + 1]) && IsHexDigit(b[i + 2]) {
          ReachGrows(b, d, i + 3, extra);
        }
      } else if Allowed(extra, b[i]) {
        ReachGrows(b, d, i + 1, extra);
      }
    }
  }

  /** What a run has passed is a text of the grammar. */
  lemma {:induction false} ReachIsText(b: Bytes, i: nat, extra: string)
    requires i <= |b| && '%' !in extra
    ensures Text(extra, b[i..Reach(b, i, extra)])
    decreases |b| - i
  {
    hide Text;
    var j := Reach(b, i, extra);
    if i == j {
      EmptyText(extra);
      assert b[i..j] == [];
    } else {
      ReachIsText(b, if b[i] == '%' then i + 3 else i + 1, extra);
      TextStep(extra, b, i, j);
    }
  }

  /** Cut off where it got, the run ends with the data. */
  lemma {:induction false} RunToReach(b: Bytes, i: nat, j: nat, extra: string)
    requires i <= j <= |b| && Reach(b, i, extra) == j
    ensures Run(b[..j], i, extra) == Stop(j)
    decreases |b| - i
  {
    if i < j {
      RunToReach(b, if b[i] == '%' then i + 3 else i + 1, j, extra);
    }
  }

  /** Cut off in front of a character that is part of no triplet, it ends there. */
  lemma {:induction false} RunToHere(b: Bytes, i: nat, j: nat, extra: string)
    requires i <= j < |b| && j < Reach(b, i, extra) && !IsHexDigit(b[j])
    ensures Run(b[..j], i, extra) == Stop(j)
    decreases |b| - i
  {
    if i < j {
      RunToHere(b, if b[i] == '%' then i + 3 else i + 1, j, extra);
    }
  }

  /** A "%" behind the last character cuts the run off. */
  lemma {:induction false} PercentCutsRun(b: Bytes, i: nat, extra: string)
    requires i <= |b| && Run(b, i, extra) == Stop(|b|)
    ensures Run(b + "%", i, extra).Cut?
    decreases |b| - i
  {
    if i < |b| {
      PercentCutsRun(b, if b[i] == '%' then i + 3 else i + 1, extra);
    }
  }

  /** A run over plain characters goes where they end. */
  lemma {:induction false} RunOver(b: Bytes, i: nat, j: nat, extra: string)
    requires i <= j <= |b| && forall k | i <= k < j :: b[k] != '%' && Allowed(extra, b[k])
    requires j < |b| ==> b[j] != '%' && !Allowed(extra, b[j])
    ensures Run(b, i, extra) == Stop(j)
    decreases j - i
  {
    if i < j {
      RunOver(b, i + 1, j, extra);
    }
  }

  /** A run goes on behind what ended with the data. */
  lemma {:induction false} RunGoesOn(b: Bytes, d: Bytes, i: nat, extra: string)
    requires b <= d && i <= |b| && Run(b, i, extra) == Stop(|b|)
    ensures Run(d, i, extra) == Run(d, |b|, extra)
    decreases |b| - i
  {
    if i < |b| {
      RunGoesOn(b, d, if b[i] == '%' then i + 3 else i + 1, extra);
    }
  }
}
