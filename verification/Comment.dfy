/**
 Nested comments (section 5.6.5 of RFC 9110): the loop with its depth counter against the recursive grammar.
 */
module Comment {
  import opened Octets
  import opened HttpText

  /** What stands between the parentheses of a comment. */
  datatype Items =
    | Nothing
    | Text(c: char, rest: Items)
    | QuotedPair(c: char, rest: Items)
    | Nested(inner: Items, rest: Items)

  predicate IsQuotable(c: char) { IsOws(c) || IsVchar(c) || IsObsText(c) }

  /** *( ctext / quoted-pair / comment ) */
  predicate IsWellFormed(t: Items) {
    match t
    case Nothing => true
    case Text(c, rest) => IsCtext(c) && IsWellFormed(rest)
    case QuotedPair(c, rest) => IsQuotable(c) && IsWellFormed(rest)
    case Nested(inner, rest) => IsWellFormed(inner) && IsWellFormed(rest)
  }

  function Yield(t: Items): string {
    match t
    case Nothing => ""
    case Text(c, rest) => [c] + Yield(rest)
    case QuotedPair(c, rest) => ['\\', c] + Yield(rest)
    case Nested(inner, rest) => "(" + Yield(inner) + (")" + Yield(rest))
  }

  /** "(" items ")" */
  function CommentText(t: Items): string { "(" + Yield(t) + ")" }

  ghost predicate IsComment(s: string) { exists t :: IsWellFormed(t) && CommentText(t) == s }

  /** How many characters it takes until `depth` open parentheses are closed, if that happens. */
  function Close(s: string, depth: nat): (n: Option<nat>)
    requires depth > 0
    ensures n.Some? ==> 0 < n.value <= |s|
    decreases |s|
  {
    if s == [] then None
    else if s[0] == '\\' then if |s| >= 2 && IsQuotable(s[1]) then Plus(2, Close(s[2..], depth)) else None
    else if s[0] == '(' then Plus(1, Close(s[1..], depth + 1))
    else if s[0] == ')' then if depth == 1 then Some(1) else Plus(1, Close(s[1..], depth - 1))
    else if IsCtext(s[0]) then Plus(1, Close(s[1..], depth))
    else None
  }

  function Plus(k: nat, n: Option<nat>): Option<nat> { if n.Some? then Some(k + n.value) else None }

  /** One turn of the loop. */
  lemma CloseUnfolds(sv: string, i: nat, depth: nat)
    requires i < |sv| && depth > 0
    ensures Close(sv[i..], depth) ==
            if sv[i] == '\\' then if i + 1 < |sv| && IsQuotable(sv[i + 1]) then Plus(2, Close(sv[i + 2..], depth)) else None
            else if sv[i] == '(' then Plus(1, Close(sv[i + 1..], depth + 1))
            else if sv[i] == ')' then if depth == 1 then Some(1) else Plus(1, Close(sv[i + 1..], depth - 1))
            else if IsCtext(sv[i]) then Plus(1, Close(sv[i + 1..], depth))
            else None
  {
    var s := sv[i..];
    assert s[1..] == sv[i + 1..];
    if |s| >= 2 {
      assert s[2..] == sv[i + 2..];
    }
  }

  lemma CloseOnFront(front: string, s: string, depth: nat)
    requires depth > 0 && front != []
    ensures IsCtext(front[0]) && |front| == 1 ==> Close(front + s, depth) == Plus(1, Close(s, depth))
    ensures |front| == 2 && front[0] == '\\' && IsQuotable(front[1]) ==> Close(front + s, depth) == Plus(2, Close(s, depth))
    ensures front == "(" ==> Close(front + s, depth) == Plus(1, Close(s, depth + 1))
    ensures front == ")" && depth > 1 ==> Close(front + s, depth) == Plus(1, Close(s, depth - 1))
  {
    hide Close;
    var t := front + s;
    CloseUnfolds(t, 0, depth);
    assert t[0..] == t && t[|front|..] == s;
  }

  /** What the first item of a list yields stands in front. */
  lemma SimpleApart(t: Items, behind: string)
    requires t.Text? || t.QuotedPair?
    ensures Yield(t) + behind == Front(t) + (Yield(t.rest) + behind) && |Yield(t)| == |Front(t)| + |Yield(t.rest)|
  {
    Regroup("", Front(t), Yield(t.rest), behind);
  }

  function Front(t: Items): string
    requires t.Text? || t.QuotedPair?
  {
    if t.Text? then [t.c] else ['\\', t.c]
  }

  lemma NestedApart(t: Items, behind: string)
    requires t.Nested?
    ensures Yield(t) + behind == "(" + (Yield(t.inner) + (")" + (Yield(t.rest) + behind)))
    ensures |Yield(t)| == 2 + |Yield(t.inner)| + |Yield(t.rest)|
  {
    Regroup("(", Yield(t.inner), ")" + Yield(t.rest), behind);
    Regroup("", ")", Yield(t.rest), behind);
  }

  lemma Regroup(a: string, b: string, c: string, d: string)
    ensures a + b + c + d == a + (b + (c + d))
  {
  }

  /** Items leave the depth as it was. */
  lemma {:induction false} ItemsAreSkipped(t: Items, rest: string, depth: nat)
    requires IsWellFormed(t) && depth > 0
    ensures Close(Yield(t) + rest, depth) == Plus(|Yield(t)|, Close(rest, depth))
    decreases t
  {
    hide Close, IsCtext, IsQuotable, Yield;
    match t {
      case Nothing =>
        YieldNothing(rest);
      case Text(c, more) =>
        SimpleApart(t, rest);
        ItemsAreSkipped(more, rest, depth);
        CloseOnFront([c], Yield(more) + rest, depth);
      case QuotedPair(c, more) =>
        SimpleApart(t, rest);
        ItemsAreSkipped(more, rest, depth);
        CloseOnFront(['\\', c], Yield(more) + rest, depth);
      case Nested(inner, more) =>
        NestedApart(t, rest);
        var behind := Yield(more) + rest;
        ItemsAreSkipped(more, rest, depth);
        CloseOnFront(")", behind, depth + 1);
        ItemsAreSkipped(inner, ")" + behind, depth + 1);
        CloseOnFront("(", Yield(inner) + (")" + behind), depth);
    }
  }

  lemma Taken(s: string, n: nat, k: nat)
    requires n <= |s| && k <= |s| - n
    ensures s[..n + k] == s[..n] + s[n..][..k] && s[n + k..] == s[n..][k..]
  {
  }

  lemma SimpleItem(s: string, n: nat, k: nat, t: Items)
    requires n <= |s| && k <= |s| - n && (t.Text? || t.QuotedPair?)
    requires s[n..][..k] == Yield(t.rest) + ")"
    requires s[..n] == Front(t)
    ensures s[..n + k] == Yield(t) + ")" && s[n + k..] == s[n..][k..]
  {
    hide Yield, Front;
    Taken(s, n, k);
    SimpleApart(t, ")");
  }

  lemma NestedItem(s: string, k: nat, j: nat, t: Items)
    requires 0 < |s| && k < |s| && j < |s| - k && s[0] == '(' && t.Nested?
    requires s[1..][..k] == Yield(t.inner) + ")" && s[k + 1..][..j] == Yield(t.rest) + ")"
    ensures s[..k + 1 + j] == Yield(t) + ")" && s[k + 1 + j..] == s[k + 1..][j..] && s[k + 1..] == s[1..][k..]
  {
    hide Yield;
    Taken(s, 1, k);
    Taken(s, k + 1, j);
    NestedApart(t, ")");
    assert s[..k + 1 + j] == "(" + (Yield(t.inner) + ")") + (Yield(t.rest) + ")");
  }

  /** What is skipped up to the first parenthesis that closes more than it opened is a list of items. */
  lemma {:induction false} SkippedAreItems(s: string, depth: nat) returns (t: Items, m: nat)
    requires depth > 0 && Close(s, depth).Some?
    ensures IsWellFormed(t) && m <= Close(s, depth).value && s[..m] == Yield(t) + ")"
    ensures if depth == 1 then m == Close(s, depth).value
            else Close(s, depth) == Plus(m, Close(s[m..], depth - 1))
    decreases |s|
  {
    hide Close, IsCtext, IsQuotable, Yield;
    NothingCloses(depth);
    assert s[0..] == s;
    CloseUnfolds(s, 0, depth);
    if s[0] == ')' {
      t, m := Nothing, 1;
      YieldNothing("");
    } else if s[0] == '(' {
      var inner, k := SkippedAreItems(s[1..], depth + 1);
      assert s[1..][k..] == s[k + 1..];
      var more, j := SkippedAreItems(s[k + 1..], depth);
      t, m := Nested(inner, more), k + 1 + j;
      NestedItem(s, k, j, t);
    } else {
      var n := if s[0] == '\\' then 2 else 1;
      var more, k := SkippedAreItems(s[n..], depth);
      t, m := if n == 2 then QuotedPair(s[1], more) else Text(s[0], more), n + k;
      assert s[..n] == if n == 2 then ['\\', s[1]] else [s[0]];
      SimpleItem(s, n, k, t);
    }
  }

  lemma YieldNothing(behind: string)
    ensures Yield(Nothing) == "" && Yield(Nothing) + behind == behind
  {
  }

  /** A comment at the front is found, and it is the only prefix that is one. */
  lemma CommentIsFound(sv: string, k: nat)
    requires k <= |sv| && IsComment(sv[..k])
    ensures sv[0] == '(' && Close(sv[1..], 1) == Some(k - 1)
  {
    var t :| IsWellFormed(t) && CommentText(t) == sv[..k];
    var rest := ")" + sv[k..];
    assert sv == sv[..k] + sv[k..];
    assert sv[1..] == Yield(t) + rest;
    ItemsAreSkipped(t, rest, 1);
  }

  lemma FoundIsComment(sv: string)
    requires sv != [] && sv[0] == '(' && Close(sv[1..], 1).Some?
    ensures IsComment(sv[..Close(sv[1..], 1).value + 1])
  {
    var t, m := SkippedAreItems(sv[1..], 1);
    assert sv[..m + 1] == [sv[0]] + sv[1..][..m];
    assert CommentText(t) == sv[..m + 1];
  }

  /** The prefix that is a comment, of which there is at most one; empty if there is none. */
  method ConsumeComment(sv: string) returns (comment: string)
    ensures comment <= sv
    ensures comment != [] ==> IsComment(comment)
    ensures forall k | 0 <= k <= |sv| && IsComment(sv[..k]) :: comment == sv[..k]
  {
    hide IsComment, Close;
    forall k | 0 <= k <= |sv| && IsComment(sv[..k]) ensures sv != [] && sv[0] == '(' && Close(sv[1..], 1) == Some(k - 1) {
      CommentIsFound(sv, k);
      CommentIsNonempty(sv[..k]);
    }
    if sv == [] || sv[0] != '(' {
      return "";
    }
    var i, depth := 1, 1;
    while i < |sv|
      invariant 1 <= i <= |sv| && depth > 0
      invariant Close(sv[1..], 1) == Plus(i - 1, Close(sv[i..], depth))
    {
      CloseUnfolds(sv, i, depth);
      var c := sv[i];
      if c == '\\' {
        if i + 1 >= |sv| {
          return "";
        }
        var escaped := sv[i + 1];
        if !IsOws(escaped) && !IsVchar(escaped) && !IsObsText(escaped) {
          return "";
        }
        i := i + 2;
        continue;
      }
      if c == '(' {
        depth := depth + 1;
      } else if c == ')' {
        depth := depth - 1;
        if depth == 0 {
          FoundIsComment(sv);
          return sv[..i + 1];
        }
      } else if !IsCtext(c) {
        return "";
      }
      i := i + 1;
    }
    NothingCloses(depth);
    assert sv[i..] == "";
    return "";
  }

  lemma CommentIsNonempty(s: string)
    requires IsComment(s)
    ensures s != []
  {
  }

  lemma NothingCloses(depth: nat)
    requires depth > 0
    ensures Close("", depth).None?
  {
  }
}
