/**
 Matching a path against a route pattern, segment by segment.
 */
module RoutePattern {
  import opened Octets

  // ---- segments

  /** The pieces between the slashes; there is always one. */
  function Split(s: string): (segments: seq<string>)
    ensures segments != []
    decreases |s|
  {
    var i := First(s, '/', 0);
    if i == |s| then [s] else [s[..i]] + Split(s[i + 1..])
  }

  function Join(segments: seq<string>): string
    requires segments != []
  {
    if |segments| == 1 then segments[0] else segments[0] + "/" + Join(segments[1..])
  }

  lemma {:induction false} JoinSplit(s: string)
    ensures Join(Split(s)) == s
    decreases |s|
  {
    var i := First(s, '/', 0);
    if i < |s| {
      JoinSplit(s[i + 1..]);
      var rest := Split(s[i + 1..]);
      assert ([s[..i]] + rest)[1..] == rest;
      assert s == s[..i] + "/" + s[i + 1..];
    }
  }

  // ---- what a pattern says

  /** ":name" or ":name:" stands for any segment. */
  predicate IsParameter(segment: string) { segment != [] && segment[0] == ':' }

  function NameOf(segment: string): string
    requires IsParameter(segment)
  {
    var name := segment[1..];
    if name != [] && name[|name| - 1] == ':' then name[..|name| - 1] else name
  }

  predicate SegmentMatches(pattern: string, segment: string) {
    pattern != [] && segment != [] && if IsParameter(pattern) then NameOf(pattern) != [] else pattern == segment
  }

  predicate AllMatch(patterns: seq<string>, segments: seq<string>) {
    |patterns| == |segments| && forall i | 0 <= i < |patterns| :: SegmentMatches(patterns[i], segments[i])
  }

  /** A trailing slash is taken off both or neither, then each may begin with a slash. */
  function Core(s: string): string {
    var t := if s != [] && s[|s| - 1] == '/' then s[..|s| - 1] else s;
    if t != [] && t[0] == '/' then t[1..] else t
  }

  predicate EndsInSlash(s: string) { s != [] && s[|s| - 1] == '/' }

  predicate IsBare(s: string) { s == "" || s == "/" }

  /** When a path matches a pattern. */
  predicate Matches(pattern: string, path: string) {
    if IsBare(pattern) || IsBare(path) then pattern == path
    else EndsInSlash(pattern) == EndsInSlash(path) && AllMatch(Split(Core(pattern)), Split(Core(path)))
  }

  /** The parameters of the pattern, with the segments they stand for. */
  function Captures(patterns: seq<string>, segments: seq<string>): seq<(string, string)>
    requires |patterns| == |segments|
  {
    if patterns == [] then []
    else (if IsParameter(patterns[0]) then [(NameOf(patterns[0]), segments[0])] else [])
         + Captures(patterns[1..], segments[1..])
  }

  function Parameters(pattern: string, path: string): seq<(string, string)>
    requires Matches(pattern, path)
  {
    if IsBare(pattern) || IsBare(path) then [] else Captures(Split(Core(pattern)), Split(Core(path)))
  }

  /** The pattern with values in place of its parameters. */
  function Fill(patterns: seq<string>, values: seq<(string, string)>): seq<string> {
    if patterns == [] then []
    else if IsParameter(patterns[0]) && values != [] then [values[0].1] + Fill(patterns[1..], values[1..])
    else [patterns[0]] + Fill(patterns[1..], values)
  }

  lemma {:induction false} FillCaptures(patterns: seq<string>, segments: seq<string>)
    requires AllMatch(patterns, segments)
    ensures Fill(patterns, Captures(patterns, segments)) == segments
    decreases |patterns|
  {
    if patterns != [] {
      assert SegmentMatches(patterns[0], segments[0]);
      forall i | 0 <= i < |patterns| - 1 ensures SegmentMatches(patterns[1..][i], segments[1..][i]) {
        assert SegmentMatches(patterns[i + 1], segments[i + 1]);
      }
      FillCaptures(patterns[1..], segments[1..]);
      var rest := Captures(patterns[1..], segments[1..]);
      if IsParameter(patterns[0]) {
        assert ([(NameOf(patterns[0]), segments[0])] + rest)[1..] == rest;
      } else {
        assert [] + rest == rest;
      }
      assert segments == [segments[0]] + segments[1..];
    }
  }

  /** Putting the captured values back into the pattern gives the path again, up to the slashes around it. */
  lemma ParametersRebuildPath(pattern: string, path: string)
    requires Matches(pattern, path) && !IsBare(pattern)
    ensures var filled := Fill(Split(Core(pattern)), Parameters(pattern, path));
            filled != [] && Join(filled) == Core(path)
  {
    FillCaptures(Split(Core(pattern)), Split(Core(path)));
    JoinSplit(Core(path));
  }

  // ---- the paths that match are the instances of the pattern

  /** A piece of text between slashes. */
  predicate IsSegment(s: string) { s != "" && '/' !in s }

  /** The names of the parameters, in order. */
  function Names(patterns: seq<string>): seq<string> {
    if patterns == [] then []
    else (if IsParameter(patterns[0]) then [NameOf(patterns[0])] else []) + Names(patterns[1..])
  }

  /** No segment is empty, and no parameter is without a name. */
  predicate IsUsable(patterns: seq<string>) {
    forall i | 0 <= i < |patterns| :: IsSegment(patterns[i]) && (IsParameter(patterns[i]) ==> NameOf(patterns[i]) != "")
  }

  /** One segment for every parameter, under its name. */
  predicate AreFor(values: seq<(string, string)>, names: seq<string>) {
    |values| == |names| && forall i | 0 <= i < |values| :: values[i].0 == names[i] && IsSegment(values[i].1)
  }

  /** A parameter is written ":name" or ":name:". */
  lemma NameIsRead(name: string)
    requires name == "" || name[|name| - 1] != ':'
    ensures NameOf(":" + name) == name && (name != "" ==> NameOf(":" + name + ":") == name)
  {
    assert (":" + name)[1..] == name;
    assert (":" + name + ":")[1..] == name + ":" && (name + ":")[..|name|] == name;
  }

  /** Slashes around a pattern or a path do not count. */
  lemma CoreIs(s: string)
    requires s != "" && s[0] != '/' && s[|s| - 1] != '/'
    ensures Core(s) == Core("/" + s) == Core(s + "/") == Core("/" + s + "/") == s
  {
    assert ("/" + s + "/")[..|s| + 1] == "/" + s && ("/" + s)[1..] == s && (s + "/")[..|s|] == s;
  }

  lemma {:induction false} SplitIsApart(s: string)
    ensures forall i | 0 <= i < |Split(s)| :: '/' !in Split(s)[i]
    decreases |s|
  {
    var i := First(s, '/', 0);
    if i < |s| {
      SplitIsApart(s[i + 1..]);
    }
    assert '/' !in s[..i];
    assert i == |s| ==> s[..i] == s;
  }

  lemma {:induction false} SplitJoin(segments: seq<string>)
    requires segments != [] && forall i | 0 <= i < |segments| :: '/' !in segments[i]
    ensures Split(Join(segments)) == segments
    decreases |segments|
  {
    hide First;
    var s, n := Join(segments), |segments[0]|;
    assert s[..n] == segments[0];
    assert forall k | 0 <= k < n :: s[k] == segments[0][k];
    assert if |segments| == 1 then |s| == n else s[n] == '/' && s[n + 1..] == Join(segments[1..]);
    assert First(s, '/', 0) == n;
    SplitOnce(s);
    if |segments| > 1 {
      SplitJoin(segments[1..]);
    }
  }

  lemma {:induction false} FillMatches(patterns: seq<string>, values: seq<(string, string)>)
    requires IsUsable(patterns) && AreFor(values, Names(patterns))
    ensures AllMatch(patterns, Fill(patterns, values)) && Captures(patterns, Fill(patterns, values)) == values
    ensures forall i | 0 <= i < |Fill(patterns, values)| :: IsSegment(Fill(patterns, values)[i])
    decreases |patterns|
  {
    hide NameOf;
    if patterns != [] {
      var p, rest := patterns[0], patterns[1..];
      assert IsSegment(p) && IsUsable(rest) && patterns == [p] + rest;
      if IsParameter(p) {
        assert Names(patterns)[1..] == Names(rest) && Names(patterns)[0] == NameOf(p);
        var v := values[0];
        FillMatches(rest, values[1..]);
        assert Fill(patterns, values) == [v.1] + Fill(rest, values[1..]);
        AllMatchCons(p, rest, v.1, Fill(rest, values[1..]));
        assert v == (NameOf(p), v.1) && values == [v] + values[1..];
      } else {
        FillMatches(rest, values);
        AllMatchCons(p, rest, p, Fill(rest, values));
      }
    }
  }

  lemma {:induction false} CapturesAreFor(patterns: seq<string>, segments: seq<string>)
    requires AllMatch(patterns, segments) && forall i | 0 <= i < |segments| :: '/' !in segments[i]
    ensures AreFor(Captures(patterns, segments), Names(patterns))
    decreases |patterns|
  {
    hide NameOf;
    if patterns != [] {
      assert SegmentMatches(patterns[0], segments[0]);
      assert patterns == [patterns[0]] + patterns[1..] && segments == [segments[0]] + segments[1..];
      AllMatchCons(patterns[0], patterns[1..], segments[0], segments[1..]);
      CapturesAreFor(patterns[1..], segments[1..]);
    }
  }

  /** The path is the pattern with values in place of its parameters, up to a slash in front. */
  predicate IsInstance(pattern: string, values: seq<(string, string)>, path: string) {
    if IsBare(pattern) || IsBare(path) then pattern == path && values == []
    else
      var patterns := Split(Core(pattern));
      && EndsInSlash(pattern) == EndsInSlash(path) && IsUsable(patterns) && AreFor(values, Names(patterns))
      && Core(path) == Join(Fill(patterns, values))
  }

  /** A path matches exactly when it is an instance of the pattern, and the parameters are the values of which. */
  lemma MatchesInstances(pattern: string, path: string, values: seq<(string, string)>)
    ensures IsInstance(pattern, values, path) <==> Matches(pattern, path) && Parameters(pattern, path) == values
  {
    hide AllMatch, NameOf, Core, Split, Join, IsParameter;
    if IsBare(pattern) || IsBare(path) {
      return;
    }
    var patterns, segments := Split(Core(pattern)), Split(Core(path));
    SplitIsApart(Core(path));
    SplitIsApart(Core(pattern));
    if IsInstance(pattern, values, path) {
      FillMatches(patterns, values);
      FillIsNotEmpty(patterns, values);
      SplitJoin(Fill(patterns, values));
    }
    if Matches(pattern, path) {
      CapturesAreFor(patterns, segments);
      FillCaptures(patterns, segments);
      JoinSplit(Core(path));
      MatchedIsUsable(patterns, segments);
    }
  }

  lemma FillIsNotEmpty(patterns: seq<string>, values: seq<(string, string)>)
    requires patterns != []
    ensures Fill(patterns, values) != []
  {
  }

  lemma MatchedIsUsable(patterns: seq<string>, segments: seq<string>)
    requires AllMatch(patterns, segments) && forall i | 0 <= i < |patterns| :: '/' !in patterns[i]
    ensures IsUsable(patterns)
  {
    forall i | 0 <= i < |patterns| ensures IsSegment(patterns[i]) && (IsParameter(patterns[i]) ==> NameOf(patterns[i]) != "") {
      assert SegmentMatches(patterns[i], segments[i]);
    }
  }

  // ---- the loop

  /** What is left of pattern and path, each with at most one slash in front, matches. */
  predicate RestMatches(pattern: string, path: string) {
    if pattern == [] || path == [] then pattern == path
    else AllMatch(Split(Unslashed(pattern)), Split(Unslashed(path)))
  }

  function Unslashed(s: string): string { if s != [] && s[0] == '/' then s[1..] else s }

  function Values(patterns: seq<string>, segments: seq<string>): seq<(string, string)> {
    if AllMatch(patterns, segments) then Captures(patterns, segments) else []
  }

  function RestValues(pattern: string, path: string): seq<(string, string)> {
    if pattern == [] || path == [] then [] else Values(Split(Unslashed(pattern)), Split(Unslashed(path)))
  }

  lemma AllMatchCons(p: string, ps: seq<string>, q: string, qs: seq<string>)
    ensures AllMatch([p] + ps, [q] + qs) <==> SegmentMatches(p, q) && AllMatch(ps, qs)
    ensures AllMatch([p] + ps, [q] + qs) ==>
              Captures([p] + ps, [q] + qs) == (if IsParameter(p) then [(NameOf(p), q)] else []) + Captures(ps, qs)
  {
    hide SegmentMatches;
    var a, b := [p] + ps, [q] + qs;
    assert a[1..] == ps && b[1..] == qs;
    if AllMatch(a, b) {
      assert SegmentMatches(a[0], b[0]);
      forall i | 0 <= i < |ps| ensures SegmentMatches(ps[i], qs[i]) {
        assert SegmentMatches(a[i + 1], b[i + 1]);
      }
    }
    if SegmentMatches(p, q) && AllMatch(ps, qs) {
      forall i | 0 <= i < |a| ensures SegmentMatches(a[i], b[i]) {
        if i > 0 {
          assert SegmentMatches(ps[i - 1], qs[i - 1]);
        }
      }
    }
  }

  lemma SlashFrom(s: string, from: nat)
    requires from <= |s|
    ensures First(s[from..], '/', 0) == First(s, '/', from) - from
  {
    var t := s[from..];
    var i, end := First(t, '/', 0), First(s, '/', from);
    assert forall k | 0 <= k < |t| :: t[k] == s[from + k];
    if i < |t| {
      assert s[from + i] == '/';
    }
    if end < |s| {
      assert t[end - from] == '/';
    }
  }

  lemma SplitOnce(s: string)
    ensures var end := First(s, '/', 0);
            Split(s) == if end == |s| then [s] else [s[..end]] + Split(s[end + 1..])
  {
    hide First;
  }

  lemma SplitAt(s: string, from: nat)
    requires from <= |s|
    ensures var end := First(s, '/', from);
            Split(s[from..]) == if end == |s| then [s[from..]] else [s[from..end]] + Split(s[end + 1..])
  {
    hide First, Split;
    SlashFrom(s, from);
    SplitOnce(s[from..]);
    var end := First(s, '/', from);
    if end < |s| {
      assert s[from..][..end - from] == s[from..end] && s[from..][end - from + 1..] == s[end + 1..];
    }
  }

  /** One turn of the loop: the segments in front of the next slashes, and what is left behind them. */
  lemma RestStep(p: string, q: string, i: nat, j: nat)
    requires i <= |p| && j <= |q|
    ensures var pe, qe := First(p, '/', i), First(q, '/', j);
            var one := SegmentMatches(p[i..pe], q[j..qe]);
            var all := AllMatch(Split(p[i..]), Split(q[j..]));
            && (pe == |p| && qe == |q| ==> (all <==> one))
            && ((pe == |p|) != (qe == |q|) ==> !all)
            && (pe < |p| && qe < |q| ==> (all <==> one && AllMatch(Split(p[pe + 1..]), Split(q[qe + 1..]))))
            && (all ==> Values(Split(p[i..]), Split(q[j..])) ==
                        (if IsParameter(p[i..pe]) then [(NameOf(p[i..pe]), q[j..qe])] else [])
                        + if pe < |p| && qe < |q| then Values(Split(p[pe + 1..]), Split(q[qe + 1..])) else [])
  {
    hide First, SegmentMatches, AllMatch, Captures;
    assert p[i..|p|] == p[i..] && q[j..|q|] == q[j..];
    var pe, qe := First(p, '/', i), First(q, '/', j);
    SplitAt(p, i);
    SplitAt(q, j);
    NothingMatches();
    var ps := if pe == |p| then [] else Split(p[pe + 1..]);
    var qs := if qe == |q| then [] else Split(q[qe + 1..]);
    assert [p[i..pe]] + ps == Split(p[i..]) && [q[j..qe]] + qs == Split(q[j..]);
    AllMatchCons(p[i..pe], ps, q[j..qe], qs);
    SameLength(ps, qs);
  }

  lemma NothingMatches()
    ensures AllMatch([], []) && Captures([], []) == []
  {
  }

  lemma SameLength(ps: seq<string>, qs: seq<string>)
    ensures AllMatch(ps, qs) ==> |ps| == |qs|
  {
  }

  /** The loop, behind the checks on the slashes at the end. */
  method MatchSegments(p: string, q: string) returns (ok: bool, parameters: seq<(string, string)>)
    requires p != "" && q != ""
    ensures ok <==> RestMatches(p, q)
    ensures ok ==> parameters == RestValues(p, q)
  {
    hide First, SegmentMatches, RestMatches, RestValues, NameOf;
    parameters := [];
    var patternPos, pathPos := 0, 0;
    assert p[0..] == p && q[0..] == q && parameters + RestValues(p, q) == RestValues(p, q);
    while patternPos < |p| && pathPos < |q|
      invariant patternPos <= |p| && pathPos <= |q|
      invariant RestMatches(p, q) <==> RestMatches(p[patternPos..], q[pathPos..])
      invariant RestMatches(p, q) ==> RestValues(p, q) == parameters + RestValues(p[patternPos..], q[pathPos..])
      decreases |p| - patternPos
    {
      ghost var i0, j0 := patternPos, pathPos;
      if p[patternPos] == '/' {
        patternPos := patternPos + 1;
      }
      if q[pathPos] == '/' {
        pathPos := pathPos + 1;
      }
      var patternEnd, pathEnd := First(p, '/', patternPos), First(q, '/', pathPos);
      var patternSegment, pathSegment := p[patternPos..patternEnd], q[pathPos..pathEnd];
      RestTurn(p, q, i0, j0, patternPos, pathPos);
      SegmentCheck(patternSegment, pathSegment);
      if patternSegment == "" || pathSegment == "" {
        return false, parameters;
      }
      if patternSegment[0] == ':' {
        var name := NameOf(patternSegment);
        if name == "" {
          return false, parameters;
        }
        parameters := parameters + [(name, pathSegment)];
      } else if patternSegment != pathSegment {
        return false, parameters;
      }
      assert parameters == parameters + [];
      if patternEnd == |p| || pathEnd == |q| {
        return patternEnd == |p| && pathEnd == |q|, parameters;
      }
      patternPos, pathPos := patternEnd, pathEnd;
    }
    RestOfNothing(p[patternPos..], q[pathPos..]);
    return patternPos == |p| && pathPos == |q|, parameters;
  }

  lemma RestOfNothing(p: string, q: string)
    requires p == "" || q == ""
    ensures RestMatches(p, q) <==> p == "" && q == ""
    ensures RestValues(p, q) == []
  {
  }

  /** `i` and `j` are where the segments begin that stand at `i0` and `j0`. */
  lemma RestTurn(p: string, q: string, i0: nat, j0: nat, i: nat, j: nat)
    requires i0 < |p| && j0 < |q|
    requires i == (if p[i0] == '/' then i0 + 1 else i0) && j == (if q[j0] == '/' then j0 + 1 else j0)
    ensures var pe, qe := First(p, '/', i), First(q, '/', j);
            var one := SegmentMatches(p[i..pe], q[j..qe]);
            var all := RestMatches(p[i0..], q[j0..]);
            && (pe == |p| && qe == |q| ==> (all <==> one))
            && ((pe == |p|) != (qe == |q|) ==> !all)
            && (pe < |p| && qe < |q| ==> (all <==> one && RestMatches(p[pe..], q[qe..])))
            && (all ==> RestValues(p[i0..], q[j0..]) ==
                        (if IsParameter(p[i..pe]) then [(NameOf(p[i..pe]), q[j..qe])] else [])
                        + if pe < |p| && qe < |q| then RestValues(p[pe..], q[qe..]) else [])
  {
    hide First, SegmentMatches, AllMatch, Values, Split, NameOf, Unslashed;
    UnslashedAt(p, i0);
    UnslashedAt(q, j0);
    RestStep(p, q, i, j);
    var pe, qe := First(p, '/', i), First(q, '/', j);
    if pe < |p| && qe < |q| {
      UnslashedAt(p, pe);
      UnslashedAt(q, qe);
    }
  }

  lemma UnslashedAt(s: string, i: nat)
    requires i < |s|
    ensures Unslashed(s[i..]) == if s[i] == '/' then s[i + 1..] else s[i..]
  {
  }

  /** Succeeds exactly when the path matches the pattern, with the values of its parameters. */
  method GetParameters(pattern: string, path: string) returns (ok: bool, parameters: seq<(string, string)>)
    ensures ok <==> Matches(pattern, path)
    ensures ok ==> parameters == Parameters(pattern, path)
  {
    hide First, AllMatch, Values, Split, SegmentMatches;
    ParametersAreValues(pattern, path);
    parameters := [];
    if pattern == "" || path == "" {
      return pattern == path, parameters;
    }
    if pattern == "/" || path == "/" {
      return pattern == path, parameters;
    }
    if EndsInSlash(pattern) != EndsInSlash(path) {
      return false, parameters;
    }
    var p, q := pattern, path;
    assert p != "" && q != "";
    if EndsInSlash(pattern) {
      p, q := p[..|p| - 1], q[..|q| - 1];
    }
    ok, parameters := MatchSegments(p, q);
  }

  lemma ParametersAreValues(pattern: string, path: string)
    ensures Matches(pattern, path) ==>
              Parameters(pattern, path) ==
              if IsBare(pattern) || IsBare(path) then [] else Values(Split(Core(pattern)), Split(Core(path)))
  {
    hide AllMatch, Captures, Split;
    if Matches(pattern, path) {
      SameLength(Split(Core(pattern)), Split(Core(path)));
    }
  }

  lemma SegmentCheck(p: string, q: string)
    ensures SegmentMatches(p, q) <==> p != "" && q != "" && if p[0] == ':' then NameOf(p) != "" else p == q
  {
  }
}
