/**
 Choosing the handler of a request. Routes are kept per method in three tables, and the first that applies in
 the static table wins over the parametrised ones, those over the wildcards.
 */
module Router {
  import opened Octets
  import opened RoutePattern

  datatype Policy = Synchronous | Asynchronous

  /** Handlers are known by a number here. */
  datatype Route = Route(path: string, handler: nat, policy: Policy)

  /** The routes that were added for one method. */
  datatype Group = Group(name: Bytes, routes: seq<Route>)

  type Table = seq<Group>

  predicate HasNames(t: Table) { forall i, j | 0 <= i < j < |t| :: t[i].name != t[j].name }

  /** The routes of a method, in the order in which they were added. */
  function RoutesOf(t: Table, name: Bytes): seq<Route> {
    if t == [] then [] else if t[0].name == name then t[0].routes else RoutesOf(t[1..], name)
  }

  /** The first route that applies. */
  function FirstOf(routes: seq<Route>, applies: Route -> bool): (r: Option<Route>)
    ensures r.Some? ==> r.value in routes && applies(r.value)
    ensures r.None? ==> forall route | route in routes :: !applies(route)
  {
    if routes == [] then None
    else if applies(routes[0]) then Some(routes[0])
    else FirstOf(routes[1..], applies)
  }

  lemma {:induction false} FirstIsFirst(before: seq<Route>, route: Route, behind: seq<Route>, applies: Route -> bool)
    requires applies(route) && forall r | r in before :: !applies(r)
    ensures FirstOf(before + [route] + behind, applies) == Some(route)
    decreases |before|
  {
    var all := before + [route] + behind;
    if before != [] {
      assert all[1..] == before[1..] + [route] + behind;
      FirstIsFirst(before[1..], route, behind, applies);
    }
  }

  lemma {:induction false} FirstOfNone(routes: seq<Route>, applies: Route -> bool)
    requires forall r | r in routes :: !applies(r)
    ensures FirstOf(routes, applies).None?
  {
  }

  // ---- tables

  lemma {:induction false} RoutesAt(t: Table, i: nat)
    requires HasNames(t) && i < |t|
    ensures RoutesOf(t, t[i].name) == t[i].routes
    decreases |t|
  {
    if i > 0 {
      assert t[0].name != t[i].name;
      assert t[1..][i - 1] == t[i] && HasNames(t[1..]);
      RoutesAt(t[1..], i - 1);
    }
  }

  lemma {:induction false} NoRoutes(t: Table, name: Bytes)
    requires forall i | 0 <= i < |t| :: t[i].name != name
    ensures RoutesOf(t, name) == []
    decreases |t|
  {
    if t != [] {
      assert forall i | 0 <= i < |t| - 1 :: t[1..][i] == t[i + 1];
      NoRoutes(t[1..], name);
    }
  }

  /** Puts a route behind those of its method. */
  method AddTo(t: Table, name: Bytes, route: Route) returns (u: Table)
    requires HasNames(t)
    ensures HasNames(u)
    ensures RoutesOf(u, name) == RoutesOf(t, name) + [route]
    ensures forall other | other != name :: RoutesOf(u, other) == RoutesOf(t, other)
  {
    var i := 0;
    while i < |t|
      invariant i <= |t| && forall k | 0 <= k < i :: t[k].name != name
    {
      if t[i].name == name {
        u := t[i := Group(name, t[i].routes + [route])];
        RoutesAt(t, i);
        RoutesAt(u, i);
        forall other | other != name ensures RoutesOf(u, other) == RoutesOf(t, other) {
          OthersUnchanged(t, u, i, other);
        }
        return;
      }
      i := i + 1;
    }
    u := t + [Group(name, [route])];
    NoRoutes(t, name);
    RoutesAt(u, |t|);
    forall other | other != name ensures RoutesOf(u, other) == RoutesOf(t, other) {
      OthersAppended(t, u[|t|], other);
    }
  }

  lemma {:induction false} OthersUnchanged(t: Table, u: Table, i: nat, other: Bytes)
    requires |u| == |t| && i < |t| && t[i].name == u[i].name != other
    requires forall k | 0 <= k < |t| && k != i :: u[k] == t[k]
    ensures RoutesOf(u, other) == RoutesOf(t, other)
    decreases |t|
  {
    if i > 0 {
      OthersUnchanged(t[1..], u[1..], i - 1, other);
    } else {
      assert t[1..] == u[1..];
    }
  }

  lemma {:induction false} OthersAppended(t: Table, g: Group, other: Bytes)
    requires g.name != other
    ensures RoutesOf(t + [g], other) == RoutesOf(t, other)
    decreases |t|
  {
    if t != [] {
      assert (t + [g])[1..] == t[1..] + [g];
      OthersAppended(t[1..], g, other);
    } else {
      assert (t + [g])[1..] == [];
    }
  }

  // ---- which routes apply

  /** Whether the values fit the parameter types of a handler. */
  type Parses = (nat, seq<(string, string)>) -> bool

  /** A pattern that ends in an asterisk applies to every path that begins with what is in front of it. */
  predicate MatchesWildcardRoute(ro: string, pa: string)
  {
    ro != "" && ro[..|ro| - 1] <= pa
  }

  datatype Kind = Static | Parametrized | Wildcard

  /** Whether a route is for this path; in the pool nobody has looked at the values when it is `chosen`. */
  predicate Applies(kind: Kind, chosen: bool, route: Route, path: string, parses: Parses) {
    match kind
    case Static => route.path == path
    case Parametrized =>
      Matches(route.path, path)
      && ((chosen && route.policy.Asynchronous?) || parses(route.handler, Parameters(route.path, path)))
    case Wildcard => MatchesWildcardRoute(route.path, path)
  }

  /** A route that ends in an asterisk is for what is in front of it with anything behind. */
  lemma WildcardOnText(front: string, path: string)
    ensures MatchesWildcardRoute(front + "*", path) <==> exists rest :: path == front + rest
  {
    assert (front + "*")[..|front|] == front;
    if front <= path {
      assert path == front + path[|front|..];
    }
  }

  /** A pattern is for its instances; those whose values do not parse are found out at once only. */
  lemma PatternOnText(route: Route, path: string, parses: Parses)
    ensures Applies(Parametrized, false, route, path, parses) <==>
              exists values :: IsInstance(route.path, values, path) && parses(route.handler, values)
    ensures Applies(Parametrized, true, route, path, parses) <==>
              exists values :: IsInstance(route.path, values, path) && (route.policy.Asynchronous? || parses(route.handler, values))
  {
    hide Matches, Parameters, IsInstance, IsBare;
    forall values ensures IsInstance(route.path, values, path) <==>
        Matches(route.path, path) && Parameters(route.path, path) == values {
      MatchesInstances(route.path, path, values);
    }
  }

  function ParametersFor(kind: Kind, route: Route, path: string): seq<(string, string)> {
    if kind.Parametrized? && Matches(route.path, path) then Parameters(route.path, path) else []
  }

  lemma SendsOrNot(route: Route, path: string, parses: Parses)
    requires Applies(Parametrized, true, route, path, parses)
    ensures !Applies(Parametrized, false, route, path, parses) <==>
            route.policy.Asynchronous? && !parses(route.handler, ParametersFor(Parametrized, route, path))
  {
    hide Matches, Parameters;
  }

  method Check(kind: Kind, chosen: bool, route: Route, path: string, parses: Parses)
    returns (ok: bool, parameters: seq<(string, string)>)
    ensures ok <==> Applies(kind, chosen, route, path, parses)
    ensures ok ==> parameters == ParametersFor(kind, route, path)
  {
    hide Matches, Parameters;
    parameters := [];
    match kind {
      case Static => ok := route.path == path;
      case Wildcard => ok := MatchesWildcardRoute(route.path, path);
      case Parametrized =>
        ok, parameters := GetParameters(route.path, path);
        if ok && !(chosen && route.policy.Asynchronous?) {
          ok := parses(route.handler, parameters);
        }
    }
  }

  /** A route was found, with its parameters, and whether its response will be sent; or none, and the other methods
      go into the Allow field. */
  datatype MatchResult =
    | Matched(kind: Kind, route: Route, parameters: seq<(string, string)>, sends: bool)
    | NotFound
    | MethodNotAllowed(allow: seq<Bytes>, field: Bytes)

  /** The value of the Allow field. */
  function AllowText(names: seq<Bytes>): Bytes {
    if names == [] then ""
    else
      var front := AllowText(names[..|names| - 1]);
      (if front == "" then "" else front + ", ") + names[|names| - 1]
  }

  /** The elements of a list field: what stands between commas, without white space in front. */
  function Elements(text: string): seq<string>
    decreases |text|
  {
    var end := First(text, ',', 0);
    [Unspaced(text[..end])] + if end < |text| then Elements(text[end + 1..]) else []
  }

  function Unspaced(s: string): string {
    if s != "" && (s[0] == ' ' || s[0] == '\t') then Unspaced(s[1..]) else s
  }

  /** The value of the Allow field, from its front. */
  lemma {:induction false} AllowFromFront(names: seq<Bytes>)
    requires names != [] && forall i | 0 <= i < |names| :: names[i] != ""
    ensures AllowText(names) == names[0] + if |names| == 1 then "" else ", " + AllowText(names[1..])
    ensures AllowText(names) != ""
    decreases |names|
  {
    hide AllowText;
    var n := |names| - 1;
    AllowUnfolds(names);
    if n > 0 {
      var front, rest := names[..n], names[1..];
      AllowFromFront(front);
      AllowFromFront(rest);
      AllowUnfolds(rest);
      assert rest[..n - 1] == front[1..] && rest[n - 1] == names[n];
      if n > 1 {
        AllowFromFront(front[1..]);
        AllowRegroup(names[0], AllowText(front[1..]), names[n]);
      } else {
        NothingAllowed();
        assert rest[..0] == [] && AllowText(rest) == names[1] && AllowText(front) == names[0];
        assert names[0] + (", " + names[1]) == names[0] + ", " + names[1];
      }
    } else {
      NothingAllowed();
      assert names[..0] == [];
    }
  }

  lemma AllowUnfolds(names: seq<Bytes>)
    requires names != []
    ensures var front := AllowText(names[..|names| - 1]);
            AllowText(names) == (if front == "" then "" else front + ", ") + names[|names| - 1]
  {
  }

  lemma NothingAllowed()
    ensures AllowText([]) == ""
  {
  }

  lemma AllowRegroup(a: string, b: string, c: string)
    ensures (a + (", " + b)) + ", " + c == a + (", " + ((b + ", ") + c))
  {
  }

  predicate IsMethodName(s: string) { s != "" && ',' !in s && s[0] != ' ' && s[0] != '\t' }

  /** Reading the Allow field gives the methods, each once and in order. */
  lemma {:induction false} AllowIsRead(names: seq<Bytes>)
    requires names != [] && forall i | 0 <= i < |names| :: IsMethodName(names[i])
    ensures Elements(AllowText(names)) == names
    ensures Elements(" " + AllowText(names)) == names
    decreases |names|
  {
    hide AllowText, Elements;
    AllowFromFront(names);
    var s := AllowText(names);
    if |names| > 1 {
      AllowIsRead(names[1..]);
      assert s[|names[0]| + 1..] == " " + AllowText(names[1..]);
    }
    FirstIsTaken(s, names[0]);
  }

  lemma FirstIsTaken(s: string, name: Bytes)
    requires IsMethodName(name) && name <= s && (s == name || s[|name|] == ',')
    ensures Elements(s) == [name] + if s == name then [] else Elements(s[|name| + 1..])
    ensures Elements(" " + s) == Elements(s)
  {
    hide First, Unspaced, IsMethodName;
    FirstElement(s, name);
  }

  lemma FirstElement(s: string, name: Bytes)
    requires IsMethodName(name) && name <= s && (s == name || s[|name|] == ',')
    ensures First(s, ',', 0) == |name| && Unspaced(s[..|name|]) == name
    ensures First(" " + s, ',', 0) == |name| + 1 && Unspaced((" " + s)[..|name| + 1]) == name
    ensures s != name ==> (" " + s)[|name| + 2..] == s[|name| + 1..]
  {
    var n := |name|;
    assert s[..n] == name;
    assert forall k | 0 <= k < n :: s[k] == name[k];
    var t := " " + s;
    assert forall k | 1 <= k < n + 1 :: t[k] == s[k - 1];
    assert t[..n + 1] == " " + name && t[..n + 1][1..] == name;
    assert Unspaced(name) == name && Unspaced(t[..n + 1]) == Unspaced(t[..n + 1][1..]);
    assert forall k | 0 <= k < n + 1 :: t[k] != ',';
    assert t[|name| + 1..] == s[n..];
  }

  lemma {:induction false} RoutesAreOfAGroup(t: Table, name: Bytes) returns (i: nat)
    ensures RoutesOf(t, name) == if i < |t| then t[i].routes else []
    ensures if i < |t| then t[i].name == name else forall k | 0 <= k < |t| :: t[k].name != name
    decreases |t|
  {
    i := 0;
    if t != [] && t[0].name != name {
      i := RoutesAreOfAGroup(t[1..], name);
      assert forall k | 1 <= k < |t| :: t[k] == t[1..][k - 1];
      i := i + 1;
    }
  }

  /** The first route of the method in this table that applies. */
  method Find(t: Table, kind: Kind, name: Bytes, path: string, parses: Parses)
    returns (found: Option<Route>, parameters: seq<(string, string)>)
    requires HasNames(t)
    ensures found == FirstOf(RoutesOf(t, name), r => Applies(kind, true, r, path, parses))
    ensures found.Some? ==> parameters == ParametersFor(kind, found.value, path)
  {
    hide Applies, ParametersFor, RoutesOf, FirstOf;
    ghost var applies := r => Applies(kind, true, r, path, parses);
    parameters := [];
    var g := 0;
    while g < |t|
      invariant g <= |t|
      invariant forall k, r | 0 <= k < g && t[k].name == name && r in t[k].routes :: !applies(r)
    {
      if t[g].name == name {
        var h := 0;
        while h < |t[g].routes|
          invariant h <= |t[g].routes| && forall r | r in t[g].routes[..h] :: !applies(r)
        {
          var route := t[g].routes[h];
          var ok;
          ok, parameters := Check(kind, true, route, path, parses);
          if ok {
            RoutesAt(t, g);
            assert t[g].routes == t[g].routes[..h] + [route] + t[g].routes[h + 1..];
            FirstIsFirst(t[g].routes[..h], route, t[g].routes[h + 1..], applies);
            return Some(route), parameters;
          }
          h := h + 1;
        }
        assert t[g].routes[..h] == t[g].routes;
      }
      g := g + 1;
    }
    ghost var i := RoutesAreOfAGroup(t, name);
    FirstOfNone(RoutesOf(t, name), applies);
    return None, [];
  }

  // ---- the methods that would have been allowed

  predicate HasNoDuplicates(names: seq<Bytes>) { forall i, j | 0 <= i < j < |names| :: names[i] != names[j] }

  /** Some other method has a route for this path in this table. */
  ghost predicate Offers(t: Table, kind: Kind, name: Bytes, other: Bytes, path: string, parses: Parses) {
    other != name && exists r | r in RoutesOf(t, other) :: Applies(kind, false, r, path, parses)
  }

  method AddAllowedMethod(allowed: seq<Bytes>, name: Bytes) returns (names: seq<Bytes>)
    requires HasNoDuplicates(allowed)
    ensures HasNoDuplicates(names)
    ensures forall m :: m in names <==> m in allowed || m == name
    ensures allowed <= names
  {
    var i := 0;
    while i < |allowed|
      invariant i <= |allowed| && forall k | 0 <= k < i :: allowed[k] != name
    {
      if allowed[i] == name {
        return allowed;
      }
      i := i + 1;
    }
    return allowed + [name];
  }

  method CollectAllowed(t: Table, kind: Kind, name: Bytes, path: string, parses: Parses, before: seq<Bytes>)
    returns (allowed: seq<Bytes>)
    requires HasNames(t) && HasNoDuplicates(before)
    ensures HasNoDuplicates(allowed)
    ensures forall m :: m in allowed <==> m in before || Offers(t, kind, name, m, path, parses)
  {
    hide Applies, RoutesOf;
    allowed := before;
    var g := 0;
    while g < |t|
      invariant g <= |t| && HasNoDuplicates(allowed)
      invariant forall m :: m in allowed <==> m in before || IsOffered(t[..g], kind, name, m, path, parses)
    {
      if t[g].name != name {
        var h := 0;
        ghost var was := allowed;
        while h < |t[g].routes|
          invariant h <= |t[g].routes| && HasNoDuplicates(allowed)
          invariant forall m ::
            m in allowed <==> m in was || (m == t[g].name && OneApplies(t[g].routes[..h], kind, path, parses))
        {
          var ok, parameters := Check(kind, false, t[g].routes[h], path, parses);
          OneMore(t[g].routes, h, kind, path, parses);
          if ok {
            allowed := AddAllowedMethod(allowed, t[g].name);
          }
          h := h + 1;
        }
        assert t[g].routes[..h] == t[g].routes;
      }
      forall m ensures IsOffered(t[..g + 1], kind, name, m, path, parses) <==>
          IsOffered(t[..g], kind, name, m, path, parses)
          || (m == t[g].name != name && OneApplies(t[g].routes, kind, path, parses)) {
        OneMoreGroup(t, g, kind, name, m, path, parses);
      }
      g := g + 1;
    }
    assert t[..g] == t;
    forall m ensures IsOffered(t, kind, name, m, path, parses) <==> Offers(t, kind, name, m, path, parses) {
      OffersByGroup(t, kind, name, m, path, parses);
    }
  }

  ghost predicate OneApplies(routes: seq<Route>, kind: Kind, path: string, parses: Parses) {
    exists r | r in routes :: Applies(kind, false, r, path, parses)
  }

  ghost predicate IsOffered(t: Table, kind: Kind, name: Bytes, m: Bytes, path: string, parses: Parses) {
    m != name && exists i :: 0 <= i < |t| && t[i].name == m && OneApplies(t[i].routes, kind, path, parses)
  }

  lemma OneMore(routes: seq<Route>, h: nat, kind: Kind, path: string, parses: Parses)
    requires h < |routes|
    ensures OneApplies(routes[..h + 1], kind, path, parses) <==>
            OneApplies(routes[..h], kind, path, parses) || Applies(kind, false, routes[h], path, parses)
  {
    hide Applies;
    var some, more := routes[..h], routes[..h + 1];
    assert more == some + [routes[h]];
    if OneApplies(some, kind, path, parses) {
      var r :| r in some && Applies(kind, false, r, path, parses);
      assert r in more;
    }
    assert routes[h] in more;
  }

  lemma OneMoreGroup(t: Table, g: nat, kind: Kind, name: Bytes, m: Bytes, path: string, parses: Parses)
    requires g < |t|
    ensures IsOffered(t[..g + 1], kind, name, m, path, parses) <==>
            IsOffered(t[..g], kind, name, m, path, parses)
            || (m == t[g].name != name && OneApplies(t[g].routes, kind, path, parses))
  {
    hide OneApplies;
    assert t[..g + 1][g] == t[g] && forall i | 0 <= i < g :: t[..g][i] == t[..g + 1][i];
    if IsOffered(t[..g], kind, name, m, path, parses) {
      var i :| 0 <= i < g && t[..g][i].name == m && OneApplies(t[..g][i].routes, kind, path, parses);
      assert t[..g + 1][i].name == m;
    }
  }

  lemma OffersByGroup(t: Table, kind: Kind, name: Bytes, m: Bytes, path: string, parses: Parses)
    requires HasNames(t)
    ensures IsOffered(t, kind, name, m, path, parses) <==> Offers(t, kind, name, m, path, parses)
  {
    hide Applies, RoutesOf;
    var k := RoutesAreOfAGroup(t, m);
    if IsOffered(t, kind, name, m, path, parses) {
      var i :| 0 <= i < |t| && t[i].name == m && OneApplies(t[i].routes, kind, path, parses);
      RoutesAt(t, i);
    }
    if Offers(t, kind, name, m, path, parses) {
      assert k < |t| && OneApplies(t[k].routes, kind, path, parses);
    }
  }

  method AllowField(allowed: seq<Bytes>) returns (allow: Bytes)
    ensures allow == AllowText(allowed)
  {
    var i := 0;
    allow := "";
    while i < |allowed|
      invariant i <= |allowed| && allow == AllowText(allowed[..i])
    {
      assert allowed[..i + 1][..i] == allowed[..i];
      if allow != "" {
        allow := allow + ", ";
      }
      allow := allow + allowed[i];
      i := i + 1;
    }
    assert allowed[..i] == allowed;
  }

  // ---- the router

  /** The asterisk is the last segment, and the only one. */
  predicate IsWildcard(route: string) {
    |route| >= 2 && route[|route| - 1] == '*' && route[|route| - 2] == '/' && '*' !in route[..|route| - 1]
  }

  predicate IsAccepted(route: string, parametrized: bool) {
    '*' in route ==> IsWildcard(route) && !parametrized
  }

  function KindOf(route: string, parametrized: bool): Kind {
    if IsWildcard(route) then Wildcard else if parametrized then Parametrized else Static
  }

  class Router {
    const parses: Parses
    var hStatic: Table
    var hParametrized: Table
    var hWildcard: Table

    ghost predicate Valid()
      reads this
    {
      HasNames(hStatic) && HasNames(hParametrized) && HasNames(hWildcard)
    }

    constructor (parses: Parses)
      ensures Valid() && this.parses == parses && forall kind, name :: Routes(kind, name) == []
    {
      this.parses := parses;
      hStatic, hParametrized, hWildcard := [], [], [];
    }

    function TableOf(kind: Kind): Table
      reads this
    {
      match kind case Static => hStatic case Parametrized => hParametrized case Wildcard => hWildcard
    }

    /** The routes of one kind that were added for a method, in order. */
    ghost function Routes(kind: Kind, name: Bytes): seq<Route>
      reads this
    {
      RoutesOf(TableOf(kind), name)
    }

    /** The route that comes first in its table, when no table in front of it has any. */
    ghost function Choice(name: Bytes, path: string): Option<(Kind, Route)>
      reads this
    {
      var s := FirstOf(Routes(Static, name), r => Applies(Static, true, r, path, parses));
      var p := FirstOf(Routes(Parametrized, name), r => Applies(Parametrized, true, r, path, parses));
      var w := FirstOf(Routes(Wildcard, name), r => Applies(Wildcard, true, r, path, parses));
      if s.Some? then Some((Static, s.value))
      else if p.Some? then Some((Parametrized, p.value))
      else if w.Some? then Some((Wildcard, w.value))
      else None
    }

    /** The choice fell on a route that runs in the pool, and the pool has been stopped, or its parameters do not
        parse there. */
    ghost predicate GoesUnanswered(name: Bytes, path: string, poolRuns: bool)
      reads this
    {
      var c := Choice(name, path);
      && c.Some? && c.value.1.policy.Asynchronous?
      && (poolRuns ==> c.value.0.Parametrized?
                       && !parses(c.value.1.handler, ParametersFor(Parametrized, c.value.1, path)))
    }

    /** Another method has a route for this path, whose parameters parse. */
    ghost predicate IsAllowed(name: Bytes, other: Bytes, path: string)
      reads this
    {
      || Offers(hStatic, Static, name, other, path, parses)
      || Offers(hParametrized, Parametrized, name, other, path, parses)
      || Offers(hWildcard, Wildcard, name, other, path, parses)
    }

    ghost predicate NothingAllowed(name: Bytes, path: string)
      reads this
    {
      forall m :: !IsAllowed(name, m, path)
    }

    lemma SomethingAllowed(name: Bytes, m: Bytes, path: string)
      requires IsAllowed(name, m, path)
      ensures !NothingAllowed(name, path)
    {
      hide Offers;
    }

    /** Refuses an asterisk anywhere but in the last place, and one whose handler wants parameters. */
    method Add(name: Bytes, route: string, parametrized: bool, handler: nat, policy: Policy) returns (ok: bool)
      requires Valid()
      modifies this
      ensures Valid()
      ensures ok <==> IsAccepted(route, parametrized)
      ensures forall kind, other ::
                Routes(kind, other) ==
                if ok && kind == KindOf(route, parametrized) && other == name
                then old(Routes(kind, other)) + [Route(route, handler, policy)]
                else old(Routes(kind, other))
    {
      hide RoutesOf, HasNames;
      var wildcardPosition := First(route, '*', 0);
      var isWildcard := wildcardPosition < |route| && wildcardPosition == |route| - 1 && wildcardPosition > 0
                        && route[wildcardPosition - 1] == '/';
      WildcardByPosition(route);
      if wildcardPosition < |route| && !isWildcard {
        return false;
      }
      var data := Route(route, handler, policy);
      if !parametrized {
        if isWildcard {
          hWildcard := AddTo(hWildcard, name, data);
        } else {
          hStatic := AddTo(hStatic, name, data);
        }
        return true;
      }
      if isWildcard {
        return false;
      }
      hParametrized := AddTo(hParametrized, name, data);
      return true;
    }

    /** Picks the route; without one, says which other methods the path would have had one for.  `poolRuns` says
        whether the pool takes tasks. */
    method Match(name: Bytes, path: string, poolRuns: bool) returns (result: MatchResult)
      requires Valid()
      ensures Choice(name, path).Some? <==> result.Matched?
      ensures result.Matched? ==>
                && Choice(name, path) == Some((result.kind, result.route))
                && result.parameters == ParametersFor(result.kind, result.route, path)
      ensures result.Matched? && result.kind.Static? ==> result.route.path == path
      ensures result.Matched? && result.kind.Wildcard? ==> MatchesWildcardRoute(result.route.path, path)
      ensures !result.Matched? || result.kind.Wildcard? ==>
                forall r | r in Routes(Parametrized, name) :: !Applies(Parametrized, true, r, path, parses)
      ensures !(result.Matched? && result.kind.Static?) ==> forall r | r in Routes(Static, name) :: r.path != path
      ensures !result.Matched? ==> forall r | r in Routes(Wildcard, name) :: !MatchesWildcardRoute(r.path, path)
      ensures result.Matched? && !result.sends <==> GoesUnanswered(name, path, poolRuns)
      ensures result.NotFound? <==> Choice(name, path).None? && NothingAllowed(name, path)
      ensures result.MethodNotAllowed? ==>
                && result.allow != [] && HasNoDuplicates(result.allow)
                && (forall m :: m in result.allow <==> IsAllowed(name, m, path))
                && result.field == AllowText(result.allow)
    {
      hide RoutesOf, HasNames, FirstOf, ParametersFor, Offers, Matches, Parameters;
      var route, parameters := Find(hStatic, Static, name, path, parses);
      if route.Some? {
        return Matched(Static, route.value, parameters, route.value.policy.Synchronous? || poolRuns);
      }
      route, parameters := Find(hParametrized, Parametrized, name, path, parses);
      if route.Some? {
        // In the pool the handler is tried later, and if its parameters do not parse, nothing is sent.
        var sends, _ := Check(Parametrized, false, route.value, path, parses);
        SendsOrNot(route.value, path, parses);
        return Matched(Parametrized, route.value, parameters, sends && (route.value.policy.Synchronous? || poolRuns));
      }
      route, parameters := Find(hWildcard, Wildcard, name, path, parses);
      if route.Some? {
        return Matched(Wildcard, route.value, parameters, route.value.policy.Synchronous? || poolRuns);
      }
      var allowed := CollectAllowed(hStatic, Static, name, path, parses, []);
      allowed := CollectAllowed(hParametrized, Parametrized, name, path, parses, allowed);
      allowed := CollectAllowed(hWildcard, Wildcard, name, path, parses, allowed);
      if allowed == [] {
        assert forall m :: m in allowed <==> IsAllowed(name, m, path);
        assert NothingAllowed(name, path);
        return NotFound;
      }
      assert allowed[0] in allowed;
      SomethingAllowed(name, allowed[0], path);
      var allow := AllowField(allowed);
      return MethodNotAllowed(allowed, allow);
    }
  }

  lemma WildcardByPosition(route: string)
    ensures var i := First(route, '*', 0);
            && ('*' in route <==> i < |route|)
            && (IsWildcard(route) <==> i < |route| && i == |route| - 1 && i > 0 && route[i - 1] == '/')
  {
    var i := First(route, '*', 0);
    if i == |route| - 1 {
      assert forall k | 0 <= k < i :: route[..|route| - 1][k] == route[k];
    } else if |route| >= 2 && i < |route| {
      assert route[..|route| - 1][i] == '*';
    }
  }

  predicate IsSeven(handler: nat, values: seq<(string, string)>) { values == [("id", "7")] }

  /** A router with one parametrised route for GET, whose parameter has to be "7". */
  method OneRoute(policy: Policy) returns (router: Router)
    ensures fresh(router) && router.Valid()
    ensures router.parses == IsSeven
    ensures forall kind, name :: router.Routes(kind, name) ==
              if kind == Parametrized && name == "GET" then [Route("/:id", 0, policy)] else []
  {
    OneParameter();
    hide KindOf, IsAccepted, RoutesOf;
    router := new Router(IsSeven);
    var ok := router.Add("GET", "/:id", true, 0, policy);
  }

  /** In the pool, a request whose value does not parse goes unanswered. */
  method UnansweredInThePool() returns (result: MatchResult)
    ensures result == Matched(Parametrized, Route("/:id", 0, Asynchronous), [("id", "x")], false)
  {
    hide RoutesOf, Matches, Parameters;
    OneParameter();
    var router := OneRoute(Asynchronous);
    FirstOfOne(Route("/:id", 0, Asynchronous), r => Applies(Parametrized, true, r, "/x", router.parses));
    result := router.Match("GET", "/x", true);
  }

  /** At once, the same request is not found. */
  method NotFoundAtOnce() returns (result: MatchResult)
    ensures result == NotFound
  {
    hide RoutesOf, Matches, Parameters, AllowText;
    OneParameter();
    var router := OneRoute(Synchronous);
    FirstOfOne(Route("/:id", 0, Synchronous), r => Applies(Parametrized, true, r, "/x", router.parses));
    result := router.Match("GET", "/x", true);
    forall m ensures !router.IsAllowed("GET", m, "/x") {
      assert router.Routes(Static, m) == router.Routes(Wildcard, m) == [];
      assert m != "GET" ==> router.Routes(Parametrized, m) == [];
    }
  }

  lemma FirstOfOne(route: Route, applies: Route -> bool)
    ensures FirstOf([route], applies) == if applies(route) then Some(route) else None
  {
    assert [route][1..] == [];
  }

  lemma OneParameter()
    ensures Matches("/:id", "/x") && Parameters("/:id", "/x") == [("id", "x")]
    ensures IsAccepted("/:id", true) && KindOf("/:id", true) == Parametrized
  {
    assert Core("/:id") == ":id" && Core("/x") == "x";
    assert First(":id", '/', 0) == 3 && First("x", '/', 0) == 1;
    assert ":id"[1..] == "id";
    assert [":id"][1..] == [] && ["x"][1..] == [];
  }
}
