/**
 * Route registration for a class-based view: choosing the verb-named methods
 * (`_start_class_based_view`), rewriting each handler's signature so the view
 * instance is injected (`_update_route_endpoint_signature`), and moving the
 * routes to a fresh router (`as_view`).
 */
module Routes {
  import opened Wrappers
  import opened Seqs
  import opened HttpMethods
  import opened Signatures
  import opened Responses

  /** One member of the view class: its name, whether `inspect.isfunction` holds of it, and its signature. */
  datatype Member = Member(name: string, isFunction: bool, signature: seq<Parameter>)

  /** The class attributes `<verb>_status_code`, `<verb>_response_model`, `<verb>_responses` and `<verb>_exceptions`. */
  datatype VerbSettings = VerbSettings(
    statusCode: Option<int>,
    responseModel: Value,
    responses: Option<map<int, ResponseDoc>>,
    exceptions: Option<seq<DeclaredException>>)

  /** What `ClassBasedView` declares for every verb: all four attributes `None`. */
  const BASE_SETTINGS: VerbSettings := VerbSettings(None, NoneValue, None, None)

  /** The attributes a view has for a verb: its own, or the base class's when it does not override them. */
  function SettingsFor(settings: map<HttpMethod, VerbSettings>, verb: HttpMethod): VerbSettings
  {
    if verb in settings then settings[verb] else BASE_SETTINGS
  }

  datatype Endpoint = Endpoint(name: string, signature: seq<Parameter>)

  /** The arguments of one `add_api_route` call. */
  datatype Route = Route(
    path: string,
    name: string,
    endpoint: Endpoint,
    methods: seq<string>,
    statusCode: Option<int>,
    responseModel: Value,
    responses: map<int, ResponseDoc>,
    responseClass: Value)

  /** A member becomes a route when it is a function whose lower-cased name is one of the verb values. */
  predicate IsRouteMember(m: Member)
  {
    m.isFunction && Lower(m.name) in AllValues()
  }

  /** The route registered for a verb-named method. */
  function RouteFor(className: string, m: Member, settings: map<HttpMethod, VerbSettings>, responseClass: Value): Route
    requires IsRouteMember(m)
  {
    var verbName := Lower(m.name);
    FromValueRoundTrip(GET, verbName);
    var s := SettingsFor(settings, FromValue(verbName).value);
    Route("/", Lower(className) + "_" + verbName, Endpoint(m.name, m.signature), [verbName],
          s.statusCode, s.responseModel,
          ResponseTable(ExceptionsOrEmpty(s.exceptions), ResponsesOrEmpty(s.responses)), responseClass)
  }

  /** The routes of the router, one per verb-named method, in member order. */
  function RegisteredRoutes(className: string, members: seq<Member>, settings: map<HttpMethod, VerbSettings>, responseClass: Value)
    : (routes: seq<Route>)
  {
    var selected := Filter(members, IsRouteMember);
    seq(|selected|, i requires 0 <= i < |selected| => RouteFor(className, selected[i], settings, responseClass))
  }

  /** One more member adds its route at the end when it is verb-named, and nothing otherwise. */
  lemma RegisteredRoutesStep(className: string, members: seq<Member>, m: Member, settings: map<HttpMethod, VerbSettings>, responseClass: Value)
    ensures RegisteredRoutes(className, members + [m], settings, responseClass) ==
      RegisteredRoutes(className, members, settings, responseClass)
      + (if IsRouteMember(m) then [RouteFor(className, m, settings, responseClass)] else [])
  {
    FilterAppend(members, [m], IsRouteMember);
    assert Filter([m], IsRouteMember) == if IsRouteMember(m) then [m] else [] by {
      assert [m][1..] == [];
    }
  }

  /** The registration loop of `_start_class_based_view`: one `add_api_route` per verb-named method. */
  method SelectRoutes(className: string, members: seq<Member>, settings: map<HttpMethod, VerbSettings>, responseClass: Value)
    returns (routes: seq<Route>)
    ensures routes == RegisteredRoutes(className, members, settings, responseClass)
  {
    routes := [];
    for i := 0 to |members|
      invariant routes == RegisteredRoutes(className, members[..i], settings, responseClass)
    {
      var m := members[i];
      assert members[..i + 1] == members[..i] + [m];
      RegisteredRoutesStep(className, members[..i], m, settings, responseClass);
      if !m.isFunction {
        continue;
      }
      var verbName := Lower(m.name);
      if verbName in AllValues() {
        FromValueRoundTrip(GET, verbName);
        var s := SettingsFor(settings, FromValue(verbName).value);
        var responses := BuildResponses(s.exceptions, s.responses);
        var route := Route("/", Lower(className) + "_" + verbName, Endpoint(m.name, m.signature), [verbName],
                           s.statusCode, s.responseModel, responses, responseClass);
        assert route == RouteFor(className, m, settings, responseClass);
        routes := routes + [route];
      }
    }
    assert members[..|members|] == members;
  }

  /**
   * Every registered route is at path "/", serves exactly one verb value, is named
   * `<class name lowered>_<verb>`, takes its status code, response model and responses from
   * that verb's attributes, and has as endpoint a member whose lowered name is the verb.
   */
  lemma RoutesAreVerbRoutes(className: string, members: seq<Member>, settings: map<HttpMethod, VerbSettings>, responseClass: Value, i: nat)
    requires i < |RegisteredRoutes(className, members, settings, responseClass)|
    ensures var r := RegisteredRoutes(className, members, settings, responseClass)[i];
      && r.path == "/"
      && |r.methods| == 1 && r.methods[0] in AllValues()
      && r.name == Lower(className) + "_" + r.methods[0]
      && Lower(r.endpoint.name) == r.methods[0]
      && Member(r.endpoint.name, true, r.endpoint.signature) in members
      && FromValue(r.methods[0]).Some?
      && var s := SettingsFor(settings, FromValue(r.methods[0]).value);
         && r.statusCode == s.statusCode && r.responseModel == s.responseModel
         && r.responses == ResponseTable(ExceptionsOrEmpty(s.exceptions), ResponsesOrEmpty(s.responses))
         && r.responseClass == responseClass
  {
    var selected := Filter(members, IsRouteMember);
    assert selected[i] in selected;
    FromValueRoundTrip(GET, Lower(selected[i].name));
  }

  /**
   * For members with distinct names, a member gets a route exactly when it is a function
   * whose lower-cased name is a verb value.
   */
  lemma RouteRegisteredIff(className: string, members: seq<Member>, settings: map<HttpMethod, VerbSettings>, responseClass: Value, m: Member)
    requires m in members
    requires forall a, b :: 0 <= a < b < |members| ==> members[a].name != members[b].name
    ensures (exists r :: r in RegisteredRoutes(className, members, settings, responseClass) && r.endpoint.name == m.name)
            <==> IsRouteMember(m)
  {
    var routes := RegisteredRoutes(className, members, settings, responseClass);
    var selected := Filter(members, IsRouteMember);
    if IsRouteMember(m) {
      FilterKeeps(members, IsRouteMember, m);
      var k :| 0 <= k < |selected| && selected[k] == m;
      assert routes[k] in routes && routes[k].endpoint.name == m.name;
    }
    if r :| r in routes && r.endpoint.name == m.name {
      var k :| 0 <= k < |routes| && routes[k] == r;
      assert selected[k] in selected;
      var a :| 0 <= a < |members| && members[a] == selected[k];
      var b :| 0 <= b < |members| && members[b] == m;
      assert a == b;
    }
  }

  /**
   * Members have distinct names (they come from the class namespace), so the routes differ
   * pairwise in their endpoints, and `list.remove` finds each one at its own position.
   */
  lemma RegisteredRoutesDistinct(className: string, members: seq<Member>, settings: map<HttpMethod, VerbSettings>, responseClass: Value)
    requires forall a, b :: 0 <= a < b < |members| ==> members[a].name != members[b].name
    ensures Distinct(RegisteredRoutes(className, members, settings, responseClass))
  {
    var differ := (x: Member, y: Member) => x.name != y.name;
    assert Pairwise(members, differ);
    FilterPairwise(members, IsRouteMember, differ);
    var selected := Filter(members, IsRouteMember);
    var routes := RegisteredRoutes(className, members, settings, responseClass);
    forall i, j | 0 <= i < j < |routes| ensures routes[i] != routes[j] {
      assert differ(selected[i], selected[j]);
      assert routes[i].endpoint.name == selected[i].name && routes[j].endpoint.name == selected[j].name;
    }
  }

  /** The list comprehension of `_update_route_endpoint_signature`. */
  function EndpointParameters(sig: seq<Parameter>, className: string): (ps: seq<Parameter>)
    requires sig != []
    ensures |ps| == |sig| && ps[0] == sig[0].(default := Depends(className))
    ensures forall i :: 1 <= i < |sig| ==> ps[i] == sig[i].(kind := KeywordOnly)
  {
    [sig[0].(default := Depends(className))] + seq(|sig| - 1, i requires 0 <= i < |sig| - 1 => sig[i + 1].(kind := KeywordOnly))
  }

  /**
   * `_update_route_endpoint_signature` on the parameter list: the first parameter gets the
   * default `Depends(cls)`, every later one becomes keyword-only.  An empty list raises
   * `IndexError`, a variadic first parameter cannot take a default (`ValueError`), and the
   * new signature is validated like any other.
   */
  function RewriteEndpointSignature(sig: seq<Parameter>, className: string): (r: Result<seq<Parameter>, SignatureError>)
    ensures sig == [] ==> r == Failure(NoParameters)
    ensures sig != [] && IsVariadic(sig[0].kind) ==> r == Failure(DefaultOnVariadic(sig[0].name))
    ensures r.Success? ==>
      && |r.value| == |sig| && Names(r.value) == Names(sig)
      && r.value[0] == Parameter(sig[0].name, sig[0].kind, Depends(className), sig[0].annotation)
      && (forall i :: 1 <= i < |sig| ==> r.value[i] == Parameter(sig[i].name, KeywordOnly, sig[i].default, sig[i].annotation))
      && WellFormed(r.value)
  {
    if sig == [] then Failure(NoParameters)
    else if IsVariadic(sig[0].kind) then Failure(DefaultOnVariadic(sig[0].name))
    else
      var ps := EndpointParameters(sig, className);
      ValidateAcceptsWellFormed(ps);
      match Validate(ps)
      case Some(e) => Failure(e)
      case None => Success(ps)
  }

  /** A list whose first parameter is at most keyword-only and whose later parameters are all keyword-only is well formed when its names are distinct. */
  lemma KeywordTailWellFormed(ps: seq<Parameter>)
    requires ps != [] && Rank(ps[0].kind) <= Rank(KeywordOnly)
    requires forall j :: 1 <= j < |ps| ==> ps[j].kind == KeywordOnly
    requires DistinctNames(ps)
    ensures WellFormed(ps)
  {
  }

  /** A well-formed handler signature whose first parameter is not variadic is always rewritten successfully. */
  lemma RewriteSucceedsOnWellFormed(sig: seq<Parameter>, className: string)
    requires WellFormed(sig) && sig != [] && !IsVariadic(sig[0].kind)
    ensures RewriteEndpointSignature(sig, className).Success?
  {
    var ps := EndpointParameters(sig, className);
    assert Names(ps) == Names(sig);
    KeywordTailWellFormed(ps);
    ValidateAcceptsWellFormed(ps);
  }

  /** Rewriting a rewritten signature again changes nothing. */
  lemma RewriteIdempotent(sig: seq<Parameter>, className: string)
    requires RewriteEndpointSignature(sig, className).Success?
    ensures var once := RewriteEndpointSignature(sig, className).value;
      RewriteEndpointSignature(once, className) == Success(once)
  {
    var once := RewriteEndpointSignature(sig, className).value;
    RewriteSucceedsOnWellFormed(once, className);
    var twice := RewriteEndpointSignature(once, className).value;
    assert |twice| == |once|;
    forall i | 0 <= i < |once| ensures twice[i] == once[i] {
      if i == 0 {
        assert twice[0] == Parameter(once[0].name, once[0].kind, Depends(className), once[0].annotation);
      }
    }
    assert twice == once;
  }

  /** `_update_route_endpoint_signature`: the route with its endpoint's signature replaced. */
  function UpdateRoute(route: Route, className: string): Result<Route, SignatureError>
  {
    match RewriteEndpointSignature(route.endpoint.signature, className)
    case Failure(e) => Failure(e)
    case Success(sig) => Success(route.(endpoint := route.endpoint.(signature := sig)))
  }

  /** Updating every route in turn; the first failure is raised and stops the loop. */
  function UpdateAll(routes: seq<Route>, className: string): (r: Result<seq<Route>, SignatureError>)
    ensures r.Success? ==> |r.value| == |routes|
  {
    if routes == [] then Success([])
    else
      var init := routes[..|routes| - 1];
      match UpdateAll(init, className)
      case Failure(e) => Failure(e)
      case Success(done) =>
        match UpdateRoute(routes[|routes| - 1], className)
        case Failure(e) => Failure(e)
        case Success(r) => Success(done + [r])
  }

  /** Updating all routes succeeds exactly when each one can be updated, and then yields each updated route in place. */
  lemma {:induction false} UpdateAllIff(routes: seq<Route>, className: string)
    ensures UpdateAll(routes, className).Success? <==> forall i :: 0 <= i < |routes| ==> UpdateRoute(routes[i], className).Success?
    ensures UpdateAll(routes, className).Success? ==>
      forall i :: 0 <= i < |routes| ==> UpdateAll(routes, className).value[i] == UpdateRoute(routes[i], className).value
  {
    if routes != [] {
      var n := |routes|;
      var init := routes[..n - 1];
      var last := routes[n - 1];
      UpdateAllIff(init, className);
      assert forall i :: 0 <= i < n - 1 ==> init[i] == routes[i];
      assert routes == init + [last];
      if UpdateAll(init, className).Success? {
        UpdateAllSnoc(UpdateAll(init, className).value, init, last, className);
      }
    }
  }

  /** Once a prefix of routes raises, updating any extension of it raises the same error. */
  lemma {:induction false} UpdateAllFailureSticks(a: seq<Route>, b: seq<Route>, className: string)
    requires UpdateAll(a, className).Failure?
    ensures UpdateAll(a + b, className) == UpdateAll(a, className)
  {
    if b == [] {
      assert a + b == a;
    } else {
      var s := a + b;
      var init := b[..|b| - 1];
      assert s[..|s| - 1] == a + init;
      UpdateAllFailureSticks(a, init, className);
      assert UpdateAll(a + init, className).Failure?;
    }
  }

  /** Updating one more route after a successful prefix appends its update, or raises its error. */
  lemma UpdateAllSnoc(done: seq<Route>, routes: seq<Route>, route: Route, className: string)
    requires UpdateAll(routes, className) == Success(done)
    ensures UpdateAll(routes + [route], className) ==
      match UpdateRoute(route, className)
      case Failure(e) => Failure(e)
      case Success(r) => Success(done + [r])
  {
    var s := routes + [route];
    assert s[..|s| - 1] == routes && s[|s| - 1] == route;
  }

  /** The elements at even positions 0, 2, 4, ... */
  function Evens<T>(s: seq<T>): (r: seq<T>)
    ensures |r| == (|s| + 1) / 2 && forall i :: 0 <= i < |r| ==> r[i] == s[2 * i]
  {
    seq((|s| + 1) / 2, i requires 0 <= i < (|s| + 1) / 2 => s[2 * i])
  }

  /** The elements at odd positions 1, 3, 5, ... */
  function Odds<T>(s: seq<T>): (r: seq<T>)
    ensures |r| == |s| / 2 && forall i :: 0 <= i < |r| ==> r[i] == s[2 * i + 1]
  {
    seq(|s| / 2, i requires 0 <= i < |s| / 2 => s[2 * i + 1])
  }

  /** The routes left in the class's router and the routes moved to the new one. */
  datatype Routers = Routers(remaining: seq<Route>, moved: seq<Route>)

  function Min(a: int, b: int): int { if a <= b then a else b }

  /** One iteration of the removing loop: the list position advances by one while the list shrinks by one. */
  lemma RemovalStep(routes: seq<Route>, k: nat)
    requires Distinct(routes) && 2 * k < |routes|
    ensures var m := Min(2 * k + 2, |routes|);
      && (Odds(routes[..2 * k]) + [routes[2 * k]] + routes[2 * k + 1..])[k] == routes[2 * k]
      && RemoveFirst(Odds(routes[..2 * k]) + [routes[2 * k]] + routes[2 * k + 1..], routes[2 * k])
         == Odds(routes[..m]) + routes[m..]
      && Evens(routes[..m]) == Evens(routes[..2 * k]) + [routes[2 * k]]
  {
    var prefix := Odds(routes[..2 * k]);
    var x := routes[2 * k];
    assert x !in prefix by {
      forall i | 0 <= i < |prefix| ensures prefix[i] != x {
        assert prefix[i] == routes[2 * i + 1];
      }
    }
    RemoveFirstAt(prefix, x, routes[2 * k + 1..]);
    OddsAdvance(routes, k);
    EvensAdvance(routes, k);
  }

  /** Dropping the route at `2 * k` from the list of iteration `k` gives the list of iteration `k + 1`. */
  lemma OddsAdvance(routes: seq<Route>, k: nat)
    requires 2 * k < |routes|
    ensures var m := Min(2 * k + 2, |routes|);
      Odds(routes[..2 * k]) + routes[2 * k + 1..] == Odds(routes[..m]) + routes[m..]
  {
    var m := Min(2 * k + 2, |routes|);
    var lhs := Odds(routes[..2 * k]) + routes[2 * k + 1..];
    var rhs := Odds(routes[..m]) + routes[m..];
    assert |lhs| == |rhs|;
    forall i | 0 <= i < |lhs| ensures lhs[i] == rhs[i] {
      if i < k {
        assert lhs[i] == routes[2 * i + 1] && rhs[i] == routes[2 * i + 1];
      } else if i == k && m == 2 * k + 2 {
        assert lhs[i] == routes[2 * k + 1] && rhs[i] == routes[2 * k + 1];
      }
    }
  }

  /** The even routes of the next prefix are those of this one and the route at `2 * k`. */
  lemma EvensAdvance(routes: seq<Route>, k: nat)
    requires 2 * k < |routes|
    ensures Evens(routes[..Min(2 * k + 2, |routes|)]) == Evens(routes[..2 * k]) + [routes[2 * k]]
  {
  }

  /**
   * The loop of `as_view` as written: it iterates over `cls_router.routes` while removing
   * from that same list, so the list iterator's position and the list's length meet halfway.
   */
  method MoveRoutesAsWritten(routes: seq<Route>, className: string) returns (outcome: Result<Routers, SignatureError>)
    requires Distinct(routes)
    ensures UpdateAll(Evens(routes), className).Failure? ==> outcome == Failure(UpdateAll(Evens(routes), className).error)
    ensures UpdateAll(Evens(routes), className).Success? ==>
      outcome == Success(Routers(Odds(routes), UpdateAll(Evens(routes), className).value))
  {
    var current := routes;
    var moved: seq<Route> := [];
    var i := 0;
    assert current == Odds(routes[..0]) + routes[0..];
    while i < |current|
      invariant AsWrittenLoop(routes, i, current, moved, className)
      decreases |routes| - 2 * i
    {
      AsWrittenStep(routes, i, current, moved, className);
      var route := current[i];
      current := RemoveFirst(current, route);
      var updated := UpdateRoute(route, className);
      if updated.Failure? {
        return Failure(updated.error);
      }
      moved := moved + [updated.value];
      i := i + 1;
    }
    AsWrittenDone(routes, i, current, moved, className);
    outcome := Success(Routers(current, moved));
  }

  /**
   * What holds before iteration `i` of the loop as written: the first `2 * i` routes have been
   * visited, the odd ones among them are still in the list, and the even ones were moved.
   */
  ghost predicate AsWrittenLoop(routes: seq<Route>, i: nat, current: seq<Route>, moved: seq<Route>, className: string)
  {
    && 2 * i <= |routes| + 1
    && current == Odds(routes[..Min(2 * i, |routes|)]) + routes[Min(2 * i, |routes|)..]
    && UpdateAll(Evens(routes[..Min(2 * i, |routes|)]), className) == Success(moved)
  }

  /** One iteration of the loop as written keeps its invariant, or raises the error of updating the even routes. */
  lemma AsWrittenStep(routes: seq<Route>, i: nat, current: seq<Route>, moved: seq<Route>, className: string)
    requires Distinct(routes) && AsWrittenLoop(routes, i, current, moved, className) && i < |current|
    ensures current[i] == routes[2 * i] && 2 * i < |routes|
    ensures var u := UpdateRoute(current[i], className);
      && (u.Failure? ==> UpdateAll(Evens(routes), className) == Failure(u.error))
      && (u.Success? ==> AsWrittenLoop(routes, i + 1, RemoveFirst(current, current[i]), moved + [u.value], className))
  {
    AsWrittenGuard(routes, i);
    AsWrittenRemoval(routes, i);
    AsWrittenUpdate(routes, i, moved, className);
  }

  /** When the loop as written stops, the odd routes remain and the even ones were all moved. */
  lemma AsWrittenDone(routes: seq<Route>, i: nat, current: seq<Route>, moved: seq<Route>, className: string)
    requires AsWrittenLoop(routes, i, current, moved, className) && i >= |current|
    ensures current == Odds(routes) && UpdateAll(Evens(routes), className) == Success(moved)
  {
    AsWrittenGuard(routes, i);
    var k := Min(2 * i, |routes|);
    assert k == |routes| && routes[..k] == routes && routes[k..] == [];
  }

  /** The iterator's position `i` is still inside the shrinking list exactly while `2 * i` is inside the original one. */
  lemma AsWrittenGuard(routes: seq<Route>, i: nat)
    requires 2 * i <= |routes| + 1
    ensures var k := Min(2 * i, |routes|);
      i < |Odds(routes[..k]) + routes[k..]| <==> 2 * i < |routes|
    ensures 2 * i >= |routes| ==> Min(2 * i, |routes|) == |routes|
  {
  }

  /** In the loop as written, iteration `i` reads the route at position `2 * i` and removes exactly it. */
  lemma AsWrittenRemoval(routes: seq<Route>, i: nat)
    requires Distinct(routes) && 2 * i < |routes|
    ensures var current := Odds(routes[..Min(2 * i, |routes|)]) + routes[Min(2 * i, |routes|)..];
      var m := Min(2 * i + 2, |routes|);
      current[i] == routes[2 * i] && RemoveFirst(current, routes[2 * i]) == Odds(routes[..m]) + routes[m..]
  {
    assert Min(2 * i, |routes|) == 2 * i;
    assert routes[2 * i..] == [routes[2 * i]] + routes[2 * i + 1..];
    RemovalStep(routes, i);
    assert Odds(routes[..2 * i]) + routes[2 * i..] == Odds(routes[..2 * i]) + [routes[2 * i]] + routes[2 * i + 1..];
  }

  /** In the loop as written, iteration `i` appends the update of route `2 * i`, or raises the error that updating the even routes raises. */
  lemma AsWrittenUpdate(routes: seq<Route>, i: nat, moved: seq<Route>, className: string)
    requires Distinct(routes) && 2 * i < |routes|
    requires UpdateAll(Evens(routes[..Min(2 * i, |routes|)]), className) == Success(moved)
    ensures var m := Min(2 * i + 2, |routes|);
      var u := UpdateRoute(routes[2 * i], className);
      && (u.Success? ==> UpdateAll(Evens(routes[..m]), className) == Success(moved + [u.value]))
      && (u.Failure? ==> UpdateAll(Evens(routes), className) == Failure(u.error))
  {
    var m := Min(2 * i + 2, |routes|);
    assert Min(2 * i, |routes|) == 2 * i;
    RemovalStep(routes, i);
    UpdateAllSnoc(moved, Evens(routes[..2 * i]), routes[2 * i], className);
    if UpdateRoute(routes[2 * i], className).Failure? {
      EvensPrefixFails(routes, m, className);
    }
  }

  /** When the routes at even positions of a prefix cannot all be updated, neither can those of the whole list, with the same error. */
  lemma EvensPrefixFails(routes: seq<Route>, m: nat, className: string)
    requires m <= |routes| && UpdateAll(Evens(routes[..m]), className).Failure?
    ensures UpdateAll(Evens(routes), className) == UpdateAll(Evens(routes[..m]), className)
  {
    var a := Evens(routes[..m]);
    var b := Evens(routes)[|a|..];
    assert Evens(routes) == a + b;
    UpdateAllFailureSticks(a, b, className);
  }

  /** The loop as intended: iterating over a copy, so every route is moved and rewritten, in order. */
  method MoveRoutes(routes: seq<Route>, className: string) returns (outcome: Result<Routers, SignatureError>)
    ensures UpdateAll(routes, className).Failure? ==> outcome == Failure(UpdateAll(routes, className).error)
    ensures UpdateAll(routes, className).Success? ==> outcome == Success(Routers([], UpdateAll(routes, className).value))
  {
    var current := routes;
    var moved: seq<Route> := [];
    for i := 0 to |routes|
      invariant current == routes[i..]
      invariant UpdateAll(routes[..i], className) == Success(moved)
    {
      MoveStep(routes, i, moved, className);
      var route := routes[i];
      current := RemoveFirst(current, route);
      var updated := UpdateRoute(route, className);
      if updated.Failure? {
        return Failure(updated.error);
      }
      moved := moved + [updated.value];
    }
    assert routes[..|routes|] == routes;
    outcome := Success(Routers(current, moved));
  }

  /** One iteration of the loop over a copy: the front route leaves the list and its update is appended, or the loop raises. */
  lemma MoveStep(routes: seq<Route>, i: nat, moved: seq<Route>, className: string)
    requires i < |routes| && UpdateAll(routes[..i], className) == Success(moved)
    ensures RemoveFirst(routes[i..], routes[i]) == routes[i + 1..]
    ensures var u := UpdateRoute(routes[i], className);
      && (u.Failure? ==> UpdateAll(routes, className) == Failure(u.error))
      && (u.Success? ==> UpdateAll(routes[..i + 1], className) == Success(moved + [u.value]))
  {
    RemoveFront(routes[i..]);
    assert routes[i..][1..] == routes[i + 1..];
    PrefixUpdateStep(routes, i, moved, className);
  }

  /** Removing the front element of a list leaves its tail. */
  lemma RemoveFront(s: seq<Route>)
    requires s != []
    ensures RemoveFirst(s, s[0]) == s[1..]
  {
    assert s == [] + [s[0]] + s[1..];
    RemoveFirstAt([], s[0], s[1..]);
  }

  /** Updating one more route of a prefix appends its update, or raises an error the whole list raises too. */
  lemma PrefixUpdateStep(routes: seq<Route>, i: nat, moved: seq<Route>, className: string)
    requires i < |routes| && UpdateAll(routes[..i], className) == Success(moved)
    ensures var u := UpdateRoute(routes[i], className);
      && (u.Failure? ==> UpdateAll(routes, className) == Failure(u.error))
      && (u.Success? ==> UpdateAll(routes[..i + 1], className) == Success(moved + [u.value]))
  {
    var route := routes[i];
    assert routes[..i + 1] == routes[..i] + [route];
    UpdateAllSnoc(moved, routes[..i], route, className);
    if UpdateRoute(route, className).Failure? {
      assert routes == routes[..i + 1] + routes[i + 1..];
      UpdateAllFailureSticks(routes[..i + 1], routes[i + 1..], className);
    }
  }

  /**
   * The loop as written leaves the second route of any view with two or more routes in the
   * old router without rewriting its endpoint signature.
   */
  lemma AsWrittenSkipsSecondRoute(routes: seq<Route>)
    requires Distinct(routes) && |routes| >= 2
    ensures routes[1] in Odds(routes) && routes[1] !in Evens(routes)
  {
    assert Odds(routes)[0] == routes[1];
  }
}
