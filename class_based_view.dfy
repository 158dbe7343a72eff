/**
 * `ClassBasedView` registration as it changes objects in place: the view class gets a new
 * `__signature__` and a wrapped `__init__`, and constructing an instance through that
 * `__init__` stores the injected dependencies on it.
 */
module ClassBasedViews {
  import opened Wrappers
  import opened HttpMethods
  import opened Signatures
  import opened Dependencies
  import opened Routes

  /** A subclass of `ClassBasedView`: what reflection reports about it, and the two attributes registration replaces. */
  class ViewClass {
    const name: string
    const members: seq<Member>
    const hints: seq<TypeHint>
    const attributes: map<string, Value>
    const settings: map<HttpMethod, VerbSettings>
    const responseClass: Value
    /** `cls.__init__`. */
    var init: InitFn
    /** `cls.__signature__`; absent until registration sets it. */
    var signature: Option<seq<Parameter>>

    constructor (name: string, members: seq<Member>, hints: seq<TypeHint>, attributes: map<string, Value>,
                 settings: map<HttpMethod, VerbSettings>, responseClass: Value, initParameters: seq<Parameter>)
      ensures this.name == name && this.members == members && this.hints == hints && this.attributes == attributes
      ensures this.settings == settings && this.responseClass == responseClass
      ensures init == Original(initParameters) && signature == None
    {
      this.name := name;
      this.members := members;
      this.hints := hints;
      this.attributes := attributes;
      this.settings := settings;
      this.responseClass := responseClass;
      init := Original(initParameters);
      signature := None;
    }

    /**
     * `_add_dependencies`: rewrite the constructor signature; if `Signature.replace` rejects it
     * nothing changes, otherwise `__signature__` is the rewritten signature and `__init__` the
     * wrapper that pops the dependency names.
     */
    method AddDependencies() returns (outcome: Result<seq<string>, SignatureError>)
      modifies this
      ensures var rewritten := KeptParameters(InitSignature(old(init))) + DependencyParameters(DependencyHints(hints), attributes);
        var names := HintNames(DependencyHints(hints));
        match Validate(rewritten)
        case Some(e) => outcome == Failure(e) && init == old(init) && signature == old(signature)
        case None => outcome == Success(names) && signature == Some(rewritten) && init == Wrapped(names, old(init))
    {
      var newParameters, dependencyNames := RewriteInitSignature(InitSignature(init), hints, attributes);
      var error := Validate(newParameters);
      if error.Some? {
        return Failure(error.value);
      }
      signature := Some(newParameters);
      init := Wrapped(dependencyNames, init);
      outcome := Success(dependencyNames);
    }

    /** `_start_class_based_view`: add the dependencies, then register one route per verb-named method. */
    method StartClassBasedView() returns (outcome: Result<seq<Route>, SignatureError>)
      modifies this
      ensures var rewritten := KeptParameters(InitSignature(old(init))) + DependencyParameters(DependencyHints(hints), attributes);
        match Validate(rewritten)
        case Some(e) => outcome == Failure(e) && init == old(init) && signature == old(signature)
        case None =>
          && outcome == Success(RegisteredRoutes(name, members, settings, responseClass))
          && signature == Some(rewritten) && init == Wrapped(HintNames(DependencyHints(hints)), old(init))
    {
      var added := AddDependencies();
      if added.Failure? {
        return Failure(added.error);
      }
      var routes := SelectRoutes(name, members, settings, responseClass);
      outcome := Success(routes);
    }

    /**
     * `as_view` as written: the loop removes from the list it iterates over, so only the
     * routes at even positions are rewritten and moved; `include_router` then appends them
     * after the routes left behind, and the class router is returned.
     */
    method AsView() returns (outcome: Result<seq<Route>, SignatureError>)
      requires forall a, b :: 0 <= a < b < |members| ==> members[a].name != members[b].name
      modifies this
      ensures var rewritten := KeptParameters(InitSignature(old(init))) + DependencyParameters(DependencyHints(hints), attributes);
        var routes := RegisteredRoutes(name, members, settings, responseClass);
        match Validate(rewritten)
        case Some(e) => outcome == Failure(e) && init == old(init) && signature == old(signature)
        case None =>
          && signature == Some(rewritten) && init == Wrapped(HintNames(DependencyHints(hints)), old(init))
          && match UpdateAll(Evens(routes), name)
             case Failure(e) => outcome == Failure(e)
             case Success(moved) => outcome == Success(Odds(routes) + moved)
    {
      var started := StartClassBasedView();
      if started.Failure? {
        return Failure(started.error);
      }
      RegisteredRoutesDistinct(name, members, settings, responseClass);
      var routers := MoveRoutesAsWritten(started.value, name);
      if routers.Failure? {
        return Failure(routers.error);
      }
      outcome := Success(routers.value.remaining + routers.value.moved);
    }

    /**
     * `as_view` as evidently intended: the loop runs over a copy of the route list, so every
     * route is rewritten and moved, and the class router ends up holding all of them, in order.
     */
    method AsViewAsIntended() returns (outcome: Result<seq<Route>, SignatureError>)
      modifies this
      ensures var rewritten := KeptParameters(InitSignature(old(init))) + DependencyParameters(DependencyHints(hints), attributes);
        var routes := RegisteredRoutes(name, members, settings, responseClass);
        match Validate(rewritten)
        case Some(e) => outcome == Failure(e) && init == old(init) && signature == old(signature)
        case None =>
          && signature == Some(rewritten) && init == Wrapped(HintNames(DependencyHints(hints)), old(init))
          && match UpdateAll(routes, name)
             case Failure(e) => outcome == Failure(e)
             case Success(updated) => outcome == Success(updated)
    {
      var started := StartClassBasedView();
      if started.Failure? {
        return Failure(started.error);
      }
      var routers := MoveRoutes(started.value, name);
      if routers.Failure? {
        return Failure(routers.error);
      }
      assert routers.value.remaining + routers.value.moved == routers.value.moved;
      outcome := Success(routers.value.remaining + routers.value.moved);
    }
  }

  /** An instance of a view class, with the attributes its constructor stores on it. */
  class ViewInstance {
    var attributes: map<string, Value>

    constructor ()
      ensures attributes == map[]
    {
      attributes := map[];
    }

    /**
     * Running `__init__`: a wrapper pops each dependency from the keyword arguments (a missing
     * one raises `KeyError`), stores it as an attribute, and calls the `__init__` it wraps with
     * the positional arguments and the remaining keyword arguments.
     */
    method Initialize(init: InitFn, args: seq<Value>, kwargs: map<string, Value>) returns (result: Result<InitCall, string>)
      modifies this
      decreases init
      ensures attributes == RunInit(init, args, kwargs, old(attributes)).stored
      ensures result == RunInit(init, args, kwargs, old(attributes)).result
    {
      match init
      case Original(_) =>
        result := Success(InitCall(args, kwargs));
      case Wrapped(names, inner) =>
        var remaining := kwargs;
        for i := 0 to |names|
          invariant PopFrom(names[i..], remaining, attributes) == PopFrom(names, kwargs, old(attributes))
        {
          var name := names[i];
          assert names[i..][1..] == names[i + 1..];
          if name !in remaining {
            return Failure(name);
          }
          var value := remaining[name];
          remaining := remaining - {name};
          attributes := attributes[name := value];
        }
        result := Initialize(inner, args, remaining);
    }
  }
}
