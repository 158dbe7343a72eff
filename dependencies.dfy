/**
 * Constructor rewriting (`_add_dependencies`): the view's `__init__` signature loses `self`
 * and its variadic parameters and gains one keyword-only parameter per non-ClassVar type
 * hint; the wrapped `__init__` pops those dependencies from the keyword arguments,
 * stores them on the instance, and hands the rest to the original `__init__`.
 */
module Dependencies {
  import opened Wrappers
  import opened Seqs
  import opened Signatures

  /** One entry of `get_type_hints(cls)`, with the verdict of `is_classvar` on its hint. */
  datatype TypeHint = TypeHint(name: string, hint: Value, isClassVar: bool)

  /** Python's `[1:]`: the list without its first element, empty when the list is empty. */
  function DropFirst<T>(s: seq<T>): (r: seq<T>)
    ensures s != [] ==> r == s[1..]
    ensures s == [] ==> r == []
  {
    if s == [] then [] else s[1..]
  }

  predicate NotVariadic(p: Parameter) { !IsVariadic(p.kind) }

  predicate IsDependency(h: TypeHint) { !h.isClassVar }

  /** The original `__init__` parameters that survive: `self` dropped, then `*args`/`**kwargs` dropped. */
  function KeptParameters(initParams: seq<Parameter>): seq<Parameter>
  {
    Filter(DropFirst(initParams), NotVariadic)
  }

  /** The hints that become dependencies: every hint that is not a ClassVar, in hint order. */
  function DependencyHints(hints: seq<TypeHint>): seq<TypeHint>
  {
    Filter(hints, IsDependency)
  }

  function HintNames(hints: seq<TypeHint>): (r: seq<string>)
    ensures |r| == |hints| && forall j :: 0 <= j < |hints| ==> r[j] == hints[j].name
  {
    seq(|hints|, j requires 0 <= j < |hints| => hints[j].name)
  }

  /** The parameter a dependency hint becomes; its default is the class attribute of that name, or `...` when there is none. */
  function DependencyParameter(h: TypeHint, attributes: map<string, Value>): Parameter
  {
    Parameter(h.name, KeywordOnly, if h.name in attributes then attributes[h.name] else Ellipsis, h.hint)
  }

  function DependencyParameters(hints: seq<TypeHint>, attributes: map<string, Value>): (r: seq<Parameter>)
    ensures |r| == |hints| && forall j :: 0 <= j < |hints| ==> r[j] == DependencyParameter(hints[j], attributes)
  {
    seq(|hints|, j requires 0 <= j < |hints| => DependencyParameter(hints[j], attributes))
  }

  /**
   * The parameter rewrite of `_add_dependencies`: the comprehension over the old parameters,
   * then the loop over the type hints that skips ClassVars and appends a name and a parameter
   * for every other hint.
   */
  method RewriteInitSignature(initParams: seq<Parameter>, hints: seq<TypeHint>, attributes: map<string, Value>)
    returns (newParameters: seq<Parameter>, dependencyNames: seq<string>)
    ensures newParameters == KeptParameters(initParams) + DependencyParameters(DependencyHints(hints), attributes)
    ensures dependencyNames == HintNames(DependencyHints(hints))
  {
    newParameters := KeptParameters(initParams);
    dependencyNames := [];
    ghost var kept := newParameters;
    for i := 0 to |hints|
      invariant dependencyNames == HintNames(DependencyHints(hints[..i]))
      invariant newParameters == kept + DependencyParameters(DependencyHints(hints[..i]), attributes)
    {
      assert hints[..i + 1] == hints[..i] + [hints[i]];
      DependencyStep(hints[..i], hints[i], attributes);
      if hints[i].isClassVar {
        continue;
      }
      dependencyNames := dependencyNames + [hints[i].name];
      newParameters := newParameters + [DependencyParameter(hints[i], attributes)];
    }
    assert hints[..|hints|] == hints;
  }

  /** One more hint adds its name and parameter at the end, unless it is a ClassVar. */
  lemma DependencyStep(hints: seq<TypeHint>, h: TypeHint, attributes: map<string, Value>)
    ensures var before := DependencyHints(hints);
      var after := DependencyHints(hints + [h]);
      && HintNames(after) == HintNames(before) + (if h.isClassVar then [] else [h.name])
      && DependencyParameters(after, attributes) ==
         DependencyParameters(before, attributes) + (if h.isClassVar then [] else [DependencyParameter(h, attributes)])
  {
    var before := DependencyHints(hints);
    var added := Filter([h], IsDependency);
    FilterAppend(hints, [h], IsDependency);
    assert DependencyHints(hints + [h]) == before + added;
    FilterOne(h);
    AppendHints(before, added, attributes);
    if h.isClassVar {
      assert HintNames(added) == [] && DependencyParameters(added, attributes) == [];
    } else {
      assert HintNames(added) == [h.name] && DependencyParameters(added, attributes) == [DependencyParameter(h, attributes)];
    }
  }

  /** A single hint is kept exactly when it is not a ClassVar. */
  lemma FilterOne(h: TypeHint)
    ensures Filter([h], IsDependency) == if h.isClassVar then [] else [h]
  {
    assert [h][1..] == [];
  }

  /** Names and parameters of two runs of hints, one after the other, are those of each run, one after the other. */
  lemma AppendHints(a: seq<TypeHint>, b: seq<TypeHint>, attributes: map<string, Value>)
    ensures HintNames(a + b) == HintNames(a) + HintNames(b)
    ensures DependencyParameters(a + b, attributes) == DependencyParameters(a, attributes) + DependencyParameters(b, attributes)
  {
    var ab := a + b;
    assert forall j :: |a| <= j < |ab| ==> ab[j] == b[j - |a|];
  }

  /** A parameter is kept exactly when it comes after the first position and is neither `*args` nor `**kwargs`. */
  lemma KeptParametersAreTheNonVariadicRest(initParams: seq<Parameter>, p: Parameter)
    ensures p in KeptParameters(initParams) <==> p in DropFirst(initParams) && !IsVariadic(p.kind)
  {
    if p in DropFirst(initParams) && !IsVariadic(p.kind) {
      FilterKeeps(DropFirst(initParams), NotVariadic, p);
    }
  }

  /** The kept parameters keep their original order: whatever is kept from before a cut precedes whatever is kept after it. */
  lemma KeptParametersKeepOrder(initParams: seq<Parameter>, cut: nat)
    requires cut <= |DropFirst(initParams)|
    ensures var rest := DropFirst(initParams);
      KeptParameters(initParams) == Filter(rest[..cut], NotVariadic) + Filter(rest[cut..], NotVariadic)
  {
    var rest := DropFirst(initParams);
    assert rest == rest[..cut] + rest[cut..];
    FilterAppend(rest[..cut], rest[cut..], NotVariadic);
  }

  /** A hint gives a dependency exactly when it is not a ClassVar. */
  lemma DependencyHintsAreTheNonClassVars(hints: seq<TypeHint>, h: TypeHint)
    ensures h in DependencyHints(hints) <==> h in hints && !h.isClassVar
  {
    if h in hints && !h.isClassVar {
      FilterKeeps(hints, IsDependency, h);
    }
  }

  /** When hint names are distinct (they are the keys of a dictionary), a ClassVar hint contributes no dependency name. */
  lemma ClassVarContributesNoName(hints: seq<TypeHint>, i: nat)
    requires i < |hints| && hints[i].isClassVar
    requires forall a, b :: 0 <= a < b < |hints| ==> hints[a].name != hints[b].name
    ensures hints[i].name !in HintNames(DependencyHints(hints))
  {
    var deps := DependencyHints(hints);
    forall j | 0 <= j < |deps| ensures deps[j].name != hints[i].name {
      assert deps[j] in deps;
    }
  }

  /** The rewritten constructor has no `*args` or `**kwargs`, and every added dependency parameter is keyword-only. */
  lemma RewrittenSignatureHasNoVariadic(initParams: seq<Parameter>, hints: seq<TypeHint>, attributes: map<string, Value>)
    ensures var ps := KeptParameters(initParams) + DependencyParameters(DependencyHints(hints), attributes);
      forall i :: 0 <= i < |ps| ==> !IsVariadic(ps[i].kind)
  {
    var kept := KeptParameters(initParams);
    var ps := kept + DependencyParameters(DependencyHints(hints), attributes);
    forall i | 0 <= i < |ps| ensures !IsVariadic(ps[i].kind) {
      if i < |kept| {
        assert ps[i] == kept[i] && kept[i] in kept;
      }
    }
  }

  /** Dropping `self` and the variadic parameters keeps a well-formed signature well formed, and leaves no kind above keyword-only. */
  lemma KeptParametersWellFormed(initParams: seq<Parameter>)
    requires WellFormed(initParams)
    ensures WellFormed(KeptParameters(initParams))
    ensures forall p :: p in KeptParameters(initParams) ==> Rank(p.kind) <= Rank(KeywordOnly)
  {
    var rest := DropFirst(initParams);
    assert WellFormed(rest) by {
      assert forall i :: 0 <= i < |rest| ==> rest[i] == initParams[i + 1];
    }
    FilterPairwise(rest, NotVariadic, (p: Parameter, q: Parameter) => Rank(p.kind) <= Rank(q.kind));
    FilterPairwise(rest, NotVariadic, (p: Parameter, q: Parameter) => p.name != q.name);
    FilterPairwise(rest, NotVariadic, (p: Parameter, q: Parameter) =>
      IsPositional(p.kind) && IsPositional(q.kind) && p.default != Empty ==> q.default != Empty);
  }

  /** The added dependency parameters are keyword-only and, for distinct hint names, distinctly named. */
  lemma DependencyParametersWellFormed(hints: seq<TypeHint>, attributes: map<string, Value>)
    requires forall a, b :: 0 <= a < b < |hints| ==> hints[a].name != hints[b].name
    ensures var added := DependencyParameters(DependencyHints(hints), attributes);
      DistinctNames(added) && forall i :: 0 <= i < |added| ==> added[i].kind == KeywordOnly
  {
    FilterPairwise(hints, IsDependency, (g: TypeHint, h: TypeHint) => g.name != h.name);
  }

  /** Appending keyword-only parameters to a well-formed list with nothing above keyword-only keeps kinds and defaults in order. */
  lemma AppendKeywordOnlyOrdered(kept: seq<Parameter>, added: seq<Parameter>)
    requires WellFormed(kept)
    requires forall p :: p in kept ==> Rank(p.kind) <= Rank(KeywordOnly)
    requires forall i :: 0 <= i < |added| ==> added[i].kind == KeywordOnly
    ensures KindsOrdered(kept + added) && DefaultsOrdered(kept + added)
  {
    var ps := kept + added;
    forall i, j | 0 <= i < j < |ps| ensures Rank(ps[i].kind) <= Rank(ps[j].kind) {
      if j < |kept| {
        assert ps[i] == kept[i] && ps[j] == kept[j];
      } else if i < |kept| {
        assert ps[i] == kept[i] && kept[i] in kept && ps[j] == added[j - |kept|];
      } else {
        assert ps[i] == added[i - |kept|] && ps[j] == added[j - |kept|];
      }
    }
    forall i, j | 0 <= i < j < |ps| && IsPositional(ps[i].kind) && IsPositional(ps[j].kind) && ps[i].default != Empty
      ensures ps[j].default != Empty
    {
      if j < |kept| {
        assert ps[i] == kept[i] && ps[j] == kept[j];
      }
    }
  }

  /** Two distinctly named lists concatenate to a distinctly named list exactly when they share no name. */
  lemma AppendDistinctNames(kept: seq<Parameter>, added: seq<Parameter>)
    requires DistinctNames(kept) && DistinctNames(added)
    ensures DistinctNames(kept + added) <==> forall n :: n in Names(added) ==> n !in Names(kept)
  {
    var ps := kept + added;
    if forall n :: n in Names(added) ==> n !in Names(kept) {
      forall i, j | 0 <= i < j < |ps| ensures ps[i].name != ps[j].name {
        if j < |kept| {
          assert ps[i] == kept[i] && ps[j] == kept[j];
        } else if i < |kept| {
          assert ps[i] == kept[i] && ps[j] == added[j - |kept|];
          var m := Names(added)[j - |kept|];
          assert m == ps[j].name && m in Names(added);
          assert Names(kept)[i] == ps[i].name;
        } else {
          assert ps[i] == added[i - |kept|] && ps[j] == added[j - |kept|];
        }
      }
    } else {
      var n :| n in Names(added) && n in Names(kept);
      var a :| 0 <= a < |kept| && Names(kept)[a] == n;
      var b :| 0 <= b < |added| && Names(added)[b] == n;
      assert ps[a] == kept[a] && ps[|kept| + b] == added[b];
    }
  }

  /**
   * When the original `__init__` signature is well formed and the hint names are distinct,
   * `Signature.replace` accepts the rewritten parameters exactly when no dependency name is
   * already the name of a kept parameter (otherwise it raises "duplicate parameter name").
   */
  lemma RewrittenSignatureValidIff(initParams: seq<Parameter>, hints: seq<TypeHint>, attributes: map<string, Value>)
    requires WellFormed(initParams)
    requires forall a, b :: 0 <= a < b < |hints| ==> hints[a].name != hints[b].name
    ensures var kept := KeptParameters(initParams);
      var ps := kept + DependencyParameters(DependencyHints(hints), attributes);
      Validate(ps) == None <==> forall n :: n in HintNames(DependencyHints(hints)) ==> n !in Names(kept)
  {
    var kept := KeptParameters(initParams);
    var deps := DependencyHints(hints);
    var added := DependencyParameters(deps, attributes);
    KeptParametersWellFormed(initParams);
    DependencyParametersWellFormed(hints, attributes);
    AppendKeywordOnlyOrdered(kept, added);
    AppendDistinctNames(kept, added);
    ValidateAcceptsWellFormed(kept + added);
    assert Names(added) == HintNames(deps);
  }

  /** The positional arguments and remaining keyword arguments handed to the original `__init__`. */
  datatype InitCall = InitCall(args: seq<Value>, kwargs: map<string, Value>)

  /** What the pop loop of the wrapped `__init__` leaves: attributes stored so far, kwargs left, and the name that raised `KeyError`, if any. */
  datatype PopOutcome = PopOutcome(stored: map<string, Value>, remaining: map<string, Value>, missing: Option<string>)

  /** `for n in names: v = kwargs.pop(n); setattr(self, n, v)`, stopping at the first missing name. */
  function PopFrom(names: seq<string>, kwargs: map<string, Value>, stored: map<string, Value>): PopOutcome
  {
    if names == [] then PopOutcome(stored, kwargs, None)
    else if names[0] !in kwargs then PopOutcome(stored, kwargs, Some(names[0]))
    else PopFrom(names[1..], kwargs - {names[0]}, stored[names[0] := kwargs[names[0]]])
  }

  function NameSet(names: seq<string>): set<string>
  {
    set n | n in names
  }

  /** The keyword arguments whose names are in `names`. */
  function Picked(names: seq<string>, kwargs: map<string, Value>): map<string, Value>
  {
    map n | n in names && n in kwargs :: kwargs[n]
  }

  lemma DistinctTail(names: seq<string>)
    requires Distinct(names) && names != []
    ensures Distinct(names[1..]) && names[0] !in names[1..]
  {
    var tail := names[1..];
    forall i, j | 0 <= i < j < |tail| ensures tail[i] != tail[j] {
      assert tail[i] == names[i + 1] && tail[j] == names[j + 1];
    }
  }

  /** For distinct names the pop loop finishes without `KeyError` exactly when every name is a keyword argument. */
  lemma {:induction false} PopSucceedsIff(names: seq<string>, kwargs: map<string, Value>, stored: map<string, Value>)
    requires Distinct(names)
    ensures PopFrom(names, kwargs, stored).missing == None <==> forall n :: n in names ==> n in kwargs
  {
    if names != [] && names[0] in kwargs {
      DistinctTail(names);
      PopSucceedsIff(names[1..], kwargs - {names[0]}, stored[names[0] := kwargs[names[0]]]);
      assert forall n :: n in names <==> n == names[0] || n in names[1..];
    }
  }

  /** After a successful pop loop the keyword arguments are the original ones with exactly the dependency names removed. */
  lemma {:induction false} PopRemovesExactlyTheNames(names: seq<string>, kwargs: map<string, Value>, stored: map<string, Value>)
    requires Distinct(names) && forall n :: n in names ==> n in kwargs
    ensures PopFrom(names, kwargs, stored).remaining == kwargs - NameSet(names)
  {
    if names != [] {
      var n0, tail := names[0], names[1..];
      DistinctTail(names);
      assert forall n :: n in tail ==> n in kwargs - {n0};
      PopRemovesExactlyTheNames(tail, kwargs - {n0}, stored[n0 := kwargs[n0]]);
      assert NameSet(names) == {n0} + NameSet(tail);
      assert (kwargs - {n0}) - NameSet(tail) == kwargs - NameSet(names);
    }
  }

  /** Picking the first name, then the rest from what is left, picks the same arguments. */
  lemma PickedUnfold(names: seq<string>, kwargs: map<string, Value>)
    requires Distinct(names) && names != [] && names[0] in kwargs
    ensures var n0 := names[0];
      && n0 !in Picked(names[1..], kwargs - {n0})
      && Picked(names, kwargs) == Picked(names[1..], kwargs - {n0})[n0 := kwargs[n0]]
  {
    DistinctTail(names);
    assert forall n :: n in names <==> n == names[0] || n in names[1..];
  }

  /** After a successful pop loop every dependency name is set on the instance to the value passed for it. */
  lemma {:induction false} PopStoresTheValues(names: seq<string>, kwargs: map<string, Value>, stored: map<string, Value>)
    requires Distinct(names) && forall n :: n in names ==> n in kwargs
    ensures PopFrom(names, kwargs, stored).stored == stored + Picked(names, kwargs)
  {
    if names != [] {
      var n0, tail := names[0], names[1..];
      var kw' := kwargs - {n0};
      DistinctTail(names);
      assert forall n :: n in tail ==> n in kw';
      PopStoresTheValues(tail, kw', stored[n0 := kwargs[n0]]);
      PickedUnfold(names, kwargs);
      StoreThenMerge(stored, n0, kwargs[n0], Picked(tail, kw'));
    }
  }

  /** Storing one attribute and then merging others that do not name it is merging all of them at once. */
  lemma StoreThenMerge(stored: map<string, Value>, n: string, v: Value, rest: map<string, Value>)
    requires n !in rest
    ensures stored[n := v] + rest == stored + rest[n := v]
  {
    var left, right := stored[n := v] + rest, stored + rest[n := v];
    assert left.Keys == right.Keys;
    forall k | k in left ensures left[k] == right[k] {
    }
  }

  /** A `KeyError` names a dependency that no keyword argument supplied; the names popped before it are set on the instance. */
  lemma {:induction false} PopMissingIsAbsent(names: seq<string>, kwargs: map<string, Value>, stored: map<string, Value>)
    ensures var out := PopFrom(names, kwargs, stored);
      out.missing.Some? ==> out.missing.value in names && out.missing.value !in out.remaining && stored.Keys <= out.stored.Keys
  {
    if names != [] && names[0] in kwargs {
      PopMissingIsAbsent(names[1..], kwargs - {names[0]}, stored[names[0] := kwargs[names[0]]]);
    }
  }

  /** A view's `__init__`: the user's own (with its signature), or a wrapper that pops dependencies and then calls the one it wraps. */
  datatype InitFn = Original(parameters: seq<Parameter>) | Wrapped(dependencyNames: seq<string>, inner: InitFn)

  /** `inspect.signature(cls.__init__)`: the wrapper is `new_init(self: Any, *args: Any, **kwargs: Any)`. */
  function InitSignature(init: InitFn): seq<Parameter>
  {
    match init
    case Original(ps) => ps
    case Wrapped(_, _) =>
      [ Parameter("self", PositionalOrKeyword, Empty, AnyType),
        Parameter("args", VarPositional, Empty, AnyType),
        Parameter("kwargs", VarKeyword, Empty, AnyType) ]
  }

  /** What running a constructor chain does: the attributes it sets and the call that reaches the user's `__init__`, or the name of a `KeyError`. */
  datatype InitRun = InitRun(stored: map<string, Value>, result: Result<InitCall, string>)

  function RunInit(init: InitFn, args: seq<Value>, kwargs: map<string, Value>, stored: map<string, Value>): InitRun
  {
    match init
    case Original(_) => InitRun(stored, Success(InitCall(args, kwargs)))
    case Wrapped(names, inner) =>
      var out := PopFrom(names, kwargs, stored);
      if out.missing.Some? then InitRun(out.stored, Failure(out.missing.value))
      else RunInit(inner, args, out.remaining, out.stored)
  }

  /**
   * Constructing through one wrapper with distinct dependency names: it succeeds exactly when
   * every dependency is passed by keyword, and the original `__init__` then receives all
   * positional arguments unchanged and the keyword arguments without the dependencies.
   */
  lemma WrappedInitForwards(names: seq<string>, parameters: seq<Parameter>, args: seq<Value>, kwargs: map<string, Value>)
    requires Distinct(names)
    ensures var run := RunInit(Wrapped(names, Original(parameters)), args, kwargs, map[]);
      && (run.result.Success? <==> forall n :: n in names ==> n in kwargs)
      && (run.result.Success? ==>
            && run.result.value == InitCall(args, kwargs - NameSet(names))
            && forall n :: n in names ==> n in run.stored && run.stored[n] == kwargs[n])
  {
    PopSucceedsIff(names, kwargs, map[]);
    var out := PopFrom(names, kwargs, map[]);
    var run := RunInit(Wrapped(names, Original(parameters)), args, kwargs, map[]);
    if out.missing == None {
      PopRemovesExactlyTheNames(names, kwargs, map[]);
      PopStoresTheValues(names, kwargs, map[]);
      assert run == RunInit(Original(parameters), args, out.remaining, out.stored);
      forall n | n in names ensures n in run.stored && run.stored[n] == kwargs[n] {
        assert n in Picked(names, kwargs);
      }
    }
  }

  /**
   * Rewriting a constructor that is already wrapped wraps it again with the same names, and the
   * chain then raises `KeyError`: the outer wrapper pops every dependency before the inner one looks.
   */
  lemma WrappingTwiceFails(names: seq<string>, parameters: seq<Parameter>, args: seq<Value>, kwargs: map<string, Value>)
    requires Distinct(names) && names != []
    ensures RunInit(Wrapped(names, Wrapped(names, Original(parameters))), args, kwargs, map[]).result.Failure?
  {
    PopSucceedsIff(names, kwargs, map[]);
    var out := PopFrom(names, kwargs, map[]);
    if out.missing == None {
      PopRemovesExactlyTheNames(names, kwargs, map[]);
      PopSucceedsIff(names, out.remaining, out.stored);
      assert names[0] in NameSet(names);
      assert names[0] !in kwargs - NameSet(names);
      assert names[0] !in out.remaining;
    }
  }
}
