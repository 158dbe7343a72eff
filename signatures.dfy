/**
 * Callable signatures as `inspect` describes them: a signature is an ordered
 * list of parameter records (name, kind, default, annotation).  Building a
 * signature validates it the way `inspect.Signature` does.
 */
module Signatures {
  import opened Wrappers

  /** `inspect.Parameter` kinds, in the order `inspect` ranks them. */
  datatype ParamKind = PositionalOnly | PositionalOrKeyword | VarPositional | KeywordOnly | VarKeyword

  function Rank(k: ParamKind): nat
  {
    match k
    case PositionalOnly => 0
    case PositionalOrKeyword => 1
    case VarPositional => 2
    case KeywordOnly => 3
    case VarKeyword => 4
  }

  predicate IsVariadic(k: ParamKind) { k == VarPositional || k == VarKeyword }

  predicate IsPositional(k: ParamKind) { k == PositionalOnly || k == PositionalOrKeyword }

  /**
   * Python values as far as the model needs to tell them apart: `inspect.Parameter.empty`
   * (no default / no annotation), `None`, `...`, `typing.Any`, the marker `Depends(cls)`
   * naming the class it injects, and any other object by identity.
   */
  datatype Value = Empty | NoneValue | Ellipsis | AnyType | Depends(dependency: string) | Object(id: nat)

  datatype Parameter = Parameter(name: string, kind: ParamKind, default: Value, annotation: Value)

  /** The `ValueError`s that building a signature or a parameter can raise, and the `IndexError` of `[0]` on an empty list. */
  datatype SignatureError =
    | WrongParameterOrder(name: string)
    | NonDefaultAfterDefault(name: string)
    | DuplicateParameterName(name: string)
    | DefaultOnVariadic(name: string)
    | NoParameters

  function Names(ps: seq<Parameter>): (r: seq<string>)
    ensures |r| == |ps| && forall i :: 0 <= i < |ps| ==> r[i] == ps[i].name
  {
    seq(|ps|, i requires 0 <= i < |ps| => ps[i].name)
  }

  ghost predicate KindsOrdered(ps: seq<Parameter>)
  {
    forall i, j :: 0 <= i < j < |ps| ==> Rank(ps[i].kind) <= Rank(ps[j].kind)
  }

  /** Among positional parameters, none without a default follows one with a default. */
  ghost predicate DefaultsOrdered(ps: seq<Parameter>)
  {
    forall i, j :: 0 <= i < j < |ps| && IsPositional(ps[i].kind) && IsPositional(ps[j].kind) && ps[i].default != Empty ==>
      ps[j].default != Empty
  }

  ghost predicate DistinctNames(ps: seq<Parameter>)
  {
    forall i, j :: 0 <= i < j < |ps| ==> ps[i].name != ps[j].name
  }

  /** The three conditions `inspect.Signature` enforces. */
  ghost predicate WellFormed(ps: seq<Parameter>)
  {
    KindsOrdered(ps) && DefaultsOrdered(ps) && DistinctNames(ps)
  }

  /**
   * The validation loop of `inspect.Signature`: walks the parameters keeping the highest
   * kind seen, whether a positional default has been seen, and the names seen, and
   * reports the first parameter that breaks a rule.
   */
  function ValidateFrom(ps: seq<Parameter>, top: nat, seenDefault: bool, seen: set<string>): Option<SignatureError>
  {
    if ps == [] then None
    else
      var p := ps[0];
      if Rank(p.kind) < top then Some(WrongParameterOrder(p.name))
      else if IsPositional(p.kind) && p.default == Empty && seenDefault then Some(NonDefaultAfterDefault(p.name))
      else if p.name in seen then Some(DuplicateParameterName(p.name))
      else ValidateFrom(ps[1..], Rank(p.kind), seenDefault || (IsPositional(p.kind) && p.default != Empty), seen + {p.name})
  }

  function Validate(ps: seq<Parameter>): Option<SignatureError>
  {
    ValidateFrom(ps, 0, false, {})
  }

  ghost predicate RanksFrom(ps: seq<Parameter>, top: nat)
  {
    forall i :: 0 <= i < |ps| ==> top <= Rank(ps[i].kind)
  }

  ghost predicate DefaultsFrom(ps: seq<Parameter>, seenDefault: bool)
  {
    seenDefault ==> forall i :: 0 <= i < |ps| && IsPositional(ps[i].kind) ==> ps[i].default != Empty
  }

  ghost predicate NamesFresh(ps: seq<Parameter>, seen: set<string>)
  {
    forall i :: 0 <= i < |ps| ==> ps[i].name !in seen
  }

  /** What `ValidateFrom` accepts, stated without the walk. */
  ghost predicate AcceptedFrom(ps: seq<Parameter>, top: nat, seenDefault: bool, seen: set<string>)
  {
    && KindsOrdered(ps) && RanksFrom(ps, top)
    && DefaultsOrdered(ps) && DefaultsFrom(ps, seenDefault)
    && DistinctNames(ps) && NamesFresh(ps, seen)
  }

  lemma KindsUnfold(ps: seq<Parameter>, top: nat)
    requires ps != []
    ensures KindsOrdered(ps) && RanksFrom(ps, top) <==>
      top <= Rank(ps[0].kind) && KindsOrdered(ps[1..]) && RanksFrom(ps[1..], Rank(ps[0].kind))
  {
    var tail := ps[1..];
    assert forall i :: 0 <= i < |tail| ==> tail[i] == ps[i + 1];
    if top <= Rank(ps[0].kind) && KindsOrdered(tail) && RanksFrom(tail, Rank(ps[0].kind)) {
      forall i, j | 0 <= i < j < |ps| ensures Rank(ps[i].kind) <= Rank(ps[j].kind) {
        assert ps[j] == tail[j - 1];
        if i > 0 { assert ps[i] == tail[i - 1]; }
      }
    }
  }

  lemma DefaultsUnfold(ps: seq<Parameter>, seenDefault: bool)
    requires ps != []
    ensures DefaultsOrdered(ps) && DefaultsFrom(ps, seenDefault) <==>
      var p := ps[0];
      && !(IsPositional(p.kind) && p.default == Empty && seenDefault)
      && DefaultsOrdered(ps[1..])
      && DefaultsFrom(ps[1..], seenDefault || (IsPositional(p.kind) && p.default != Empty))
  {
    var p, tail := ps[0], ps[1..];
    assert forall i :: 0 <= i < |tail| ==> tail[i] == ps[i + 1];
    if DefaultsOrdered(ps) && DefaultsFrom(ps, seenDefault) {
      assert DefaultsFrom(tail, seenDefault || (IsPositional(p.kind) && p.default != Empty)) by {
        forall i | 0 <= i < |tail| && IsPositional(tail[i].kind) && IsPositional(p.kind) && p.default != Empty
          ensures tail[i].default != Empty
        {
          assert ps[i + 1] == tail[i];
        }
      }
      assert DefaultsOrdered(tail) by {
        forall i, j | 0 <= i < j < |tail| && IsPositional(tail[i].kind) && IsPositional(tail[j].kind) && tail[i].default != Empty
          ensures tail[j].default != Empty
        {
          assert ps[i + 1] == tail[i] && ps[j + 1] == tail[j];
        }
      }
    }
    if && !(IsPositional(p.kind) && p.default == Empty && seenDefault)
       && DefaultsOrdered(tail)
       && DefaultsFrom(tail, seenDefault || (IsPositional(p.kind) && p.default != Empty))
    {
      forall i, j | 0 <= i < j < |ps| && IsPositional(ps[i].kind) && IsPositional(ps[j].kind) && ps[i].default != Empty
        ensures ps[j].default != Empty
      {
        assert ps[j] == tail[j - 1];
        if i > 0 { assert ps[i] == tail[i - 1]; }
      }
    }
  }

  lemma NamesUnfold(ps: seq<Parameter>, seen: set<string>)
    requires ps != []
    ensures DistinctNames(ps) && NamesFresh(ps, seen) <==>
      ps[0].name !in seen && DistinctNames(ps[1..]) && NamesFresh(ps[1..], seen + {ps[0].name})
  {
    var tail := ps[1..];
    assert forall i :: 0 <= i < |tail| ==> tail[i] == ps[i + 1];
    if ps[0].name !in seen && DistinctNames(tail) && NamesFresh(tail, seen + {ps[0].name}) {
      forall i, j | 0 <= i < j < |ps| ensures ps[i].name != ps[j].name {
        assert ps[j] == tail[j - 1];
        if i > 0 { assert ps[i] == tail[i - 1]; }
      }
    }
  }

  lemma {:induction false} ValidateFromAccepts(ps: seq<Parameter>, top: nat, seenDefault: bool, seen: set<string>)
    ensures ValidateFrom(ps, top, seenDefault, seen) == None <==> AcceptedFrom(ps, top, seenDefault, seen)
  {
    if ps != [] {
      var p := ps[0];
      KindsUnfold(ps, top);
      DefaultsUnfold(ps, seenDefault);
      NamesUnfold(ps, seen);
      ValidateFromAccepts(ps[1..], Rank(p.kind), seenDefault || (IsPositional(p.kind) && p.default != Empty), seen + {p.name});
    }
  }

  /** `inspect.Signature` accepts a parameter list exactly when it is well formed. */
  lemma ValidateAcceptsWellFormed(ps: seq<Parameter>)
    ensures Validate(ps) == None <==> WellFormed(ps)
  {
    ValidateFromAccepts(ps, 0, false, {});
  }
}
