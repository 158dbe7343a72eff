/**
 * The `HttpMethods` string enumeration: the five HTTP verbs a class-based view
 * may implement, each member's value being its name in lower case.
 */
module HttpMethods {
  import opened Wrappers

  datatype HttpMethod = GET | POST | PUT | PATCH | DELETE

  /** The members in declaration order. */
  const MEMBERS: seq<HttpMethod> := [GET, POST, PUT, PATCH, DELETE]

  /** The member's name as declared in the enumeration. */
  function Name(m: HttpMethod): string
  {
    match m
    case GET => "GET"
    case POST => "POST"
    case PUT => "PUT"
    case PATCH => "PATCH"
    case DELETE => "DELETE"
  }

  /** The member's string value. */
  function Value(m: HttpMethod): string
  {
    match m
    case GET => "get"
    case POST => "post"
    case PUT => "put"
    case PATCH => "patch"
    case DELETE => "delete"
  }

  predicate IsUpper(c: char) { 'A' <= c <= 'Z' }

  /** `str.lower` on one character, restricted to ASCII letters. */
  function LowerChar(c: char): (d: char)
    ensures !IsUpper(d)
    ensures IsUpper(c) ==> d as int == c as int + 32
    ensures !IsUpper(c) ==> d == c
  {
    if IsUpper(c) then (c as int + 32) as char else c
  }

  /** `str.lower`: every upper-case letter replaced by its lower-case form, nothing else changed. */
  function Lower(s: string): (r: string)
    ensures |r| == |s|
    ensures forall i :: 0 <= i < |s| ==> r[i] == LowerChar(s[i])
  {
    if s == [] then [] else [LowerChar(s[0])] + Lower(s[1..])
  }

  /** True when no character of `s` is an upper-case letter. */
  predicate NoUpper(s: string)
  {
    forall i :: 0 <= i < |s| ==> !IsUpper(s[i])
  }

  /** The set of the five enumeration values that route selection tests names against. */
  function AllValues(): set<string>
  {
    set m | m in MEMBERS :: Value(m)
  }

  /** `HttpMethods(v)`: the member whose value is `v`, or nothing (Python raises ValueError). */
  function FromValue(v: string): Option<HttpMethod>
  {
    if v == "get" then Some(GET)
    else if v == "post" then Some(POST)
    else if v == "put" then Some(PUT)
    else if v == "patch" then Some(PATCH)
    else if v == "delete" then Some(DELETE)
    else None
  }

  /** The enumeration has exactly the five members GET, POST, PUT, PATCH and DELETE, listed once each. */
  lemma MembersAreExactlyFive(m: HttpMethod)
    ensures m in MEMBERS
    ensures |MEMBERS| == 5
    ensures forall i, j :: 0 <= i < j < |MEMBERS| ==> MEMBERS[i] != MEMBERS[j]
  {
  }

  /** Each member's value is the lower-case form of its name. */
  lemma ValueIsLoweredName(m: HttpMethod)
    ensures Value(m) == Lower(Name(m))
  {
    var n := Name(m);
    assert Lower(n)[0] == LowerChar(n[0]);
    match m
    case GET =>
    case POST =>
    case PUT =>
    case PATCH =>
    case DELETE =>
  }

  /** The values are pairwise distinct, so each value picks out exactly one member. */
  lemma ValuesDistinct(m: HttpMethod, n: HttpMethod)
    ensures Value(m) == Value(n) <==> m == n
  {
  }

  /** The set of values, written out. */
  lemma AllValuesLiteral()
    ensures AllValues() == {"get", "post", "put", "patch", "delete"}
  {
    assert Value(GET) in AllValues() && Value(POST) in AllValues() && Value(PUT) in AllValues();
    assert Value(PATCH) in AllValues() && Value(DELETE) in AllValues();
  }

  /** There are exactly five values, and a string is one of them exactly when it is some member's value. */
  lemma AllValuesAreTheMembers(v: string)
    ensures v in AllValues() <==> exists m :: Value(m) == v
    ensures AllValues() == {"get", "post", "put", "patch", "delete"}
    ensures |AllValues()| == 5
  {
    assert v in AllValues() <==> exists m :: Value(m) == v by {
      if exists m :: Value(m) == v {
        var m :| Value(m) == v;
        assert m in MEMBERS;
      }
    }
    AllValuesLiteral();
  }

  /** Looking a value up gives back its member, and the lookup succeeds exactly on the five values. */
  lemma FromValueRoundTrip(m: HttpMethod, v: string)
    ensures FromValue(Value(m)) == Some(m)
    ensures FromValue(v).Some? <==> v in AllValues()
    ensures FromValue(v).Some? ==> Value(FromValue(v).value) == v
  {
    AllValuesAreTheMembers(v);
  }

  /** No value contains an upper-case letter, so a name with one can match only after lowering. */
  lemma ValuesHaveNoUpper(v: string, name: string)
    ensures v in AllValues() ==> NoUpper(v)
    ensures (exists i :: 0 <= i < |name| && IsUpper(name[i])) ==> name !in AllValues()
  {
    AllValuesLiteral();
    assert NoUpper("get") && NoUpper("post") && NoUpper("put") && NoUpper("patch") && NoUpper("delete");
    if name in AllValues() {
      assert NoUpper(name);
    }
  }

  /** Lowering is idempotent and leaves no upper-case letter. */
  lemma LowerIdempotent(s: string)
    ensures NoUpper(Lower(s))
    ensures Lower(Lower(s)) == Lower(s)
  {
  }
}
