/**
 * The per-verb error-response table (`_build_responses`): every declared exception
 * contributes a JSON example keyed by its status code, then the view's own
 * `<verb>_responses` dictionary is merged on top.
 */
module Responses {
  import opened Wrappers

  /** The attributes read from an instance of a declared exception class. */
  datatype DeclaredException = DeclaredException(statusCode: int, message: string, code: string)

  /**
   * A documentation entry: the synthesized
   * `{'content': {'application/json': {'example': {'message': m, 'code': c}}}}`,
   * or a value the view supplied itself, which the model does not look into.
   */
  datatype ResponseDoc = JsonExample(message: string, code: string) | UserDoc(id: nat)

  function ExampleFor(e: DeclaredException): ResponseDoc
  {
    JsonExample(e.message, e.code)
  }

  /** Python's `exceptions or []`: a missing list reads as the empty list. */
  function ExceptionsOrEmpty(exceptions: Option<seq<DeclaredException>>): seq<DeclaredException>
  {
    if exceptions.Some? then exceptions.value else []
  }

  /** Python's `responses or {}`: a missing dictionary reads as the empty one. */
  function ResponsesOrEmpty(responses: Option<map<int, ResponseDoc>>): map<int, ResponseDoc>
  {
    if responses.Some? then responses.value else map[]
  }

  function Codes(excs: seq<DeclaredException>): set<int>
  {
    set e | e in excs :: e.statusCode
  }

  /** The last declared exception with status code `code`, searching from the end of the list. */
  function LastWith(excs: seq<DeclaredException>, code: int): (r: Option<DeclaredException>)
    ensures r.Some? <==> code in Codes(excs)
    ensures r.Some? ==> r.value in excs && r.value.statusCode == code
  {
    if excs == [] then None
    else
      var last := excs[|excs| - 1];
      var init := excs[..|excs| - 1];
      assert excs == init + [last];
      if last.statusCode == code then Some(last) else LastWith(init, code)
  }

  /**
   * The table `_build_responses` is meant to produce: the union of the exception codes and
   * the user's keys; a user key maps to the user's entry, any other code to the example of
   * the last exception declared with it.
   */
  function ResponseTable(excs: seq<DeclaredException>, user: map<int, ResponseDoc>): map<int, ResponseDoc>
  {
    map k | k in Codes(excs) + user.Keys :: if k in user then user[k] else ExampleFor(LastWith(excs, k).value)
  }

  /** The dictionary the exception loop builds: one assignment per exception, in list order. */
  function ExceptionEntries(excs: seq<DeclaredException>): map<int, ResponseDoc>
  {
    if excs == [] then map[]
    else
      var e := excs[|excs| - 1];
      ExceptionEntries(excs[..|excs| - 1])[e.statusCode := ExampleFor(e)]
  }

  /**
   * `_build_responses`: fold the declared exceptions into a fresh dictionary, one
   * assignment per exception in list order, then `update` it with the view's responses.
   */
  method BuildResponses(exceptions: Option<seq<DeclaredException>>, responses: Option<map<int, ResponseDoc>>)
    returns (r: map<int, ResponseDoc>)
    ensures r == ResponseTable(ExceptionsOrEmpty(exceptions), ResponsesOrEmpty(responses))
  {
    var newResponses: map<int, ResponseDoc> := map[];
    var excs := ExceptionsOrEmpty(exceptions);
    for i := 0 to |excs|
      invariant newResponses == ExceptionEntries(excs[..i])
    {
      assert excs[..i + 1][..i] == excs[..i];
      newResponses := newResponses[excs[i].statusCode := ExampleFor(excs[i])];
    }
    assert excs[..|excs|] == excs;
    var user := ResponsesOrEmpty(responses);
    ExceptionEntriesAreTheTable(excs);
    MergeUserResponses(excs, user);
    r := newResponses + user;
  }

  /** The loop's dictionary is the exception part of the table. */
  lemma {:induction false} ExceptionEntriesAreTheTable(excs: seq<DeclaredException>)
    ensures ExceptionEntries(excs) == ResponseTable(excs, map[])
  {
    if excs != [] {
      var init := excs[..|excs| - 1];
      var e := excs[|excs| - 1];
      ExceptionEntriesAreTheTable(init);
      assert excs == init + [e];
      AppendException(init, e);
    }
  }

  /** One more exception overwrites (or adds) exactly the entry for its own status code. */
  lemma AppendException(excs: seq<DeclaredException>, e: DeclaredException)
    ensures ResponseTable(excs + [e], map[]) == ResponseTable(excs, map[])[e.statusCode := ExampleFor(e)]
  {
    var s := excs + [e];
    assert s[..|s| - 1] == excs;
    assert Codes(s) == Codes(excs) + {e.statusCode};
  }

  /** `dict.update` with the user's responses gives the full table. */
  lemma MergeUserResponses(excs: seq<DeclaredException>, user: map<int, ResponseDoc>)
    ensures ResponseTable(excs, map[]) + user == ResponseTable(excs, user)
  {
  }

  /** `LastWith` finds the last position carrying the code: the one after which no exception has it. */
  lemma {:induction false} LastWithIsLast(excs: seq<DeclaredException>, j: nat)
    requires j < |excs|
    requires forall k :: j < k < |excs| ==> excs[k].statusCode != excs[j].statusCode
    ensures LastWith(excs, excs[j].statusCode) == Some(excs[j])
  {
    var n := |excs|;
    if j < n - 1 {
      var init := excs[..n - 1];
      assert init[j] == excs[j];
      LastWithIsLast(init, j);
    }
  }

  /** Every declared exception's status code is a key of the table, and the codes the user did not mention are kept. */
  lemma ExceptionCodesKept(excs: seq<DeclaredException>, user: map<int, ResponseDoc>, i: nat)
    requires i < |excs|
    ensures excs[i].statusCode in ResponseTable(excs, user)
  {
    assert excs[i] in excs;
  }

  /**
   * An exception whose code neither the user nor a later exception claims sets that entry to a
   * JSON example holding exactly its message and code.
   */
  lemma ExceptionContributesExample(excs: seq<DeclaredException>, user: map<int, ResponseDoc>, i: nat)
    requires i < |excs|
    requires excs[i].statusCode !in user
    requires forall k :: i < k < |excs| ==> excs[k].statusCode != excs[i].statusCode
    ensures ResponseTable(excs, user)[excs[i].statusCode] == JsonExample(excs[i].message, excs[i].code)
  {
    assert excs[i] in excs;
    LastWithIsLast(excs, i);
    assert LastWith(excs, excs[i].statusCode) == Some(excs[i]);
  }

  /** Of two exceptions sharing a status code, the later one in the list decides the entry. */
  lemma LaterExceptionWins(excs: seq<DeclaredException>, user: map<int, ResponseDoc>, i: nat, j: nat)
    requires i < j < |excs| && excs[i].statusCode == excs[j].statusCode
    requires excs[j].statusCode !in user
    requires forall k :: j < k < |excs| ==> excs[k].statusCode != excs[j].statusCode
    ensures ResponseTable(excs, user)[excs[i].statusCode] == ExampleFor(excs[j])
  {
    ExceptionContributesExample(excs, user, j);
  }

  /** Every user key appears with the user's value, overriding any exception for the same code. */
  lemma UserResponsesOverride(excs: seq<DeclaredException>, user: map<int, ResponseDoc>, k: int)
    requires k in user
    ensures k in ResponseTable(excs, user) && ResponseTable(excs, user)[k] == user[k]
  {
  }

  /** The table has no key other than the exception codes and the user's keys. */
  lemma TableKeys(excs: seq<DeclaredException>, user: map<int, ResponseDoc>)
    ensures ResponseTable(excs, user).Keys == Codes(excs) + user.Keys
  {
  }

  /** With neither exceptions nor responses declared (missing or empty), the table is the empty map. */
  lemma NothingDeclaredGivesEmptyTable(exceptions: Option<seq<DeclaredException>>, responses: Option<map<int, ResponseDoc>>)
    requires exceptions == None || exceptions == Some([])
    requires responses == None || responses == Some(map[])
    ensures ResponseTable(ExceptionsOrEmpty(exceptions), ResponsesOrEmpty(responses)) == map[]
  {
    assert Codes([]) == {};
  }
}
