# fastapi-cbv: class-based views, modelled in Dafny

`fastapi_cbv` lets a class whose methods are named after HTTP verbs act as a set of
FastAPI route handlers. When a view class is registered (`ClassBasedView.as_view`), the
library does four things. This project models each of them over abstract inputs and
proves what each one promises.

- **Constructor rewriting** (`_add_dependencies`). The class's `__signature__` becomes the
  original `__init__` parameters without `self` and without `*args`/`**kwargs`. One
  keyword-only parameter is added for every type hint that is not a `ClassVar`. Its default
  is the class attribute of that name, or `...` if the class has no such attribute.
  `__init__` is wrapped: the wrapper pops those dependencies from the keyword arguments,
  stores them on the instance, and calls the original `__init__` with everything else.
- **Error-response tables** (`_build_responses`). Each declared exception contributes a JSON
  example (its message and code) under its status code. The view's `<verb>_responses`
  dictionary is then merged on top.
- **Route selection** (`_start_class_based_view`). Every function member whose lower-cased
  name is one of the five `HttpMethods` values becomes a route. The route's path is `/`,
  its method list is `[verb]`, and its name is `<class name lowered>_<verb>`. Its status
  code, response model and responses come from that verb's class attributes.
- **Handler rewriting** (`_update_route_endpoint_signature`, `as_view`). The handler's
  first parameter gets the default `Depends(cls)`. Every later parameter becomes
  keyword-only. The loop in `as_view` is meant to move every route to a new router and
  rewrite each one's handler, but as written it handles only every other route (see
  "## Findings").

Modules (one file each):

- `Wrappers`: `Option` and `Result`.
- `Seqs`: order-preserving filtering, which is the shape of Python's list comprehensions
  with an `if`, and `list.remove`.
- `HttpMethods`: the verb enumeration.
- `Signatures`: `inspect.Parameter` records and the validation `inspect.Signature` applies
  when a signature is built.
- `Responses`: `_build_responses`.
- `Dependencies`: the constructor rewrite and the wrapped `__init__`.
- `Routes`: route selection, the handler rewrite and the `as_view` loop.
- `ClassBasedViews`: the view class and its instances as Dafny classes. Their fields are
  the state registration changes in place: `__init__` and `__signature__` on the class,
  attributes on the instance.

Reflection results are the inputs: `inspect.getmembers`, `get_type_hints` with
`is_classvar`, and class attributes looked up with `getattr`. `Depends(cls)` is a marker
value naming the class. A registered route is the record of the arguments passed to
`add_api_route`.

`class_based_view.py:100` calls `HttpMethods.all_values()`, but `http_methods.py` defines
no such method. As written, that call would raise `AttributeError`. The model reads it as
the set of the five enumeration values (`HttpMethods.AllValues`), which is what the call
is evidently meant to return.

## Model

| member | source | states |
|---|---|---|
| HttpMethods.MembersAreExactlyFive | fastapi_cbv/http_methods.py:4-9 | The enumeration has exactly the five members GET, POST, PUT, PATCH and DELETE, each listed once. |
| HttpMethods.ValueIsLoweredName | fastapi_cbv/http_methods.py:5-9 | Each member's value is the lower-case form of its name. |
| HttpMethods.ValuesDistinct | fastapi_cbv/http_methods.py:5-9 | Two members have the same value only if they are the same member, so a value selects exactly one member. |
| HttpMethods.AllValuesAreTheMembers | fastapi_cbv/class_based_view.py:100 | The set route selection tests against is exactly {"get", "post", "put", "patch", "delete"}, has five elements, and a string is in it iff it is some member's value. |
| HttpMethods.FromValueRoundTrip | fastapi_cbv/http_methods.py:4-9 | Looking up a member by its value returns that member; the lookup succeeds exactly on the five values and returns the member with that value. |
| HttpMethods.ValuesHaveNoUpper | fastapi_cbv/http_methods.py:5-9 | No value contains an upper-case letter, so a name with an upper-case letter is never a value and can match only after lowering. |
| HttpMethods.Lower | fastapi_cbv/class_based_view.py:100 | Lowering keeps the length and maps each character to its lower-case form. |
| HttpMethods.LowerIdempotent | fastapi_cbv/class_based_view.py:100-105 | A lowered name has no upper-case letter, and lowering it again changes nothing. |
| Signatures.ValidateFromAccepts | fastapi_cbv/class_based_view.py:58 | The validation walk of `Signature.replace` accepts a parameter list iff kinds never decrease, no positional parameter without a default follows one with a default, and names are distinct (and consistent with the walk's starting state). |
| Signatures.ValidateAcceptsWellFormed | fastapi_cbv/class_based_view.py:128 | A rewritten signature is accepted iff it is well formed in those three senses. |
| Responses.LastWith | fastapi_cbv/class_based_view.py:73-75 | The search for the entry of a status code finds an exception iff one declares that code, and what it finds is a declared exception with that code. |
| Responses.LastWithIsLast | fastapi_cbv/class_based_view.py:73-75 | If no later exception has the same status code, the search returns exactly this exception. |
| Responses.BuildResponses | fastapi_cbv/class_based_view.py:69-89 | The loop that assigns one entry per exception, followed by `update` with the view's responses (a missing list or dictionary read as empty), yields the union table: user keys map to the user's values, and every other code maps to the example of the last exception with that code. |
| Responses.ExceptionEntriesAreTheTable | fastapi_cbv/class_based_view.py:71-84 | The dictionary built by assigning one entry per exception in list order equals the declarative table restricted to exception codes: each code maps to the example of the last exception that declares it. |
| Responses.ExceptionCodesKept | fastapi_cbv/class_based_view.py:73-87 | Every declared exception's status code is a key of the result, whether or not the user mentions it. |
| Responses.ExceptionContributesExample | fastapi_cbv/class_based_view.py:73-84 | An exception whose code no later exception and no user key claims gives the entry JSON example with exactly its message and code. |
| Responses.LaterExceptionWins | fastapi_cbv/class_based_view.py:73-75 | Of two exceptions sharing a status code, the later one determines the entry. |
| Responses.UserResponsesOverride | fastapi_cbv/class_based_view.py:86-87 | Every user key appears with the user's value, overriding any exception-derived entry. |
| Responses.TableKeys | fastapi_cbv/class_based_view.py:71-87 | The result has no keys other than the exception codes and the user's keys. |
| Responses.NothingDeclaredGivesEmptyTable | fastapi_cbv/class_based_view.py:71-89 | When exceptions and responses are each missing or empty, the result is the empty map (never missing). |
| Dependencies.RewriteInitSignature | fastapi_cbv/class_based_view.py:43-57 | The new parameters are the kept original parameters followed by one keyword-only parameter per non-ClassVar hint, in hint order. Each added parameter is named after its hint, has the hint as annotation, and has as default the class attribute or `...`. The dependency names are those hints' names, in order. |
| Dependencies.DependencyStep | fastapi_cbv/class_based_view.py:50-57 | Each hint appends its name and its parameter at the end, unless it is a ClassVar, which appends nothing. |
| Dependencies.KeptParametersAreTheNonVariadicRest | fastapi_cbv/class_based_view.py:45-48 | A parameter is kept iff it occurs after the first (`self`) position and is neither VAR_POSITIONAL nor VAR_KEYWORD. |
| Dependencies.KeptParametersKeepOrder | fastapi_cbv/class_based_view.py:46-48 | Kept parameters stay in their original order: everything kept from before any cut precedes everything kept after it. |
| Dependencies.DependencyHintsAreTheNonClassVars | fastapi_cbv/class_based_view.py:50-52 | A hint yields a dependency iff it is not a ClassVar. |
| Dependencies.ClassVarContributesNoName | fastapi_cbv/class_based_view.py:50-54 | With distinct hint names, a ClassVar hint's name is not among the dependency names. |
| Dependencies.RewrittenSignatureHasNoVariadic | fastapi_cbv/class_based_view.py:46-57 | The rewritten constructor signature contains no VAR_POSITIONAL or VAR_KEYWORD parameter. |
| Dependencies.KeptParametersWellFormed | fastapi_cbv/class_based_view.py:45-48 | Dropping `self` and the variadic parameters keeps a well-formed signature well formed, with no kind above KEYWORD_ONLY. |
| Dependencies.RewrittenSignatureValidIff | fastapi_cbv/class_based_view.py:45-58 | For a well-formed `__init__` and distinct hint names, `Signature.replace` accepts the rewritten parameters iff no dependency name is already a kept parameter's name. |
| Dependencies.PopSucceedsIff | fastapi_cbv/class_based_view.py:61-63 | With distinct names, the pop loop raises no KeyError iff every dependency name is a keyword argument. |
| Dependencies.PopRemovesExactlyTheNames | fastapi_cbv/class_based_view.py:61-64 | After a successful pop loop, the keyword arguments are the originals with exactly the dependency names removed. |
| Dependencies.PopStoresTheValues | fastapi_cbv/class_based_view.py:61-63 | After a successful pop loop, each dependency name is set on the instance to the value passed for it; other attributes are untouched. |
| Dependencies.PopMissingIsAbsent | fastapi_cbv/class_based_view.py:61-63 | A KeyError names a dependency name that was not among the keyword arguments, and attributes already stored stay stored. |
| Dependencies.WrappedInitForwards | fastapi_cbv/class_based_view.py:60-64 | Constructing through the wrapper succeeds iff every dependency is passed by keyword. The original `__init__` then receives all positional arguments unchanged and the keyword arguments without the dependencies, and each dependency is stored on the instance. |
| Dependencies.WrappingTwiceFails | fastapi_cbv/class_based_view.py:43-64 | If registration runs twice on a class with at least one dependency, the wrapper wraps a wrapper with the same names, and construction then always raises KeyError, because the outer wrapper has already popped the names the inner one looks for. |
| Routes.SelectRoutes | fastapi_cbv/class_based_view.py:97-112 | The registration loop produces exactly the specified route list: one route per verb-named function member, in member order. |
| Routes.RegisteredRoutesStep | fastapi_cbv/class_based_view.py:99-110 | A further member appends its route iff it is a function whose lowered name is a verb, and appends nothing otherwise. |
| Routes.RoutesAreVerbRoutes | fastapi_cbv/class_based_view.py:99-110 | Every route has path "/", methods `[v]` for a verb value v, and name `<class lowered>_<v>`. Its endpoint is a function member whose lowered name is v. Its status code, response model, responses and response class come from v's attributes. |
| Routes.RouteRegisteredIff | fastapi_cbv/class_based_view.py:98-100 | For distinctly named members, a member gets a route iff it is a function whose lowered name is one of the five verb values. |
| Routes.RegisteredRoutesDistinct | fastapi_cbv/class_based_view.py:98-110 | For members with distinct names, the registered routes are pairwise distinct, because their endpoints differ. So the `list.remove` at line 138 removes the route at the iterator's own position. |
| Routes.RewriteEndpointSignature | fastapi_cbv/class_based_view.py:116-128 | An empty handler signature raises IndexError, and a variadic first parameter cannot take a default (ValueError). On success: count and names are preserved; the first parameter keeps name, kind and annotation but gets default `Depends(cls)`; every later parameter keeps name, default and annotation but becomes KEYWORD_ONLY; the result is well formed. |
| Routes.RewriteSucceedsOnWellFormed | fastapi_cbv/class_based_view.py:118-128 | Any well-formed handler signature whose first parameter is not variadic is rewritten without error. |
| Routes.RewriteIdempotent | fastapi_cbv/class_based_view.py:121-126 | Rewriting an already rewritten signature changes nothing. |
| Routes.UpdateAll | fastapi_cbv/class_based_view.py:137-140 | Updating a list of routes, stopping at the first error, yields as many routes as it was given. |
| Routes.UpdateAllIff | fastapi_cbv/class_based_view.py:137-140 | Updating all routes succeeds iff each route can be updated, and then each result is that route's update, in place. |
| Routes.UpdateAllFailureSticks | fastapi_cbv/class_based_view.py:137-140 | Once a route raises, the loop raises that same error however many routes follow. |
| Routes.MoveRoutesAsWritten | fastapi_cbv/class_based_view.py:137-140 | The loop as written, which removes from the list it iterates over, moves and rewrites only the routes at even positions. Those at odd positions stay in the class router untouched. |
| Routes.AsWrittenSkipsSecondRoute | fastapi_cbv/class_based_view.py:137-140 | With two or more distinct routes, the second one is among those left behind and is not among those rewritten. |
| Routes.MoveRoutes | fastapi_cbv/class_based_view.py:137-140 | The loop as intended moves every route, rewritten and in order, and leaves the class router's own list empty. |
| ClassBasedViews.ViewClass.constructor | fastapi_cbv/class_based_view.py:14-39 | A view class starts with its own `__init__` and no `__signature__`. |
| ClassBasedViews.ViewClass.AddDependencies | fastapi_cbv/class_based_view.py:41-67 | If `Signature.replace` rejects the rewritten parameters, nothing changes. Otherwise `__signature__` becomes the rewritten signature and `__init__` becomes the wrapper around the old `__init__`. |
| ClassBasedViews.ViewClass.StartClassBasedView | fastapi_cbv/class_based_view.py:91-112 | Adds the dependencies, then returns one route per verb-named function member; a rejected signature is raised before any route is registered. |
| ClassBasedViews.ViewClass.AsView | fastapi_cbv/class_based_view.py:131-143 | Registration as written. The constructor rewrite either fails with the error `Signature.replace` raises, or it succeeds. In the second case the returned route list is the routes at odd positions, left behind with their original handler signatures, followed by the routes at even positions with their signatures rewritten. If rewriting one of those even routes raises, registration raises that first error. The requirement of distinct member names is what `inspect.getmembers` guarantees. |
| ClassBasedViews.ViewClass.AsViewAsIntended | fastapi_cbv/class_based_view.py:131-143 | Registration as evidently intended (see "## Findings"): every selected route is returned with its endpoint signature rewritten, in member order, or the first error raised. |
| ClassBasedViews.ViewInstance.Initialize | fastapi_cbv/class_based_view.py:60-64 | Running a constructor chain (wrappers around the user's `__init__`) leaves the instance's attributes and returns the outcome that the recursive definition `RunInit` gives: the call that reaches the user's `__init__`, or the missing name of the KeyError. Together with `WrappedInitForwards`, this means each popped dependency is stored on the instance. |

## Left out

- Reflection (`inspect.signature`, `inspect.getmembers`, `get_type_hints`, `is_classvar`,
  `getattr` on the class) is not modelled: its results are the inputs. `get_type_hints`
  also returns the annotations inherited from `ClassBasedView`, such as
  `get_status_code: int` and `response_class: Any`. The model handles whatever hint list
  it is given and does not compute that inheritance.
- FastAPI and Starlette (`APIRouter`, `add_api_route`, `include_router`, `Depends`) are
  foreign code. A route is the record of `add_api_route`'s arguments, and `Depends(cls)`
  is a marker naming the class. `include_router` is modelled as appending the moved routes
  to the class router's remaining ones. Re-creating the route objects is not modelled.
- Aliasing is not modelled. `setattr(route.endpoint, "__signature__", ...)` changes a
  function object that the class shares; the model changes the route record's copy of the
  signature.
- The body of the user's own `__init__` is not modelled. The model records the arguments
  it receives.
- Declared exception classes are not instantiated (`exception()` can run user code). The
  model takes the `status_code`, `message` and `code` triple as given.
- Pydantic response models and `response_class` are passed through as opaque values.
- Responses.BuildResponses: status codes and user response keys are integers. Python
  would accept any hashable key, for example the string `"404"` beside the integer `404`.
- HttpMethods.Lower: lowers ASCII letters only. Python's `str.lower` also maps non-ASCII
  letters. None of those lowers to a letter of a verb value, so verb matching is unaffected.
  `Lower` also builds the route name from the class name (line 103), and there the two
  differ for a class whose name has a non-ASCII upper-case letter: `class ÉtatView` gets
  the route name `"Étatview_get"` in the model but `"étatview_get"` in Python.
- Signatures.Validate: checks the three rules `inspect.Signature` applies when it is built.
  It does not check that a parameter name is a valid identifier or not a keyword. Return
  annotations are not modelled.
- Routes.MoveRoutesAsWritten: requires the routes to be pairwise distinct.
  `Routes.RegisteredRoutesDistinct` discharges this for the routes registration selects,
  because the model identifies an endpoint by the member name it is bound to.
  `list.remove` finds a route by Starlette's `Route.__eq__`, which compares path, endpoint
  function and methods. The model therefore matches Python only when no function object is
  bound under two member names that lower to the same verb (for example `GET = get`). For
  such an alias, Python treats the two routes as equal and `remove` may delete the earlier
  copy instead of the current one. Function identity is not modelled.
- ClassBasedViews.ViewClass.AsView: requires distinct member names and carries the same
  alias restriction as `Routes.MoveRoutesAsWritten`.

## Findings

| source | as written | input that shows it | evidently intended | confidence | as-written member | corrected member |
|---|---|---|---|---|---|---|
| fastapi_cbv/class_based_view.py:137-140 | The loop iterates over `cls_router.routes` while removing each visited route from that same list, so the iterator skips the route that slides into the freed position | A view defining both `get` and `post`: `get` is moved and its signature rewritten; `post` stays in the class router with its original signature, so `self` is never injected into it | Every route is moved to the new router and has its endpoint signature rewritten (iterate over a copy of the list) | high (Python list-iterator semantics); not executed | Routes.MoveRoutesAsWritten, used by ClassBasedViews.ViewClass.AsView and shown by Routes.AsWrittenSkipsSecondRoute | Routes.MoveRoutes, used by ClassBasedViews.ViewClass.AsViewAsIntended |
