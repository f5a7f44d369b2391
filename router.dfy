/**
 * The routing `match` of `handle_client`: prefix tests on the raw request
 * text, tried in a fixed order, the first that holds deciding the route.
 */
module Router {
  import opened Wrappers
  import opened Text

  datatype Route = Preflight | Create | ReadOne | ReadAll | Update | Delete | NoRoute

  const OptionsPrefix: string := "OPTIONS"
  const CreatePrefix: string := "POST /api/rust/users"
  const ReadOnePrefix: string := "GET /api/rust/users/"
  const ReadAllPrefix: string := "GET /api/rust/users"
  const UpdatePrefix: string := "PUT /api/rust/users/"
  const DeletePrefix: string := "DELETE /api/rust/users/"

  /**
   * The guard cascade, arm by arm. A handler is only chosen for a request that
   * starts with that handler's prefix.
   */
  function RouteOf(request: string): (r: Route)
    ensures r != NoRoute ==>
      exists j :: 0 <= j < |RouteTable| && RouteTable[j].1 == r && StartsWith(request, RouteTable[j].0)
  {
    if StartsWith(request, OptionsPrefix) then assert RouteTable[0] == (OptionsPrefix, Preflight); Preflight
    else if StartsWith(request, CreatePrefix) then assert RouteTable[1] == (CreatePrefix, Create); Create
    else if StartsWith(request, ReadOnePrefix) then assert RouteTable[2] == (ReadOnePrefix, ReadOne); ReadOne
    else if StartsWith(request, ReadAllPrefix) then assert RouteTable[3] == (ReadAllPrefix, ReadAll); ReadAll
    else if StartsWith(request, UpdatePrefix) then assert RouteTable[4] == (UpdatePrefix, Update); Update
    else if StartsWith(request, DeletePrefix) then assert RouteTable[5] == (DeletePrefix, Delete); Delete
    else NoRoute
  }

  /** The same routes as a table, in the order the cascade tries them. */
  const RouteTable: seq<(string, Route)> := [
    (OptionsPrefix, Preflight),
    (CreatePrefix, Create),
    (ReadOnePrefix, ReadOne),
    (ReadAllPrefix, ReadAll),
    (UpdatePrefix, Update),
    (DeletePrefix, Delete)
  ]

  /** The index of the first entry whose prefix the request starts with. */
  function FirstMatch(table: seq<(string, Route)>, request: string): (r: Option<nat>)
    ensures r.Some? ==>
      && r.value < |table|
      && StartsWith(request, table[r.value].0)
      && forall j :: 0 <= j < r.value ==> !StartsWith(request, table[j].0)
    ensures r.None? ==> forall j :: 0 <= j < |table| ==> !StartsWith(request, table[j].0)
  {
    if table == [] then None
    else if StartsWith(request, table[0].0) then Some(0)
    else
      match FirstMatch(table[1..], request)
      case None => None
      case Some(i) => Some(i + 1)
  }

  /** The route a table selects, `NoRoute` when no entry matches. */
  function TableRoute(table: seq<(string, Route)>, request: string): Route
  {
    match FirstMatch(table, request)
    case None => NoRoute
    case Some(i) => table[i].1
  }

  /** The cascade is first-match dispatch over the route table. */
  lemma RouteOfIsFirstMatch(request: string)
    ensures RouteOf(request) == TableRoute(RouteTable, request)
  {
  }

  /** Any request starting with `OPTIONS` is a preflight, whatever follows. */
  lemma OptionsAlwaysPreflight(request: string)
    requires StartsWith(request, OptionsPrefix)
    ensures RouteOf(request) == Preflight
  {
  }

  /** The single-user prefix extends the list prefix, so the list arm must come after it. */
  lemma ReadOnePrefixExtendsReadAll(request: string)
    requires StartsWith(request, ReadOnePrefix)
    ensures StartsWith(request, ReadAllPrefix)
  {
  }

  /** A request with the single-user prefix always reaches the single-user handler. */
  lemma ReadOneShadowsReadAll(request: string)
    requires StartsWith(request, ReadOnePrefix)
    ensures RouteOf(request) == ReadOne
  {
    ReadOnePrefixExtendsReadAll(request);
    assert !StartsWith(request, OptionsPrefix) by {
      assert request[..|ReadOnePrefix|][0] == 'G';
      assert |OptionsPrefix| <= |request| ==> request[..|OptionsPrefix|][0] == 'G';
    }
    assert !StartsWith(request, CreatePrefix) by {
      assert |CreatePrefix| <= |request| ==> request[..|CreatePrefix|][0] == 'G';
    }
  }

  /** The list handler is reached exactly by the list prefix not followed by `/`. */
  lemma ReadAllExactly(request: string)
    ensures RouteOf(request) == ReadAll <==>
      StartsWith(request, ReadAllPrefix) && !StartsWith(request, ReadOnePrefix)
  {
    if StartsWith(request, ReadOnePrefix) {
      ReadOneShadowsReadAll(request);
    } else if StartsWith(request, ReadAllPrefix) {
      assert request[..|ReadAllPrefix|][0] == 'G';
      assert |OptionsPrefix| <= |request| ==> request[..|OptionsPrefix|][0] == 'G';
      assert |CreatePrefix| <= |request| ==> request[..|CreatePrefix|][0] == 'G';
    }
  }

  /** A request matching none of the six prefixes, and only such a request, has no route. */
  lemma NoRouteExactly(request: string)
    ensures RouteOf(request) == NoRoute <==>
      forall j :: 0 <= j < |RouteTable| ==> !StartsWith(request, RouteTable[j].0)
  {
  }

  /** The table with the list route tried before the single-user route. */
  const SwappedTable: seq<(string, Route)> := [
    (OptionsPrefix, Preflight),
    (CreatePrefix, Create),
    (ReadAllPrefix, ReadAll),
    (ReadOnePrefix, ReadOne),
    (UpdatePrefix, Update),
    (DeletePrefix, Delete)
  ]

  /** The order matters: tried after the list route, the single-user route is never chosen. */
  lemma SwappedOrderHidesReadOne(request: string)
    ensures TableRoute(SwappedTable, request) != ReadOne
  {
    var m := FirstMatch(SwappedTable, request);
    if StartsWith(request, ReadOnePrefix) {
      ReadOnePrefixExtendsReadAll(request);
      assert StartsWith(request, SwappedTable[2].0);
      assert m.Some? && m.value <= 2;
    }
  }
}
