/** The values the eskip command works on: routes as the reconciler sees
    them, the outcome of a command and the result of a checked load. */
module Eskip {

  /** A route reduced to what the reconciler looks at: its id and its
      canonical text, the string Route.String() prints for it. Two routes
      are the same for the reconciler when their texts are equal. */
  datatype Route = Route(id: string, body: string)

  /** Why a command stopped: its checked load failed, or the store call
      with the given number (counted from the store's first call) failed. */
  datatype Error = LoadError(reason: string) | StoreError(call: nat)

  /** The `error` a command returns: nil, or the first error met. */
  datatype Outcome = Pass | Fail(error: Error)

  /** What a checked load of the input medium gives back: the routes, or
      the reason it refused them (a parse error or a duplicate id). */
  datatype Load = Loaded(routes: seq<Route>) | LoadFailed(reason: string)

  /** The ids occurring in a route list. */
  function Ids(rs: seq<Route>): set<string>
  {
    set r | r in rs :: r.id
  }

  /** No two routes of the list share an id (what a checked load guarantees). */
  predicate UniqueIds(rs: seq<Route>)
  {
    forall i, j | 0 <= i < j < |rs| :: rs[i].id != rs[j].id
  }
}
