/** routesDiffer and takeDiff: the one-directional diff of a route list
    against a reference list. */
module Differ {
  import opened Eskip
  import opened Index

  /** Two routes differ when their canonical texts differ. */
  function RoutesDiffer(left: Route, right: Route): (d: bool)
    ensures left == right ==> !d
  {
    left.body != right.body
  }

  /** A route belongs to the diff against the index `mref` when its id is
      not indexed or the indexed route's text differs from its own. */
  predicate Changed(mref: RouteMap, r: Route)
  {
    r.id !in mref || RoutesDiffer(mref[r.id], r)
  }

  /** The routes of `routes` that are new or changed with respect to `ref`,
      in their order in `routes`. */
  function Diff(ref: seq<Route>, routes: seq<Route>): seq<Route>
    decreases |routes|
  {
    if routes == [] then []
    else
      var last := routes[|routes| - 1];
      Diff(ref, routes[..|routes| - 1]) + (if Changed(Indexed(ref), last) then [last] else [])
  }

  /** The positions in `routes` of the routes `Diff` keeps, in increasing order. */
  ghost function KeptPositions(ref: seq<Route>, routes: seq<Route>): seq<nat>
    decreases |routes|
  {
    if routes == [] then []
    else
      var n := |routes| - 1;
      KeptPositions(ref, routes[..n]) + (if Changed(Indexed(ref), routes[n]) then [n] else [])
  }

  /** Indexes the reference and appends each new or changed route. */
  method TakeDiff(ref: seq<Route>, routes: seq<Route>) returns (diff: seq<Route>)
    ensures diff == Diff(ref, routes)
  {
    var mref := MapRoutes(ref);
    diff := [];
    for i := 0 to |routes|
      invariant diff == Diff(ref, routes[..i])
    {
      var r := routes[i];
      assert routes[..i + 1][..i] == routes[..i];
      if r.id !in mref || RoutesDiffer(mref[r.id], r) {
        diff := diff + [r];
      }
    }
    assert routes[..|routes|] == routes;
  }

  /** The diff is the subsequence of `routes` at the increasing positions
      whose route is changed, and a position is kept exactly when its route
      is changed: order is kept, nothing unchanged gets in and nothing
      changed is left out. */
  lemma {:induction false} DiffPositions(ref: seq<Route>, routes: seq<Route>)
    ensures var d, p := Diff(ref, routes), KeptPositions(ref, routes);
            && |p| == |d|
            && (forall k | 0 <= k < |p| :: p[k] < |routes| && d[k] == routes[p[k]])
            && (forall k, l | 0 <= k < l < |p| :: p[k] < p[l])
            && (forall i | 0 <= i < |routes| :: i in p <==> Changed(Indexed(ref), routes[i]))
    decreases |routes|
  {
    if routes != [] {
      var n := |routes| - 1;
      var init := routes[..n];
      DiffPositions(ref, init);
      var p := KeptPositions(ref, init);
      assert forall i | 0 <= i < n :: init[i] == routes[i];
      assert forall k | 0 <= k < |p| :: p[k] < n;
    }
  }

  /** A route is in the diff exactly when it is in `routes` and is new or
      changed with respect to the index of `ref`. */
  lemma {:induction false} DiffMembers(ref: seq<Route>, routes: seq<Route>)
    ensures forall r :: r in Diff(ref, routes) <==> r in routes && Changed(Indexed(ref), r)
    decreases |routes|
  {
    if routes != [] {
      var init := routes[..|routes| - 1];
      DiffMembers(ref, init);
      assert routes == init + [routes[|routes| - 1]];
    }
  }

  /** The diff is empty when no route is new or changed. */
  lemma {:induction false} DiffUnchanged(ref: seq<Route>, routes: seq<Route>)
    requires forall r | r in routes :: !Changed(Indexed(ref), r)
    ensures Diff(ref, routes) == []
    decreases |routes|
  {
    if routes != [] {
      DiffUnchanged(ref, routes[..|routes| - 1]);
    }
  }

  /** A list with unique ids has nothing new or changed against itself. */
  lemma DiffOfSelfEmpty(ref: seq<Route>)
    requires UniqueIds(ref)
    ensures Diff(ref, ref) == []
  {
    forall r | r in ref ensures !Changed(Indexed(ref), r) {
      IndexedUnique(ref, r);
    }
    DiffUnchanged(ref, ref);
  }

  /** Without unique ids the diff of a list against itself need not be
      empty: the earlier of two routes sharing an id differs from the later
      one, which is the one indexed. */
  lemma DiffOfSelfWithDuplicateIds()
    ensures var ref := [Route("x", "a"), Route("x", "b")];
            Diff(ref, ref) == [Route("x", "a")]
  {
  }
}
