/** mapRoutes: the id -> route index of a route list. */
module Index {
  import opened Eskip

  type RouteMap = map<string, Route>

  /** The index built left to right: a later route overwrites an earlier
      one with the same id. */
  function Indexed(rs: seq<Route>): RouteMap
  {
    if rs == [] then map[]
    else Indexed(rs[..|rs| - 1])[rs[|rs| - 1].id := rs[|rs| - 1]]
  }

  /** The index with each route replaced by its text: what a store holding
      exactly these routes contains. */
  function Snapshot(rs: seq<Route>): map<string, string>
  {
    map id | id in Indexed(rs) :: Indexed(rs)[id].body
  }

  /** Fills the map in one pass over the list. */
  method MapRoutes(routes: seq<Route>) returns (m: RouteMap)
    ensures m == Indexed(routes)
  {
    m := map[];
    for i := 0 to |routes|
      invariant m == Indexed(routes[..i])
    {
      assert routes[..i + 1][..i] == routes[..i];
      m := m[routes[i].id := routes[i]];
    }
    assert routes[..|routes|] == routes;
  }

  /** The index has a key for every id of the list and no other. */
  lemma {:induction false} IndexedKeys(rs: seq<Route>)
    ensures Indexed(rs).Keys == Ids(rs)
    decreases |rs|
  {
    if rs != [] {
      var init := rs[..|rs| - 1];
      IndexedKeys(init);
      assert rs == init + [rs[|rs| - 1]];
      forall id ensures id in Ids(rs) <==> id in Ids(init) || id == rs[|rs| - 1].id {
        if id in Ids(rs) {
          var r :| r in rs && r.id == id;
          assert r in init || r == rs[|rs| - 1];
        }
        if id in Ids(init) {
          var r :| r in init && r.id == id;
          assert r in rs;
        }
      }
    }
  }

  /** Last write wins: a route that no later route of the list shares its
      id with is the one the index holds for that id. */
  lemma {:induction false} IndexedLastWins(rs: seq<Route>, i: nat)
    requires i < |rs|
    requires forall j | i < j < |rs| :: rs[j].id != rs[i].id
    ensures rs[i].id in Indexed(rs) && Indexed(rs)[rs[i].id] == rs[i]
    decreases |rs|
  {
    if i < |rs| - 1 {
      IndexedLastWins(rs[..|rs| - 1], i);
    }
  }

  /** Every route the index holds is a route of the list, under its own id. */
  lemma {:induction false} IndexedValues(rs: seq<Route>)
    ensures forall id | id in Indexed(rs) :: Indexed(rs)[id] in rs && Indexed(rs)[id].id == id
    decreases |rs|
  {
    if rs != [] {
      var init := rs[..|rs| - 1];
      IndexedValues(init);
      forall id | id in Indexed(rs) ensures Indexed(rs)[id] in rs && Indexed(rs)[id].id == id {
        if id != rs[|rs| - 1].id {
          assert Indexed(init)[id] in init;
        }
      }
    }
  }

  /** With unique ids every route of the list is the one indexed under its id. */
  lemma IndexedUnique(rs: seq<Route>, r: Route)
    requires UniqueIds(rs)
    requires r in rs
    ensures r.id in Indexed(rs) && Indexed(rs)[r.id] == r
  {
  }

  /** The snapshot has a key for every id of the list and no other. */
  lemma SnapshotKeys(rs: seq<Route>)
    ensures Snapshot(rs).Keys == Ids(rs)
  {
    IndexedKeys(rs);
  }

  /** The index and snapshot of a two-route list with distinct ids. */
  lemma IndexedTwo(a: Route, b: Route)
    requires a.id != b.id
    ensures Indexed([a, b]) == map[a.id := a, b.id := b]
    ensures Snapshot([a, b]) == map[a.id := a.body, b.id := b.body]
  {
    assert [a, b][..1] == [a] && [a][..0] == [];
    assert Indexed([a]) == map[a.id := a];
    var ix := Indexed([a, b]);
    assert ix == map[a.id := a, b.id := b];
    assert ix.Keys == {a.id, b.id};
    var m := map[a.id := a.body, b.id := b.body];
    assert Snapshot([a, b]).Keys == m.Keys;
  }
}
