/** The commands of `eskip` that write to a route store: upsert, reset and
    delete, with the conditional delete loop they share. Each command is
    proved to issue, against a store that may fail any call, the calls of a
    fixed plan one at a time, stopping at the first failure; the plans are
    pure functions of the loaded routes, and the lemmas say what they do. */
module Reconcile {
  import opened Eskip
  import opened EtcdStore
  import opened Index
  import opened Differ

  /** The condition that holds of every route. */
  function Any(r: Route): bool
  {
    true
  }

  /** The condition reset deletes by: the route's id is not indexed in `rm`. */
  function NotSet(rm: RouteMap): Route -> bool
  {
    (r: Route) => r.id !in rm
  }

  /** The ids of the routes satisfying `cond`, in list order. */
  function SelectedIds(rs: seq<Route>, cond: Route -> bool): seq<string>
    decreases |rs|
  {
    if rs == [] then []
    else
      var last := rs[|rs| - 1];
      SelectedIds(rs[..|rs| - 1], cond) + (if cond(last) then [last.id] else [])
  }

  /** The calls reset makes when none fails: one UpsertAll of the diff of the
      desired routes against the existing ones, then one Delete per existing
      route whose id is not desired. */
  function ResetPlan(desired: seq<Route>, existing: seq<Route>): seq<Call>
  {
    [UpsertAllCall(Diff(existing, desired))] + Deletes(SelectedIds(existing, NotSet(Indexed(desired))))
  }

  lemma {:induction false} SelectedIdsSplit(a: seq<Route>, b: seq<Route>, cond: Route -> bool)
    ensures SelectedIds(a + b, cond) == SelectedIds(a, cond) + SelectedIds(b, cond)
    decreases |b|
  {
    if b == [] {
      assert a + b == a;
    } else {
      var init := b[..|b| - 1];
      SelectedIdsSplit(a, init, cond);
      assert (a + b)[..|a + b| - 1] == a + init;
    }
  }

  /** An id is selected exactly when some route of the list with that id
      satisfies the condition. */
  lemma {:induction false} SelectedIdsMembers(rs: seq<Route>, cond: Route -> bool)
    ensures forall id :: id in SelectedIds(rs, cond) <==> exists r | r in rs :: cond(r) && r.id == id
    decreases |rs|
  {
    if rs != [] {
      var init := rs[..|rs| - 1];
      SelectedIdsMembers(init, cond);
      assert rs == init + [rs[|rs| - 1]];
    }
  }

  /** Under `Any` every route is selected: the ids of the whole list, in order. */
  lemma {:induction false} AnySelectsAll(rs: seq<Route>)
    ensures |SelectedIds(rs, Any)| == |rs|
    ensures forall i | 0 <= i < |rs| :: SelectedIds(rs, Any)[i] == rs[i].id
    decreases |rs|
  {
    if rs != [] {
      AnySelectsAll(rs[..|rs| - 1]);
    }
  }

  /** Upserting a list overlays the store with the list's snapshot: its
      ids get the text of the last route with that id, the rest is kept. */
  lemma {:induction false} UpsertedOverlay(m: map<string, string>, rs: seq<Route>)
    ensures Upserted(m, rs) == m + Snapshot(rs)
    decreases |rs|
  {
    if rs != [] {
      var init := rs[..|rs| - 1];
      var last := rs[|rs| - 1];
      UpsertedOverlay(m, init);
      assert Snapshot(rs) == Snapshot(init)[last.id := last.body];
    }
  }

  /** Delete is a subtraction: after deleting every loaded route the store
      holds its old entries minus the loaded ids, whether or not it held
      them, and every other entry is unchanged. */
  lemma DeleteSubtracts(m: map<string, string>, rs: seq<Route>)
    ensures Run(m, Deletes(SelectedIds(rs, Any))) == m - Ids(rs)
  {
    var ids := SelectedIds(rs, Any);
    RunDeletes(m, ids);
    AnySelectsAll(rs);
    forall id ensures id in ids <==> id in Ids(rs) {
      if id in Ids(rs) {
        var r :| r in rs && r.id == id;
        var i :| 0 <= i < |rs| && rs[i] == r;
        assert ids[i] == id;
      }
    }
    assert (set id | id in ids) == Ids(rs);
  }

  /** The shape of reset's plan: the upsert comes first and is the only
      upsert; every later call deletes an id of an existing route that is
      not desired, hence never an id just upserted; and every such id is
      deleted. */
  lemma ResetPlanShape(desired: seq<Route>, existing: seq<Route>)
    ensures var plan := ResetPlan(desired, existing);
            && plan[0] == UpsertAllCall(Diff(existing, desired))
            && (forall k | 1 <= k < |plan| ::
                  plan[k].DeleteCall? && plan[k].id in Ids(existing) && plan[k].id !in Ids(desired)
                  && plan[k].id !in Ids(Diff(existing, desired)))
            && (forall id | id in Ids(existing) - Ids(desired) ::
                  exists k | 1 <= k < |plan| :: plan[k] == DeleteCall(id))
  {
    var plan := ResetPlan(desired, existing);
    var stale := SelectedIds(existing, NotSet(Indexed(desired)));
    SelectedIdsMembers(existing, NotSet(Indexed(desired)));
    IndexedKeys(desired);
    DiffMembers(existing, desired);
    forall k | 1 <= k < |plan|
      ensures plan[k].DeleteCall? && plan[k].id in Ids(existing) && plan[k].id !in Ids(desired)
              && plan[k].id !in Ids(Diff(existing, desired))
    {
      assert plan[k] == DeleteCall(stale[k - 1]);
      assert stale[k - 1] in stale;
      var r :| r in existing && NotSet(Indexed(desired))(r) && r.id == stale[k - 1];
    }
    forall id | id in Ids(existing) - Ids(desired)
      ensures exists k | 1 <= k < |plan| :: plan[k] == DeleteCall(id)
    {
      var r :| r in existing && r.id == id;
      assert NotSet(Indexed(desired))(r);
      assert id in stale;
      var j :| 0 <= j < |stale| && stale[j] == id;
      assert plan[j + 1] == DeleteCall(id);
    }
  }

  /** The ids reset deletes are the existing ids that are not desired. */
  lemma StaleIds(desired: seq<Route>, existing: seq<Route>)
    ensures (set id | id in SelectedIds(existing, NotSet(Indexed(desired)))) == Ids(existing) - Ids(desired)
  {
    var stale := SelectedIds(existing, NotSet(Indexed(desired)));
    SelectedIdsMembers(existing, NotSet(Indexed(desired)));
    IndexedKeys(desired);
    forall id ensures id in stale <==> id in Ids(existing) - Ids(desired) {
      if id in Ids(existing) - Ids(desired) {
        var x :| x in existing && x.id == id;
        assert NotSet(Indexed(desired))(x);
      }
    }
  }

  /** The diff only holds desired ids, and every desired id is in the diff
      or already existing. */
  lemma DiffIds(desired: seq<Route>, existing: seq<Route>)
    ensures Ids(Diff(existing, desired)) <= Ids(desired) <= Ids(existing) + Ids(Diff(existing, desired))
  {
    var diff := Diff(existing, desired);
    DiffMembers(existing, desired);
    IndexedKeys(existing);
    forall id | id in Ids(diff) ensures id in Ids(desired) {
      var r :| r in diff && r.id == id;
      assert r in desired;
    }
    forall id | id in Ids(desired) ensures id in Ids(existing) + Ids(diff) {
      var r :| r in desired && r.id == id;
      if Changed(Indexed(existing), r) {
        assert r in diff;
      }
    }
  }

  /** After the upsert, a desired id holds its desired text: from the diff
      when the route was new or changed, from the store otherwise. */
  lemma UpsertedDesiredText(desired: seq<Route>, existing: seq<Route>, id: string)
    requires UniqueIds(desired)
    requires id in Ids(desired)
    ensures id in Snapshot(desired)
    ensures id in Snapshot(existing) || id in Snapshot(Diff(existing, desired))
    ensures (Snapshot(existing) + Snapshot(Diff(existing, desired)))[id] == Snapshot(desired)[id]
  {
    var diff := Diff(existing, desired);
    SnapshotKeys(desired);
    DiffMembers(existing, desired);
    IndexedValues(desired);
    DiffIds(desired, existing);
    SnapshotKeys(existing);
    SnapshotKeys(diff);
    var r := Indexed(desired)[id];
    if id in Indexed(diff) {
      IndexedValues(diff);
      var u := Indexed(diff)[id];
      assert u in desired;
      IndexedUnique(desired, u);
    } else {
      IndexedKeys(diff);
      assert r !in diff;
    }
  }

  /** Running reset's plan to the end overlays the store with the diff's
      snapshot and then removes the existing ids that are not desired. */
  lemma ResetRun(m: map<string, string>, desired: seq<Route>, existing: seq<Route>)
    ensures Run(m, ResetPlan(desired, existing))
            == (m + Snapshot(Diff(existing, desired))) - (Ids(existing) - Ids(desired))
  {
    var plan := ResetPlan(desired, existing);
    var diff := Diff(existing, desired);
    var stale := SelectedIds(existing, NotSet(Indexed(desired)));
    assert plan[0] == UpsertAllCall(diff);
    assert plan[1..] == Deletes(stale);
    assert Run(m, plan) == Run(Upserted(m, diff), Deletes(stale));
    RunDeletes(Upserted(m, diff), stale);
    UpsertedOverlay(m, diff);
    StaleIds(desired, existing);
  }

  /** Convergence: starting from a store that holds exactly the existing
      routes, a reset that succeeds leaves exactly the desired routes, each
      under its id with its text, provided the desired ids are unique. */
  lemma ResetConverges(desired: seq<Route>, existing: seq<Route>)
    requires UniqueIds(desired)
    ensures Run(Snapshot(existing), ResetPlan(desired, existing)) == Snapshot(desired)
  {
    var diff := Diff(existing, desired);
    var result := (Snapshot(existing) + Snapshot(diff)) - (Ids(existing) - Ids(desired));
    ResetRun(Snapshot(existing), desired, existing);
    DiffIds(desired, existing);
    SnapshotKeys(existing);
    SnapshotKeys(diff);
    SnapshotKeys(desired);
    assert result.Keys == Snapshot(desired).Keys;
    forall id | id in result ensures result[id] == Snapshot(desired)[id] {
      UpsertedDesiredText(desired, existing, id);
    }
  }

  /** Nothing is selected when no route satisfies the condition. */
  lemma {:induction false} NoneSelected(rs: seq<Route>, cond: Route -> bool)
    requires forall r | r in rs :: !cond(r)
    ensures SelectedIds(rs, cond) == []
    decreases |rs|
  {
    if rs != [] {
      NoneSelected(rs[..|rs| - 1], cond);
    }
  }

  /** Running reset a second time changes nothing: once the store holds the
      desired routes, the diff is empty and no id is stale, so the plan is a
      single UpsertAll of no routes. */
  lemma ResetIdempotent(desired: seq<Route>, existing: seq<Route>)
    requires UniqueIds(desired)
    requires Snapshot(existing) == Snapshot(desired)
    ensures ResetPlan(desired, existing) == [UpsertAllCall([])]
  {
    var stale := SelectedIds(existing, NotSet(Indexed(desired)));
    SnapshotKeys(existing);
    SnapshotKeys(desired);
    IndexedKeys(desired);
    forall r | r in desired ensures !Changed(Indexed(existing), r) {
      IndexedUnique(desired, r);
      assert Snapshot(existing)[r.id] == Snapshot(desired)[r.id];
    }
    forall r | r in existing ensures !NotSet(Indexed(desired))(r) {
      assert r.id in Ids(existing);
    }
    DiffUnchanged(existing, desired);
    NoneSelected(existing, NotSet(Indexed(desired)));
    assert Deletes(stale) == [];
  }

  /** Two resets in a row: the second, run on the store the first left and
      on a snapshot that reads that store back, leaves the store unchanged. */
  lemma ResetTwiceKeepsStore(desired: seq<Route>, existing: seq<Route>, reread: seq<Route>)
    requires UniqueIds(desired)
    requires Snapshot(reread) == Run(Snapshot(existing), ResetPlan(desired, existing))
    ensures Run(Snapshot(reread), ResetPlan(desired, reread)) == Snapshot(reread)
  {
    ResetConverges(desired, existing);
    ResetIdempotent(desired, reread);
    assert [UpsertAllCall([])][1..] == [];
  }

  /** If reset's upsert fails, the command stops there: the store is as
      before, and no Delete is issued. */
  lemma ResetUpsertFailureStops(s: StoreState, faults: set<nat>, desired: seq<Route>, existing: seq<Route>)
    requires |s.log| in faults
    ensures Execute(s, faults, ResetPlan(desired, existing)) ==
            (StoreState(s.entries, s.log + [UpsertAllCall(Diff(existing, desired))]), Fail(StoreError(|s.log|)))
  {
  }

  /** Convergence needs unique desired ids: with two desired routes under
      one id, of which the store already holds the later, reset writes the
      earlier one and the store ends up disagreeing with the desired index. */
  lemma ResetNeedsUniqueDesired()
    ensures var desired, existing := [Route("x", "a"), Route("x", "b")], [Route("x", "b")];
            Run(Snapshot(existing), ResetPlan(desired, existing)) == map["x" := "a"] != Snapshot(desired)
  {
    var desired, existing := [Route("x", "a"), Route("x", "b")], [Route("x", "b")];
    assert desired[..1] == [Route("x", "a")];
    assert desired[..1][..0] == [];
    assert existing[..0] == [];
    assert Indexed(desired) == map["x" := Route("x", "b")];
    assert Indexed(existing) == map["x" := Route("x", "b")];
    assert Diff(existing, desired) == [Route("x", "a")];
    assert SelectedIds(existing, NotSet(Indexed(desired))) == [];
    var plan := ResetPlan(desired, existing);
    assert plan == [UpsertAllCall([Route("x", "a")])];
    assert plan[1..] == [];
    assert Snapshot(existing) == map["x" := "b"];
    assert [Route("x", "a")][..0] == [];
    assert Upserted(map["x" := "b"], [Route("x", "a")]) == map["x" := "a"];
    assert Run(Snapshot(existing), plan) == Upserted(map["x" := "b"], [Route("x", "a")]);
    assert Snapshot(desired)["x"] == "b";
  }

  /** A worked reset: with A and B existing and A (changed) and C (new)
      desired, reset upserts A and C and deletes B. */
  lemma ResetExamplePlan()
    ensures ResetPlan([Route("A", "v2"), Route("C", "v1")], [Route("A", "v1"), Route("B", "v1")])
            == [UpsertAllCall([Route("A", "v2"), Route("C", "v1")]), DeleteCall("B")]
  {
    var existing := [Route("A", "v1"), Route("B", "v1")];
    var desired := [Route("A", "v2"), Route("C", "v1")];
    IndexedTwo(existing[0], existing[1]);
    IndexedTwo(desired[0], desired[1]);
    assert existing[..1] == [existing[0]] && existing[..1][..0] == [];
    assert desired[..1] == [desired[0]] && desired[..1][..0] == [];
    assert Diff(existing, desired) == desired;
    assert SelectedIds(existing, NotSet(Indexed(desired))) == ["B"];
    assert Deletes(["B"]) == [DeleteCall("B")];
  }

  /** The same reset, run to the end from a store holding A and B, leaves
      exactly A with its new text and C. */
  lemma ResetExampleFinal()
    ensures Run(map["A" := "v1", "B" := "v1"],
                ResetPlan([Route("A", "v2"), Route("C", "v1")], [Route("A", "v1"), Route("B", "v1")]))
            == map["A" := "v2", "C" := "v1"]
  {
    var existing := [Route("A", "v1"), Route("B", "v1")];
    var desired := [Route("A", "v2"), Route("C", "v1")];
    IndexedTwo(existing[0], existing[1]);
    IndexedTwo(desired[0], desired[1]);
    assert UniqueIds(desired);
    ResetConverges(desired, existing);
  }

  /** Upserts the routes of `update` that are new or changed with respect
      to `existing`, in one UpsertAll call. */
  method UpsertDifferent(existing: seq<Route>, update: seq<Route>, store: Store) returns (res: Outcome)
    modifies store
    ensures (store.State(), res) == Execute(old(store.State()), store.faults, [UpsertAllCall(Diff(existing, update))])
  {
    var diff := TakeDiff(existing, update);
    res := store.UpsertAll(diff);
  }

  /** Deletes, in list order, the id of every route that satisfies `cond`,
      returning the first error and issuing nothing after it. */
  method DeleteAllIf(routes: seq<Route>, store: Store, cond: Route -> bool) returns (res: Outcome)
    modifies store
    ensures (store.State(), res) == Execute(old(store.State()), store.faults, Deletes(SelectedIds(routes, cond)))
  {
    ghost var s0 := store.State();
    for i := 0 to |routes|
      invariant (store.State(), Pass) == Execute(s0, store.faults, Deletes(SelectedIds(routes[..i], cond)))
    {
      var r := routes[i];
      ghost var done := Deletes(SelectedIds(routes[..i], cond));
      assert routes[..i + 1][..i] == routes[..i];
      if !cond(r) {
        assert SelectedIds(routes[..i + 1], cond) == SelectedIds(routes[..i], cond);
        continue;
      }
      DeletesAppend(SelectedIds(routes[..i], cond), [r.id]);
      assert Deletes([r.id]) == [DeleteCall(r.id)];
      ExecuteAppend(s0, store.faults, done, [DeleteCall(r.id)]);
      ghost var before := store.State();
      res := store.Delete(r.id);
      assert [DeleteCall(r.id)][1..] == [];
      if res.Fail? {
        SelectedIdsSplit(routes[..i + 1], routes[i + 1..], cond);
        assert routes[..i + 1] + routes[i + 1..] == routes;
        DeletesAppend(SelectedIds(routes[..i + 1], cond), SelectedIds(routes[i + 1..], cond));
        ExecuteAppend(s0, store.faults, Deletes(SelectedIds(routes[..i + 1], cond)), Deletes(SelectedIds(routes[i + 1..], cond)));
        return;
      }
      assert SelectedIds(routes[..i + 1], cond) == SelectedIds(routes[..i], cond) + [r.id];
      assert Execute(before, store.faults, [DeleteCall(r.id)]) == (store.State(), Pass);
    }
    assert routes[..|routes|] == routes;
    res := Pass;
  }

  /** upsert: upserts every loaded route in one call, without looking at
      the store and without deleting anything. */
  method UpsertCmd(input: Load, store: Store) returns (res: Outcome)
    modifies store
    ensures input.LoadFailed? ==> res == Fail(LoadError(input.reason)) && store.State() == old(store.State())
    ensures input.Loaded? ==> (store.State(), res) == Execute(old(store.State()), store.faults, [UpsertAllCall(input.routes)])
    ensures input.Loaded? ==> store.log == old(store.log) + [UpsertAllCall(input.routes)]
  {
    if input.LoadFailed? {
      return Fail(LoadError(input.reason));
    }
    res := store.UpsertAll(input.routes);
  }

  /** reset: upserts the new and changed routes, then deletes the existing
      routes whose id is not desired. `existing` is what the unchecked load
      of the store returned. */
  method ResetCmd(input: Load, existing: seq<Route>, store: Store) returns (res: Outcome)
    modifies store
    ensures input.LoadFailed? ==> res == Fail(LoadError(input.reason)) && store.State() == old(store.State())
    ensures input.Loaded? ==> (store.State(), res) == Execute(old(store.State()), store.faults, ResetPlan(input.routes, existing))
    ensures input.Loaded? && res.Pass? && UniqueIds(input.routes) && old(store.entries) == Snapshot(existing)
            ==> store.entries == Snapshot(input.routes)
  {
    if input.LoadFailed? {
      return Fail(LoadError(input.reason));
    }
    var routes := input.routes;
    ghost var s0 := store.State();
    ghost var upsert := [UpsertAllCall(Diff(existing, routes))];
    ghost var deletes := Deletes(SelectedIds(existing, NotSet(Indexed(routes))));
    ExecuteAppend(s0, store.faults, upsert, deletes);
    res := UpsertDifferent(existing, routes, store);
    if res.Fail? {
      return;
    }
    var rm := MapRoutes(routes);
    res := DeleteAllIf(existing, store, NotSet(rm));
    if res.Pass? && UniqueIds(routes) && s0.entries == Snapshot(existing) {
      var plan := ResetPlan(routes, existing);
      ExecuteStopsAtFirstFailure(s0, store.faults, plan);
      assert plan[..|plan|] == plan;
      ResetConverges(routes, existing);
    }
  }

  /** delete: deletes every loaded route, in order; on success the store
      holds its old entries minus the loaded ids. */
  method DeleteCmd(input: Load, store: Store) returns (res: Outcome)
    modifies store
    ensures input.LoadFailed? ==> res == Fail(LoadError(input.reason)) && store.State() == old(store.State())
    ensures input.Loaded? ==> (store.State(), res) == Execute(old(store.State()), store.faults, Deletes(SelectedIds(input.routes, Any)))
    ensures input.Loaded? && res.Pass? ==> store.entries == old(store.entries) - Ids(input.routes)
  {
    if input.LoadFailed? {
      return Fail(LoadError(input.reason));
    }
    ghost var s0 := store.State();
    res := DeleteAllIf(input.routes, store, Any);
    if res.Pass? {
      var plan := Deletes(SelectedIds(input.routes, Any));
      ExecuteStopsAtFirstFailure(s0, store.faults, plan);
      assert plan[..|plan|] == plan;
      DeleteSubtracts(s0.entries, input.routes);
    }
  }
}
