/** The route store the commands write to, reduced to the two calls the
    reconciler makes on it: UpsertAll and Delete. Every call is recorded in
    a log, and a fixed set of call numbers says which calls fail, so that
    every pattern of store failures can be reasoned about. */
module EtcdStore {
  import opened Eskip

  /** One call made on the store. */
  datatype Call = UpsertAllCall(routes: seq<Route>) | DeleteCall(id: string)

  /** What the store holds (id -> route text) and the calls made so far. */
  datatype StoreState = StoreState(entries: map<string, string>, log: seq<Call>)

  /** The entries after writing the routes one after the other, each
      overwriting whatever the store held under its id. */
  function Upserted(m: map<string, string>, rs: seq<Route>): map<string, string>
  {
    if rs == [] then m
    else Upserted(m, rs[..|rs| - 1])[rs[|rs| - 1].id := rs[|rs| - 1].body]
  }

  /** One Delete call per id, in the order of the ids. */
  function Deletes(ids: seq<string>): seq<Call>
  {
    seq(|ids|, k requires 0 <= k < |ids| => DeleteCall(ids[k]))
  }

  /** The effect of one successful call. Deleting an id the store does not
      hold changes nothing and is not an error. */
  function Apply(m: map<string, string>, c: Call): map<string, string>
  {
    match c
    case UpsertAllCall(rs) => Upserted(m, rs)
    case DeleteCall(id) => m - {id}
  }

  /** The entries after every call of `calls` succeeded. */
  function Run(m: map<string, string>, calls: seq<Call>): map<string, string>
    decreases |calls|
  {
    if calls == [] then m else Run(Apply(m, calls[0]), calls[1..])
  }

  /** Issuing the calls of `plan` one at a time and stopping at the first
      one that fails: the state afterwards and the error returned. A call
      fails when its number (the length of the log before it) is in
      `faults`; it is logged and has no effect. */
  function Execute(s: StoreState, faults: set<nat>, plan: seq<Call>): (StoreState, Outcome)
    decreases |plan|
  {
    if plan == [] then (s, Pass)
    else if |s.log| in faults then
      (StoreState(s.entries, s.log + [plan[0]]), Fail(StoreError(|s.log|)))
    else
      Execute(StoreState(Apply(s.entries, plan[0]), s.log + [plan[0]]), faults, plan[1..])
  }

  /** How many of `count` calls, numbered from `start`, succeed before the
      first one that fails. */
  function Succeeding(faults: set<nat>, start: nat, count: nat): (k: nat)
    ensures k <= count
    ensures forall j | start <= j < start + k :: j !in faults
    ensures k < count ==> start + k in faults
    decreases count
  {
    if count == 0 || start in faults then 0
    else 1 + Succeeding(faults, start + 1, count - 1)
  }

  /** Abort on first error: the calls that succeed are exactly those before
      the first failing one, only they change the entries, the failing call
      is the last one issued and its number is the error returned. */
  lemma {:induction false} ExecuteStopsAtFirstFailure(s: StoreState, faults: set<nat>, plan: seq<Call>)
    ensures var k := Succeeding(faults, |s.log|, |plan|);
            var r := Execute(s, faults, plan);
            && r.1 == (if k == |plan| then Pass else Fail(StoreError(|s.log| + k)))
            && r.0.entries == Run(s.entries, plan[..k])
            && r.0.log == s.log + plan[..if k == |plan| then k else k + 1]
    decreases |plan|
  {
    if plan != [] && |s.log| !in faults {
      var s' := StoreState(Apply(s.entries, plan[0]), s.log + [plan[0]]);
      ExecuteStopsAtFirstFailure(s', faults, plan[1..]);
      var k' := Succeeding(faults, |s'.log|, |plan| - 1);
      var n' := if k' == |plan| - 1 then k' else k' + 1;
      assert plan[..k' + 1] == [plan[0]] + plan[1..][..k'];
      assert plan[..n' + 1] == [plan[0]] + plan[1..][..n'];
    }
  }

  /** Running `p` then `q` is running `p` and, unless it failed, `q` from
      where `p` left the store. */
  lemma {:induction false} ExecuteAppend(s: StoreState, faults: set<nat>, p: seq<Call>, q: seq<Call>)
    ensures Execute(s, faults, p + q) ==
            if Execute(s, faults, p).1.Fail? then Execute(s, faults, p)
            else Execute(Execute(s, faults, p).0, faults, q)
    decreases |p|
  {
    if p == [] {
      assert p + q == q;
    } else {
      assert (p + q)[0] == p[0];
      if |s.log| !in faults {
        assert (p + q)[1..] == p[1..] + q;
        ExecuteAppend(StoreState(Apply(s.entries, p[0]), s.log + [p[0]]), faults, p[1..], q);
      }
    }
  }

  /** The Delete calls for two id lists in a row are those of their concatenation. */
  lemma DeletesAppend(a: seq<string>, b: seq<string>)
    ensures Deletes(a + b) == Deletes(a) + Deletes(b)
  {
  }

  /** Deleting ids one by one removes exactly those ids and keeps every
      other entry as it was, whether or not the store held them. */
  lemma {:induction false} RunDeletes(m: map<string, string>, ids: seq<string>)
    ensures Run(m, Deletes(ids)) == m - (set id | id in ids)
    decreases |ids|
  {
    if ids != [] {
      assert Deletes(ids)[1..] == Deletes(ids[1..]);
      RunDeletes(m - {ids[0]}, ids[1..]);
      assert (set id | id in ids) == {ids[0]} + (set id | id in ids[1..]);
    }
  }

  /** The in-memory stand-in for the store client. */
  class Store {
    var entries: map<string, string>
    var log: seq<Call>
    /** The numbers of the calls that fail. */
    const faults: set<nat>

    function State(): StoreState
      reads this
    {
      StoreState(entries, log)
    }

    constructor (initial: map<string, string>, faults: set<nat>)
      ensures entries == initial && log == [] && this.faults == faults
    {
      entries := initial;
      log := [];
      this.faults := faults;
    }

    /** Writes every route under its id; fails as a whole when the oracle says so. */
    method UpsertAll(routes: seq<Route>) returns (res: Outcome)
      modifies this
      ensures log == old(log) + [UpsertAllCall(routes)]
      ensures res == if |old(log)| in faults then Fail(StoreError(|old(log)|)) else Pass
      ensures entries == if res.Fail? then old(entries) else Upserted(old(entries), routes)
    {
      var n := |log|;
      log := log + [UpsertAllCall(routes)];
      if n in faults {
        res := Fail(StoreError(n));
      } else {
        entries := Upserted(entries, routes);
        res := Pass;
      }
    }

    /** Removes the entry under `id`, if any; fails when the oracle says so. */
    method Delete(id: string) returns (res: Outcome)
      modifies this
      ensures log == old(log) + [DeleteCall(id)]
      ensures res == if |old(log)| in faults then Fail(StoreError(|old(log)|)) else Pass
      ensures entries == if res.Fail? then old(entries) else old(entries) - {id}
    {
      var n := |log|;
      log := log + [DeleteCall(id)];
      if n in faults {
        res := Fail(StoreError(n));
      } else {
        entries := entries - {id};
        res := Pass;
      }
    }
  }
}
