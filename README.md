# eskip write commands: reconciling a route store

This project models the part of skipper's `eskip` command-line tool that
writes routes to a remote route store (`cmd/eskip/write.go`). The store
only offers two calls: upsert a list of routes by id, and delete one id.
Three commands are built on them:

- **upsert** writes every loaded route.
- **reset** makes the store hold exactly the loaded routes. It upserts only
  the routes that are new or whose text changed, then deletes the existing
  routes whose id is not loaded.
- **delete** deletes every loaded route's id.

Two helpers sit underneath. `mapRoutes` indexes a route list by id, with
the last route winning. `takeDiff` keeps, in order, the routes that are
missing from a reference list or differ from it. A route is reduced to its
id and its canonical text (what `Route.String()` prints), and two routes
with the same id are "the same" when their texts are equal.

Modules:

- `Eskip` (eskip.dfy): routes, the outcome of a command, and what a checked load returns.
- `EtcdStore` (store.dfy): the store as a class with `UpsertAll` and `Delete`.
  The class keeps a log of the calls it received. A fixed set of call
  numbers (`faults`) says which calls fail, so every pattern of store
  failures is covered. `Execute` is the pure meaning of "issue these calls
  one at a time and stop at the first error".
- `Index` (index.dfy): `mapRoutes`.
- `Differ` (differ.dfy): `routesDiffer` and `takeDiff`.
- `Reconcile` (reconcile.dfy): `deleteAllIf`, `upsertDifferent` and the three commands.

Each command method is proved to leave the store, and return the error,
that `Execute` gives for a pure plan of calls (`ResetPlan` for reset). The
lemmas then prove what those plans achieve: convergence, subtraction and
idempotence.

Decisions:

- **Delete of a missing id.** It succeeds and changes nothing. A Delete
  call fails only when the fault set says so. So the duplicate ids an
  unchecked load of the store may return only cause a harmless repeated
  delete.
- **Failed calls.** A failed call is still logged, because it was issued,
  but it changes nothing.
- **Loads.** The checked load of the input is a `Load` value: the routes,
  or the reason for failure. The unchecked load of the store is the
  `existing` parameter of `ResetCmd`. Convergence assumes that this load
  returned every stored route. A stored route that the unchecked load
  drops, and whose id is not desired, is never deleted and survives reset
  (`ResetRun` removes only the ids of `existing`).

Two facts about the code depend on unique ids:

- `takeDiff(A, A)` is empty only when the ids of `A` are unique
  (`DiffOfSelfEmpty`). `DiffOfSelfWithDuplicateIds` shows that
  `[x:"a", x:"b"]` gives `[x:"a"]`.
- Convergence of reset needs the desired ids to be unique. The code relies
  on the checked load to reject duplicates. `ResetNeedsUniqueDesired` shows
  why: with two desired routes under one id, the store ends up holding the
  earlier one, while the desired index holds the later one.

## Model

| member | source | states |
|---|---|---|
| `Index.MapRoutes` | cmd/eskip/write.go:32-39 | the loop returns the last-wins index `Indexed(routes)` of the list |
| `Index.IndexedKeys` | cmd/eskip/write.go:32-39 | the index has a key for every id of the list and for no other id |
| `Index.IndexedLastWins` | cmd/eskip/write.go:34-36 | a route that no later route shares its id with is the one indexed under that id |
| `Index.IndexedValues` | cmd/eskip/write.go:32-39 | every indexed route is a route of the list, stored under its own id |
| `Index.IndexedUnique` | cmd/eskip/write.go:32-39 | when ids are unique, every route of the list is the one indexed under its id |
| `Differ.RoutesDiffer` | cmd/eskip/write.go:28-30 | a route never differs from itself |
| `Differ.TakeDiff` | cmd/eskip/write.go:42-52 | the loop over `routes`, using the index of `ref`, returns exactly `Diff(ref, routes)` |
| `Differ.DiffPositions` | cmd/eskip/write.go:42-52 | the diff is the subsequence of `routes` at strictly increasing positions, and a position is kept if and only if its route's id is not in the reference index or its text differs from the indexed route's |
| `Differ.DiffMembers` | cmd/eskip/write.go:45-48 | a route is in the diff if and only if it is in `routes` and is new or changed with respect to the index of `ref` (soundness and completeness) |
| `Differ.DiffUnchanged` | cmd/eskip/write.go:45-48 | when no route is new or changed, the diff is empty |
| `Differ.DiffOfSelfEmpty` | cmd/eskip/write.go:42-52 | a list with unique ids has an empty diff against itself |
| `Differ.DiffOfSelfWithDuplicateIds` | cmd/eskip/write.go:43-48 | with a duplicate id the diff against itself is not empty: `[x:"a", x:"b"]` gives `[x:"a"]` |
| `EtcdStore.Store.UpsertAll` | cmd/eskip/write.go:58 | logs the call; unless that call number is faulty, it overwrites each route's id with its text, the last route winning |
| `EtcdStore.Store.Delete` | cmd/eskip/write.go:69 | logs the call; unless that call number is faulty, it removes the id, and deleting a missing id changes nothing |
| `EtcdStore.ExecuteStopsAtFirstFailure` | cmd/eskip/write.go:69-72 | abort on first error: only the calls before the first faulty one take effect, the faulty call is the last one issued, and its number is the error returned |
| `EtcdStore.ExecuteAppend` | cmd/eskip/write.go:101-113 | running two plans in sequence means running the second plan only when the first one passed, from the state the first one left |
| `EtcdStore.RunDeletes` | cmd/eskip/write.go:64-73 | deleting ids one by one removes exactly those ids and keeps every other entry |
| `Reconcile.AnySelectsAll` | cmd/eskip/write.go:26 | under `any`, every route is selected: the ids of the whole list, in order |
| `Reconcile.SelectedIdsMembers` | cmd/eskip/write.go:64-67 | an id is deleted if and only if some route of the list with that id satisfies the condition |
| `Reconcile.NoneSelected` | cmd/eskip/write.go:64-67 | when no route satisfies the condition, nothing is deleted |
| `Reconcile.UpsertDifferent` | cmd/eskip/write.go:56-59 | issues exactly one UpsertAll, of `Diff(existing, update)`, and returns its error |
| `Reconcile.DeleteAllIf` | cmd/eskip/write.go:62-76 | issues Delete exactly on the ids of the routes satisfying `cond`, in list order; routes failing `cond` cause no call; it stops at the first failing Delete and returns its error |
| `Reconcile.UpsertCmd` | cmd/eskip/write.go:79-87 | a failed load returns its error and leaves the store untouched; otherwise the command makes exactly one UpsertAll call, of all loaded routes, and no delete |
| `Reconcile.ResetCmd` | cmd/eskip/write.go:90-114 | a failed load leaves the store untouched; otherwise the command executes `ResetPlan` with abort on first error; on success from a store equal to the `existing` snapshot, with unique desired ids, the store holds exactly the desired routes |
| `Reconcile.UpsertedOverlay` | cmd/eskip/write.go:101 | upserting a list overlays the store with the list's last-wins snapshot and keeps every other entry |
| `Reconcile.ResetPlanShape` | cmd/eskip/write.go:100-113 | reset's single upsert comes before every delete; each delete targets an existing id that is not desired, so never an id just upserted; every such id is deleted |
| `Reconcile.StaleIds` | cmd/eskip/write.go:107-113 | the ids reset deletes are exactly the existing ids that are not desired |
| `Reconcile.DiffIds` | cmd/eskip/write.go:101 | the diff holds only desired ids, and every desired id is either in the diff or already exists |
| `Reconcile.UpsertedDesiredText` | cmd/eskip/write.go:100-104 | after reset's upsert, each desired id holds its desired text |
| `Reconcile.ResetRun` | cmd/eskip/write.go:100-113 | running reset's whole plan overlays the store with the diff, then removes the existing ids that are not desired |
| `Reconcile.ResetConverges` | cmd/eskip/write.go:90-114 | convergence: from a store holding the existing routes, a completed reset leaves exactly the desired routes, indexed by id, provided the desired ids are unique |
| `Reconcile.ResetIdempotent` | cmd/eskip/write.go:90-114 | once the store holds the desired routes, another reset deletes nothing and upserts an empty list |
| `Reconcile.ResetTwiceKeepsStore` | cmd/eskip/write.go:90-114 | a second reset, from the store a completed first reset left and a snapshot that reads it back, leaves the store exactly as it was |
| `Reconcile.ResetUpsertFailureStops` | cmd/eskip/write.go:100-104 | if reset's upsert fails, the store is unchanged, no delete is issued and the upsert's error is returned |
| `Reconcile.ResetNeedsUniqueDesired` | cmd/eskip/write.go:92-95 | without unique desired ids, reset can end with a store that disagrees with the desired index |
| `Reconcile.ResetExamplePlan` | cmd/eskip/write.go:100-113 | existing {A:v1, B:v1} and desired {A:v2, C:v1}: reset upserts A and C, then deletes B |
| `Reconcile.ResetExampleFinal` | cmd/eskip/write.go:90-114 | the same reset leaves the store holding exactly {A:v2, C:v1} |
| `Reconcile.DeleteCmd` | cmd/eskip/write.go:117-126 | a failed load leaves the store untouched; otherwise every loaded id is deleted in order, with abort on first error; on success the store holds its old entries minus the loaded ids |
| `Reconcile.DeleteSubtracts` | cmd/eskip/write.go:124-125 | delete is a subtraction: the old entries minus the loaded ids, every other entry unchanged, whether or not the store held the loaded ids |

## Left out

- `loadRoutesChecked`, `loadRoutesUnchecked` and the eskip parser are not part of this model. A checked load is a `Load` input that holds either routes or a failure. An unchecked load is a plain route list.
- `Route.String()` is not part of this model. Each route carries its canonical text as an opaque string.
- `etcdclient.New`, `urlsToStrings`, the `medium` struct and the WriteClient are not part of this model. They are replaced by the in-memory `Store` class, whose calls fail exactly at the call numbers in its fault set.
- `deleteAllIf` opens its own store client from the output medium, separate from the WriteClient. Both are modelled as the same `Store` object.
- Differ.RoutesDiffer: its contract states only that a route never differs from itself. The full text comparison is its definition, and `Differ.DiffPositions` and `Differ.DiffMembers` state the diff in terms of it.
- EtcdStore.Store.UpsertAll: a failing UpsertAll is modelled as writing nothing. The store client may have written part of the routes before failing, but its internals are not modelled.
- Concurrent writers between reading the existing routes and deleting are not modelled. The commands assume a single writer.
- The unused `out` parameter of `upsertCmd` and the `in` medium are not modelled. The loaded routes stand for them.
