# ReactiveSwiftCoreData change-notification engine in Dafny

This project models the decision logic of ReactiveSwiftCoreData, the library that turns Core Data's
"objects did change" notifications into ReactiveSwift streams. It covers four parts:

- **The bridge** (`CoreDataObserver`, module `Bridge`). The observer captures the observed context's
  store coordinator when it is created. It keeps a notification only when the posting object is a
  managed context whose coordinator is non-nil and equal to that captured coordinator. It then builds
  a `ChangeEvent` of four identifier sets: inserted, updated, deleted and refreshed. A missing or
  ill-typed user-info entry reads as the empty set. The class keeps the events it has published, and
  its invariant ties them to `Publish`, a pure function over the notifications received so far.
- **The relationship closure** (`relationshipIDs`, module `RelationshipClosure`). The original
  recursion has no visited set, so it never ends when a cycle is reachable from the object. The model computes the closure with
  a work-list and a visited set, and `RelationshipIDs` is proved to return exactly the identifiers
  reachable in one or more steps. The original recursion is modelled as well, as
  `NaiveRelationshipIDs`, with an explicit budget of nested calls. Three things are proved about it:
  whenever it finishes, it returns the reachable set; when no cycle is reachable from the object, it
  always finishes; when a cycle is reachable, it never finishes.
- **The object watcher** (`observe(object:)`, module `ObjectWatching`). On each event it decides
  between three outcomes: the `objectDeleted` failure, sending the root, or nothing. The interest set is
  recomputed from the current object graph on every event that does not delete the root, using the
  work-list closure `RelationshipIDs`. So when a cycle through resolvable objects is reachable from the
  root, the model still decides normally, while the library's interest set at
  ReactiveSwiftCoreData/Classes/NSManagedObjectContext+Reactive.swift:55 recurses without end on every
  such event (see "## Findings"). Deliveries
  follow the stream semantics of module `Signals`: once a failure has been sent the stream is
  terminated, and every later send is dropped.
- **The query watcher** (`observeResult(for:)`, module `ResultWatching`). The request is fetched once at
  subscription. It is fetched again after every event that inserts or deletes something. A fetch that
  throws sends `CoreDataObserverError.unknown`.

The model works over abstract data:

- Object identifiers and coordinators are naturals; only equality is used.
- A context snapshot is a map from each resolvable identifier to its relationships, each named
  relationship holding a set of identifiers. An identifier outside the map does not resolve.
- A fetch is given as its outcome at the moment it runs.

Two behaviours of the code shape the model:

- The object watcher computes the interest set inside its per-event closure
  (ReactiveSwiftCoreData/Classes/NSManagedObjectContext+Reactive.swift:55). It therefore sees
  relationship changes made after subscription.
- A throwing fetch is sent with `observer.send(error:)`
  (ReactiveSwiftCoreData/Classes/NSManagedObjectContext+Reactive.swift:79). That terminates the
  ReactiveSwift signal, so later events do not fetch again. In the model a fetch failure is terminal,
  like the deletion failure.

## Model

| member | source | states |
|---|---|---|
| `Bridge.ObjectsFor` | ReactiveSwiftCoreData/Classes/CoreDataObserver.swift:60-74 | an identifier is in the result iff it is listed under that key in a present, well-typed user-info entry; a missing dictionary, missing key or ill-typed value gives the empty set |
| `Bridge.EventFor` | ReactiveSwiftCoreData/Classes/CoreDataObserver.swift:42-53 | an event is produced iff the sender is a context whose coordinator is non-nil and equal to the observer's non-nil coordinator; inserted, updated, deleted and refreshed each hold exactly the identifiers listed under their own key |
| `Bridge.Publish` | ReactiveSwiftCoreData/Classes/CoreDataObserver.swift:42-54 | the published stream has at most one event per notification |
| `Bridge.PublishAppend` | ReactiveSwiftCoreData/Classes/CoreDataObserver.swift:42-54 | delivery is incremental and order-preserving: the stream for `ns + ms` is the stream for `ns` followed by the stream for `ms`, with no batching |
| `Bridge.PublishAllAccepted` | ReactiveSwiftCoreData/Classes/CoreDataObserver.swift:42-54 | when every notification comes from the observed store, each yields exactly one event, at its own position |
| `Bridge.PublishForeignIsEmpty` | ReactiveSwiftCoreData/Classes/CoreDataObserver.swift:43-48 | notifications from another store, a coordinator-less context or a non-context produce no event |
| `Bridge.NoCoordinatorPublishesNothing` | ReactiveSwiftCoreData/Classes/CoreDataObserver.swift:33-48 | an observer whose context had no coordinator when it was created never publishes, whatever arrives |
| `Bridge.PublishedComeFromAccepted` | ReactiveSwiftCoreData/Classes/CoreDataObserver.swift:43-53 | every published event was built from some notification of the observed store |
| `Bridge.CoreDataObserver.constructor` | ReactiveSwiftCoreData/Classes/CoreDataObserver.swift:31-33 | the observer captures the context's coordinator once and starts with nothing published |
| `Bridge.CoreDataObserver.ContextObjectsDidChange` | ReactiveSwiftCoreData/Classes/CoreDataObserver.swift:42-54 | appends exactly the event for the notification, or nothing if the notification is dropped; the invariant keeps the published events equal to `Publish` over all notifications received; the stream carries events only and never fails |
| `RelationshipClosure.AllTargets` | ReactiveSwiftCoreData/Classes/NSManagedObjectContext+Reactive.swift:113-115 | the identifiers of all relationships of one object: an identifier is in it iff some relationship lists it |
| `RelationshipClosure.CollectTargets` | ReactiveSwiftCoreData/Classes/NSManagedObjectContext+Reactive.swift:113-115 | the loop over the relationships, growing the set one relationship at a time, returns all their targets |
| `RelationshipClosure.RelationshipIDs` | ReactiveSwiftCoreData/Classes/NSManagedObjectContext+Reactive.swift:110-125 | the work-list traversal ends on every graph, cyclic ones included, and returns exactly the identifiers reachable from the root in one or more steps |
| `RelationshipClosure.DirectTargetReachable` | ReactiveSwiftCoreData/Classes/NSManagedObjectContext+Reactive.swift:114-115 | every direct relationship target is in the closure, whether or not it resolves |
| `RelationshipClosure.ReachableTransitive` | ReactiveSwiftCoreData/Classes/NSManagedObjectContext+Reactive.swift:117-120 | the closure is transitively closed: what a reached object reaches is reached from the root too |
| `RelationshipClosure.ClosedSetHoldsReachable` | ReactiveSwiftCoreData/Classes/NSManagedObjectContext+Reactive.swift:110-125 | the closure is the least set that holds the root's targets and is closed under taking targets |
| `RelationshipClosure.ClosureWithinSnapshot` | ReactiveSwiftCoreData/Classes/NSManagedObjectContext+Reactive.swift:113-120 | every identifier in the closure is a direct target of the root or of a resolvable object of the snapshot |
| `RelationshipClosure.NaiveRelationshipIDs` | ReactiveSwiftCoreData/Classes/NSManagedObjectContext+Reactive.swift:110-125 | the original recursion as written, with a budget of nested calls; when it finishes it has used at least one call and holds every direct target of the object; it is characterised further by `NaiveIsReachableSet`, `NaiveTerminatesWhenRanked` and `NaiveDivergesOnCycle` |
| `RelationshipClosure.NaiveIsReachableSet` | ReactiveSwiftCoreData/Classes/NSManagedObjectContext+Reactive.swift:110-125 | whenever the original recursion finishes, its result is exactly the reachable set |
| `RelationshipClosure.NaiveTerminatesWhenRanked` | ReactiveSwiftCoreData/Classes/NSManagedObjectContext+Reactive.swift:117-120 | when the objects reachable from the object carry a rank that drops along every relationship, the original recursion finishes within rank + 1 nested calls |
| `RelationshipClosure.NaiveAgreesOnAcyclic` | ReactiveSwiftCoreData/Classes/NSManagedObjectContext+Reactive.swift:110-125 | when no cycle is reachable from the object, the original recursion finishes and returns the reachable set, the same result as `RelationshipIDs` |
| `RelationshipClosure.RankDecreasesAlongPaths` | ReactiveSwiftCoreData/Classes/NSManagedObjectContext+Reactive.swift:117-120 | under such a rank, every resolvable object reachable from the object has a strictly smaller rank, so it is a different object |
| `RelationshipClosure.RankedHasNoReachableCycle` | ReactiveSwiftCoreData/Classes/NSManagedObjectContext+Reactive.swift:117-120 | under such a rank, no object reachable from the object lies on a cycle, so the divergence lemma does not apply |
| `RelationshipClosure.NaiveDivergesOnCycle` | ReactiveSwiftCoreData/Classes/NSManagedObjectContext+Reactive.swift:117-120 | when a cycle is reachable from the object, the original recursion runs out of every budget |
| `RelationshipClosure.InverseRelationshipDiverges` | ReactiveSwiftCoreData/Classes/NSManagedObjectContext+Reactive.swift:117-120 | with the inverse pair A -> B -> A, the original recursion never finishes |
| `Signals.Send` | ReactiveSwiftCoreData/Classes/NSManagedObjectContext+Reactive.swift:49-51 | a send is appended while the stream is active and dropped once it is terminated; a failure terminates it; only the last delivery can be a failure |
| `ObjectWatching.ObjectDecision` | ReactiveSwiftCoreData/Classes/NSManagedObjectContext+Reactive.swift:48-59 | root deletion gives `objectDeleted` even when updates also hit the interest set; otherwise the root is sent iff some updated identifier is the root or is in its closure; `objectDeleted` comes out only when the root is deleted; nothing else can come out |
| `ObjectWatching.DecisionIgnoresInsertedAndRefreshed` | ReactiveSwiftCoreData/Classes/NSManagedObjectContext+Reactive.swift:48-59 | inserted and refreshed identifiers never change the decision |
| `ObjectWatching.DecisionOnReachability` | ReactiveSwiftCoreData/Classes/NSManagedObjectContext+Reactive.swift:55-59 | with the closure taken from the graph, the root is sent iff an update hits the root or something reachable from it |
| `ObjectWatching.ObjectStep` | ReactiveSwiftCoreData/Classes/NSManagedObjectContext+Reactive.swift:45-60 | once the stream is terminated nothing changes; on an active stream exactly the decision's emission, if any, is appended, and the stream terminates iff the event deletes the root; well-formedness is kept |
| `ObjectWatching.ObjectRun` | ReactiveSwiftCoreData/Classes/NSManagedObjectContext+Reactive.swift:45-60 | over any event sequence: at most one delivery per event, every delivery is the root or `objectDeleted`, and only the last can be a failure |
| `ObjectWatching.TerminatedStaysTerminated` | ReactiveSwiftCoreData/Classes/NSManagedObjectContext+Reactive.swift:48-51 | once the run is terminated after some prefix of events, the remaining events leave it unchanged |
| `ObjectWatching.NoRootDeletionStaysActive` | ReactiveSwiftCoreData/Classes/NSManagedObjectContext+Reactive.swift:48-59 | while no event deletes the root, the stream stays active and every delivery is the root itself |
| `ObjectWatching.RootDeletionIsTerminal` | ReactiveSwiftCoreData/Classes/NSManagedObjectContext+Reactive.swift:48-51 | after an event that deletes the root the stream ends with `objectDeleted`, and later events add nothing |
| `ObjectWatching.ObjectWatcher.constructor` | ReactiveSwiftCoreData/Classes/NSManagedObjectContext+Reactive.swift:42-44 | the watcher starts active with nothing delivered |
| `ObjectWatching.ObjectWatcher.OnChange` | ReactiveSwiftCoreData/Classes/NSManagedObjectContext+Reactive.swift:45-60 | while active: root deletion delivers `objectDeleted` and terminates; an update to the root or to anything reachable from it in the current graph delivers the root; otherwise nothing; once terminated, nothing changes |
| `ObjectWatching.TwoLevelUpdateReachesGroup` | Example/Tests/NSManagedObjectContext+ObserveObjectTests.swift:85-117 | on the test's snapshot (a group holding a contact holding a phone number), the phone number is reachable from the group, an update of it sends the group, and the original recursion finishes |
| `ResultWatching.NeedsRefetch` | ReactiveSwiftCoreData/Classes/NSManagedObjectContext+Reactive.swift:90-94 | a re-fetch is due iff the event inserts or deletes something |
| `ResultWatching.RefetchIgnoresUpdatedAndRefreshed` | ReactiveSwiftCoreData/Classes/NSManagedObjectContext+Reactive.swift:91-93 | updated and refreshed identifiers never trigger a re-fetch |
| `ResultWatching.FetchEmission` | ReactiveSwiftCoreData/Classes/NSManagedObjectContext+Reactive.swift:74-81 | a fetch delivers its full result as a value, or `unknown` when it throws |
| `ResultWatching.ExecuteFetch` | ReactiveSwiftCoreData/Classes/NSManagedObjectContext+Reactive.swift:74-81 | while active, one fetch appends exactly its emission and terminates the stream iff it threw |
| `ResultWatching.ResultStep` | ReactiveSwiftCoreData/Classes/NSManagedObjectContext+Reactive.swift:90-97 | keeps the delivery well formed and adds at most one emission; a terminated stream and an event without insertions or deletions change nothing; otherwise an active stream gains exactly the fetch's emission and terminates iff the fetch threw |
| `ResultWatching.ResultRun` | ReactiveSwiftCoreData/Classes/NSManagedObjectContext+Reactive.swift:83-97 | the initial fetch is delivered first, at most one delivery follows per event, and only the last can be a failure |
| `ResultWatching.OneResultPerRefetch` | ReactiveSwiftCoreData/Classes/NSManagedObjectContext+Reactive.swift:83-97 | while no fetch throws, the stream stays active and delivers one result for the initial fetch plus one per inserting or deleting event |
| `ResultWatching.LatestRefetchIsLast` | ReactiveSwiftCoreData/Classes/NSManagedObjectContext+Reactive.swift:90-97 | while no fetch throws, the last delivery is the result of the latest inserting or deleting event's fetch |
| `ResultWatching.InitialResultUntilRefetch` | ReactiveSwiftCoreData/Classes/NSManagedObjectContext+Reactive.swift:83-97 | while no event inserts or deletes, the stream holds just the initial fetch's result and stays active |
| `ResultWatching.FailedFetchIsTerminal` | ReactiveSwiftCoreData/Classes/NSManagedObjectContext+Reactive.swift:78-80 | after a fetch throws, the stream ends with `unknown` and later events add nothing |
| `ResultWatching.TerminalFailureIsUnknown` | ReactiveSwiftCoreData/Classes/NSManagedObjectContext+Reactive.swift:74-81 | the query stream fails only with `unknown` |
| `ResultWatching.ResultWatcher.constructor` | ReactiveSwiftCoreData/Classes/NSManagedObjectContext+Reactive.swift:83-87 | subscribing runs the request exactly once and delivers its emission; the stream is terminated iff that fetch threw |
| `ResultWatching.ResultWatcher.OnChange` | ReactiveSwiftCoreData/Classes/NSManagedObjectContext+Reactive.swift:89-97 | while active, an inserting or deleting event appends the new fetch's emission and terminates the stream iff the fetch threw; any other event, or any event after termination, changes nothing |
| `ResultWatching.InsertScenario` | Example/Tests/NSManagedObjectContext+ObserveResultTests.swift:33-65 | inserting a group with a contact gives result counts 0 then 1 |
| `ResultWatching.DeleteScenario` | Example/Tests/NSManagedObjectContext+ObserveResultTests.swift:67-103 | deleting the only matching group gives result counts 1 then 0 |

## Findings

| source | as written | input that shows it | evidently intended | confidence | as-written member | corrected member |
|---|---|---|---|---|---|---|
| ReactiveSwiftCoreData/Classes/NSManagedObjectContext+Reactive.swift:117-120 | recurses into every resolvable target with no visited set | A -> B -> A, as a pair of inverse relationships produces | the set of identifiers reachable from the object, computed in finite time | high (not executed) | `RelationshipClosure.InverseRelationshipDiverges` | `RelationshipClosure.RelationshipIDs` |

## Left out

- The ReactiveSwift plumbing is left out: `Signal`, `pipe`, `lifetime.observeEnded` and disposal
  (ReactiveSwiftCoreData/Classes/NSManagedObjectContext+Reactive.swift:24-35, 62-65, 99-102). Deliveries
  are the `sent` sequence of a `Delivery`. `observeContext` only forwards the bridge's events, so it is
  modelled by the bridge itself.
- The `NotificationCenter` registration and the `[weak self]` capture are left out
  (ReactiveSwiftCoreData/Classes/CoreDataObserver.swift:35-39). The library never removes the observer
  token. After teardown sets `coreDataObserver = nil`
  (ReactiveSwiftCoreData/Classes/NSManagedObjectContext+Reactive.swift:63, 100), the block stays
  registered and does nothing through the weak capture. The model has no teardown, so this is not
  represented. A notification is an input
  record. Its sender is a context with an optional coordinator, or any other object.
- The `DispatchQueue.main.async` hop for the initial fetch is left out. `ResultWatcher.constructor`
  runs the initial fetch at subscription, before any change-driven fetch. An event that could arrive
  before the deferred fetch runs is not modelled.
- Core Data itself is not part of this model: `fetch`, `objectIDs(forRelationshipNamed:)`,
  `object(with:)` and `entity.relationshipsByName`. They become a fetch outcome parameter and a snapshot
  map from resolvable identifiers to named relationships.
- Change events hold object identifiers, not managed objects. The object watcher only uses `objectID`
  of the objects it receives.
- The object watcher delivers the root's identifier, not the live managed object. Field values are
  not modelled, so a test's check that the delivered object shows its new field value has no counterpart.
- `NaiveRelationshipIDs` stands for unbounded recursion by a budget of nested calls. "Never finishes"
  is stated as "runs out of every budget". The absence of a reachable cycle is stated as the existence
  of a rank that decreases along every relationship between resolvable objects reachable from the
  object.
- Concurrency, scheduling and the wall-clock timing of the performance tests are left out.
