/**
 * The bridge from raw "objects did change" notifications to change events:
 * a notification is kept only when it comes from a context backed by the
 * same (non-nil) store coordinator as the observed context, and is then
 * reshaped into four identifier sets.
 */
module Bridge {
  import opened CoreTypes

  /** One accepted notification: the four identifier sets it reports. */
  datatype ChangeEvent = ChangeEvent(
    inserted: set<ObjectId>,
    updated: set<ObjectId>,
    deleted: set<ObjectId>,
    refreshed: set<ObjectId>)

  /** The object a notification is posted for: a managed context (with its coordinator, possibly nil) or anything else, nil included. */
  datatype Sender = OtherSender | ContextSender(coordinator: Option<CoordinatorId>)

  datatype UserInfoKey =
    | InsertedObjectsKey
    | UpdatedObjectsKey
    | DeletedObjectsKey
    | RefreshedObjectsKey
    | OtherKey(name: string)

  /** A user-info entry: a set of managed objects, or a value of any other type. */
  datatype UserInfoValue = ObjectSet(ids: set<ObjectId>) | OtherValue

  type UserInfo = map<UserInfoKey, UserInfoValue>

  datatype Notification = Notification(sender: Sender, userInfo: Option<UserInfo>)

  /** `id` is listed under `key` in a present, well-typed user-info entry. */
  predicate Lists(info: Option<UserInfo>, key: UserInfoKey, id: ObjectId) {
    info.Some? && key in info.value && info.value[key].ObjectSet? && id in info.value[key].ids
  }

  /** The identifier set stored under `key`; a missing dictionary, missing key or ill-typed value reads as empty. */
  function ObjectsFor(n: Notification, key: UserInfoKey): (ids: set<ObjectId>)
    ensures forall id :: id in ids <==> Lists(n.userInfo, key, id)
    ensures n.userInfo.None? || key !in n.userInfo.value || n.userInfo.value[key].OtherValue? ==> ids == {}
  {
    match n.userInfo
    case None => {}
    case Some(info) => if key in info && info[key].ObjectSet? then info[key].ids else {}
  }

  /** Both coordinators are non-nil and equal. */
  predicate SameStore(observed: Option<CoordinatorId>, sender: Sender) {
    && observed.Some?
    && sender.ContextSender?
    && sender.coordinator.Some?
    && sender.coordinator.value == observed.value
  }

  /** What the bridge publishes for one notification: nothing, or exactly one event. */
  function EventFor(observed: Option<CoordinatorId>, n: Notification): (r: Option<ChangeEvent>)
    ensures r.Some? <==> SameStore(observed, n.sender)
    ensures observed.None? ==> r.None?
    ensures r.Some? ==> forall id ::
      && (id in r.value.inserted <==> Lists(n.userInfo, InsertedObjectsKey, id))
      && (id in r.value.updated <==> Lists(n.userInfo, UpdatedObjectsKey, id))
      && (id in r.value.deleted <==> Lists(n.userInfo, DeletedObjectsKey, id))
      && (id in r.value.refreshed <==> Lists(n.userInfo, RefreshedObjectsKey, id))
  {
    if SameStore(observed, n.sender) then
      Some(ChangeEvent(
        ObjectsFor(n, InsertedObjectsKey),
        ObjectsFor(n, UpdatedObjectsKey),
        ObjectsFor(n, DeletedObjectsKey),
        ObjectsFor(n, RefreshedObjectsKey)))
    else
      None
  }

  /** The event stream the bridge publishes for a sequence of notifications, in arrival order. */
  function Publish(observed: Option<CoordinatorId>, ns: seq<Notification>): (events: seq<ChangeEvent>)
    ensures |events| <= |ns|
  {
    if ns == [] then [] else EventFor(observed, ns[0]).ToSeq() + Publish(observed, ns[1..])
  }

  /** Delivery is incremental: the stream for `ns + ms` is the stream for `ns` followed by that for `ms`. */
  lemma {:induction false} PublishAppend(observed: Option<CoordinatorId>, ns: seq<Notification>, ms: seq<Notification>)
    ensures Publish(observed, ns + ms) == Publish(observed, ns) + Publish(observed, ms)
  {
    if ns == [] {
      assert ns + ms == ms;
    } else {
      assert (ns + ms)[1..] == ns[1..] + ms;
      PublishAppend(observed, ns[1..], ms);
    }
  }

  /** When every notification comes from the observed store, each yields exactly one event, at the same position. */
  lemma {:induction false} PublishAllAccepted(observed: Option<CoordinatorId>, ns: seq<Notification>)
    requires forall i :: 0 <= i < |ns| ==> SameStore(observed, ns[i].sender)
    ensures |Publish(observed, ns)| == |ns|
    ensures forall i :: 0 <= i < |ns| ==> Some(Publish(observed, ns)[i]) == EventFor(observed, ns[i])
  {
    if ns != [] {
      PublishAllAccepted(observed, ns[1..]);
    }
  }

  /** Notifications from other stores, from contexts without a coordinator, or from non-contexts are all dropped. */
  lemma {:induction false} PublishForeignIsEmpty(observed: Option<CoordinatorId>, ns: seq<Notification>)
    requires forall i :: 0 <= i < |ns| ==> !SameStore(observed, ns[i].sender)
    ensures Publish(observed, ns) == []
  {
    if ns != [] {
      PublishForeignIsEmpty(observed, ns[1..]);
    }
  }

  /** An observer of a context that had no coordinator never publishes anything. */
  lemma {:induction false} NoCoordinatorPublishesNothing(ns: seq<Notification>)
    ensures Publish(None, ns) == []
  {
    if ns != [] {
      NoCoordinatorPublishesNothing(ns[1..]);
    }
  }

  /** Every published event was built from some accepted notification. */
  lemma {:induction false} PublishedComeFromAccepted(observed: Option<CoordinatorId>, ns: seq<Notification>, e: ChangeEvent)
    requires e in Publish(observed, ns)
    ensures exists i :: 0 <= i < |ns| && SameStore(observed, ns[i].sender) && EventFor(observed, ns[i]) == Some(e)
  {
    var head := EventFor(observed, ns[0]).ToSeq();
    if e in head {
      assert EventFor(observed, ns[0]) == Some(e);
    } else {
      PublishedComeFromAccepted(observed, ns[1..], e);
      var i :| 0 <= i < |ns[1..]| && SameStore(observed, ns[1..][i].sender) && EventFor(observed, ns[1..][i]) == Some(e);
      assert ns[1..][i] == ns[i + 1];
    }
  }

  /**
   * The observer of one context. It captures the context's coordinator once,
   * at creation, and publishes one event per accepted notification. Its
   * stream carries change events only: it has no failure case.
   */
  class CoreDataObserver {
    const coordinator: Option<CoordinatorId>
    /** Every notification delivered so far, in order. */
    ghost var received: seq<Notification>
    /** Every event sent down the change signal so far, in order. */
    var published: seq<ChangeEvent>

    ghost predicate Valid()
      reads this
    {
      published == Publish(coordinator, received)
    }

    constructor (contextCoordinator: Option<CoordinatorId>)
      ensures Valid()
      ensures coordinator == contextCoordinator && received == [] && published == []
    {
      coordinator := contextCoordinator;
      received := [];
      published := [];
    }

    /** Handles one "objects did change" notification. */
    method ContextObjectsDidChange(n: Notification)
      requires Valid()
      modifies this
      ensures Valid()
      ensures received == old(received) + [n]
      ensures published == old(published) + EventFor(coordinator, n).ToSeq()
      ensures !SameStore(coordinator, n.sender) ==> published == old(published)
    {
      PublishAppend(coordinator, received, [n]);
      received := received + [n];
      match n.sender
      case OtherSender =>
      case ContextSender(incoming) =>
        if coordinator.Some? && incoming.Some? && coordinator.value == incoming.value {
          var event := ChangeEvent(
            ObjectsFor(n, InsertedObjectsKey),
            ObjectsFor(n, UpdatedObjectsKey),
            ObjectsFor(n, DeletedObjectsKey),
            ObjectsFor(n, RefreshedObjectsKey));
          published := published + [event];
        }
    }
  }
}
