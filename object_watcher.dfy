/**
 * Observation of one managed object: on every change event the watcher
 * fails with `ObjectDeleted` when the root itself was deleted, sends the
 * root when an updated identifier lies in the root's interest set (the root
 * and its relationship closure), and otherwise sends nothing.
 */
module ObjectWatching {
  import opened CoreTypes
  import opened Bridge
  import opened RelationshipClosure
  import opened Signals

  /**
   * The decision for one change event, given the root and its relationship
   * closure. Deletion of the root wins over any update; inserted and
   * refreshed identifiers play no part.
   */
  function ObjectDecision(root: ObjectId, closure: set<ObjectId>, e: ChangeEvent): (r: Option<Emission<ObjectId>>)
    ensures root in e.deleted ==> r == Some(Failure(ObjectDeleted))
    ensures root !in e.deleted ==>
      (r == Some(Value(root)) <==> exists id :: id in e.updated && (id == root || id in closure))
    ensures r == Some(Failure(ObjectDeleted)) ==> root in e.deleted
    ensures r == None || r == Some(Value(root)) || r == Some(Failure(ObjectDeleted))
  {
    if root in e.deleted then Some(Failure(ObjectDeleted))
    else if e.updated * (closure + {root}) != {} then Some(Value(root))
    else
      assert forall id :: id in e.updated ==> id !in e.updated * (closure + {root});
      None
  }

  /** With the closure computed from the graph, the root is sent exactly when an update hits the root or something reachable from it. */
  lemma DecisionOnReachability(g: ObjectGraph, root: ObjectId, closure: set<ObjectId>, e: ChangeEvent)
    requires root !in e.deleted
    requires forall y :: y in closure <==> Reachable(g, root, y)
    ensures (exists id :: id in e.updated && (id == root || Reachable(g, root, id))) ==>
      ObjectDecision(root, closure, e) == Some(Value(root))
    ensures (forall id :: id in e.updated ==> id != root && !Reachable(g, root, id)) ==>
      ObjectDecision(root, closure, e) == None
  {
  }

  /** Inserted and refreshed identifiers never change the decision. */
  lemma DecisionIgnoresInsertedAndRefreshed(root: ObjectId, closure: set<ObjectId>, e: ChangeEvent,
                                            inserted: set<ObjectId>, refreshed: set<ObjectId>)
    ensures ObjectDecision(root, closure, e.(inserted := inserted, refreshed := refreshed))
         == ObjectDecision(root, closure, e)
  {
  }

  /** One change event reaching the subscriber: at most one value or failure is sent. */
  function ObjectStep(d: Delivery<ObjectId>, root: ObjectId, closure: set<ObjectId>, e: ChangeEvent): (r: Delivery<ObjectId>)
    ensures WellFormed(d) ==> WellFormed(r)
    ensures |d.sent| <= |r.sent| <= |d.sent| + 1
    ensures d.state.Terminated? ==> r == d
    ensures d.state.Active? ==> r.sent == d.sent + ObjectDecision(root, closure, e).ToSeq()
    ensures d.state.Active? ==> (r.state.Terminated? <==> root in e.deleted)
  {
    match ObjectDecision(root, closure, e)
    case None => d
    case Some(emission) => Send(d, emission)
  }

  /** The subscriber's view after the change events of `steps`, each paired with the closure computed for it. */
  function ObjectRun(root: ObjectId, steps: seq<(set<ObjectId>, ChangeEvent)>): (d: Delivery<ObjectId>)
    ensures WellFormed(d)
    ensures |d.sent| <= |steps|
    ensures forall i :: 0 <= i < |d.sent| ==> d.sent[i] == Value(root) || d.sent[i] == Failure(ObjectDeleted)
  {
    if steps == [] then Delivery(Active, [])
    else
      var last := steps[|steps| - 1];
      ObjectStep(ObjectRun(root, steps[..|steps| - 1]), root, last.0, last.1)
  }

  /** Once the stream is terminated, later events change nothing. */
  lemma {:induction false} TerminatedStaysTerminated(root: ObjectId, steps: seq<(set<ObjectId>, ChangeEvent)>, k: nat)
    requires k <= |steps|
    requires ObjectRun(root, steps[..k]).state.Terminated?
    ensures ObjectRun(root, steps) == ObjectRun(root, steps[..k])
    decreases |steps| - k
  {
    var n := |steps|;
    if k == n {
      assert steps[..k] == steps;
    } else {
      var before := steps[..n - 1];
      if k < n - 1 {
        assert before[..k] == steps[..k];
        TerminatedStaysTerminated(root, before, k);
      } else {
        assert before == steps[..k];
      }
      RunUnfolds(root, steps);
    }
  }

  /** The run over a non-empty sequence is the run over all but the last event, followed by the last step. */
  lemma RunUnfolds(root: ObjectId, steps: seq<(set<ObjectId>, ChangeEvent)>)
    requires steps != []
    ensures ObjectRun(root, steps)
         == ObjectStep(ObjectRun(root, steps[..|steps| - 1]), root, steps[|steps| - 1].0, steps[|steps| - 1].1)
  {
  }

  /**
   * Deleting the root ends the stream with the one `ObjectDeleted` failure,
   * whatever else the event or later events hold.
   */
  lemma {:induction false} RootDeletionIsTerminal(root: ObjectId, steps: seq<(set<ObjectId>, ChangeEvent)>, i: nat)
    requires i < |steps| && root in steps[i].1.deleted
    ensures ObjectRun(root, steps).state.Terminated?
    ensures ObjectRun(root, steps) == ObjectRun(root, steps[..i + 1])
    ensures |ObjectRun(root, steps).sent| <= i + 1
    ensures ObjectRun(root, steps).sent[|ObjectRun(root, steps).sent| - 1] == Failure(ObjectDeleted)
  {
    var prefix := steps[..i + 1];
    assert prefix[..i] == steps[..i] && prefix[i] == steps[i];
    assert ObjectRun(root, prefix).state.Terminated?;
    TerminatedStaysTerminated(root, steps, i + 1);
  }

  /** Only deleting the root fails: while no event deletes it, the stream stays active and sends only the root. */
  lemma {:induction false} NoRootDeletionStaysActive(root: ObjectId, steps: seq<(set<ObjectId>, ChangeEvent)>)
    requires forall i :: 0 <= i < |steps| ==> root !in steps[i].1.deleted
    ensures ObjectRun(root, steps).state.Active?
    ensures forall i :: 0 <= i < |ObjectRun(root, steps).sent| ==> ObjectRun(root, steps).sent[i] == Value(root)
  {
    if steps != [] {
      var before := steps[..|steps| - 1];
      forall i | 0 <= i < |before| ensures root !in before[i].1.deleted {
        assert before[i] == steps[i];
      }
      NoRootDeletionStaysActive(root, before);
      RunUnfolds(root, steps);
    }
  }

  /**
   * The observer of one managed object. The interest set is recomputed from
   * the current object graph on every event that does not delete the root.
   */
  class ObjectWatcher {
    const root: ObjectId
    var delivery: Delivery<ObjectId>
    /** The events handled while active, each with the closure computed for it. */
    ghost var history: seq<(set<ObjectId>, ChangeEvent)>

    ghost predicate Valid()
      reads this
    {
      delivery == ObjectRun(root, history)
    }

    constructor (watched: ObjectId)
      ensures Valid()
      ensures root == watched && history == [] && delivery == Delivery(Active, [])
    {
      root := watched;
      delivery := Delivery(Active, []);
      history := [];
    }

    /** Handles one change event against the current object graph `g`. */
    method OnChange(g: ObjectGraph, e: ChangeEvent)
      requires Valid()
      modifies this
      ensures Valid()
      ensures old(delivery).state.Terminated? ==> delivery == old(delivery)
      ensures old(delivery).state.Active? && root in e.deleted ==>
        delivery == Delivery(Terminated, old(delivery).sent + [Failure(ObjectDeleted)])
      ensures old(delivery).state.Active? && root !in e.deleted
              && (exists id :: id in e.updated && (id == root || Reachable(g, root, id))) ==>
        delivery == Delivery(Active, old(delivery).sent + [Value(root)])
      ensures old(delivery).state.Active? && root !in e.deleted
              && (forall id :: id in e.updated ==> id != root && !Reachable(g, root, id)) ==>
        delivery == old(delivery)
    {
      if delivery.state.Terminated? {
        return;
      }
      var closure: set<ObjectId> := {};
      if root !in e.deleted {
        closure := RelationshipIDs(g, root);
        DecisionOnReachability(g, root, closure, e);
      }
      assert (history + [(closure, e)])[..|history|] == history;
      history := history + [(closure, e)];
      delivery := ObjectStep(delivery, root, closure, e);
    }
  }

  /** The snapshot of the two-level test: group 1 holds contact 2, which holds phone number 3. */
  function TwoLevelGraph(): ObjectGraph {
    map[1 := map["contacts" := {2}], 2 := map["phoneNumbers" := {3}], 3 := map[]]
  }

  /**
   * The two-level case: a phone number of a contact of a group is in the
   * group's closure, so updating it sends the group; on this snapshot the
   * original recursion also finishes.
   */
  lemma TwoLevelUpdateReachesGroup(closure: set<ObjectId>)
    requires forall y :: y in closure <==> Reachable(TwoLevelGraph(), 1, y)
    ensures Reachable(TwoLevelGraph(), 1, 3)
    ensures ObjectDecision(1, closure, ChangeEvent({}, {3}, {}, {})) == Some(Value(1))
    ensures NaiveRelationshipIDs(TwoLevelGraph(), 1, 3).Some?
  {
    var g := TwoLevelGraph();
    assert 2 in g[1]["contacts"];
    assert 3 in g[2]["phoneNumbers"];
    assert IsPath(g, [1, 2, 3]);
    var rank := (x: ObjectId) => if x == 1 then 2 else if x == 2 then 1 else 0;
    assert Targets(g, 1) == {2};
    assert Targets(g, 2) == {3};
    assert Targets(g, 3) == {};
    assert RankedFrom(g, rank, 1);
    NaiveTerminatesWhenRanked(g, rank, 1, 3);
  }
}
