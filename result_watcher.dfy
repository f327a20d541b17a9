/**
 * Observation of a fetch request: the request is run once at subscription
 * and again after every change event that inserts or deletes something.
 * Each run sends its full result, or the `Unknown` failure if it throws.
 */
module ResultWatching {
  import opened CoreTypes
  import opened Bridge
  import opened Signals

  /** What running the fetch request returns at one moment: the matching objects in order, or a thrown error. */
  datatype FetchOutcome = Fetched(objects: seq<ObjectId>) | FetchThrew

  /** A change event calls for a re-fetch exactly when it inserts or deletes something. */
  function NeedsRefetch(e: ChangeEvent): (r: bool)
    ensures r <==> exists id :: id in e.inserted || id in e.deleted
    ensures !r <==> e.inserted == {} && e.deleted == {}
  {
    e.deleted + e.inserted != {}
  }

  /** Updated and refreshed identifiers never cause a re-fetch. */
  lemma RefetchIgnoresUpdatedAndRefreshed(e: ChangeEvent, updated: set<ObjectId>, refreshed: set<ObjectId>)
    ensures NeedsRefetch(e.(updated := updated, refreshed := refreshed)) == NeedsRefetch(e)
  {
  }

  /** What one run of the request sends: its full result as a value, or the `Unknown` failure when it throws. */
  function FetchEmission(outcome: FetchOutcome): (r: Emission<seq<ObjectId>>)
    ensures r.Value? <==> outcome.Fetched?
    ensures outcome.Fetched? ==> r.value == outcome.objects
    ensures outcome.FetchThrew? ==> r.error == Unknown
  {
    match outcome
    case Fetched(objects) => Value(objects)
    case FetchThrew => Failure(Unknown)
  }

  /** Runs the request and sends what it returns. */
  function ExecuteFetch(d: Delivery<seq<ObjectId>>, outcome: FetchOutcome): (r: Delivery<seq<ObjectId>>)
    ensures d.state.Active? ==> r.sent == d.sent + [FetchEmission(outcome)]
    ensures d.state.Active? ==> (r.state.Terminated? <==> outcome.FetchThrew?)
    ensures d.state.Terminated? ==> r == d
  {
    Send(d, FetchEmission(outcome))
  }

  /** One change event: re-fetch (with the store's answer `outcome`) if it inserts or deletes, else nothing. */
  function ResultStep(d: Delivery<seq<ObjectId>>, e: ChangeEvent, outcome: FetchOutcome): (r: Delivery<seq<ObjectId>>)
    ensures WellFormed(d) ==> WellFormed(r)
    ensures |d.sent| <= |r.sent| <= |d.sent| + 1
    ensures d.state.Terminated? ==> r == d
    ensures !NeedsRefetch(e) ==> r == d
    ensures NeedsRefetch(e) && d.state.Active? ==>
      r.sent == d.sent + [FetchEmission(outcome)] && (r.state.Terminated? <==> outcome.FetchThrew?)
  {
    if NeedsRefetch(e) then ExecuteFetch(d, outcome) else d
  }

  /**
   * The subscriber's view after the initial fetch and the change events of
   * `steps`, each paired with what the request would return at that moment.
   */
  function ResultRun(initial: FetchOutcome, steps: seq<(ChangeEvent, FetchOutcome)>): (d: Delivery<seq<ObjectId>>)
    ensures WellFormed(d)
    ensures 1 <= |d.sent| <= |steps| + 1
    ensures d.sent[0] == FetchEmission(initial)
  {
    if steps == [] then ExecuteFetch(Delivery(Active, []), initial)
    else
      var last := steps[|steps| - 1];
      ResultStep(ResultRun(initial, steps[..|steps| - 1]), last.0, last.1)
  }

  /** The number of events in `steps` that call for a re-fetch. */
  function Refetches(steps: seq<(ChangeEvent, FetchOutcome)>): (n: nat)
    ensures n <= |steps|
  {
    if steps == [] then 0
    else Refetches(steps[..|steps| - 1]) + (if NeedsRefetch(steps[|steps| - 1].0) then 1 else 0)
  }

  /** Every outcome the request gives in `steps` is a result, not an error. */
  predicate FetchesSucceed(steps: seq<(ChangeEvent, FetchOutcome)>) {
    forall i :: 0 <= i < |steps| ==> steps[i].1.Fetched?
  }

  /**
   * While no fetch throws, the stream stays active and delivers one result for
   * the initial fetch plus one per inserting or deleting event.
   */
  lemma {:induction false} OneResultPerRefetch(initial: FetchOutcome, steps: seq<(ChangeEvent, FetchOutcome)>)
    requires initial.Fetched? && FetchesSucceed(steps)
    ensures ResultRun(initial, steps).state.Active?
    ensures |ResultRun(initial, steps).sent| == 1 + Refetches(steps)
    ensures forall i :: 0 <= i < |ResultRun(initial, steps).sent| ==> ResultRun(initial, steps).sent[i].Value?
  {
    if steps != [] {
      var before := steps[..|steps| - 1];
      assert FetchesSucceed(before) by {
        forall i | 0 <= i < |before| ensures before[i].1.Fetched? {
          assert before[i] == steps[i];
        }
      }
      OneResultPerRefetch(initial, before);
    }
  }

  /**
   * Results arrive in trigger order: while no fetch throws, the last delivery
   * is the result of the latest re-fetch, step `i`.
   */
  lemma {:induction false} LatestRefetchIsLast(initial: FetchOutcome, steps: seq<(ChangeEvent, FetchOutcome)>, i: nat)
    requires initial.Fetched? && FetchesSucceed(steps)
    requires i < |steps| && NeedsRefetch(steps[i].0)
    requires forall j :: i < j < |steps| ==> !NeedsRefetch(steps[j].0)
    ensures ResultRun(initial, steps).sent[|ResultRun(initial, steps).sent| - 1] == Value(steps[i].1.objects)
  {
    var n := |steps|;
    var before := steps[..n - 1];
    assert FetchesSucceed(before) by {
      forall k | 0 <= k < |before| ensures before[k].1.Fetched? {
        assert before[k] == steps[k];
      }
    }
    if i == n - 1 {
      OneResultPerRefetch(initial, before);
    } else {
      forall j | i < j < |before| ensures !NeedsRefetch(before[j].0) {
        assert before[j] == steps[j];
      }
      assert before[i] == steps[i];
      LatestRefetchIsLast(initial, before, i);
      assert !NeedsRefetch(steps[n - 1].0);
    }
  }

  /** While no event inserts or deletes, the last delivery is still the result of the initial fetch. */
  lemma {:induction false} InitialResultUntilRefetch(initial: FetchOutcome, steps: seq<(ChangeEvent, FetchOutcome)>)
    requires initial.Fetched?
    requires forall j :: 0 <= j < |steps| ==> !NeedsRefetch(steps[j].0)
    ensures ResultRun(initial, steps) == Delivery(Active, [Value(initial.objects)])
  {
    if steps != [] {
      var before := steps[..|steps| - 1];
      forall j | 0 <= j < |before| ensures !NeedsRefetch(before[j].0) {
        assert before[j] == steps[j];
      }
      InitialResultUntilRefetch(initial, before);
    }
  }

  /** Once a fetch has thrown, the stream is terminated and later events change nothing. */
  lemma {:induction false} FailedFetchIsTerminal(initial: FetchOutcome, steps: seq<(ChangeEvent, FetchOutcome)>, k: nat)
    requires k <= |steps|
    requires ResultRun(initial, steps[..k]).state.Terminated?
    ensures ResultRun(initial, steps) == ResultRun(initial, steps[..k])
    ensures ResultRun(initial, steps).sent[|ResultRun(initial, steps).sent| - 1] == Failure(Unknown)
    decreases |steps| - k
  {
    var n := |steps|;
    if k == n {
      assert steps[..k] == steps;
    } else {
      var before := steps[..n - 1];
      if k < n - 1 {
        assert before[..k] == steps[..k];
        FailedFetchIsTerminal(initial, before, k);
      } else {
        assert before == steps[..k];
      }
    }
    TerminalFailureIsUnknown(initial, steps[..k]);
  }

  /** The query stream fails only with `Unknown`. */
  lemma {:induction false} TerminalFailureIsUnknown(initial: FetchOutcome, steps: seq<(ChangeEvent, FetchOutcome)>)
    ensures forall i :: 0 <= i < |ResultRun(initial, steps).sent| && ResultRun(initial, steps).sent[i].Failure? ==>
      ResultRun(initial, steps).sent[i].error == Unknown
  {
    if steps != [] {
      TerminalFailureIsUnknown(initial, steps[..|steps| - 1]);
    }
  }

  /**
   * The observer of one fetch request. The initial fetch runs once, at
   * subscription, before any change-driven fetch.
   */
  class ResultWatcher {
    var delivery: Delivery<seq<ObjectId>>
    /** What the initial fetch returned. */
    ghost const initial: FetchOutcome
    /** The change events handled so far, each with what the request would return at that moment. */
    ghost var history: seq<(ChangeEvent, FetchOutcome)>

    ghost predicate Valid()
      reads this
    {
      delivery == ResultRun(initial, history)
    }

    /** Subscribes: runs the request once, with `outcome` as the store's answer. */
    constructor (outcome: FetchOutcome)
      ensures Valid()
      ensures initial == outcome && history == []
      ensures delivery.sent == [FetchEmission(outcome)]
      ensures delivery.state.Terminated? <==> outcome.FetchThrew?
    {
      initial := outcome;
      history := [];
      delivery := ExecuteFetch(Delivery(Active, []), outcome);
    }

    /** Handles one change event; `outcome` is what the request would return now, used only if it re-fetches. */
    method OnChange(e: ChangeEvent, outcome: FetchOutcome)
      requires Valid()
      modifies this
      ensures Valid()
      ensures history == old(history) + [(e, outcome)]
      ensures !NeedsRefetch(e) || old(delivery).state.Terminated? ==> delivery == old(delivery)
      ensures NeedsRefetch(e) && old(delivery).state.Active? ==>
        delivery.sent == old(delivery).sent + [FetchEmission(outcome)]
        && (delivery.state.Terminated? <==> outcome.FetchThrew?)
    {
      assert (history + [(e, outcome)])[..|history|] == history;
      history := history + [(e, outcome)];
      if e.deleted + e.inserted != {} {
        delivery := ExecuteFetch(delivery, outcome);
      }
    }
  }

  /** Inserting a group with a contact: the "groups with contacts" request delivers 0 then 1 result. */
  lemma InsertScenario()
    ensures var group, contact := 1, 2;
            var insert := ChangeEvent({group, contact}, {}, {}, {});
            var run := ResultRun(Fetched([]), [(insert, Fetched([group]))]);
            |run.sent| == 2 && |run.sent[0].value| == 0 && |run.sent[1].value| == 1
  {
    var group, contact := 1, 2;
    var insert := ChangeEvent({group, contact}, {}, {}, {});
    assert NeedsRefetch(insert) by { assert group in insert.inserted; }
  }

  /** Deleting the only matching group: the request delivers 1 then 0 results. */
  lemma DeleteScenario()
    ensures var group := 1;
            var delete := ChangeEvent({}, {}, {group}, {});
            var run := ResultRun(Fetched([group]), [(delete, Fetched([]))]);
            |run.sent| == 2 && |run.sent[0].value| == 1 && |run.sent[1].value| == 0
  {
    var group := 1;
    var delete := ChangeEvent({}, {}, {group}, {});
    assert NeedsRefetch(delete) by { assert group in delete.deleted; }
  }
}
