/**
 * What a subscriber of an observation stream sees. A stream sends values
 * until it sends a failure; the failure terminates it, and every later send
 * is dropped.
 */
module Signals {

  /** The failures the object and query streams can carry. */
  datatype CoreDataObserverError = Unknown | ObjectDeleted

  /** One delivery to the subscriber: a value or a failure. */
  datatype Emission<+T> = Value(value: T) | Failure(error: CoreDataObserverError)

  datatype SignalState = Active | Terminated

  /** The state of a stream and everything it has delivered so far, in order. */
  datatype Delivery<+T> = Delivery(state: SignalState, sent: seq<Emission<T>>)

  /** Only the last delivery may be a failure, and the stream is terminated exactly when it was one. */
  predicate WellFormed<T>(d: Delivery<T>) {
    && (forall i :: 0 <= i < |d.sent| - 1 ==> d.sent[i].Value?)
    && (d.state.Terminated? <==> |d.sent| > 0 && d.sent[|d.sent| - 1].Failure?)
  }

  /** Sends one value or failure: appended while active, dropped once terminated; a failure terminates. */
  function Send<T>(d: Delivery<T>, e: Emission<T>): (r: Delivery<T>)
    ensures d.state.Terminated? ==> r == d
    ensures d.state.Active? ==> r.sent == d.sent + [e] && (r.state.Terminated? <==> e.Failure?)
    ensures WellFormed(d) ==> WellFormed(r)
  {
    if d.state.Terminated? then d
    else Delivery(if e.Failure? then Terminated else Active, d.sent + [e])
  }
}
