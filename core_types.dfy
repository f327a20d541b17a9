/** Identities shared by every part of the change-notification engine. */
module CoreTypes {

  /** Stable identity of one managed object within one store (only equality is used). */
  type ObjectId = nat

  /** Identity of a persistent store coordinator (only equality is used). */
  type CoordinatorId = nat

  datatype Option<+T> = None | Some(value: T) {

    /** The value as a sequence of length at most one. */
    function ToSeq(): (s: seq<T>)
      ensures |s| <= 1
      ensures Some? <==> |s| == 1
      ensures Some? ==> s[0] == value
    {
      match this
      case None => []
      case Some(v) => [v]
    }
  }
}
