/** Vocabulary shared by the frontend components: the three-colour
    traffic-light bands the lists use for scores and statuses. */
module Ui {
  import opened Wrappers

  datatype Color = Green | Amber | Red

  /** Green from `high` up, amber from `low` up, red below. */
  function Band(score: int, high: int, low: int): (r: Color)
    requires low <= high
    ensures r == Green <==> score >= high
    ensures r == Amber <==> low <= score < high
    ensures r == Red <==> score < low
  {
    if score >= high then Green else if score >= low then Amber else Red
  }

  /** Red < Amber < Green. */
  function Rank(c: Color): nat {
    match c
    case Red => 0
    case Amber => 1
    case Green => 2
  }

  /** A higher score never gets a worse colour. */
  lemma BandMonotone(s1: int, s2: int, high: int, low: int)
    requires low <= high && s1 <= s2
    ensures Rank(Band(s1, high, low)) <= Rank(Band(s2, high, low))
  {
  }

  /** One run of a delete handler that tracks the item in flight
      (`deletingId` and its kin): the tracker while the request runs, the
      tracker after its `finally`, and whether the list was refetched. */
  datatype DeleteRun<K> = DeleteRun(during: Option<K>, after: Option<K>, refetched: bool)

  /** The tracker holds the key while the request runs and is cleared
      whatever the outcome; only success refetches. */
  function RunDelete<K>(key: K, succeeded: bool): (r: DeleteRun<K>)
    ensures r.during == Some(key) && r.after.None? && r.refetched == succeeded
  {
    DeleteRun(Some(key), None, succeeded)
  }

  /** An item's delete button is disabled while the tracker holds its key. */
  predicate DeleteDisabled<K(==)>(tracker: Option<K>, key: K) {
    tracker == Some(key)
  }

  /** During a delete exactly the item being deleted is disabled; after it,
      none is. */
  lemma OnlyDeletingDisabled<K>(key: K, succeeded: bool, other: K)
    ensures DeleteDisabled(RunDelete(key, succeeded).during, other) <==> other == key
    ensures !DeleteDisabled(RunDelete(key, succeeded).after, other)
  {
  }
}
