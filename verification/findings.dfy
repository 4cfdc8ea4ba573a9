/** The boundary checks of array.c exactly as written, beside the inputs that
    get through them although they name no element. The corrected checks are
    the ones of ArraySpec, which the class in CArray uses. */
module Findings {
  import opened ArraySpec

  /** The guard of `array_remove` as written: the wrapped index may equal the length. */
  function RemoveAcceptedAsWritten(length: int, i: int): (b: bool)
    ensures b <==> -length <= i <= length
  {
    var j := if i < 0 then length + i else i;
    !(j > length || j < 0)
  }

  /** The length `array_remove` leaves behind as written, when its guard lets the call through. */
  function RemovedLengthAsWritten(length: int, i: int): (r: Option<int>)
    ensures r.Some? <==> -length <= i <= length
    ensures r.Some? ==> r.value == length - 1
  {
    if RemoveAcceptedAsWritten(length, i) then Some(length - 1) else None
  }

  /** On an empty array the written guard accepts index 0 and the length becomes -1. */
  lemma RemoveAsWrittenUnderflows()
    ensures RemovedLengthAsWritten(0, 0) == Some(-1)
    ensures Removed([], 0) == None
  {
  }

  /** The written remove guard and the corrected one disagree exactly on the
      one-past-the-end index. */
  lemma RemoveGuardsDiffer(s: seq<int>, i: int)
    ensures RemoveAcceptedAsWritten(|s|, i) && Removed(s, i).None? <==> Wrap(i, |s|) == |s|
  {
  }

  /** The guard of `array_insert` as written: only a negative wrapped index is rejected. */
  function InsertAcceptedAsWritten(length: int, i: int): (b: bool)
    ensures b <==> 0 <= i || -length <= i
  {
    var j := if i < 0 then length + i else i;
    !(j < 0)
  }

  /** Past the end the written guard lets the insert through, and the value is
      written at a slot beyond the new length, so it is not among the elements. */
  lemma InsertAsWrittenLosesValue(s: seq<int>, x: int)
    ensures InsertAcceptedAsWritten(|s|, |s| + 1)
    ensures !(Wrap(|s| + 1, |s|) < |s| + 1)
    ensures Inserted(s, |s| + 1, x) == None
  {
  }

  /** The bounds check of `array_splice` as written: both bounds may equal the length. */
  function SpliceAcceptedAsWritten(length: int, start: int, end: int): (b: bool)
    ensures b <==> -length <= start <= length && -length <= end <= length
  {
    var b := if start < 0 then start + length else start;
    var e := if end < 0 then end + length else end;
    !(b > length || b < 0) && !(e > length || e < 0)
  }

  /** On an empty array the written check accepts `start == end == 0`, after which
      every step reads the element at index 0, which does not exist. */
  lemma SpliceAsWrittenReadsPastEnd(step: int)
    ensures SpliceAcceptedAsWritten(0, 0, 0)
    ensures Spliced([], 0, 0, step) == None
  {
  }

  /** The written check and the corrected one disagree exactly when a wrapped
      bound equals the length. */
  lemma SpliceGuardsDiffer(s: seq<int>, start: int, end: int)
    requires SpliceAcceptedAsWritten(|s|, start, end)
    ensures Spliced(s, start, end, 1).None? <==> Wrap(start, |s|) == |s| || Wrap(end, |s|) == |s|
  {
  }

  /** The growth step of `array_append` and `array_insert` as written: allocate
      ten slots only when there is no buffer pointer (which also resets the
      length to zero), then double when full. */
  function GrownCapacityAsWritten(hasBuffer: bool, length: int, capacity: int): (c: int)
    ensures hasBuffer && length != capacity ==> c == capacity
    ensures hasBuffer && length == capacity ==> c == 2 * capacity
    ensures !hasBuffer ==> c == DefaultCapacity
  {
    var c := if hasBuffer then capacity else DefaultCapacity;
    var l := if hasBuffer then length else 0;
    if l == c then c * 2 else c
  }

  /** A zero-capacity buffer that has a pointer (from `init_array(ap, 0)`, or a
      cleared array whose pointer was freed but kept) stays at capacity zero, so
      the write at index `length` is out of bounds. The corrected growth always
      leaves room for one more element. */
  lemma GrowthAsWrittenStaysZero()
    ensures GrownCapacityAsWritten(true, 0, 0) == 0
    ensures !(0 < GrownCapacityAsWritten(true, 0, 0))
    ensures 0 < GrownCapacity(0, 0)
  {
  }
}
