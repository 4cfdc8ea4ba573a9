/** Pure specification of the integer array container of array.c: the one-shot
    negative index wraparound, the growth policy, and the contents that search,
    remove, insert, splice, select and the bounded formatter produce, stated over
    `seq<int>`. The class in module CArray is proved against these functions. */
module ArraySpec {

  datatype Option<T> = None | Some(value: T)

  /** An element taken out of the array together with the contents left behind. */
  datatype Removal = Removal(value: int, rest: seq<int>)

  /** Capacity that append and insert allocate when the array has no backing. */
  const DefaultCapacity: nat := 10

  // ---------------------------------------------------------------------------
  // Index wraparound and growth

  /** A negative index counts back from `length`, exactly once: an index below
      `-length` stays negative and is then rejected by the caller. */
  function Wrap(i: int, length: nat): (j: int)
    ensures 0 <= i ==> j == i
    ensures i < 0 ==> j == length + i
    ensures i < 0 <= i + length ==> 0 <= j < length
    ensures i + length < 0 ==> j < 0
  {
    if i < 0 then length + i else i
  }

  /** The capacity after the lazy allocation: a zero capacity stands for "no backing". */
  function Backed(capacity: nat): (c: nat)
    ensures c > 0
    ensures capacity == 0 ==> c == DefaultCapacity
    ensures capacity > 0 ==> c == capacity
  {
    if capacity == 0 then DefaultCapacity else capacity
  }

  /** The capacity append and insert leave behind: lazily allocate, then double when full. */
  function GrownCapacity(length: nat, capacity: nat): (c: nat)
    requires length <= capacity
    ensures length < c
    ensures capacity <= c
    ensures c != capacity <==> capacity == 0 || length == capacity
    ensures capacity == 0 ==> c == DefaultCapacity
    ensures 0 < capacity == length ==> c == 2 * capacity
  {
    var backed := Backed(capacity);
    if length == backed then 2 * backed else backed
  }

  // ---------------------------------------------------------------------------
  // Linear search

  /** The first position of `x` in `s`, or -1 when `x` does not occur. */
  function IndexOf(s: seq<int>, x: int): (r: int)
    ensures -1 <= r < |s|
    ensures r == -1 <==> x !in s
    ensures 0 <= r ==> s[r] == x && forall k :: 0 <= k < r ==> s[k] != x
  {
    if |s| == 0 then -1
    else if s[0] == x then 0
    else
      var k := IndexOf(s[1..], x);
      if k == -1 then -1 else k + 1
  }

  /** The first-match property determines the index uniquely. */
  lemma IndexOfUnique(s: seq<int>, x: int, r: int)
    requires 0 <= r < |s| && s[r] == x
    requires forall k :: 0 <= k < r ==> s[k] != x
    ensures IndexOf(s, x) == r
  {
  }

  // ---------------------------------------------------------------------------
  // Remove and insert at a wrapped index

  /** Removal at index `i` after one-shot wraparound; None when the wrapped
      index does not name an element. */
  function Removed(s: seq<int>, i: int): (r: Option<Removal>)
    ensures r.Some? <==> -|s| <= i < |s|
    ensures r.Some? ==> |r.value.rest| == |s| - 1
  {
    var j := Wrap(i, |s|);
    if 0 <= j < |s| then Some(Removal(s[j], s[..j] + s[j + 1..])) else None
  }

  /** Insertion of `x` before index `i` after one-shot wraparound; None when the
      wrapped index is negative or past the end. */
  function Inserted(s: seq<int>, i: int, x: int): (r: Option<seq<int>>)
    ensures r.Some? <==> -|s| <= i <= |s|
    ensures r.Some? ==> |r.value| == |s| + 1 && r.value[Wrap(i, |s|)] == x
  {
    var j := Wrap(i, |s|);
    if 0 <= j <= |s| then Some(s[..j] + [x] + s[j..]) else None
  }

  /** A removal loses exactly the removed element and an insertion adds exactly
      the inserted one: no other element is lost, duplicated or invented. */
  lemma EditsPreserveOthers(s: seq<int>, i: int, x: int)
    ensures Removed(s, i).Some? ==>
      multiset(s) == multiset(Removed(s, i).value.rest) + multiset{Removed(s, i).value.value}
    ensures Inserted(s, i, x).Some? ==>
      multiset(Inserted(s, i, x).value) == multiset(s) + multiset{x}
  {
    var j := Wrap(i, |s|);
    if 0 <= j < |s| {
      assert s == s[..j] + [s[j]] + s[j + 1..];
    }
    if 0 <= j <= |s| {
      assert s == s[..j] + s[j..];
    }
  }

  /** Removal shifts the elements after the removed one down by one position. */
  lemma RemovedShifts(s: seq<int>, i: int)
    requires Removed(s, i).Some?
    ensures var j, rest := Wrap(i, |s|), Removed(s, i).value.rest;
      Removed(s, i).value.value == s[j] &&
      (forall k :: 0 <= k < j ==> rest[k] == s[k]) &&
      (forall k :: j <= k < |rest| ==> rest[k] == s[k + 1])
  {
  }

  /** Insert then remove at the same position gives back the inserted value and
      the original contents; the position may be written as the new array's
      negative index. */
  lemma InsertRemoveRoundTrip(s: seq<int>, i: int, x: int)
    requires -|s| <= i <= |s|
    ensures Inserted(s, i, x).Some?
    ensures var t, j := Inserted(s, i, x).value, Wrap(i, |s|);
      Removed(t, j) == Some(Removal(x, s)) &&
      Removed(t, j - |t|) == Some(Removal(x, s))
  {
    var j := Wrap(i, |s|);
    var t := s[..j] + [x] + s[j..];
    assert t[..j] == s[..j];
    assert t[j + 1..] == s[j..];
    assert t[..j] + t[j + 1..] == s;
  }

  /** Remove then insert the removed value at the same position restores the array. */
  lemma RemoveInsertRoundTrip(s: seq<int>, i: int)
    requires -|s| <= i < |s|
    ensures Removed(s, i).Some?
    ensures var r := Removed(s, i).value;
      Inserted(r.rest, Wrap(i, |s|), r.value) == Some(s)
  {
    var j := Wrap(i, |s|);
    var rest := s[..j] + s[j + 1..];
    assert rest[..j] == s[..j];
    assert rest[j..] == s[j + 1..];
    assert rest[..j] + [s[j]] + rest[j..] == s;
  }

  /** A value not present before an insert is found exactly where it was inserted. */
  lemma InsertThenSearch(s: seq<int>, i: int, x: int)
    requires -|s| <= i <= |s|
    requires x !in s
    ensures IndexOf(Inserted(s, i, x).value, x) == Wrap(i, |s|)
  {
    var j := Wrap(i, |s|);
    var t := Inserted(s, i, x).value;
    forall k | 0 <= k < j ensures t[k] != x {
      assert t[k] == s[k];
    }
    IndexOfUnique(t, x, j);
  }

  // ---------------------------------------------------------------------------
  // Splice: a strided slice with an inclusive end

  /** The elements at `i, i + step, i + 2*step, ...` while the index has not
      passed `e` (in the direction given by the sign of `step`). */
  function Stride(s: seq<int>, i: int, e: int, step: int): (r: seq<int>)
    requires step != 0 && 0 <= e < |s|
    requires step > 0 ==> 0 <= i
    requires step < 0 ==> i < |s|
    ensures r == [] <==> (step > 0 && e < i) || (step < 0 && i < e)
    decreases if step > 0 then e - i + 1 else i - e + 1
  {
    if step > 0 then
      if i > e then [] else [s[i]] + Stride(s, i + step, e, step)
    else
      if i < e then [] else [s[i]] + Stride(s, i + step, e, step)
  }

  /** Splice after wrapping `start` and `end` once; None when either bound is
      not an element index. A zero step yields the single element at `start`. */
  function Spliced(s: seq<int>, start: int, end: int, step: int): (r: Option<seq<int>>)
    ensures r.Some? <==> -|s| <= start < |s| && -|s| <= end < |s|
    ensures r.Some? && step == 0 ==> r.value == [s[Wrap(start, |s|)]]
  {
    var b, e := Wrap(start, |s|), Wrap(end, |s|);
    if !(0 <= b < |s|) || !(0 <= e < |s|) then None
    else if step == 0 then Some([s[b]])
    else Some(Stride(s, b, e, step))
  }

  /** `(i + step) + (k - 1) * step` is `i + k * step`: the index arithmetic of one stride step. */
  lemma ShiftIndex(i: int, step: int, k: int)
    ensures (i + step) + (k - 1) * step == i + k * step
  {
  }

  /** Closed form of a stride: element `k` is `s[i + k*step]`, and the count is
      exactly the number of such indices that do not pass `e`. */
  lemma {:induction false} StrideAt(s: seq<int>, i: int, e: int, step: int)
    requires step != 0 && 0 <= e < |s|
    requires step > 0 ==> 0 <= i
    requires step < 0 ==> i < |s|
    ensures var r := Stride(s, i, e, step);
      forall k :: 0 <= k < |r| ==> 0 <= i + k * step < |s| && r[k] == s[i + k * step]
    ensures var n := |Stride(s, i, e, step)|;
      step > 0 ==> (n == 0 <==> e < i) && (0 < n ==> i + (n - 1) * step <= e < i + n * step)
    ensures var n := |Stride(s, i, e, step)|;
      step < 0 ==> (n == 0 <==> i < e) && (0 < n ==> i + n * step < e <= i + (n - 1) * step)
    decreases if step > 0 then e - i + 1 else i - e + 1
  {
    var r := Stride(s, i, e, step);
    if (step > 0 && i <= e) || (step < 0 && e <= i) {
      StrideAt(s, i + step, e, step);
      var t := Stride(s, i + step, e, step);
      assert r == [s[i]] + t;
      forall k | 0 < k < |r| ensures 0 <= i + k * step < |s| && r[k] == s[i + k * step] {
        assert r[k] == t[k - 1];
        ShiftIndex(i, step, k);
      }
      ShiftIndex(i, step, |r| - 1);
      ShiftIndex(i, step, |r|);
    }
  }

  /** The elements of `s` in reverse order. */
  function Reverse(s: seq<int>): (r: seq<int>)
    ensures |r| == |s|
    ensures forall k :: 0 <= k < |s| ==> r[|s| - 1 - k] == s[k]
  {
    seq(|s|, k requires 0 <= k < |s| => s[|s| - 1 - k])
  }

  /** With a step of one the end bound is inclusive: splice(b, e, 1) is s[b..e+1]. */
  lemma SpliceUnitStep(s: seq<int>, b: nat, e: nat)
    requires b <= e < |s|
    ensures Spliced(s, b, e, 1) == Some(s[b..e + 1])
  {
    StrideAt(s, b, e, 1);
    var r := Stride(s, b, e, 1);
    assert |r| == e + 1 - b;
    assert r == s[b..e + 1];
  }

  /** splice(-1, 0, -1) of a non-empty array is the whole array reversed. */
  lemma SpliceFullReverse(s: seq<int>)
    requires |s| > 0
    ensures Spliced(s, -1, 0, -1) == Some(Reverse(s))
  {
    StrideAt(s, |s| - 1, 0, -1);
    var r := Stride(s, |s| - 1, 0, -1);
    assert |r| == |s|;
    forall k | 0 <= k < |s| ensures r[k] == Reverse(s)[k] {
      assert |s| - 1 + k * -1 == |s| - 1 - k;
    }
    assert r == Reverse(s);
  }

  /** Concrete splices of the container [2, 3, 5, 7, 11, 13]: the forward and
      the reverse splice of the test program, a shorter forward one and a zero step. */
  lemma SpliceExamples()
    ensures Spliced([2, 3, 5, 7, 11, 13], 2, 5, 1) == Some([5, 7, 11, 13])
    ensures Spliced([2, 3, 5, 7, 11, 13], 1, 3, 1) == Some([3, 5, 7])
    ensures Spliced([2, 3, 5, 7, 11, 13], -1, 0, -1) == Some([13, 11, 7, 5, 3, 2])
    ensures Spliced([2, 3, 5, 7, 11, 13], 2, 2, 0) == Some([5])
  {
    var s := [2, 3, 5, 7, 11, 13];
    SpliceUnitStep(s, 2, 5);
    assert s[2..6] == [5, 7, 11, 13];
    SpliceUnitStep(s, 1, 3);
    assert s[1..4] == [3, 5, 7];
    SpliceFullReverse(s);
    assert Reverse(s) == [13, 11, 7, 5, 3, 2];
  }

  // ---------------------------------------------------------------------------
  // Select

  /** The elements of `s` that satisfy `p`, in their original order. */
  function Filter(p: int -> bool, s: seq<int>): (r: seq<int>)
    ensures |r| <= |s|
    ensures forall k :: 0 <= k < |r| ==> p(r[k]) && r[k] in s
  {
    if |s| == 0 then []
    else Filter(p, s[..|s| - 1]) + (if p(s[|s| - 1]) then [s[|s| - 1]] else [])
  }

  /** Every selected element satisfies the predicate, and an element is selected
      exactly when it occurs in the source and satisfies the predicate. */
  lemma {:induction false} FilterMembers(p: int -> bool, s: seq<int>)
    ensures |Filter(p, s)| <= |s|
    ensures forall k :: 0 <= k < |Filter(p, s)| ==> p(Filter(p, s)[k])
    ensures forall x :: x in Filter(p, s) <==> x in s && p(x)
  {
    if |s| > 0 {
      var front := s[..|s| - 1];
      FilterMembers(p, front);
      assert s == front + [s[|s| - 1]];
    }
  }

  /** Selection keeps each element's multiplicity when it satisfies the predicate
      and drops it entirely otherwise. */
  lemma {:induction false} FilterCount(p: int -> bool, s: seq<int>, x: int)
    ensures multiset(Filter(p, s))[x] == if p(x) then multiset(s)[x] else 0
  {
    if |s| > 0 {
      var front := s[..|s| - 1];
      FilterCount(p, front, x);
      assert s == front + [s[|s| - 1]];
    }
  }

  /** Selection distributes over concatenation, so relative order is preserved. */
  lemma {:induction false} FilterConcat(p: int -> bool, a: seq<int>, b: seq<int>)
    ensures Filter(p, a + b) == Filter(p, a) + Filter(p, b)
    decreases |b|
  {
    if |b| > 0 {
      var front := b[..|b| - 1];
      assert (a + b)[..|a + b| - 1] == a + front;
      FilterConcat(p, a, front);
    } else {
      assert a + b == a;
    }
  }

  /** Selecting twice with the same predicate selects nothing more. */
  lemma {:induction false} FilterIdempotent(p: int -> bool, s: seq<int>)
    ensures Filter(p, Filter(p, s)) == Filter(p, s)
  {
    if |s| > 0 {
      var front := s[..|s| - 1];
      var last := s[|s| - 1];
      FilterIdempotent(p, front);
      FilterConcat(p, Filter(p, front), if p(last) then [last] else []);
      if p(last) {
        assert [last][..0] == [];
      }
    }
  }

  /** The predicate "less than 6" of the select example. */
  function LessThan6(x: int): (b: bool)
  {
    x < 6
  }

  /** The concrete selects with "less than 6" of [2, 3, 5, 7, 11] and of the
      test program's [2, 3, 5, 7, 11, 13]. */
  lemma SelectExample()
    ensures Filter(LessThan6, [2, 3, 5, 7, 11]) == [2, 3, 5]
    ensures Filter(LessThan6, [2, 3, 5, 7, 11, 13]) == [2, 3, 5]
  {
    var p: int -> bool := LessThan6;
    assert [2, 3][..1] == [2];
    assert [2, 3, 5][..2] == [2, 3];
    assert [2, 3, 5, 7][..3] == [2, 3, 5];
    assert [2, 3, 5, 7, 11][..4] == [2, 3, 5, 7];
    assert Filter(p, [2]) == [2];
    assert Filter(p, [2, 3]) == [2, 3];
    assert Filter(p, [2, 3, 5]) == [2, 3, 5];
    assert Filter(p, [2, 3, 5, 7]) == [2, 3, 5];
    assert Filter(p, [2, 3, 5, 7, 11]) == [2, 3, 5];
    assert [2, 3, 5, 7, 11, 13][..5] == [2, 3, 5, 7, 11];
  }

  // ---------------------------------------------------------------------------
  // Bounded formatting

  /** Each element's text followed by the delimiter. */
  function Terminated(s: seq<int>, printer: int -> string, delim: string): (r: string)
    ensures |s| * |delim| <= |r|
  {
    if |s| == 0 then ""
    else Terminated(s[..|s| - 1], printer, delim) + printer(s[|s| - 1]) + delim
  }

  /** The full text: `start`, the elements' texts joined by `delim`, then `end`.
      An empty array renders as `start` followed by `end`. */
  function Rendered(s: seq<int>, start: string, printer: int -> string, delim: string, end: string): (r: string)
    ensures |start| + |end| <= |r|
    ensures |s| == 0 ==> r == start + end
  {
    start
    + (if |s| == 0 then "" else Terminated(s[..|s| - 1], printer, delim) + printer(s[|s| - 1]))
    + end
  }

  /** The terminated text of a prefix is no longer than that of a longer prefix. */
  lemma {:induction false} TerminatedGrows(s: seq<int>, printer: int -> string, delim: string, a: nat, b: nat)
    requires a <= b <= |s|
    ensures |Terminated(s[..a], printer, delim)| <= |Terminated(s[..b], printer, delim)|
    decreases b
  {
    if a < b {
      TerminatedGrows(s, printer, delim, a, b - 1);
      assert s[..b][..b - 1] == s[..b - 1];
    }
  }

  /** The bracketed style of the console printer: [] for none, [a] for one. */
  lemma RenderedBrackets(printer: int -> string, x: int, y: int)
    ensures Rendered([], "[", printer, ", ", "]") == "[]"
    ensures Rendered([x], "[", printer, ", ", "]") == "[" + printer(x) + "]"
    ensures Rendered([x, y], "[", printer, ", ", "]") == "[" + printer(x) + ", " + printer(y) + "]"
  {
    assert [x, y][..1] == [x];
    assert [x][..0] == [];
  }
}
