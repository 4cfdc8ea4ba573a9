/** The container `array_t` of array.c: a heap buffer of `int` with a separate
    logical length and allocated capacity, updated in place. A capacity of zero
    stands for "no backing buffer"; append and insert then allocate the default
    capacity of ten before they write. */
module CArray {
  import opened ArraySpec

  class IntArray {
    var buf: array<int>
    var length: nat
    var capacity: nat

    /** The struct invariant: the live prefix fits in the allocated buffer. */
    ghost predicate Valid()
      reads this
    {
      length <= capacity == buf.Length
    }

    /** The logical contents: the first `length` slots of the buffer. */
    ghost function Elements(): seq<int>
      reads this, buf
      requires Valid()
    {
      buf[..length]
    }

    /** `new_array(size)`: a new empty array with `size` allocated slots. */
    constructor (size: nat)
      ensures Valid() && fresh(buf)
      ensures length == 0 && capacity == size && Elements() == []
    {
      buf := new int[size];
      length, capacity := 0, size;
    }

    /** `init_array(ap, size)`: reinitialise this struct as empty with `size` slots. */
    method Init(size: nat)
      modifies this
      ensures Valid() && fresh(buf)
      ensures length == 0 && capacity == size && Elements() == []
    {
      buf := new int[size];
      length, capacity := 0, size;
    }

    /** `array_resize`: move to a buffer of exactly `newSize` slots, keeping the
        live elements. Shrinking below the length is the source's internal error. */
    method Resize(newSize: nat)
      requires Valid() && length <= newSize
      modifies this
      ensures Valid() && fresh(buf)
      ensures capacity == newSize && length == old(length)
      ensures Elements() == old(Elements())
    {
      var grown := new int[newSize];
      var j := 0;
      while j < length
        modifies grown
        invariant 0 <= j <= length
        invariant forall k :: 0 <= k < j ==> grown[k] == buf[k]
      {
        grown[j] := buf[j];
        j := j + 1;
      }
      buf, capacity := grown, newSize;
    }

    /** `array_append`: allocate lazily, double when full, then write `x` at the end. */
    method Append(x: int)
      requires Valid()
      modifies this, buf
      ensures Valid() && (buf == old(buf) || fresh(buf))
      ensures Elements() == old(Elements()) + [x]
      ensures capacity == GrownCapacity(old(length), old(capacity))
    {
      if capacity == 0 {
        Init(DefaultCapacity);
      }
      if length == capacity {
        Resize(2 * capacity);
      }
      ghost var before := Elements();
      buf[length] := x;
      length := length + 1;
      assert Elements() == before + [x];
    }

    /** `array_lsearch`: the first index holding `x`, or -1. */
    method LinearSearch(x: int) returns (r: int)
      requires Valid()
      ensures r == IndexOf(Elements(), x)
      ensures -1 <= r < length
      ensures 0 <= r ==> buf[r] == x && forall k :: 0 <= k < r ==> buf[k] != x
      ensures r == -1 ==> forall k :: 0 <= k < length ==> buf[k] != x
    {
      for i := 0 to length
        invariant forall k :: 0 <= k < i ==> buf[k] != x
      {
        if buf[i] == x {
          IndexOfUnique(Elements(), x, i);
          return i;
        }
      }
      return -1;
    }

    /** `array_remove`: wrap a negative `i` once, reject an index that names no
        element, report the removed value and shift the tail left by one. */
    method Remove(i: int) returns (ok: bool, removed: int)
      requires Valid()
      modifies this`length, buf
      ensures Valid() && buf == old(buf) && capacity == old(capacity)
      ensures Removed(old(Elements()), i) == if ok then Some(Removal(removed, Elements())) else None
      ensures !ok ==> Elements() == old(Elements())
    {
      var j := Wrap(i, length);
      if j < 0 || j >= length {
        return false, 0;
      }
      ghost var s := Elements();
      removed := buf[j];
      var k := j;
      while k < length - 1
        modifies buf
        invariant j <= k <= length - 1
        invariant forall m :: 0 <= m < j ==> buf[m] == s[m]
        invariant forall m :: j <= m < k ==> buf[m] == s[m + 1]
        invariant forall m :: k <= m < length ==> buf[m] == s[m]
      {
        buf[k] := buf[k + 1];
        k := k + 1;
      }
      length := length - 1;
      ClosedGap(Elements(), s, j);
      ok := true;
    }

    /** `array_insert`: allocate lazily, wrap a negative `i` once, reject an index
        outside [0, length], double when full, shift the tail right and write `x`. */
    method Insert(i: int, x: int) returns (ok: bool)
      requires Valid()
      modifies this, buf
      ensures Valid() && (buf == old(buf) || fresh(buf))
      ensures Inserted(old(Elements()), i, x) == if ok then Some(Elements()) else None
      ensures !ok ==> Elements() == old(Elements()) && capacity == Backed(old(capacity))
      ensures ok ==> capacity == GrownCapacity(old(length), old(capacity))
    {
      if capacity == 0 {
        Init(DefaultCapacity);
      }
      var j := Wrap(i, length);
      if j < 0 || j > length {
        return false;
      }
      if length == capacity {
        Resize(2 * capacity);
      }
      ghost var s := Elements();
      ShiftUp(j);
      buf[j] := x;
      length := length + 1;
      OpenedGap(Elements(), s, j, x);
      ok := true;
    }

    /** The shift loop of `array_insert`: move the elements from `j` on up by one
        slot, from the last one down, leaving slot `j` free. */
    method ShiftUp(j: nat)
      requires Valid() && j <= length < capacity
      modifies buf
      ensures forall m :: 0 <= m < j ==> buf[m] == old(buf[m])
      ensures forall m :: j < m <= length ==> buf[m] == old(buf[m - 1])
    {
      var k := length;
      while k > j
        invariant j <= k <= length
        invariant forall m :: 0 <= m < k ==> buf[m] == old(buf[m])
        invariant forall m :: k < m <= length ==> buf[m] == old(buf[m - 1])
      {
        buf[k] := buf[k - 1];
        k := k - 1;
      }
    }

    /** `array_splice`: a new array of the elements from the wrapped `start`
        towards the wrapped `end` (inclusive) in steps of `step`; null when a
        bound is not an element index. */
    method Splice(start: int, end: int, step: int) returns (r: IntArray?)
      requires Valid()
      ensures r == null <==> Spliced(Elements(), start, end, step).None?
      ensures r != null ==> fresh(r) && fresh(r.buf) && r.Valid()
      ensures r != null ==> Spliced(Elements(), start, end, step) == Some(r.Elements())
    {
      ghost var s := Elements();
      var b, e := Wrap(start, length), Wrap(end, length);
      if b < 0 || b >= length || e < 0 || e >= length {
        return null;
      }
      if step == 0 {
        r := new IntArray(DefaultCapacity);
        r.Append(buf[b]);
      } else if step > 0 {
        r := StrideUp(b, e, step);
      } else {
        r := StrideDown(b, e, step);
      }
      assert Elements() == s;
      assert step != 0 ==> Spliced(s, start, end, step) == Some(Stride(s, b, e, step));
      assert step == 0 ==> r.Elements() == [s[b]];
    }

    /** The ascending loop of `array_splice`: collect from `b` while the index does not pass `e`. */
    method StrideUp(b: nat, e: nat, step: int) returns (r: IntArray)
      requires Valid() && b < length && e < length && step > 0
      ensures fresh(r) && fresh(r.buf) && r.Valid()
      ensures r.Elements() == Stride(Elements(), b, e, step)
    {
      ghost var s := Elements();
      r := new IntArray(DefaultCapacity);
      var k := b;
      while k <= e
        invariant 0 <= k
        invariant fresh(r) && fresh(r.buf) && r.Valid()
        invariant r.Elements() + Stride(s, k, e, step) == Stride(s, b, e, step)
        decreases e - k
      {
        ghost var before := r.Elements();
        r.Append(buf[k]);
        StrideStep(s, k, e, step, before, Stride(s, b, e, step));
        k := k + step;
      }
      assert Stride(s, k, e, step) == [];
    }

    /** The descending loop of `array_splice`: collect from `b` while the index does not pass `e`. */
    method StrideDown(b: nat, e: nat, step: int) returns (r: IntArray)
      requires Valid() && b < length && e < length && step < 0
      ensures fresh(r) && fresh(r.buf) && r.Valid()
      ensures r.Elements() == Stride(Elements(), b, e, step)
    {
      ghost var s := Elements();
      r := new IntArray(DefaultCapacity);
      var k: int := b;
      while k >= e
        invariant k < length
        invariant fresh(r) && fresh(r.buf) && r.Valid()
        invariant r.Elements() + Stride(s, k, e, step) == Stride(s, b, e, step)
        decreases k - e
      {
        ghost var before := r.Elements();
        r.Append(buf[k]);
        StrideStep(s, k, e, step, before, Stride(s, b, e, step));
        k := k + step;
      }
      assert Stride(s, k, e, step) == [];
    }

    /** `array_select`: a new array of the elements satisfying `p`, in order. */
    method Select(p: int -> bool) returns (r: IntArray)
      requires Valid()
      ensures fresh(r) && fresh(r.buf) && r.Valid()
      ensures r.Elements() == Filter(p, Elements())
    {
      ghost var s := Elements();
      r := new IntArray(DefaultCapacity);
      for i := 0 to length
        invariant fresh(r) && fresh(r.buf) && r.Valid()
        invariant r.Elements() == Filter(p, s[..i])
      {
        assert s[..i + 1][..i] == s[..i];
        if p(buf[i]) {
          r.Append(buf[i]);
        }
      }
      assert s[..length] == s;
    }

    /** `snprintfc_array`, counting only: the number of bytes the rendering takes
        up to the first piece that reaches the buffer size `n`, or the whole
        rendering when it fits. */
    method Format(n: nat, start: string, printer: int -> string, delim: string, end: string) returns (w: nat)
      requires Valid()
      ensures (w < n) == (|Rendered(Elements(), start, printer, delim, end)| < n)
      ensures w <= |Rendered(Elements(), start, printer, delim, end)|
      ensures w < n ==> w == |Rendered(Elements(), start, printer, delim, end)|
    {
      ghost var s := Elements();
      w := |start|;
      if w >= n {
        return;
      }
      var i := 0;
      while i + 1 < length
        invariant 0 <= i && (i == 0 || i < length)
        invariant w == |start| + |Terminated(s[..i], printer, delim)| < n
      {
        TerminatedGrows(s, printer, delim, i + 1, length - 1);
        assert s[..i + 1][..i] == s[..i];
        w := w + |printer(buf[i])|;
        if w >= n {
          return;
        }
        w := w + |delim|;
        if w >= n {
          return;
        }
        i := i + 1;
      }
      if length > 0 {
        assert i == length - 1;
        w := w + |printer(buf[i])|;
        if w >= n {
          return;
        }
      }
      w := w + |end|;
    }

    /** `clear_array`: drop the backing buffer and reset length and capacity. */
    method Clear()
      modifies this
      ensures Valid()
      ensures length == 0 && capacity == 0 && Elements() == []
    {
      buf := new int[0];
      length, capacity := 0, 0;
    }
  }

  /** array_test.c, first lines: init, one append, clear. */
  method TestInitClear() returns (evens: IntArray)
    ensures evens.Valid() && evens.length == 0 && evens.capacity == 0 && evens.Elements() == []
  {
    evens := new IntArray(5);
    evens.Append(2);
    assert evens.Elements() == [2] && evens.capacity == 5;
    evens.Clear();
    assert evens.length == 0 && evens.capacity == 0;
  }

  /** array_test.c: appends to a capacity-2 array that cross two doublings. */
  method TestGrowth() returns (primes: IntArray)
    ensures fresh(primes) && primes.Valid()
    ensures primes.Elements() == [2, 3, 5, 7, 8, 11] && primes.capacity == 8
  {
    primes := new IntArray(2);
    primes.Append(2);
    primes.Append(3);
    assert primes.Elements() == [2, 3] && primes.capacity == 2;
    primes.Append(5);
    assert primes.Elements() == [2, 3, 5] && primes.capacity == 4;
    primes.Append(7);
    assert primes.Elements() == [2, 3, 5, 7] && primes.capacity == 4;
    primes.Append(8);
    assert primes.Elements() == [2, 3, 5, 7, 8] && primes.capacity == 8;
    primes.Append(11);
  }

  /** The removes and the insert array_test.c performs, on the contents it has then. */
  lemma RemoveEightAtFour()
    ensures Removed([2, 3, 5, 7, 8, 11], 4) == Some(Removal(8, [2, 3, 5, 7, 11]))
  {
    var s := [2, 3, 5, 7, 8, 11];
    assert s[..4] + s[5..] == [2, 3, 5, 7, 11];
  }

  lemma RemoveLast()
    ensures Removed([2, 3, 5, 7, 11], -1) == Some(Removal(11, [2, 3, 5, 7]))
  {
    var s := [2, 3, 5, 7, 11];
    assert s[..4] + s[5..] == [2, 3, 5, 7];
  }

  lemma RemoveSecondToLast()
    ensures Removed([2, 3, 5, 7], -2) == Some(Removal(5, [2, 3, 7]))
  {
    var s := [2, 3, 5, 7];
    assert s[..2] + s[3..] == [2, 3, 7];
  }

  lemma InsertFiveAtTwo()
    ensures Inserted([2, 3, 7], 2, 5) == Some([2, 3, 5, 7])
  {
    var s := [2, 3, 7];
    assert s[..2] + [5] + s[2..] == [2, 3, 5, 7];
  }

  /** array_test.c: search for 8 and remove it by the index found. */
  method TestSearchRemove(primes: IntArray)
    requires primes.Valid() && primes.Elements() == [2, 3, 5, 7, 8, 11]
    modifies primes`length, primes.buf
    ensures primes.Valid() && primes.Elements() == [2, 3, 5, 7, 11]
  {
    var i := primes.LinearSearch(8);
    IndexOfUnique([2, 3, 5, 7, 8, 11], 8, 4);
    assert i == 4;
    RemoveEightAtFour();
    var ok, x := primes.Remove(i);
    assert ok && x == 8;
  }

  /** array_test.c: remove the last element through index -1; 11 is then absent. */
  method TestRemoveLast(primes: IntArray)
    requires primes.Valid() && primes.Elements() == [2, 3, 5, 7, 11]
    modifies primes`length, primes.buf
    ensures primes.Valid() && primes.Elements() == [2, 3, 5, 7]
  {
    RemoveLast();
    var ok, x := primes.Remove(-1);
    assert ok && x == 11;
    var i := primes.LinearSearch(11);
    assert i == -1;
  }

  /** array_test.c: remove through index -2; the removed value is then absent. */
  method TestRemoveWrap(primes: IntArray)
    requires primes.Valid() && primes.Elements() == [2, 3, 5, 7]
    modifies primes`length, primes.buf
    ensures primes.Valid() && primes.Elements() == [2, 3, 7]
  {
    RemoveSecondToLast();
    var ok, x := primes.Remove(-2);
    assert ok && x == 5;
    var i := primes.LinearSearch(x);
    assert i == -1;
  }

  /** array_test.c: insert 5 back at index 2, then append 11 and 13. */
  method TestInsert(primes: IntArray)
    requires primes.Valid() && primes.Elements() == [2, 3, 7]
    modifies primes, primes.buf
    ensures primes.Valid() && primes.Elements() == [2, 3, 5, 7, 11, 13]
  {
    InsertFiveAtTwo();
    var ok := primes.Insert(2, 5);
    assert ok && primes.Elements() == [2, 3, 5, 7];
    primes.Append(11);
    primes.Append(13);
  }

  /** array_test.c, last part: select "less than 6", a forward splice and the
      full reverse splice, none of which changes the source array. */
  method TestDerived(primes: IntArray) returns (small: IntArray, middle: IntArray?, reverse: IntArray?)
    requires primes.Valid() && primes.Elements() == [2, 3, 5, 7, 11, 13]
    ensures small.Valid() && small.Elements() == [2, 3, 5]
    ensures middle != null && middle.Valid() && middle.Elements() == [5, 7, 11, 13]
    ensures reverse != null && reverse.Valid() && reverse.Elements() == [13, 11, 7, 5, 3, 2]
    ensures primes.Elements() == [2, 3, 5, 7, 11, 13]
  {
    small := primes.Select(LessThan6);
    SelectExample();
    assert small.Elements() == [2, 3, 5];
    var i := small.LinearSearch(7);
    assert i == -1;

    SpliceExamples();
    middle := primes.Splice(2, 5, 1);
    assert middle != null && middle.Elements() == [5, 7, 11, 13];

    reverse := primes.Splice(-1, 0, -1);
    assert reverse != null && reverse.Elements() == [13, 11, 7, 5, 3, 2];
    assert primes.Elements() == [2, 3, 5, 7, 11, 13];
  }

  /** Taking one stride step moves the element at `k` from the pending stride
      to the collected prefix. */
  lemma StrideStep(s: seq<int>, k: int, e: int, step: int, done: seq<int>, whole: seq<int>)
    requires step != 0 && 0 <= e < |s| && 0 <= k < |s|
    requires step > 0 ==> k <= e
    requires step < 0 ==> e <= k
    requires done + Stride(s, k, e, step) == whole
    ensures (done + [s[k]]) + Stride(s, k + step, e, step) == whole
  {
    assert Stride(s, k, e, step) == [s[k]] + Stride(s, k + step, e, step);
  }

  /** A buffer that agrees with `s` before `j`, holds `x` at `j` and `s` shifted
      up by one after it is `s` with `x` inserted at `j`. */
  lemma OpenedGap(a: seq<int>, s: seq<int>, j: nat, x: int)
    requires j <= |s| && |a| == |s| + 1 && a[j] == x
    requires forall m :: 0 <= m < j ==> a[m] == s[m]
    requires forall m :: j < m < |a| ==> a[m] == s[m - 1]
    ensures a == s[..j] + [x] + s[j..]
  {
  }

  /** A buffer that agrees with `s` before `j` and with `s` shifted down by one
      from `j` on is `s` without its element at `j`. */
  lemma ClosedGap(a: seq<int>, s: seq<int>, j: nat)
    requires j < |s| && |a| == |s| - 1
    requires forall m :: 0 <= m < j ==> a[m] == s[m]
    requires forall m :: j <= m < |a| ==> a[m] == s[m + 1]
    ensures a == s[..j] + s[j + 1..]
  {
  }
}
