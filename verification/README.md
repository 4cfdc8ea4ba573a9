# c-array in Dafny

A model of `array_t`, the growable integer array of `array.c`. The struct holds a
heap buffer of `int` plus a logical `length` and an allocated `capacity`.

- `ArraySpec` (array_spec.dfy) states, over `seq<int>`, what each operation does:
  - the one-shot negative index wraparound and the growth policy (lazy allocation of ten slots, then doubling);
  - first-match search;
  - removal and insertion at a wrapped index;
  - the strided splice with an inclusive end bound;
  - predicate selection;
  - the text the bounded formatter renders.
- `CArray` (array_t.dfy) is the container itself. It is a class with an `array<int>` buffer and
  `length`/`capacity` fields, updated in place.
  - `Valid()` is the struct invariant `length <= capacity == buf.Length`.
  - `Elements()` is the live prefix `buf[..length]`.
  - Search, remove, insert, splice, select, append's growth and the formatter are proved against
    the `ArraySpec` function for them. `Init`, `Resize` and `Clear` state their new length,
    capacity and contents directly.
  - The same module replays the scenario of `array_test.c` against the contracts.
- `Findings` (findings.dfy) writes down the boundary checks of `array.c` exactly as coded. Beside
  each one it gives the inputs that get through although they name no element.

Decisions where the code and its comments disagree (the model follows the code):

- The splice end bound is inclusive (`i <= end`, `i >= end`). The comment at array.c:144 and
  array.h:85 says exclusive.
- Negative splice bounds wrap as `index += length`. array.h:87-88 says `length + 1 - end` and
  `length - start`.
- A capacity of zero means "no backing buffer". Append and insert then allocate ten slots before
  anything else, as `!ap->array` does in array.c:51 and array.c:113. `clear_array` therefore
  leaves capacity 0, and the next append or insert allocates afresh.
- Insert performs the lazy allocation before its bounds check (array.c:113-125). A rejected
  insert on an unbacked array therefore still leaves capacity 10; its elements are unchanged.
- The error macros are compiled without `ARRAY_EXIT_ON_ERROR`. A bounds error is therefore an
  ordinary failure result: `false` for remove and insert, `null` for splice.

## Model

| member | source | states |
|---|---|---|
| `ArraySpec.Wrap` | array.c:85-87 | a non-negative index is kept; a negative one becomes length + i, which lies in [0, length) for i in [-length, 0) and stays negative below -length (wrapped once only) |
| `ArraySpec.Backed` | array.c:51-53 | an unbacked (zero-capacity) array gets exactly the default ten slots; a backed one keeps its capacity |
| `ArraySpec.GrownCapacity` | array.c:50-59 | an unbacked array gets ten slots; a full backed one doubles; otherwise capacity is kept; afterwards there is room for one more element |
| `ArraySpec.IndexOf` | array.c:67-77 | result in [-1, length); -1 exactly when x is absent; otherwise s[r] == x and no earlier element equals x |
| `ArraySpec.Removed` | array.c:83-106 | removal succeeds exactly when -length <= i < length; the rest is one shorter |
| `ArraySpec.Inserted` | array.c:112-142 | insertion succeeds exactly when -length <= i <= length; the result is one longer and holds x at the wrapped index |
| `ArraySpec.EditsPreserveOthers` | array.c:83-142 | a removal loses exactly the removed element and an insertion adds exactly x (multisets) |
| `ArraySpec.RemovedShifts` | array.c:95-103 | the removed value is the element at the wrapped index; earlier elements stay put, later ones move down by one |
| `ArraySpec.InsertRemoveRoundTrip` | array.c:83-142 | insert then remove at the same position, given as non-negative or as the new array's negative index, returns x and the original contents |
| `ArraySpec.RemoveInsertRoundTrip` | array.c:83-142 | remove then re-insert the removed value at the same position restores the array |
| `ArraySpec.InsertThenSearch` | array.c:67-142 | a value absent before an insert is then found exactly at the wrapped insert index |
| `ArraySpec.Stride` | array.c:172-181 | the stride is empty exactly when the start is already past the end bound in the step's direction (its elements and count are stated by `StrideAt`) |
| `ArraySpec.Spliced` | array.c:148-184 | splice succeeds exactly when both bounds wrap into [0, length); step 0 gives the single element at start |
| `ArraySpec.StrideAt` | array.c:169-181 | element k of a stride is s[start + k*step]; the count is exactly the number of such indices not past the end bound, in either direction |
| `ArraySpec.SpliceUnitStep` | array.c:172-175 | with step 1 the end is inclusive: splice(b, e, 1) is s[b..e+1] |
| `ArraySpec.SpliceFullReverse` | array.c:177-181 | splice(-1, 0, -1) of a non-empty array is the whole array reversed |
| `ArraySpec.SpliceExamples` | array_test.c:136-144 | on [2,3,5,7,11,13], the test's splices: splice(2,5,1) = [5,7,11,13] and splice(-1,0,-1) = the reverse; also splice(1,3,1) = [3,5,7] and the zero step splice(2,2,0) = [5] |
| `ArraySpec.Filter` | array.c:193-199 | the selection is no longer than the source, and every selected element satisfies the predicate and occurs in the source |
| `ArraySpec.FilterMembers` | array.c:189-203 | selection is no longer than the source; every selected element satisfies the predicate; x is selected iff it occurs and satisfies the predicate |
| `ArraySpec.FilterCount` | array.c:193-199 | a satisfying element keeps its multiplicity, any other element is dropped |
| `ArraySpec.FilterConcat` | array.c:193-199 | selection distributes over concatenation (original order is kept) |
| `ArraySpec.FilterIdempotent` | array.c:189-203 | selecting again with the same predicate changes nothing |
| `ArraySpec.SelectExample` | array_test.c:127-131 | with `LessThan6` (the test's `less_than_6`, array_test.c:45-47), selection gives [2,3,5] from [2,3,5,7,11] and from [2,3,5,7,11,13] |
| `ArraySpec.Terminated` | array.c:217-226 | each element contributes at least its delimiter: the text is at least length * delimiter length long |
| `ArraySpec.Rendered` | array.c:212-233 | the rendering is at least as long as start and end together, and an empty array renders as start followed by end |
| `ArraySpec.TerminatedGrows` | array.c:217-226 | the text emitted for a prefix of the elements grows with the prefix |
| `ArraySpec.RenderedBrackets` | array.c:246-261 | the console style renders [] for none, [a] for one, [a, b] for two |
| `CArray.IntArray.constructor` | array.c:22-29 | a new array is valid and empty with exactly the requested capacity |
| `CArray.IntArray.Init` | array.c:14-19 | reinitialisation leaves a valid, empty array of exactly the requested capacity |
| `CArray.IntArray.Resize` | array.c:33-44 | capacity becomes exactly the new size; length and every live element are kept |
| `CArray.IntArray.Append` | array.c:50-63 | the contents become old + [x]; capacity is the grown capacity, so the invariant still holds |
| `CArray.IntArray.LinearSearch` | array.c:67-77 | returns the first index holding x, or -1 when no live element equals x; changes nothing |
| `CArray.IntArray.Remove` | array.c:83-106 | succeeds exactly as `Removed` does, returning the removed value and the remaining contents; on failure nothing changes; capacity never changes |
| `CArray.IntArray.Insert` | array.c:112-142 | succeeds exactly as `Inserted` does, and the contents become its result; on failure the elements are unchanged; capacity grows as for append |
| `CArray.IntArray.ShiftUp` | array.c:133-136 | elements before j stay put; those from j to length-1 move up one slot |
| `CArray.IntArray.Splice` | array.c:148-184 | null exactly when `Spliced` fails; otherwise a fresh valid array holding `Spliced`'s result; the source is not modified |
| `CArray.IntArray.StrideUp` | array.c:172-176 | a fresh valid array holding the ascending stride from b to the inclusive end e |
| `CArray.IntArray.StrideDown` | array.c:177-181 | a fresh valid array holding the descending stride from b down to the inclusive end e |
| `CArray.IntArray.Select` | array.c:189-203 | a fresh valid array holding exactly the satisfying elements in order; the source is not modified |
| `CArray.IntArray.Format` | array.c:208-238 | the count is below n exactly when the whole rendering fits, and then it equals the rendering's length; it never exceeds that length |
| `CArray.IntArray.Clear` | array.c:264-268 | length and capacity become 0 and the array is empty and valid |
| `CArray.TestInitClear` | array_test.c:62-79 | after an append to a capacity-5 array and `clear_array`, length and capacity are 0 and the array is empty |
| `CArray.TestGrowth` | array_test.c:82-97 | six appends to a capacity-2 array give [2,3,5,7,8,11] with capacity 8 |
| `CArray.RemoveEightAtFour` | array_test.c:100-105 | removing index 4 of [2,3,5,7,8,11] yields 8 and [2,3,5,7,11] |
| `CArray.RemoveLast` | array_test.c:108-111 | removing index -1 of [2,3,5,7,11] yields 11 and [2,3,5,7] |
| `CArray.RemoveSecondToLast` | array_test.c:114-117 | removing index -2 of [2,3,5,7] yields 5 and [2,3,7] |
| `CArray.InsertFiveAtTwo` | array_test.c:120-121 | inserting 5 at index 2 of [2,3,7] gives [2,3,5,7] |
| `CArray.TestSearchRemove` | array_test.c:100-106 | searching 8 finds index 4 and removing it leaves [2,3,5,7,11] |
| `CArray.TestRemoveLast` | array_test.c:108-112 | remove(-1) leaves [2,3,5,7] and 11 is then not found |
| `CArray.TestRemoveWrap` | array_test.c:114-118 | remove(-2) yields 5, leaves [2,3,7], and 5 is then not found |
| `CArray.TestInsert` | array_test.c:120-125 | insert(2, 5) and two appends give [2,3,5,7,11,13] |
| `CArray.TestDerived` | array_test.c:127-146 | select "less than 6" gives [2,3,5]; splice(2,5,1) gives [5,7,11,13]; splice(-1,0,-1) gives the reverse; the source array is unchanged |
| `Findings.RemoveAcceptedAsWritten` | array.c:85-93 | the written remove guard accepts exactly -length <= i <= length, one index too many |
| `Findings.RemovedLengthAsWritten` | array.c:89-103 | when the written guard accepts, the length drops by one |
| `Findings.InsertAcceptedAsWritten` | array.c:117-125 | the written insert guard accepts every non-negative index and every negative one down to -length |
| `Findings.SpliceAcceptedAsWritten` | array.c:152-167 | the written splice check accepts exactly bounds in [-length, length], one index too many at the top |
| `Findings.GrownCapacityAsWritten` | array.c:51-56 | with a buffer pointer, capacity is kept unless full and then doubled; without one, ten slots are allocated (and the length reset by `init_array` never equals ten) |
| `Findings.RemoveAsWrittenUnderflows` | array.c:89-103 | on an empty array the written remove guard accepts index 0 and the length becomes -1 |
| `Findings.RemoveGuardsDiffer` | array.c:85-93 | the written and the corrected remove guards disagree exactly on the wrapped index equal to the length |
| `Findings.InsertAsWrittenLosesValue` | array.c:117-139 | the written insert guard accepts index length+1, whose write lands outside the new length |
| `Findings.SpliceAsWrittenReadsPastEnd` | array.c:152-170 | on an empty array the written splice check accepts start = end = 0 and then reads index 0 |
| `Findings.SpliceGuardsDiffer` | array.c:158-167 | the written and the corrected splice checks disagree exactly when a wrapped bound equals the length |
| `Findings.GrowthAsWrittenStaysZero` | array.c:51-56 | a zero-capacity buffer with a pointer is "grown" to 0, leaving no room for the write |

## Left out

- Allocation failure of `malloc`/`realloc` is not modelled. Allocation is a fresh `new int[...]`
  plus a copy loop, and it always succeeds. So `Resize`, `Append` and `Select` have no failure
  result: the source's 0 or NULL return on allocation failure never arises.
- `CArray.IntArray.Resize`: the source's "data leak" error for `new_size < length` is a
  precondition. Without `ARRAY_EXIT_ON_ERROR` the code would go on and truncate.
- `destroy_array` and the freeing in `clear_array` have no Dafny counterpart; memory is managed.
  The dangling pointer `clear_array` leaves behind is also not modelled; a cleared array is simply unbacked.
- The `WARN`/`EXIT` macros (stderr output, `exit(1)`) appear only as failure results.
- `print_array` writes to stdout and is not modelled as I/O. `RenderedBrackets` states its format.
- `CArray.IntArray.Format` models only the byte count `snprintfc_array` returns, and states it
  more weakly than the code: when the rendering does not fit, it says only that the count lies
  between n and the full length. It does not pin the count to the piece boundary where the code
  stops. The bytes `strncpy` writes into the caller's buffer and the missing terminator are not
  modelled. Printers are pure functions `int -> string`; the test's printer keeps a static counter.
- `CArray.IntArray.Format` on an empty array renders start and end only. The code calls the
  printer on `array[0]` there (array.c:217, 228), which is not an element.
- `CArray.IntArray.Remove` always returns the removed value; the caller may ignore it, as a
  NULL `p` does in the source.
- The `i != length` test in `array_remove` (array.c:97) is always true under the corrected bound
  check and is not modelled.
- Integers are unbounded. The `int` overflow of `capacity * 2`, of `size * sizeof(int)` and of the
  splice index `i += step` (array.c:173, 178, undefined in C when the step jumps past `INT_MAX` or
  `INT_MIN`; `Stride` simply stops) is not modelled, nor is a negative `size` (sizes are `nat`).
- The test program's `main` printing and `debug_array` are not modelled. Its checks are replayed
  by the `Test*` methods.

## Findings

| source | as written | input that shows it | evidently intended | confidence | as-written member | corrected member |
|---|---|---|---|---|---|---|
| array.c:89 | `(i > ap->length) \|\| (i < 0)` rejects only beyond the length | `array_remove` on an empty array with i = 0: accepted, reads `array[0]`, length becomes -1 | reject a wrapped index equal to the length | high, not executed | `Findings.RemoveAsWrittenUnderflows` | `ArraySpec.Removed` |
| array.c:121 | only a negative wrapped index is rejected | `array_insert(ap, length + 1, x)`: accepted, x written beyond the new length | reject a wrapped index above the length | high, not executed | `Findings.InsertAsWrittenLosesValue` | `ArraySpec.Inserted` |
| array.c:158, 163 | `start > length`, `end > length` reject only beyond the length | `array_splice` on an empty array with start = end = 0: accepted, reads `array[0]` | reject a wrapped bound equal to the length | high, not executed | `Findings.SpliceAsWrittenReadsPastEnd` | `ArraySpec.Spliced` |
| array.c:51, 56 | allocate only when the pointer is NULL, then grow to `capacity * 2` | `init_array(ap, 0)` then `array_append`: the resize asks for 0 slots, so there is no room for `array[0]` (where `realloc(p, 0)` frees and returns NULL, the append fails instead) | a full zero-capacity array gets room for the new element | medium, not executed | `Findings.GrowthAsWrittenStaysZero` | `ArraySpec.GrownCapacity` |
