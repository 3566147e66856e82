# CircularQueue in Dafny

A model of `CircularQueue<T>` from AndEngine
(`org.andengine.util.adt.list`). It is a growable ring buffer that is
both a FIFO queue (`enter`, `peek`, `poll`) and an indexed list (`get`,
`add`, `remove`, `indexOf`).

The state is three fields:

- `items`: the backing array.
- `head`: the physical slot of logical element 0.
- `size`: the element count.

The elements live in a window of `size` slots that starts at `head` and
wraps at the end of the array. Every other slot holds null.

Dafny layout:

- **`Sequences`** defines the list operations the queue is specified by:
  insertion at an index, deletion at an index, the first-match search, and
  what one bulk array copy produces.
- **`Ring`** covers the index encoding (`encodeToInternalIndex`) and its
  inverse, the growth rule, and the representation relation `Represents`
  between a backing array, a head, a size and a logical sequence. It has one
  lemma per array manipulation the queue performs. Each lemma shows that
  the manipulation turns a representation of `s` into a representation of
  the intended new sequence.
- **`ArrayOps`** holds `System.arraycopy`, overlapping ranges included, and
  `Arrays.fill` as verified array methods.
- **`CircularQueues`** holds the class:
  - fields `items`, `head` and `size`, plus a ghost `Contents` sequence;
  - the invariant `Valid()`;
  - one method per operation, following the source's branches. Each states
    its new `Contents` exactly.
- **`Clients`** holds short programs whose results follow from the
  contracts alone. They cover:
  - FIFO order across growth and wrap-around;
  - insertion and removal at an index;
  - null elements;
  - `clear`;
  - the two defects listed under Findings.

Java `null` elements and null slots are both `None` of `Option<T>`.
`equals` is Dafny equality on `T`.

## Model

All source cells cite `src/org/andengine/util/adt/list/CircularQueue.java`.

| member | source | states |
|---|---|---|
| Ring.EncodeToInternalIndex | src/org/andengine/util/adt/list/CircularQueue.java:262-268 | for a head inside the array and an index up to the length, the slot lies inside the array |
| Ring.EncodeIsModulo | src/org/andengine/util/adt/list/CircularQueue.java:262-268 | the one conditional subtraction equals (head + index) mod length, because head + index stays below twice the length |
| Ring.EncodeInjective | src/org/andengine/util/adt/list/CircularQueue.java:262-268 | two logical indices below the length that share a slot are equal |
| Ring.LogicalIndex | src/org/andengine/util/adt/list/CircularQueue.java:262-268 | the inverse of the encoding: every slot is the encoding of a logical index below the length, namely this one |
| Ring.StepBack | src/org/andengine/util/adt/list/CircularQueue.java:132-139 | head-- followed by the test for -1 yields a slot in range, and encoding index 1 from it returns to the start |
| Ring.StepForward | src/org/andengine/util/adt/list/CircularQueue.java:110-113 | head++ followed by the test for the length yields a slot in range; it equals encoding index 1 and undoes StepBack |
| Ring.GrownCapacity | src/org/andengine/util/adt/list/CircularQueue.java:251 | ((c * 3) >> 1) + 1 is strictly larger than c and at most 2c + 1, so capacity never shrinks |
| Ring.ElementAt | src/org/andengine/util/adt/list/CircularQueue.java:68-70 | in a valid ring, the slot of logical index i is in range and holds the i-th element |
| Ring.EmptyRepresents | src/org/andengine/util/adt/list/CircularQueue.java:42-44 | an all-null array with head 0 represents the empty queue |
| Ring.EmptyAnyHead | src/org/andengine/util/adt/list/CircularQueue.java:115-117 | an empty window means every slot is null, so resetting the head to 0 keeps the representation |
| Ring.GrowRepresents | src/org/andengine/util/adt/list/CircularQueue.java:250-258 | copying [head, size) and then [0, head) of a full array to the front of a larger null array represents the same sequence with head 0 |
| Ring.AppendRepresents | src/org/andengine/util/adt/list/CircularQueue.java:60-64 | writing the slot after the window, with size + 1, represents the old sequence plus the item at the end |
| Ring.PrependRepresents | src/org/andengine/util/adt/list/CircularQueue.java:131-139 | moving the head back one slot (wrapping) and writing there represents the item followed by the old sequence |
| Ring.InsertShiftingBackRepresents | src/org/andengine/util/adt/list/CircularQueue.java:140-141 | when positions k..size occupy consecutive slots, shifting [slot, tail) right by one and writing at slot represents the insertion at k |
| Ring.InsertShiftingFrontRepresents | src/org/andengine/util/adt/list/CircularQueue.java:142-161 | when the head and slot k are not separated by the wrap, shifting the k front slots left by one, moving the head back and writing before slot k represents the insertion at k |
| Ring.RemoveTailRepresents | src/org/andengine/util/adt/list/CircularQueue.java:198-199 | nulling the last slot of the window represents the deletion of the last element |
| Ring.RemoveHeadRepresents | src/org/andengine/util/adt/list/CircularQueue.java:200-205 | nulling the head slot and advancing the head (wrapping) represents the deletion of the first element |
| Ring.RemoveShiftingBackRepresents | src/org/andengine/util/adt/list/CircularQueue.java:206-208 | when positions k..size-1 occupy consecutive slots, shifting (slot, tail] left by one and nulling the old tail represents the deletion at k |
| Ring.RemoveShiftingFrontRepresents | src/org/andengine/util/adt/list/CircularQueue.java:209-222 | when the head and slot k are not separated by the wrap, shifting the k front slots right, nulling the old head and advancing it represents the deletion at k |
| Sequences.InsertAt | src/org/andengine/util/adt/list/CircularQueue.java:123-167 | the list insertion enter(int, T) promises: one longer, the item at i, elements before i unchanged, elements from i moved up by one |
| Sequences.Delete | src/org/andengine/util/adt/list/CircularQueue.java:192-230 | the list deletion remove(int) promises: one shorter, elements before i unchanged, elements after i moved down by one |
| Sequences.Find | src/org/andengine/util/adt/list/CircularQueue.java:73-90 | the lookup indexOf performs: -1 exactly when the item is absent, otherwise the least position holding it |
| Sequences.DeleteInsertAt | src/org/andengine/util/adt/list/CircularQueue.java:123-230 | deleting at i what was just inserted at i gives back the original list |
| Sequences.InsertDeleteAt | src/org/andengine/util/adt/list/CircularQueue.java:123-230 | re-inserting a deleted element at its position gives back the original list |
| ArrayOps.Arraycopy | src/org/andengine/util/adt/list/CircularQueue.java:141 | System.arraycopy: the target range receives the source range as it was before the call, overlapping ranges included; nothing else in the destination changes |
| ArrayOps.Fill | src/org/andengine/util/adt/list/CircularQueue.java:239 | Arrays.fill: every element becomes the value |
| CircularQueues.CircularQueue.constructor | src/org/andengine/util/adt/list/CircularQueue.java:42-44 | a fresh all-null array of the given capacity, head 0, empty and valid |
| CircularQueues.CircularQueue.Default | src/org/andengine/util/adt/list/CircularQueue.java:38-40 | the same with capacity CAPACITY_INITIAL_DEFAULT = 1 |
| CircularQueues.CircularQueue.IsEmpty | src/org/andengine/util/adt/list/CircularQueue.java:55-57 | true exactly when the logical sequence is empty |
| CircularQueues.CircularQueue.Size | src/org/andengine/util/adt/list/CircularQueue.java:233-235 | the length of the logical sequence |
| CircularQueues.CircularQueue.Get | src/org/andengine/util/adt/list/CircularQueue.java:68-70 | the element at the logical index |
| CircularQueues.CircularQueue.Peek | src/org/andengine/util/adt/list/CircularQueue.java:94-100 | the front element, or null when empty; nothing changes |
| CircularQueues.CircularQueue.EnsureCapacity | src/org/andengine/util/adt/list/CircularQueue.java:248-260 | same sequence and size with room for one more; a full array is replaced by a fresh one of the grown capacity with head 0; otherwise array and head are untouched |
| CircularQueues.CircularQueue.Enter | src/org/andengine/util/adt/list/CircularQueue.java:60-64 | the item is appended and the size grows by one; growth only when full, then to the grown capacity with head 0 |
| CircularQueues.CircularQueue.Add | src/org/andengine/util/adt/list/CircularQueue.java:170-172 | the same as enter(T) |
| CircularQueues.CircularQueue.Poll | src/org/andengine/util/adt/list/CircularQueue.java:104-120 | empty: returns null and changes nothing; otherwise returns the front element, leaves the rest, nulls the old head slot, and sets the head to (old head + 1) mod length, or 0 when the queue became empty |
| CircularQueues.CircularQueue.EnterAt | src/org/andengine/util/adt/list/CircularQueue.java:123-167 | as written: with spare capacity the item is inserted at the index in place, and an insertion at the end leaves the head; on a full array the item lands at position encode(old head, index) of the grown array (see Findings) |
| CircularQueues.CircularQueue.EnterAtCorrected | src/org/andengine/util/adt/list/CircularQueue.java:123-167 | with the slot computed after growth, the item is inserted at the index in every case; without growth an insertion at the end leaves the head |
| CircularQueues.CircularQueue.AddAt | src/org/andengine/util/adt/list/CircularQueue.java:175-177 | insertion at the index, via the corrected enter(int, T) |
| CircularQueues.CircularQueue.StoreAt | src/org/andengine/util/adt/list/CircularQueue.java:128-166 | the five-way case split of enter(int, T) once capacity is ensured inserts at the position whose slot was computed, in the same array; an insertion at the end leaves the head |
| CircularQueues.CircularQueue.InsertAtTail | src/org/andengine/util/adt/list/CircularQueue.java:129-130 | insertion at the tail writes only the free tail slot; nothing moves |
| CircularQueues.CircularQueue.InsertBeforeHead | src/org/andengine/util/adt/list/CircularQueue.java:131-139 | insertion at position 0 moves the head back one slot (wrapping) and writes only that slot |
| CircularQueues.CircularQueue.InsertShiftingBack | src/org/andengine/util/adt/list/CircularQueue.java:140-141 | the back part moves one slot right; the head is unchanged and the item is inserted at its position |
| CircularQueues.CircularQueue.InsertShiftingFront | src/org/andengine/util/adt/list/CircularQueue.java:142-161 | the front part moves one slot left and the head moves back one; the item is inserted at its position |
| CircularQueues.CircularQueue.RemoveAt | src/org/andengine/util/adt/list/CircularQueue.java:192-230 | returns the element at the index and leaves the list without it, one shorter, in the same array |
| CircularQueues.CircularQueue.RemoveTailSlot | src/org/andengine/util/adt/list/CircularQueue.java:198-199 | removing the last element nulls only its slot |
| CircularQueues.CircularQueue.RemoveHeadSlot | src/org/andengine/util/adt/list/CircularQueue.java:200-205 | removing the first element nulls only the head slot and advances the head with wrap-around |
| CircularQueues.CircularQueue.RemoveShiftingBack | src/org/andengine/util/adt/list/CircularQueue.java:206-208 | the back part moves one slot left, the old tail is nulled, the head is unchanged |
| CircularQueues.CircularQueue.RemoveShiftingFront | src/org/andengine/util/adt/list/CircularQueue.java:209-222 | the front part moves one slot right, the old head slot is nulled and the head steps forward with wrap-around; the list loses the element at the index |
| CircularQueues.CircularQueue.IndexOf | src/org/andengine/util/adt/list/CircularQueue.java:73-90 | returns the least index holding the item, or -1; a null item is only looked for, and a non-null match is also removed from the queue |
| CircularQueues.CircularQueue.Search | src/org/andengine/util/adt/list/CircularQueue.java:76-80 | the same scan without side effects: the least index holding the item, or -1 |
| CircularQueues.CircularQueue.RemoveItem | src/org/andengine/util/adt/list/CircularQueue.java:180-188 | corrected remove(T): true exactly when the item occurs, and then only its first occurrence is deleted |
| CircularQueues.CircularQueue.RemoveItemAsWritten | src/org/andengine/util/adt/list/CircularQueue.java:180-188 | remove(T) as written, on every input whose second deletion stays in range: true exactly when the item occurs, and the new sequence is the one RemovalAsWritten computes |
| CircularQueues.RemovalAsWritten | src/org/andengine/util/adt/list/CircularQueue.java:180-188 | absent item: nothing changes; a null item is deleted once; a non-null match at i leaves s[..i] + s[i+2..], except that the second deletion is out of range exactly when the match is the last element |
| CircularQueues.CircularQueue.Clear | src/org/andengine/util/adt/list/CircularQueue.java:238-242 | same array, every slot null, head 0, empty sequence |
| Clients.FifoOrder | src/org/andengine/util/adt/list/CircularQueue.java:60-120 | entering 1, 2, 3 from capacity 1 and polling yields 1, 2, 3, then null |
| Clients.WrapThenGrow | src/org/andengine/util/adt/list/CircularQueue.java:248-260 | after a poll and a wrapped entry, growth keeps the logical order: the list reads 2, 3, 4 |
| Clients.InsertAtFront | src/org/andengine/util/adt/list/CircularQueue.java:123-167 | enter 10, 20, 30, poll, insert 5 at index 0: poll gives 10 and the list reads 5, 20, 30 |
| Clients.NullElements | src/org/andengine/util/adt/list/CircularQueue.java:75-80 | a null element is stored, found by indexOf without being removed, and the element before it polls as usual |
| Clients.InsertRemoveRoundTrip | src/org/andengine/util/adt/list/CircularQueue.java:123-230 | inserting at an index with the corrected insertion and removing there returns the item and restores the list |
| Clients.InsertRemoveRoundTripInPlace | src/org/andengine/util/adt/list/CircularQueue.java:123-230 | with room in the array, enter(int, T) as written followed by remove(int) at the same index returns the item and restores the list |
| Clients.ClearThenReuse | src/org/andengine/util/adt/list/CircularQueue.java:238-242 | after clear the queue is empty and usable again |
| Clients.StaleIndexOnGrowth | src/org/andengine/util/adt/list/CircularQueue.java:124-126 | capacity 1 holding 1: add(1, 2) as written yields [2, 1] |
| Clients.FreshIndexOnGrowth | src/org/andengine/util/adt/list/CircularQueue.java:124-126 | the corrected insertion yields [1, 2] |
| Clients.RemovalAsWrittenExamples | src/org/andengine/util/adt/list/CircularQueue.java:180-188 | remove(7) as written turns [1, 7, 2] into [1], and on [7] its second deletion is out of range |
| Clients.RemoveItemOnce | src/org/andengine/util/adt/list/CircularQueue.java:180-188 | the corrected remove(7) turns [1, 7, 2] into [1, 2] |

## Left out

- Index checks: the source checks no index. `get`, `enter(int, T)` and
  `remove(int)` take their index ranges as preconditions. The model
  therefore does not say what `get(size)` returns, and it does not model
  the `ArrayIndexOutOfBoundsException` a bad index may throw.
- The constructor requires a non-negative capacity. The source throws
  `NegativeArraySizeException` instead.
- Java `int` overflow of `currentCapacity * 3` in `ensureCapacity` is not
  modelled. Integers are unbounded.
- The `IQueue` and `IList` interfaces are not part of this model. Neither
  are Java's unchecked casts and type erasure.
- Which side of the window `enter(int, T)` and `remove(int)` shift is
  modelled branch for branch. No bound on the number of copied elements is
  stated.
- CircularQueues.CircularQueue.RemoveItemAsWritten: its requires excludes
  the inputs where the second deletion is out of range: a non-null item
  whose first occurrence is the last element. There the second
  `remove(int)` gets the index one past the remaining elements. What it
  then does depends on the array layout, not on the sequence. On a
  one-element queue it leaves the size at -1. With capacity 2, head 0 and
  [1, 7] it shifts the front and leaves an empty queue with a stale slot.
  With capacity 3, head 1 and [1, 2, 7] it drops the unrelated first
  element. With capacity 3, head 2 and [1, 2, 7] `System.arraycopy` throws
  on a negative length and leaves a valid [1, 2]. The model records only
  that the index is out of range (`RemovalAsWritten` returns `OutOfRange`)
  and does not model these outcomes.
- CircularQueues.CircularQueue.AddAt: it calls the corrected insertion
  rather than `enter(int, T)` as written, so it does not inherit the
  growth defect.
- When `remove(int)` empties the queue, the head stays where it is. Only
  `poll` and `clear` reset it to 0. The model keeps this.
- A capacity of 0 is allowed, as in the source. The first `enter` then
  grows the array to 1.

## Findings

| source | as written | input that shows it | evidently intended | confidence | as-written member | corrected member |
|---|---|---|---|---|---|---|
| src/org/andengine/util/adt/list/CircularQueue.java:124-126 | the slot of the index is computed before ensureCapacity, which may replace the array and reset the head to 0, so the stale slot number is used as a position in the new layout | capacity 1 holding [1]; add(1, 2) gives [2, 1] (Clients.StaleIndexOnGrowth) | insert at the index of the grown queue: [1, 2] (Clients.FreshIndexOnGrowth) | not executed | CircularQueues.CircularQueue.EnterAt | CircularQueues.CircularQueue.EnterAtCorrected |
| src/org/andengine/util/adt/list/CircularQueue.java:180-185 | remove(T) finds the index with indexOf, which already deleted a non-null match, then calls remove(int) at that index again | remove(7) on [1, 7, 2] leaves [1]; on [7] it removes at index 0 of an empty queue and leaves size -1; on longer queues with the match last the outcome depends on the layout (Clients.RemovalAsWrittenExamples) | delete only the first occurrence: [1, 2] and [] | not executed | CircularQueues.RemovalAsWritten | CircularQueues.CircularQueue.RemoveItem |
