/** The ring layout of CircularQueue: how a backing array, a head slot and a
    size represent a logical sequence, and how each of the queue's array
    manipulations changes that sequence. Everything here is stated on the
    array's value as a sequence, so the class only has to show that its
    array now holds the sequence a lemma talks about. */
module Ring {
  import opened Sequences

  /** A slot of the backing array, or an element: None stands for a Java null. */
  datatype Option<T> = None | Some(value: T)

  /** encodeToInternalIndex: the physical slot of logical index `index`,
      computed with one conditional subtraction instead of a remainder. */
  function EncodeToInternalIndex(head: int, index: int, length: int): (r: int)
    ensures 0 <= head < length && 0 <= index <= length ==> 0 <= r < length
  {
    var internalIndex := head + index;
    if internalIndex >= length then internalIndex - length else internalIndex
  }

  /** The single subtraction computes the remainder: head + index never
      reaches twice the length. */
  lemma EncodeIsModulo(head: int, index: int, length: int)
    requires 0 <= head < length && 0 <= index <= length
    ensures EncodeToInternalIndex(head, index, length) == (head + index) % length
  {
    if head + index >= length {
      ModOneWrap(head + index, length);
    } else {
      ModBelow(head + index, length);
    }
  }

  /** A value below the modulus is its own remainder. */
  lemma ModBelow(x: int, m: int)
    requires 0 <= x < m
    ensures x % m == x
  {
    assert x == 0 * m + x;
  }

  /** A value between the modulus and twice it loses one modulus. */
  lemma ModOneWrap(x: int, m: int)
    requires 0 < m <= x < 2 * m
    ensures x % m == x - m
  {
    assert x == 1 * m + (x - m);
  }

  /** Different logical indices of one window never share a slot. */
  lemma EncodeInjective(head: int, i: int, j: int, length: int)
    requires 0 <= head < length && 0 <= i < length && 0 <= j < length
    requires EncodeToInternalIndex(head, i, length) == EncodeToInternalIndex(head, j, length)
    ensures i == j
  {
  }

  /** The logical index stored in physical slot p: the inverse of
      EncodeToInternalIndex. */
  function LogicalIndex(head: int, p: int, length: int): (j: int)
    ensures 0 <= head < length && 0 <= p < length ==>
      0 <= j < length && EncodeToInternalIndex(head, j, length) == p
  {
    if p >= head then p - head else p - head + length
  }

  /** The slot before i, wrapping to the last slot: a decrement followed by
      the test for -1. */
  function StepBack(i: int, length: int): (r: int)
    ensures 0 <= i < length ==> 0 <= r < length && EncodeToInternalIndex(r, 1, length) == i
  {
    if i - 1 == -1 then length - 1 else i - 1
  }

  /** The slot after i, wrapping to slot 0: an increment followed by the
      test for the length. It undoes StepBack. */
  function StepForward(i: int, length: int): (r: int)
    ensures 0 <= i < length ==> 0 <= r < length && StepBack(r, length) == i
    ensures 0 <= i < length ==> r == EncodeToInternalIndex(i, 1, length)
  {
    if i + 1 == length then 0 else i + 1
  }

  /** ensureCapacity's growth rule, ((c * 3) >> 1) + 1: always strictly larger. */
  function GrownCapacity(capacity: int): (r: int)
    requires capacity >= 0
    ensures capacity < r <= 2 * capacity + 1
  {
    (capacity * 3) / 2 + 1
  }

  /** Every slot holds null. */
  ghost predicate AllNull<T>(a: seq<Option<T>>)
  {
    forall k :: 0 <= k < |a| ==> a[k] == None
  }

  /** The representation invariant: a window of `size` slots starting at
      `head` and wrapping at the end of the array holds `contents` in
      logical order, and every slot outside the window holds null. A
      zero-length array is allowed, with head 0. */
  ghost predicate Represents<T>(a: seq<Option<T>>, head: int, size: int, contents: seq<Option<T>>)
  {
    0 <= size <= |a| &&
    0 <= head && (head < |a| || head == 0) &&
    |contents| == size &&
    forall p :: 0 <= p < |a| ==> SlotHolds(a, head, contents, p)
  }

  /** Slot p holds the element at its logical index, or null past the window. */
  ghost predicate SlotHolds<T>(a: seq<Option<T>>, head: int, contents: seq<Option<T>>, p: int)
    requires 0 <= p < |a|
  {
    a[p] == ElementOrNull(contents, LogicalIndex(head, p, |a|))
  }

  /** The element at logical index j, or null outside the sequence. */
  function ElementOrNull<T>(contents: seq<Option<T>>, j: int): Option<T>
  {
    if 0 <= j < |contents| then contents[j] else None
  }

  /** Reading logical index i through the encoding yields the i-th element. */
  lemma ElementAt<T>(a: seq<Option<T>>, head: int, size: int, contents: seq<Option<T>>, i: int)
    requires Represents(a, head, size, contents) && 0 <= i < size
    ensures 0 <= EncodeToInternalIndex(head, i, |a|) < |a|
    ensures a[EncodeToInternalIndex(head, i, |a|)] == contents[i]
  {
    var p := EncodeToInternalIndex(head, i, |a|);
    assert SlotHolds(a, head, contents, p);
    assert LogicalIndex(head, p, |a|) == i;
  }

  /** An all-null array with head 0 represents the empty sequence. */
  lemma EmptyRepresents<T>(a: seq<Option<T>>)
    requires AllNull(a)
    ensures Represents(a, 0, 0, [])
  {
    forall p | 0 <= p < |a| ensures SlotHolds(a, 0, [], p) {
    }
  }

  /** When the window is empty every slot is null, so the head may be reset to 0. */
  lemma EmptyAnyHead<T>(a: seq<Option<T>>, head: int)
    requires Represents(a, head, 0, [])
    ensures AllNull(a) && Represents(a, 0, 0, [])
  {
    forall p | 0 <= p < |a| ensures a[p] == None {
      assert SlotHolds(a, head, [], p);
    }
    EmptyRepresents(a);
  }

  /** Growth: copying [head, size) and then [0, head) of a full array to the
      start of a larger all-null array lays the window out in logical order
      from slot 0. */
  lemma GrowRepresents<T>(a: seq<Option<T>>, head: int, size: int, contents: seq<Option<T>>,
                          blank: seq<Option<T>>, first: seq<Option<T>>, b: seq<Option<T>>)
    requires Represents(a, head, size, contents) && size == |a|
    requires AllNull(blank) && |blank| > |a|
    requires IsCopy(first, a, head, blank, 0, size - head)
    requires IsCopy(b, a, 0, first, size - head, head)
    ensures Represents(b, 0, size, contents)
  {
    forall p | 0 <= p < |b|
      ensures SlotHolds(b, 0, contents, p)
    {
      if p < size - head {
        assert b[p] == a[head + p];
        assert SlotHolds(a, head, contents, head + p);
        assert LogicalIndex(head, head + p, |a|) == p;
      } else if p < size {
        assert b[p] == a[p - (size - head)];
        assert SlotHolds(a, head, contents, p - (size - head));
        assert LogicalIndex(head, p - (size - head), |a|) == p;
      } else {
        assert b[p] == blank[p] == None;
      }
    }
  }

  /** enter(T) and the tail case of enter(int, T): the slot after the window
      is free, so writing there appends. */
  lemma AppendRepresents<T>(a: seq<Option<T>>, head: int, size: int, contents: seq<Option<T>>,
                            x: Option<T>)
    requires Represents(a, head, size, contents) && size < |a|
    ensures Represents(a[EncodeToInternalIndex(head, size, |a|) := x], head, size + 1, contents + [x])
  {
    var slot := EncodeToInternalIndex(head, size, |a|);
    var b := a[slot := x];
    forall p | 0 <= p < |b|
      ensures SlotHolds(b, head, contents + [x], p)
    {
      if p == slot {
        assert LogicalIndex(head, p, |a|) == size;
      } else {
        assert SlotHolds(a, head, contents, p);
      }
    }
  }

  /** The head case of enter(int, T): the slot before the head is free, so
      moving the head back one slot (wrapping) and writing there prepends. */
  lemma PrependRepresents<T>(a: seq<Option<T>>, head: int, size: int, contents: seq<Option<T>>,
                             x: Option<T>)
    requires Represents(a, head, size, contents) && size < |a|
    ensures var h := StepBack(head, |a|);
            Represents(a[h := x], h, size + 1, [x] + contents)
  {
    var h := StepBack(head, |a|);
    var b := a[h := x];
    forall p | 0 <= p < |b|
      ensures SlotHolds(b, h, [x] + contents, p)
    {
      if p != h {
        assert SlotHolds(a, head, contents, p);
        assert LogicalIndex(h, p, |a|) == LogicalIndex(head, p, |a|) + 1;
      }
    }
  }

  /** A run of logical indices k..k+count whose first slot plus count stays
      below the length occupies the consecutive slots slot..slot+count, in
      order, and no other logical index lands in that slot range. */
  lemma RunSlots(head: int, length: int, k: int, count: int, p: int)
    requires 0 <= head < length && 0 <= k && 0 <= count && k + count < length
    requires EncodeToInternalIndex(head, k, length) + count < length
    requires 0 <= p < length
    ensures var slot := EncodeToInternalIndex(head, k, length);
            var j := LogicalIndex(head, p, length);
            (slot <= p <= slot + count <==> k <= j <= k + count) &&
            (slot <= p <= slot + count ==> j == k + (p - slot))
  {
  }

  /** Insertion by shifting the back part: when the logical positions k..size
      occupy consecutive slots (no wrap in between), copying slots
      [slot, tail) one to the right and writing at slot inserts at k. */
  lemma InsertShiftingBackRepresents<T>(a: seq<Option<T>>, head: int, size: int,
                                        contents: seq<Option<T>>, k: int, x: Option<T>,
                                        moved: seq<Option<T>>, b: seq<Option<T>>)
    requires Represents(a, head, size, contents) && size < |a|
    requires 0 <= k <= size
    requires EncodeToInternalIndex(head, k, |a|) + (size - k) < |a|
    requires var slot := EncodeToInternalIndex(head, k, |a|);
             IsCopy(moved, a, slot, a, slot + 1, size - k) && b == moved[slot := x]
    ensures Represents(b, head, size + 1, InsertAt(contents, k, x))
  {
    var c := InsertAt(contents, k, x);
    forall p | 0 <= p < |b|
      ensures SlotHolds(b, head, c, p)
    {
      InsertShiftingBackAt(a, head, size, contents, k, x, moved, b, p);
    }
  }

  /** One slot of InsertShiftingBackRepresents. */
  lemma InsertShiftingBackAt<T>(a: seq<Option<T>>, head: int, size: int,
                                contents: seq<Option<T>>, k: int, x: Option<T>,
                                moved: seq<Option<T>>, b: seq<Option<T>>, p: int)
    requires Represents(a, head, size, contents) && size < |a|
    requires 0 <= k <= size
    requires EncodeToInternalIndex(head, k, |a|) + (size - k) < |a|
    requires var slot := EncodeToInternalIndex(head, k, |a|);
             IsCopy(moved, a, slot, a, slot + 1, size - k) && b == moved[slot := x]
    requires 0 <= p < |b|
    ensures SlotHolds(b, head, InsertAt(contents, k, x), p)
  {
    var slot := EncodeToInternalIndex(head, k, |a|);
    var tail := slot + (size - k);
    var c := InsertAt(contents, k, x);
    var j := LogicalIndex(head, p, |a|);
    RunSlots(head, |a|, k, size - k, p);
    if p == slot {
      assert b[p] == x == c[j];
    } else if slot < p <= tail {
      RunSlots(head, |a|, k, size - k, p - 1);
      assert b[p] == moved[p] == a[p - 1];
      assert SlotHolds(a, head, contents, p - 1);
      assert a[p - 1] == contents[j - 1] == c[j];
    } else {
      assert b[p] == moved[p] == a[p];
      assert SlotHolds(a, head, contents, p);
    }
  }

  /** Insertion by shifting the front part: when the head and slot k are not
      separated by the wrap, copying the k slots from the head one to the left
      and writing just before slot k inserts at k; the head moves back one. */
  lemma InsertShiftingFrontRepresents<T>(a: seq<Option<T>>, head: int, size: int,
                                         contents: seq<Option<T>>, k: int, x: Option<T>,
                                         moved: seq<Option<T>>, b: seq<Option<T>>)
    requires Represents(a, head, size, contents) && size < |a|
    requires 1 <= k <= size && 1 <= head && head + k < |a|
    requires IsCopy(moved, a, head, a, head - 1, k) && b == moved[head + k - 1 := x]
    ensures Represents(b, head - 1, size + 1, InsertAt(contents, k, x))
  {
    var c := InsertAt(contents, k, x);
    var h := head - 1;
    forall p | 0 <= p < |b|
      ensures SlotHolds(b, h, c, p)
    {
      InsertShiftingFrontAt(a, head, size, contents, k, x, moved, b, p);
    }
  }

  /** One slot of InsertShiftingFrontRepresents. */
  lemma InsertShiftingFrontAt<T>(a: seq<Option<T>>, head: int, size: int,
                                 contents: seq<Option<T>>, k: int, x: Option<T>,
                                 moved: seq<Option<T>>, b: seq<Option<T>>, p: int)
    requires Represents(a, head, size, contents) && size < |a|
    requires 1 <= k <= size && 1 <= head && head + k < |a|
    requires IsCopy(moved, a, head, a, head - 1, k) && b == moved[head + k - 1 := x]
    requires 0 <= p < |b|
    ensures SlotHolds(b, head - 1, InsertAt(contents, k, x), p)
  {
    var j := LogicalIndex(head - 1, p, |a|);
    if head - 1 <= p < head + k - 1 {
      assert b[p] == moved[p] == a[p + 1];
      assert SlotHolds(a, head, contents, p + 1);
      assert j == LogicalIndex(head, p + 1, |a|) < k;
    } else if p == head + k - 1 {
      assert j == k;
    } else {
      assert b[p] == moved[p] == a[p];
      assert SlotHolds(a, head, contents, p);
      assert j == LogicalIndex(head, p, |a|) + 1 > k;
    }
  }

  /** The tail case of remove(int): nulling the last slot of the window
      deletes the last element. */
  lemma RemoveTailRepresents<T>(a: seq<Option<T>>, head: int, size: int, contents: seq<Option<T>>)
    requires Represents(a, head, size, contents) && size >= 1
    ensures Represents(a[EncodeToInternalIndex(head, size - 1, |a|) := None], head, size - 1,
                       Delete(contents, size - 1))
  {
    var slot := EncodeToInternalIndex(head, size - 1, |a|);
    var b := a[slot := None];
    var c := Delete(contents, size - 1);
    forall p | 0 <= p < |b|
      ensures SlotHolds(b, head, c, p)
    {
      if p == slot {
        assert LogicalIndex(head, p, |a|) == size - 1;
      } else {
        assert SlotHolds(a, head, contents, p);
      }
    }
  }

  /** poll and the head case of remove(int): nulling the head slot and
      advancing the head (wrapping at the length) deletes the first element. */
  lemma RemoveHeadRepresents<T>(a: seq<Option<T>>, head: int, size: int, contents: seq<Option<T>>)
    requires Represents(a, head, size, contents) && size >= 1
    ensures var h := StepForward(head, |a|);
            Represents(a[head := None], h, size - 1, contents[1..])
  {
    var h := StepForward(head, |a|);
    var b := a[head := None];
    forall p | 0 <= p < |b|
      ensures SlotHolds(b, h, contents[1..], p)
    {
      if p != head {
        assert SlotHolds(a, head, contents, p);
        assert LogicalIndex(h, p, |a|) == LogicalIndex(head, p, |a|) - 1;
      }
    }
  }

  /** Removal by shifting the back part: when the logical positions k..size-1
      occupy consecutive slots, copying slots (slot, tail] one to the left and
      nulling the old tail slot deletes position k. */
  lemma RemoveShiftingBackRepresents<T>(a: seq<Option<T>>, head: int, size: int,
                                        contents: seq<Option<T>>, k: int,
                                        moved: seq<Option<T>>, b: seq<Option<T>>)
    requires Represents(a, head, size, contents)
    requires 0 <= k < size
    requires EncodeToInternalIndex(head, k, |a|) + (size - 1 - k) < |a|
    requires var slot := EncodeToInternalIndex(head, k, |a|);
             IsCopy(moved, a, slot + 1, a, slot, size - 1 - k) &&
             b == moved[slot + (size - 1 - k) := None]
    ensures Represents(b, head, size - 1, Delete(contents, k))
  {
    var c := Delete(contents, k);
    forall p | 0 <= p < |b|
      ensures SlotHolds(b, head, c, p)
    {
      RemoveShiftingBackAt(a, head, size, contents, k, moved, b, p);
    }
  }

  /** One slot of RemoveShiftingBackRepresents. */
  lemma RemoveShiftingBackAt<T>(a: seq<Option<T>>, head: int, size: int,
                                contents: seq<Option<T>>, k: int,
                                moved: seq<Option<T>>, b: seq<Option<T>>, p: int)
    requires Represents(a, head, size, contents)
    requires 0 <= k < size
    requires EncodeToInternalIndex(head, k, |a|) + (size - 1 - k) < |a|
    requires var slot := EncodeToInternalIndex(head, k, |a|);
             IsCopy(moved, a, slot + 1, a, slot, size - 1 - k) &&
             b == moved[slot + (size - 1 - k) := None]
    requires 0 <= p < |b|
    ensures SlotHolds(b, head, Delete(contents, k), p)
  {
    var slot := EncodeToInternalIndex(head, k, |a|);
    var tail := slot + (size - 1 - k);
    var c := Delete(contents, k);
    var j := LogicalIndex(head, p, |a|);
    RunSlots(head, |a|, k, size - 1 - k, p);
    if slot <= p < tail {
      RunSlots(head, |a|, k, size - 1 - k, p + 1);
      assert b[p] == moved[p] == a[p + 1];
      assert SlotHolds(a, head, contents, p + 1);
      assert a[p + 1] == contents[j + 1] == c[j];
    } else if p == tail {
      assert j == size - 1;
    } else {
      assert b[p] == moved[p] == a[p];
      assert SlotHolds(a, head, contents, p);
    }
  }

  /** Removal by shifting the front part: when the head and slot k are not
      separated by the wrap, copying the k slots from the head one to the
      right, nulling the old head slot and advancing the head deletes k. */
  lemma RemoveShiftingFrontRepresents<T>(a: seq<Option<T>>, head: int, size: int,
                                         contents: seq<Option<T>>, k: int,
                                         moved: seq<Option<T>>, b: seq<Option<T>>)
    requires Represents(a, head, size, contents)
    requires 0 <= k < size && head + k < |a|
    requires IsCopy(moved, a, head, a, head + 1, k) && b == moved[head := None]
    ensures var h := StepForward(head, |a|);
            Represents(b, h, size - 1, Delete(contents, k))
  {
    var h := StepForward(head, |a|);
    var c := Delete(contents, k);
    forall p | 0 <= p < |b|
      ensures SlotHolds(b, h, c, p)
    {
      RemoveShiftingFrontAt(a, head, size, contents, k, moved, b, p);
    }
  }

  /** One slot of RemoveShiftingFrontRepresents. */
  lemma RemoveShiftingFrontAt<T>(a: seq<Option<T>>, head: int, size: int,
                                 contents: seq<Option<T>>, k: int,
                                 moved: seq<Option<T>>, b: seq<Option<T>>, p: int)
    requires Represents(a, head, size, contents)
    requires 0 <= k < size && head + k < |a|
    requires IsCopy(moved, a, head, a, head + 1, k) && b == moved[head := None]
    requires 0 <= p < |b|
    ensures var h := StepForward(head, |a|);
            SlotHolds(b, h, Delete(contents, k), p)
  {
    var h := StepForward(head, |a|);
    var j := LogicalIndex(h, p, |a|);
    if head < p <= head + k {
      assert b[p] == moved[p] == a[p - 1];
      assert SlotHolds(a, head, contents, p - 1);
      assert j == LogicalIndex(head, p - 1, |a|) < k;
    } else if p == head {
      assert j == |a| - 1;
    } else {
      assert b[p] == moved[p] == a[p];
      assert SlotHolds(a, head, contents, p);
      assert j == LogicalIndex(head, p, |a|) - 1 >= k;
    }
  }
}
