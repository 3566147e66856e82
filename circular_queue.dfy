/** CircularQueue: a growable ring buffer that is both a FIFO queue and an
    indexed list. The backing array `items` holds the elements of a window
    that starts at slot `head`, is `size` slots long and wraps at the end of
    the array; `Contents` is the logical sequence it represents. Elements
    may themselves be null (None). */
module CircularQueues {
  import opened Sequences
  import opened Ring
  import opened ArrayOps

  /** The capacity the no-argument constructor allocates. */
  const CapacityInitialDefault := 1

  /** What indexOf answers when nothing matches. */
  const IndexInvalid := -1

  class CircularQueue<T(==)> {
    var items: array<Option<T>>
    var head: int
    var size: int

    /** The logical sequence, front first. */
    ghost var Contents: seq<Option<T>>

    /** The representation invariant: `items`, `head` and `size` lay out
        `Contents` as a ring, every other slot holding null. */
    ghost predicate Valid()
      reads this, items
    {
      Represents(items[..], head, size, Contents)
    }

    constructor (initialCapacity: int)
      requires initialCapacity >= 0
      ensures Valid() && fresh(items)
      ensures items.Length == initialCapacity && head == 0 && Contents == []
    {
      var a := new Option<T>[initialCapacity](_ => None);
      EmptyRepresents(a[..]);
      items := a;
      head, size := 0, 0;
      Contents := [];
    }

    constructor Default()
      ensures Valid() && fresh(items)
      ensures items.Length == CapacityInitialDefault && head == 0 && Contents == []
    {
      var a := new Option<T>[CapacityInitialDefault](_ => None);
      EmptyRepresents(a[..]);
      items := a;
      head, size := 0, 0;
      Contents := [];
    }

    function IsEmpty(): (r: bool)
      reads this, items
      requires Valid()
      ensures r <==> Contents == []
    {
      size == 0
    }

    function Size(): (r: int)
      reads this, items
      requires Valid()
      ensures r == |Contents|
    {
      size
    }

    /** The element at a logical index, read through the index encoding. */
    function Get(index: int): (r: Option<T>)
      reads this, items
      requires Valid() && 0 <= index < size
      ensures r == Contents[index]
    {
      ElementAt(items[..], head, size, Contents, index);
      items[EncodeToInternalIndex(head, index, items.Length)]
    }

    /** The front element, or null when the queue is empty. */
    function Peek(): (r: Option<T>)
      reads this, items
      requires Valid()
      ensures r == if Contents == [] then None else Contents[0]
    {
      if size == 0 then None
      else
        ElementAt(items[..], head, size, Contents, 0);
        items[head]
    }

    /** ensureCapacity: when the array is full, move the window, in logical
        order, to the start of a new array of the grown capacity and reset the
        head to 0; otherwise change nothing. */
    method EnsureCapacity()
      requires Valid()
      modifies this
      ensures Valid() && Contents == old(Contents) && size == old(size) && size < items.Length
      ensures old(size) < old(items.Length) ==> items == old(items) && head == old(head)
      ensures old(size) == old(items.Length) ==>
        fresh(items) && items.Length == GrownCapacity(old(items.Length)) && head == 0
    {
      var currentCapacity := items.Length;
      if size == currentCapacity {
        var newCapacity := (currentCapacity * 3) / 2 + 1;
        var newItems := new Option<T>[newCapacity](_ => None);
        ghost var a, blank := items[..], newItems[..];
        Arraycopy(items, head, newItems, 0, size - head);
        ghost var first := newItems[..];
        Arraycopy(items, 0, newItems, size - head, head);
        GrowRepresents(a, head, size, Contents, blank, first, newItems[..]);
        items := newItems;
        head := 0;
      }
    }

    /** enter(T): append at the tail, growing first when full. */
    method Enter(item: Option<T>)
      requires Valid()
      modifies this, items
      ensures Valid() && Contents == old(Contents) + [item] && size == old(size) + 1
      ensures old(size) < old(items.Length) ==> items == old(items) && head == old(head)
      ensures old(size) == old(items.Length) ==>
        fresh(items) && items.Length == GrownCapacity(old(items.Length)) && head == 0
    {
      EnsureCapacity();
      ghost var a := items[..];
      AppendRepresents(a, head, size, Contents, item);
      items[EncodeToInternalIndex(head, size, items.Length)] := item;
      size := size + 1;
      Contents := Contents + [item];
      assert items[..] == a[EncodeToInternalIndex(head, size - 1, items.Length) := item];
    }

    /** add(T): the list name of enter(T). */
    method Add(item: Option<T>)
      requires Valid()
      modifies this, items
      ensures Valid() && Contents == old(Contents) + [item] && size == old(size) + 1
      ensures old(size) < old(items.Length) ==> items == old(items) && head == old(head)
      ensures old(size) == old(items.Length) ==>
        fresh(items) && items.Length == GrownCapacity(old(items.Length)) && head == 0
    {
      Enter(item);
    }

    /** poll: remove and return the front element; null, with nothing
        changed, when the queue is empty. The vacated slot is nulled, the head
        advances with wrap-around, and an emptied queue gets head 0. */
    method Poll() returns (r: Option<T>)
      requires Valid()
      modifies this, items
      ensures Valid() && items == old(items)
      ensures old(size) == 0 ==>
        r == None && Contents == old(Contents) && head == old(head) && items[..] == old(items[..])
      ensures old(size) > 0 ==>
        r == old(Contents)[0] && Contents == old(Contents)[1..] && items[old(head)] == None
      ensures old(size) > 0 ==>
        head == if Contents == [] then 0 else (old(head) + 1) % items.Length
    {
      if size == 0 {
        return None;
      }
      ghost var a, n, c := items[..], size, Contents;
      ElementAt(a, head, n, c, 0);
      EncodeIsModulo(head, 1, items.Length);
      RemoveHeadRepresents(a, head, n, c);
      var item := items[head];
      items[head] := None;
      assert items[..] == a[old(head) := None];
      head := head + 1;
      if head == items.Length {
        head := 0;
      }
      size := size - 1;
      Contents := c[1..];
      if size == 0 {
        EmptyAnyHead(items[..], head);
        head := 0;
      }
      return item;
    }

    /** enter(int, T) as the source writes it: the slot of the index is
        computed before ensureCapacity. Without growth the item is inserted at
        `index`. When the array was full, growth moves the window to slot 0
        and the stale slot number is then taken as the logical position, so
        the item lands at position encode(old head, index) instead. */
    method EnterAt(index: int, item: Option<T>)
      requires Valid() && 0 <= index <= size
      modifies this, items
      ensures Valid() && size == old(size) + 1
      ensures old(size) < old(items.Length) ==>
        items == old(items) && Contents == InsertAt(old(Contents), index, item)
      ensures old(size) < old(items.Length) && index == old(size) ==> head == old(head)
      ensures old(size) == old(items.Length) ==>
        var stale := EncodeToInternalIndex(old(head), index, old(items.Length));
        fresh(items) && items.Length == GrownCapacity(old(items.Length)) &&
        0 <= stale <= old(size) && Contents == InsertAt(old(Contents), stale, item)
    {
      var internalIndex := EncodeToInternalIndex(head, index, items.Length);
      ghost var k := if size < items.Length then index else internalIndex;
      EnsureCapacity();
      StoreAt(index, internalIndex, item, k);
    }

    /** enter(int, T) with the slot computed after ensureCapacity: the item is
        inserted at `index` whether or not the array had to grow. */
    method EnterAtCorrected(index: int, item: Option<T>)
      requires Valid() && 0 <= index <= size
      modifies this, items
      ensures Valid() && Contents == InsertAt(old(Contents), index, item)
      ensures old(size) < old(items.Length) ==> items == old(items)
      ensures old(size) < old(items.Length) && index == old(size) ==> head == old(head)
      ensures old(size) == old(items.Length) ==>
        fresh(items) && items.Length == GrownCapacity(old(items.Length))
    {
      EnsureCapacity();
      var internalIndex := EncodeToInternalIndex(head, index, items.Length);
      StoreAt(index, internalIndex, item, index);
    }

    /** add(int, T): the list name of enter(int, T), here with the slot
        computed after ensureCapacity. */
    method AddAt(index: int, item: Option<T>)
      requires Valid() && 0 <= index <= size
      modifies this, items
      ensures Valid() && Contents == InsertAt(old(Contents), index, item)
      ensures old(size) < old(items.Length) ==> items == old(items)
      ensures old(size) < old(items.Length) && index == old(size) ==> head == old(head)
      ensures old(size) == old(items.Length) ==>
        fresh(items) && items.Length == GrownCapacity(old(items.Length))
    {
      EnterAtCorrected(index, item);
    }

    /** The second half of enter(int, T), once capacity is ensured: the item
        goes to logical position k, whose slot is internalIndex. The tail slot
        is used as it is; at the head slot the head moves back one; otherwise
        the front part (head up to the slot) moves one slot left or the back
        part (the slot up to the tail) one slot right, whichever the tests on
        the wrap point and on half the size pick. `index` is the caller's
        index; it equals k whenever the head is not 0, which is the only time
        the front part is moved. */
    method StoreAt(index: int, internalIndex: int, item: Option<T>, ghost k: int)
      requires Valid() && size < items.Length
      requires 0 <= k <= size && internalIndex == EncodeToInternalIndex(head, k, items.Length)
      requires head != 0 ==> index == k
      modifies this, items
      ensures Valid() && items == old(items) && size == old(size) + 1
      ensures Contents == InsertAt(old(Contents), k, item)
      ensures k == old(size) ==> head == old(head)
    {
      var tail := EncodeToInternalIndex(head, size, items.Length);
      if internalIndex == tail {
        InsertAtTail(item, k);
      } else if internalIndex == head {
        InsertBeforeHead(item, k);
      } else if internalIndex < head || head == 0 {
        InsertShiftingBack(internalIndex, tail, item, k);
      } else if internalIndex > tail {
        InsertShiftingFront(index, internalIndex, item);
      } else if index < size / 2 {
        InsertShiftingFront(index, internalIndex, item);
      } else {
        InsertShiftingBack(internalIndex, tail, item, k);
      }
    }

    /** Insertion at the tail slot, which is free: nothing moves. */
    method InsertAtTail(item: Option<T>, ghost k: int)
      requires Valid() && size < items.Length && k == size
      modifies this, items
      ensures Valid() && items == old(items) && head == old(head) && size == old(size) + 1
      ensures Contents == InsertAt(old(Contents), k, item)
      ensures items[..] == old(items[..])[EncodeToInternalIndex(head, old(size), items.Length) := item]
    {
      ghost var a, c := items[..], Contents;
      var slot := EncodeToInternalIndex(head, size, items.Length);
      AppendRepresents(a, head, size, c, item);
      items[slot] := item;
      size := size + 1;
      Contents := InsertAt(c, k, item);
      assert Contents == c + [item];
      assert items[..] == a[slot := item];
    }

    /** Insertion at position 0: the head moves back one slot, wrapping to the
        end of the array, and the item goes into the slot before the old head,
        which is free. */
    method InsertBeforeHead(item: Option<T>, ghost k: int)
      requires Valid() && size < items.Length && k == 0
      modifies this, items
      ensures Valid() && items == old(items) && size == old(size) + 1
      ensures Contents == InsertAt(old(Contents), k, item)
      ensures head == StepBack(old(head), items.Length) && items[..] == old(items[..])[head := item]
    {
      ghost var a, c := items[..], Contents;
      PrependRepresents(a, head, size, c, item);
      head := StepBack(head, items.Length);
      items[head] := item;
      size := size + 1;
      Contents := InsertAt(c, k, item);
      assert Contents == [item] + c;
      assert items[..] == a[head := item];
    }

    /** Insertion by moving the back part: slots [slot, tail) move one to the
        right and the item goes into slot. */
    method InsertShiftingBack(slot: int, tail: int, item: Option<T>, ghost k: int)
      requires Valid() && size < items.Length && 0 <= k <= size
      requires slot == EncodeToInternalIndex(head, k, items.Length)
      requires tail == EncodeToInternalIndex(head, size, items.Length)
      requires slot + (size - k) == tail
      modifies this, items
      ensures Valid() && items == old(items) && head == old(head) && size == old(size) + 1
      ensures Contents == InsertAt(old(Contents), k, item)
    {
      ghost var a, c := items[..], Contents;
      Arraycopy(items, slot, items, slot + 1, tail - slot);
      ghost var moved := items[..];
      items[slot] := item;
      assert items[..] == moved[slot := item];
      size := size + 1;
      Contents := InsertAt(c, k, item);
      InsertShiftingBackRepresents(a, head, size - 1, c, k, item, moved, items[..]);
    }

    /** Insertion by moving the front part: the `index` slots from the head
        move one to the left, the head moves back one and the item goes into
        the slot before `slot`. */
    method InsertShiftingFront(index: int, slot: int, item: Option<T>)
      requires Valid() && size < items.Length && 1 <= index <= size && 1 <= head
      requires slot == EncodeToInternalIndex(head, index, items.Length) && slot == head + index
      modifies this, items
      ensures Valid() && items == old(items) && head == old(head) - 1 && size == old(size) + 1
      ensures Contents == InsertAt(old(Contents), index, item)
    {
      ghost var a, c, h0 := items[..], Contents, head;
      Arraycopy(items, head, items, head - 1, index);
      ghost var moved := items[..];
      head := StepBack(head, items.Length);
      var internalIndex := StepBack(slot, items.Length);
      items[internalIndex] := item;
      assert items[..] == moved[internalIndex := item];
      size := size + 1;
      Contents := InsertAt(c, index, item);
      InsertShiftingFrontRepresents(a, h0, size - 1, c, index, item, moved, items[..]);
    }

    /** remove(int): delete and return the element at a logical index. The
        tail slot or the head slot is simply nulled (the head advancing);
        otherwise the front part moves one slot right or the back part one
        slot left, chosen like enter(int, T), and the slot left over is
        nulled. */
    method RemoveAt(index: int) returns (removed: Option<T>)
      requires Valid() && 0 <= index < size
      modifies this, items
      ensures Valid() && items == old(items) && size == old(size) - 1
      ensures removed == old(Contents)[index] && Contents == Delete(old(Contents), index)
    {
      var internalIndex := EncodeToInternalIndex(head, index, items.Length);
      ElementAt(items[..], head, size, Contents, index);
      removed := items[internalIndex];
      var tail := EncodeToInternalIndex(head, size - 1, items.Length);
      if internalIndex == tail {
        RemoveTailSlot(index);
      } else if internalIndex == head {
        RemoveHeadSlot(index);
      } else if internalIndex < head {
        RemoveShiftingBack(index, internalIndex, tail);
      } else if internalIndex > tail {
        RemoveShiftingFront(index);
      } else if index < size / 2 {
        RemoveShiftingFront(index);
      } else {
        RemoveShiftingBack(index, internalIndex, tail);
      }
    }

    /** Removal of the last element: its slot is nulled. */
    method RemoveTailSlot(index: int)
      requires Valid() && index == size - 1 && 0 <= index
      modifies this, items
      ensures Valid() && items == old(items) && head == old(head) && size == old(size) - 1
      ensures Contents == Delete(old(Contents), index)
      ensures items[..] == old(items[..])[EncodeToInternalIndex(head, index, items.Length) := None]
    {
      ghost var a, c := items[..], Contents;
      var tail := EncodeToInternalIndex(head, size - 1, items.Length);
      RemoveTailRepresents(a, head, size, c);
      items[tail] := None;
      size := size - 1;
      Contents := Delete(c, index);
      assert items[..] == a[tail := None];
    }

    /** Removal of the first element: the head slot is nulled and the head
        advances, wrapping at the end of the array. */
    method RemoveHeadSlot(index: int)
      requires Valid() && index == 0 && 0 < size
      modifies this, items
      ensures Valid() && items == old(items) && size == old(size) - 1
      ensures Contents == Delete(old(Contents), index)
      ensures head == StepForward(old(head), items.Length) && items[..] == old(items[..])[old(head) := None]
    {
      ghost var a, c, h0 := items[..], Contents, head;
      items[head] := None;
      assert items[..] == a[h0 := None];
      head := StepForward(head, items.Length);
      size := size - 1;
      Contents := Delete(c, index);
      RemoveHeadRepresents(a, h0, size + 1, c);
      assert Contents == c[1..];
      assert Represents(a[h0 := None], head, size, Contents);
    }

    /** Removal by moving the back part: slots (slot, tail] move one to the
        left and the old tail slot is nulled. */
    method RemoveShiftingBack(index: int, slot: int, tail: int)
      requires Valid() && 0 <= index < size
      requires slot == EncodeToInternalIndex(head, index, items.Length)
      requires tail == EncodeToInternalIndex(head, size - 1, items.Length)
      requires slot + (size - 1 - index) == tail
      modifies this, items
      ensures Valid() && items == old(items) && head == old(head) && size == old(size) - 1
      ensures Contents == Delete(old(Contents), index)
    {
      ghost var a, c := items[..], Contents;
      Arraycopy(items, slot + 1, items, slot, tail - slot);
      ghost var moved := items[..];
      items[tail] := None;
      assert items[..] == moved[tail := None];
      size := size - 1;
      Contents := Delete(c, index);
      RemoveShiftingBackRepresents(a, head, size + 1, c, index, moved, items[..]);
    }

    /** Removal by moving the front part: the `index` slots from the head move
        one to the right, the old head slot is nulled and the head advances. */
    method RemoveShiftingFront(index: int)
      requires Valid() && 0 <= index < size && head + index < items.Length
      modifies this, items
      ensures Valid() && items == old(items) && size == old(size) - 1
      ensures Contents == Delete(old(Contents), index)
      ensures head == StepForward(old(head), items.Length) && items[old(head)] == None
    {
      ghost var a, c, h0 := items[..], Contents, head;
      Arraycopy(items, head, items, head + 1, index);
      ghost var moved := items[..];
      items[head] := None;
      assert items[..] == moved[h0 := None];
      head := StepForward(head, items.Length);
      size := size - 1;
      Contents := Delete(c, index);
      RemoveShiftingFrontRepresents(a, h0, size + 1, c, index, moved, items[..]);
    }

    /** indexOf: the least logical index holding the item, or IndexInvalid.
        A null item is only looked for. A non-null match is also removed
        from the queue before its index is returned. */
    method IndexOf(item: Option<T>) returns (r: int)
      requires Valid()
      modifies this, items
      ensures Valid() && items == old(items)
      ensures r == Find(old(Contents), item)
      ensures Contents == if item.Some? && r != IndexInvalid then Delete(old(Contents), r) else old(Contents)
    {
      var n := Size();
      if item == None {
        var i := 0;
        while i < n
          invariant 0 <= i <= n
          invariant forall j :: 0 <= j < i ==> Contents[j] != item
        {
          if Get(i) == None {
            return i;
          }
          i := i + 1;
        }
      } else {
        var i := 0;
        while i < n
          invariant 0 <= i <= n
          invariant Valid() && items == old(items) && Contents == old(Contents) && n == size
          invariant forall j :: 0 <= j < i ==> Contents[j] != item
        {
          if item == Get(i) {
            var gone := RemoveAt(i);
            return i;
          }
          i := i + 1;
        }
      }
      return IndexInvalid;
    }

    /** A lookup that leaves the queue alone: the least logical index holding
        the item, or IndexInvalid. */
    method Search(item: Option<T>) returns (r: int)
      requires Valid()
      ensures r == Find(Contents, item)
    {
      var i := 0;
      while i < size
        invariant 0 <= i <= size
        invariant forall j :: 0 <= j < i ==> Contents[j] != item
      {
        if Get(i) == item {
          return i;
        }
        i := i + 1;
      }
      return IndexInvalid;
    }

    /** remove(T) with the lookup that does not remove: deletes the first
        occurrence of the item, once, and says whether there was one. */
    method RemoveItem(item: Option<T>) returns (removed: bool)
      requires Valid()
      modifies this, items
      ensures Valid() && items == old(items)
      ensures removed == (item in old(Contents))
      ensures Contents == if removed then Delete(old(Contents), Find(old(Contents), item)) else old(Contents)
    {
      var index := Search(item);
      if index == IndexInvalid {
        return false;
      }
      var gone := RemoveAt(index);
      return true;
    }

    /** remove(T) as the source writes it: indexOf, which has already deleted
        a non-null match, and then remove(int) at the returned index. The
        requires excludes the inputs on which the second deletion is out of
        range: a non-null item whose first occurrence is the last element. */
    method RemoveItemAsWritten(item: Option<T>) returns (removed: bool)
      requires Valid()
      requires RemovalAsWritten(Contents, item).Leaves?
      modifies this, items
      ensures Valid() && items == old(items)
      ensures removed == (item in old(Contents))
      ensures Contents == RemovalAsWritten(old(Contents), item).rest
    {
      var index := IndexOf(item);
      if index == IndexInvalid {
        return false;
      }
      var gone := RemoveAt(index);
      return true;
    }

    /** clear: null every slot and reset head and size; the array is kept. */
    method Clear()
      requires Valid()
      modifies this, items
      ensures Valid() && items == old(items) && head == 0 && Contents == []
    {
      Fill(items, None);
      head := 0;
      size := 0;
      Contents := [];
      EmptyRepresents(items[..]);
    }
  }

  /** The outcome of remove(T) as written, on the logical sequence. */
  datatype RemovalOutcome<T> = Leaves(rest: seq<Option<T>>) | OutOfRange

  /** remove(T) as the source writes it, on the logical sequence: the lookup
      is indexOf, which has already deleted a non-null match, and the element
      at the returned index is then deleted a second time. A null item is
      deleted once, as intended; a non-null match loses itself and the
      element after it. OutOfRange when that second deletion asks for the
      index one past the remaining elements, which the source does not check:
      what remove(int) then does depends on the array layout (head, capacity)
      rather than on the sequence alone. It may decrement an empty queue's
      size to -1, drop an unrelated element and leave a stale slot, or throw
      from System.arraycopy on a negative length after indexOf's deletion.
      Those outcomes are not modelled. */
  function RemovalAsWritten<T(==)>(s: seq<Option<T>>, item: Option<T>): (r: RemovalOutcome<T>)
    ensures item !in s ==> r == Leaves(s)
    ensures item == None && item in s ==> r == Leaves(Delete(s, Find(s, item)))
    ensures item.Some? && item in s ==> (r.OutOfRange? <==> Find(s, item) == |s| - 1)
    ensures item.Some? && item in s && r.Leaves? ==>
      var i := Find(s, item);
      r.rest == s[..i] + s[i + 2..]
  {
    var index := Find(s, item);
    if index == IndexInvalid then Leaves(s)
    else
      var searched := if item.Some? then Delete(s, index) else s;
      if index < |searched| then Leaves(Delete(searched, index)) else OutOfRange
  }
}
