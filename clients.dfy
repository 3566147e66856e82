/** Short programs against CircularQueue whose outcomes follow from the
    queue's contracts alone: FIFO order across growth and wrap-around, list
    insertion and removal at an index, clear, and the two places where the
    code as written departs from what it evidently intends. */
module Clients {
  import opened Sequences
  import opened Ring
  import opened CircularQueues

  /** Entering 1, 2, 3 into a default queue (capacity 1, so it grows twice)
      and polling three times yields them in the same order; a fourth poll
      finds the queue empty. */
  method FifoOrder() returns (first: Option<int>, second: Option<int>, third: Option<int>,
                              fourth: Option<int>)
    ensures first == Some(1) && second == Some(2) && third == Some(3) && fourth == None
  {
    var q := new CircularQueue<int>.Default();
    q.Enter(Some(1));
    q.Enter(Some(2));
    q.Enter(Some(3));
    first := q.Poll();
    second := q.Poll();
    third := q.Poll();
    fourth := q.Poll();
  }

  /** Polling moves the head, so later entries wrap around to slot 0; a
      subsequent growth unwraps the window and keeps the order. */
  method WrapThenGrow() returns (front: Option<int>, size: int, middle: Option<int>,
                                 last: Option<int>)
    ensures front == Some(2) && size == 3 && middle == Some(3) && last == Some(4)
  {
    var q := new CircularQueue<int>(2);
    q.Enter(Some(1));
    q.Enter(Some(2));
    var gone := q.Poll();
    q.Enter(Some(3));
    q.Enter(Some(4));
    front := q.Peek();
    size := q.Size();
    middle := q.Get(1);
    last := q.Get(2);
  }

  /** Enter 10, 20, 30 from capacity 1, poll once, then insert 5 at index 0
      (there is spare capacity by then): the list reads 5, 20, 30. */
  method InsertAtFront() returns (polled: Option<int>, a: Option<int>, b: Option<int>,
                                  c: Option<int>)
    ensures polled == Some(10) && a == Some(5) && b == Some(20) && c == Some(30)
  {
    var q := new CircularQueue<int>(1);
    q.Enter(Some(10));
    q.Enter(Some(20));
    q.Enter(Some(30));
    polled := q.Poll();
    q.EnterAt(0, Some(5));
    a := q.Get(0);
    b := q.Get(1);
    c := q.Get(2);
  }

  /** Null is a legal element: it is stored, found by indexOf without being
      removed, and polled like any other element. */
  method NullElements() returns (found: int, size: int, polled: Option<int>)
    ensures found == 1 && size == 3 && polled == Some(7)
  {
    var q := new CircularQueue<int>(4);
    q.Enter(Some(7));
    q.Enter(None);
    q.Enter(Some(8));
    found := q.IndexOf(None);
    size := q.Size();
    polled := q.Poll();
  }

  /** remove(int) returns the element at the index and closes the gap; an
      insertion at the same index followed by a removal there restores the
      list. */
  method InsertRemoveRoundTrip(q: CircularQueue<int>, index: int, x: Option<int>)
      returns (removed: Option<int>)
    requires q.Valid() && 0 <= index <= q.size
    modifies q, q.items
    ensures q.Valid() && removed == x && q.Contents == old(q.Contents)
  {
    q.EnterAtCorrected(index, x);
    removed := q.RemoveAt(index);
    DeleteInsertAt(old(q.Contents), index, x);
  }

  /** The same round trip through enter(int, T) as the source writes it,
      when the array has room so that no growth happens. */
  method InsertRemoveRoundTripInPlace(q: CircularQueue<int>, index: int, x: Option<int>)
      returns (removed: Option<int>)
    requires q.Valid() && 0 <= index <= q.size && q.size < q.items.Length
    modifies q, q.items
    ensures q.Valid() && removed == x && q.Contents == old(q.Contents)
  {
    q.EnterAt(index, x);
    removed := q.RemoveAt(index);
    DeleteInsertAt(old(q.Contents), index, x);
  }

  /** clear empties the queue and keeps the array; the queue is then usable
      again from slot 0. */
  method ClearThenReuse() returns (emptied: bool, front: Option<int>)
    ensures emptied && front == Some(9)
  {
    var q := new CircularQueue<int>(3);
    q.Enter(Some(1));
    q.Enter(Some(2));
    var gone := q.Poll();
    q.Clear();
    emptied := q.IsEmpty();
    q.Enter(Some(9));
    front := q.Peek();
  }

  /** enter(int, T) as written, on a full queue of capacity 1 holding 1:
      inserting 2 at index 1 (the end) grows the array, and the slot number
      computed before growth sends 2 to the front instead. */
  method StaleIndexOnGrowth() returns (a: Option<int>, b: Option<int>)
    ensures a == Some(2) && b == Some(1)
  {
    var q := new CircularQueue<int>(1);
    q.Enter(Some(1));
    q.EnterAt(1, Some(2));
    a := q.Get(0);
    b := q.Get(1);
  }

  /** The same insertion with the slot computed after growth puts 2 at the
      end. */
  method FreshIndexOnGrowth() returns (a: Option<int>, b: Option<int>)
    ensures a == Some(1) && b == Some(2)
  {
    var q := new CircularQueue<int>(1);
    q.Enter(Some(1));
    q.EnterAtCorrected(1, Some(2));
    a := q.Get(0);
    b := q.Get(1);
  }

  /** remove(T) as written removes the match and then the element after it;
      on a match in last place the second index is out of range. */
  lemma RemovalAsWrittenExamples()
    ensures RemovalAsWritten([Some(1), Some(7), Some(2)], Some(7)) == Leaves([Some(1)])
    ensures RemovalAsWritten([Some(7)], Some(7)) == OutOfRange
  {
    assert Find([Some(1), Some(7), Some(2)], Some(7)) == 1;
    assert Find([Some(7)], Some(7)) == 0;
  }

  /** The corrected remove(T) removes exactly the first match. */
  method RemoveItemOnce() returns (removed: bool, size: int, a: Option<int>, b: Option<int>)
    ensures removed && size == 2 && a == Some(1) && b == Some(2)
  {
    var q := new CircularQueue<int>(3);
    q.Enter(Some(1));
    q.Enter(Some(7));
    q.Enter(Some(2));
    removed := q.RemoveItem(Some(7));
    size := q.Size();
    a := q.Get(0);
    b := q.Get(1);
  }
}
