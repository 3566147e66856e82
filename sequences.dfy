/** Sequence operations that specify the queue's list behaviour: insertion at a
    logical index, deletion at a logical index, the linear search that
    indexOf performs, and the effect of one bulk array copy. */
module Sequences {

  /** s with x inserted so that x ends up at position i. */
  function InsertAt<T>(s: seq<T>, i: int, x: T): (r: seq<T>)
    requires 0 <= i <= |s|
    ensures |r| == |s| + 1 && r[i] == x
    ensures forall j :: 0 <= j < i ==> r[j] == s[j]
    ensures forall j :: i < j < |r| ==> r[j] == s[j - 1]
  {
    s[..i] + [x] + s[i..]
  }

  /** s without its element at position i. */
  function Delete<T>(s: seq<T>, i: int): (r: seq<T>)
    requires 0 <= i < |s|
    ensures |r| == |s| - 1
    ensures forall j :: 0 <= j < i ==> r[j] == s[j]
    ensures forall j :: i <= j < |r| ==> r[j] == s[j + 1]
  {
    s[..i] + s[i + 1..]
  }

  /** The least position holding x, or -1 when x does not occur: a scan from
      position 0 upwards that stops at the first match. */
  function Find<T(==)>(s: seq<T>, x: T): (r: int)
    ensures -1 <= r < |s|
    ensures r == -1 <==> x !in s
    ensures r != -1 ==> s[r] == x && forall j :: 0 <= j < r ==> s[j] != x
  {
    if |s| == 0 then -1
    else if s[0] == x then 0
    else
      var rest := Find(s[1..], x);
      if rest == -1 then -1 else rest + 1
  }

  /** r is dest after copying length elements of src, starting at srcPos,
      into dest starting at destPos: the target range holds the source range
      and every other element keeps its value. */
  ghost predicate IsCopy<T>(r: seq<T>, src: seq<T>, srcPos: int, dest: seq<T>, destPos: int, length: int)
  {
    0 <= length &&
    0 <= srcPos && srcPos + length <= |src| &&
    0 <= destPos && destPos + length <= |dest| &&
    |r| == |dest| &&
    forall k :: 0 <= k < |r| ==>
      r[k] == if destPos <= k < destPos + length then src[srcPos + k - destPos] else dest[k]
  }

  /** Deleting what was just inserted gives back the original sequence. */
  lemma DeleteInsertAt<T>(s: seq<T>, i: int, x: T)
    requires 0 <= i <= |s|
    ensures Delete(InsertAt(s, i, x), i) == s
  {
    var t := Delete(InsertAt(s, i, x), i);
    assert |t| == |s|;
    forall j | 0 <= j < |s| ensures t[j] == s[j] {
    }
  }

  /** Re-inserting a deleted element at its old position gives back the
      original sequence. */
  lemma InsertDeleteAt<T>(s: seq<T>, i: int)
    requires 0 <= i < |s|
    ensures InsertAt(Delete(s, i), i, s[i]) == s
  {
    var t := InsertAt(Delete(s, i), i, s[i]);
    assert |t| == |s|;
    forall j | 0 <= j < |s| ensures t[j] == s[j] {
    }
  }
}
