/** The two library routines the queue relies on: System.arraycopy and
    Arrays.fill. */
module ArrayOps {
  import opened Sequences

  /** System.arraycopy: copies length elements of src from srcPos into dest
      from destPos. When src and dest are the same array and the ranges
      overlap, the result is as if the source range were first copied to a
      temporary array; that is why the copy runs backwards when it moves
      elements to the right within one array. */
  method Arraycopy<U>(src: array<U>, srcPos: int, dest: array<U>, destPos: int, length: int)
    requires 0 <= length
    requires 0 <= srcPos && srcPos + length <= src.Length
    requires 0 <= destPos && destPos + length <= dest.Length
    modifies dest
    ensures IsCopy(dest[..], old(src[..]), srcPos, old(dest[..]), destPos, length)
  {
    ghost var s, d := src[..], dest[..];
    if src == dest && srcPos < destPos {
      var i := length;
      while i > 0
        invariant 0 <= i <= length
        invariant forall k :: 0 <= k < dest.Length ==>
          dest[k] == if destPos + i <= k < destPos + length then s[srcPos + k - destPos] else d[k]
      {
        i := i - 1;
        dest[destPos + i] := src[srcPos + i];
      }
    } else {
      var i := 0;
      while i < length
        invariant 0 <= i <= length
        invariant forall k :: 0 <= k < dest.Length ==>
          dest[k] == if destPos <= k < destPos + i then s[srcPos + k - destPos] else d[k]
        invariant src != dest ==> src[..] == s
      {
        dest[destPos + i] := src[srcPos + i];
        i := i + 1;
      }
    }
    assert IsCopy(dest[..], s, srcPos, d, destPos, length);
  }

  /** Arrays.fill: every element of a becomes v. */
  method Fill<U>(a: array<U>, v: U)
    modifies a
    ensures forall k :: 0 <= k < a.Length ==> a[k] == v
  {
    var i := 0;
    while i < a.Length
      invariant 0 <= i <= a.Length
      invariant forall k :: 0 <= k < i ==> a[k] == v
    {
      a[i] := v;
      i := i + 1;
    }
  }
}
