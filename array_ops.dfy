/** The three array primitives the container is built on: the JDK's
    `System.arraycopy` and `Arrays.copyOf`, and the library's
    `Util.advanceUntil` search over a sorted `short[]`. */
module ArrayOps {
  import opened Shorts

  /** `System.arraycopy(src, srcPos, dst, dstPos, n)`: the copy behaves as if
      it went through a temporary buffer, also when `src` and `dst` are the
      same array and the two windows overlap. */
  method ArrayCopy(src: array<U16>, srcPos: int, dst: array<U16>, dstPos: int, n: int)
    requires 0 <= srcPos && 0 <= dstPos && 0 <= n
    requires srcPos + n <= src.Length && dstPos + n <= dst.Length
    modifies dst
    ensures forall k :: 0 <= k < dst.Length ==>
      dst[k] == if dstPos <= k < dstPos + n then old(src[srcPos + k - dstPos]) else old(dst[k])
    ensures dst[..] == old(dst[..])[..dstPos] + old(src[..])[srcPos..srcPos + n] + old(dst[..])[dstPos + n..]
  {
    ghost var s := src[..];
    ghost var d := dst[..];

    if src == dst && srcPos < dstPos {
      // copy from the top down so that no source slot is overwritten first
      var i := n;
      while i > 0
        invariant 0 <= i <= n
        invariant forall k :: 0 <= k < dst.Length ==>
          dst[k] == if dstPos + i <= k < dstPos + n then s[srcPos + k - dstPos] else d[k]
      {
        i := i - 1;
        dst[dstPos + i] := src[srcPos + i];
      }
      CopyShape(s, d, dst[..], srcPos, dstPos, n);
    } else {
      var i := 0;
      while i < n
        invariant 0 <= i <= n
        invariant forall k :: 0 <= k < dst.Length ==>
          dst[k] == if dstPos <= k < dstPos + i then s[srcPos + k - dstPos] else d[k]
        invariant src != dst ==> src[..] == s
      {
        dst[dstPos + i] := src[srcPos + i];
        i := i + 1;
      }
      CopyShape(s, d, dst[..], srcPos, dstPos, n);
    }
  }

  /** The copy, pointwise, is a splice. */
  lemma CopyShape(s: seq<U16>, d: seq<U16>, r: seq<U16>, srcPos: int, dstPos: int, n: int)
    requires 0 <= srcPos && 0 <= dstPos && 0 <= n
    requires srcPos + n <= |s| && dstPos + n <= |d| == |r|
    requires forall k :: 0 <= k < |r| ==> r[k] == if dstPos <= k < dstPos + n then s[srcPos + k - dstPos] else d[k]
    ensures r == d[..dstPos] + s[srcPos..srcPos + n] + d[dstPos + n..]
  {
    var want := d[..dstPos] + s[srcPos..srcPos + n] + d[dstPos + n..];
    assert forall k :: 0 <= k < |r| ==> r[k] == want[k];
  }

  /** `Arrays.copyOf(a, newLength)`: a fresh array holding the first
      `newLength` slots of `a`, padded with zeros. */
  method CopyOf(a: array<U16>, newLength: nat) returns (b: array<U16>)
    ensures fresh(b) && b.Length == newLength
    ensures forall k :: 0 <= k < newLength ==> b[k] == if k < a.Length then a[k] else 0
  {
    b := new U16[newLength](_ => 0);
    var i := 0;
    while i < newLength && i < a.Length
      invariant 0 <= i <= newLength && i <= a.Length
      invariant forall k :: 0 <= k < newLength ==> b[k] == if k < i then a[k] else 0
    {
      b[i] := a[i];
      i := i + 1;
    }
  }

  /** `Util.advanceUntil(array, pos, length, min)`: the first index after
      `pos` whose value is at least `min`, or `length` when there is none.
      The library gallops (doubling steps, then a binary search); this scan
      finds the same index one step at a time. */
  method AdvanceUntil(a: seq<U16>, pos: int, length: int, min: U16) returns (r: int)
    requires 0 <= pos < length <= |a|
    ensures pos < r <= length
    ensures forall i :: pos < i < r ==> a[i] < min
    ensures r < length ==> min <= a[r]
  {
    r := pos + 1;
    while r < length && a[r] < min
      invariant pos < r <= length
      invariant forall i :: pos < i < r ==> a[i] < min
    {
      r := r + 1;
    }
  }
}
