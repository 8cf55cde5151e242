/**
 `System.arraycopy` on arrays modelled as sequences: the destination comes back
 as a new sequence, and an out-of-range request is an `IndexOutOfBounds` fault.
 */
module JavaArrays {
  import opened JavaTypes

  /** True when `System.arraycopy(src, srcPos, dest, destPos, length)` stays inside both arrays. */
  predicate CopyInBounds(srcLen: nat, srcPos: int, destLen: nat, destPos: int, length: int)
  {
    0 <= srcPos && 0 <= destPos && 0 <= length
    && srcPos + length <= srcLen && destPos + length <= destLen
  }

  /** Copies `length` elements of `src` from `srcPos` into `dest` at `destPos`,
      one element at a time; a copy that leaves either array fails before
      anything is written. */
  method ArrayCopy<T>(src: seq<T>, srcPos: int, dest: seq<T>, destPos: int, length: int)
    returns (r: Result<seq<T>>)
    ensures r.Ok? <==> CopyInBounds(|src|, srcPos, |dest|, destPos, length)
    ensures r.Err? ==> r.fault == IndexOutOfBounds
    ensures r.Ok? ==> |r.value| == |dest|
    ensures r.Ok? ==> forall i :: 0 <= i < |dest| ==>
      r.value[i] == (if destPos <= i < destPos + length then src[srcPos + (i - destPos)] else dest[i])
  {
    if !CopyInBounds(|src|, srcPos, |dest|, destPos, length) {
      return Err(IndexOutOfBounds);
    }
    var out := dest;
    var k := 0;
    while k < length
      invariant 0 <= k <= length
      invariant |out| == |dest|
      invariant forall i :: 0 <= i < |dest| ==>
        out[i] == (if destPos <= i < destPos + k then src[srcPos + (i - destPos)] else dest[i])
    {
      out := out[destPos + k := src[srcPos + k]];
      k := k + 1;
    }
    return Ok(out);
  }
}
