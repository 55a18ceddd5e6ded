/**
 * A cached page, as the data items and page one see it: a byte buffer shared by everyone who
 * holds the page, and the dirty flag that decides whether its write-back touches the file.
 * `Page.java` itself is not part of this model; only `setDirty` and `getData` are used.
 * `System.arraycopy` is modelled here too, since all the byte layouts write through it.
 */
module Page {
  import opened Bytes

  class Page {
    const data: array<Byte>
    var dirty: bool

    constructor (data: array<Byte>)
      ensures this.data == data && !dirty
    {
      this.data := data;
      dirty := false;
    }

    method SetDirty(d: bool)
      modifies this
      ensures dirty == d
    {
      dirty := d;
    }
  }

  /** `dst` after `len` bytes from `src` at `srcPos` are copied to `dstPos`. */
  function Copied(dst: seq<Byte>, dstPos: nat, src: seq<Byte>): (r: seq<Byte>)
    requires dstPos + |src| <= |dst|
    ensures |r| == |dst|
    ensures r[dstPos..dstPos + |src|] == src
    ensures forall i :: 0 <= i < |dst| && !(dstPos <= i < dstPos + |src|) ==> r[i] == dst[i]
  {
    dst[..dstPos] + src + dst[dstPos + |src|..]
  }

  /** Copying over the whole of `dst` leaves exactly the copied bytes. */
  lemma CopiedWhole(dst: seq<Byte>, src: seq<Byte>)
    requires |src| == |dst|
    ensures Copied(dst, 0, src) == src
  {
    assert dst[..0] == [] && dst[|src|..] == [];
  }

  /** `System.arraycopy(src, srcPos, dst, dstPos, len)`. The Java method also copies between
      overlapping ranges of one array; every caller in this model copies between disjoint ones. */
  method ArrayCopy(src: array<Byte>, srcPos: nat, dst: array<Byte>, dstPos: nat, len: nat)
    requires srcPos + len <= src.Length && dstPos + len <= dst.Length
    requires src == dst ==> srcPos + len <= dstPos || dstPos + len <= srcPos
    modifies dst
    ensures dst[..] == Copied(old(dst[..]), dstPos, old(src[srcPos..srcPos + len]))
  {
    ghost var s := src[srcPos..srcPos + len];
    for i := 0 to len
      invariant forall k :: 0 <= k < dst.Length ==>
        dst[k] == if dstPos <= k < dstPos + i then s[k - dstPos] else old(dst[k])
      invariant forall k :: 0 <= k < len ==> src[srcPos + k] == s[k]
    {
      dst[dstPos + i] := src[srcPos + i];
    }
    assert dst[..] == Copied(old(dst[..]), dstPos, s);
  }
}
