/** MemSet and MemCopy of src/system.c on a byte array, one byte at a time. */
module Bytes {
  import opened Words

  method MemSet(a: array<byte>, dst: nat, value: byte, size: nat)
    requires dst + size <= a.Length
    modifies a
    ensures a[..] == Fill(old(a[..]), dst, size, value)
  {
    var i := 0;
    while i < size
      invariant i <= size
      invariant forall k :: 0 <= k < a.Length ==> a[k] == if dst <= k < dst + i then value else old(a[..])[k]
    {
      a[dst + i] := value;
      i := i + 1;
    }
  }

  /** The ranges may overlap; each byte is read after the earlier ones were written. */
  method MemCopy(a: array<byte>, dst: nat, src: nat, size: nat)
    requires dst + size <= a.Length && src + size <= a.Length
    modifies a
    ensures a[..] == CopyForward(old(a[..]), dst, src, size)
  {
    var i := 0;
    while i < size
      invariant i <= size && a[..] == CopyForward(old(a[..]), dst, src, i)
    {
      ghost var before := a[..];
      a[dst + i] := a[src + i];
      i := i + 1;
      assert a[..] == before[dst + i - 1 := before[src + i - 1]];
    }
  }
}
