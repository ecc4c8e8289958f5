/**
 Optional values, erased bytes, and overwriting a stretch of bytes.
 */
module Bytes {
  import opened Words

  datatype Option<+T> = None | Some(value: T)

  /** What an erased byte of flash memory reads as. */
  const ERASED: uint8 := 0xff

  /** The bytes from off on replaced by b. */
  function Splice(s: seq<uint8>, off: nat, b: seq<uint8>): (r: seq<uint8>)
    requires off + |b| <= |s|
    ensures |r| == |s|
  {
    s[..off] + b + s[off + |b|..]
  }

  /** Overwrite the bytes of an array from off on by b. */
  method StoreBytes(a: array<uint8>, off: nat, b: seq<uint8>)
    requires off + |b| <= a.Length
    modifies a
    ensures a[..] == Splice(old(a[..]), off, b)
  {
    for i := 0 to |b|
      invariant forall j :: 0 <= j < i ==> a[off + j] == b[j]
      invariant forall j :: 0 <= j < a.Length && !(off <= j < off + i) ==> a[j] == old(a[j])
    {
      a[off + i] := b[i];
    }
    assert a[..] == Splice(old(a[..]), off, b);
  }
}
