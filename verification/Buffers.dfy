/** Go's copy into a buffer at an offset. */
module Buffers {
  import opened ByteStrings

  method CopyAt(out: array<byte>, at: nat, data: Bytes)
    requires at + |data| <= out.Length
    modifies out
    ensures out[..at + |data|] == old(out[..at]) + data
    ensures out[at + |data|..] == old(out[at + |data|..])
  {
    for i := 0 to |data|
      invariant out[..at + i] == old(out[..at]) + data[..i]
      invariant out[at + i..] == old(out[at + i..])
    {
      ghost var rest := out[at + i..];
      out[at + i] := data[i];
      assert out[at + i + 1..] == rest[1..];
    }
  }
}
