/** The built-in copy on byte buffers. */
module Buffers {
  import opened Text

  /** copy(b[at:], data) with room enough. */
  method Copy(b: array<Byte>, at: nat, data: Bytes) returns (end: nat)
    requires at + |data| <= b.Length
    modifies b
    ensures end == at + |data| && b[..end] == old(b[..at]) + data && b[end..] == old(b[end..])
  {
    for k := 0 to |data|
      invariant b[..at + k] == old(b[..at]) + data[..k] && b[at + k..] == old(b[at + k..])
    {
      ghost var rest := b[at + k..];
      b[at + k] := data[k];
      assert b[..at + k + 1] == b[..at + k] + [data[k]];
      assert b[at + k + 1..] == rest[1..] && old(b[at + k..])[1..] == old(b[at + k + 1..]);
    }
    end := at + |data|;
  }

  /** copy(dst, src[lo:lo+n]); dst may be src itself. */
  method CopyDown(dst: array<Byte>, src: array<Byte>, lo: nat, n: nat)
    requires lo + n <= src.Length && n <= dst.Length
    modifies dst
    ensures dst[..n] == old(src[lo..lo + n]) && dst[n..] == old(dst[n..])
  {
    ghost var data, tail := src[lo..lo + n], dst[n..];
    for i := 0 to n
      invariant dst[..i] == data[..i] && src[lo + i..lo + n] == data[i..] && dst[n..] == tail
    {
      assert src[lo + i..lo + n][0] == data[i];
      ghost var rest := src[lo + i + 1..lo + n];
      assert rest == data[i + 1..];
      dst[i] := src[lo + i];
      assert dst[..i + 1] == dst[..i] + [data[i]];
    }
  }
}
