/** The C library's block stores, on arrays. */
module Memory {
  import opened Bytes

  /** Copies `n` bytes; the two blocks are in different arrays or are the very same block. */
  method Memcpy(dst: array<byte>, p: nat, src: array<byte>, off: nat, n: nat)
    requires p + n <= dst.Length && off + n <= src.Length && (src == dst ==> p == off)
    modifies dst
    ensures dst[..] == Blit(old(dst[..]), p, old(src[off..off + n]))
  {
    for i := 0 to n
      invariant forall j :: p <= j < p + i ==> dst[j] == old(src[off + (j - p)])
      invariant forall j :: 0 <= j < dst.Length && !(p <= j < p + i) ==> dst[j] == old(dst[j])
    {
      assert src[off + i] == old(src[off + i]);
      dst[p + i] := src[off + i];
    }
  }

  method Memset(dst: array<byte>, p: nat, n: nat)
    requires p + n <= dst.Length
    modifies dst
    ensures dst[..] == Blit(old(dst[..]), p, Zeros(n))
  {
    for i := 0 to n
      invariant forall j :: p <= j < p + i ==> dst[j] == 0
      invariant forall j :: 0 <= j < dst.Length && !(p <= j < p + i) ==> dst[j] == old(dst[j])
    {
      dst[p + i] := 0;
    }
  }
}
