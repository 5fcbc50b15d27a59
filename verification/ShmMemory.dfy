/** The stores and loads the frame ring makes into its byte region. */
module ShmMemory {
  import opened Bytes
  import opened Memory
  import opened ShmRing

  method LoadWord(mem: array<byte>, p: nat) returns (w: nat)
    ensures w == Word(mem[..], p)
  {
    if p + 4 <= mem.Length {
      w := mem[p] as int + 0x100 * (mem[p + 1] as int + 0x100 * (mem[p + 2] as int + 0x100 * mem[p + 3] as int));
    } else {
      w := 0;
    }
  }

  method StoreWord(mem: array<byte>, p: nat, w: nat)
    requires w < WORD_LIMIT && p + 4 <= mem.Length
    modifies mem
    ensures mem[..] == Blit(old(mem[..]), p, WordBytes(w))
  {
    var bs := WordBytes(w);
    mem[p], mem[p + 1], mem[p + 2], mem[p + 3] := bs[0], bs[1], bs[2], bs[3];
  }

  /** `memcpy(dst, mem + p, n)`; lengths that leave the region copy nothing. */
  method CopyOut(mem: array<byte>, p: nat, n: int, dst: array<byte>)
    requires dst != mem && n <= dst.Length
    modifies dst
    ensures dst[..] == Blit(old(dst[..]), 0, if 0 <= n && p + n <= mem.Length then mem[p..p + n] else [])
  {
    if 0 <= n && p + n <= mem.Length {
      Memcpy(dst, 0, mem, p, n);
    }
  }

  lemma BlitJoin(mem: seq<byte>, p: nat, a: seq<byte>, b: seq<byte>)
    requires p + |a| + |b| <= |mem|
    ensures Blit(Blit(mem, p, a), p + |a|, b) == Blit(mem, p, a + b)
    ensures Blit(Blit(mem, p + |a|, b), p, a) == Blit(mem, p, a + b)
  {
  }

  /** The field-by-field stores of a frame head, last field first, amount to one block store. */
  lemma HeadStores(mem: seq<byte>, p: nat, prev: nat, next: nat, sq: nat, f: Frame)
    requires prev < WORD_LIMIT && next < WORD_LIMIT && sq < WORD_LIMIT && |f.payload| < WORD_LIMIT
    requires p + EXTRAS + |f.extras| <= |mem|
    ensures var m1 := Blit(mem, p + SIZE, WordBytes(|f.payload|));
      var m2 := Blit(m1, p + SEQ, WordBytes(sq));
      var m3 := Blit(m2, p + NEXT, WordBytes(next));
      var m4 := Blit(m3, p + PREV, WordBytes(prev));
      var m5 := Blit(m4, p, WordBytes(MAGIC));
      Blit(m5, p + EXTRAS, f.extras) == Blit(mem, p, HeadBytes(prev, next, sq, f))
  {
    hide Blit, Word, WordBytes;
    var z, q, n, v, m := WordBytes(|f.payload|), WordBytes(sq), WordBytes(next), WordBytes(prev), WordBytes(MAGIC);
    BlitJoin(mem, p + SEQ, q, z);
    BlitJoin(mem, p + NEXT, n, q + z);
    BlitJoin(mem, p + PREV, v, n + (q + z));
    BlitJoin(mem, p, m, v + (n + (q + z)));
    BlitJoin(mem, p, m + (v + (n + (q + z))), f.extras);
    assert m + (v + (n + (q + z))) + f.extras == HeadBytes(prev, next, sq, f);
  }
}
