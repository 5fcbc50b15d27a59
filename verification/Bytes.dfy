/** Byte sequences: little-endian 32-bit words and the block copies of the C library. */
module Bytes {

  type byte = x: int | 0 <= x < 256

  const WORD_LIMIT: nat := 0x1_0000_0000

  /** The 32-bit word stored at `p`. A word that sticks out of the region reads as 0. */
  function Word(mem: seq<byte>, p: nat): (w: nat)
    ensures w < WORD_LIMIT
  {
    if p + 4 <= |mem| then
      mem[p] as int + 0x100 * (mem[p + 1] as int + 0x100 * (mem[p + 2] as int + 0x100 * mem[p + 3] as int))
    else
      0
  }

  function WordBytes(w: nat): (bs: seq<byte>)
    requires w < WORD_LIMIT
    ensures |bs| == 4 && Word(bs, 0) == w
  {
    var w1 := w / 0x100;
    var w2 := w1 / 0x100;
    [w % 0x100, w1 % 0x100, w2 % 0x100, w2 / 0x100]
  }

  function Zeros(n: nat): (bs: seq<byte>)
    ensures |bs| == n && forall i :: 0 <= i < n ==> bs[i] == 0
  {
    seq(n, _ => 0)
  }

  /** `memcpy(mem + p, bs, |bs|)`. */
  function Blit(mem: seq<byte>, p: nat, bs: seq<byte>): (mem': seq<byte>)
    requires p + |bs| <= |mem|
    ensures |mem'| == |mem|
    ensures forall i :: p <= i < p + |bs| ==> mem'[i] == bs[i - p]
    ensures forall i :: 0 <= i < |mem| && !(p <= i < p + |bs|) ==> mem'[i] == mem[i]
  {
    mem[..p] + bs + mem[p + |bs|..]
  }

  predicate Disjoint(a: nat, n: nat, b: nat, m: nat) {
    a + n <= b || b + m <= a
  }

  /** The bytes `bs` lie at `p`. */
  predicate Holds(mem: seq<byte>, p: nat, bs: seq<byte>) {
    p + |bs| <= |mem| && mem[p..p + |bs|] == bs
  }

  lemma BlitKeeps(mem: seq<byte>, p: nat, bs: seq<byte>, q: nat, held: seq<byte>)
    requires p + |bs| <= |mem| && Holds(mem, q, held) && Disjoint(p, |bs|, q, |held|)
    ensures Holds(Blit(mem, p, bs), q, held)
  {
    var mem' := Blit(mem, p, bs);
    assert mem'[q..q + |held|] == mem[q..q + |held|];
  }

  lemma BlitHolds(mem: seq<byte>, p: nat, bs: seq<byte>)
    requires p + |bs| <= |mem|
    ensures Holds(Blit(mem, p, bs), p, bs)
  {
    assert Blit(mem, p, bs)[p..p + |bs|] == bs;
  }

  lemma HoldsConcat(mem: seq<byte>, p: nat, a: seq<byte>, b: seq<byte>)
    requires Holds(mem, p, a) && Holds(mem, p + |a|, b)
    ensures Holds(mem, p, a + b)
  {
    assert mem[p..p + |a + b|] == mem[p..p + |a|] + mem[p + |a|..p + |a| + |b|];
  }

  lemma WordHeld(mem: seq<byte>, p: nat, bs: seq<byte>, off: nat)
    requires Holds(mem, p, bs) && off + 4 <= |bs|
    ensures Word(mem, p + off) == Word(bs, off)
  {
    forall i | 0 <= i < |bs| ensures mem[p + i] == bs[i] {
      assert mem[p..p + |bs|][i] == bs[i];
    }
  }

  lemma WordAt(a: seq<byte>, w: nat, b: seq<byte>)
    requires w < WORD_LIMIT
    ensures Word(a + WordBytes(w) + b, |a|) == w
  {
    var all := a + WordBytes(w) + b;
    assert forall i :: 0 <= i < 4 ==> all[|a| + i] == WordBytes(w)[i];
  }

  lemma SliceHeld(mem: seq<byte>, p: nat, bs: seq<byte>, a: nat, b: nat)
    requires Holds(mem, p, bs) && a <= b <= |bs|
    ensures mem[p + a..p + b] == bs[a..b]
  {
    forall i | 0 <= i < b - a ensures mem[p + a..p + b][i] == bs[a..b][i] {
      assert mem[p + a + i] == mem[p..p + |bs|][a + i];
    }
  }
}
