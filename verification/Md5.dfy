/** Streaming MD5: the digest of what was fed does not depend on how it was fed. */
module Md5 {
  import opened Bytes
  import opened Memory
  import opened Md5Compress

  const BLOCK := 64
  const TWO_WORDS: nat := 0x1_0000_0000_0000_0000

  /** The compression function folded over the blocks of `m`, from the initial state. */
  function Absorb(m: seq<byte>): Digest
    requires |m| % BLOCK == 0
    decreases |m|
  {
    if m == [] then INIT
    else
      var n := |m| - BLOCK;
      Compress(Absorb(m[..n]), m[n..])
  }

  /** Sections 3.1 and 3.2 of RFC 1321: a 1 bit, zeros, and the length in bits as two words, low word first. */
  function Pad(m: seq<byte>): (p: seq<byte>)
    ensures |p| % BLOCK == 0 && m <= p && |m| + 9 <= |p| < |m| + 9 + BLOCK
  {
    hide LengthBytes;
    PadLength(|m|);
    m + [0x80] + Zeros((55 - |m|) % BLOCK) + LengthBytes(8 * |m| % TWO_WORDS)
  }

  lemma PadLength(n: nat)
    ensures (n + 1 + (55 - n) % BLOCK + 8) % BLOCK == 0
  {
    var k := (55 - n) / BLOCK;
    assert (55 - n) % BLOCK == 55 - n - BLOCK * k;
    assert n + 1 + (55 - n) % BLOCK + 8 == BLOCK * (1 - k);
  }

  function LengthBytes(bits: nat): (bs: seq<byte>)
    requires bits < TWO_WORDS
    ensures |bs| == 8
  {
    WordBytes(bits % WORD_LIMIT) + WordBytes(bits / WORD_LIMIT)
  }

  function Digested(m: seq<byte>): seq<byte> {
    Encode(Absorb(Pad(m)))
  }

  lemma AbsorbBlock(m: seq<byte>, block: seq<byte>)
    requires |m| % BLOCK == 0 && |block| == BLOCK
    ensures Absorb(m + block) == Compress(Absorb(m), block)
  {
    hide Compress;
    assert (m + block)[..|m|] == m && (m + block)[|m|..] == block;
  }

  /** The part of a message that fills whole blocks. */
  function Whole(m: seq<byte>): (w: seq<byte>)
    ensures |w| % BLOCK == 0 && w <= m
  {
    m[..|m| - |m| % BLOCK]
  }

  function Rest(m: seq<byte>): (t: seq<byte>)
    ensures |t| < BLOCK && Whole(m) + t == m
  {
    m[|m| - |m| % BLOCK..]
  }

  /** A chunk that does not fill the block only lengthens the rest. */
  lemma FeedPart(m: seq<byte>, chunk: seq<byte>)
    requires |Rest(m)| + |chunk| < BLOCK
    ensures Whole(m + chunk) == Whole(m) && Rest(m + chunk) == Rest(m) + chunk
  {
    var all := m + chunk;
    assert |all| % BLOCK == |Rest(m)| + |chunk|;
    assert all == Whole(m) + (Rest(m) + chunk);
  }

  /** A chunk that exactly fills the block moves it to the whole part. */
  lemma FeedFull(m: seq<byte>, chunk: seq<byte>)
    requires |Rest(m)| + |chunk| == BLOCK
    ensures Whole(m + chunk) == Whole(m) + (Rest(m) + chunk) && Rest(m + chunk) == []
  {
    var all := m + chunk;
    assert |all| % BLOCK == 0;
    assert all == Whole(m) + (Rest(m) + chunk);
  }

  /** Padding splits into one last block, or two when the rest leaves no room for the length. */
  lemma PadBlocks(m: seq<byte>)
    ensures var t, len := Rest(m), LengthBytes(8 * |m| % TWO_WORDS);
      if |t| <= 55 then
        var last := t + [0x80] + Zeros(55 - |t|) + len;
        |last| == BLOCK && Pad(m) == Whole(m) + last
      else
        var first, last := t + [0x80] + Zeros(63 - |t|), Zeros(56) + len;
        |first| == |last| == BLOCK && Pad(m) == Whole(m) + first + last
  {
    hide LengthBytes;
    var t := Rest(m);
    assert |t| == |m| % BLOCK;
    if |t| <= 55 {
      assert (55 - |m|) % BLOCK == 55 - |t|;
    } else {
      assert (55 - |m|) % BLOCK == (63 - |t|) + 56;
      assert Zeros((63 - |t|) + 56) == Zeros(63 - |t|) + Zeros(56);
    }
  }

  /** Adding to a two-word counter with a carry out of the low word adds modulo 2^64. */
  lemma CarryAdds(hi: nat, lo: nat, k: nat)
    requires hi < WORD_LIMIT && lo < WORD_LIMIT && k < WORD_LIMIT
    ensures var lo' := (lo + k) % WORD_LIMIT;
      var hi' := if lo' < lo then (hi + 1) % WORD_LIMIT else hi;
      hi' * WORD_LIMIT + lo' == (hi * WORD_LIMIT + lo + k) % TWO_WORDS
  {
    var lo' := (lo + k) % WORD_LIMIT;
    if lo + k < WORD_LIMIT {
      assert lo' == lo + k;
    } else {
      assert lo' == lo + k - WORD_LIMIT;
    }
  }

  class Context {
    var state: Digest
    var curlen: nat
    const buf: array<byte>
    var lengthHi: nat
    var lengthLo: nat
    // Everything fed since the last initialisation.
    ghost var fed: seq<byte>

    ghost predicate Valid()
      reads this, buf
    {
      && buf.Length == BLOCK && Counted()
      && state == Absorb(Whole(fed)) && curlen == |Rest(fed)| && buf[..curlen] == Rest(fed)
    }

    /** The two length words count the bits of the whole blocks, modulo 2^64. */
    ghost predicate Counted()
      reads this
    {
      && lengthHi < WORD_LIMIT && lengthLo < WORD_LIMIT
      && lengthHi * WORD_LIMIT + lengthLo == 8 * |Whole(fed)| % TWO_WORDS
    }

    constructor ()
      ensures Valid() && fed == [] && fresh(buf)
    {
      state, curlen, lengthHi, lengthLo := INIT, 0, 0, 0;
      buf := new byte[BLOCK](_ => 0);
      fed := [];
    }

    method Init()
      requires buf.Length == BLOCK
      modifies this
      ensures Valid() && fed == []
    {
      state, curlen, lengthHi, lengthLo := INIT, 0, 0, 0;
      fed := [];
    }

    method Compress()
      requires buf.Length == BLOCK
      modifies this`state
      ensures state == Md5Compress.Compress(old(state), buf[..])
    {
      state := Md5Compress.Compress(state, buf[..]);
    }

    /** Adds to the two-word bit count. */
    method Count(bits: nat)
      requires lengthHi < WORD_LIMIT && lengthLo < WORD_LIMIT && bits < WORD_LIMIT
      modifies this`lengthHi, this`lengthLo
      ensures lengthHi < WORD_LIMIT && lengthLo < WORD_LIMIT
      ensures lengthHi * WORD_LIMIT + lengthLo == (old(lengthHi) * WORD_LIMIT + old(lengthLo) + bits) % TWO_WORDS
    {
      CarryAdds(lengthHi, lengthLo, bits);
      var n := (lengthLo + bits) % WORD_LIMIT;
      if n < lengthLo {
        lengthHi := (lengthHi + 1) % WORD_LIMIT;
      }
      lengthLo := n;
    }

    /** Feeds `len` bytes of `data`, in whatever pieces the block boundaries call for. */
    method Update(data: array<byte>, len: nat)
      requires Valid() && len <= data.Length && data != buf
      modifies this, buf
      ensures Valid() && fed == old(fed) + data[..len]
    {
      hide Absorb, Md5Compress.Compress, Whole, Rest;
      var off := 0;
      while off < len
        invariant Valid() && off <= len && data[..] == old(data[..]) && fed == old(fed) + data[..off]
      {
        var n := if len - off < BLOCK - curlen then len - off else BLOCK - curlen;
        Feed(data, off, n);
        assert data[..off + n] == data[..off] + data[off..off + n];
        off := off + n;
      }
    }

    /** Feeds a piece that does not run past the end of the current block. */
    method Feed(data: array<byte>, off: nat, n: nat)
      requires Valid() && data != buf && off + n <= data.Length && curlen + n <= BLOCK
      modifies this, buf
      ensures Valid() && fed == old(fed) + data[off..off + n]
    {
      hide Absorb, Md5Compress.Compress, Whole, Rest;
      ghost var chunk := data[off..off + n];
      Memcpy(buf, curlen, data, off, n);
      assert buf[..curlen + n] == Rest(fed) + chunk;
      curlen := curlen + n;
      if curlen == BLOCK {
        FeedFull(fed, chunk);
        AbsorbBlock(Whole(fed), Rest(fed) + chunk);
        assert buf[..] == buf[..BLOCK];
        Compress();
        Count(512);
        CountBlock(|Whole(fed)|);
        curlen := 0;
      } else {
        FeedPart(fed, chunk);
      }
      fed := fed + chunk;
    }

    lemma CountBlock(n: nat)
      ensures (8 * n % TWO_WORDS + 512) % TWO_WORDS == 8 * (n + BLOCK) % TWO_WORDS
    {
    }

    /** The digest of everything fed; the context is wiped. */
    method Final(hash: array<byte>)
      requires Valid() && hash.Length == 16 && hash != buf
      modifies this, buf, hash
      ensures hash[..] == Digested(old(fed))
      ensures buf[..] == Zeros(BLOCK) && state == Digest(0, 0, 0, 0) && curlen == lengthHi == lengthLo == 0
    {
      hide Absorb, Md5Compress.Compress, Encode;
      ghost var m := fed;
      Finish();
      var bytes := Encode(state);
      for i := 0 to 16
        invariant forall j :: 0 <= j < i ==> hash[j] == bytes[j]
      {
        hash[i] := bytes[i];
      }
      assert hash[..] == bytes;
      Memset(buf, 0, BLOCK);
      state, curlen, lengthHi, lengthLo := Digest(0, 0, 0, 0), 0, 0, 0;
      assert buf[..] == Zeros(BLOCK);
    }

    /** Pads what was fed and absorbs the last block or two. */
    method Finish()
      requires Valid()
      modifies this`state, this`curlen, this`lengthHi, this`lengthLo, buf
      ensures state == Absorb(Pad(fed))
    {
      hide Absorb, Md5Compress.Compress, Whole, Rest, LengthBytes, Zeros, Pad, WordBytes;
      ghost var t, w := Rest(fed), Whole(fed);
      PadBlocks(fed);
      Count(8 * curlen);
      CountRest(|w|, curlen, |fed|);
      LengthWords(lengthHi, lengthLo);
      ghost var len := WordBytes(lengthLo) + WordBytes(lengthHi);
      buf[curlen] := 0x80;
      curlen := curlen + 1;
      assert buf[..curlen] == t + [0x80];
      if curlen > 56 {
        w := Spill(w, t + [0x80]);
      }
      ghost var front := if |t| <= 55 then t + [0x80] + Zeros(55 - |t|) else Zeros(56);
      FillTo(56);
      assert buf[..56] == front;
      Close(w, front + len);
    }

    /** Absorbs a block that has no room left for the length. */
    method Spill(ghost done: seq<byte>, ghost front: seq<byte>) returns (ghost done': seq<byte>)
      requires buf.Length == BLOCK && curlen == |front| <= BLOCK && buf[..curlen] == front
      requires |done| % BLOCK == 0 && state == Absorb(done)
      modifies this`state, this`curlen, buf
      ensures curlen == 0 && done' == done + (front + Zeros(BLOCK - |front|)) && |done'| % BLOCK == 0
      ensures state == Absorb(done')
    {
      hide Absorb, Md5Compress.Compress, Zeros;
      FillTo(BLOCK);
      assert buf[..] == buf[..BLOCK];
      done' := done + buf[..];
      AbsorbBlock(done, buf[..]);
      Compress();
      curlen := 0;
    }

    /** Appends zero bytes up to position `end`. */
    method FillTo(end: nat)
      requires buf.Length == BLOCK && curlen <= end <= BLOCK
      modifies this`curlen, buf
      ensures curlen == end && buf[..end] == old(buf[..curlen]) + Zeros(end - old(curlen))
    {
      ghost var start, was := curlen, buf[..curlen];
      while curlen < end
        invariant start <= curlen <= end
        invariant forall j :: 0 <= j < start ==> buf[j] == was[j]
        invariant forall j :: start <= j < curlen ==> buf[j] == 0
      {
        buf[curlen] := 0;
        curlen := curlen + 1;
      }
    }

    /** Stores the length behind the padding and absorbs the last block. */
    method Close(ghost done: seq<byte>, ghost block: seq<byte>)
      requires buf.Length == BLOCK && lengthHi < WORD_LIMIT && lengthLo < WORD_LIMIT && |done| % BLOCK == 0
      requires block == buf[..56] + (WordBytes(lengthLo) + WordBytes(lengthHi)) && state == Absorb(done)
      modifies this`state, buf
      ensures |done + block| % BLOCK == 0 && state == Absorb(done + block)
    {
      hide Absorb, Md5Compress.Compress, Word;
      var low, high := WordBytes(lengthLo), WordBytes(lengthHi);
      hide WordBytes;
      for i := 0 to 4
        invariant buf[..56] == old(buf[..56]) && state == old(state)
        invariant forall j :: 0 <= j < i ==> buf[56 + j] == low[j]
        invariant forall j :: 0 <= j < i ==> buf[60 + j] == high[j]
      {
        buf[56 + i] := low[i];
        buf[60 + i] := high[i];
      }
      assert buf[56..60] == low && buf[60..] == high;
      assert buf[..] == buf[..56] + (buf[56..60] + buf[60..]);
      assert buf[..] == block;
      AbsorbBlock(done, block);
      Compress();
    }

    lemma LengthWords(hi: nat, lo: nat)
      requires hi < WORD_LIMIT && lo < WORD_LIMIT
      ensures hi * WORD_LIMIT + lo < TWO_WORDS && LengthBytes(hi * WORD_LIMIT + lo) == WordBytes(lo) + WordBytes(hi)
    {
      hide WordBytes;
      SplitWords(hi, lo);
    }

    lemma SplitWords(hi: nat, lo: nat)
      requires hi < WORD_LIMIT && lo < WORD_LIMIT
      ensures (hi * WORD_LIMIT + lo) % WORD_LIMIT == lo && (hi * WORD_LIMIT + lo) / WORD_LIMIT == hi
    {
    }

    lemma CountRest(whole: nat, rest: nat, all: nat)
      requires all == whole + rest
      ensures (8 * whole % TWO_WORDS + 8 * rest) % TWO_WORDS == 8 * all % TWO_WORDS
    {
    }
  }
}
