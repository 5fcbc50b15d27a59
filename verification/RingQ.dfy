/** The ring queue: a byte deque in a buffer that wraps around and grows. */
module RingQ {
  import opened Bytes
  import opened Memory
  import opened Power

  // Blocks the allocator likes best are powers of two from this size on.
  const BLOCK: nat := 16

  /** Smallest power of two, at least 16, that exceeds `size`. */
  method GetBinBlockSize(size: nat) returns (block: nat)
    ensures block == BinBlock(size)
  {
    var n: nat := size / 16;
    var q: nat := 0;
    while n != 0
      invariant Bits(size / 16) == q + Bits(n)
    {
      n := n / 2;
      q := q + 1;
    }
    block := BLOCK * Pow2(q);
  }

  function BinBlock(size: nat): (block: nat) {
    BLOCK * Pow2(Bits(size / 16))
  }

  /** The block is big enough, and at most twice what was asked for unless it is the smallest. */
  lemma BinBlockFits(size: nat)
    ensures size < BinBlock(size) && (BinBlock(size) == BLOCK || BinBlock(size) <= 2 * size)
  {
    BitsBracket(size / 16);
  }

  /** Asking for twice a block that is already a power of two yields four times that block. */
  lemma IncrementQuadruples(k: nat)
    ensures BinBlock(2 * (BLOCK * Pow2(k))) == 4 * (BLOCK * Pow2(k)) == BLOCK * Pow2(k + 2)
  {
    assert 2 * (BLOCK * Pow2(k)) / 16 == Pow2(k + 1);
    BitsOfPow2(k + 1);
    assert Pow2(k + 2) == 4 * Pow2(k);
  }

  /** The bytes from `s` up to `e` of a circular buffer. */
  function Window(data: seq<byte>, s: nat, e: nat): (w: seq<byte>)
    requires s < |data| && e < |data|
    ensures |w| == if s <= e then e - s else |data| + e - s
    ensures |w| < |data|
    ensures forall i :: 0 <= i < |w| ==> w[i] == data[Slot(|data|, s + i)]
  {
    if s <= e then data[s..e] else data[s..] + data[..e]
  }

  /** A position counted on past the end of a buffer of `n` bytes. */
  function Slot(n: nat, p: nat): (q: nat)
    requires p < 2 * n
    ensures q < n
  {
    if p < n then p else p - n
  }

  /** A block stored at the end, with a slot to spare, is appended. */
  lemma WindowPush(data: seq<byte>, s: nat, e: nat, bs: seq<byte>)
    requires s < |data| && e < |data| && e + |bs| <= |data| && |Window(data, s, e)| + |bs| < |data|
    ensures Window(Blit(data, e, bs), s, Slot(|data|, e + |bs|)) == Window(data, s, e) + bs
  {
    hide Blit, Window;
    var w, w' := Window(data, s, e), Window(Blit(data, e, bs), s, Slot(|data|, e + |bs|));
    forall i | 0 <= i < |w'| ensures w'[i] == (w + bs)[i] {
    }
  }

  /** A byte stored before the front, with a slot to spare, is prepended. */
  lemma WindowUnshift(data: seq<byte>, s: nat, e: nat, c: byte)
    requires s < |data| && e < |data| && |Window(data, s, e)| + 1 < |data|
    ensures var s' := if s == 0 then |data| - 1 else s - 1;
      Window(data[s' := c], s', e) == [c] + Window(data, s, e)
  {
    hide Window;
    var s' := if s == 0 then |data| - 1 else s - 1;
    var w, w' := Window(data, s, e), Window(data[s' := c], s', e);
    forall i | 0 <= i < |w'| ensures w'[i] == ([c] + w)[i] {
    }
  }

  /** Moving the front drops bytes from it. */
  lemma WindowDrop(data: seq<byte>, s: nat, e: nat, n: nat)
    requires s < |data| && e < |data| && n <= |Window(data, s, e)|
    ensures Window(data, Slot(|data|, s + n), e) == Window(data, s, e)[n..]
    ensures s + n <= |data| ==> data[s..s + n] == Window(data, s, e)[..n]
  {
    hide Window;
    var w, w' := Window(data, s, e), Window(data, Slot(|data|, s + n), e);
    forall i | 0 <= i < |w'| ensures w'[i] == w[n..][i] {
      assert w[n..][i] == w[n + i];
    }
  }

  lemma WindowLength(data: seq<byte>, s: nat, n: nat)
    requires s < |data| && n < |data|
    ensures |Window(data, s, Slot(|data|, s + n))| == n
  {
  }

  /** A stretch of the circle is the two parts it falls into. */
  lemma WindowSplit(data: seq<byte>, s: nat, m: nat, e: nat)
    requires s < |data| && m < |data| && e < |data|
    requires |Window(data, s, m)| + |Window(data, m, e)| < |data|
    ensures Window(data, s, e) == Window(data, s, m) + Window(data, m, e)
  {
    hide Window;
    var w, a, b := Window(data, s, e), Window(data, s, m), Window(data, m, e);
    forall i | 0 <= i < |w| ensures |w| == |a| + |b| && w[i] == (a + b)[i] {
    }
  }

  class RingQ {
    var buf: array<byte>
    var servp: nat
    var endp: nat
    var increment: nat
    const maxsize: int
    // The increment is always a power of two.
    ghost var order: nat

    ghost predicate Valid()
      reads this
    {
      servp < buf.Length && endp < buf.Length && BLOCK <= buf.Length && increment == BLOCK * Pow2(order)
    }

    /** The bytes waiting in the queue, first out first. */
    ghost function Contents(): (s: seq<byte>)
      reads this, buf
      requires Valid()
      ensures |s| < buf.Length
    {
      Window(buf[..], servp, endp)
    }

    constructor (initSize: nat, maxsize: int)
      ensures Valid() && Contents() == [] && fresh(buf) && this.maxsize == maxsize
      ensures buf.Length == BinBlock(initSize) && increment == buf.Length
    {
      var size := GetBinBlockSize(initSize);
      BinBlockFits(initSize);
      buf := new byte[size](_ => 0);
      servp, endp, increment := 0, 0, size;
      order := Bits(initSize / 16);
      this.maxsize := maxsize;
    }

    method Len() returns (n: nat)
      requires Valid()
      ensures n == |Contents()|
    {
      n := if servp > endp then buf.Length + endp - servp else endp - servp;
    }

    /** Bytes that can be added in one straight copy; none exactly when a single slot is left empty. */
    method PutBlkMax() returns (n: nat)
      requires Valid()
      ensures n == Room()
    {
      var len := Len();
      var space := buf.Length - len - 1;
      var inALine := buf.Length - endp;
      n := if inALine < space then inALine else space;
    }

    ghost function Room(): (n: nat)
      reads this, buf
      requires Valid()
      ensures n == 0 <==> |Contents()| == buf.Length - 1
      ensures endp + n <= buf.Length && |Contents()| + n < buf.Length
    {
      var space := buf.Length - |Contents()| - 1;
      if buf.Length - endp < space then buf.Length - endp else space
    }

    /** Bytes that can be taken in one straight copy; none exactly when the queue is empty. */
    method GetBlkMax() returns (n: nat)
      requires Valid()
      ensures n <= |Contents()| && servp + n <= buf.Length && buf[servp..servp + n] == Contents()[..n]
      ensures n == 0 <==> Contents() == []
    {
      var len := Len();
      var inALine := buf.Length - servp;
      n := if inALine < len then inALine else len;
    }

    method Flush()
      requires Valid()
      modifies this`servp, this`endp, buf
      ensures Valid() && Contents() == []
    {
      servp, endp := 0, 0;
      buf[0] := 0;
    }

    /**
     The adjustment made after a caller has copied `size` bytes in at `endp`
     itself. More than there is room for costs what was waiting.
     */
    method PutBlkAdj(size: nat)
      requires Valid() && size < buf.Length
      modifies this`endp
      ensures Valid() && endp == Slot(buf.Length, old(endp) + size)
      ensures var put := Window(buf[..], old(endp), endp); var n := |old(Contents())|;
        |put| == size && Contents() == if n + size < buf.Length then old(Contents()) + put else put[buf.Length - n..]
    {
      hide Window;
      ghost var data, e := buf[..], endp;
      WindowLength(data, e, size);
      endp := endp + size;
      if endp >= buf.Length {
        endp := endp - buf.Length;
      }
      if |Window(data, servp, e)| + size < |data| {
        WindowSplit(data, servp, e, endp);
      } else {
        WindowSplit(data, e, servp, endp);
      }
    }

    /**
     The adjustment made after a caller has copied `size` bytes out at `servp`
     itself. More than is waiting brings back bytes long gone.
     */
    method GetBlkAdj(size: nat)
      requires Valid() && 0 < size < buf.Length
      modifies this`servp
      ensures Valid()
      ensures size <= |old(Contents())| ==> Contents() == old(Contents())[size..]
      ensures |old(Contents())| < size ==> Contents() == Window(buf[..], servp, old(servp)) + old(Contents())
    {
      hide Window;
      ghost var data, s := buf[..], servp;
      servp := servp + size;
      if servp >= buf.Length {
        servp := servp - buf.Length;
      }
      if size <= |Window(data, s, endp)| {
        WindowDrop(data, s, endp, size);
      } else {
        WindowSplit(data, servp, s, endp);
      }
    }

    /** A byte is taken from the front, or -1 reported on an empty queue. */
    method Getc() returns (c: int)
      requires Valid()
      modifies this`servp
      ensures Valid()
      ensures if old(Contents()) == [] then c == -1 && Contents() == []
              else c == old(Contents())[0] as int && Contents() == old(Contents())[1..]
    {
      if servp == endp {
        return -1;
      }
      WindowDrop(buf[..], servp, endp, 1);
      c := buf[servp];
      servp := servp + 1;
      if servp >= buf.Length {
        servp := 0;
      }
    }

    /** Makes room for one more byte, growing a full queue unless it has reached its limit. */
    method Provide() returns (ok: bool)
      requires Valid()
      modifies this
      ensures Valid() && (buf == old(buf) || fresh(buf)) && Contents() == old(Contents())
      ensures ok == !old(Room() == 0 && AtLimit())
      ensures ok ==> Room() > 0
    {
      ok := true;
      var room := PutBlkMax();
      if room < 1 {
        ok := Grow();
      }
    }

    /** Appended, or refused only by a full queue that may not grow. */
    method Putc(c: byte) returns (rc: int)
      requires Valid()
      modifies this, buf
      ensures Valid() && (buf == old(buf) || fresh(buf))
      ensures rc == if old(Room() == 0 && AtLimit()) then -1 else 0
      ensures Contents() == if rc == 0 then old(Contents()) + [c] else old(Contents())
    {
      var ok := Provide();
      if !ok {
        return -1;
      }
      WindowPush(buf[..], servp, endp, [c]);
      assert Blit(buf[..], endp, [c]) == buf[..][endp := c];
      buf[endp] := c;
      endp := endp + 1;
      if endp >= buf.Length {
        endp := 0;
      }
      rc := 0;
    }

    /** Prepended, or refused only by a full queue that may not grow. */
    method Insertc(c: byte) returns (rc: int)
      requires Valid()
      modifies this, buf
      ensures Valid() && (buf == old(buf) || fresh(buf))
      ensures rc == if old(Room() == 0 && AtLimit()) then -1 else 0
      ensures Contents() == if rc == 0 then [c] + old(Contents()) else old(Contents())
    {
      var ok := Provide();
      if !ok {
        return -1;
      }
      WindowUnshift(buf[..], servp, endp, c);
      if servp <= 0 {
        servp := buf.Length;
      }
      servp := servp - 1;
      buf[servp] := c;
      rc := 0;
    }

    predicate AtLimit()
      reads this
    {
      maxsize >= 0 && buf.Length >= maxsize
    }

    /** Terminates the data for C string use in the slot that always stays empty. */
    method AddNull()
      requires Valid()
      modifies buf
      ensures Valid() && Contents() == old(Contents()) && buf[endp] == 0
    {
      buf[endp] := 0;
    }

    /** A straight copy of `n` bytes of `src` to the end pointer, which the caller has checked fits. */
    method CopyToEnd(src: array<byte>, off: nat, n: nat)
      requires Valid() && n <= Room() && off + n <= src.Length && (src == buf ==> off == endp)
      modifies this`endp, buf
      ensures Valid() && Contents() == old(Contents()) + old(src[off..off + n])
      ensures endp == Slot(buf.Length, old(endp) + n)
      ensures src[..] == old(src[..])
    {
      ghost var data, e, bs := buf[..], endp, src[off..off + n];
      WindowPush(data, servp, e, bs);
      assert src == buf ==> Blit(data, e, bs) == data;
      Memcpy(buf, endp, src, off, n);
      endp := endp + n;
      if endp >= buf.Length {
        endp := 0;
      }
    }

    ghost function Space(): (n: nat)
      reads this, buf
      requires Valid()
      ensures n == 0 <==> Room() == 0
    {
      buf.Length - 1 - |Contents()|
    }

    /**
     Appends as much of `src` as fits, growing as needed; short only when a full
     queue has reached its limit. `src` may be the queue's own fresh buffer, as
     growth needs: then the bytes are copied onto themselves.
     */
    method PutBlk(src: array<byte>, off: nat, size: nat) returns (bytesPut: nat)
      requires Valid() && off + size <= src.Length
      requires src == buf ==> servp == endp == off == 0 && size < buf.Length
      modifies this, buf
      ensures Valid() && (buf == old(buf) || fresh(buf))
      ensures bytesPut <= size && Contents() == old(Contents()) + old(src[off..off + bytesPut])
      ensures bytesPut < size ==> AtLimit() && Space() == 0
      ensures size <= old(Space()) ==> buf == old(buf) && increment == old(increment) && order == old(order)
      decreases if size <= Space() then 0 else 2, 1
    {
      hide Window, Pow2;
      ghost var was, before := src[..], Contents();
      bytesPut := 0;
      while bytesPut < size
        invariant Valid() && (buf == old(buf) || fresh(buf)) && bytesPut <= size && src[..] == was
        invariant Contents() == before + was[off..off + bytesPut]
        invariant src == old(buf) ==> buf == src && servp == 0 && endp == bytesPut
        invariant size <= old(Space()) ==>
                    buf == old(buf) && increment == old(increment) && order == old(order) && size - bytesPut <= Space()
        decreases size - bytesPut
      {
        var n := PutRun(src, off + bytesPut, size - bytesPut);
        if n == 0 {
          break;
        }
        Rejoin(before, was, off, bytesPut, n);
        bytesPut := bytesPut + n;
      }
    }

    /** One straight copy to the end, growing a full queue first; nothing only when that is refused. */
    method PutRun(src: array<byte>, off: nat, want: nat) returns (n: nat)
      requires Valid() && off + want <= src.Length && 0 < want
      requires src == buf ==> servp == 0 && endp == off && off + want < buf.Length
      modifies this, buf
      ensures Valid() && (buf == old(buf) || fresh(buf)) && n <= want && src[..] == old(src[..])
      ensures Contents() == old(Contents()) + old(src[off..off + n])
      ensures n == 0 ==> AtLimit() && Space() == 0
      ensures src == old(buf) ==> buf == src && servp == 0 && endp == off + n
      ensures want <= old(Space()) ==> buf == old(buf) && increment == old(increment) && order == old(order)
      ensures want <= old(Space()) ==> want - n <= Space() && 0 < n
      decreases if want <= Space() then 0 else 2, 0
    {
      hide Window, Pow2;
      n := PutBlkMax();
      if n <= 0 {
        var grown := Grow();
        if !grown {
          return;
        }
        n := PutBlkMax();
      }
      if want < n {
        n := want;
      }
      CopyToEnd(src, off, n);
    }

    /** Takes up to `size` bytes from the front into `dst`. */
    method GetBlk(dst: array<byte>, size: nat) returns (bytesRead: nat)
      requires Valid() && size <= dst.Length && dst != buf
      modifies this`servp, dst
      ensures Valid()
      ensures bytesRead == if size <= |old(Contents())| then size else |old(Contents())|
      ensures dst[..] == Blit(old(dst[..]), 0, old(Contents())[..bytesRead])
      ensures Contents() == old(Contents())[bytesRead..]
    {
      hide Window, Blit;
      ghost var before, was := Contents(), dst[..];
      bytesRead := 0;
      var left := size;
      BlitNone(was);
      assert before[..0] == [];
      while left > 0
        invariant Valid() && bytesRead + left == size && bytesRead <= |before|
        invariant dst[..] == Blit(was, 0, before[..bytesRead])
        invariant Contents() == before[bytesRead..]
      {
        var n := TakeRun(dst, bytesRead, left);
        if n <= 0 {
          break;
        }
        BlitTwice(was, before, bytesRead, n);
        left := left - n;
        bytesRead := bytesRead + n;
      }
    }

    /** One straight copy out of the front, as long as the buffer's end and the caller's wish allow. */
    method TakeRun(dst: array<byte>, off: nat, want: nat) returns (n: nat)
      requires Valid() && dst != buf && off + want <= dst.Length && 0 < want
      modifies this`servp, dst
      ensures Valid() && n <= want && n <= |old(Contents())| && (n == 0 <==> old(Contents()) == [])
      ensures dst[..] == Blit(old(dst[..]), off, old(Contents())[..n])
      ensures Contents() == old(Contents())[n..]
    {
      hide Window, Blit;
      n := GetBlkMax();
      if want < n {
        n := want;
      }
      if n == 0 {
        BlitNone(dst[..]);
        return;
      }
      WindowDrop(buf[..], servp, endp, n);
      assert buf[servp..servp + n] == buf[..][servp..servp + n];
      Memcpy(dst, off, buf, servp, n);
      GetBlkAdj(n);
    }

    /** Moves the contents into a larger buffer, unless the queue has reached its limit. */
    method Grow() returns (grown: bool)
      requires Valid()
      modifies this
      ensures Valid() && Contents() == old(Contents()) && grown == !old(AtLimit())
      ensures grown ==> fresh(buf) && buf.Length == old(buf.Length + increment) && increment == 4 * old(increment)
      ensures !grown ==> buf == old(buf) && servp == old(servp) && endp == old(endp) && increment == old(increment)
      decreases 1, 1
    {
      hide Pow2, BinBlock, Window;
      if maxsize >= 0 && buf.Length >= maxsize {
        return false;
      }
      var newbuf := new byte[buf.Length + increment](_ => 0);
      MoveTo(newbuf);
      IncrementQuadruples(order);
      increment := GetBinBlockSize(2 * increment);
      order := order + 2;
      grown := true;
    }

    /** Takes the contents out into a larger buffer, and then appends them there where they already are. */
    method MoveTo(newbuf: array<byte>)
      requires Valid() && newbuf != buf && buf.Length < newbuf.Length
      modifies this, newbuf
      ensures Valid() && buf == newbuf && Contents() == old(Contents())
      ensures increment == old(increment) && order == old(order)
      decreases 1, 0
    {
      hide Pow2, Window, Blit;
      ghost var was := Contents();
      var len := Len();
      var n := GetBlk(newbuf, len);
      BlitPrefix(newbuf.Length, was);
      EmptyWindow(newbuf[..]);
      buf, servp, endp := newbuf, 0, 0;
      n := PutBlk(newbuf, 0, len);
    }
  }

  lemma BlitPrefix(n: nat, bs: seq<byte>)
    requires |bs| <= n
    ensures forall mem: seq<byte> :: |mem| == n ==> Blit(mem, 0, bs)[..|bs|] == bs
    ensures bs[..|bs|] == bs
  {
  }

  lemma EmptyWindow(data: seq<byte>)
    ensures |data| > 0 ==> Window(data, 0, 0) == []
  {
  }

  lemma BlitNone(mem: seq<byte>)
    ensures Blit(mem, 0, []) == mem
  {
  }

  lemma BlitTwice(mem: seq<byte>, all: seq<byte>, n: nat, m: nat)
    requires n + m <= |all| && n + m <= |mem|
    ensures Blit(Blit(mem, 0, all[..n]), n, all[n..][..m]) == Blit(mem, 0, all[..n + m])
  {
    assert all[..n + m] == all[..n] + all[n..][..m];
  }

  lemma Rejoin(before: seq<byte>, was: seq<byte>, off: nat, n: nat, m: nat)
    requires off + n + m <= |was|
    ensures before + was[off..off + n] + was[off + n..off + n + m] == before + was[off..off + n + m]
  {
    assert was[off..off + n + m] == was[off..off + n] + was[off + n..off + n + m];
  }
}
