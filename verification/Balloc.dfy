/**
 The size-class block allocator: one arena cut into blocks from its front, one
 queue of free blocks per class threaded through the block headers, and the
 system allocator behind it.
 */
module Balloc {
  import opened Bytes
  import opened Power

  const MAX_CLASS: nat := 13
  const UNIT: nat := 16

  const INTEGRITY: bv32 := 0x0812_4000
  const INTEGRITY_MASK: bv32 := 0x0FFF_F000
  const MALLOCED: bv32 := 0x8000_0000
  const FILL_WORD: bv32 := 0x7777_7777

  datatype Link = Null | At(pos: nat)

  /** The word that holds the size of a block in use and the next block of a free one. */
  datatype Word = Size(size: nat) | Next(next: Link)

  datatype Header = Header(u: Word, flags: bv32)

  /** A pointer to user data, by the header it follows. */
  datatype Ptr = NullPtr | InArena(pos: nat) | FromSystem(id: nat)

  predicate Intact(h: Header) {
    h.flags & INTEGRITY_MASK == INTEGRITY
  }

  // --- Size classes ---

  function Class(size: nat): nat {
    Bits(if size == 0 then 0 else (size - 1) / UNIT)
  }

  function Capacity(q: nat): (c: nat)
    ensures c >= UNIT
  {
    UNIT * Pow2(q)
  }

  /** The class is the smallest whose blocks hold `size` bytes. */
  lemma ClassFits(size: nat)
    ensures size <= Capacity(Class(size))
    ensures Class(size) > 0 ==> Capacity(Class(size) - 1) < size
  {
    if size > 0 {
      BitsBracket((size - 1) / UNIT);
    }
  }

  /** A block's own capacity leads back to the class it came from. */
  lemma ClassReturns(q: nat)
    ensures Class(Capacity(q)) == q
  {
    if q > 0 {
      BitsBelowPow2(q);
      assert (Capacity(q) - 1) / UNIT == Pow2(q) - 1;
    }
  }

  lemma {:induction false} BitsBelowPow2(q: nat)
    ensures Bits(Pow2(q) - 1) == q
  {
    if q > 0 {
      BitsBelowPow2(q - 1);
      assert (Pow2(q) - 1) / 2 == Pow2(q - 1) - 1;
    }
  }

  method GetSize(header: nat, size: nat) returns (memSize: nat, q: nat)
    ensures q == Class(size) && memSize == header + Capacity(q)
  {
    var mask: nat := if size == 0 then 0 else (size - 1) / UNIT;
    q := 0;
    while mask != 0
      invariant Class(size) == q + Bits(mask)
    {
      mask := mask / 2;
      q := q + 1;
    }
    memSize := UNIT * Pow2(q) + header;
  }

  // --- Structure ---

  /** Blocks at the positions `order`, of the classes `kind`, cover the arena from 0 to `end` without gap or overlap. */
  ghost predicate Tiled(header: nat, kind: map<nat, nat>, order: seq<nat>, end: nat) {
    && (forall p :: p in kind <==> p in order)
    && StartOf(order, end, 0) == 0
    && forall i :: 0 <= i < |order| ==> Abuts(header, kind, order, end, i)
  }

  /** Block `i` ends exactly where the next one, or the untouched part, begins. */
  ghost predicate Abuts(header: nat, kind: map<nat, nat>, order: seq<nat>, end: nat, i: nat)
    requires i < |order|
  {
    order[i] in kind && order[i] + header + Capacity(kind[order[i]]) == StartOf(order, end, i + 1)
  }

  /** Where block `i` starts, or the end of the tiled part past the last block. */
  ghost function StartOf(order: seq<nat>, end: nat, i: nat): nat {
    if i < |order| then order[i] else end
  }

  /** From `head`, the links stored in free headers run through exactly `list` and then stop. */
  ghost predicate Chain(headers: map<nat, Header>, head: Link, list: seq<nat>)
    decreases |list|
  {
    if list == [] then head == Null
    else
      && head == At(list[0]) && list[0] in headers && headers[list[0]].u.Next?
      && Chain(headers, headers[list[0]].u.next, list[1..])
  }

  ghost predicate NoRepeats(list: seq<nat>) {
    forall i, j :: 0 <= i < j < |list| ==> list[i] != list[j]
  }

  /** A free queue: an acyclic chain of distinct blocks of class `q`, all marked free. */
  ghost predicate Queue(headers: map<nat, Header>, kind: map<nat, nat>, q: nat, head: Link, list: seq<nat>) {
    && Chain(headers, head, list) && NoRepeats(list)
    && forall p :: p in list ==> p in kind && kind[p] == q && p in headers && headers[p].flags == FILL_WORD
  }

  lemma {:induction false} ChainFrame(headers: map<nat, Header>, headers': map<nat, Header>, head: Link, list: seq<nat>)
    requires Chain(headers, head, list)
    requires forall p :: p in list && p in headers ==> p in headers' && headers'[p] == headers[p]
    ensures Chain(headers', head, list)
    decreases |list|
  {
    if list != [] {
      ChainFrame(headers, headers', headers[list[0]].u.next, list[1..]);
    }
  }

  /** Blocks follow each other: an earlier one ends before a later one begins. */
  lemma {:induction false} TilesRise(header: nat, kind: map<nat, nat>, order: seq<nat>, end: nat, i: nat, j: nat)
    requires Tiled(header, kind, order, end) && i < j < |order|
    ensures order[i] in kind && order[i] + header + Capacity(kind[order[i]]) <= order[j]
    decreases j
  {
    hide Capacity;
    assert Abuts(header, kind, order, end, i) && Abuts(header, kind, order, end, j - 1);
    if i + 1 < j {
      TilesRise(header, kind, order, end, i, j - 1);
    }
  }

  /** Every block ends within the tiled part. */
  lemma TileInside(header: nat, kind: map<nat, nat>, order: seq<nat>, end: nat, p: nat)
    requires Tiled(header, kind, order, end) && p in kind
    ensures p + header + Capacity(kind[p]) <= end
  {
    var i :| 0 <= i < |order| && order[i] == p;
    var last := |order| - 1;
    if i < last {
      TilesRise(header, kind, order, end, i, last);
    }
    assert Abuts(header, kind, order, end, last);
  }

  /** Distinct blocks never overlap. */
  lemma TilesApart(header: nat, kind: map<nat, nat>, order: seq<nat>, end: nat, p: nat, r: nat)
    requires Tiled(header, kind, order, end) && p in kind && r in kind && p != r
    ensures Disjoint(p, header + Capacity(kind[p]), r, header + Capacity(kind[r]))
  {
    var i :| 0 <= i < |order| && order[i] == p;
    var j :| 0 <= j < |order| && order[j] == r;
    if i < j {
      TilesRise(header, kind, order, end, i, j);
    } else {
      TilesRise(header, kind, order, end, j, i);
    }
  }

  /** Bytes taken by the first `n` blocks, headers included. */
  ghost function SizeSum(header: nat, kind: map<nat, nat>, order: seq<nat>, n: nat): nat
    requires n <= |order| && forall p :: p in order ==> p in kind
  {
    if n == 0 then 0 else SizeSum(header, kind, order, n - 1) + header + Capacity(kind[order[n - 1]])
  }

  /** The sizes of all blocks, free and in use, add up to the part of the arena handed out so far. */
  lemma {:induction false} SizesSum(header: nat, kind: map<nat, nat>, order: seq<nat>, end: nat, n: nat)
    requires Tiled(header, kind, order, end) && n <= |order|
    ensures SizeSum(header, kind, order, n) == StartOf(order, end, n)
    decreases n
  {
    hide Capacity;
    if n > 0 {
      SizesSum(header, kind, order, end, n - 1);
      assert Abuts(header, kind, order, end, n - 1);
    }
  }

  // --- The allocator's state ---

  /**
   Everything the allocator keeps: headers by position, queue heads, the untouched
   part, blocks obtained from the system, the user bytes of every block, and, for
   the proofs, the class of each block, their order, and the queues as lists.
   */
  datatype Cells = Cells(
    headers: map<nat, Header>, heads: seq<Link>, freeNext: nat, freeLeft: nat,
    system: map<nat, Header>, nextId: nat, data: map<Ptr, seq<byte>>,
    kind: map<nat, nat>, order: seq<nat>, queues: seq<seq<nat>>)

  datatype Config = Config(header: nat, size: nat, useMalloc: bool)

  ghost predicate Structure(k: Config, c: Cells) {
    && Tiled(k.header, c.kind, c.order, c.freeNext) && c.freeNext + c.freeLeft == k.size
    && c.headers.Keys == c.kind.Keys
    && |c.heads| == |c.queues| == MAX_CLASS
    && (forall p :: p in c.kind ==> c.kind[p] < MAX_CLASS)
    && forall q :: 0 <= q < MAX_CLASS ==> Queue(c.headers, c.kind, q, c.heads[q], c.queues[q])
  }

  /** A block is either in use, with its capacity in its header, or in the queue of its class. */
  ghost predicate Marked(c: Cells, p: nat)
    requires p in c.kind && p in c.headers && c.kind[p] < |c.queues|
  {
    || (c.headers[p] == Header(Size(Capacity(c.kind[p])), INTEGRITY) && p !in c.queues[c.kind[p]])
    || (c.headers[p].flags == FILL_WORD && p in c.queues[c.kind[p]])
  }

  /** Every block has its user bytes, and blocks from the system are marked as such. */
  ghost predicate Backing(kind: map<nat, nat>, system: map<nat, Header>, nextId: nat, data: map<Ptr, seq<byte>>) {
    && (forall id :: id in system ==> id < nextId && system[id].u.Size? && system[id].flags == MALLOCED | INTEGRITY)
    && (forall ptr :: ptr in data <==>
          (ptr.InArena? && ptr.pos in kind) || (ptr.FromSystem? && ptr.id in system))
    && (forall p :: p in kind ==> |data[InArena(p)]| == Capacity(kind[p]))
    && (forall id :: id in system ==> |data[FromSystem(id)]| == system[id].u.size)
  }

  ghost predicate Marks(c: Cells)
    requires c.headers.Keys == c.kind.Keys && forall p :: p in c.kind ==> c.kind[p] < |c.queues|
  {
    forall p {:trigger Marked(c, p)} :: p in c.kind ==> Marked(c, p)
  }

  ghost predicate Valid(k: Config, c: Cells) {
    Structure(k, c) && Backing(c.kind, c.system, c.nextId, c.data) && Marks(c)
  }

  /** The pointer was handed out and not yet given back. */
  ghost predicate Live(c: Cells, ptr: Ptr) {
    ptr in c.data && (ptr.InArena? ==> ptr.pos in c.headers && c.headers[ptr.pos].flags == INTEGRITY)
  }

  /** A granted pointer was in no one's hands, has room enough, and costs nobody else a byte. */
  ghost predicate Granted(c: Cells, c': Cells, ptr: Ptr, wanted: nat) {
    && ptr != NullPtr && !Live(c, ptr) && Live(c', ptr) && wanted <= |c'.data[ptr]|
    && forall other :: other != ptr ==>
         (Live(c', other) <==> Live(c, other)) && (Live(c, other) ==> c'.data[other] == c.data[other])
  }

  /** A returned pointer is no longer live; every other live pointer keeps its bytes. */
  ghost predicate Returned(c: Cells, c': Cells, ptr: Ptr) {
    && Live(c, ptr) && !Live(c', ptr)
    && forall other :: other != ptr ==>
         (Live(c', other) <==> Live(c, other)) && (Live(c, other) ==> c'.data[other] == c.data[other])
  }

  // --- Steps ---

  predicate Poppable(c: Cells, q: nat) {
    && q < |c.heads| == |c.queues| && c.heads[q].At? && c.heads[q].pos in c.headers
    && c.headers[c.heads[q].pos].u.Next? && c.queues[q] != []
  }

  /** The first block of queue `q` goes into use. */
  function PopStep(c: Cells, q: nat): Cells
    requires Poppable(c, q)
  {
    var p := c.heads[q].pos;
    c.(heads := c.heads[q := c.headers[p].u.next], headers := c.headers[p := Header(Size(Capacity(q)), INTEGRITY)],
       queues := c.queues[q := c.queues[q][1..]])
  }

  /** A block of class `q` is cut off the untouched part. */
  function CarveStep(k: Config, c: Cells, q: nat): Cells
    requires k.header + Capacity(q) <= c.freeLeft
  {
    var p := c.freeNext;
    var memSize := k.header + Capacity(q);
    c.(freeNext := p + memSize, freeLeft := c.freeLeft - memSize,
       headers := c.headers[p := Header(Size(Capacity(q)), INTEGRITY)],
       data := c.data[InArena(p) := Zeros(Capacity(q))], kind := c.kind[p := q], order := c.order + [p])
  }

  function MallocStep(c: Cells, capacity: nat): Cells {
    c.(system := c.system[c.nextId := Header(Size(capacity), MALLOCED | INTEGRITY)], nextId := c.nextId + 1,
       data := c.data[FromSystem(c.nextId) := Zeros(capacity)])
  }

  /** A block of class `q` is put at the head of its queue. */
  function PushStep(c: Cells, p: nat, q: nat): Cells
    requires q < |c.heads| == |c.queues|
  {
    c.(heads := c.heads[q := At(p)], headers := c.headers[p := Header(Next(c.heads[q]), FILL_WORD)],
       queues := c.queues[q := [p] + c.queues[q]])
  }

  function UnmallocStep(c: Cells, id: nat): Cells {
    c.(system := c.system - {id}, data := c.data - {FromSystem(id)})
  }

  /** Queues not concerned by a change of header survive it. */
  lemma QueueFrame(c: Cells, headers': map<nat, Header>, q: nat, head: Link, list: seq<nat>, p: nat, h: Header)
    requires Queue(c.headers, c.kind, q, head, list) && headers' == c.headers[p := h] && p !in list
    ensures Queue(headers', c.kind, q, head, list)
  {
    ChainFrame(c.headers, headers', head, list);
  }

  /** The front of a queue that is not empty, and the queue behind it. */
  lemma QueueFront(k: Config, c: Cells, q: nat)
    requires Structure(k, c) && q < MAX_CLASS && c.heads[q] != Null
    ensures c.queues[q] != [] && c.heads[q] == At(c.queues[q][0]) && c.heads[q].pos in c.headers
    ensures c.heads[q].pos in c.kind && c.kind[c.heads[q].pos] == q && c.headers[c.heads[q].pos].flags == FILL_WORD
    ensures c.headers[c.heads[q].pos].u.Next? && c.heads[q].pos !in c.queues[q][1..]
    ensures Queue(c.headers, c.kind, q, c.headers[c.heads[q].pos].u.next, c.queues[q][1..])
  {
    assert Queue(c.headers, c.kind, q, c.heads[q], c.queues[q]);
  }

  lemma PopStructure(k: Config, c: Cells, q: nat)
    requires Structure(k, c) && q < MAX_CLASS && c.heads[q] != Null
    requires Poppable(c, q)
    ensures Structure(k, PopStep(c, q))
  {
    hide Capacity, Tiled, Queue;
    QueueFront(k, c, q);
    var p, c' := c.heads[q].pos, PopStep(c, q);
    forall r | 0 <= r < MAX_CLASS ensures Queue(c'.headers, c'.kind, r, c'.heads[r], c'.queues[r]) {
      assert Queue(c.headers, c.kind, r, c.heads[r], c.queues[r]);
      if r != q {
        OtherQueue(c, r, p);
      }
      QueueFrame(c, c'.headers, r, c'.heads[r], c'.queues[r], p, c'.headers[p]);
    }
  }

  lemma OtherQueue(c: Cells, r: nat, p: nat)
    requires r < |c.heads| == |c.queues| && Queue(c.headers, c.kind, r, c.heads[r], c.queues[r])
    requires p in c.kind ==> c.kind[p] != r
    ensures p !in c.queues[r]
  {
  }

  lemma PopMarks(k: Config, c: Cells, q: nat)
    requires Structure(k, c) && Marks(c) && q < MAX_CLASS && c.heads[q] != Null
    requires Poppable(c, q)
    requires Structure(k, PopStep(c, q))
    ensures Marks(PopStep(c, q))
  {
    hide Capacity, Tiled, Queue;
    QueueFront(k, c, q);
    var p, c' := c.heads[q].pos, PopStep(c, q);
    assert c.queues[q] == [p] + c.queues[q][1..];
    forall b | b in c'.kind ensures Marked(c', b) {
      assert Marked(c, b);
    }
  }

  /** Taking from a queue keeps the allocator sound and grants a block of that class. */
  lemma PopKeeps(k: Config, c: Cells, q: nat)
    requires Valid(k, c) && q < MAX_CLASS && c.heads[q] != Null
    ensures Poppable(c, q) && c.heads[q] == At(c.queues[q][0])
    ensures Valid(k, PopStep(c, q)) && Granted(c, PopStep(c, q), InArena(c.heads[q].pos), Capacity(q))
  {
    hide Capacity, Tiled, Queue, Marks;
    QueueFront(k, c, q);
    PopStructure(k, c, q);
    PopMarks(k, c, q);
  }

  lemma CarveStructure(k: Config, c: Cells, q: nat)
    requires Valid(k, c) && q < MAX_CLASS && k.header + Capacity(q) <= c.freeLeft
    ensures c.freeNext !in c.kind && Structure(k, CarveStep(k, c, q))
  {
    hide Capacity;
    var p, c' := c.freeNext, CarveStep(k, c, q);
    if p in c.kind {
      TileInside(k.header, c.kind, c.order, c.freeNext, p);
      CapacityPositive(c.kind[p]);
    }
    TiledGrows(k.header, c.kind, c.order, p, q);
    hide Tiled;
    forall r | 0 <= r < MAX_CLASS ensures Queue(c'.headers, c'.kind, r, c'.heads[r], c'.queues[r]) {
      assert Queue(c.headers, c.kind, r, c.heads[r], c.queues[r]);
      QueueFrame(c, c'.headers, r, c'.heads[r], c'.queues[r], p, c'.headers[p]);
    }
  }

  lemma CapacityPositive(q: nat)
    ensures Capacity(q) > 0
  {
  }

  lemma TiledGrows(header: nat, kind: map<nat, nat>, order: seq<nat>, end: nat, q: nat)
    requires Tiled(header, kind, order, end) && end !in kind
    ensures Tiled(header, kind[end := q], order + [end], end + header + Capacity(q))
  {
    hide Capacity;
    var order', kind', end' := order + [end], kind[end := q], end + header + Capacity(q);
    forall i | 0 <= i < |order'| ensures Abuts(header, kind', order', end', i) {
      if i < |order| {
        assert Abuts(header, kind, order, end, i);
      }
    }
    assert StartOf(order', end', 0) == StartOf(order, end, 0);
  }

  lemma CarveMarks(k: Config, c: Cells, q: nat)
    requires Structure(k, c) && Marks(c) && q < MAX_CLASS && k.header + Capacity(q) <= c.freeLeft
    requires c.freeNext !in c.kind && Structure(k, CarveStep(k, c, q))
    ensures Marks(CarveStep(k, c, q))
  {
    hide Capacity, Tiled, Zeros;
    var p, c' := c.freeNext, CarveStep(k, c, q);
    assert Queue(c.headers, c.kind, q, c.heads[q], c.queues[q]);
    hide Chain;
    forall b | b in c'.kind ensures Marked(c', b) {
      assert b != p ==> Marked(c, b);
    }
  }

  /** Cutting a block keeps the allocator sound and grants the bytes that were the start of the untouched part. */
  lemma CarveBacking(k: Config, c: Cells, q: nat)
    requires Valid(k, c) && q < MAX_CLASS && k.header + Capacity(q) <= c.freeLeft && c.freeNext !in c.kind
    ensures var c' := CarveStep(k, c, q); Backing(c'.kind, c'.system, c'.nextId, c'.data)
  {
    hide Capacity, Structure, Zeros, Marks;
  }

  lemma CarveGrants(k: Config, c: Cells, q: nat)
    requires Valid(k, c) && q < MAX_CLASS && k.header + Capacity(q) <= c.freeLeft && c.freeNext !in c.kind
    ensures Granted(c, CarveStep(k, c, q), InArena(c.freeNext), Capacity(q))
  {
    hide Capacity, Tiled, Zeros, Queue, Marks;
  }

  lemma CarveKeeps(k: Config, c: Cells, q: nat)
    requires Valid(k, c) && q < MAX_CLASS && k.header + Capacity(q) <= c.freeLeft
    ensures Valid(k, CarveStep(k, c, q))
    ensures Granted(c, CarveStep(k, c, q), InArena(c.freeNext), Capacity(q))
  {
    hide Capacity, Tiled, Zeros, Queue, Marks, Granted, Backing, CarveStep;
    CarveStructure(k, c, q);
    CarveMarks(k, c, q);
    CarveBacking(k, c, q);
    CarveGrants(k, c, q);
  }

  lemma MallocGrants(k: Config, c: Cells, capacity: nat)
    requires Valid(k, c)
    ensures Granted(c, MallocStep(c, capacity), FromSystem(c.nextId), capacity)
  {
    hide Structure, Marks, Zeros;
  }

  lemma MallocMarks(k: Config, c: Cells, capacity: nat)
    requires Valid(k, c)
    ensures Structure(k, MallocStep(c, capacity)) && Marks(MallocStep(c, capacity))
  {
    hide Tiled, Queue, Zeros, Capacity, Backing;
    forall b | b in c.kind ensures Marked(MallocStep(c, capacity), b) {
      assert Marked(c, b);
    }
  }

  lemma MallocBacking(k: Config, c: Cells, capacity: nat)
    requires Valid(k, c)
    ensures var c' := MallocStep(c, capacity); Backing(c'.kind, c'.system, c'.nextId, c'.data)
  {
    hide Structure, Marks, Zeros, Capacity;
  }

  lemma MallocKeeps(k: Config, c: Cells, capacity: nat)
    requires Valid(k, c)
    ensures Valid(k, MallocStep(c, capacity))
    ensures Granted(c, MallocStep(c, capacity), FromSystem(c.nextId), capacity)
  {
    hide Structure, Marks, Backing, Granted, MallocStep;
    MallocGrants(k, c, capacity);
    MallocMarks(k, c, capacity);
    MallocBacking(k, c, capacity);
  }

  lemma PushStructure(k: Config, c: Cells, p: nat, q: nat)
    requires Structure(k, c) && p in c.kind && c.kind[p] == q && p !in c.queues[q]
    ensures Structure(k, PushStep(c, p, q))
  {
    hide Capacity, Tiled, Queue;
    var c' := PushStep(c, p, q);
    forall r | 0 <= r < MAX_CLASS ensures Queue(c'.headers, c'.kind, r, c'.heads[r], c'.queues[r]) {
      assert Queue(c.headers, c.kind, r, c.heads[r], c.queues[r]);
      if r != q {
        OtherQueue(c, r, p);
      }
      QueueFrame(c, c'.headers, r, c.heads[r], c.queues[r], p, c'.headers[p]);
      if r == q {
        QueuePush(c'.headers, c.kind, q, c.heads[q], c.queues[q], p);
      }
    }
  }

  lemma QueuePush(headers: map<nat, Header>, kind: map<nat, nat>, q: nat, head: Link, list: seq<nat>, p: nat)
    requires Queue(headers, kind, q, head, list) && p !in list && p in kind && kind[p] == q
    requires p in headers && headers[p] == Header(Next(head), FILL_WORD)
    ensures Queue(headers, kind, q, At(p), [p] + list)
  {
    assert ([p] + list)[1..] == list;
  }

  lemma PushMarks(k: Config, c: Cells, p: nat, q: nat)
    requires Structure(k, c) && Marks(c) && p in c.kind && q == c.kind[p] && Structure(k, PushStep(c, p, q))
    ensures Marks(PushStep(c, p, q))
  {
    hide Capacity, Tiled, Queue;
    var c' := PushStep(c, p, q);
    forall b | b in c'.kind ensures Marked(c', b) {
      assert Marked(c, b);
    }
  }

  /** Giving a live block back to its class keeps the allocator sound. */
  lemma PushKeeps(k: Config, c: Cells, p: nat, q: nat)
    requires Valid(k, c) && Live(c, InArena(p)) && p in c.kind && q == c.kind[p]
    ensures q < MAX_CLASS && p !in c.queues[q]
    ensures Valid(k, PushStep(c, p, q)) && Returned(c, PushStep(c, p, q), InArena(p))
  {
    hide Capacity, Tiled, Queue;
    assert Marked(c, p);
    hide Marks;
    PushStructure(k, c, p, q);
    PushMarks(k, c, p, q);
  }

  lemma UnmallocKeeps(k: Config, c: Cells, id: nat)
    requires Valid(k, c) && id in c.system
    ensures Valid(k, UnmallocStep(c, id)) && Returned(c, UnmallocStep(c, id), FromSystem(id))
  {
    hide Tiled, Queue, Capacity;
    assert Marks(UnmallocStep(c, id)) by {
      forall b | b in c.kind ensures Marked(UnmallocStep(c, id), b) {
        assert Marked(c, b);
      }
    }
  }

  /** Writing into a live block's user bytes, within its size, disturbs nothing else. */
  lemma WriteKeeps(k: Config, c: Cells, ptr: Ptr, bytes: seq<byte>)
    requires Valid(k, c) && Live(c, ptr) && |bytes| == |c.data[ptr]|
    ensures Valid(k, c.(data := c.data[ptr := bytes]))
    ensures forall other :: Live(c.(data := c.data[ptr := bytes]), other) <==> Live(c, other)
  {
    hide Tiled, Queue, Capacity;
    var c' := c.(data := c.data[ptr := bytes]);
    assert Marks(c') by {
      forall b | b in c.kind ensures Marked(c', b) {
        assert Marked(c, b);
      }
    }
  }

  /** The header in front of a live pointer: intact, and holding the size of the user bytes. */
  lemma LiveHeader(k: Config, c: Cells, ptr: Ptr)
    requires Valid(k, c) && ptr in c.data
    ensures ptr.InArena? ==> ptr.pos in c.headers && ptr.pos in c.kind
    ensures ptr.FromSystem? ==> ptr.id in c.system && Live(c, ptr)
    ensures ptr != NullPtr
    ensures var h := HeaderOf(c, ptr);
      && (Intact(h) <==> Live(c, ptr))
      && (Live(c, ptr) ==> h.u == Size(|c.data[ptr]|) && (h.flags & MALLOCED != 0 <==> ptr.FromSystem?))
    ensures Live(c, ptr) && ptr.InArena? ==> Class(|c.data[ptr]|) == c.kind[ptr.pos] < MAX_CLASS
  {
    hide Tiled, Queue, Capacity;
    if ptr.InArena? {
      assert Marked(c, ptr.pos);
      ClassReturns(c.kind[ptr.pos]);
    }
  }

  function HeaderOf(c: Cells, ptr: Ptr): Header {
    if ptr.InArena? && ptr.pos in c.headers then c.headers[ptr.pos]
    else if ptr.FromSystem? && ptr.id in c.system then c.system[ptr.id]
    else Header(Next(Null), FILL_WORD)
  }

  /** Whether a request must fail: negative, or nowhere to take a block from. */
  predicate Refused(k: Config, c: Cells, wanted: int)
    requires |c.heads| == MAX_CLASS
  {
    || wanted < 0
    || (!k.useMalloc
        && (|| Class(wanted) >= MAX_CLASS
            || (c.heads[Class(wanted)] == Null && c.freeLeft <= k.header + Capacity(Class(wanted)))))
  }

  /** The class a request belongs to: the smallest whose blocks hold it. */
  predicate Suits(q: nat, wanted: nat) {
    wanted <= Capacity(q) && (q > 0 ==> Capacity(q - 1) < wanted)
  }

  /** Where a block for the request can come from: a free one of its class, the untouched part, or the system. */
  ghost predicate Servable(k: Config, c: Cells, wanted: nat)
    requires |c.queues| == MAX_CLASS
  {
    k.useMalloc || exists q: nat {:trigger Suits(q, wanted)} ::
      q < MAX_CLASS && Suits(q, wanted) && (c.queues[q] != [] || k.header + Capacity(q) < c.freeLeft)
  }

  lemma SuitsOnly(q: nat, wanted: nat)
    ensures Suits(q, wanted) <==> q == Class(wanted)
  {
    hide Class, Capacity;
    ClassFits(wanted);
    if Suits(q, wanted) && q < Class(wanted) {
      CapacityRises(q, Class(wanted) - 1);
    } else if Suits(q, wanted) && q > Class(wanted) {
      CapacityRises(Class(wanted), q - 1);
    }
  }

  lemma {:induction false} CapacityRises(q: nat, r: nat)
    requires q <= r
    ensures Capacity(q) <= Capacity(r)
    decreases r
  {
    if q < r {
      CapacityRises(q, r - 1);
    }
  }

  /** A request is refused exactly if it is negative or nothing can serve it. */
  lemma RefusedExactly(k: Config, c: Cells, wanted: int)
    requires Valid(k, c)
    ensures Refused(k, c, wanted) <==> wanted < 0 || !Servable(k, c, wanted)
  {
    hide Class, Capacity, Suits, Tiled, Backing, Marks;
    if wanted >= 0 {
      var q := Class(wanted);
      SuitsOnly(q, wanted);
      forall r: nat ensures Suits(r, wanted) <==> r == q {
        SuitsOnly(r, wanted);
      }
      if q < MAX_CLASS {
        assert Queue(c.headers, c.kind, q, c.heads[q], c.queues[q]);
      }
    }
  }

  /** What was given back to a class serves the next request of that class, whatever else is left. */
  lemma FreedServes(k: Config, c: Cells, ptr: Ptr, c': Cells, wanted: nat, p: Ptr, c'': Cells)
    requires Valid(k, c) && Valid(k, c') && Live(c, ptr) && ptr.InArena? && Freed(c, ptr, c')
    requires Class(wanted) == c.kind[ptr.pos] && Answered(k, c', wanted, p, c'')
    ensures p == ptr && c''.queues == c.queues
  {
    hide Class, Capacity, Tiled, Backing, Marks;
    var q := Class(wanted);
    assert Queue(c'.headers, c'.kind, q, c'.heads[q], c'.queues[q]);
    assert c'.queues[q][1..] == c.queues[q];
  }

  /**
   What an allocation request comes to: refused with nothing changed, or granted;
   from the front of its queue whenever that holds a block, else from the untouched
   part while that is large enough, and only then from the system.
   */
  ghost predicate Answered(k: Config, c: Cells, wanted: int, ptr: Ptr, c': Cells)
    requires |c.heads| == |c.queues| == MAX_CLASS
  {
    && (ptr == NullPtr <==> Refused(k, c, wanted))
    && (ptr == NullPtr ==> c' == c)
    && (ptr != NullPtr ==>
          && Granted(c, c', ptr, wanted)
          && var q := Class(wanted);
          && |c'.data[ptr]| == Capacity(q)
          && if q < MAX_CLASS && c.heads[q] != Null then
               && c.freeNext == c'.freeNext && c.queues[q] != [] && ptr == InArena(c.queues[q][0])
               && c'.queues == c.queues[q := c.queues[q][1..]]
             else if q < MAX_CLASS && k.header + Capacity(q) < c.freeLeft then
               && ptr == InArena(c.freeNext) && c'.freeNext == c.freeNext + k.header + Capacity(q)
               && c'.queues == c.queues
             else
               ptr.FromSystem? && c'.freeNext == c.freeNext && c'.queues == c.queues)
  }

  lemma RefusalAnswers(k: Config, c: Cells, wanted: int)
    requires Valid(k, c)
    ensures Refused(k, c, wanted) ==> Answered(k, c, wanted, NullPtr, c)
  {
  }

  lemma PopAnswers(k: Config, c: Cells, wanted: nat)
    requires Valid(k, c) && Class(wanted) < MAX_CLASS && c.heads[Class(wanted)] != Null
    ensures var q := Class(wanted);
      && Poppable(c, q) && Valid(k, PopStep(c, q)) && |PopStep(c, q).heads| == |PopStep(c, q).queues| == MAX_CLASS
      && Answered(k, c, wanted, InArena(c.heads[q].pos), PopStep(c, q))
  {
    var q := Class(wanted);
    ClassFits(wanted);
    PopKeeps(k, c, q);
    hide Valid, Class, Capacity;
  }

  lemma CarveAnswers(k: Config, c: Cells, wanted: nat)
    requires Valid(k, c) && Class(wanted) < MAX_CLASS && c.heads[Class(wanted)] == Null
    requires k.header + Capacity(Class(wanted)) < c.freeLeft
    ensures var q := Class(wanted);
      && Valid(k, CarveStep(k, c, q)) && |CarveStep(k, c, q).heads| == |CarveStep(k, c, q).queues| == MAX_CLASS
      && Answered(k, c, wanted, InArena(c.freeNext), CarveStep(k, c, q))
  {
    var q := Class(wanted);
    ClassFits(wanted);
    CarveKeeps(k, c, q);
    hide Valid, Class, Capacity;
  }

  lemma MallocAnswers(k: Config, c: Cells, wanted: nat)
    requires Valid(k, c) && k.useMalloc
    requires Class(wanted) < MAX_CLASS ==>
               c.heads[Class(wanted)] == Null && c.freeLeft <= k.header + Capacity(Class(wanted))
    ensures var step := MallocStep(c, Capacity(Class(wanted)));
      && Valid(k, step) && |step.heads| == |step.queues| == MAX_CLASS
      && Answered(k, c, wanted, FromSystem(c.nextId), step)
  {
    ClassFits(wanted);
    MallocKeeps(k, c, Capacity(Class(wanted)));
    hide Valid, Class, Capacity;
  }

  /**
   What freeing a block comes to: a live one is returned, to its own class if it is in the arena; a free one is
   left alone.
   */
  ghost predicate Freed(c: Cells, ptr: Ptr, c': Cells) {
    if Live(c, ptr) then
      && Returned(c, c', ptr)
      && (ptr.InArena? ==>
            && ptr.pos in c.kind && c.kind[ptr.pos] < |c.queues|
            && c'.queues == c.queues[c.kind[ptr.pos] := [ptr.pos] + c.queues[c.kind[ptr.pos]]])
    else
      c' == c
  }

  // --- The allocator as an object ---

  class Arena {
    const config: Config
    var headers: map<nat, Header>
    var heads: seq<Link>
    var freeNext: nat
    var freeLeft: nat
    var system: map<nat, Header>
    var nextId: nat
    var data: map<Ptr, seq<byte>>
    ghost var kind: map<nat, nat>
    ghost var order: seq<nat>
    ghost var queues: seq<seq<nat>>

    ghost function State(): Cells
      reads this
    {
      Cells(headers, heads, freeNext, freeLeft, system, nextId, data, kind, order, queues)
    }

    ghost predicate Sound()
      reads this
    {
      |heads| == |queues| == MAX_CLASS && Valid(config, State())
    }

    constructor (config: Config)
      ensures Sound() && this.config == config && freeLeft == config.size
      ensures forall ptr :: !Live(State(), ptr)
    {
      this.config := config;
      headers, system, data := map[], map[], map[];
      heads := seq(MAX_CLASS, _ => Null);
      freeNext, freeLeft, nextId := 0, config.size, 0;
      kind, order, queues := map[], [], seq(MAX_CLASS, _ => []);
    }

    method Pop(q: nat) returns (ptr: Ptr)
      requires Poppable(State(), q)
      modifies this
      ensures State() == PopStep(old(State()), q) && ptr == InArena(old(heads)[q].pos)
    {
      var p := heads[q].pos;
      heads := heads[q := headers[p].u.next];
      headers := headers[p := Header(Size(Capacity(q)), 0 | INTEGRITY)];
      queues := queues[q := queues[q][1..]];
      ptr := InArena(p);
    }

    method Carve(q: nat) returns (ptr: Ptr)
      requires config.header + Capacity(q) <= freeLeft
      modifies this
      ensures State() == CarveStep(config, old(State()), q) && ptr == InArena(old(freeNext))
    {
      hide Capacity, Zeros;
      var p, memSize := freeNext, config.header + Capacity(q);
      freeNext := freeNext + memSize;
      freeLeft := freeLeft - memSize;
      headers := headers[p := Header(Size(Capacity(q)), 0 | INTEGRITY)];
      data := data[InArena(p) := Zeros(Capacity(q))];
      kind, order := kind[p := q], order + [p];
      ptr := InArena(p);
    }

    method Malloc(capacity: nat) returns (ptr: Ptr)
      modifies this
      ensures State() == MallocStep(old(State()), capacity) && ptr == FromSystem(old(nextId))
    {
      ptr := FromSystem(nextId);
      system := system[nextId := Header(Size(capacity), MALLOCED | INTEGRITY)];
      data := data[ptr := Zeros(capacity)];
      nextId := nextId + 1;
    }

    /** Links a block onto the head of its queue and marks it free. */
    method Push(p: nat, q: nat)
      requires q < |heads| == |queues|
      modifies this
      ensures State() == PushStep(old(State()), p, q)
    {
      headers := headers[p := Header(Next(heads[q]), FILL_WORD)];
      heads := heads[q := At(p)];
      queues := queues[q := [p] + queues[q]];
    }

    method Unmalloc(id: nat)
      modifies this
      ensures State() == UnmallocStep(old(State()), id)
    {
      system := system - {id};
      data := data - {FromSystem(id)};
    }

    /** Grants a block of at least `wanted` bytes that nobody holds, or fails and changes nothing. */
    method Balloc(wanted: int) returns (ptr: Ptr)
      requires Sound()
      modifies this
      ensures Sound() && Answered(config, old(State()), wanted, ptr, State())
    {
      hide Valid, Answered, Class, Capacity;
      RefusalAnswers(config, State(), wanted);
      if wanted < 0 {
        return NullPtr;
      }
      var memSize, q := GetSize(config.header, wanted);
      if q < MAX_CLASS {
        ptr := FromClass(wanted, memSize, q);
      } else if config.useMalloc {
        ptr := Fallback(wanted, memSize);
      } else {
        return NullPtr;
      }
    }

    /** A block of class `q`: a free one, or a new one, or one from the system. */
    method FromClass(wanted: nat, memSize: nat, q: nat) returns (ptr: Ptr)
      requires Sound() && q == Class(wanted) < MAX_CLASS && memSize == config.header + Capacity(q)
      modifies this
      ensures Sound() && Answered(config, old(State()), wanted, ptr, State())
    {
      hide Valid, Answered, Class, Capacity, PopStep, CarveStep;
      if heads[q] != Null {
        PopAnswers(config, State(), wanted);
        ptr := Pop(q);
      } else if freeLeft > memSize {
        CarveAnswers(config, State(), wanted);
        ptr := Carve(q);
      } else if config.useMalloc {
        ptr := Fallback(wanted, memSize);
      } else {
        RefusalAnswers(config, State(), wanted);
        return NullPtr;
      }
    }

    method Fallback(wanted: nat, memSize: nat) returns (ptr: Ptr)
      requires Sound() && config.useMalloc && memSize == config.header + Capacity(Class(wanted))
      requires Class(wanted) < MAX_CLASS ==>
                 heads[Class(wanted)] == Null && freeLeft <= config.header + Capacity(Class(wanted))
      modifies this
      ensures Sound() && Answered(config, old(State()), wanted, ptr, State())
    {
      hide Valid, Answered, Class, Capacity, MallocStep;
      MallocAnswers(config, State(), wanted);
      ptr := Malloc(memSize - config.header);
    }

    /** Returns a live block to where it came from; freeing a block that is already queued changes nothing. */
    method Bfree(ptr: Ptr)
      requires Sound() && ptr in data
      modifies this
      ensures Sound() && Freed(old(State()), ptr, State())
    {
      LiveHeader(config, State(), ptr);
      hide Valid, Returned, Class, Live;
      var h := if ptr.InArena? then headers[ptr.pos] else system[ptr.id];
      if !Intact(h) {
        return;
      }
      var memSize, q := GetSize(config.header, h.u.size);
      if h.flags & MALLOCED != 0 {
        UnmallocKeeps(config, State(), ptr.id);
        Unmalloc(ptr.id);
      } else {
        PushKeeps(config, State(), ptr.pos, q);
        Push(ptr.pos, q);
      }
    }

    /**
     The block keeps its place if it is large enough; otherwise its bytes move to a
     larger one, which fails exactly if a new block of that size would be refused.
     */
    method Brealloc(ptr: Ptr, wanted: int) returns (r: Ptr)
      requires Sound() && (ptr != NullPtr ==> Live(State(), ptr))
      modifies this
      ensures Sound()
      ensures ptr != NullPtr && wanted <= |old(data)[ptr]| ==> r == ptr && State() == old(State())
      ensures r == NullPtr <==>
                (ptr == NullPtr || wanted > |old(data)[ptr]|) && Refused(config, old(State()), wanted)
      ensures r == NullPtr ==> State() == old(State())
      ensures ptr == NullPtr ==> Answered(config, old(State()), wanted, r, State())
      ensures r != NullPtr ==> Live(State(), r) && wanted <= |data[r]|
      ensures ptr != NullPtr && r != NullPtr ==> old(data)[ptr] <= data[r]
      ensures ptr != NullPtr && r != NullPtr && r != ptr ==> !Live(State(), ptr) && !old(Live(State(), r))
      ensures forall other :: other != ptr && other != r && old(Live(State(), other)) ==>
                Live(State(), other) && data[other] == old(data)[other]
    {
      if ptr == NullPtr {
        r := Balloc(wanted);
        return;
      }
      LiveHeader(config, State(), ptr);
      var h := if ptr.InArena? then headers[ptr.pos] else system[ptr.id];
      if h.u.size >= wanted {
        return ptr;
      }
      r := Balloc(wanted);
      if r != NullPtr {
        hide Valid;
        Copy(ptr, r, h.u.size);
        Bfree(ptr);
      }
    }

    /** `memcpy(to, from, n)` between two live blocks. */
    method Copy(from: Ptr, to: Ptr, n: nat)
      requires Sound() && Live(State(), from) && Live(State(), to) && from != to
      requires n == |data[from]| <= |data[to]|
      modifies this`data
      ensures Sound() && data[from] == old(data)[from] <= data[to] && |data[to]| == old(|data[to]|)
      ensures State() == old(State()).(data := data)
      ensures forall other :: other != to ==> (other in data <==> other in old(data))
      ensures forall other :: Live(State(), other) <==> old(Live(State(), other))
      ensures forall other :: other != to && Live(State(), other) ==> data[other] == old(data)[other]
    {
      var bytes := data[from] + data[to][n..];
      WriteKeeps(config, State(), to, bytes);
      data := data[to := bytes];
    }
  }

  /** Live pointers into the arena stand for byte ranges that never overlap and stay inside it. */
  lemma LiveApart(k: Config, c: Cells, p: nat, r: nat)
    requires Valid(k, c) && Live(c, InArena(p)) && Live(c, InArena(r)) && p != r
    ensures Disjoint(p, k.header + |c.data[InArena(p)]|, r, k.header + |c.data[InArena(r)]|)
    ensures p + k.header + |c.data[InArena(p)]| <= c.freeNext <= k.size
  {
    TilesApart(k.header, c.kind, c.order, c.freeNext, p, r);
    TileInside(k.header, c.kind, c.order, c.freeNext, p);
  }

  /** All blocks and the untouched part together are exactly the arena. */
  lemma ArenaConserved(k: Config, c: Cells)
    requires Valid(k, c)
    ensures SizeSum(k.header, c.kind, c.order, |c.order|) + c.freeLeft == k.size
  {
    SizesSum(k.header, c.kind, c.order, c.freeNext, |c.order|);
  }
}
