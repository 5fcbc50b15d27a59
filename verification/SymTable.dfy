/** The chained hash symbol table, and the walk over its entries. */
module SymTable {
  import opened Power

  const UINT_LIMIT: nat := 0x1_0000_0000

  /** A symbol: its name, and the value and argument stored with it. */
  datatype Sym = Sym(name: string, content: int, arg: int)

  datatype Found = Missing | Here(sym: Sym)

  // --- The size of the table ---

  predicate NoDivisor(n: nat, hi: nat) {
    forall k :: 2 <= k <= hi ==> n % k != 0
  }

  predicate Prime(n: nat) {
    n >= 2 && NoDivisor(n, n - 1)
  }

  /** Trying divisors up to half of `n` is enough. */
  lemma HalfIsEnough(n: nat)
    requires n >= 2 && NoDivisor(n, n / 2)
    ensures Prime(n)
  {
    forall k | 2 <= k <= n - 1 ensures n % k != 0 {
      if n / 2 < k {
        Between(n, k);
      }
    }
  }

  lemma Between(n: nat, k: nat)
    requires n / 2 < k < n
    ensures n % k != 0
  {
    assert n == k * 1 + (n - k) && 0 < n - k < k;
  }

  method IsPrime(n: nat) returns (prime: bool)
    requires n > 0
    ensures prime <==> n == 1 || Prime(n)
  {
    var max := n / 2;
    var i := 2;
    while i <= max
      invariant 2 <= i && NoDivisor(n, if i <= max then i - 1 else max)
    {
      if n % i == 0 {
        return false;
      }
      i := i + 1;
    }
    if n > 1 {
      HalfIsEnough(n);
    }
    prime := true;
  }

  /** The largest prime that is at most `size`, or 1 if there is none. */
  method CalcPrime(size: nat) returns (p: nat)
    requires size > 0
    ensures if size == 1 then p == 1 else p <= size && Prime(p) && forall q :: p < q <= size ==> !Prime(q)
  {
    p := size;
    while p > 0
      invariant (size > 1 ==> 2 <= p) && 1 <= p <= size && forall q :: p < q <= size ==> !Prime(q)
    {
      var prime := IsPrime(p);
      if prime {
        return;
      }
      TwoIsPrime();
      p := p - 1;
    }
  }

  lemma TwoIsPrime()
    ensures Prime(2)
  {
  }

  // --- Hashing and chains ---

  /** Each character shifted up by seven more bits than the last, modulo 24, summed in an unsigned word. */
  function HashSum(name: string, shift: nat, sum: nat): nat
    decreases |name|
  {
    if name == [] then sum
    else HashSum(name[1..], (shift + 7) % 24, Summed(sum, name[0], shift))
  }

  function Summed(sum: nat, c: char, shift: nat): (s: nat)
    ensures s < UINT_LIMIT
  {
    (sum + c as int * Pow2(shift)) % UINT_LIMIT
  }

  /** The sum without wrapping: the character at place k counts 2^(7k mod 24) times. */
  function Shifted(name: string): nat {
    if name == [] then 0
    else Shifted(name[..|name| - 1]) + name[|name| - 1] as int * Pow2(7 * (|name| - 1) % 24)
  }

  lemma NextShift(k: nat)
    ensures (7 * k % 24 + 7) % 24 == 7 * (k + 1) % 24
  {
  }

  lemma {:induction false} HashSplits(a: string, b: string, k: nat, sum: nat)
    ensures HashSum(a + b, 7 * k % 24, sum) == HashSum(b, 7 * (k + |a|) % 24, HashSum(a, 7 * k % 24, sum))
    decreases |a|
  {
    hide Summed;
    if a == [] {
      assert a + b == b;
    } else {
      assert (a + b)[1..] == a[1..] + b;
      NextShift(k);
      HashSplits(a[1..], b, k + 1, Summed(sum, a[0], 7 * k % 24));
    }
  }

  /** What is hashed is that sum, modulo the unsigned word. */
  lemma {:induction false} HashTerms(name: string)
    ensures HashSum(name, 0, 0) == Shifted(name) % UINT_LIMIT
  {
    hide Pow2;
    if name != [] {
      var init, c := name[..|name| - 1], name[|name| - 1];
      assert init + [c] == name;
      HashSplits(init, [c], 0, 0);
      HashTerms(init);
      var shift := 7 * |init| % 24;
      assert [c][1..] == [];
      assert HashSum(name, 0, 0) == Summed(HashSum(init, 0, 0), c, shift);
      WrapOnce(Shifted(init), c as int * Pow2(shift));
    }
  }

  lemma WrapOnce(a: nat, b: int)
    ensures (a % UINT_LIMIT + b) % UINT_LIMIT == (a + b) % UINT_LIMIT
  {
  }

  function HashIndex(size: nat, name: string): (i: nat)
    requires size > 0
    ensures i < size
  {
    HashSum(name, 0, 0) % size
  }

  method ComputeHashIndex(size: nat, name: string) returns (i: nat)
    requires size > 0
    ensures i == HashIndex(size, name)
  {
    var shift: nat, sum: nat, at: nat := 0, 0, 0;
    while at < |name|
      invariant at <= |name| && HashSum(name[at..], shift, sum) == HashSum(name, 0, 0)
    {
      sum := (sum + name[at] as int * Pow2(shift)) % UINT_LIMIT;
      shift := (shift + 7) % 24;
      at := at + 1;
    }
    i := sum % size;
  }

  /** Index of the first entry of that name, or the length of the chain. */
  function Position(chain: seq<Sym>, name: string): (i: nat)
    ensures i <= |chain|
    ensures i < |chain| ==> chain[i].name == name
    ensures forall j :: 0 <= j < i ==> chain[j].name != name
  {
    if chain == [] || chain[0].name == name then 0 else 1 + Position(chain[1..], name)
  }

  ghost predicate Distinct(chain: seq<Sym>) {
    forall i, j :: 0 <= i < j < |chain| ==> chain[i].name != chain[j].name
  }

  /** Every entry is in the bucket its name hashes to, and no name occurs twice. */
  ghost predicate Hashed(table: seq<seq<Sym>>) {
    && |table| > 0
    && forall b :: 0 <= b < |table| ==>
         Distinct(table[b]) && forall i :: 0 <= i < |table[b]| ==> HashIndex(|table|, table[b][i].name) == b
  }

  /** What the table holds under a name. */
  function Get(table: seq<seq<Sym>>, name: string): Found
    requires |table| > 0
  {
    var chain := table[HashIndex(|table|, name)];
    var i := Position(chain, name);
    if i < |chain| then Here(chain[i]) else Missing
  }

  /** All entries in the order a walk visits them. */
  function Flat(table: seq<seq<Sym>>): seq<Sym> {
    if table == [] then [] else table[0] + Flat(table[1..])
  }

  /** Putting a chain in place changes what is held under the names of that bucket only. */
  lemma GetElsewhere(table: seq<seq<Sym>>, b: nat, chain: seq<Sym>, name: string)
    requires b < |table| && HashIndex(|table|, name) != b
    ensures Get(table[b := chain], name) == Get(table, name)
  {
  }

  lemma PositionIs(chain: seq<Sym>, name: string, i: nat)
    requires Distinct(chain) && i < |chain| && chain[i].name == name
    ensures Position(chain, name) == i
  {
    hide Position;
  }

  /** Entering changes exactly what is held under that name. */
  lemma EnterGets(table: seq<seq<Sym>>, s: Sym)
    requires Hashed(table)
    ensures var b := HashIndex(|table|, s.name);
      var i := Position(table[b], s.name);
      var chain := if i < |table[b]| then table[b][i := s] else table[b] + [s];
      && Hashed(table[b := chain])
      && forall name :: Get(table[b := chain], name) == if name == s.name then Here(s) else Get(table, name)
  {
    hide Position, HashIndex;
    var b := HashIndex(|table|, s.name);
    var i := Position(table[b], s.name);
    var chain := if i < |table[b]| then table[b][i := s] else table[b] + [s];
    assert Distinct(chain);
    forall name
      ensures Get(table[b := chain], name) == if name == s.name then Here(s) else Get(table, name)
    {
      if HashIndex(|table|, name) != b {
        GetElsewhere(table, b, chain, name);
      } else if name == s.name {
        PositionIs(chain, name, i);
      } else {
        SameElsewhere(table[b], chain, name, i);
      }
    }
  }

  /** Chains that differ only at `i`, where neither holds `name`, find the same entry under it. */
  lemma SameElsewhere(chain: seq<Sym>, chain': seq<Sym>, name: string, i: nat)
    requires Distinct(chain') && i <= |chain| <= |chain'| <= |chain| + 1 && (|chain'| > |chain| ==> i == |chain|)
    requires forall j :: 0 <= j < |chain| && j != i ==> chain'[j] == chain[j]
    requires (i < |chain| ==> chain[i].name != name) && (i < |chain'| ==> chain'[i].name != name)
    ensures var p, q := Position(chain, name), Position(chain', name);
      if p < |chain| then q < |chain'| && chain'[q] == chain[p] else q == |chain'|
  {
    hide Position;
    var p, q := Position(chain, name), Position(chain', name);
    if p < |chain| {
      PositionIs(chain', name, p);
    }
  }

  lemma Rehashed(table: seq<seq<Sym>>, b: nat, chain: seq<Sym>)
    requires Hashed(table) && b < |table| && Distinct(chain)
    requires forall i :: 0 <= i < |chain| ==> HashIndex(|table|, chain[i].name) == b
    ensures Hashed(table[b := chain])
  {
    hide HashIndex, Distinct;
  }

  /** Deleting changes exactly what is held under that name. */
  lemma DeleteGets(table: seq<seq<Sym>>, gone: string)
    requires Hashed(table)
    requires Position(table[HashIndex(|table|, gone)], gone) < |table[HashIndex(|table|, gone)]|
    ensures var b := HashIndex(|table|, gone);
      var i := Position(table[b], gone);
      var chain := table[b][..i] + table[b][i + 1..];
      && Hashed(table[b := chain])
      && forall name :: Get(table[b := chain], name) == if name == gone then Missing else Get(table, name)
  {
    hide Position, HashIndex;
    var b := HashIndex(|table|, gone);
    var i := Position(table[b], gone);
    var chain := table[b][..i] + table[b][i + 1..];
    assert forall j :: 0 <= j < |chain| ==> chain[j] == table[b][if j < i then j else j + 1];
    Rehashed(table, b, chain);
    hide Distinct;
    forall name
      ensures Get(table[b := chain], name) == if name == gone then Missing else Get(table, name)
    {
      if HashIndex(|table|, name) != b {
        GetElsewhere(table, b, chain, name);
      } else {
        DroppedFinds(table[b], i, name);
      }
    }
  }

  /** A chain of distinct names without its entry `i` finds all the others, and that one no more. */
  lemma DroppedFinds(chain: seq<Sym>, i: nat, name: string)
    requires Distinct(chain) && i < |chain|
    ensures var left := chain[..i] + chain[i + 1..];
      var p, q := Position(chain, name), Position(left, name);
      if p < |chain| && name != chain[i].name then q < |left| && left[q] == chain[p] else q == |left|
  {
    hide Position;
    var left := chain[..i] + chain[i + 1..];
    assert forall j :: 0 <= j < |left| ==> left[j] == chain[if j < i then j else j + 1];
    var p, q := Position(chain, name), Position(left, name);
    if p < |chain| && name != chain[i].name {
      PositionIs(left, name, if p < i then p else p - 1);
    } else if q < |left| {
      PositionIs(chain, name, if q < i then q else q + 1);
    }
  }

  // --- Walking the table ---

  /** A pointer to an entry of a chain, or none. */
  datatype Node = None | Node(bucket: nat, index: nat)

  /** The first entry of a bucket; the bucket past the last one reads as empty. */
  function Head(table: seq<seq<Sym>>, b: nat): Node {
    if b < |table| && table[b] != [] then Node(b, 0) else None
  }

  /** What a walk has yet to visit when its next node is `next`, in bucket `at` if it is one at all. */
  ghost function Remaining(table: seq<seq<Sym>>, at: nat, next: Node): seq<Sym>
    requires Placed(table, at, next)
  {
    if next == None then (if at < |table| then Flat(table[at + 1..]) else [])
    else table[at][next.index..] + Flat(table[at + 1..])
  }

  ghost predicate Placed(table: seq<seq<Sym>>, at: nat, next: Node) {
    && at <= |table|
    && (next != None ==> at < |table| && next.bucket == at && next.index < |table[at]|)
  }

  lemma FlatFrom(table: seq<seq<Sym>>, b: nat)
    requires b < |table|
    ensures Flat(table[b..]) == table[b] + Flat(table[b + 1..])
  {
    assert table[b..][1..] == table[b + 1..];
  }

  /** Starting on a bucket's head, everything from that bucket on remains. */
  lemma RemainingAtHead(table: seq<seq<Sym>>, b: nat)
    requires b <= |table|
    ensures Placed(table, b, Head(table, b)) && Remaining(table, b, Head(table, b)) == Flat(table[b..])
  {
    if b < |table| {
      FlatFrom(table, b);
    }
  }

  lemma RemainingAtNone(table: seq<seq<Sym>>, at: nat)
    requires at < |table|
    ensures Remaining(table, at, None) == Flat(table[at + 1..])
  {
    hide Flat;
  }

  lemma NothingRemains(table: seq<seq<Sym>>)
    ensures Head(table, |table|) == None && Remaining(table, |table|, None) == []
  {
  }

  /** Standing on an entry, that entry remains, and then what remains once it is passed. */
  lemma RemainingAtNode(table: seq<seq<Sym>>, at: nat, next: Node)
    requires Placed(table, at, next) && next != None
    ensures Remaining(table, at, next) != []
    ensures Remaining(table, at, next)[0] == table[at][next.index]
    ensures Remaining(table, at, next)[1..] == table[at][next.index + 1..] + Flat(table[at + 1..])
  {
    hide Flat;
  }

  lemma {:induction false} FlatIndex(table: seq<seq<Sym>>, k: nat) returns (b: nat, i: nat)
    requires k < |Flat(table)|
    ensures b < |table| && i < |table[b]| && table[b][i] == Flat(table)[k]
    ensures k == |Flat(table[..b])| + i
    decreases |table|
  {
    if k < |table[0]| {
      b, i := 0, k;
      assert table[..0] == [];
    } else {
      b, i := FlatIndex(table[1..], k - |table[0]|);
      assert table[..b + 1][1..] == table[1..][..b];
      b := b + 1;
    }
  }

  lemma {:induction false} FlatHolds(table: seq<seq<Sym>>, b: nat, i: nat)
    requires b < |table| && i < |table[b]|
    ensures table[b][i] in Flat(table)
    decreases |table|
  {
    if b > 0 {
      assert table[b] == table[1..][b - 1];
      FlatHolds(table[1..], b - 1, i);
    }
  }

  /** A walk visits what the table holds, under every name, exactly once. */
  lemma FlatExact(table: seq<seq<Sym>>)
    requires Hashed(table)
    ensures forall s :: s in Flat(table) <==> Get(table, s.name) == Here(s)
    ensures Distinct(Flat(table))
  {
    hide HashIndex, Position;
    var all := Flat(table);
    forall s ensures s in all <==> Get(table, s.name) == Here(s) {
      if s in all {
        var k :| 0 <= k < |all| && all[k] == s;
        var b, i := FlatIndex(table, k);
        PositionIs(table[b], s.name, i);
      }
      if Get(table, s.name) == Here(s) {
        var b := HashIndex(|table|, s.name);
        FlatHolds(table, b, Position(table[b], s.name));
      }
    }
    forall k, m | 0 <= k < m < |all| ensures all[k].name != all[m].name {
      var b, i := FlatIndex(table, k);
      var c, j := FlatIndex(table, m);
    }
  }

  class Table {
    var table: seq<seq<Sym>>
    // Where a walk under way will go on.
    var htIndex: nat
    var next: Node

    ghost predicate Valid()
      reads this
    {
      Hashed(table)
    }

    constructor (hashSize: nat)
      requires hashSize > 2
      ensures Valid() && Prime(|table|) && |table| <= hashSize
      ensures forall name :: Get(table, name) == Missing
    {
      var size := CalcPrime(hashSize);
      table := seq(size, _ => []);
      htIndex, next := 0, None;
    }

    /** Searches a chain from its head. */
    method Search(bucket: nat, name: string) returns (i: nat)
      requires bucket < |table|
      ensures i == Position(table[bucket], name)
    {
      i := 0;
      while i < |table[bucket]|
        invariant i <= |table[bucket]| && Position(table[bucket], name) == i + Position(table[bucket][i..], name)
      {
        if table[bucket][i].name == name {
          return;
        }
        i := i + 1;
      }
    }

    method Lookup(name: string) returns (found: Found)
      requires Valid()
      ensures found == if name == "" then Missing else Get(table, name)
    {
      if name == "" {
        return Missing;
      }
      var b := ComputeHashIndex(|table|, name);
      var i := Search(b, name);
      found := if i < |table[b]| then Here(table[b][i]) else Missing;
    }

    /** Stores a value under a name, over the old one if there is one. */
    method Enter(name: string, content: int, arg: int)
      requires Valid()
      modifies this`table
      ensures Valid() && |table| == |old(table)|
      ensures forall n :: Get(table, n) == if n == name then Here(Sym(name, content, arg)) else Get(old(table), n)
    {
      var s := Sym(name, content, arg);
      EnterGets(table, s);
      var b := ComputeHashIndex(|table|, name);
      var i := Search(b, name);
      if i < |table[b]| {
        table := table[b := table[b][i := s]];
      } else {
        table := table[b := table[b] + [s]];
      }
    }

    /** Removes what is stored under a name, or reports that nothing is. */
    method Delete(name: string) returns (rc: int)
      requires Valid() && name != ""
      modifies this`table
      ensures Valid() && |table| == |old(table)|
      ensures rc == if Get(old(table), name) == Missing then -1 else 0
      ensures forall n :: Get(table, n) == if n == name then Missing else Get(old(table), n)
    {
      var b := ComputeHashIndex(|table|, name);
      var i := Search(b, name);
      if i == |table[b]| {
        return -1;
      }
      DeleteGets(table, name);
      table := table[b := table[b][..i] + table[b][i + 1..]];
      rc := 0;
    }

    /** The first entry of a walk; the rest of the table is what remains. */
    method First() returns (found: Found)
      requires Valid()
      modifies this`htIndex, this`next
      ensures if Flat(table) == [] then found == Missing
              else found == Here(Flat(table)[0]) && Placed(table, htIndex, next)
                   && Remaining(table, htIndex, next) == Flat(table)[1..]
    {
      var i := 0;
      assert table[0..] == table;
      while i < |table|
        invariant i <= |table| && Flat(table) == Flat(table[i..])
      {
        FlatFrom(table, i);
        if table[i] != [] {
          found := Here(table[i][0]);
          StepTo(i, 0);
          return;
        }
        i := i + 1;
      }
      found := Missing;
    }

    /** Leaves the walk on the entry after `index` of bucket `b`. */
    method StepTo(b: nat, index: nat)
      requires b < |table| && index < |table[b]|
      modifies this`htIndex, this`next
      ensures Placed(table, htIndex, next)
      ensures Remaining(table, htIndex, next) == table[b][index + 1..] + Flat(table[b + 1..])
    {
      if index + 1 == |table[b]| {
        htIndex := b + 1;
        next := Head(table, htIndex);
        RemainingAtHead(table, b + 1);
      } else {
        htIndex := b;
        next := Node(b, index + 1);
      }
    }

    /** The next entry of a walk begun with `First` on a table that has not changed since. */
    method Next() returns (found: Found)
      requires Valid() && Placed(table, htIndex, next)
      modifies this`htIndex, this`next
      ensures Placed(table, htIndex, next)
      ensures var todo := Remaining(table, old(htIndex), old(next));
              if todo == [] then found == Missing && Remaining(table, htIndex, next) == []
              else found == Here(todo[0]) && Remaining(table, htIndex, next) == todo[1..]
    {
      hide Flat, Remaining, Hashed, Head;
      ghost var todo := Remaining(table, htIndex, next);
      var i := htIndex;
      if i == |table| {
        NothingRemains(table);
      }
      while i < |table|
        invariant i <= |table| && htIndex == old(htIndex) <= i
        invariant Placed(table, i, next) && Remaining(table, i, next) == todo
        invariant i < |table| || (next == None && todo == [])
        invariant old(next) != None ==> i == htIndex && next == old(next)
      {
        if next != None {
          RemainingAtNode(table, i, next);
          found := Here(table[i][next.index]);
          StepTo(i, next.index);
          return;
        }
        RemainingAtNone(table, i);
        RemainingAtHead(table, i + 1);
        next := Head(table, i + 1);
        i := i + 1;
        if i == |table| {
          NothingRemains(table);
        }
      }
      found := Missing;
    }

    /** A walk from end to end, as callers loop over a table: every entry once, in order. */
    method Walk() returns (visited: seq<Sym>)
      requires Valid()
      modifies this`htIndex, this`next
      ensures visited == Flat(table)
    {
      hide Flat, Remaining, Placed, Hashed;
      visited := [];
      var s := First();
      while s != Missing
        invariant Valid()
        invariant s == Missing ==> visited == Flat(table)
        invariant s != Missing ==> Placed(table, htIndex, next)
        invariant s != Missing ==> visited + [s.sym] + Remaining(table, htIndex, next) == Flat(table)
        decreases if s == Missing then 0 else 1 + |Remaining(table, htIndex, next)|
      {
        visited := visited + [s.sym];
        s := Next();
      }
    }
  }
}
