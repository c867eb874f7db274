/** A warp's memory instruction: the loops that turn its threads' addresses into a queue of accesses. */
module WarpInstruction {
  import opened Coalescing
  import opened WarpAccess

  // ----- The queue of an atomic instruction

  /** Transaction `index` of block `block`. */
  datatype Item = Item(block: nat, index: nat)

  predicate Before(x: Item, y: Item) {
    x.block < y.block || (x.block == y.block && x.index < y.index)
  }

  function ItemsOf(work: seq<Item>, b: nat): nat {
    if work == [] then 0
    else ItemsOf(work[..|work| - 1], b) + if work[|work| - 1].block == b then 1 else 0
  }

  predicate InMap(m: map<nat, seq<Transaction>>, x: Item) {
    x.block in m && x.index < |m[x.block]|
  }

  /** Every transaction is listed, by block and then by its place in the block's list. */
  ghost predicate Listed(m: map<nat, seq<Transaction>>, work: seq<Item>) {
    && (forall x: Item :: x in work <==> InMap(m, x))
    && (forall i: nat, j: nat :: i < j < |work| ==> Before(work[i], work[j]))
    && (forall b: nat :: b in m ==> ItemsOf(work, b) == |m[b]|)
  }

  function At(m: map<nat, seq<Transaction>>, x: Item): Transaction {
    if InMap(m, x) then m[x.block][x.index] else NO_TRANSACTION
  }

  function SentItems(work: seq<Item>, m: map<nat, seq<Transaction>>, segment: nat): (q: seq<Access>)
    ensures |q| == |work| && forall i: nat :: i < |work| ==> q[i] == Reduce(At(m, work[i]), work[i].block, segment)
  {
    if work == [] then []
    else
      var n := |work| - 1;
      SentItems(work[..n], m, segment) + [Reduce(At(m, work[n]), work[n].block, segment)]
  }

  /** How many of the accesses are to block `b`. */
  function AccessesTo(q: seq<Access>, segment: nat, b: nat): nat
    requires segment > 0
  {
    if q == [] then 0
    else AccessesTo(q[..|q| - 1], segment, b) + if BlockOf(q[|q| - 1].addr, segment) == b then 1 else 0
  }

  ghost predicate PacksSome(a: Access, cs: seq<Lane>, size: nat) {
    exists ls: seq<Lane> :: Packs(a, ls, size) && forall l <- ls :: l in cs
  }

  /** The thread is in access `k` and in access `n`. */
  ghost predicate InBoth(q: seq<Access>, thread: nat, k: nat, n: nat)
    requires k < |q| && n < |q|
  {
    thread in q[k].threads && thread in q[n].threads
  }

  /** What atomic coalescing promises of the accesses queued for one subwarp: every lane is carried; no thread is in two
      accesses; lanes with one address are in accesses queued in lane order; lanes in one access touch no common byte;
      every access is the smallest aligned block around its lanes; and a touched block gets as many accesses as the
      most lanes on one of its addresses. */
  ghost predicate AtomicQueue(cs: seq<Lane>, size: nat, segment: nat, q: seq<Access>)
    requires segment > 0
  {
    && (forall i: nat :: i < |cs| ==> CarriedBy(q, cs[i], size))
    && (forall i: nat, k: nat, n: nat :: i < |cs| && k < |q| && n < |q| && InBoth(q, cs[i].thread, k, n) ==> k == n)
    && (forall i: nat, j: nat, k: nat, n: nat ::
          i < j < |cs| && k < |q| && n < |q| && cs[i].thread in q[k].threads && cs[j].thread in q[n].threads ==>
            && (cs[i].addr == cs[j].addr ==> k < n)
            && (k == n ==> Bytes(cs[i].addr, size) !! Bytes(cs[j].addr, size)))
    && (forall k: nat :: k < |q| ==> PacksSome(q[k], cs, size))
    && (forall i: nat :: i < |cs| ==>
        MostShared(cs, segment, BlockOf(cs[i].addr, segment), AccessesTo(q, segment, BlockOf(cs[i].addr, segment))))
  }

  /** The access made of one transaction of an exact list. */
  ghost predicate MadeOf(cs: seq<Lane>, size: nat, segment: nat, m: map<nat, seq<Transaction>>, x: Item, a: Access)
    requires segment > 0
  {
    && InMap(m, x) && a.threads == At(m, x).threads && BlockOf(a.addr, segment) == x.block
    && Packs(a, Slot(cs, segment, x.block, x.index), size)
  }

  ghost predicate AllAligned(cs: seq<Lane>, size: nat) {
    size > 0 && forall i: nat :: i < |cs| ==> Aligned(cs[i], size)
  }

  lemma SlotLanesOf(cs: seq<Lane>, size: nat, segment: nat, b: nat, k: nat)
    requires ValidSize(size) && ValidSegment(segment) && AllAligned(cs, size)
    ensures LanesOf(Slot(cs, segment, b, k), size, segment, b) && forall l <- Slot(cs, segment, b, k) :: l in cs
  {
    hide Slot, BlockOf, Aligned;
    forall i: nat | i < |Slot(cs, segment, b, k)|
      ensures var l := Slot(cs, segment, b, k)[i]; Aligned(l, size) && BlockOf(l.addr, segment) == b && l in cs
    {
      SlotLanes(cs, segment, b, k, i);
    }
  }

  lemma ReduceMadeOf(cs: seq<Lane>, size: nat, segment: nat, m: map<nat, seq<Transaction>>, x: Item)
    requires ValidSize(size) && ValidSegment(segment) && AllAligned(cs, size)
    requires Exact(cs, size, segment, m) && InMap(m, x)
    ensures Reducible(At(m, x), x.block, segment)
    ensures MadeOf(cs, size, segment, m, x, Reduce(At(m, x), x.block, segment))
    ensures PacksSome(Reduce(At(m, x), x.block, segment), cs, size)
  {
    hide Slot, BlockOf, Summary, Reduce, Packs, IsBlock, LanesOf, Line, Holds, AllAligned;
    var b, t := x.block, At(m, x);
    var ls := Slot(cs, segment, b, x.index);
    SlotLanesOf(cs, size, segment, b, x.index);
    SummaryReducible(ls, size, segment, b);
    ReducePacks(ls, size, segment, b);
    ReduceFits(t, b, segment);
    var a := Reduce(t, b, segment);
    SizeAtLeast(a.addr, a.size);
    BlockOfInside(b, a.addr, segment);
    assert Packs(a, ls, size);
  }

  /** An access made of a transaction carries the lanes whose threads are in it. */
  lemma MadeOfCarries(cs: seq<Lane>, size: nat, segment: nat, m: map<nat, seq<Transaction>>, x: Item, a: Access, i: nat)
    requires ValidSize(size) && ValidSegment(segment) && AllAligned(cs, size) && DistinctThreads(cs)
    requires MadeOf(cs, size, segment, m, x, a) && i < |cs| && cs[i].thread in a.threads
    ensures Carries(a, cs[i], size)
  {
    hide Slot, BlockOf, Carries, IsBlock, HasByte, LanesOf, EnclosesAll, AllAligned;
    var ls := Slot(cs, segment, x.block, x.index);
    assert HasThread(ls, cs[i].thread);
    var j: nat :| j < |ls| && ls[j].thread == cs[i].thread;
    SlotLanesOf(cs, size, segment, x.block, x.index);
    assert ls[j] in cs;
    var n: nat :| n < |cs| && cs[n] == ls[j];
    assert n == i;
    hide DistinctThreads;
    PackedLane(a, ls, size, cs[i]);
  }

  lemma {:induction false} CountAccesses(work: seq<Item>, q: seq<Access>, segment: nat, b: nat)
    requires segment > 0 && |work| == |q| && forall i: nat :: i < |q| ==> BlockOf(q[i].addr, segment) == work[i].block
    ensures AccessesTo(q, segment, b) == ItemsOf(work, b)
    decreases |q|
  {
    hide BlockOf;
    if q != [] {
      var n := |q| - 1;
      CountAccesses(work[..n], q[..n], segment, b);
    }
  }

  /** The two lanes' accesses are in the order of their transactions. */
  lemma InOrder(cs: seq<Lane>, size: nat, segment: nat, m: map<nat, seq<Transaction>>, work: seq<Item>, i: nat,
                j: nat, k: nat, n: nat)
    requires segment > 0 && AtomicallyCoalesced(cs, size, segment, m) && Listed(m, work)
    requires i < j < |cs| && k < |work| && n < |work|
    requires Serves(cs, m, i, work[k].block, work[k].index) && Serves(cs, m, j, work[n].block, work[n].index)
    ensures cs[i].addr == cs[j].addr ==> k < n
    ensures k == n ==> Bytes(cs[i].addr, size) !! Bytes(cs[j].addr, size)
  {
    hide BlockOf, Rank, Bytes, Serves, MostShared, ItemsOf;
    if cs[i].addr == cs[j].addr {
      assert Before(work[k], work[n]);
    }
  }

  lemma SameAccess(cs: seq<Lane>, size: nat, segment: nat, m: map<nat, seq<Transaction>>, work: seq<Item>, i: nat,
                   k: nat, n: nat)
    requires segment > 0 && AtomicallyCoalesced(cs, size, segment, m) && Listed(m, work)
    requires i < |cs| && k < |work| && n < |work|
    requires Serves(cs, m, i, work[k].block, work[k].index) && Serves(cs, m, i, work[n].block, work[n].index)
    ensures k == n
  {
    hide BlockOf, Rank, Bytes, Serves, MostShared, ItemsOf;
    assert work[k] == work[n];
    assert !Before(work[k], work[n]);
  }

  /** Sending exact transactions in order gives what atomic coalescing promises of the queue. */
  lemma SentIsAtomic(cs: seq<Lane>, size: nat, segment: nat, m: map<nat, seq<Transaction>>, work: seq<Item>)
    requires ValidSize(size) && ValidSegment(segment) && AllAligned(cs, size) && DistinctThreads(cs)
    requires Exact(cs, size, segment, m) && Listed(m, work)
    ensures AtomicQueue(cs, size, segment, SentItems(work, m, segment))
  {
    hide BlockOf, Exact, Reduce, Packs, DistinctThreads, ValidSize, PacksSome, AtomicQueue, AtomicallyCoalesced, MadeOf;
    var q := SentItems(work, m, segment);
    ExactIsAtomic(cs, size, segment, m);
    forall k: nat | k < |q|
      ensures MadeOf(cs, size, segment, m, work[k], q[k]) && PacksSome(q[k], cs, size)
    {
      ReduceMadeOf(cs, size, segment, m, work[k]);
    }
    QueueIsAtomic(cs, size, segment, m, work, q);
  }

  lemma QueueIsAtomic(cs: seq<Lane>, size: nat, segment: nat, m: map<nat, seq<Transaction>>, work: seq<Item>,
                      q: seq<Access>)
    requires ValidSize(size) && ValidSegment(segment) && AllAligned(cs, size) && DistinctThreads(cs)
    requires AtomicallyCoalesced(cs, size, segment, m) && Listed(m, work) && |q| == |work|
    requires forall k: nat :: k < |q| ==> MadeOf(cs, size, segment, m, work[k], q[k]) && PacksSome(q[k], cs, size)
    ensures AtomicQueue(cs, size, segment, q)
  {
    hide BlockOf, Bytes, MostShared, Packs, Carries, DistinctThreads, ValidSize, AtomicallyCoalesced, Listed;
    hide AllAligned, PacksSome, AccessesTo, CarriedBy;
    forall i: nat, k: nat | i < |cs| && k < |q| && cs[i].thread in q[k].threads
      ensures Serves(cs, m, i, work[k].block, work[k].index)
    {
    }
    forall i: nat, k: nat, n: nat | i < |cs| && k < |q| && n < |q| && InBoth(q, cs[i].thread, k, n)
      ensures k == n
    {
      SameAccess(cs, size, segment, m, work, i, k, n);
    }
    forall i: nat, j: nat, k: nat, n: nat |
      i < j < |cs| && k < |q| && n < |q| && cs[i].thread in q[k].threads && cs[j].thread in q[n].threads
      ensures cs[i].addr == cs[j].addr ==> k < n
      ensures k == n ==> Bytes(cs[i].addr, size) !! Bytes(cs[j].addr, size)
    {
      InOrder(cs, size, segment, m, work, i, j, k, n);
    }
    forall i: nat | i < |cs| ensures CarriedBy(q, cs[i], size)
      ensures var b := BlockOf(cs[i].addr, segment); MostShared(cs, segment, b, AccessesTo(q, segment, b))
    {
      LaneServed(cs, size, segment, m, work, q, i);
    }
  }

  lemma LaneServed(cs: seq<Lane>, size: nat, segment: nat, m: map<nat, seq<Transaction>>, work: seq<Item>,
                   q: seq<Access>, i: nat)
    requires ValidSize(size) && ValidSegment(segment) && AllAligned(cs, size) && DistinctThreads(cs)
    requires AtomicallyCoalesced(cs, size, segment, m) && Listed(m, work) && |q| == |work|
    requires forall k: nat :: k < |q| ==> MadeOf(cs, size, segment, m, work[k], q[k])
    requires i < |cs|
    ensures CarriedBy(q, cs[i], size)
    ensures var b := BlockOf(cs[i].addr, segment); MostShared(cs, segment, b, AccessesTo(q, segment, b))
  {
    hide BlockOf, Rank, Bytes, MostShared, ItemsOf, Packs, Carries, DistinctThreads, ValidSize, AllAligned, AccessesTo;
    var b := BlockOf(cs[i].addr, segment);
    var x := Item(b, Rank(cs, i));
    assert Serves(cs, m, i, x.block, x.index);
    assert InMap(m, x);
    var k: nat :| k < |work| && work[k] == x;
    MadeOfCarries(cs, size, segment, m, x, q[k], i);
    CountAccesses(work, q, segment, b);
  }

  // ----- The loops

  /** Whether any byte of a range is taken. */
  method TestBytes(t: Transaction, start: nat, count: nat) returns (taken: bool)
    ensures taken <==> !(t.bytes !! Interval(start, count))
  {
    var i := 0;
    while i < count
      invariant i <= count && forall x: nat :: start <= x < start + i ==> x !in t.bytes
    {
      if start + i in t.bytes {
        assert start + i in Interval(start, count);
        return true;
      }
      i := i + 1;
    }
    taken := false;
  }

  /** Sets the bits of one thread's access. */
  method Mark(t: Transaction, l: Lane, size: nat) returns (r: Transaction)
    ensures r == Join(t, l, size)
  {
    var bytes, i := t.bytes, 0;
    while i < size
      invariant i <= size && bytes == t.bytes + Interval(l.addr % 128, i)
    {
      bytes := bytes + {l.addr % 128 + i};
      i := i + 1;
    }
    r := Transaction(t.chunks + {Chunk(l.addr)}, bytes, t.threads + {l.thread});
  }

  /** The first transaction of a list that has none of the bytes of an access, or the end of the list. */
  method FindTransaction(ts: seq<Transaction>, l: Lane, size: nat) returns (k: nat)
    ensures FirstFit(ts, l, size, k)
  {
    k := 0;
    while k < |ts|
      invariant k <= |ts| && forall j: nat :: j < k ==> !(ts[j].bytes !! Bytes(l.addr, size))
    {
      var taken := TestBytes(ts[k], l.addr % 128, size);
      if !taken {
        return;
      }
      k := k + 1;
    }
  }

  lemma FitIsDisjoint(ts: seq<Transaction>, l: Lane, size: nat, k: nat)
    requires FirstFit(ts, l, size, k) && k < |ts|
    ensures ts[k].bytes !! Bytes(l.addr, size)
  {
  }

  method SmallestKey(s: set<nat>) returns (k: nat)
    requires s != {}
    ensures k in s && forall x: nat :: x in s ==> k <= x
  {
    ghost var least := Smallest(s);
    k :| k in s && forall x: nat :: x in s ==> k <= x;
  }

  lemma {:induction false} Smallest(s: set<nat>) returns (k: nat)
    requires s != {}
    ensures k in s && forall x: nat :: x in s ==> k <= x
  {
    var first: nat :| first in s;
    k := first;
    if s - {first} != {} {
      k := Smallest(s - {first});
      k := if first < k then first else k;
    }
    assert forall x: nat :: x in s ==> x == first || x in s - {first};
  }

  /** `keys` were visited in order and `rest` is still to come. */
  ghost predicate Visited(all: set<nat>, keys: seq<nat>, rest: set<nat>) {
    && Ascending(keys) && (forall b: nat :: b in all <==> b in rest || b in keys)
    && (forall i: nat, b: nat :: i < |keys| && b in rest ==> keys[i] < b)
  }

  lemma VisitNext(all: set<nat>, keys: seq<nat>, rest: set<nat>, b: nat)
    requires Visited(all, keys, rest) && b in rest && forall x: nat :: x in rest ==> b <= x
    ensures Visited(all, keys + [b], rest - {b}) && b in all && forall i: nat :: i < |keys| ==> keys[i] in all
  {
    forall x: nat ensures x in all <==> x in rest - {b} || x in keys + [b] {
    }
  }

  lemma SentGrows(keys: seq<nat>, m: map<nat, Transaction>, segment: nat, b: nat)
    requires b in m && forall i: nat :: i < |keys| ==> keys[i] in m
    ensures Sent(keys + [b], m, segment) == Sent(keys, m, segment) + [Reduce(m[b], b, segment)]
  {
    hide Reduce;
  }

  lemma SentNothing(m: map<nat, Transaction>, segment: nat)
    ensures Sent([], m, segment) == []
  {
  }

  /** The transactions of one block, in order. */
  function RunOf(b: nat, n: nat): (work: seq<Item>)
    ensures |work| == n && forall i: nat :: i < n ==> work[i] == Item(b, i)
  {
    if n == 0 then [] else RunOf(b, n - 1) + [Item(b, n - 1)]
  }

  /** The transactions of the blocks visited so far are listed. */
  ghost predicate ListedFor(m: map<nat, seq<Transaction>>, keys: seq<nat>, work: seq<Item>) {
    && (forall x: Item :: x in work <==> InMap(m, x) && x.block in keys)
    && (forall i: nat, j: nat :: i < j < |work| ==> Before(work[i], work[j]))
    && (forall b: nat :: b in m ==> ItemsOf(work, b) == if b in keys then |m[b]| else 0)
  }

  lemma {:induction false} CountRun(work: seq<Item>, b: nat, n: nat, d: nat)
    ensures ItemsOf(work + RunOf(b, n), d) == ItemsOf(work, d) + if b == d then n else 0
  {
    if n == 0 {
      assert work + RunOf(b, 0) == work;
    } else {
      var before, all := work + RunOf(b, n - 1), work + RunOf(b, n);
      CountRun(work, b, n - 1, d);
      assert all == before + [Item(b, n - 1)];
      assert all[..|all| - 1] == before;
    }
  }

  lemma ListNext(m: map<nat, seq<Transaction>>, keys: seq<nat>, work: seq<Item>, b: nat)
    requires ListedFor(m, keys, work) && b in m && forall i: nat :: i < |keys| ==> keys[i] < b
    ensures ListedFor(m, keys + [b], work + RunOf(b, |m[b]|))
  {
    hide ItemsOf;
    var run := RunOf(b, |m[b]|);
    forall x: Item ensures x in work + run <==> InMap(m, x) && x.block in keys + [b] {
      assert x in run <==> InMap(m, x) && x.block == b by {
        if InMap(m, x) && x.block == b {
          assert run[x.index] == x;
        }
      }
    }
    forall d: nat | d in m ensures ItemsOf(work + run, d) == if d in keys + [b] then |m[d]| else 0 {
      CountRun(work, b, |m[b]|, d);
    }
    forall i: nat, j: nat | i < j < |work + run| ensures Before((work + run)[i], (work + run)[j]) {
      if i < |work| {
        assert work[i] in work;
      }
    }
  }

  lemma SentItemsGrows(work: seq<Item>, m: map<nat, seq<Transaction>>, segment: nat, x: Item)
    ensures SentItems(work + [x], m, segment) == SentItems(work, m, segment) + [Reduce(At(m, x), x.block, segment)]
  {
    hide Reduce, At;
  }

  function Concat(parts: seq<seq<Access>>): seq<Access> {
    if parts == [] then [] else Concat(parts[..|parts| - 1]) + parts[|parts| - 1]
  }

  lemma ConcatGrows(parts: seq<seq<Access>>, q: seq<Access>)
    ensures Concat(parts + [q]) == Concat(parts) + q
  {
    assert (parts + [q])[..|parts|] == parts;
  }

  class Inst {
    const warpSize: nat
    const dataSize: nat
    const inLocal: bool
    const active: seq<bool>
    const addrs: seq<seq<nat>>
    var accessq: seq<Access>

    constructor (warpSize: nat, dataSize: nat, inLocal: bool, active: seq<bool>, addrs: seq<seq<nat>>)
      requires |active| == warpSize && |addrs| == warpSize
      ensures this.warpSize == warpSize && this.dataSize == dataSize && this.inLocal == inLocal
      ensures this.active == active && this.addrs == addrs && accessq == []
    {
      this.warpSize, this.dataSize, this.inLocal := warpSize, dataSize, inLocal;
      this.active, this.addrs, this.accessq := active, addrs, [];
    }

    /** Local accesses of more than four bytes were split into four-byte ones. */
    function AccessSize(): nat {
      if inLocal && dataSize >= 4 then 4 else dataSize
    }

    function Accesses(): nat {
      if inLocal && dataSize >= 4 then dataSize / 4 else 1
    }

    /** Every active thread has naturally aligned addresses below 2^32. */
    predicate Valid() {
      && ValidSize(dataSize) && |active| == warpSize && |addrs| == warpSize
      && (forall t: nat :: t < warpSize && active[t] ==> ValidAddrs(addrs[t]))
    }

    predicate ValidAddrs(requested: seq<nat>)
      requires ValidSize(dataSize)
    {
      |requested| >= Accesses() &&
      forall i: nat :: i < Accesses() ==> requested[i] < 0x1_0000_0000 && requested[i] % AccessSize() == 0
    }

    /** The first `n` accesses of one thread. */
    function ThreadLanes(t: nat, n: nat): (cs: seq<Lane>)
      requires Valid() && t < warpSize && active[t] && n <= Accesses()
      ensures |cs| == n && forall i: nat :: i < n ==> cs[i] == Lane(t, addrs[t][i])
      ensures AllAligned(cs, AccessSize())
    {
      if n == 0 then [] else ThreadLanes(t, n - 1) + [Lane(t, addrs[t][n - 1])]
    }

    /** The accesses of the active threads of a part of the warp. */
    function Lanes(lo: nat, hi: nat): (cs: seq<Lane>)
      requires Valid() && lo <= hi <= warpSize
      ensures forall i: nat :: i < |cs| ==> lo <= cs[i].thread < hi
      ensures AllAligned(cs, AccessSize())
      ensures Accesses() == 1 ==> DistinctThreads(cs)
      decreases hi
    {
      if lo == hi then []
      else if active[hi - 1] then Lanes(lo, hi - 1) + ThreadLanes(hi - 1, Accesses())
      else Lanes(lo, hi - 1)
    }

    /** Every access of every active thread is among the lanes of its part. */
    lemma {:induction false} EveryAccessIsALane(lo: nat, hi: nat, t: nat, i: nat)
      requires Valid() && lo <= t < hi <= warpSize && active[t] && i < Accesses()
      ensures Lane(t, addrs[t][i]) in Lanes(lo, hi)
      decreases hi
    {
      if t == hi - 1 {
        assert Lane(t, addrs[t][i]) == ThreadLanes(t, Accesses())[i];
      } else {
        EveryAccessIsALane(lo, hi - 1, t, i);
      }
    }

    /** And every lane is an access of an active thread. */
    lemma {:induction false} EveryLaneIsAnAccess(lo: nat, hi: nat, k: nat)
      requires Valid() && lo <= hi <= warpSize && k < |Lanes(lo, hi)|
      ensures var l := Lanes(lo, hi)[k];
        && lo <= l.thread < hi && active[l.thread]
        && exists i: nat :: i < Accesses() && i < |addrs[l.thread]| && l.addr == addrs[l.thread][i]
      decreases hi
    {
      if k < |Lanes(lo, hi - 1)| {
        EveryLaneIsAnAccess(lo, hi - 1, k);
      } else {
        var i := k - |Lanes(lo, hi - 1)|;
        assert Lanes(lo, hi)[k] == ThreadLanes(hi - 1, Accesses())[i];
      }
    }

    /** Gathers the accesses of a part of the warp, one transaction a block. */
    method Gather(lo: nat, hi: nat) returns (m: map<nat, Transaction>)
      requires Valid() && lo <= hi <= warpSize
      ensures Gathered(Lanes(lo, hi), AccessSize(), Segment(dataSize), m)
    {
      hide BlockOf, Join, Summary, Bytes;
      var segment := Segment(dataSize);
      m := map[];
      var thread := lo;
      while thread < hi
        invariant lo <= thread <= hi && Gathered(Lanes(lo, thread), AccessSize(), segment, m)
      {
        if active[thread] {
          m := GatherThread(lo, thread, m);
        }
        thread := thread + 1;
      }
    }

    /** Adds the accesses of one active thread. */
    method GatherThread(lo: nat, thread: nat, before: map<nat, Transaction>) returns (m: map<nat, Transaction>)
      requires Valid() && lo <= thread < warpSize && active[thread]
      requires Gathered(Lanes(lo, thread), AccessSize(), Segment(dataSize), before)
      ensures Gathered(Lanes(lo, thread) + ThreadLanes(thread, Accesses()), AccessSize(), Segment(dataSize), m)
    {
      hide BlockOf, Join, OfBlock, Summary, Bytes, Gathered, Lanes, AllAligned;
      var segment, size := Segment(dataSize), AccessSize();
      ghost var cs := Lanes(lo, thread);
      m := before;
      var i := 0;
      assert cs + ThreadLanes(thread, 0) == cs;
      while i < Accesses()
        invariant i <= Accesses() && Gathered(cs + ThreadLanes(thread, i), size, segment, m)
      {
        var l := Lane(thread, addrs[thread][i]);
        var block := BlockOf(l.addr, segment);
        LaneInChunk(l.addr, size, segment);
        assert block == BlockOf(l.addr + size - 1, segment);
        var info := Mark(if block in m then m[block] else NO_TRANSACTION, l, size);
        GatherOne(cs + ThreadLanes(thread, i), size, segment, m, l);
        assert cs + ThreadLanes(thread, i) + [l] == cs + ThreadLanes(thread, i + 1);
        m := m[block := info];
        i := i + 1;
      }
    }

    /** Gathers the atomic accesses of a part of the warp, by first fit in every block's list. */
    method GatherAtomic(lo: nat, hi: nat) returns (m: map<nat, seq<Transaction>>)
      requires Valid() && !inLocal && lo <= hi <= warpSize
      ensures Exact(Lanes(lo, hi), dataSize, Segment(dataSize), m)
    {
      hide BlockOf, Join, Slot, Summary, Bytes, FirstFit, Count;
      var segment := Segment(dataSize);
      m := map[];
      var thread := lo;
      while thread < hi
        invariant lo <= thread <= hi && Exact(Lanes(lo, thread), dataSize, segment, m)
      {
        if active[thread] {
          var l := Lane(thread, addrs[thread][0]);
          assert ThreadLanes(thread, 1) == [l];
          m := PlaceAtomic(m, l, segment, Lanes(lo, thread));
        }
        thread := thread + 1;
      }
    }

    /** An atomic joins the first transaction of its block without a conflict; no byte is taken twice. */
    method PlaceAtomic(m: map<nat, seq<Transaction>>, l: Lane, segment: nat, ghost cs: seq<Lane>)
      returns (m': map<nat, seq<Transaction>>)
      requires ValidSize(dataSize) && ValidSegment(segment) && Aligned(l, dataSize) && AllAligned(cs, dataSize)
      requires Exact(cs, dataSize, segment, m)
      ensures Exact(cs + [l], dataSize, segment, m')
    {
      hide BlockOf, Join, Slot, Summary, Bytes, FirstFit, Count, Exact;
      var block := BlockOf(l.addr, segment);
      LaneInChunk(l.addr, dataSize, segment);
      assert block == BlockOf(l.addr + dataSize - 1, segment);
      var ts := Get(m, block);
      var k := FindTransaction(ts, l, dataSize);
      PlaceExact(cs, dataSize, segment, m, l, k);
      var fits := k < |ts|;
      var info := if fits then ts[k] else NO_TRANSACTION;
      if fits {
        FitIsDisjoint(ts, l, dataSize, k);
      }
      assert info.bytes !! Bytes(l.addr, dataSize);
      info := Mark(info, l, dataSize);
      m' := m[block := if fits then ts[k := info] else ts + [info]];
    }

    method ReduceAndSend(t: Transaction, block: nat)
      requires Reducible(t, block, Segment(dataSize))
      modifies this`accessq
      ensures accessq == old(accessq) + [Reduce(t, block, Segment(dataSize))]
    {
      accessq := accessq + [Reduce(t, block, Segment(dataSize))];
    }

    /** Sends the transactions of every block, in the order of the blocks. */
    method SendAll(m: map<nat, Transaction>) returns (ghost keys: seq<nat>)
      requires forall b: nat :: b in m ==> Reducible(m[b], b, Segment(dataSize))
      modifies this`accessq
      ensures Ascending(keys) && (forall b: nat :: b in keys <==> b in m)
      ensures accessq == old(accessq) + Sent(keys, m, Segment(dataSize))
    {
      hide Reducible, Reduce, Sent;
      keys := [];
      var rest := m.Keys;
      assert accessq == old(accessq) + Sent([], m, Segment(dataSize)) by {
        SentNothing(m, Segment(dataSize));
      }
      while rest != {}
        invariant Visited(m.Keys, keys, rest)
        invariant accessq == old(accessq) + Sent(keys, m, Segment(dataSize))
        decreases rest
      {
        var b := SmallestKey(rest);
        VisitNext(m.Keys, keys, rest, b);
        ReduceAndSend(m[b], b);
        SentGrows(keys, m, Segment(dataSize), b);
        keys := keys + [b];
        rest := rest - {b};
      }
    }

    /** The accesses of one part of the warp are coalesced. */
    ghost predicate PartDone(s: nat, warpParts: nat, q: seq<Access>)
      requires Valid() && warpParts > 0
    {
      PartOf(s, warpParts) && Done(Lanes(PartStart(s, warpParts), PartStart(s + 1, warpParts)), q)
    }

    /** Accesses are merged by lines of 32 bytes for bytes, of 64 for halfwords, and of 128 for anything longer. */
    ghost predicate Done(cs: seq<Lane>, q: seq<Access>)
      requires Valid()
    {
      && (dataSize == 1 ==> Coalesced(cs, AccessSize(), 32, q) && OnePerLine(cs, q, 32))
      && (dataSize == 2 ==> Coalesced(cs, AccessSize(), 64, q) && OnePerLine(cs, q, 64))
      && (dataSize == 4 || dataSize == 8 || dataSize == 16 ==>
            Coalesced(cs, AccessSize(), 128, q) && OnePerLine(cs, q, 128))
    }

    /** Generates the accesses of the warp, part by part. */
    method Coalesce(warpParts: nat) returns (ghost parts: seq<seq<Access>>)
      requires Valid() && warpParts > 0 && warpSize % warpParts == 0
      modifies this`accessq
      ensures accessq == old(accessq) + Concat(parts) && |parts| == warpParts
      ensures forall s: nat :: s < warpParts ==> PartDone(s, warpParts, parts[s])
    {
      hide Coalesced, PartStart, PartDone, Lanes, Valid;
      parts := [];
      var s := 0;
      assert accessq == old(accessq) + Concat([]);
      hide Concat;
      while s < warpParts
        invariant s <= warpParts && |parts| == s && accessq == old(accessq) + Concat(parts)
        invariant forall p: nat :: p < s ==> PartDone(p, warpParts, parts[p])
      {
        ghost var q := SendPart(s, warpParts);
        ConcatGrows(parts, q);
        parts := parts + [q];
        s := s + 1;
      }
    }

    method SendPart(s: nat, warpParts: nat) returns (ghost q: seq<Access>)
      requires Valid() && s < warpParts && warpSize % warpParts == 0
      modifies this`accessq
      ensures accessq == old(accessq) + q && PartDone(s, warpParts, q)
    {
      hide Coalesced, OnePerLine, PartStart, Lanes, Valid, Done;
      PartBounds(s, warpParts);
      q := CoalescePart(PartStart(s, warpParts), PartStart(s + 1, warpParts));
    }

    function PartStart(s: nat, warpParts: nat): nat
      requires warpParts > 0
    {
      s * (warpSize / warpParts)
    }

    predicate PartOf(s: nat, warpParts: nat)
      requires warpParts > 0
    {
      PartStart(s, warpParts) <= PartStart(s + 1, warpParts) <= warpSize
    }

    /** The parts follow each other, are equally large and make up the warp. */
    lemma PartBounds(s: nat, warpParts: nat)
      requires s < warpParts && warpSize % warpParts == 0
      ensures PartOf(s, warpParts) && PartStart(0, warpParts) == 0 && PartStart(warpParts, warpParts) == warpSize
      ensures PartStart(s + 1, warpParts) - PartStart(s, warpParts) == warpSize / warpParts
    {
      var n := warpSize / warpParts;
      assert warpSize == warpParts * n;
      assert (s + 1) * n <= warpParts * n;
    }

    /** The accesses of a thread make up its data: four bytes at a time if local and longer than that, else at once. */
    lemma PiecesCover()
      requires ValidSize(dataSize)
      ensures Accesses() * AccessSize() == dataSize
      ensures AccessSize() == if inLocal && dataSize > 4 then 4 else dataSize
    {
    }

    method CoalescePart(lo: nat, hi: nat) returns (ghost q: seq<Access>)
      requires Valid() && lo <= hi <= warpSize
      modifies this`accessq
      ensures accessq == old(accessq) + q && Done(Lanes(lo, hi), q)
    {
      hide Reducible, Reduce, Gathered, Coalesced, OnePerLine;
      ghost var cs, size, segment := Lanes(lo, hi), AccessSize(), Segment(dataSize);
      var m := Gather(lo, hi);
      forall b: nat | b in m ensures Reducible(m[b], b, segment) {
        SentForBlock(cs, size, segment, m, b);
      }
      ghost var keys := SendAll(m);
      SentIsCoalesced(cs, size, segment, m, keys);
      SentOnePerLine(cs, size, segment, m, keys);
      q := Sent(keys, m, segment);
    }

    /** Sends the transactions of one block. */
    method SendList(m: map<nat, seq<Transaction>>, b: nat)
      requires b in m && forall k: nat :: k < |m[b]| ==> Reducible(m[b][k], b, Segment(dataSize))
      modifies this`accessq
      ensures accessq == old(accessq) + SentItems(RunOf(b, |m[b]|), m, Segment(dataSize))
    {
      hide Reducible, Reduce;
      var ts, k := m[b], 0;
      assert accessq == old(accessq) + SentItems(RunOf(b, k), m, Segment(dataSize));
      hide SentItems;
      while k < |ts|
        invariant k <= |ts|
        invariant accessq == old(accessq) + SentItems(RunOf(b, k), m, Segment(dataSize))
      {
        ReduceAndSend(ts[k], b);
        SentItemsGrows(RunOf(b, k), m, Segment(dataSize), Item(b, k));
        k := k + 1;
      }
    }

    /** Sends the transactions of every block, in the order of the blocks and of their lists. */
    method SendLists(m: map<nat, seq<Transaction>>) returns (ghost work: seq<Item>)
      requires forall b: nat, k: nat :: b in m && k < |m[b]| ==> Reducible(m[b][k], b, Segment(dataSize))
      modifies this`accessq
      ensures Listed(m, work) && accessq == old(accessq) + SentItems(work, m, Segment(dataSize))
    {
      hide Reducible, Reduce, ListedFor, ItemsOf, SentItems;
      ghost var keys := [];
      work := [];
      var rest := m.Keys;
      ListNothing(m, Segment(dataSize));
      while rest != {}
        invariant Visited(m.Keys, keys, rest) && ListedFor(m, keys, work)
        invariant accessq == old(accessq) + SentItems(work, m, Segment(dataSize))
        decreases rest
      {
        var b := SmallestKey(rest);
        VisitNext(m.Keys, keys, rest, b);
        ListNext(m, keys, work, b);
        SentItemsAppend(work, RunOf(b, |m[b]|), m, Segment(dataSize));
        SendList(m, b);
        work := work + RunOf(b, |m[b]|);
        keys := keys + [b];
        rest := rest - {b};
      }
      ListedAll(m, keys, work);
    }

    method CoalesceAtomicPart(lo: nat, hi: nat) returns (ghost q: seq<Access>)
      requires Valid() && !inLocal && lo <= hi <= warpSize
      modifies this`accessq
      ensures accessq == old(accessq) + q && AtomicDone(Lanes(lo, hi), q)
    {
      hide Reducible, Reduce, Exact, AtomicQueue;
      ghost var cs, segment := Lanes(lo, hi), Segment(dataSize);
      var m := GatherAtomic(lo, hi);
      forall b: nat, k: nat | b in m && k < |m[b]| ensures Reducible(m[b][k], b, segment) {
        ReduceMadeOf(cs, dataSize, segment, m, Item(b, k));
      }
      ghost var work := SendLists(m);
      SentIsAtomic(cs, dataSize, segment, m, work);
      q := SentItems(work, m, segment);
    }

    ghost predicate AtomicPartDone(s: nat, warpParts: nat, q: seq<Access>)
      requires Valid() && warpParts > 0
    {
      PartOf(s, warpParts) && AtomicDone(Lanes(PartStart(s, warpParts), PartStart(s + 1, warpParts)), q)
    }

    /** The number of accesses to a line is that of the most lanes on one of its addresses, lines being as for ordinary
        accesses. */
    ghost predicate AtomicDone(cs: seq<Lane>, q: seq<Access>) {
      && (dataSize == 1 ==> AtomicQueue(cs, 1, 32, q)) && (dataSize == 2 ==> AtomicQueue(cs, 2, 64, q))
      && (dataSize == 4 || dataSize == 8 || dataSize == 16 ==> AtomicQueue(cs, dataSize, 128, q))
    }

    method SendAtomicPart(s: nat, warpParts: nat) returns (ghost q: seq<Access>)
      requires Valid() && !inLocal && s < warpParts && warpSize % warpParts == 0
      modifies this`accessq
      ensures accessq == old(accessq) + q && AtomicPartDone(s, warpParts, q)
    {
      hide AtomicQueue, PartStart, Lanes, Valid, AtomicDone;
      PartBounds(s, warpParts);
      q := CoalesceAtomicPart(PartStart(s, warpParts), PartStart(s + 1, warpParts));
    }

    /** Generates the accesses of an atomic instruction, half a warp at a time; atomics are to global memory. */
    method CoalesceAtomic() returns (ghost parts: seq<seq<Access>>)
      requires Valid() && !inLocal && warpSize % 2 == 0
      modifies this`accessq
      ensures accessq == old(accessq) + Concat(parts) && |parts| == 2
      ensures AtomicPartDone(0, 2, parts[0]) && AtomicPartDone(1, 2, parts[1])
    {
      hide AtomicQueue, PartStart, AtomicPartDone, Lanes, Valid;
      parts := [];
      var s := 0;
      assert accessq == old(accessq) + Concat([]);
      hide Concat;
      while s < 2
        invariant s <= 2 && |parts| == s && accessq == old(accessq) + Concat(parts)
        invariant forall p: nat :: p < s ==> AtomicPartDone(p, 2, parts[p])
      {
        ghost var q := SendAtomicPart(s, 2);
        ConcatGrows(parts, q);
        parts := parts + [q];
        s := s + 1;
      }
    }
  }

  lemma ListNothing(m: map<nat, seq<Transaction>>, segment: nat)
    ensures ListedFor(m, [], []) && SentItems([], m, segment) == []
  {
  }

  lemma ListedAll(m: map<nat, seq<Transaction>>, keys: seq<nat>, work: seq<Item>)
    requires ListedFor(m, keys, work) && forall b: nat :: b in m ==> b in keys
    ensures Listed(m, work)
  {
  }

  lemma SentItemsAppend(work: seq<Item>, run: seq<Item>, m: map<nat, seq<Transaction>>, segment: nat)
    ensures SentItems(work + run, m, segment) == SentItems(work, m, segment) + SentItems(run, m, segment)
  {
    hide Reduce, At;
  }
}
