/** Memory access coalescing: how the accesses of the threads of a warp are gathered into transactions. */
module Coalescing {
  import opened Collections

  /** One thread's access to `addr`. */
  datatype Lane = Lane(thread: nat, addr: nat)

  /** Which 32-byte chunks and which bytes of a 128-byte line are touched, and by whom. */
  datatype Transaction = Transaction(chunks: set<nat>, bytes: set<nat>, threads: set<nat>)

  const NO_TRANSACTION := Transaction({}, {}, {})

  predicate ValidSize(size: nat) {
    size == 1 || size == 2 || size == 4 || size == 8 || size == 16
  }

  /** The segment that accesses of a data size are gathered by. */
  function Segment(dataSize: nat): nat {
    if dataSize == 1 then 32 else if dataSize == 2 then 64 else 128
  }

  function BlockOf(addr: nat, segment: nat): nat
    requires segment > 0
  {
    addr - addr % segment
  }

  function Chunk(addr: nat): nat {
    addr % 128 / 32
  }

  function Bytes(addr: nat, size: nat): (s: set<nat>)
    ensures forall x: nat :: x in s <==> addr % 128 <= x < addr % 128 + size
  {
    Interval(addr % 128, size)
  }

  function Interval(lo: nat, n: nat): (s: set<nat>)
    ensures forall x: nat :: x in s <==> lo <= x < lo + n
  {
    if n == 0 then {} else Interval(lo, n - 1) + {lo + n - 1}
  }

  predicate Aligned(l: Lane, size: nat)
    requires size > 0
  {
    Multiple(l.addr, size)
  }

  predicate Multiple(addr: nat, size: nat)
    requires size > 0
  {
    addr % size == 0
  }

  /** The transaction with one more thread. */
  function Join(t: Transaction, l: Lane, size: nat): Transaction {
    Transaction(t.chunks + {Chunk(l.addr)}, t.bytes + Bytes(l.addr, size), t.threads + {l.thread})
  }

  predicate ValidSegment(segment: nat) {
    segment == 32 || segment == 64 || segment == 128
  }

  lemma SameLine(a: nat, b: nat, segment: nat)
    requires ValidSegment(segment) && BlockOf(a, segment) == BlockOf(b, segment)
    ensures a - a % 128 == b - b % 128
  {
    if segment == 32 {
      SameQuarter(a, b);
    } else if segment == 64 {
      SameHalf(a, b);
    }
  }

  lemma SameQuarter(a: nat, b: nat)
    requires a - a % 32 == b - b % 32
    ensures a - a % 128 == b - b % 128
  {
    var k := a / 32;
    InLine(k / 4, 32 * (k % 4) + a % 32);
    InLine(k / 4, 32 * (k % 4) + b % 32);
  }

  lemma SameHalf(a: nat, b: nat)
    requires a - a % 64 == b - b % 64
    ensures a - a % 128 == b - b % 128
  {
    var k := a / 64;
    InLine(k / 2, 64 * (k % 2) + a % 64);
    InLine(k / 2, 64 * (k % 2) + b % 64);
  }

  lemma InLine(n: nat, r: nat)
    requires r < 128
    ensures (128 * n + r) % 128 == r
  {
  }

  lemma MultiplesApart(a: nat, b: nat, size: nat)
    requires ValidSize(size) && Multiple(a, size) && Multiple(b, size) && a < b
    ensures a + size <= b
  {
    hide Multiple;
    var k := Units(a, size);
    var n := Units(b, size);
    assert k < n;
  }

  /** The address in units of the access size. */
  lemma Units(a: nat, size: nat) returns (k: nat)
    requires ValidSize(size) && Multiple(a, size)
    ensures size == 1 ==> a == k
    ensures size == 2 ==> a == 2 * k
    ensures size == 4 ==> a == 4 * k
    ensures size == 8 ==> a == 8 * k
    ensures size == 16 ==> a == 16 * k
  {
    hide Multiple;
    if size == 1 {
      k := a;
    } else if size == 2 {
      k := Units2(a);
    } else if size == 4 {
      k := Units4(a);
    } else if size == 8 {
      k := Units8(a);
    } else {
      k := Units16(a);
    }
  }

  lemma Units2(a: nat) returns (k: nat)
    requires Multiple(a, 2)
    ensures a == 2 * k
  {
    k := a / 2;
  }

  lemma Units4(a: nat) returns (k: nat)
    requires Multiple(a, 4)
    ensures a == 4 * k
  {
    k := a / 4;
  }

  lemma Units8(a: nat) returns (k: nat)
    requires Multiple(a, 8)
    ensures a == 8 * k
  {
    k := a / 8;
  }

  lemma Units16(a: nat) returns (k: nat)
    requires Multiple(a, 16)
    ensures a == 16 * k
  {
    k := a / 16;
  }

  /** Naturally aligned accesses of one size in one block are the same or disjoint. */
  lemma SameOrDisjoint(a: nat, b: nat, size: nat, segment: nat)
    requires ValidSize(size) && ValidSegment(segment)
    requires Multiple(a, size) && Multiple(b, size) && BlockOf(a, segment) == BlockOf(b, segment)
    ensures a != b ==> Bytes(a, size) !! Bytes(b, size)
    ensures a == b ==> a % 128 in Bytes(a, size) * Bytes(b, size)
  {
    hide Multiple, BlockOf;
    SameLine(a, b, segment);
    if a < b {
      MultiplesApart(a, b, size);
    } else if b < a {
      MultiplesApart(b, a, size);
    }
  }

  // ----- Atomic accesses: who goes to which transaction

  /** How many of the lanes access `addr`. */
  function Count(cs: seq<Lane>, addr: nat): (n: nat)
    ensures n <= |cs|
  {
    if cs == [] then 0
    else Count(cs[..|cs| - 1], addr) + if cs[|cs| - 1].addr == addr then 1 else 0
  }

  /** The lanes that belong in transaction `k` of block `b`: those with `k` lanes to their address before them. */
  ghost function Slot(cs: seq<Lane>, segment: nat, b: nat, k: nat): seq<Lane>
    requires segment > 0
  {
    if cs == [] then []
    else
      var rest, l := cs[..|cs| - 1], cs[|cs| - 1];
      if BlockOf(l.addr, segment) == b && Count(rest, l.addr) == k then Slot(rest, segment, b, k) + [l]
      else Slot(rest, segment, b, k)
  }

  /** The transaction made of some lanes. */
  function Summary(ls: seq<Lane>, size: nat): Transaction {
    if ls == [] then NO_TRANSACTION else Join(Summary(ls[..|ls| - 1], size), ls[|ls| - 1], size)
  }

  /** The transactions of every block are made of its lanes by rank, and there are as many as the most lanes
      on one address. */
  ghost predicate Exact(cs: seq<Lane>, size: nat, segment: nat, m: map<nat, seq<Transaction>>)
    requires segment > 0
  {
    && (forall i: nat :: i < |cs| ==>
          BlockOf(cs[i].addr, segment) in m && Count(cs, cs[i].addr) <= |m[BlockOf(cs[i].addr, segment)]|)
    && (forall b: nat, k: nat :: b in m && k < |m[b]| ==>
          Slot(cs, segment, b, k) != [] && m[b][k] == Summary(Slot(cs, segment, b, k), size))
    && (forall b: nat :: b in m ==> m[b] != [])
  }

  /** `k` is the first transaction that the lane does not conflict with. */
  ghost predicate FirstFit(ts: seq<Transaction>, l: Lane, size: nat, k: nat) {
    && k <= |ts|
    && (forall j: nat :: j < k ==> !(ts[j].bytes !! Bytes(l.addr, size)))
    && (k < |ts| ==> ts[k].bytes !! Bytes(l.addr, size))
  }

  function Placed(ts: seq<Transaction>, l: Lane, size: nat, k: nat): seq<Transaction>
    requires k <= |ts|
  {
    if k < |ts| then ts[k := Join(ts[k], l, size)] else ts + [Join(NO_TRANSACTION, l, size)]
  }

  function Get(m: map<nat, seq<Transaction>>, b: nat): seq<Transaction> {
    if b in m then m[b] else []
  }

  ghost predicate HasAddress(ls: seq<Lane>, addr: nat) {
    exists i :: 0 <= i < |ls| && ls[i].addr == addr
  }

  lemma {:induction false} SlotLanes(cs: seq<Lane>, segment: nat, b: nat, k: nat, i: nat)
    requires segment > 0 && i < |Slot(cs, segment, b, k)|
    ensures var l := Slot(cs, segment, b, k)[i]; BlockOf(l.addr, segment) == b && l in cs && k < Count(cs, l.addr)
  {
    var rest := cs[..|cs| - 1];
    if i < |Slot(rest, segment, b, k)| {
      SlotLanes(rest, segment, b, k, i);
    }
  }

  /** Every rank below the count of an address has a lane with that address. */
  lemma {:induction false} LaneOfRank(cs: seq<Lane>, segment: nat, addr: nat, k: nat)
    requires segment > 0 && k < Count(cs, addr)
    ensures HasAddress(Slot(cs, segment, BlockOf(addr, segment), k), addr)
    decreases |cs|
  {
    var rest, b := cs[..|cs| - 1], BlockOf(addr, segment);
    if k < Count(rest, addr) {
      LaneOfRank(rest, segment, addr, k);
      var i :| 0 <= i < |Slot(rest, segment, b, k)| && Slot(rest, segment, b, k)[i].addr == addr;
      assert Slot(cs, segment, b, k)[i].addr == addr;
    } else {
      assert Slot(cs, segment, b, k)[|Slot(rest, segment, b, k)|].addr == addr;
    }
  }

  /** A transaction conflicts with a lane exactly when it has a lane with the same address. */
  lemma {:induction false} ConflictIsSameAddress(ls: seq<Lane>, size: nat, segment: nat, l: Lane)
    requires ValidSize(size) && ValidSegment(segment) && Aligned(l, size)
    requires forall i :: 0 <= i < |ls| ==>
        Aligned(ls[i], size) && BlockOf(ls[i].addr, segment) == BlockOf(l.addr, segment)
    ensures !(Summary(ls, size).bytes !! Bytes(l.addr, size)) <==> HasAddress(ls, l.addr)
    decreases |ls|
  {
    if ls != [] {
      var n := |ls| - 1;
      ConflictIsSameAddress(ls[..n], size, segment, l);
      SameOrDisjoint(ls[n].addr, l.addr, size, segment);
      assert HasAddress(ls, l.addr) <==> HasAddress(ls[..n], l.addr) || ls[n].addr == l.addr by {
        if HasAddress(ls[..n], l.addr) {
          var i :| 0 <= i < n && ls[..n][i].addr == l.addr;
          assert ls[i].addr == l.addr;
        }
        if i :| 0 <= i < |ls| && ls[i].addr == l.addr {
          assert i < n ==> ls[..n][i].addr == l.addr;
        }
      }
    }
  }

  lemma SlotConflict(cs: seq<Lane>, size: nat, segment: nat, l: Lane, k: nat)
    requires ValidSize(size) && ValidSegment(segment) && Aligned(l, size)
    requires forall i: nat :: i < |cs| ==> Aligned(cs[i], size)
    ensures !(Summary(Slot(cs, segment, BlockOf(l.addr, segment), k), size).bytes !! Bytes(l.addr, size)) <==>
        k < Count(cs, l.addr)
  {
    var b := BlockOf(l.addr, segment);
    var ls := Slot(cs, segment, b, k);
    forall i: nat | i < |ls|
      ensures Aligned(ls[i], size) && BlockOf(ls[i].addr, segment) == b && k < Count(cs, ls[i].addr)
    {
      SlotLanes(cs, segment, b, k, i);
    }
    ConflictIsSameAddress(ls, size, segment, l);
    if k < Count(cs, l.addr) {
      LaneOfRank(cs, segment, l.addr, k);
    }
  }

  /** First fit finds the transaction numbered by how many lanes before this one have its address. */
  lemma FirstFitIsRank(cs: seq<Lane>, size: nat, segment: nat, m: map<nat, seq<Transaction>>, l: Lane, k: nat)
    requires ValidSize(size) && ValidSegment(segment) && Aligned(l, size)
    requires forall i: nat :: i < |cs| ==> Aligned(cs[i], size)
    requires Exact(cs, size, segment, m) && FirstFit(Get(m, BlockOf(l.addr, segment)), l, size, k)
    ensures k == Count(cs, l.addr)
  {
    hide BlockOf, Slot, Summary, Count, Aligned;
    CountFits(cs, size, segment, m, l.addr);
    SlotConflict(cs, size, segment, l, k);
    SlotConflict(cs, size, segment, l, Count(cs, l.addr));
  }

  /** One more lane joins the transaction of its rank and no other. */
  lemma SlotGrows(cs: seq<Lane>, segment: nat, l: Lane, b: nat, k: nat)
    requires segment > 0
    ensures Slot(cs + [l], segment, b, k) ==
            if b == BlockOf(l.addr, segment) && k == Count(cs, l.addr) then Slot(cs, segment, b, k) + [l]
            else Slot(cs, segment, b, k)
  {
    assert (cs + [l])[..|cs|] == cs;
  }

  lemma CountGrows(cs: seq<Lane>, l: Lane, addr: nat)
    ensures Count(cs + [l], addr) == Count(cs, addr) + if l.addr == addr then 1 else 0
  {
    assert (cs + [l])[..|cs|] == cs;
  }

  lemma SummaryGrows(ls: seq<Lane>, l: Lane, size: nat)
    ensures Summary(ls + [l], size) == Join(Summary(ls, size), l, size)
  {
    assert (ls + [l])[..|ls|] == ls;
  }

  /** Placing a lane by first fit keeps the transactions exact. */
  lemma PlaceExact(cs: seq<Lane>, size: nat, segment: nat, m: map<nat, seq<Transaction>>, l: Lane, k: nat)
    requires ValidSize(size) && ValidSegment(segment) && Aligned(l, size)
    requires forall i: nat :: i < |cs| ==> Aligned(cs[i], size)
    requires Exact(cs, size, segment, m) && FirstFit(Get(m, BlockOf(l.addr, segment)), l, size, k)
    ensures Exact(cs + [l], size, segment,
                  m[BlockOf(l.addr, segment) := Placed(Get(m, BlockOf(l.addr, segment)), l, size, k)])
  {
    hide BlockOf, Slot, Summary, Count, Join, Bytes;
    var b := BlockOf(l.addr, segment);
    FirstFitIsRank(cs, size, segment, m, l, k);
    hide FirstFit;
    var m' := m[b := Placed(Get(m, b), l, size, k)];
    forall d: nat, j: nat | d in m' && j < |m'[d]|
      ensures Slot(cs + [l], segment, d, j) != [] && m'[d][j] == Summary(Slot(cs + [l], segment, d, j), size)
    {
      PlaceOne(cs, size, segment, m, l, d, j);
    }
    forall i: nat | i < |cs + [l]|
      ensures BlockOf((cs + [l])[i].addr, segment) in m'
      ensures Count(cs + [l], (cs + [l])[i].addr) <= |m'[BlockOf((cs + [l])[i].addr, segment)]|
    {
      CountGrows(cs, l, (cs + [l])[i].addr);
      CountFits(cs, size, segment, m, (cs + [l])[i].addr);
    }
  }

  /** The transactions of block `d` after lane `l` was placed by its rank. */
  ghost function AfterPlace(cs: seq<Lane>, size: nat, segment: nat, m: map<nat, seq<Transaction>>, l: Lane,
                            d: nat): seq<Transaction>
    requires segment > 0 && Count(cs, l.addr) <= |Get(m, BlockOf(l.addr, segment))|
  {
    if d == BlockOf(l.addr, segment) then Placed(Get(m, d), l, size, Count(cs, l.addr)) else Get(m, d)
  }

  lemma PlaceOne(cs: seq<Lane>, size: nat, segment: nat, m: map<nat, seq<Transaction>>, l: Lane, d: nat, j: nat)
    requires segment > 0 && Exact(cs, size, segment, m) && Count(cs, l.addr) <= |Get(m, BlockOf(l.addr, segment))|
    requires j < |AfterPlace(cs, size, segment, m, l, d)|
    ensures var ts := AfterPlace(cs, size, segment, m, l, d);
            Slot(cs + [l], segment, d, j) != [] && ts[j] == Summary(Slot(cs + [l], segment, d, j), size)
  {
    hide BlockOf, Slot, Count, Join, Bytes;
    SlotGrows(cs, segment, l, d, j);
    SummaryGrows(Slot(cs, segment, d, j), l, size);
    if j >= |Get(m, d)| {
      NoSlotYet(cs, size, segment, m, d, j);
    }
  }

  lemma CountFits(cs: seq<Lane>, size: nat, segment: nat, m: map<nat, seq<Transaction>>, addr: nat)
    requires segment > 0 && Exact(cs, size, segment, m)
    ensures Count(cs, addr) <= |Get(m, BlockOf(addr, segment))|
  {
    if Count(cs, addr) > 0 {
      var i := LaneAt(cs, addr);
    }
  }

  lemma {:induction false} LaneAt(cs: seq<Lane>, addr: nat) returns (i: nat)
    requires Count(cs, addr) > 0
    ensures i < |cs| && cs[i].addr == addr
    decreases |cs|
  {
    var n := |cs| - 1;
    if cs[n].addr == addr {
      i := n;
    } else {
      i := LaneAt(cs[..n], addr);
    }
  }

  /** There are no lanes for a transaction beyond the last one. */
  lemma NoSlotYet(cs: seq<Lane>, size: nat, segment: nat, m: map<nat, seq<Transaction>>, b: nat, k: nat)
    requires segment > 0 && Exact(cs, size, segment, m) && k >= |Get(m, b)|
    ensures Slot(cs, segment, b, k) == []
  {
    if Slot(cs, segment, b, k) != [] {
      SlotLanes(cs, segment, b, k, 0);
      CountFits(cs, size, segment, m, Slot(cs, segment, b, k)[0].addr);
    }
  }

  // ----- Atomic accesses: what exact transactions promise

  /** How many lanes before lane `i` have its address. */
  function Rank(cs: seq<Lane>, i: nat): nat
    requires i < |cs|
  {
    Count(cs[..i], cs[i].addr)
  }

  ghost predicate DistinctThreads(cs: seq<Lane>) {
    forall i: nat, j: nat :: i < j < |cs| ==> cs[i].thread < cs[j].thread
  }

  ghost predicate HasThread(ls: seq<Lane>, thread: nat) {
    exists i :: 0 <= i < |ls| && ls[i].thread == thread
  }

  lemma {:induction false} SummaryThreads(ls: seq<Lane>, size: nat, thread: nat)
    ensures thread in Summary(ls, size).threads <==> HasThread(ls, thread)
    decreases |ls|
  {
    hide HasThread, Bytes, Chunk;
    if ls == [] {
      NoThread(ls, thread);
    } else {
      SummaryThreads(ls[..|ls| - 1], size, thread);
      HasThreadLast(ls, thread);
    }
  }

  lemma NoThread(ls: seq<Lane>, thread: nat)
    requires ls == []
    ensures !HasThread(ls, thread)
  {
  }

  lemma HasThreadLast(ls: seq<Lane>, thread: nat)
    requires ls != []
    ensures var n := |ls| - 1; HasThread(ls, thread) <==> HasThread(ls[..n], thread) || ls[n].thread == thread
  {
    var n := |ls| - 1;
    if HasThread(ls[..n], thread) {
      var i :| 0 <= i < n && ls[..n][i].thread == thread;
      assert ls[i].thread == thread;
    }
    if i :| 0 <= i < |ls| && ls[i].thread == thread {
      assert i < n ==> ls[..n][i].thread == thread;
    }
    if ls[n].thread == thread {
      assert HasThread(ls, thread);
    }
  }

  /** Lane `i` is in the slot of its block and rank. */
  ghost predicate InSlot(cs: seq<Lane>, segment: nat, b: nat, k: nat, i: nat)
    requires segment > 0 && i < |cs|
  {
    BlockOf(cs[i].addr, segment) == b && Rank(cs, i) == k
  }

  lemma {:induction false} SlotThreads(cs: seq<Lane>, segment: nat, b: nat, k: nat, i: nat)
    requires segment > 0 && DistinctThreads(cs) && i < |cs|
    ensures HasThread(Slot(cs, segment, b, k), cs[i].thread) <==> InSlot(cs, segment, b, k, i)
    decreases |cs|
  {
    hide BlockOf, Count;
    var n := |cs| - 1;
    var rest, ls := cs[..n], Slot(cs[..n], segment, b, k);
    var all := Slot(cs, segment, b, k);
    if i < n {
      SlotThreads(rest, segment, b, k, i);
      assert rest[..i] == cs[..i];
      assert InSlot(rest, segment, b, k, i) == InSlot(cs, segment, b, k, i);
      if j :| 0 <= j < |ls| && ls[j].thread == cs[i].thread {
        assert all[j].thread == cs[i].thread;
      }
      if j :| 0 <= j < |all| && all[j].thread == cs[i].thread {
        assert j < |ls|;
        assert ls[j].thread == cs[i].thread;
      }
    } else {
      if j :| 0 <= j < |ls| && ls[j].thread == cs[n].thread {
        SlotLanes(rest, segment, b, k, j);
      }
      if InSlot(cs, segment, b, k, i) {
        assert all[|ls|].thread == cs[i].thread;
      }
    }
  }

  /** Every thread is in the transaction of its block numbered by its rank, and in no other. */
  lemma OneTransactionEach(cs: seq<Lane>, size: nat, segment: nat, m: map<nat, seq<Transaction>>, i: nat, b: nat,
                           k: nat)
    requires segment > 0 && DistinctThreads(cs) && Exact(cs, size, segment, m)
    requires i < |cs| && b in m && k < |m[b]|
    ensures cs[i].thread in m[b][k].threads <==> InSlot(cs, segment, b, k, i)
  {
    SummaryThreads(Slot(cs, segment, b, k), size, cs[i].thread);
    SlotThreads(cs, segment, b, k, i);
  }

  lemma {:induction false} CountMonotone(cs: seq<Lane>, i: nat, addr: nat)
    requires i <= |cs|
    ensures Count(cs[..i], addr) <= Count(cs, addr)
    decreases |cs|
  {
    if i == |cs| {
      assert cs[..i] == cs;
    } else {
      CountMonotone(cs[..|cs| - 1], i, addr);
      assert cs[..|cs| - 1][..i] == cs[..i];
    }
  }

  /** Lanes with one address have strictly increasing ranks. */
  lemma RanksIncrease(cs: seq<Lane>, i: nat, j: nat)
    requires i < j < |cs| && cs[i].addr == cs[j].addr
    ensures Rank(cs, i) < Rank(cs, j)
  {
    CountMonotone(cs[..j], i + 1, cs[i].addr);
    assert cs[..j][..i + 1] == cs[..i + 1];
    assert cs[..i + 1][..i] == cs[..i];
  }

  lemma RankBelowCount(cs: seq<Lane>, i: nat)
    requires i < |cs|
    ensures Rank(cs, i) < Count(cs, cs[i].addr)
  {
    CountMonotone(cs, i + 1, cs[i].addr);
    assert cs[..i + 1][..i] == cs[..i];
  }

  /** The transaction that serves a lane. */
  ghost predicate Serves(cs: seq<Lane>, m: map<nat, seq<Transaction>>, i: nat, b: nat, k: nat)
    requires i < |cs|
  {
    b in m && k < |m[b]| && cs[i].thread in m[b][k].threads
  }

  /** What atomic coalescing promises of one subwarp: every thread is in exactly one transaction; two lanes in one
      transaction touch no common byte; lanes with one address go to transactions in lane order; and a block has
      as many transactions as the most lanes on one address. */
  ghost predicate AtomicallyCoalesced(cs: seq<Lane>, size: nat, segment: nat, m: map<nat, seq<Transaction>>)
    requires segment > 0
  {
    && (forall i: nat :: i < |cs| ==> Serves(cs, m, i, BlockOf(cs[i].addr, segment), Rank(cs, i)))
    && (forall i: nat, b: nat, k: nat :: i < |cs| && Serves(cs, m, i, b, k) ==>
          b == BlockOf(cs[i].addr, segment) && k == Rank(cs, i))
    && (forall i: nat, j: nat, b: nat, k: nat :: i < j < |cs| && Serves(cs, m, i, b, k) && Serves(cs, m, j, b, k) ==>
          Bytes(cs[i].addr, size) !! Bytes(cs[j].addr, size))
    && (forall i: nat, j: nat :: i < j < |cs| && cs[i].addr == cs[j].addr ==> Rank(cs, i) < Rank(cs, j))
    && (forall b: nat :: b in m ==> MostShared(cs, segment, b, |m[b]|))
  }

  /** `n` is the largest number of lanes on one address of block `b`. */
  ghost predicate MostShared(cs: seq<Lane>, segment: nat, b: nat, n: nat)
    requires segment > 0
  {
    && (forall i: nat :: i < |cs| && BlockOf(cs[i].addr, segment) == b ==> Count(cs, cs[i].addr) <= n)
    && (exists i: nat :: i < |cs| && BlockOf(cs[i].addr, segment) == b && Count(cs, cs[i].addr) == n)
  }

  lemma ExactIsMostShared(cs: seq<Lane>, size: nat, segment: nat, m: map<nat, seq<Transaction>>, b: nat)
    requires segment > 0 && Exact(cs, size, segment, m) && b in m
    ensures MostShared(cs, segment, b, |m[b]|)
  {
    hide BlockOf, Slot, Count, Summary;
    var k := |m[b]| - 1;
    SlotLanes(cs, segment, b, k, 0);
    var l := Slot(cs, segment, b, k)[0];
    var i: nat :| i < |cs| && cs[i] == l;
  }

  lemma SharedTransaction(cs: seq<Lane>, size: nat, segment: nat, i: nat, j: nat)
    requires ValidSize(size) && ValidSegment(segment) && forall i: nat :: i < |cs| ==> Aligned(cs[i], size)
    requires i < j < |cs| && BlockOf(cs[i].addr, segment) == BlockOf(cs[j].addr, segment) && Rank(cs, i) == Rank(cs, j)
    ensures Bytes(cs[i].addr, size) !! Bytes(cs[j].addr, size)
  {
    if cs[i].addr == cs[j].addr {
      RanksIncrease(cs, i, j);
    }
    SameOrDisjoint(cs[i].addr, cs[j].addr, size, segment);
  }

  lemma ExactIsAtomic(cs: seq<Lane>, size: nat, segment: nat, m: map<nat, seq<Transaction>>)
    requires ValidSize(size) && ValidSegment(segment) && forall i: nat :: i < |cs| ==> Aligned(cs[i], size)
    requires DistinctThreads(cs) && Exact(cs, size, segment, m)
    ensures AtomicallyCoalesced(cs, size, segment, m)
  {
    hide BlockOf, Slot, Count, Summary, Bytes, Rank, MostShared, Exact;
    forall i: nat, b: nat, k: nat | i < |cs| && b in m && k < |m[b]|
      ensures Serves(cs, m, i, b, k) <==> InSlot(cs, segment, b, k, i)
    {
      OneTransactionEach(cs, size, segment, m, i, b, k);
    }
    forall i: nat | i < |cs|
      ensures Serves(cs, m, i, BlockOf(cs[i].addr, segment), Rank(cs, i))
    {
      RankBelowCount(cs, i);
      CountFits(cs, size, segment, m, cs[i].addr);
      assert InSlot(cs, segment, BlockOf(cs[i].addr, segment), Rank(cs, i), i);
    }
    forall i: nat, j: nat, b: nat, k: nat | i < j < |cs| && Serves(cs, m, i, b, k) && Serves(cs, m, j, b, k)
      ensures Bytes(cs[i].addr, size) !! Bytes(cs[j].addr, size)
    {
      SharedTransaction(cs, size, segment, i, j);
    }
    forall i: nat, j: nat | i < j < |cs| && cs[i].addr == cs[j].addr ensures Rank(cs, i) < Rank(cs, j) {
      RanksIncrease(cs, i, j);
    }
    forall b: nat | b in m ensures MostShared(cs, segment, b, |m[b]|) {
      ExactIsMostShared(cs, size, segment, m, b);
    }
  }

  /** Any way of numbering the lanes such that overlapping lanes of a block get different numbers. */
  ghost predicate ConflictFree(cs: seq<Lane>, size: nat, segment: nat, number: seq<nat>)
    requires segment > 0
  {
    && |number| == |cs|
    && (forall i: nat, j: nat :: i < j < |cs| && BlockOf(cs[i].addr, segment) == BlockOf(cs[j].addr, segment) ==>
          Bytes(cs[i].addr, size) !! Bytes(cs[j].addr, size) || number[i] != number[j])
  }

  /** The numbers given to the lanes on one address. */
  ghost function Numbers(cs: seq<Lane>, number: seq<nat>, addr: nat): (s: set<nat>)
    requires |number| == |cs|
    decreases |cs|
  {
    if cs == [] then {}
    else
      var n := |cs| - 1;
      Numbers(cs[..n], number[..n], addr) + if cs[n].addr == addr then {number[n]} else {}
  }

  ghost predicate Numbered(cs: seq<Lane>, number: seq<nat>, addr: nat, x: nat) {
    exists i: nat :: i < |cs| && i < |number| && cs[i].addr == addr && number[i] == x
  }

  lemma {:induction false} NumberedLane(cs: seq<Lane>, number: seq<nat>, addr: nat, x: nat)
    requires |number| == |cs| && x in Numbers(cs, number, addr)
    ensures Numbered(cs, number, addr, x)
    decreases |cs|
  {
    var n := |cs| - 1;
    if x in Numbers(cs[..n], number[..n], addr) {
      NumberedLane(cs[..n], number[..n], addr, x);
      var i: nat :| i < n && cs[..n][i].addr == addr && number[..n][i] == x;
      assert cs[i].addr == addr && number[i] == x;
    } else {
      assert cs[n].addr == addr && number[n] == x;
    }
  }

  lemma {:induction false} NumbersDiffer(cs: seq<Lane>, number: seq<nat>, addr: nat)
    requires |number| == |cs|
    requires forall i: nat, j: nat :: i < j < |cs| && cs[i].addr == addr && cs[j].addr == addr ==>
        number[i] != number[j]
    ensures |Numbers(cs, number, addr)| == Count(cs, addr)
    decreases |cs|
  {
    if cs != [] {
      var n := |cs| - 1;
      NumbersDiffer(cs[..n], number[..n], addr);
      if cs[n].addr == addr && number[n] in Numbers(cs[..n], number[..n], addr) {
        NumberedLane(cs[..n], number[..n], addr, number[n]);
        assert false;
      }
    }
  }

  lemma {:induction false} IntervalSize(lo: nat, n: nat)
    ensures |Interval(lo, n)| == n
  {
    if n > 0 {
      IntervalSize(lo, n - 1);
    }
  }

  /** No conflict-free numbering of a block's lanes uses fewer transactions than the most lanes on one address. */
  lemma FewestTransactions(cs: seq<Lane>, size: nat, segment: nat, b: nat, used: nat, number: seq<nat>, n: nat)
    requires ValidSize(size) && ValidSegment(segment) && forall i: nat :: i < |cs| ==> Aligned(cs[i], size)
    requires MostShared(cs, segment, b, used) && ConflictFree(cs, size, segment, number)
    requires forall i: nat :: i < |cs| && BlockOf(cs[i].addr, segment) == b ==> number[i] < n
    ensures used <= n
  {
    hide Count, Bytes, BlockOf;
    var i: nat :| i < |cs| && BlockOf(cs[i].addr, segment) == b && Count(cs, cs[i].addr) == used;
    var addr := cs[i].addr;
    forall p: nat, q: nat | p < q < |cs| && cs[p].addr == addr && cs[q].addr == addr ensures number[p] != number[q] {
      SameOrDisjoint(addr, addr, size, segment);
    }
    NumbersDiffer(cs, number, addr);
    IntervalSize(0, n);
    forall x: nat | x in Numbers(cs, number, addr) ensures x in Interval(0, n) {
      NumberedLane(cs, number, addr, x);
    }
    assert Numbers(cs, number, addr) <= Interval(0, n);
    SubsetSize(Numbers(cs, number, addr), Interval(0, n));
  }
}
