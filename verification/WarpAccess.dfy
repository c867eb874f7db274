/** The memory accesses of a warp instruction: gathering by subwarp, reduction to the smallest block, and the
    access queue. */
module WarpAccess {
  import opened Coalescing

  datatype Access = Access(addr: nat, size: nat, threads: set<nat>, bytes: set<nat>)

  // ----- Reducing a transaction to the smallest block

  /** An aligned block of 32, 64 or 128 bytes. */
  predicate IsBlock(addr: nat, size: nat) {
    ValidSegment(size) && Multiple(addr, size)
  }

  function Line(addr: nat): nat {
    addr - addr % 128
  }

  /** The range holds every one of the 32-byte chunks of a line. */
  ghost predicate Holds(addr: nat, size: nat, line: nat, chunks: set<nat>) {
    forall c: nat :: c in chunks ==> addr <= line + 32 * c && line + 32 * c + 32 <= addr + size
  }

  /** Where a transaction is sent: halved while one half is unused. */
  function Reduce(t: Transaction, block: nat, segment: nat): Access {
    var q := t.chunks;
    var lower, upper := 0 in q || 1 in q, 2 in q || 3 in q;
    if segment == 128 && lower && !upper then
      Halve(t, block, 0 in q, 1 in q)
    else if segment == 128 && upper && !lower then
      Halve(t, block + 64, 2 in q, 3 in q)
    else if segment == 64 && block % 128 == 0 then
      Halve(t, block, 0 in q, 1 in q)
    else if segment == 64 then
      Halve(t, block, 2 in q, 3 in q)
    else
      Access(block, segment, t.threads, t.bytes)
  }

  /** A 64-byte block is halved when only one half of it is used. */
  function Halve(t: Transaction, addr: nat, lower: bool, upper: bool): Access {
    if lower && !upper then Access(addr, 32, t.threads, t.bytes)
    else if upper && !lower then Access(addr + 32, 32, t.threads, t.bytes)
    else Access(addr, 64, t.threads, t.bytes)
  }

  /** What the source's asserts demand: some chunk is used, and none outside the segment. */
  ghost predicate Reducible(t: Transaction, block: nat, segment: nat) {
    IsBlock(block, segment) && t.chunks != {} && (forall c: nat :: c in t.chunks ==> c < 4)
    && Holds(block, segment, Line(block), t.chunks)
  }

  /** Where a block lies in its line. */
  lemma BlockInLine(block: nat, segment: nat)
    requires IsBlock(block, segment)
    ensures Line(block) % 128 == 0
    ensures segment == 128 ==> block == Line(block)
    ensures segment == 64 ==> block == Line(block) || block == Line(block) + 64
    ensures exists p: nat :: p < 4 && block == Line(block) + 32 * p
  {
    hide IsBlock, Line;
    SegmentOf(block, segment);
    var k := BlockNumber(block, segment);
    if segment == 32 {
      LineAt(k / 4, 32 * (k % 4));
      assert block == Line(block) + 32 * (k % 4);
    } else if segment == 64 {
      LineAt(k / 2, 64 * (k % 2));
      assert block == Line(block) + 32 * (2 * (k % 2));
    } else {
      LineAt(k, 0);
      assert block == Line(block) + 32 * 0;
    }
  }

  lemma LineAt(n: nat, r: nat)
    requires r < 128
    ensures Line(128 * n + r) == 128 * n && 128 * n % 128 == 0
  {
  }

  lemma BlockAt(line: nat, offset: nat, size: nat)
    requires line % 128 == 0 && ValidSegment(size) && offset < 128
    requires size == 32 ==> exists k: nat :: offset == 32 * k
    requires size == 64 ==> offset == 0 || offset == 64
    requires size == 128 ==> offset == 0
    ensures IsBlock(line + offset, size) && (line + offset) % 128 == offset
  {
    hide IsBlock;
    var n := line / 128;
    InLine(n, offset);
    if size == 32 {
      var k: nat :| offset == 32 * k;
      Block32(4 * n + k);
    } else if size == 64 {
      Block64(2 * n + if offset == 0 then 0 else 1);
    } else {
      Block128(n);
    }
  }

  lemma Block32(k: nat)
    ensures IsBlock(32 * k, 32)
  {
  }

  lemma Block64(k: nat)
    ensures IsBlock(64 * k, 64)
  {
  }

  lemma Block128(k: nat)
    ensures IsBlock(128 * k, 128)
  {
  }

  lemma BlockNumber(addr: nat, size: nat) returns (k: nat)
    requires IsBlock(addr, size)
    ensures size == 32 ==> addr == 32 * k
    ensures size == 64 ==> addr == 64 * k
    ensures size == 128 ==> addr == 128 * k
  {
    hide IsBlock;
    SegmentOf(addr, size);
    if size == 32 {
      k := Number32(addr);
    } else if size == 64 {
      k := Number64(addr);
    } else {
      k := Number128(addr);
    }
  }

  lemma Number32(addr: nat) returns (k: nat)
    requires IsBlock(addr, 32)
    ensures addr == 32 * k
  {
    k := addr / 32;
  }

  lemma Number64(addr: nat) returns (k: nat)
    requires IsBlock(addr, 64)
    ensures addr == 64 * k
  {
    k := addr / 64;
  }

  lemma Number128(addr: nat) returns (k: nat)
    requires IsBlock(addr, 128)
    ensures addr == 128 * k
  {
    k := addr / 128;
  }

  lemma ReduceFits(t: Transaction, block: nat, segment: nat)
    requires Reducible(t, block, segment)
    ensures var a := Reduce(t, block, segment);
            && IsBlock(a.addr, a.size) && Holds(a.addr, a.size, Line(block), t.chunks)
            && block <= a.addr && a.addr + a.size <= block + segment
            && a.threads == t.threads && a.bytes == t.bytes
  {
    hide IsBlock, Line;
    BlockInLine(block, segment);
    var line := Line(block);
    forall k: nat | k < 4 ensures IsBlock(line + 32 * k, 32) {
      BlockAt(line, 32 * k, 32);
    }
    BlockAt(line, 0, 64);
    BlockAt(line, 64, 64);
    BlockAt(line, 0, 128);
    SegmentOf(block, segment);
  }

  lemma SegmentOf(block: nat, segment: nat)
    requires IsBlock(block, segment)
    ensures ValidSegment(segment)
  {
  }

  /** Both halves of the block hold one of the chunks. */
  ghost predicate BothHalvesUsed(a: Access, line: nat, chunks: set<nat>) {
    exists c: nat, d: nat ::
      c in chunks && d in chunks &&
      a.addr <= line + 32 * c < a.addr + a.size / 2 <= line + 32 * d < a.addr + a.size
  }

  /** A transaction that is not halved further uses both halves. */
  lemma ReduceUsesBothHalves(t: Transaction, block: nat, segment: nat)
    requires Reducible(t, block, segment) && Reduce(t, block, segment).size > 32
    ensures BothHalvesUsed(Reduce(t, block, segment), Line(block), t.chunks)
  {
    hide IsBlock, Line, BothHalvesUsed;
    BlockInLine(block, segment);
    SegmentOf(block, segment);
    var a, q, line := Reduce(t, block, segment), t.chunks, Line(block);
    BlockAt(line, 0, 64);
    BlockAt(line, 64, 64);
    var c: nat :| c in q;
    assert c == 0 || c == 1 || c == 2 || c == 3;
    if a.size == 64 && a.addr == line {
      BothUsed(a, line, q, 0, 1);
    } else if a.size == 64 {
      BothUsed(a, line, q, 2, 3);
    } else {
      BothUsed(a, line, q, if 0 in q then 0 else 1, if 2 in q then 2 else 3);
    }
  }

  lemma BothUsed(a: Access, line: nat, chunks: set<nat>, c: nat, d: nat)
    requires c in chunks && d in chunks
    requires a.addr <= line + 32 * c < a.addr + a.size / 2 <= line + 32 * d < a.addr + a.size
    ensures BothHalvesUsed(a, line, chunks)
  {
  }

  /** Two aligned blocks with a common chunk are nested. */
  lemma Nested(addr: nat, size: nat, other: nat, larger: nat, x: nat)
    requires IsBlock(addr, size) && IsBlock(other, larger) && size <= larger
    requires addr <= x < addr + size && other <= x < other + larger
    ensures other <= addr && addr + size <= other + larger
  {
    hide IsBlock;
    SegmentOf(addr, size);
    SegmentOf(other, larger);
    var k := BlockNumber(addr, size);
    var n := BlockNumber(other, larger);
    if size == larger {
      assert k == n;
    } else if size == 64 || larger == 64 {
      assert 2 * n <= k < 2 * n + 2;
    } else {
      assert 4 * n <= k < 4 * n + 4;
    }
  }

  /** A block with a point on either side of the middle of an aligned block is no smaller than it. */
  lemma NoSmaller(addr: nat, size: nat, other: nat, otherSize: nat, x: nat, y: nat)
    requires IsBlock(addr, size) && IsBlock(other, otherSize)
    requires addr <= x < addr + size / 2 <= y < addr + size && other <= x && y < other + otherSize
    ensures size <= otherSize
  {
    hide IsBlock;
    if otherSize < size {
      EndsBefore(addr, size, other, otherSize, x, y);
    }
  }

  /** A block does not reach across the middle of a larger one. */
  lemma EndsBefore(addr: nat, size: nat, other: nat, otherSize: nat, x: nat, y: nat)
    requires IsBlock(addr, size) && IsBlock(other, otherSize) && otherSize < size
    requires x < addr + size / 2 <= y && other <= x
    ensures other + otherSize <= y
  {
    hide IsBlock;
    SegmentOf(addr, size);
    SegmentOf(other, otherSize);
    var k := BlockNumber(addr, size);
    var n := BlockNumber(other, otherSize);
    if otherSize == 32 && size == 64 {
      assert n < 2 * k + 1;
    } else if otherSize == 32 {
      assert n < 4 * k + 2;
    } else {
      assert n < 2 * k + 1;
    }
  }

  /** A reduced transaction is the smallest aligned block that holds the touched chunks: it lies in every other one. */
  lemma ReduceIsSmallest(t: Transaction, block: nat, segment: nat, addr: nat, size: nat)
    requires Reducible(t, block, segment) && IsBlock(addr, size) && Holds(addr, size, Line(block), t.chunks)
    ensures var a := Reduce(t, block, segment); addr <= a.addr && a.addr + a.size <= addr + size
  {
    hide Reduce, IsBlock;
    var a, line := Reduce(t, block, segment), Line(block);
    ReduceFits(t, block, segment);
    hide Line;
    if a.size > 32 {
      ReduceUsesBothHalves(t, block, segment);
      var c: nat, d: nat :| c in t.chunks && d in t.chunks &&
        a.addr <= line + 32 * c < a.addr + a.size / 2 <= line + 32 * d < a.addr + a.size;
      NoSmaller(a.addr, a.size, addr, size, line + 32 * c, line + 32 * d);
    }
    assert a.size <= size by {
      SizeAtLeast(addr, size);
      SizeAtLeast(a.addr, a.size);
    }
    var c: nat :| c in t.chunks;
    Nested(a.addr, a.size, addr, size, line + 32 * c);
  }

  lemma SizeAtLeast(addr: nat, size: nat)
    requires IsBlock(addr, size)
    ensures size >= 32
  {
  }

  // ----- What an access says about the lanes it was made from

  ghost predicate HasByte(ls: seq<Lane>, size: nat, x: nat) {
    exists i :: 0 <= i < |ls| && x in Bytes(ls[i].addr, size)
  }

  ghost predicate HasChunk(ls: seq<Lane>, c: nat) {
    exists i :: 0 <= i < |ls| && Chunk(ls[i].addr) == c
  }

  /** The summary of some lanes holds what the lanes touch and nothing else. */
  lemma {:induction false} SummaryIsUnion(ls: seq<Lane>, size: nat, x: nat)
    ensures x in Summary(ls, size).threads <==> HasThread(ls, x)
    ensures x in Summary(ls, size).bytes <==> HasByte(ls, size, x)
    ensures x in Summary(ls, size).chunks <==> HasChunk(ls, x)
    decreases |ls|
  {
    SummaryThreads(ls, size, x);
    if ls != [] {
      hide Bytes, Chunk;
      var n := |ls| - 1;
      var rest := ls[..n];
      SummaryIsUnion(rest, size, x);
      assert forall i :: 0 <= i < n ==> rest[i] == ls[i];
      assert HasByte(ls, size, x) <==> HasByte(rest, size, x) || x in Bytes(ls[n].addr, size);
      assert HasChunk(ls, x) <==> HasChunk(rest, x) || x == Chunk(ls[n].addr);
    }
  }

  ghost predicate Encloses(addr: nat, size: nat, l: Lane, dataSize: nat) {
    addr <= l.addr && l.addr + dataSize <= addr + size
  }

  /** The access covers the lane: its range, its thread's bit and its bytes' bits. */
  ghost predicate Carries(a: Access, l: Lane, size: nat) {
    Encloses(a.addr, a.size, l, size) && l.thread in a.threads && Bytes(l.addr, size) <= a.bytes
  }

  ghost predicate EnclosesAll(addr: nat, size: nat, ls: seq<Lane>, dataSize: nat) {
    forall i: nat :: i < |ls| ==> Encloses(addr, size, ls[i], dataSize)
  }

  /** The access carries the lanes, has no other thread's or byte's bit set, and is the smallest aligned block of 32,
      64 or 128 bytes around them. */
  ghost predicate Packs(a: Access, ls: seq<Lane>, size: nat) {
    && ls != [] && IsBlock(a.addr, a.size)
    && (forall i: nat :: i < |ls| ==> Carries(a, ls[i], size))
    && (forall x: nat :: x in a.threads ==> HasThread(ls, x))
    && (forall x: nat :: x in a.bytes ==> HasByte(ls, size, x))
    && (forall addr: nat, s: nat :: IsBlock(addr, s) && EnclosesAll(addr, s, ls, size) ==>
          addr <= a.addr && a.addr + a.size <= addr + s)
  }

  /** The lanes are naturally aligned and in block `b`. */
  ghost predicate LanesOf(ls: seq<Lane>, size: nat, segment: nat, b: nat)
    requires ValidSize(size) && ValidSegment(segment)
  {
    forall i: nat :: i < |ls| ==> Aligned(ls[i], size) && BlockOf(ls[i].addr, segment) == b
  }

  function ChunkAddr(addr: nat): nat {
    Line(addr) + 32 * Chunk(addr)
  }

  /** The parts of an address `128n + 32c + r`. */
  lemma Parts(n: nat, c: nat, r: nat)
    requires c < 4 && r < 32
    ensures var a := 128 * n + 32 * c + r; a % 128 == 32 * c + r && Line(a) == 128 * n && Chunk(a) == c
    ensures ChunkAddr(128 * n + 32 * c + r) == 128 * n + 32 * c
  {
  }

  lemma BlockOfParts(n: nat, c: nat, r: nat, segment: nat)
    requires c < 4 && r < 32 && ValidSegment(segment)
    ensures BlockOf(128 * n + 32 * c + r, segment) ==
            128 * n + if segment == 32 then 32 * c else if segment == 64 then c / 2 * 64 else 0
  {
    hide BlockOf;
    if segment == 32 {
      BlockOf32(4 * n + c, r);
    } else if segment == 64 {
      BlockOf64(2 * n + c / 2, 32 * (c % 2) + r);
    } else {
      BlockOf128(n, 32 * c + r);
    }
  }

  lemma BlockOf32(k: nat, r: nat)
    requires r < 32
    ensures BlockOf(32 * k + r, 32) == 32 * k
  {
  }

  lemma BlockOf64(k: nat, r: nat)
    requires r < 64
    ensures BlockOf(64 * k + r, 64) == 64 * k
  {
  }

  lemma BlockOf128(k: nat, r: nat)
    requires r < 128
    ensures BlockOf(128 * k + r, 128) == 128 * k
  {
  }

  lemma Decompose(addr: nat) returns (n: nat, c: nat, r: nat)
    ensures c < 4 && r < 32 && addr == 128 * n + 32 * c + r && r == addr % 32
  {
    var k := addr / 32;
    n, c, r := k / 4, k % 4, addr % 32;
  }

  /** An aligned access lies in one 32-byte chunk, so in one segment. */
  lemma LaneInChunk(addr: nat, size: nat, segment: nat)
    requires ValidSize(size) && ValidSegment(segment) && Multiple(addr, size)
    ensures Chunk(addr) < 4 && IsBlock(ChunkAddr(addr), 32)
    ensures ChunkAddr(addr) <= addr && addr + size <= ChunkAddr(addr) + 32
    ensures var b := BlockOf(addr, segment);
            && IsBlock(b, segment) && Line(b) == Line(addr)
            && b <= ChunkAddr(addr) && ChunkAddr(addr) + 32 <= b + segment
            && BlockOf(addr + size - 1, segment) == b
  {
    hide BlockOf, Line, Chunk, ChunkAddr, IsBlock, Multiple;
    WithinChunk(addr, size);
    var n, c, r := Decompose(addr);
    Parts(n, c, r);
    BlockOfParts(n, c, r, segment);
    BlockOfParts(n, c, r + size - 1, segment);
    BlockAt(128 * n, 32 * c, 32);
    if segment == 32 {
      Parts(n, c, 0);
    } else if segment == 64 {
      Parts(n, c / 2 * 2, 0);
      BlockAt(128 * n, c / 2 * 64, 64);
    } else {
      Parts(n, 0, 0);
      BlockAt(128 * n, 0, 128);
    }
  }

  lemma WithinChunk(addr: nat, size: nat)
    requires ValidSize(size) && Multiple(addr, size)
    ensures addr % 32 + size <= 32
  {
    hide Multiple;
    var k := Units(addr, size);
    var n, r := addr / 32, addr % 32;
    if size == 2 {
      assert r == 2 * (k - 16 * n);
    } else if size == 4 {
      assert r == 4 * (k - 8 * n);
    } else if size == 8 {
      assert r == 8 * (k - 4 * n);
    } else if size == 16 {
      assert r == 16 * (k - 2 * n);
    }
  }

  lemma SummaryReducible(ls: seq<Lane>, size: nat, segment: nat, b: nat)
    requires ValidSize(size) && ValidSegment(segment) && ls != [] && LanesOf(ls, size, segment, b)
    ensures Reducible(Summary(ls, size), b, segment)
  {
    hide IsBlock, Line, Chunk, BlockOf, Summary;
    LaneInChunk(ls[0].addr, size, segment);
    SummaryIsUnion(ls, size, Chunk(ls[0].addr));
    assert HasChunk(ls, Chunk(ls[0].addr));
    forall c: nat | c in Summary(ls, size).chunks
      ensures c < 4 && b <= Line(b) + 32 * c && Line(b) + 32 * c + 32 <= b + segment
    {
      SummaryIsUnion(ls, size, c);
      var i: nat :| i < |ls| && Chunk(ls[i].addr) == c;
      LaneInChunk(ls[i].addr, size, segment);
    }
  }

  lemma ReducedCarries(ls: seq<Lane>, size: nat, segment: nat, b: nat, i: nat)
    requires ValidSize(size) && ValidSegment(segment) && LanesOf(ls, size, segment, b) && i < |ls|
    ensures Carries(Reduce(Summary(ls, size), b, segment), ls[i], size)
  {
    hide IsBlock, Line, Chunk, BlockOf, Summary, Reduce, Bytes, Reducible;
    var t, l := Summary(ls, size), ls[i];
    SummaryReducible(ls, size, segment, b);
    ReduceFits(t, b, segment);
    LaneInChunk(l.addr, size, segment);
    SummaryIsUnion(ls, size, l.thread);
    SummaryIsUnion(ls, size, Chunk(l.addr));
    assert HasChunk(ls, Chunk(l.addr)) && HasThread(ls, l.thread);
    forall x: nat | x in Bytes(l.addr, size) ensures x in t.bytes {
      SummaryIsUnion(ls, size, x);
      assert HasByte(ls, size, x);
    }
  }

  /** A block around all the lanes holds all their chunks. */
  lemma EnclosingHolds(ls: seq<Lane>, size: nat, segment: nat, b: nat, addr: nat, s: nat)
    requires ValidSize(size) && ValidSegment(segment) && LanesOf(ls, size, segment, b)
    requires IsBlock(addr, s) && EnclosesAll(addr, s, ls, size)
    ensures Holds(addr, s, Line(b), Summary(ls, size).chunks)
  {
    hide IsBlock, Line, Chunk, BlockOf, Summary;
    forall c: nat | c in Summary(ls, size).chunks
      ensures addr <= Line(b) + 32 * c && Line(b) + 32 * c + 32 <= addr + s
    {
      SummaryIsUnion(ls, size, c);
      var i: nat :| i < |ls| && Chunk(ls[i].addr) == c;
      LaneInChunk(ls[i].addr, size, segment);
      SizeAtLeast(addr, s);
      Nested(ChunkAddr(ls[i].addr), 32, addr, s, ls[i].addr);
    }
  }

  /** Reducing the summary of a block's lanes packs them. */
  lemma ReducePacks(ls: seq<Lane>, size: nat, segment: nat, b: nat)
    requires ValidSize(size) && ValidSegment(segment) && ls != [] && LanesOf(ls, size, segment, b)
    ensures Packs(Reduce(Summary(ls, size), b, segment), ls, size)
  {
    hide IsBlock, Line, Chunk, BlockOf, Summary, Reduce, Bytes, Reducible, Carries, EnclosesAll;
    hide HasThread, HasByte, HasChunk, LanesOf;
    var t := Summary(ls, size);
    SummaryReducible(ls, size, segment, b);
    ReduceFits(t, b, segment);
    forall i: nat | i < |ls| ensures Carries(Reduce(t, b, segment), ls[i], size) {
      ReducedCarries(ls, size, segment, b, i);
    }
    forall x: nat ensures x in t.threads ==> HasThread(ls, x)
      ensures x in t.bytes ==> HasByte(ls, size, x)
    {
      SummaryIsUnion(ls, size, x);
    }
    forall addr: nat, s: nat | IsBlock(addr, s) && EnclosesAll(addr, s, ls, size)
      ensures addr <= Reduce(t, b, segment).addr
      ensures Reduce(t, b, segment).addr + Reduce(t, b, segment).size <= addr + s
    {
      EnclosingHolds(ls, size, segment, b, addr, s);
      ReduceIsSmallest(t, b, segment, addr, s);
    }
  }

  // ----- Ordinary accesses

  /** The lanes of one block, in order. */
  ghost function OfBlock(cs: seq<Lane>, segment: nat, b: nat): seq<Lane>
    requires segment > 0
  {
    if cs == [] then []
    else
      var n := |cs| - 1;
      OfBlock(cs[..n], segment, b) + if BlockOf(cs[n].addr, segment) == b then [cs[n]] else []
  }

  /** There is one transaction for every touched block, made of the block's lanes. */
  ghost predicate Gathered(cs: seq<Lane>, size: nat, segment: nat, m: map<nat, Transaction>)
    requires segment > 0
  {
    && (forall b: nat :: b in m <==> OfBlock(cs, segment, b) != [])
    && (forall b: nat :: b in m ==> m[b] == Summary(OfBlock(cs, segment, b), size))
  }

  lemma GatherOne(cs: seq<Lane>, size: nat, segment: nat, m: map<nat, Transaction>, l: Lane)
    requires segment > 0 && Gathered(cs, size, segment, m)
    ensures var b := BlockOf(l.addr, segment);
            Gathered(cs + [l], size, segment, m[b := Join(if b in m then m[b] else NO_TRANSACTION, l, size)])
  {
    hide BlockOf, Join, OfBlock;
    forall b: nat
      ensures OfBlock(cs + [l], segment, b) ==
              OfBlock(cs, segment, b) + if BlockOf(l.addr, segment) == b then [l] else []
    {
      OfBlockGrows(cs, segment, b, l);
    }
    var d := BlockOf(l.addr, segment);
    SummaryGrows(OfBlock(cs, segment, d), l, size);
    var m' := m[d := Join(if d in m then m[d] else NO_TRANSACTION, l, size)];
    forall b: nat
      ensures b in m' <==> OfBlock(cs + [l], segment, b) != []
      ensures b in m' ==> m'[b] == Summary(OfBlock(cs + [l], segment, b), size)
    {
      if b == d {
        assert m'[d] == Summary(OfBlock(cs, segment, d) + [l], size);
      } else {
        assert OfBlock(cs + [l], segment, b) == OfBlock(cs, segment, b);
      }
    }
  }

  lemma OfBlockGrows(cs: seq<Lane>, segment: nat, b: nat, l: Lane)
    requires segment > 0
    ensures OfBlock(cs + [l], segment, b) == OfBlock(cs, segment, b) + if BlockOf(l.addr, segment) == b then [l] else []
  {
    assert (cs + [l])[..|cs|] == cs;
  }

  lemma {:induction false} OfBlockFrom(cs: seq<Lane>, segment: nat, b: nat, k: nat)
    requires segment > 0 && k < |OfBlock(cs, segment, b)|
    ensures OfBlock(cs, segment, b)[k] in cs && BlockOf(OfBlock(cs, segment, b)[k].addr, segment) == b
    decreases |cs|
  {
    hide BlockOf;
    var n := |cs| - 1;
    if k < |OfBlock(cs[..n], segment, b)| {
      OfBlockFrom(cs[..n], segment, b, k);
    }
  }

  lemma {:induction false} OfBlockLanes(cs: seq<Lane>, size: nat, segment: nat, b: nat)
    requires ValidSize(size) && ValidSegment(segment) && forall i: nat :: i < |cs| ==> Aligned(cs[i], size)
    ensures LanesOf(OfBlock(cs, segment, b), size, segment, b)
    ensures forall i: nat :: i < |cs| && BlockOf(cs[i].addr, segment) == b ==> cs[i] in OfBlock(cs, segment, b)
    decreases |cs|
  {
    hide BlockOf, Aligned;
    if cs != [] {
      var n := |cs| - 1;
      OfBlockLanes(cs[..n], size, segment, b);
      var rest := OfBlock(cs[..n], segment, b);
      forall i: nat | i < |cs| && BlockOf(cs[i].addr, segment) == b ensures cs[i] in OfBlock(cs, segment, b) {
        if i < n {
          assert cs[..n][i] in rest;
        }
      }
    }
  }

  predicate Ascending(keys: seq<nat>) {
    forall i: nat, j: nat :: i < j < |keys| ==> keys[i] < keys[j]
  }

  /** The accesses sent for the blocks `keys`. */
  function Sent(keys: seq<nat>, m: map<nat, Transaction>, segment: nat): (q: seq<Access>)
    requires forall i: nat :: i < |keys| ==> keys[i] in m
    ensures |q| == |keys| && forall i: nat :: i < |keys| ==> q[i] == Reduce(m[keys[i]], keys[i], segment)
  {
    if keys == [] then []
    else
      var n := |keys| - 1;
      Sent(keys[..n], m, segment) + [Reduce(m[keys[n]], keys[n], segment)]
  }

  ghost predicate CarriedBy(q: seq<Access>, l: Lane, size: nat) {
    exists k: nat :: k < |q| && Carries(q[k], l, size)
  }

  /** What ordinary coalescing promises of one subwarp: every lane is carried by an access; the accesses' ranges ascend
      and do not overlap; and every access is the smallest aligned block around the lanes it was made from. */
  ghost predicate Coalesced(cs: seq<Lane>, size: nat, segment: nat, q: seq<Access>)
    requires segment > 0
  {
    && (forall i: nat :: i < |cs| ==> CarriedBy(q, cs[i], size))
    && (forall i: nat, j: nat :: i < j < |q| ==> q[i].addr + q[i].size <= q[j].addr)
    && (forall k: nat :: k < |q| ==> Packs(q[k], OfBlock(cs, segment, BlockOf(q[k].addr, segment)), size))
  }

  lemma BlockOfInside(b: nat, a: nat, segment: nat)
    requires IsBlock(b, segment) && b <= a < b + segment
    ensures BlockOf(a, segment) == b
  {
    hide IsBlock, BlockOf;
    SegmentOf(b, segment);
    var k := BlockNumber(b, segment);
    if segment == 32 {
      BlockOf32(k, a - b);
    } else if segment == 64 {
      BlockOf64(k, a - b);
    } else {
      BlockOf128(k, a - b);
    }
  }

  lemma BlocksApart(a: nat, b: nat, segment: nat)
    requires IsBlock(a, segment) && IsBlock(b, segment) && a < b
    ensures a + segment <= b
  {
    hide IsBlock;
    SegmentOf(a, segment);
    var k := BlockNumber(a, segment);
    var n := BlockNumber(b, segment);
    if segment == 32 {
      assert k < n;
    } else if segment == 64 {
      assert k < n;
    } else {
      assert k < n;
    }
  }

  /** The facts about the access sent for block `b`. */
  ghost predicate SentFor(cs: seq<Lane>, size: nat, segment: nat, b: nat, a: Access)
    requires segment > 0
  {
    && IsBlock(b, segment) && b <= a.addr && a.addr + a.size <= b + segment
    && Packs(a, OfBlock(cs, segment, b), size) && BlockOf(a.addr, segment) == b
  }

  lemma SentForBlock(cs: seq<Lane>, size: nat, segment: nat, m: map<nat, Transaction>, b: nat)
    requires ValidSize(size) && ValidSegment(segment) && forall i: nat :: i < |cs| ==> Aligned(cs[i], size)
    requires Gathered(cs, size, segment, m) && b in m
    ensures SentFor(cs, size, segment, b, Reduce(m[b], b, segment))
    ensures Reducible(m[b], b, segment)
  {
    hide BlockOf, Reduce, Packs, Summary, Aligned, OfBlock, Line, IsBlock, LanesOf;
    var ls := OfBlock(cs, segment, b);
    OfBlockLanes(cs, size, segment, b);
    ReducePacks(ls, size, segment, b);
    SummaryReducible(ls, size, segment, b);
    ReduceFits(m[b], b, segment);
    var a := Reduce(m[b], b, segment);
    SizeAtLeast(a.addr, a.size);
    BlockOfInside(b, a.addr, segment);
  }

  lemma SentIsCoalesced(cs: seq<Lane>, size: nat, segment: nat, m: map<nat, Transaction>, keys: seq<nat>)
    requires ValidSize(size) && ValidSegment(segment) && forall i: nat :: i < |cs| ==> Aligned(cs[i], size)
    requires Gathered(cs, size, segment, m) && Ascending(keys) && forall b: nat :: b in keys <==> b in m
    ensures Coalesced(cs, size, segment, Sent(keys, m, segment))
  {
    hide BlockOf, Reduce, Packs, Summary, Aligned, OfBlock, IsBlock, ValidSize, Carries;
    var q := Sent(keys, m, segment);
    forall k: nat | k < |keys| ensures SentFor(cs, size, segment, keys[k], q[k]) {
      SentForBlock(cs, size, segment, m, keys[k]);
    }
    forall i: nat, j: nat | i < j < |q| ensures q[i].addr + q[i].size <= q[j].addr {
      BlocksApart(keys[i], keys[j], segment);
    }
    forall i: nat | i < |cs| ensures CarriedBy(q, cs[i], size) {
      var b := BlockOf(cs[i].addr, segment);
      OfBlockLanes(cs, size, segment, b);
      var k: nat :| k < |keys| && keys[k] == b;
      PackedLane(q[k], OfBlock(cs, segment, b), size, cs[i]);
    }
  }

  /** The lines of `line` bytes that are touched. */
  ghost function Touched(cs: seq<Lane>, line: nat): set<nat>
    requires line > 0
  {
    set l | l in cs :: l.addr - l.addr % line
  }

  /** The access lies in the line at `b`. */
  ghost predicate WithinLine(a: Access, line: nat, b: nat)
    requires line > 0
  {
    a.addr - a.addr % line == b && a.addr % line + a.size <= line
  }

  /** The accesses lie in different lines of `line` bytes, each within one, and there are as many as lines touched. */
  ghost predicate OnePerLine(cs: seq<Lane>, q: seq<Access>, line: nat)
    requires line > 0
  {
    && (forall i: nat, j: nat :: i < j < |q| ==> q[i].addr - q[i].addr % line != q[j].addr - q[j].addr % line)
    && (forall k: nat :: k < |q| ==> q[k].addr % line + q[k].size <= line)
    && |q| == |Touched(cs, line)|
  }

  lemma SentOnePerLine(cs: seq<Lane>, size: nat, segment: nat, m: map<nat, Transaction>, keys: seq<nat>)
    requires ValidSize(size) && ValidSegment(segment) && forall i: nat :: i < |cs| ==> Aligned(cs[i], size)
    requires Gathered(cs, size, segment, m) && Ascending(keys) && forall b: nat :: b in keys <==> b in m
    ensures OnePerLine(cs, Sent(keys, m, segment), segment)
  {
    hide Reduce, Packs, Summary, Aligned, OfBlock, ValidSize, IsBlock, BlockOf, WithinLine, Touched, OnePerLine;
    var q := Sent(keys, m, segment);
    forall k: nat | k < |q| ensures WithinLine(q[k], segment, keys[k]) {
      SentForBlock(cs, size, segment, m, keys[k]);
      SentWithinLine(cs, size, segment, keys[k], q[k]);
    }
    TouchedIsKeys(cs, size, segment, m, keys);
    DistinctSize(keys, Touched(cs, segment));
    LinesDiffer(cs, q, segment, keys);
  }

  lemma SentWithinLine(cs: seq<Lane>, size: nat, segment: nat, b: nat, a: Access)
    requires segment > 0 && SentFor(cs, size, segment, b, a)
    ensures WithinLine(a, segment, b)
  {
    hide Packs, OfBlock, IsBlock;
  }

  lemma LinesDiffer(cs: seq<Lane>, q: seq<Access>, line: nat, keys: seq<nat>)
    requires line > 0 && |q| == |keys| == |Touched(cs, line)| && Ascending(keys)
    requires forall k: nat :: k < |q| ==> WithinLine(q[k], line, keys[k])
    ensures OnePerLine(cs, q, line)
  {
    hide Touched;
    forall i: nat, j: nat | i < j < |q| ensures q[i].addr - q[i].addr % line != q[j].addr - q[j].addr % line {
      assert WithinLine(q[i], line, keys[i]) && WithinLine(q[j], line, keys[j]);
    }
    forall k: nat | k < |q| ensures q[k].addr % line + q[k].size <= line {
      assert WithinLine(q[k], line, keys[k]);
    }
  }

  /** The lines touched are those with a transaction. */
  lemma TouchedIsKeys(cs: seq<Lane>, size: nat, segment: nat, m: map<nat, Transaction>, keys: seq<nat>)
    requires ValidSize(size) && ValidSegment(segment) && forall i: nat :: i < |cs| ==> Aligned(cs[i], size)
    requires Gathered(cs, size, segment, m) && forall b: nat :: b in keys <==> b in m
    ensures forall b: nat :: b in Touched(cs, segment) <==> b in keys
  {
    hide Aligned, OfBlock, Summary;
    var touched := Touched(cs, segment);
    forall b: nat ensures b in touched <==> b in keys {
      OfBlockLanes(cs, size, segment, b);
      if b in keys {
        OfBlockFrom(cs, segment, b, 0);
      }
      if b in touched {
        var l :| l in cs && l.addr - l.addr % segment == b;
        var i: nat :| i < |cs| && cs[i] == l;
        assert cs[i] in OfBlock(cs, segment, b);
      }
    }
  }

  lemma {:induction false} DistinctSize(keys: seq<nat>, all: set<nat>)
    requires Ascending(keys) && forall b: nat :: b in all <==> b in keys
    ensures |all| == |keys|
    decreases |keys|
  {
    hide Ascending;
    if keys == [] {
      assert all == {};
    } else {
      var n := |keys| - 1;
      LastIsNew(keys);
      DistinctSize(keys[..n], all - {keys[n]});
      assert all == (all - {keys[n]}) + {keys[n]};
    }
  }

  lemma LastIsNew(keys: seq<nat>)
    requires Ascending(keys) && keys != []
    ensures var n := |keys| - 1; Ascending(keys[..n]) && keys[n] !in keys[..n]
    ensures forall b: nat :: b in keys <==> b in keys[..|keys| - 1] || b == keys[|keys| - 1]
  {
    var n := |keys| - 1;
    assert keys == keys[..n] + [keys[n]];
  }

  lemma PackedLane(a: Access, ls: seq<Lane>, size: nat, l: Lane)
    requires Packs(a, ls, size) && l in ls
    ensures Carries(a, l, size)
  {
    hide Carries, IsBlock, HasThread, HasByte, EnclosesAll;
    var i: nat :| i < |ls| && ls[i] == l;
  }
}
