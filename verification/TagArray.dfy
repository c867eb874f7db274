/** Cache geometry and the tag array shared by all caches. */
module TagArray {

  datatype Status = INVALID | RESERVED | VALID | MODIFIED
  datatype RequestStatus = HIT | HIT_RESERVED | MISS | RESERVATION_FAIL
  datatype Replacement = LRU | FIFO
  datatype Allocation = ON_MISS | ON_FILL

  /** (unsigned)-1, the initial candidate timestamp of the replacement scan. */
  const MAX_TIME: nat := 0xFFFF_FFFF
  const TWO_32: nat := 0x1_0000_0000

  datatype Geometry = Geometry(lineSize: nat, numSets: nat, assoc: nat, replacement: Replacement,
                               allocation: Allocation) {
    predicate Valid() {
      0 < lineSize && 0 < numSets && 0 < assoc
    }

    function NumLines(): nat {
      numSets * assoc
    }

    /** The block of an address; the mask it is computed with is 32 bits wide. */
    function Block(addr: nat): (b: nat)
      requires Valid()
    {
      (addr % TWO_32) / lineSize * lineSize
    }

    function Set(addr: nat): (s: nat)
      requires Valid()
      ensures s < numSets
    {
      addr / lineSize % numSets
    }

    function Tag(addr: nat): nat
      requires Valid()
    {
      addr / lineSize / numSets
    }

    /** Line `i` is a way of the set that `addr` maps to. */
    predicate InSet(addr: nat, i: nat)
      requires Valid()
    {
      Set(addr) * assoc <= i < Set(addr) * assoc + assoc
    }

    lemma SetFits(addr: nat)
      requires Valid()
      ensures Set(addr) * assoc + assoc <= NumLines()
    {
      MulStep(Set(addr), numSets, assoc);
    }

    lemma BlockOfBlock(addr: nat)
      requires Valid()
      ensures Block(Block(addr)) == Block(addr)
    {
      BlockFits(addr);
      DivOfMultiple((addr % TWO_32) / lineSize, lineSize);
    }

    /** Set and tag together determine the block. */
    lemma SetAndTagDetermineBlock(a: nat, b: nat)
      requires Valid() && Block(a) == a && Block(b) == b && Set(a) == Set(b) && Tag(a) == Tag(b)
      ensures a == b
    {
      var p, q := a / lineSize, b / lineSize;
      assert p == p / numSets * numSets + p % numSets;
      assert q == q / numSets * numSets + q % numSets;
      assert p == q;
      assert a % TWO_32 == a by { BlockFits(a); }
      assert b % TWO_32 == b by { BlockFits(b); }
    }

    lemma BlockFits(addr: nat)
      requires Valid()
      ensures Block(addr) < TWO_32
    {
      var a := addr % TWO_32;
      assert a == a / lineSize * lineSize + a % lineSize;
    }

    /** A line belongs to one set only. */
    lemma OneSet(a: nat, b: nat, i: nat)
      requires Valid() && InSet(a, i) && InSet(b, i)
      ensures Set(a) == Set(b)
    {
      if Set(a) < Set(b) {
        MulStep(Set(a), Set(b), assoc);
      } else if Set(b) < Set(a) {
        MulStep(Set(b), Set(a), assoc);
      }
    }
  }

  lemma DivOfMultiple(q: nat, d: nat)
    requires d > 0
    ensures q * d / d == q
  {
    var m := q * d;
    assert m == m / d * d + m % d;
    if m / d < q {
      MulStep(m / d, q, d);
    } else if m / d > q {
      MulStep(q, m / d, d);
    }
  }

  lemma {:induction false} MulStep(x: nat, y: nat, n: nat)
    requires x < y
    ensures x * n + n <= y * n
    decreases y
  {
    MulNext(y - 1, n);
    if x < y - 1 {
      MulStep(x, y - 1, n);
    }
  }

  lemma MulNext(x: nat, n: nat)
    ensures (x + 1) * n == x * n + n
  {
  }

  datatype Line = Line(status: Status, tag: nat, block: nat, allocTime: nat, lastAccess: nat, fillTime: nat) {
    function Allocate(t: nat, b: nat, time: nat): Line {
      Line(RESERVED, t, b, time, time, 0)
    }

    function Stamp(r: Replacement): nat {
      if r == LRU then lastAccess else allocTime
    }
  }

  const EMPTY_LINE := Line(INVALID, 0, 0, 0, 0, 0)

  /** Line `i` holds the block of `addr`, be it filled already or not. */
  ghost predicate Holds(g: Geometry, lines: seq<Line>, addr: nat, i: nat)
    requires g.Valid()
  {
    i < |lines| && g.InSet(addr, i) && lines[i].tag == g.Tag(addr) && lines[i].status != INVALID
  }

  /** Line `i` is what a miss on `addr` may replace: an invalid line if there is one, else the oldest
      line that is not reserved. */
  ghost predicate Victim(g: Geometry, lines: seq<Line>, addr: nat, i: nat)
    requires g.Valid()
  {
    && i < |lines| && g.InSet(addr, i) && lines[i].status != RESERVED
    && (lines[i].status != INVALID ==>
        forall k: nat :: k < |lines| && g.InSet(addr, k) && lines[k].status != RESERVED ==>
          lines[k].status != INVALID && lines[i].Stamp(g.replacement) <= lines[k].Stamp(g.replacement))
  }

  /** What a probe of `addr` answers. */
  ghost predicate Probed(g: Geometry, lines: seq<Line>, addr: nat, status: RequestStatus, i: nat)
    requires g.Valid()
  {
    match status
    case HIT => Holds(g, lines, addr, i) && lines[i].status != RESERVED
    case HIT_RESERVED => Holds(g, lines, addr, i) && lines[i].status == RESERVED
    case MISS => (forall k: nat :: !Holds(g, lines, addr, k)) && Victim(g, lines, addr, i)
    case RESERVATION_FAIL =>
      && (forall k: nat :: !Holds(g, lines, addr, k))
      && forall k: nat :: k < |lines| && g.InSet(addr, k) ==> lines[k].status == RESERVED
  }

  /** Every line that is not invalid carries the tag of its block, sits in that block's set, and no
      block is in two lines; timestamps are below the sentinel of the replacement scan. */
  ghost predicate Coherent(g: Geometry, lines: seq<Line>)
    requires g.Valid()
  {
    && |lines| == g.NumLines()
    && (forall i: nat :: i < |lines| ==> lines[i].lastAccess < MAX_TIME && lines[i].allocTime < MAX_TIME)
    && (forall i: nat :: i < |lines| && lines[i].status != INVALID ==>
         && g.Block(lines[i].block) == lines[i].block && g.InSet(lines[i].block, i)
         && lines[i].tag == g.Tag(lines[i].block))
    && (forall i: nat, k: nat :: i < k < |lines| && lines[i].status != INVALID && lines[k].status != INVALID ==>
         lines[i].block != lines[k].block)
  }

  /** In a coherent array, holding an address means holding its block. */
  lemma HoldsIsBlock(g: Geometry, lines: seq<Line>, b: nat, i: nat)
    requires g.Valid() && Coherent(g, lines) && g.Block(b) == b && i < |lines|
    ensures Holds(g, lines, b, i) <==> lines[i].status != INVALID && lines[i].block == b
  {
    if Holds(g, lines, b, i) {
      g.OneSet(b, lines[i].block, i);
      g.SetAndTagDetermineBlock(b, lines[i].block);
    }
  }

  /** Allocating a block nobody holds in a line of its set keeps the array coherent. */
  lemma AllocateCoherent(g: Geometry, lines: seq<Line>, b: nat, i: nat, time: nat)
    requires g.Valid() && Coherent(g, lines) && g.Block(b) == b && time < MAX_TIME
    requires i < |lines| && g.InSet(b, i) && forall k: nat :: !Holds(g, lines, b, k)
    ensures Coherent(g, lines[i := lines[i].Allocate(g.Tag(b), g.Block(b), time)])
  {
    forall k: nat | k < |lines| && lines[k].status != INVALID ensures lines[k].block != b {
      HoldsIsBlock(g, lines, b, k);
    }
  }

  /** What a scan of the `n` ways from `base` on answers, by way numbers alone. */
  ghost predicate Scanned(lines: seq<Line>, base: nat, n: nat, tag: nat, r: Replacement, status: RequestStatus, i: nat)
    requires base + n <= |lines|
  {
    var noMatch := forall k :: base <= k < base + n ==> lines[k].tag != tag || lines[k].status == INVALID;
    match status
    case HIT => base <= i < base + n && lines[i].tag == tag && lines[i].status != INVALID && lines[i].status != RESERVED
    case HIT_RESERVED => base <= i < base + n && lines[i].tag == tag && lines[i].status == RESERVED
    case MISS =>
      && noMatch && base <= i < base + n && lines[i].status != RESERVED
      && (lines[i].status != INVALID ==> forall k :: base <= k < base + n && lines[k].status != RESERVED ==>
            lines[k].status != INVALID && lines[i].Stamp(r) <= lines[k].Stamp(r))
    case RESERVATION_FAIL => noMatch && forall k :: base <= k < base + n ==> lines[k].status == RESERVED
  }

  /** Scans the ways of a set for a match, remembering the replacement candidate. */
  method ScanWays(lines: seq<Line>, base: nat, n: nat, tag: nat, r: Replacement) returns (status: RequestStatus,
                  idx: nat)
    requires base + n <= |lines|
    requires forall k :: base <= k < base + n ==> lines[k].Stamp(r) < MAX_TIME
    ensures Scanned(lines, base, n, tag, r, status, idx)
    ensures status == MISS && lines[idx].status != INVALID ==>
      forall k :: base <= k < base + n && lines[k].status != RESERVED ==>
        && (r == LRU ==> lines[idx].lastAccess <= lines[k].lastAccess)
        && (r == FIFO ==> lines[idx].allocTime <= lines[k].allocTime)
  {
    var invalidLine, validLine, validStamp := -1, -1, MAX_TIME;
    var allReserved := true;
    for index := base to base + n
      invariant forall k :: base <= k < index ==> lines[k].tag != tag || lines[k].status == INVALID
      invariant allReserved <==> forall k :: base <= k < index ==> lines[k].status == RESERVED
      invariant invalidLine != -1 ==> base <= invalidLine < index && lines[invalidLine].status == INVALID
      invariant invalidLine == -1 ==> forall k :: base <= k < index ==> lines[k].status != INVALID
      invariant validLine != -1 ==>
        && base <= validLine < index && lines[validLine].status != INVALID && lines[validLine].status != RESERVED
        && validStamp == lines[validLine].Stamp(r)
      invariant validLine == -1 ==> validStamp == MAX_TIME
      invariant forall k :: base <= k < index && lines[k].status != INVALID && lines[k].status != RESERVED ==>
        validStamp <= lines[k].Stamp(r)
    {
      var line := lines[index];
      if line.tag == tag {
        if line.status == RESERVED {
          return HIT_RESERVED, index;
        } else if line.status != INVALID {
          return HIT, index;
        }
      }
      if line.status != RESERVED {
        allReserved := false;
        if line.status == INVALID {
          invalidLine := index;
        } else if line.Stamp(r) < validStamp {
          validStamp := line.Stamp(r);
          validLine := index;
        }
      }
    }
    if allReserved {
      return RESERVATION_FAIL, 0;
    }
    if invalidLine != -1 {
      return MISS, invalidLine;
    }
    return MISS, validLine;
  }

  // ----- The history of the array

  /** A block was accessed in the array, or brought into it. */
  datatype Use = Use(block: nat, time: nat, brought: bool)

  /** The time of the last use of a block, or -1. */
  function LastUse(uses: seq<Use>, b: nat): int {
    if uses == [] then -1
    else
      var u := uses[|uses| - 1];
      if u.block == b then u.time else LastUse(uses[..|uses| - 1], b)
  }

  /** The time when a block was last brought in, or -1. */
  function LastBrought(uses: seq<Use>, b: nat): int {
    if uses == [] then -1
    else
      var u := uses[|uses| - 1];
      if u.block == b && u.brought then u.time else LastBrought(uses[..|uses| - 1], b)
  }

  lemma UsesGrow(uses: seq<Use>, u: Use, b: nat)
    ensures LastUse(uses + [u], b) == if u.block == b then u.time else LastUse(uses, b)
    ensures LastBrought(uses + [u], b) == if u.block == b && u.brought then u.time else LastBrought(uses, b)
  {
    assert (uses + [u])[..|uses|] == uses;
  }

  /** The lines carry the times of the history. */
  ghost predicate Dated(lines: seq<Line>, uses: seq<Use>) {
    forall i: nat :: i < |lines| && lines[i].status != INVALID ==>
      lines[i].lastAccess == LastUse(uses, lines[i].block) && lines[i].allocTime == LastBrought(uses, lines[i].block)
  }

  /** Using the block of line `i`, or bringing a block into it, keeps the times right. */
  lemma UseDated(g: Geometry, lines: seq<Line>, i: nat, line: Line, uses: seq<Use>, u: Use)
    requires g.Valid() && i < |lines| && Coherent(g, lines[i := line]) && Dated(lines, uses)
    requires line.status != INVALID && line.block == u.block && line.lastAccess == u.time
    requires if u.brought then line.allocTime == u.time
             else lines[i].status != INVALID && line.block == lines[i].block && line.allocTime == lines[i].allocTime
    ensures Dated(lines[i := line], uses + [u])
  {
    var after := lines[i := line];
    forall k: nat | k < |after| && after[k].status != INVALID
      ensures after[k].lastAccess == LastUse(uses + [u], after[k].block)
      ensures after[k].allocTime == LastBrought(uses + [u], after[k].block)
    {
      UsesGrow(uses, u, after[k].block);
      if k != i {
        assert after[k].block != after[i].block;
      }
    }
  }

  /** What a miss that replaces a block takes is the block unused for longest (LRU), or brought in longest ago (FIFO),
      of those in its set that are not reserved. */
  lemma VictimIsOldest(g: Geometry, lines: seq<Line>, uses: seq<Use>, addr: nat, i: nat)
    requires g.Valid() && Dated(lines, uses) && Victim(g, lines, addr, i) && lines[i].status != INVALID
    ensures forall k: nat :: k < |lines| && g.InSet(addr, k) && lines[k].status != RESERVED ==>
      && lines[k].status != INVALID
      && (g.replacement == LRU ==> LastUse(uses, lines[i].block) <= LastUse(uses, lines[k].block))
      && (g.replacement == FIFO ==> LastBrought(uses, lines[i].block) <= LastBrought(uses, lines[k].block))
  {
  }

  class Tags {
    const g: Geometry
    var lines: seq<Line>
    /** Every use of a block so far. */
    ghost var uses: seq<Use>

    ghost predicate Valid()
      reads this
    {
      g.Valid() && Coherent(g, lines) && Dated(lines, uses)
    }

    constructor (geometry: Geometry)
      requires geometry.Valid()
      ensures Valid() && g == geometry
      ensures lines == seq(g.NumLines(), _ => EMPTY_LINE) && uses == []
    {
      g := geometry;
      uses := [];
      lines := seq(geometry.NumLines(), _ => EMPTY_LINE);
    }

    method Probe(addr: nat) returns (status: RequestStatus, idx: nat)
      requires Valid()
      ensures Probed(g, lines, addr, status, idx)
      // the block replaced is the one unused for longest, or brought in longest ago
      ensures status == MISS && lines[idx].status != INVALID ==>
        forall k: nat :: k < |lines| && g.InSet(addr, k) && lines[k].status != RESERVED ==>
          && lines[k].status != INVALID
          && (g.replacement == LRU ==> LastUse(uses, lines[idx].block) <= LastUse(uses, lines[k].block))
          && (g.replacement == FIFO ==> LastBrought(uses, lines[idx].block) <= LastBrought(uses, lines[k].block))
    {
      hide Dated;
      g.SetFits(addr);
      status, idx := ScanWays(lines, g.Set(addr) * g.assoc, g.assoc, g.Tag(addr), g.replacement);
      if status == MISS && lines[idx].status != INVALID {
        VictimIsOldest(g, lines, uses, addr, idx);
      }
    }

    /** Probes and updates the recency of a hit; an allocate-on-miss array reserves the victim of a miss
        and reports a modified line that it evicts. */
    method Access(addr: nat, time: nat) returns (status: RequestStatus, idx: nat, writeBack: bool, evicted: Line)
      requires Valid() && g.Block(addr) == addr && time < MAX_TIME
      modifies this`lines, this`uses
      ensures Valid() && Probed(g, old(lines), addr, status, idx)
      ensures status == MISS && old(lines)[idx].status != INVALID ==>
        forall k: nat :: k < |lines| && g.InSet(addr, k) && old(lines)[k].status != RESERVED ==>
          && old(lines)[k].status != INVALID
          && (g.replacement == LRU ==>
                LastUse(old(uses), old(lines)[idx].block) <= LastUse(old(uses), old(lines)[k].block))
          && (g.replacement == FIFO ==>
                LastBrought(old(uses), old(lines)[idx].block) <= LastBrought(old(uses), old(lines)[k].block))
      ensures uses == old(uses) +
        if status.HIT? || status.HIT_RESERVED? then [Use(addr, time, false)]
        else if status.MISS? && g.allocation.ON_MISS? then [Use(addr, time, true)] else []
      ensures status.RESERVATION_FAIL? || (status.MISS? && g.allocation.ON_FILL?) ==> lines == old(lines)
      ensures status.HIT? || status.HIT_RESERVED? ==>
        lines == old(lines)[idx := old(lines)[idx].(lastAccess := time)]
      ensures status.MISS? && g.allocation.ON_MISS? ==>
        lines == old(lines)[idx := old(lines)[idx].Allocate(g.Tag(addr), addr, time)]
      ensures writeBack <==> status.MISS? && g.allocation.ON_MISS? && old(lines)[idx].status == MODIFIED
      ensures writeBack ==> evicted == old(lines)[idx]
    {
      writeBack, evicted := false, EMPTY_LINE;
      status, idx := Probe(addr);
      match status
      case HIT | HIT_RESERVED =>
        HoldsIsBlock(g, lines, addr, idx);
        UseDated(g, lines, idx, lines[idx].(lastAccess := time), uses, Use(addr, time, false));
        uses := uses + [Use(addr, time, false)];
        lines := lines[idx := lines[idx].(lastAccess := time)];
      case MISS =>
        if g.allocation == ON_MISS {
          if lines[idx].status == MODIFIED {
            writeBack, evicted := true, lines[idx];
          }
          AllocateCoherent(g, lines, addr, idx, time);
          UseDated(g, lines, idx, lines[idx].Allocate(g.Tag(addr), addr, time), uses, Use(addr, time, true));
          uses := uses + [Use(addr, time, true)];
          lines := lines[idx := lines[idx].Allocate(g.Tag(addr), g.Block(addr), time)];
        }
      case RESERVATION_FAIL =>
    }

    /** Marks a filled line as modified, or drops it. */
    method SetStatus(idx: nat, status: Status)
      requires Valid() && idx < |lines| && lines[idx].status != INVALID
      modifies this`lines
      ensures Valid() && lines == old(lines)[idx := old(lines)[idx].(status := status)]
    {
      lines := lines[idx := lines[idx].(status := status)];
    }

    /** Marks a reserved line as filled. */
    method FillLine(idx: nat, time: nat)
      requires Valid() && idx < |lines| && lines[idx].status == RESERVED
      modifies this`lines
      ensures Valid() && lines == old(lines)[idx := old(lines)[idx].(status := VALID, fillTime := time)]
    {
      lines := lines[idx := lines[idx].(status := VALID, fillTime := time)];
    }

    /** Allocate-on-fill: brings a block in when its data arrives. */
    method FillBlock(addr: nat, time: nat) returns (idx: nat)
      requires Valid() && g.Block(addr) == addr && time < MAX_TIME
      requires (forall k: nat :: !Holds(g, lines, addr, k))
      requires exists k: nat :: k < |lines| && g.InSet(addr, k) && lines[k].status != RESERVED
      modifies this`lines, this`uses
      ensures Valid() && Victim(g, old(lines), addr, idx) && uses == old(uses) + [Use(addr, time, true)]
      ensures old(lines)[idx].status != INVALID ==>
        forall k: nat :: k < |lines| && g.InSet(addr, k) && old(lines)[k].status != RESERVED ==>
          && old(lines)[k].status != INVALID
          && (g.replacement == LRU ==>
                LastUse(old(uses), old(lines)[idx].block) <= LastUse(old(uses), old(lines)[k].block))
          && (g.replacement == FIFO ==>
                LastBrought(old(uses), old(lines)[idx].block) <= LastBrought(old(uses), old(lines)[k].block))
      ensures lines == old(lines)[idx :=
        old(lines)[idx].Allocate(g.Tag(addr), addr, time).(status := VALID, fillTime := time)]
    {
      var status;
      status, idx := Probe(addr);
      assert status == MISS;
      AllocateCoherent(g, lines, addr, idx, time);
      UseDated(g, lines, idx, lines[idx].Allocate(g.Tag(addr), addr, time), uses, Use(addr, time, true));
      uses := uses + [Use(addr, time, true)];
      lines := lines[idx := lines[idx].Allocate(g.Tag(addr), g.Block(addr), time)];
      lines := lines[idx := lines[idx].(status := VALID, fillTime := time)];
    }
  }
}
