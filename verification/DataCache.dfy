/** The read-only and data caches: tags, miss-status table, miss queue and the bookkeeping of outstanding
reads, for every combination of allocation, write and write-allocate policy. */
module DataCache {
  import opened Collections
  import opened TagArray
  import opened Mshr

  datatype WritePolicy = READ_ONLY | WRITE_BACK | WRITE_THROUGH | WRITE_EVICT | LOCAL_WB_GLOBAL_WT
  datatype Event = WRITE_BACK_REQUEST_SENT | READ_REQUEST_SENT | WRITE_REQUEST_SENT

  /** What waits in the miss queue: a request that goes down, or the data of an evicted modified line. */
  datatype Queued = Request(mf: Fetch) | WriteBack(block: nat)

  /** What is remembered of a read sent to the next level: its block and the line it will fill. */
  datatype Outstanding = Outstanding(block: nat, index: nat)

  // ----- Outstanding reads

  /** The blocks in the miss-status table are those with exactly one outstanding read and, apart from them,
      those whose data has arrived. */
  ghost predicate Partitioned(table: map<nat, Entry>, response: seq<nat>, sent: map<Fetch, Outstanding>) {
    && (forall i: nat :: i < |response| ==> response[i] in table)
    && (forall m :: m in sent ==> sent[m].block in table && sent[m].block !in response)
    && (forall m, n :: m in sent && n in sent && m != n ==> sent[m].block != sent[n].block)
    && (forall b: nat :: b in table ==> b in response || BeingRead(sent, b))
  }

  ghost predicate BeingRead(sent: map<Fetch, Outstanding>, b: nat) {
    exists m :: m in sent && sent[m].block == b
  }

  /** Allocate-on-miss: the line of an outstanding read is reserved for its block. Allocate-on-fill: a block
      that is being read is in no line, and no line is ever reserved. */
  ghost predicate Placed(g: Geometry, lines: seq<Line>, sent: map<Fetch, Outstanding>)
    requires g.Valid()
  {
    && (forall m :: m in sent ==> g.Block(sent[m].block) == sent[m].block)
    && (if g.allocation == ON_MISS then
          forall m :: m in sent ==>
            sent[m].index < |lines| && lines[sent[m].index].status == RESERVED
            && lines[sent[m].index].block == sent[m].block
        else
          && (forall k: nat :: k < |lines| ==> lines[k].status != RESERVED)
          && forall m, k: nat :: m in sent && k < |lines| && lines[k].status != INVALID ==>
              lines[k].block != sent[m].block)
  }

  /** Reserved lines stay as they are, and blocks only disappear: no allocation. */
  ghost predicate NoNewBlock(lines: seq<Line>, lines': seq<Line>) {
    && |lines'| == |lines|
    && (forall k: nat :: k < |lines| && lines[k].status == RESERVED ==> lines'[k].status == RESERVED)
    && (forall k: nat :: k < |lines| && lines'[k].status == RESERVED ==> lines[k].status == RESERVED)
    && (forall k: nat :: k < |lines| && lines'[k].status != INVALID ==>
          lines[k].status != INVALID && lines'[k].block == lines[k].block)
  }

  lemma KeepPlaced(g: Geometry, lines: seq<Line>, lines': seq<Line>, sent: map<Fetch, Outstanding>)
    requires g.Valid() && Placed(g, lines, sent) && NoNewBlock(lines, lines')
    ensures Placed(g, lines', sent)
  {
  }

  /** Reserving the victim of a miss leaves the lines of outstanding reads alone. */
  lemma AllocatePlaced(g: Geometry, lines: seq<Line>, sent: map<Fetch, Outstanding>, b: nat, i: nat, line: Line)
    requires g.Valid() && g.allocation == ON_MISS && Placed(g, lines, sent) && Victim(g, lines, b, i)
    ensures Placed(g, lines[i := line], sent)
  {
  }

  /** A tag access leaves the lines of outstanding reads alone; after an allocating access the block is in a
      reserved line. */
  lemma AccessPlaced(g: Geometry, lines: seq<Line>, lines': seq<Line>, sent: map<Fetch, Outstanding>,
                     b: nat, status: RequestStatus, i: nat, time: nat)
    requires g.Valid() && Placed(g, lines, sent) && Probed(g, lines, b, status, i) && Coherent(g, lines)
    requires g.Block(b) == b
    requires status != RESERVATION_FAIL
    requires status.MISS? && g.allocation.ON_FILL? ==> lines' == lines
    requires status.HIT? || status.HIT_RESERVED? ==> lines' == lines[i := lines[i].(lastAccess := time)]
    requires status.MISS? && g.allocation.ON_MISS? ==> lines' == lines[i := lines[i].Allocate(g.Tag(b), b, time)]
    ensures Placed(g, lines', sent)
    ensures i < |lines|
    ensures g.allocation == ON_MISS && status != HIT ==>
        i < |lines'| && lines'[i].status == RESERVED && lines'[i].block == b
    ensures g.allocation == ON_FILL && status != HIT ==>
      status == MISS && forall k: nat :: k < |lines'| && lines'[k].status != INVALID ==> lines'[k].block != b
  {
    if status == HIT || status == HIT_RESERVED {
      assert NoNewBlock(lines, lines');
      KeepPlaced(g, lines, lines', sent);
      HoldsIsBlock(g, lines, b, i);
    } else if g.allocation == ON_MISS {
      AllocatePlaced(g, lines, sent, b, i, lines[i].Allocate(g.Tag(b), b, time));
    } else {
      forall k: nat | k < |lines| && lines[k].status != INVALID ensures lines[k].block != b {
        HoldsIsBlock(g, lines, b, k);
      }
    }
  }

  lemma NewReadPartitioned(table: map<nat, Entry>, response: seq<nat>, sent: map<Fetch, Outstanding>, m: Fetch,
                           o: Outstanding, w: Fetch)
    requires Partitioned(table, response, sent) && o.block !in table && m !in sent
    ensures Partitioned(Added(table, o.block, w), response, sent[m := o])
  {
    var table', sent' := Added(table, o.block, w), sent[m := o];
    forall b: nat | b in table' ensures b in response || BeingRead(sent', b) {
      if b == o.block {
        assert m in sent' && sent'[m].block == b;
      } else if b !in response {
        var n :| n in sent && sent[n].block == b;
        assert n in sent' && sent'[n].block == b;
      }
    }
  }

  lemma MergePartitioned(table: map<nat, Entry>, response: seq<nat>, sent: map<Fetch, Outstanding>, b: nat, w: Fetch)
    requires Partitioned(table, response, sent) && b in table
    ensures Partitioned(Added(table, b, w), response, sent)
  {
  }

  lemma FillPartitioned(table: map<nat, Entry>, response: seq<nat>, sent: map<Fetch, Outstanding>, m: Fetch)
    requires Partitioned(table, response, sent) && m in sent
    ensures Partitioned(table, response + [sent[m].block], sent - {m})
  {
    var response', sent' := response + [sent[m].block], sent - {m};
    forall b: nat | b in table ensures b in response' || BeingRead(sent', b) {
      if b !in response' {
        var n :| n in sent && sent[n].block == b;
        assert n in sent' && sent'[n].block == b;
      }
    }
  }

  lemma NextPartitioned(table: map<nat, Entry>, response: seq<nat>, sent: map<Fetch, Outstanding>)
    requires Partitioned(table, response, sent) && response != [] && NoDup(response)
    requires response[0] in table && table[response[0]].waiting != []
    ensures var table' := Advanced(table, response[0]);
      Partitioned(table', if response[0] in table' then response else response[1..], sent)
  {
  }

  /** Two probes of the same lines agree. */
  lemma SameStatus(g: Geometry, lines: seq<Line>, b: nat, s1: RequestStatus, i1: nat, s2: RequestStatus, i2: nat)
    requires g.Valid() && Coherent(g, lines) && g.Block(b) == b
    requires Probed(g, lines, b, s1, i1) && Probed(g, lines, b, s2, i2)
    ensures s1 == s2
  {
    if Holds(g, lines, b, i1) && Holds(g, lines, b, i2) {
      HoldsIsBlock(g, lines, b, i1);
      HoldsIsBlock(g, lines, b, i2);
    }
  }

  // ----- Modifications that have been sent nowhere

  ghost predicate ModifiedAt(lines: seq<Line>, k: nat, b: nat) {
    k < |lines| && lines[k].status == MODIFIED && lines[k].block == b
  }

  /** Line `k` holds the data of block `b`. */
  ghost predicate HeldAt(lines: seq<Line>, k: nat, b: nat) {
    k < |lines| && lines[k].block == b && (lines[k].status == VALID || lines[k].status == MODIFIED)
  }

  /** Line `k` is reserved for block `b`. */
  ghost predicate ReservedAt(lines: seq<Line>, k: nat, b: nat) {
    k < |lines| && lines[k].block == b && lines[k].status == RESERVED
  }

  /** What a probe answers, by blocks. */
  lemma StatusMeans(g: Geometry, lines: seq<Line>, b: nat, probed: RequestStatus, at: nat)
    requires g.Valid() && Coherent(g, lines) && g.Block(b) == b && Probed(g, lines, b, probed, at)
    ensures probed == HIT <==> exists k: nat :: HeldAt(lines, k, b)
    ensures probed == HIT_RESERVED <==> exists k: nat :: ReservedAt(lines, k, b)
    ensures probed == RESERVATION_FAIL <==>
      && (forall k: nat :: !HeldAt(lines, k, b)) && (forall k: nat :: !ReservedAt(lines, k, b))
      && forall k: nat :: k < |lines| && g.InSet(b, k) ==> lines[k].status == RESERVED
  {
    forall k: nat ensures Holds(g, lines, b, k) <==> HeldAt(lines, k, b) || ReservedAt(lines, k, b) {
      if k < |lines| {
        HoldsIsBlock(g, lines, b, k);
      }
    }
    if probed == HIT {
      assert HeldAt(lines, at, b);
    } else if probed == HIT_RESERVED {
      assert ReservedAt(lines, at, b);
    }
  }

  ghost predicate HasModified(lines: seq<Line>, b: nat) {
    exists k: nat :: ModifiedAt(lines, k, b)
  }

  /** The blocks of `unsent` are in modified lines; and unless writes are also written through, every modified line
      holds such a block. */
  ghost predicate Tracked(lines: seq<Line>, unsent: set<nat>, policy: WritePolicy) {
    && (forall b: nat :: b in unsent ==> HasModified(lines, b))
    && (policy != WRITE_THROUGH ==> forall k: nat :: k < |lines| && lines[k].status == MODIFIED ==>
        lines[k].block in unsent)
  }

  /** What is lost with a line that is replaced or dropped and not written back. */
  ghost function Gone(line: Line, unsent: set<nat>): set<nat> {
    if line.status == MODIFIED && line.block in unsent then {line.block} else {}
  }

  /** Unless writes are also written through, the modifications in a line are unsent exactly if it is modified. */
  lemma GoneIfModified(lines: seq<Line>, unsent: set<nat>, policy: WritePolicy, i: nat)
    requires Tracked(lines, unsent, policy) && policy != WRITE_THROUGH && i < |lines|
    ensures Gone(lines[i], unsent) == if lines[i].status == MODIFIED then {lines[i].block} else {}
  {
  }

  /** Replacing or dropping a line takes its block, and no other, off the unsent ones. */
  lemma ReplaceTracked(g: Geometry, lines: seq<Line>, i: nat, line: Line, unsent: set<nat>, policy: WritePolicy)
    requires g.Valid() && Coherent(g, lines) && Tracked(lines, unsent, policy) && i < |lines| && line.status != MODIFIED
    ensures Tracked(lines[i := line], unsent - Gone(lines[i], unsent), policy)
  {
    forall b: nat | b in unsent - Gone(lines[i], unsent) ensures HasModified(lines[i := line], b) {
      var k: nat :| ModifiedAt(lines, k, b);
      assert ModifiedAt(lines[i := line], k, b);
    }
  }

  /** A line that keeps its block and does not lose its modification. */
  lemma TouchTracked(lines: seq<Line>, i: nat, line: Line, unsent: set<nat>, policy: WritePolicy)
    requires Tracked(lines, unsent, policy) && i < |lines| && line.block == lines[i].block
    requires lines[i].status == MODIFIED ==> line.status == MODIFIED
    ensures line.status == lines[i].status || line.status != MODIFIED || policy == WRITE_THROUGH ==>
      Tracked(lines[i := line], unsent, policy)
    ensures line.status == MODIFIED ==> Tracked(lines[i := line], unsent + {line.block}, policy)
  {
    forall b: nat | b in unsent ensures HasModified(lines[i := line], b) {
      var k: nat :| ModifiedAt(lines, k, b);
      assert ModifiedAt(lines[i := line], k, b);
    }
    if line.status == MODIFIED {
      assert ModifiedAt(lines[i := line], i, line.block);
    }
  }

  /** Writes are sent down at once, or there are none: only atomics leave modifications that have been sent nowhere. */
  predicate SentAtOnce(policy: WritePolicy) {
    policy == READ_ONLY || policy == WRITE_THROUGH || policy == WRITE_EVICT
  }

  /** A modified line that is replaced is written back. */
  predicate WritesBack(policy: WritePolicy) {
    policy != WRITE_THROUGH && policy != READ_ONLY
  }

  /** Every modified line that is replaced is written back, and no line is dropped. */
  predicate WritesAllBack(policy: WritePolicy, allocation: Allocation) {
    policy == WRITE_BACK && allocation == ON_MISS
  }

  /** The configurations that never lose a write. */
  predicate KeepsWrites(policy: WritePolicy, allocation: Allocation) {
    SentAtOnce(policy) || WritesAllBack(policy, allocation)
  }

  /** What the blocks with unsent modifications, those with lost ones and those of late atomics have to do with the
      blocks of accepted atomics: where no write is lost, all that is lost belongs to atomics. */
  ghost predicate Kept(policy: WritePolicy, allocation: Allocation, unsent: set<nat>, lost: set<nat>, late: set<nat>,
                       atomics: set<nat>) {
    && late <= lost && late <= atomics
    && (SentAtOnce(policy) ==> unsent <= atomics && lost <= atomics)
    && (WritesAllBack(policy, allocation) ==> lost == late)
  }

  /** The entries marked as atomic are those of accepted atomics. */
  ghost predicate AtomicsNoted(table: map<nat, Entry>, atomics: set<nat>) {
    forall b: nat :: b in table && table[b].hasAtomic ==> b in atomics
  }

  lemma AddNoted(table: map<nat, Entry>, atomics: set<nat>, b: nat, mf: Fetch)
    requires AtomicsNoted(table, atomics) && (mf.atomic ==> b in atomics)
    ensures AtomicsNoted(Added(table, b, mf), atomics)
  {
  }

  lemma AdvanceNoted(table: map<nat, Entry>, atomics: set<nat>, b: nat)
    requires AtomicsNoted(table, atomics) && b in table && table[b].waiting != []
    ensures AtomicsNoted(Advanced(table, b), atomics)
  {
  }

  lemma NotedHere(table: map<nat, Entry>, atomics: set<nat>, b: nat)
    requires AtomicsNoted(table, atomics) && b in table && table[b].hasAtomic
    ensures b in atomics
  {
  }

  /** What an accepted request adds to the blocks of accepted atomics. */
  function Noted(b: nat, mf: Fetch): set<nat> {
    if mf.atomic then {b} else {}
  }

  /** An atomic that missed and found its block among those whose data has arrived already: no line will be marked
      modified for it. */
  predicate Late(response: seq<nat>, b: nat, mf: Fetch) {
    mf.atomic && b in response
  }

  /** The tags after an access. */
  function TagsAfter(g: Geometry, lines: seq<Line>, b: nat, status: RequestStatus, i: nat, time: nat): seq<Line>
    requires g.Valid()
  {
    if i >= |lines| || status == RESERVATION_FAIL then lines
    else if status == HIT || status == HIT_RESERVED then lines[i := lines[i].(lastAccess := time)]
    else if g.allocation == ON_MISS then lines[i := lines[i].Allocate(g.Tag(b), b, time)]
    else lines
  }

  /** The uses that an access of the tags adds to the history. */
  function Uses(g: Geometry, b: nat, status: RequestStatus, time: nat): seq<Use> {
    if status == HIT || status == HIT_RESERVED then [Use(b, time, false)]
    else if status == MISS && g.allocation == ON_MISS then [Use(b, time, true)]
    else []
  }

  /** The line that an access replaces, if it replaces one. */
  ghost function Replaced(g: Geometry, lines: seq<Line>, status: RequestStatus, i: nat): Line {
    if status == MISS && g.allocation == ON_MISS && i < |lines| then lines[i] else EMPTY_LINE
  }

  // ----- What an operation does to the whole state

  datatype State = State(lines: seq<Line>, table: map<nat, Entry>, response: seq<nat>, accepted: map<nat, seq<Fetch>>,
                         returned: map<nat, seq<Fetch>>, sent: map<Fetch, Outstanding>, queue: seq<Queued>,
                         unsent: set<nat>, lost: set<nat>, late: set<nat>, atomics: set<nat>, uses: seq<Use>)

  /** Something joins the miss queue. */
  ghost function AfterQueue(s: State, q: seq<Queued>): State {
    s.(queue := s.queue + q)
  }

  /** A read of block `b` on behalf of `mf` is merged or sent, after a tag access that answers `probed`. */
  ghost function AfterRead(g: Geometry, policy: WritePolicy, s: State, b: nat, mf: Fetch, probed: RequestStatus,
                           way: nat,
                           time: nat): State
    requires g.Valid()
  {
    var gone := Gone(Replaced(g, s.lines, probed, way), s.unsent);
    var late := if Late(s.response, b, mf) then {b} else {};
    s.(lines := TagsAfter(g, s.lines, b, probed, way, time),
       table := Added(s.table, b, mf),
       accepted := s.accepted[b := Get(s.accepted, b) + [mf]],
       sent := if b in s.table then s.sent else s.sent[mf := Outstanding(b, way)],
       queue := s.queue + (if b in s.table then [] else [Request(mf)]),
       unsent := s.unsent - gone,
       lost := s.lost + (if WritesBack(policy) then {} else gone) + late,
       late := s.late + late, atomics := s.atomics + Noted(b, mf), uses := s.uses + Uses(g, b, probed, time))
  }

  /** The write-back that replacing a line calls for. */
  function WriteBacks(policy: WritePolicy, line: Line): seq<Queued> {
    if line.status == MODIFIED && WritesBack(policy) then [WriteBack(line.block)] else []
  }

  /** A read miss: the read, and the write-back of the line that it replaces. */
  ghost function AfterMiss(g: Geometry, policy: WritePolicy, s: State, b: nat, mf: Fetch, probed: RequestStatus,
                           way: nat,
                           time: nat): State
    requires g.Valid()
  {
    AfterQueue(AfterRead(g, policy, s, b, mf, probed, way, time), WriteBacks(policy, Replaced(g, s.lines, probed, way)))
  }

  /** A hit; a modification is unsent unless it goes down too. */
  ghost function AfterHit(s: State, b: nat, way: nat, time: nat, written: bool, goesDown: bool): State {
    if way >= |s.lines| then s
    else s.(lines := s.lines[way := HitLine(s.lines[way], time, written)],
            unsent := s.unsent + (if written && !goesDown then {b} else {}), uses := s.uses + [Use(b, time, false)])
  }

  /** A read hit in a data cache: an atomic marks the line modified. */
  ghost function AfterReadHit(s: State, b: nat, mf: Fetch, way: nat, time: nat): State {
    AfterHit(s.(atomics := s.atomics + Noted(b, mf)), b, way, time, mf.atomic, false)
  }

  /** An atomic hits in a read-only cache, which marks no line. */
  predicate Unmarked(lines: seq<Line>, way: nat, mf: Fetch) {
    mf.atomic && way < |lines| && lines[way].status != MODIFIED
  }

  /** A hit in a read-only cache. */
  ghost function AfterReadOnlyHit(s: State, b: nat, mf: Fetch, way: nat, time: nat): State {
    AfterHit(s.(atomics := s.atomics + Noted(b, mf), lost := s.lost + if Unmarked(s.lines, way, mf) then {b} else {}),
             b, way, time, false, false)
  }

  /** A write hit that drops the line, with whatever was unsent in it. */
  ghost function AfterEvict(s: State, way: nat, mf: Fetch): State {
    if way >= |s.lines| then s
    else
      var gone := Gone(s.lines[way], s.unsent);
      s.(lines := s.lines[way := s.lines[way].(status := INVALID)], queue := s.queue + [Request(mf)],
         unsent := s.unsent - gone, lost := s.lost + gone)
  }

  /** The data of the read `mf` arrives in line `way`. With allocate-on-fill a line is replaced and not written back. */
  ghost function AfterFill(g: Geometry, s: State, mf: Fetch, way: nat, time: nat): State
    requires g.Valid() && mf in s.sent && s.sent[mf].block in s.table && way < |s.lines|
  {
    var b, line := s.sent[mf].block, s.lines[way];
    var filled := s.(sent := s.sent - {mf}, response := s.response + [b]);
    if g.allocation == ON_MISS then
      var atomic := s.table[b].hasAtomic;
      filled.(lines := s.lines[way := line.(status := if atomic then MODIFIED else VALID, fillTime := time)],
              unsent := s.unsent + if atomic then {b} else {})
    else
      filled.(lines := s.lines[way := line.Allocate(g.Tag(b), b, time).(status := VALID, fillTime := time)],
              unsent := s.unsent - Gone(line, s.unsent), lost := s.lost + Gone(line, s.unsent),
              uses := s.uses + [Use(b, time, true)])
  }

  /** The oldest request of the block that arrived first is handed back. */
  ghost function AfterNext(s: State): State
    requires s.response != [] && s.response[0] in s.table && s.table[s.response[0]].waiting != []
  {
    var b := s.response[0];
    var table := Advanced(s.table, b);
    s.(table := table, response := if b in table then s.response else s.response[1..],
       returned := s.returned[b := Get(s.returned, b) + [s.table[b].waiting[0]]])
  }

  predicate Evicting(policy: WritePolicy, mf: Fetch) {
    policy == WRITE_EVICT || (policy == LOCAL_WB_GLOBAL_WT && mf.globalWrite)
  }

  /** A write hit, by policy. */
  ghost function AfterWriteHit(policy: WritePolicy, s: State, b: nat, mf: Fetch, way: nat, time: nat): State {
    if Evicting(policy, mf) then AfterEvict(s, way, mf)
    else if policy == WRITE_THROUGH then AfterQueue(AfterHit(s, b, way, time, true, true), [Request(mf)])
    else AfterHit(s, b, way, time, true, false)
  }

  /** An access that is not refused. */
  ghost function AfterAccess(g: Geometry, policy: WritePolicy, allocate: bool, s: State, b: nat, mf: Fetch, read: Fetch,
                             probed: RequestStatus, way: nat, time: nat): State
    requires g.Valid()
  {
    if probed == HIT then
      if mf.write then AfterWriteHit(policy, s, b, mf, way, time) else AfterReadHit(s, b, mf, way, time)
    else if mf.write && !allocate then AfterQueue(s, [Request(mf)])
    else if mf.write then AfterMiss(g, policy, AfterQueue(s, [Request(mf)]), b, read, probed, way, time)
    else AfterMiss(g, policy, s, b, mf, probed, way, time)
  }

  // ----- What an access does, by policy

  /** Nothing changes in the miss table, the responses and the outstanding reads. */
  ghost predicate SameReads(s: State, t: State) {
    && t.table == s.table && t.response == s.response && t.accepted == s.accepted && t.returned == s.returned
    && t.sent == s.sent
  }

  /** What a hit does: the block stays and is used, unless the write evicts it. */
  lemma HitMeans(g: Geometry, policy: WritePolicy, allocate: bool, s: State, b: nat, mf: Fetch, read: Fetch, way: nat,
                 time: nat)
    requires g.Valid() && g.Block(b) == b && Coherent(g, s.lines) && Probed(g, s.lines, b, HIT, way)
    requires policy != READ_ONLY
    ensures var t := AfterAccess(g, policy, allocate, s, b, mf, read, HIT, way, time);
      && SameReads(s, t) && HeldAt(s.lines, way, b) && |t.lines| == |s.lines|
      && (forall k: nat :: k < |s.lines| && k != way ==> t.lines[k] == s.lines[k])
      && (if mf.write && (policy == WRITE_EVICT || (policy == LOCAL_WB_GLOBAL_WT && mf.globalWrite)) then
            (forall k: nat :: !HeldAt(t.lines, k, b)) && t.queue == s.queue + [Request(mf)] && t.uses == s.uses
          else
            && HeldAt(t.lines, way, b) && t.lines[way].lastAccess == time && t.uses == s.uses + [Use(b, time, false)]
            && (t.lines[way].status == MODIFIED <==> mf.write || mf.atomic || s.lines[way].status == MODIFIED)
            && t.queue == s.queue + if mf.write && policy == WRITE_THROUGH then [Request(mf)] else [])
  {
    HoldsIsBlock(g, s.lines, b, way);
    var t := AfterAccess(g, policy, allocate, s, b, mf, read, HIT, way, time);
    assert s.queue + [] == s.queue;
  }

  /** What a miss does to the lines: with allocate-on-miss one is reserved for the block, and that is a use. */
  lemma MissLines(g: Geometry, policy: WritePolicy, allocate: bool, s: State, b: nat, mf: Fetch, read: Fetch,
                  probed: RequestStatus, way: nat, time: nat)
    requires g.Valid() && g.Block(b) == b && Coherent(g, s.lines) && Probed(g, s.lines, b, probed, way)
    requires probed == MISS || probed == HIT_RESERVED
    ensures var t := AfterAccess(g, policy, allocate, s, b, mf, read, probed, way, time);
      if mf.write && !allocate then t.lines == s.lines && t.uses == s.uses
      else
        && way < |s.lines| == |t.lines| && (forall k: nat :: k < |s.lines| && k != way ==> t.lines[k] == s.lines[k])
        && if g.allocation == ON_MISS then
             && ReservedAt(t.lines, way, b) && t.lines[way].lastAccess == time
             && t.uses == s.uses + [Use(b, time, probed == MISS)]
           else probed == MISS ==> t.lines == s.lines && t.uses == s.uses
  {
    hide Coherent, AfterMiss, Probed;
    var f := if mf.write then read else mf;
    ReservesLine(g, policy, s, b, f, probed, way, time);
    ReservesLine(g, policy, AfterQueue(s, [Request(mf)]), b, f, probed, way, time);
  }

  lemma ReservesLine(g: Geometry, policy: WritePolicy, s: State, b: nat, f: Fetch, probed: RequestStatus, way: nat,
                     time: nat)
    requires g.Valid() && g.Block(b) == b && Coherent(g, s.lines) && Probed(g, s.lines, b, probed, way)
    requires probed == MISS || probed == HIT_RESERVED
    ensures var t := AfterMiss(g, policy, s, b, f, probed, way, time);
      && way < |s.lines| == |t.lines| && (forall k: nat :: k < |s.lines| && k != way ==> t.lines[k] == s.lines[k])
      && if g.allocation == ON_MISS then
           && ReservedAt(t.lines, way, b) && t.lines[way].lastAccess == time
           && t.uses == s.uses + [Use(b, time, probed == MISS)]
         else probed == MISS ==> t.lines == s.lines && t.uses == s.uses
  {
    hide Coherent, Holds, Gone, Noted, Added, WriteBacks, Replaced, Probed;
    ProbeInRange(g, s.lines, b, probed, way);
    if probed == HIT_RESERVED {
      HoldsIsBlock(g, s.lines, b, way);
    }
    assert s.uses + [] == s.uses;
  }

  lemma ProbeInRange(g: Geometry, lines: seq<Line>, b: nat, probed: RequestStatus, way: nat)
    requires g.Valid() && Probed(g, lines, b, probed, way) && probed != RESERVATION_FAIL
    ensures way < |lines| && (probed == HIT_RESERVED ==> lines[way].status == RESERVED && Holds(g, lines, b, way))
  {
  }

  /** What a miss does to the reads and the queue: the write goes down; the read joins the entry of its block behind the
      others, and is sent if it is the first; then comes the write-back of a modified line that was replaced. */
  lemma MissReads(g: Geometry, policy: WritePolicy, allocate: bool, s: State, b: nat, mf: Fetch, read: Fetch,
                  probed: RequestStatus, way: nat, time: nat)
    requires g.Valid() && way < |s.lines| && (probed == MISS || probed == HIT_RESERVED)
    ensures var t := AfterAccess(g, policy, allocate, s, b, mf, read, probed, way, time);
      if mf.write && !allocate then SameReads(s, t) && t.queue == s.queue + [Request(mf)]
      else
        var f := if mf.write then read else mf;
        && b in t.table && t.table[b].waiting == Waiting(s.table, b) + [f]
        && (forall c: nat :: c != b ==> (c in t.table <==> c in s.table) && (c in s.table ==> t.table[c] == s.table[c]))
        && t.response == s.response && t.sent == (if b in s.table then s.sent else s.sent[f := Outstanding(b, way)])
        && t.queue == s.queue + (if mf.write then [Request(mf)] else []) + (if b in s.table then [] else [Request(f)])
             + (if probed == MISS && g.allocation == ON_MISS && s.lines[way].status == MODIFIED
                   && policy != WRITE_THROUGH && policy != READ_ONLY then [WriteBack(s.lines[way].block)] else [])
  {
    hide AfterMiss;
    var f := if mf.write then read else mf;
    assert s.queue + [] == s.queue;
    JoinsEntry(g, policy, s, b, f, probed, way, time);
    JoinsEntry(g, policy, AfterQueue(s, [Request(mf)]), b, f, probed, way, time);
  }

  lemma JoinsEntry(g: Geometry, policy: WritePolicy, s: State, b: nat, f: Fetch, probed: RequestStatus, way: nat,
                   time: nat)
    requires g.Valid() && way < |s.lines| && (probed == MISS || probed == HIT_RESERVED)
    ensures var t := AfterMiss(g, policy, s, b, f, probed, way, time);
      && b in t.table && t.table[b].waiting == Waiting(s.table, b) + [f]
      && (forall c: nat :: c != b ==> (c in t.table <==> c in s.table) && (c in s.table ==> t.table[c] == s.table[c]))
      && t.response == s.response && t.sent == (if b in s.table then s.sent else s.sent[f := Outstanding(b, way)])
      && t.queue == s.queue + (if b in s.table then [] else [Request(f)])
           + (if probed == MISS && g.allocation == ON_MISS && s.lines[way].status == MODIFIED
                 && policy != WRITE_THROUGH && policy != READ_ONLY then [WriteBack(s.lines[way].block)] else [])
  {
    hide TagsAfter, Gone, Noted, Late, Uses;
  }

  /** What a fill does: the line of the read, or with allocate-on-fill one that is taken for it, holds the block; a
      waiting atomic makes it modified; and the block is the last of the responses. */
  lemma FillMeans(g: Geometry, s: State, mf: Fetch, way: nat, time: nat)
    requires g.Valid() && mf in s.sent && s.sent[mf].block in s.table && way < |s.lines|
    requires g.allocation == ON_MISS ==> ReservedAt(s.lines, way, s.sent[mf].block)
    ensures var t, b := AfterFill(g, s, mf, way, time), s.sent[mf].block;
      && t.response == s.response + [b] && t.table == s.table && t.sent == s.sent - {mf} && t.queue == s.queue
      && |t.lines| == |s.lines| && (forall k: nat :: k < |s.lines| && k != way ==> t.lines[k] == s.lines[k])
      && HeldAt(t.lines, way, b) && t.lines[way].fillTime == time
      && (t.lines[way].status == MODIFIED <==> g.allocation == ON_MISS && s.table[b].hasAtomic)
      && t.uses == s.uses + if g.allocation == ON_FILL then [Use(b, time, true)] else []
  {
    hide Gone;
    assert s.uses + [] == s.uses;
  }

  // ----- What is lost, seen from the state alone

  /** What an operation has added to the miss queue. */
  ghost function Queuing(s: State, t: State): seq<Queued> {
    if |s.queue| <= |t.queue| then t.queue[|s.queue|..] else []
  }

  /** Modifications of block `c` were nowhere but in a line, and after the operation they are in no line and no
      write-back has been queued. */
  ghost predicate Vanishes(s: State, t: State, c: nat) {
    c in s.unsent && !HasModified(t.lines, c) && WriteBack(c) !in Queuing(s, t)
  }

  /** The modification that `mf` makes to block `b` has left its mark: it is in a line, or on its way down, or the block
      is being read for an atomic; when it arrives, it will be marked modified, or with allocate-on-fill the simulator
      stops. */
  ghost predicate Recorded(s: State, t: State, b: nat, mf: Fetch) {
    || HasModified(t.lines, b)
    || (mf.write && Request(mf) in Queuing(s, t))
    || (BeingRead(t.sent, b) && b in t.table && t.table[b].hasAtomic)
  }

  /** The operation loses exactly the modifications that vanish by it and, if `mf` makes one that leaves no mark, this
      one. */
  ghost predicate LosesExactly(s: State, t: State, b: nat, mf: Fetch) {
    t.lost == s.lost + (set c | c in s.unsent && Vanishes(s, t, c))
              + if (mf.write || mf.atomic) && !Recorded(s, t, b, mf) then {b} else {}
  }

  lemma ReplaceModified(g: Geometry, lines: seq<Line>, i: nat, line: Line, c: nat)
    requires g.Valid() && Coherent(g, lines) && i < |lines| && line.status != MODIFIED
    ensures HasModified(lines[i := line], c) <==> HasModified(lines, c) && !ModifiedAt(lines, i, c)
  {
    if HasModified(lines, c) {
      var k: nat :| ModifiedAt(lines, k, c);
      assert k != i ==> ModifiedAt(lines[i := line], k, c);
    }
    if HasModified(lines[i := line], c) {
      var k: nat :| ModifiedAt(lines[i := line], k, c);
      assert ModifiedAt(lines, k, c);
    }
  }

  lemma TouchModified(lines: seq<Line>, i: nat, line: Line, c: nat)
    requires i < |lines| && line.block == lines[i].block && (lines[i].status == MODIFIED ==> line.status == MODIFIED)
    ensures HasModified(lines[i := line], c) <==> HasModified(lines, c) || (line.status == MODIFIED && line.block == c)
  {
    if HasModified(lines, c) {
      var k: nat :| ModifiedAt(lines, k, c);
      assert ModifiedAt(lines[i := line], k, c);
    }
    if line.status == MODIFIED && line.block == c {
      assert ModifiedAt(lines[i := line], i, c);
    }
    if HasModified(lines[i := line], c) {
      var k: nat :| ModifiedAt(lines[i := line], k, c);
      assert k != i ==> ModifiedAt(lines, k, c);
    }
  }

  /** If what vanishes is what was unsent in one line, it is the block of that line or nothing. */
  lemma VanishedSet(s: State, t: State, way: nat, drops: bool)
    requires way < |s.lines|
    requires forall c: nat :: Vanishes(s, t, c) <==> drops && c in s.unsent && ModifiedAt(s.lines, way, c)
    ensures (set c | c in s.unsent && Vanishes(s, t, c)) == if drops then Gone(s.lines[way], s.unsent) else {}
  {
    hide Vanishes;
  }

  /** The access drops line `way`, by a write hit, or replaces it under write-through. */
  predicate Drops(g: Geometry, policy: WritePolicy, allocate: bool, mf: Fetch, probed: RequestStatus) {
    || (probed == HIT && mf.write && Evicting(policy, mf))
    || (probed == MISS && g.allocation == ON_MISS && !WritesBack(policy) && (!mf.write || allocate))
  }

  /** What a hit loses. */
  lemma HitLoses(g: Geometry, policy: WritePolicy, s: State, b: nat, mf: Fetch, way: nat, time: nat)
    requires g.Valid() && g.Block(b) == b && Coherent(g, s.lines) && Tracked(s.lines, s.unsent, policy)
    requires Probed(g, s.lines, b, HIT, way)
    ensures way < |s.lines|
    ensures var t := if mf.write then AfterWriteHit(policy, s, b, mf, way, time)
                     else AfterReadHit(s, b, mf, way, time);
      && LosesExactly(s, t, b, mf) && (mf.write || mf.atomic ==> Recorded(s, t, b, mf))
      && forall c: nat :: Vanishes(s, t, c) <==>
          mf.write && Evicting(policy, mf) && c in s.unsent && ModifiedAt(s.lines, way, c)
  {
    HoldsIsBlock(g, s.lines, b, way);
    var t := if mf.write then AfterWriteHit(policy, s, b, mf, way, time)
             else AfterReadHit(s, b, mf, way, time);
    hide Holds, HasModified;
    if mf.write && Evicting(policy, mf) {
      forall c: nat ensures HasModified(t.lines, c) <==> HasModified(s.lines, c) && !ModifiedAt(s.lines, way, c) {
        ReplaceModified(g, s.lines, way, t.lines[way], c);
      }
      assert Queuing(s, t) == [Request(mf)];
    } else {
      forall c: nat ensures HasModified(t.lines, c) <==>
          HasModified(s.lines, c) || (t.lines[way].status == MODIFIED && t.lines[way].block == c) {
        TouchModified(s.lines, way, t.lines[way], c);
      }
    }
    hide Coherent;
    VanishedSet(s, t, way, mf.write && Evicting(policy, mf));
  }

  /** The tag access of a miss takes away the modifications of the line that it replaces and no others. */
  lemma MissModified(g: Geometry, lines: seq<Line>, b: nat, probed: RequestStatus, way: nat, time: nat, c: nat)
    requires g.Valid() && g.Block(b) == b && Coherent(g, lines)
    requires Probed(g, lines, b, probed, way) && (probed == MISS || probed == HIT_RESERVED)
    ensures way < |lines|
    ensures HasModified(TagsAfter(g, lines, b, probed, way, time), c) <==>
      HasModified(lines, c) && !(probed == MISS && g.allocation == ON_MISS && ModifiedAt(lines, way, c))
    ensures !HasModified(TagsAfter(g, lines, b, probed, way, time), b)
  {
    forall k: nat | k < |lines| && ModifiedAt(lines, k, b) ensures false {
      HoldsIsBlock(g, lines, b, k);
      if probed == HIT_RESERVED {
        SameWay(g, lines, b, k, way);
      }
    }
    var after := TagsAfter(g, lines, b, probed, way, time);
    assert !HasModified(lines, b);
    if probed == MISS && g.allocation == ON_MISS {
      ReplaceModified(g, lines, way, after[way], c);
      ReplaceModified(g, lines, way, after[way], b);
    } else if probed == HIT_RESERVED {
      TouchModified(lines, way, after[way], c);
      TouchModified(lines, way, after[way], b);
    }
  }

  /** What vanishes by a miss, which comes after `before` has been queued. */
  lemma MissVanishes(g: Geometry, policy: WritePolicy, s: State, before: seq<Queued>, b: nat, mf: Fetch,
                     probed: RequestStatus, way: nat, time: nat)
    requires g.Valid() && g.Block(b) == b && Coherent(g, s.lines) && Tracked(s.lines, s.unsent, policy)
    requires Probed(g, s.lines, b, probed, way) && (probed == MISS || probed == HIT_RESERVED)
    requires forall c: nat :: WriteBack(c) !in before
    ensures way < |s.lines|
    ensures var t := AfterMiss(g, policy, AfterQueue(s, before), b, mf, probed, way, time);
      && before <= Queuing(s, t)
      && forall c: nat :: Vanishes(s, t, c) <==>
          probed == MISS && g.allocation == ON_MISS && !WritesBack(policy) && c in s.unsent
          && ModifiedAt(s.lines, way, c)
  {
    MissModified(g, s.lines, b, probed, way, time, b);
    var t := AfterMiss(g, policy, AfterQueue(s, before), b, mf, probed, way, time);
    var sends := if b in s.table then [] else [Request(mf)];
    var backs := WriteBacks(policy, Replaced(g, s.lines, probed, way));
    assert Queuing(s, t) == before + sends + backs;
    hide Queuing;
    forall c: nat ensures Vanishes(s, t, c) <==>
        probed == MISS && g.allocation == ON_MISS && !WritesBack(policy) && c in s.unsent
        && ModifiedAt(s.lines, way, c) {
      MissModified(g, s.lines, b, probed, way, time, c);
      hide Coherent, Probed, HasModified, AfterMiss;
      assert WriteBack(c) in before + sends + backs <==> WriteBack(c) in backs;
    }
  }

  /** An atomic that misses leaves its mark unless its block has arrived. */
  lemma MissRecorded(g: Geometry, policy: WritePolicy, s: State, b: nat, mf: Fetch, probed: RequestStatus, way: nat,
                     time: nat)
    requires g.Valid() && g.Block(b) == b && Coherent(g, s.lines) && Partitioned(s.table, s.response, s.sent)
    requires Probed(g, s.lines, b, probed, way) && (probed == MISS || probed == HIT_RESERVED)
    requires mf.atomic && !mf.write
    ensures Recorded(s, AfterMiss(g, policy, s, b, mf, probed, way, time), b, mf) <==> !Late(s.response, b, mf)
  {
    MissModified(g, s.lines, b, probed, way, time, b);
    hide Coherent, Probed, HasModified, Queuing, TagsAfter;
    var t := AfterMiss(g, policy, s, b, mf, probed, way, time);
    assert t.table == Added(s.table, b, mf);
    if b !in s.table {
      assert mf in t.sent && t.sent[mf].block == b;
    } else {
      assert t.sent == s.sent;
    }
  }

  /** Exactly what an accepted access loses, seen from the state: the modifications that vanish, and its own if that
      leaves no mark. And when that is: the former if it drops the line by a write hit or replaces it under
      write-through, the latter if it is an atomic that misses a block that has arrived. */
  lemma AccessLoses(g: Geometry, policy: WritePolicy, allocate: bool, s: State, b: nat, mf: Fetch, read: Fetch,
                    probed: RequestStatus, way: nat, time: nat)
    requires g.Valid() && g.Block(b) == b && Coherent(g, s.lines) && Tracked(s.lines, s.unsent, policy)
    requires Partitioned(s.table, s.response, s.sent) && !read.atomic
    requires Probed(g, s.lines, b, probed, way) && probed != RESERVATION_FAIL
    ensures way < |s.lines|
    ensures var t := AfterAccess(g, policy, allocate, s, b, mf, read, probed, way, time);
      && LosesExactly(s, t, b, mf)
      && (forall c: nat :: Vanishes(s, t, c) <==>
          Drops(g, policy, allocate, mf, probed) && c in s.unsent && ModifiedAt(s.lines, way, c))
      && (mf.write || mf.atomic ==>
          (Recorded(s, t, b, mf) <==> probed == HIT || mf.write || !Late(s.response, b, mf)))
  {
    if probed == HIT {
      HitLoses(g, policy, s, b, mf, way, time);
    } else if mf.write {
      WriteMissLoses(g, policy, allocate, s, b, mf, read, probed, way, time);
    } else {
      ReadMissLoses(g, policy, allocate, s, b, mf, read, probed, way, time);
    }
  }

  lemma WriteMissLoses(g: Geometry, policy: WritePolicy, allocate: bool, s: State, b: nat, mf: Fetch, read: Fetch,
                       probed: RequestStatus, way: nat, time: nat)
    requires g.Valid() && g.Block(b) == b && Coherent(g, s.lines) && Tracked(s.lines, s.unsent, policy)
    requires mf.write && !read.atomic
    requires Probed(g, s.lines, b, probed, way) && (probed == MISS || probed == HIT_RESERVED)
    ensures way < |s.lines|
    ensures var t := AfterAccess(g, policy, allocate, s, b, mf, read, probed, way, time);
      && LosesExactly(s, t, b, mf)
      && (forall c: nat :: Vanishes(s, t, c) <==>
          Drops(g, policy, allocate, mf, probed) && c in s.unsent && ModifiedAt(s.lines, way, c))
      && Recorded(s, t, b, mf)
  {
    var t := AfterAccess(g, policy, allocate, s, b, mf, read, probed, way, time);
    hide AfterRead, WriteBacks;
    if allocate {
      MissVanishes(g, policy, s, [Request(mf)], b, read, probed, way, time);
    } else {
      assert Queuing(s, t) == [Request(mf)];
    }
    hide Coherent, Probed, Tracked, HasModified, Queuing;
    assert Queuing(s, t)[0] == Request(mf);
    hide Vanishes;
    VanishedSet(s, t, way, Drops(g, policy, allocate, mf, probed));
    WriteMissLost(g, policy, allocate, s, b, mf, read, probed, way, time);
  }

  lemma WriteMissLost(g: Geometry, policy: WritePolicy, allocate: bool, s: State, b: nat, mf: Fetch, read: Fetch,
                      probed: RequestStatus, way: nat, time: nat)
    requires g.Valid() && mf.write && !read.atomic && way < |s.lines| && (probed == MISS || probed == HIT_RESERVED)
    ensures AfterAccess(g, policy, allocate, s, b, mf, read, probed, way, time).lost ==
      s.lost + if Drops(g, policy, allocate, mf, probed) then Gone(s.lines[way], s.unsent) else {}
  {
    hide Added, TagsAfter, WriteBacks;
  }

  lemma ReadMissLoses(g: Geometry, policy: WritePolicy, allocate: bool, s: State, b: nat, mf: Fetch, read: Fetch,
                      probed: RequestStatus, way: nat, time: nat)
    requires g.Valid() && g.Block(b) == b && Coherent(g, s.lines) && Tracked(s.lines, s.unsent, policy)
    requires Partitioned(s.table, s.response, s.sent) && !mf.write
    requires Probed(g, s.lines, b, probed, way) && (probed == MISS || probed == HIT_RESERVED)
    ensures way < |s.lines|
    ensures var t := AfterAccess(g, policy, allocate, s, b, mf, read, probed, way, time);
      && LosesExactly(s, t, b, mf)
      && (forall c: nat :: Vanishes(s, t, c) <==>
          Drops(g, policy, allocate, mf, probed) && c in s.unsent && ModifiedAt(s.lines, way, c))
      && (mf.atomic ==> (Recorded(s, t, b, mf) <==> !Late(s.response, b, mf)))
  {
    var t := AfterAccess(g, policy, allocate, s, b, mf, read, probed, way, time);
    hide AfterRead, WriteBacks;
    assert AfterQueue(s, []) == s by {
      assert s.queue + [] == s.queue;
    }
    MissVanishes(g, policy, s, [], b, mf, probed, way, time);
    if mf.atomic {
      MissRecorded(g, policy, s, b, mf, probed, way, time);
    }
    hide Coherent, Partitioned, Probed, Vanishes, Recorded, Tracked;
    VanishedSet(s, t, way, Drops(g, policy, allocate, mf, probed));
    ReadMissLost(g, policy, s, b, mf, probed, way, time);
  }

  lemma ReadMissLost(g: Geometry, policy: WritePolicy, s: State, b: nat, mf: Fetch, probed: RequestStatus, way: nat,
                     time: nat)
    requires g.Valid() && way < |s.lines| && (probed == MISS || probed == HIT_RESERVED)
    ensures AfterMiss(g, policy, s, b, mf, probed, way, time).lost == s.lost
      + (if probed == MISS && g.allocation == ON_MISS && !WritesBack(policy) then Gone(s.lines[way], s.unsent)
         else {})
      + (if Late(s.response, b, mf) then {b} else {})
  {
    hide Added, TagsAfter, WriteBacks;
  }

  /** The same for read-only caches, which write nothing back and mark no line on a hit. */
  lemma ReadOnlyLoses(g: Geometry, s: State, b: nat, mf: Fetch, probed: RequestStatus, way: nat, time: nat)
    requires g.Valid() && g.Block(b) == b && Coherent(g, s.lines) && Tracked(s.lines, s.unsent, READ_ONLY)
    requires Partitioned(s.table, s.response, s.sent) && Placed(g, s.lines, s.sent) && !mf.write
    requires Probed(g, s.lines, b, probed, way) && probed != RESERVATION_FAIL
    ensures way < |s.lines|
    ensures var t := if probed == HIT then AfterReadOnlyHit(s, b, mf, way, time)
                     else AfterRead(g, READ_ONLY, s, b, mf, probed, way, time);
      && LosesExactly(s, t, b, mf)
      && (forall c: nat :: Vanishes(s, t, c) <==>
          probed == MISS && g.allocation == ON_MISS && c in s.unsent && ModifiedAt(s.lines, way, c))
      && (mf.atomic ==>
          (Recorded(s, t, b, mf) <==>
            if probed == HIT then s.lines[way].status == MODIFIED else !Late(s.response, b, mf)))
  {
    if probed == HIT {
      ReadOnlyHitLoses(g, s, b, mf, way, time);
    } else {
      hide AfterRead, Coherent, Tracked, Partitioned, Probed, LosesExactly, Vanishes, Recorded;
      ReadMissLoses(g, READ_ONLY, false, s, b, mf, mf, probed, way, time);
      NothingBack(g, s, b, mf, probed, way, time);
    }
  }

  lemma NothingBack(g: Geometry, s: State, b: nat, mf: Fetch, probed: RequestStatus, way: nat, time: nat)
    requires g.Valid()
    ensures AfterMiss(g, READ_ONLY, s, b, mf, probed, way, time) ==
            AfterRead(g, READ_ONLY, s, b, mf, probed, way, time)
  {
    hide AfterRead;
    var t := AfterRead(g, READ_ONLY, s, b, mf, probed, way, time);
    assert t.queue + [] == t.queue;
  }

  lemma ReadOnlyHitLoses(g: Geometry, s: State, b: nat, mf: Fetch, way: nat, time: nat)
    requires g.Valid() && g.Block(b) == b && Coherent(g, s.lines) && Tracked(s.lines, s.unsent, READ_ONLY)
    requires Placed(g, s.lines, s.sent) && !mf.write && Probed(g, s.lines, b, HIT, way)
    ensures way < |s.lines|
    ensures var t := AfterReadOnlyHit(s, b, mf, way, time);
      && LosesExactly(s, t, b, mf) && (forall c: nat :: !Vanishes(s, t, c))
      && (mf.atomic ==> (Recorded(s, t, b, mf) <==> s.lines[way].status == MODIFIED))
  {
    hide Coherent, Tracked, Placed, HasModified, Probed;
    HitIsHeld(g, s, b, way);
    var t := AfterReadOnlyHit(s, b, mf, way, time);
    forall c: nat ensures HasModified(t.lines, c) <==> HasModified(s.lines, c) {
      TouchModified(s.lines, way, t.lines[way], c);
      if ModifiedAt(s.lines, way, c) {
        IsModified(s.lines, way, c);
      }
    }
    assert Queuing(s, t) == [];
    UnsentIsModified(s.lines, s.unsent, READ_ONLY);
    VanishedSet(s, t, way, false);
  }

  /** A block that hits is in its line alone and is not being read. */
  lemma HitIsHeld(g: Geometry, s: State, b: nat, way: nat)
    requires g.Valid() && g.Block(b) == b && Coherent(g, s.lines) && Placed(g, s.lines, s.sent)
    requires Probed(g, s.lines, b, HIT, way)
    ensures HeldAt(s.lines, way, b) && !BeingRead(s.sent, b)
    ensures HasModified(s.lines, b) <==> s.lines[way].status == MODIFIED
  {
    HoldsIsBlock(g, s.lines, b, way);
    if s.lines[way].status == MODIFIED {
      IsModified(s.lines, way, b);
    }
  }

  lemma IsModified(lines: seq<Line>, k: nat, b: nat)
    requires ModifiedAt(lines, k, b)
    ensures HasModified(lines, b)
  {
  }

  lemma UnsentIsModified(lines: seq<Line>, unsent: set<nat>, policy: WritePolicy)
    requires Tracked(lines, unsent, policy)
    ensures forall b: nat :: b in unsent ==> HasModified(lines, b)
  {
  }

  /** What a fill loses, seen from the state: with allocate-on-miss nothing, and a waiting atomic is in a modified line;
      with allocate-on-fill the modifications in the line that it takes. */
  lemma FillLoses(g: Geometry, policy: WritePolicy, s: State, mf: Fetch, way: nat, time: nat)
    requires g.Valid() && Coherent(g, s.lines) && Tracked(s.lines, s.unsent, policy)
    requires mf in s.sent && s.sent[mf].block in s.table && way < |s.lines|
    requires g.allocation == ON_MISS ==> s.lines[way].status == RESERVED && s.lines[way].block == s.sent[mf].block
    ensures var t, b := AfterFill(g, s, mf, way, time), s.sent[mf].block;
      && t.lost == s.lost + set c | c in s.unsent && Vanishes(s, t, c)
      && (forall c: nat :: Vanishes(s, t, c) <==>
          g.allocation == ON_FILL && c in s.unsent && ModifiedAt(s.lines, way, c))
      && (g.allocation == ON_MISS && s.table[b].hasAtomic ==> HasModified(t.lines, b) && b in t.unsent)
  {
    var t := AfterFill(g, s, mf, way, time);
    hide HasModified;
    forall c: nat ensures g.allocation == ON_FILL ==>
        (HasModified(t.lines, c) <==> HasModified(s.lines, c) && !ModifiedAt(s.lines, way, c)) {
      if g.allocation == ON_FILL {
        ReplaceModified(g, s.lines, way, t.lines[way], c);
      }
    }
    forall c: nat ensures g.allocation == ON_MISS ==>
        (HasModified(t.lines, c) <==> HasModified(s.lines, c) || ModifiedAt(t.lines, way, c)) {
      if g.allocation == ON_MISS {
        TouchModified(s.lines, way, t.lines[way], c);
      }
    }
    assert Queuing(s, t) == [];
    hide Coherent, Queuing;
    VanishedSet(s, t, way, g.allocation == ON_FILL);
  }

  // ----- The caches

  class Cache {
    const g: Geometry
    const writePolicy: WritePolicy
    const writeAllocate: bool
    const missQueueSize: nat
    const tags: Tags
    const mshrs: Table
    var missQueue: seq<Queued>
    var sent: map<Fetch, Outstanding>

    /** The blocks with modifications that have been sent nowhere, and those with modifications that are gone for
        good, among them those of late atomics; and the blocks of all atomics accepted. */
    ghost var unsent: set<nat>
    ghost var lost: set<nat>
    ghost var late: set<nat>
    ghost var atomics: set<nat>

    ghost predicate Valid()
      reads this, tags, mshrs
    {
      && tags.Valid() && tags.g == g && mshrs.Valid() && mshrs.maxMerged > 0
      && |missQueue| <= missQueueSize
      && Partitioned(mshrs.table, mshrs.response, sent)
      && Placed(g, tags.lines, sent)
      && AtomicsNoted(mshrs.table, atomics)
      && Tracked(tags.lines, unsent, writePolicy)
      && Kept(writePolicy, g.allocation, unsent, lost, late, atomics)
    }

    constructor (geometry: Geometry, policy: WritePolicy, allocate: bool, queueSize: nat, entries: nat, merged: nat)
      requires geometry.Valid() && merged > 0
      ensures Valid() && fresh(tags) && fresh(mshrs)
      ensures g == geometry && writePolicy == policy && writeAllocate == allocate && missQueueSize == queueSize
      ensures missQueue == [] && sent == map[] && mshrs.accepted == map[] && mshrs.returned == map[]
      ensures mshrs.numEntries == entries && mshrs.maxMerged == merged
      ensures mshrs.table == map[] && mshrs.response == [] && tags.lines == seq(g.NumLines(), _ => EMPTY_LINE)
      ensures tags.uses == []
      ensures unsent == {} && lost == {} && late == {} && atomics == {}
    {
      g, writePolicy, writeAllocate, missQueueSize := geometry, policy, allocate, queueSize;
      tags := new Tags(geometry);
      mshrs := new Table(entries, merged);
      missQueue, sent, unsent, lost, late, atomics := [], map[], {}, {}, {}, {};
    }

    /** Room for `n` requests and one more is missing. */
    predicate MissQueueFull(n: nat)
      reads this
    {
      |missQueue| + n >= missQueueSize
    }

    /** There is no room for another read of the block. */
    predicate NoRoom(b: nat)
      reads this, mshrs
    {
      mshrs.Full(b) || (!mshrs.Probe(b) && |missQueue| >= missQueueSize)
    }

    /** An access is refused, given what the probe answers. */
    predicate Refused(mf: Fetch, b: nat, probed: RequestStatus)
      reads this, mshrs
    {
      match probed
      case RESERVATION_FAIL => true
      case HIT => mf.write && MissQueueFull(0) && (writePolicy == WRITE_THROUGH || Evicting(writePolicy, mf))
      case _ =>
        if mf.write && !writeAllocate then MissQueueFull(0) else MissQueueFull(if mf.write then 2 else 1) || NoRoom(b)
    }

    ghost function Now(): State
      reads this, tags, mshrs
    {
      State(tags.lines, mshrs.table, mshrs.response, mshrs.accepted, mshrs.returned, sent, missQueue, unsent, lost,
            late, atomics, tags.uses)
    }

    lemma ValidFacts()
      requires Valid()
      ensures g.Valid() && Now().lines == tags.lines && Now().table == mshrs.table
    {
    }

    /** A probe says whether the block is in a line, is being brought into one, or has no line to go to. */
    lemma ProbeMeans(b: nat, probed: RequestStatus, at: nat)
      requires Valid() && g.Valid() && g.Block(b) == b && Probed(g, tags.lines, b, probed, at)
      ensures probed == HIT <==> exists k: nat :: HeldAt(tags.lines, k, b)
      ensures probed == HIT_RESERVED <==> exists k: nat :: ReservedAt(tags.lines, k, b)
      ensures probed == RESERVATION_FAIL <==>
        && (forall k: nat :: !HeldAt(tags.lines, k, b)) && (forall k: nat :: !ReservedAt(tags.lines, k, b))
        && forall k: nat :: k < |tags.lines| && g.InSet(b, k) ==> tags.lines[k].status == RESERVED
    {
      StatusMeans(g, tags.lines, b, probed, at);
    }

    /** What is left of the table and of the queue. */
    lemma RoomMeans(b: nat)
      requires Valid()
      ensures |missQueue| <= missQueueSize
      ensures NoRoom(b) <==>
        || (if b in mshrs.table then |mshrs.table[b].waiting| == mshrs.maxMerged else |mshrs.table| == mshrs.numEntries)
        || (b !in mshrs.table && |missQueue| == missQueueSize)
    {
    }

    method ProbeTags(b: nat) returns (status: RequestStatus, way: nat)
      requires Valid()
      ensures g.Valid() && Probed(g, tags.lines, b, status, way)
    {
      status, way := tags.Probe(b);
    }

    /** Sends the oldest request of the miss queue down if the port has room. */
    method Cycle(portFull: bool) returns (down: seq<Queued>)
      requires Valid()
      modifies this`missQueue
      ensures Valid() && old(missQueue) == down + missQueue
      ensures down == if portFull || old(missQueue) == [] then [] else [old(missQueue)[0]]
    {
      down := [];
      if missQueue != [] && !portFull {
        down := [missQueue[0]];
        missQueue := missQueue[1..];
      }
    }

    /** The read-miss handler: merges into the entry of the block, or sends a read if there is room for both. */
    method SendRead(b: nat, mf: Fetch, time: nat, writeAlloc: bool, ghost probed: RequestStatus, ghost at: nat)
      returns (accepted: bool, writeBack: bool, evicted: Line, events: seq<Event>, ghost way: nat)
      requires Valid() && g.Block(b) == b && time < MAX_TIME && mf !in sent
      requires Probed(g, tags.lines, b, probed, at) && (probed == MISS || probed == HIT_RESERVED)
      modifies this`missQueue, this`sent, this`unsent, this`lost, this`late, this`atomics, tags, mshrs
      ensures Valid() && g.Valid() && accepted == old(!NoRoom(b)) && |missQueue| <= |old(missQueue)| + 1
      ensures !accepted ==> Now() == old(Now()) && !writeBack && events == []
      ensures accepted ==> Probed(g, old(tags.lines), b, probed, way)
      ensures accepted ==> Now() == AfterRead(g, writePolicy, old(Now()), b, mf, probed, way, time)
      ensures accepted ==> events == if b in old(mshrs.table) || writeAlloc then [] else [READ_REQUEST_SENT]
      ensures accepted ==> (writeBack <==> Replaced(g, old(tags.lines), probed, way).status == MODIFIED)
      ensures accepted ==>
        WriteBacks(writePolicy, Replaced(g, old(tags.lines), probed, way)) ==
          if writeBack then WriteBacks(writePolicy, evicted) else []
    {
      accepted, writeBack, evicted, events, way := false, false, EMPTY_LINE, [], at;
      hide Valid, Probed, Added, Gone, TagsAfter;
      ValidFacts();
      if NoRoom(b) {
        return;
      }
      accepted := true;
      var isNew := !mshrs.Probe(b);
      var index;
      writeBack, evicted, index := AccessTags(b, time, probed, at);
      way := index;
      NoteAtomic(b, mf);
      NoteLate(b, mf);
      JoinRead(b, mf, index);
      if isNew && !writeAlloc {
        events := [READ_REQUEST_SENT];
      }
    }

    /** An accepted atomic is noted. */
    ghost method NoteAtomic(b: nat, mf: Fetch)
      requires Valid()
      modifies this`atomics
      ensures Valid() && atomics == old(atomics) + Noted(b, mf)
    {
      hide Coherent, Partitioned, Placed, Table.Valid, Tracked;
      atomics := atomics + Noted(b, mf);
    }

    /** A late atomic is lost. */
    ghost method NoteLate(b: nat, mf: Fetch)
      requires Valid() && (mf.atomic ==> b in atomics)
      modifies this`lost, this`late
      ensures Valid()
      ensures lost == old(lost) + (if Late(mshrs.response, b, mf) then {b} else {})
      ensures late == old(late) + (if Late(mshrs.response, b, mf) then {b} else {})
    {
      hide Coherent, Partitioned, Placed, AtomicsNoted, Table.Valid, Tracked;
      if Late(mshrs.response, b, mf) {
        lost, late := lost + {b}, late + {b};
      }
    }

    /** An atomic that marks no line of a read-only cache is lost. */
    ghost method NoteUnmarked(b: nat, mf: Fetch, way: nat)
      requires Valid() && writePolicy == READ_ONLY && (mf.atomic ==> b in atomics)
      modifies this`lost
      ensures Valid() && lost == old(lost) + if Unmarked(tags.lines, way, mf) then {b} else {}
    {
      hide Coherent, Partitioned, Placed, AtomicsNoted, Table.Valid, Tracked;
      if Unmarked(tags.lines, way, mf) {
        lost := lost + {b};
      }
    }

    /** The request joins the entry of its block; a new entry sends a read. */
    method JoinRead(b: nat, mf: Fetch, index: nat)
      requires Valid() && g.Block(b) == b && !NoRoom(b) && mf !in sent
      requires mf.atomic ==> b in atomics
      requires g.allocation == ON_MISS ==>
        index < |tags.lines| && tags.lines[index].status == RESERVED && tags.lines[index].block == b
      requires g.allocation == ON_FILL ==>
        forall k: nat :: k < |tags.lines| && tags.lines[k].status != INVALID ==> tags.lines[k].block != b
      modifies this`missQueue, this`sent, mshrs
      ensures Valid() && mshrs.table == Added(old(mshrs.table), b, mf)
      ensures mshrs.accepted == old(mshrs.accepted)[b := Get(old(mshrs.accepted), b) + [mf]]
      ensures mshrs.response == old(mshrs.response) && mshrs.returned == old(mshrs.returned)
      ensures sent == if b in old(mshrs.table) then old(sent) else old(sent)[mf := Outstanding(b, index)]
      ensures missQueue == old(missQueue) + if b in old(mshrs.table) then [] else [Request(mf)]
    {
      hide Coherent, Partitioned, Placed, AtomicsNoted, Table.Valid, Added, Tracked, Get, Geometry.Block, Kept;
      ghost var table := mshrs.table;
      var hit := mshrs.Probe(b);
      AddNoted(mshrs.table, atomics, b, mf);
      mshrs.Add(b, mf);
      if hit {
        MergePartitioned(table, mshrs.response, sent, b, mf);
      } else {
        NewReadPartitioned(table, mshrs.response, sent, mf, Outstanding(b, index), mf);
        NewReadPlaced(g, tags.lines, sent, mf, Outstanding(b, index));
        sent := sent[mf := Outstanding(b, index)];
        missQueue := missQueue + [Request(mf)];
      }
    }

    /** The tag access of a miss; a modified line that it replaces is lost unless it is to be written back. */
    method AccessTags(b: nat, time: nat, ghost probed: RequestStatus, ghost at: nat)
      returns (writeBack: bool, evicted: Line, way: nat)
      requires Valid() && g.Block(b) == b && time < MAX_TIME
      requires Probed(g, tags.lines, b, probed, at) && (probed == MISS || probed == HIT_RESERVED)
      modifies this`unsent, this`lost, tags
      ensures Valid() && Probed(g, old(tags.lines), b, probed, way)
      ensures tags.lines == TagsAfter(g, old(tags.lines), b, probed, way, time)
      ensures tags.uses == old(tags.uses) + Uses(g, b, probed, time)
      ensures g.allocation == ON_MISS ==>
        way < |tags.lines| && tags.lines[way].status == RESERVED && tags.lines[way].block == b
      ensures g.allocation == ON_FILL ==>
        forall k: nat :: k < |tags.lines| && tags.lines[k].status != INVALID ==> tags.lines[k].block != b
      ensures unsent == old(unsent) - Gone(Replaced(g, old(tags.lines), probed, way), old(unsent))
      ensures lost == old(lost) +
        if WritesBack(writePolicy) then {} else Gone(Replaced(g, old(tags.lines), probed, way), old(unsent))
      ensures writeBack <==> Replaced(g, old(tags.lines), probed, way).status == MODIFIED
      ensures writeBack ==> evicted == Replaced(g, old(tags.lines), probed, way)
    {
      hide Partitioned, Table.Valid, AtomicsNoted, Coherent, Placed, Tracked, Holds, Victim;
      ghost var before := tags.lines;
      var s;
      s, way, writeBack, evicted := tags.Access(b, time);
      SameStatus(g, before, b, probed, at, s, way);
      AccessPlaced(g, before, tags.lines, sent, b, s, way, time);
      ghost var line := Replaced(g, before, s, way);
      if s == MISS && g.allocation == ON_MISS {
        ReplaceTracked(g, before, way, tags.lines[way], unsent, writePolicy);
        assert tags.lines == before[way := tags.lines[way]];
      } else {
        if s == HIT_RESERVED {
          TouchTracked(before, way, tags.lines[way], unsent, writePolicy);
          assert tags.lines == before[way := tags.lines[way]];
        }
        assert unsent - Gone(line, unsent) == unsent;
      }
      assert Tracked(tags.lines, unsent - Gone(line, unsent), writePolicy);
      assert Gone(line, unsent) <= unsent;
      if !WritesBack(writePolicy) {
        lost := lost + Gone(line, unsent);
      }
      unsent := unsent - Gone(line, unsent);
    }

    /** A hit: the line becomes the most recent of its set; a modification is noted, and is unsent unless it goes
        down. */
    method TouchHit(b: nat, time: nat, way: nat, written: bool, ghost goesDown: bool)
      requires Valid() && g.Block(b) == b && time < MAX_TIME && Probed(g, tags.lines, b, HIT, way)
      requires written ==> if goesDown then writePolicy == WRITE_THROUGH else SentAtOnce(writePolicy) ==> b in atomics
      modifies this`unsent, tags
      ensures Valid() && Now() == AfterHit(old(Now()), b, way, time, written, goesDown)
    {
      hide Valid, Probed;
      Touch(b, time, way);
      if written {
        MarkModified(b, way, goesDown);
      }
    }

    method Touch(b: nat, time: nat, way: nat)
      requires Valid() && g.Block(b) == b && time < MAX_TIME && Probed(g, tags.lines, b, HIT, way)
      modifies tags
      ensures Valid() && way < |old(tags.lines)| && HeldAt(tags.lines, way, b)
      ensures tags.lines == old(tags.lines)[way := old(tags.lines)[way].(lastAccess := time)]
      ensures tags.uses == old(tags.uses) + [Use(b, time, false)]
    {
      hide Partitioned, Table.Valid, AtomicsNoted, Kept;
      ghost var before := tags.lines;
      var s, index, writeBack, evicted := tags.Access(b, time);
      SameStatus(g, before, b, HIT, way, s, index);
      SameWay(g, before, b, way, index);
      HoldsIsBlock(g, before, b, way);
      AccessPlaced(g, before, tags.lines, sent, b, s, index, time);
      assert !writeBack;
      TouchTracked(before, way, tags.lines[way], unsent, writePolicy);
    }

    method MarkModified(b: nat, way: nat, ghost goesDown: bool)
      requires Valid() && HeldAt(tags.lines, way, b)
      requires if goesDown then writePolicy == WRITE_THROUGH else SentAtOnce(writePolicy) ==> b in atomics
      modifies this`unsent, tags
      ensures Valid() && tags.lines == old(tags.lines)[way := old(tags.lines)[way].(status := MODIFIED)]
      ensures unsent == old(unsent) + (if goesDown then {} else {b}) && tags.uses == old(tags.uses)
    {
      hide Partitioned, Table.Valid, AtomicsNoted, Coherent, Placed, Tracked;
      ghost var before := tags.lines;
      tags.SetStatus(way, MODIFIED);
      KeepPlaced(g, before, tags.lines, sent);
      TouchTracked(before, way, tags.lines[way], unsent, writePolicy);
      if !goesDown {
        unsent := unsent + {b};
      }
    }

    /** A write that hits and evicts: the write goes down and the line is dropped, with whatever was unsent in it. */
    method EvictHit(b: nat, mf: Fetch, way: nat)
      requires Valid() && g.Block(b) == b && Probed(g, tags.lines, b, HIT, way) && Evicting(writePolicy, mf)
      requires !MissQueueFull(0)
      modifies this`missQueue, this`unsent, this`lost, tags
      ensures Valid() && Now() == AfterEvict(old(Now()), way, mf)
    {
      hide Partitioned, Table.Valid, AtomicsNoted;
      ghost var before := tags.lines;
      missQueue := missQueue + [Request(mf)];
      tags.SetStatus(way, INVALID);
      KeepPlaced(g, before, tags.lines, sent);
      ReplaceTracked(g, before, way, tags.lines[way], unsent, writePolicy);
      lost := lost + Gone(before[way], unsent);
      unsent := unsent - Gone(before[way], unsent);
    }

    /** A write that hits, by policy: the line is marked modified, or written through, or evicted. */
    method WriteHit(b: nat, mf: Fetch, time: nat, way: nat) returns (status: RequestStatus, events: seq<Event>)
      requires Valid() && g.Block(b) == b && time < MAX_TIME && Probed(g, tags.lines, b, HIT, way)
      requires writePolicy != READ_ONLY
      modifies this`missQueue, this`unsent, this`lost, tags
      ensures Valid() && status ==
        if old(MissQueueFull(0)) && (writePolicy == WRITE_THROUGH || Evicting(writePolicy, mf)) then RESERVATION_FAIL
        else HIT
      ensures status == RESERVATION_FAIL ==> Now() == old(Now()) && events == []
      ensures status == HIT ==> Now() == AfterWriteHit(writePolicy, old(Now()), b, mf, way, time)
      ensures status == HIT ==>
        events == if writePolicy == WRITE_THROUGH || Evicting(writePolicy, mf) then [WRITE_REQUEST_SENT] else []
    {
      events := [];
      hide Valid, Probed, Now, AfterHit, AfterEvict;
      if writePolicy == WRITE_THROUGH {
        if MissQueueFull(0) {
          return RESERVATION_FAIL, [];
        }
        TouchHit(b, time, way, true, true);
        events := [WRITE_REQUEST_SENT];
        QueueUp(Request(mf));
      } else if Evicting(writePolicy, mf) {
        if MissQueueFull(0) {
          return RESERVATION_FAIL, [];
        }
        events := [WRITE_REQUEST_SENT];
        EvictHit(b, mf, way);
      } else {
        TouchHit(b, time, way, true, false);
      }
      status := HIT;
    }

    /** Appends to the miss queue, which has room. */
    method QueueUp(q: Queued)
      requires Valid() && |missQueue| < missQueueSize
      modifies this`missQueue
      ensures Valid() && Now() == AfterQueue(old(Now()), [q]) && |missQueue| == |old(missQueue)| + 1
    {
      missQueue := missQueue + [q];
    }

    /** Writes an evicted modified line back, unless it has been written through. */
    method SendWriteBack(writeBack: bool, evicted: Line) returns (sentBack: bool)
      requires Valid() && |missQueue| < missQueueSize
      modifies this`missQueue
      ensures Valid() && Now() == AfterQueue(old(Now()), if writeBack then WriteBacks(writePolicy, evicted) else [])
      ensures sentBack <==> writeBack && WriteBacks(writePolicy, evicted) != []
    {
      sentBack := writeBack && WriteBacks(writePolicy, evicted) != [];
      if sentBack {
        QueueUp(WriteBack(evicted.block));
      }
    }

    /** A write that misses. With write-allocate the write and a read of its block, `read`, are sent, and the
        modified line that it evicts is written back; once the write is sent, the read cannot fail. */
    method WriteMiss(b: nat, mf: Fetch, read: Fetch, time: nat, ghost probed: RequestStatus, ghost at: nat)
      returns (status: RequestStatus, events: seq<Event>, ghost way: nat)
      requires Valid() && g.Block(b) == b && time < MAX_TIME && read !in sent && !read.atomic
      requires Probed(g, tags.lines, b, probed, at) && (probed == MISS || probed == HIT_RESERVED)
      modifies this`missQueue, this`sent, this`unsent, this`lost, this`late, this`atomics, tags, mshrs
      ensures Valid() && g.Valid() && Probed(g, old(tags.lines), b, probed, way)
      ensures status ==
        if old(if writeAllocate then MissQueueFull(2) || NoRoom(b) else MissQueueFull(0)) then RESERVATION_FAIL
        else MISS
      ensures status == RESERVATION_FAIL ==> Now() == old(Now()) && events == []
      ensures status == MISS ==> events == [WRITE_REQUEST_SENT]
      ensures status == MISS && !writeAllocate ==> Now() == AfterQueue(old(Now()), [Request(mf)])
      ensures status == MISS && writeAllocate ==>
        Now() == AfterMiss(g, writePolicy, AfterQueue(old(Now()), [Request(mf)]), b, read, probed, way, time)
    {
      hide Valid, Probed, Now, AfterRead, Replaced, WriteBacks;
      ValidFacts();
      way := at;
      if !writeAllocate {
        if MissQueueFull(0) {
          return RESERVATION_FAIL, [], way;
        }
        QueueUp(Request(mf));
        return MISS, [WRITE_REQUEST_SENT], way;
      }
      if MissQueueFull(2) || NoRoom(b) {
        return RESERVATION_FAIL, [], way;
      }
      QueueUp(Request(mf));
      var accepted, writeBack, evicted, more;
      accepted, writeBack, evicted, more, way := SendRead(b, read, time, true, probed, at);
      assert accepted;
      var _ := SendWriteBack(writeBack, evicted);
      return MISS, [WRITE_REQUEST_SENT], way;
    }

    /** A read that misses: it joins or sends a read of its block, and the modified line that it evicts is
        written back; room for both is made sure of first. */
    method ReadMiss(b: nat, mf: Fetch, time: nat, ghost probed: RequestStatus, ghost at: nat)
      returns (status: RequestStatus, events: seq<Event>, ghost way: nat)
      requires Valid() && g.Block(b) == b && time < MAX_TIME && mf !in sent
      requires Probed(g, tags.lines, b, probed, at) && (probed == MISS || probed == HIT_RESERVED)
      modifies this`missQueue, this`sent, this`unsent, this`lost, this`late, this`atomics, tags, mshrs
      ensures Valid() && g.Valid() && Probed(g, old(tags.lines), b, probed, way)
      ensures status == if old(MissQueueFull(1) || NoRoom(b)) then RESERVATION_FAIL else MISS
      ensures status == RESERVATION_FAIL ==> Now() == old(Now()) && events == []
      ensures status == MISS ==> Now() == AfterMiss(g, writePolicy, old(Now()), b, mf, probed, way, time)
      ensures status == MISS ==>
        events == ReadEvents(b in old(mshrs.table),
                             WriteBacks(writePolicy, Replaced(g, old(tags.lines), probed, way)) == [])
    {
      hide Valid, Probed, Now, AfterRead, Replaced, WriteBacks;
      ValidFacts();
      way := at;
      if MissQueueFull(1) {
        return RESERVATION_FAIL, [], way;
      }
      var accepted, writeBack, evicted;
      accepted, writeBack, evicted, events, way := SendRead(b, mf, time, false, probed, at);
      if !accepted {
        way := at;
        return RESERVATION_FAIL, [], way;
      }
      var sentBack := SendWriteBack(writeBack, evicted);
      if sentBack {
        events := events + [WRITE_BACK_REQUEST_SENT];
      }
      status := MISS;
    }

    /** An access that hits. */
    method AccessHit(b: nat, mf: Fetch, time: nat, way: nat) returns (status: RequestStatus, events: seq<Event>)
      requires Valid() && g.Block(b) == b && time < MAX_TIME && Probed(g, tags.lines, b, HIT, way)
      requires writePolicy != READ_ONLY
      modifies this`missQueue, this`unsent, this`lost, this`atomics, tags
      ensures Valid() && g.Valid() && status == if old(Refused(mf, b, HIT)) then RESERVATION_FAIL else HIT
      ensures status == RESERVATION_FAIL ==> Now() == old(Now()) && events == []
      ensures status == HIT && mf.write ==> Now() == AfterWriteHit(writePolicy, old(Now()), b, mf, way, time)
      ensures status == HIT && !mf.write ==> Now() == AfterReadHit(old(Now()), b, mf, way, time)
      ensures status == HIT ==> events == HitEvents(writePolicy, mf)
    {
      hide Valid, Probed, AfterHit, AfterWriteHit;
      ValidFacts();
      if mf.write {
        status, events := WriteHit(b, mf, time, way);
      } else {
        NoteAtomic(b, mf);
        TouchHit(b, time, way, mf.atomic, false);
        status, events := HIT, [];
      }
    }

    /** An access to a data cache. It is all or nothing: a refused access changes nothing at all. */
    method Access(mf: Fetch, read: Fetch, time: nat)
      returns (status: RequestStatus, events: seq<Event>, ghost probed: RequestStatus, ghost way: nat)
      requires Valid() && time < MAX_TIME && writePolicy != READ_ONLY && mf !in sent && read !in sent && !read.atomic
      modifies this`missQueue, this`sent, this`unsent, this`lost, this`late, this`atomics, tags, mshrs
      ensures Valid() && g.Valid() && Probed(g, old(tags.lines), g.Block(mf.addr), probed, way)
      ensures status ==
        if old(Refused(mf, g.Block(mf.addr), probed)) then RESERVATION_FAIL else if probed == HIT then HIT else MISS
      // a read that hits is never refused; a write that hits is if it has to go down and there is no room in the queue;
      // a miss is if there is no line, no room for all that it may send, or no entry for its block
      ensures status == RESERVATION_FAIL <==>
        var b := g.Block(mf.addr);
        if exists k: nat :: HeldAt(old(tags.lines), k, b) then
          && mf.write && |old(missQueue)| == missQueueSize
          && match writePolicy {
            case WRITE_THROUGH => true
            case WRITE_EVICT => true
            case LOCAL_WB_GLOBAL_WT => mf.globalWrite
            case _ => false
          }
        else
          || ((forall k: nat :: !ReservedAt(old(tags.lines), k, b))
              && forall k: nat :: k < |old(tags.lines)| && g.InSet(b, k) ==> old(tags.lines)[k].status == RESERVED)
          || |old(missQueue)| + (if !mf.write then 2 else if writeAllocate then 3 else 1) > missQueueSize
          || ((!mf.write || writeAllocate)
              && if b in old(mshrs.table) then |old(mshrs.table)[b].waiting| == mshrs.maxMerged
                 else |old(mshrs.table)| == mshrs.numEntries)
      ensures status == RESERVATION_FAIL ==> Now() == old(Now()) && events == []
      ensures status != RESERVATION_FAIL ==>
        Now() == AfterAccess(g, writePolicy, writeAllocate, old(Now()), g.Block(mf.addr), mf, read, probed, way, time)
      ensures status != RESERVATION_FAIL ==>
        events == AccessEvents(g, writePolicy, old(Now()), g.Block(mf.addr), mf, probed, way)
    {
      hide Valid, Probed, Now, AfterRead, AfterHit, AfterReadHit, AfterMiss, AfterWriteHit, WriteBacks, Replaced;
      hide Geometry.Block;
      ValidFacts();
      var b := g.Block(mf.addr);
      g.BlockOfBlock(mf.addr);
      var p, at := ProbeTags(b);
      probed, way := p, at;
      ProbeMeans(b, p, at);
      RoomMeans(b);
      if p == HIT {
        status, events := AccessHit(b, mf, time, at);
      } else if p == RESERVATION_FAIL {
        status, events := RESERVATION_FAIL, [];
      } else if mf.write {
        status, events, way := WriteMiss(b, mf, read, time, p, at);
      } else {
        status, events, way := ReadMiss(b, mf, time, p, at);
      }
    }

    /** A hit in a read-only cache marks no line, not even for an atomic. */
    method ReadOnlyHit(b: nat, mf: Fetch, time: nat, way: nat)
      requires Valid() && g.Block(b) == b && time < MAX_TIME && Probed(g, tags.lines, b, HIT, way)
      requires writePolicy == READ_ONLY
      modifies this`unsent, this`lost, this`atomics, tags
      ensures Valid() && Now() == AfterReadOnlyHit(old(Now()), b, mf, way, time)
    {
      hide Valid, Probed, AfterHit;
      NoteAtomic(b, mf);
      NoteUnmarked(b, mf, way);
      TouchHit(b, time, way, false, false);
    }

    /** An access to a read-only cache. An assertion stops the simulator if a modified line is to be replaced. */
    method ReadOnlyAccess(mf: Fetch, time: nat)
      returns (status: RequestStatus, events: seq<Event>, ok: bool, ghost probed: RequestStatus, ghost way: nat)
      requires Valid() && time < MAX_TIME && writePolicy == READ_ONLY && mf !in sent && !mf.write
      modifies this`missQueue, this`sent, this`unsent, this`lost, this`late, this`atomics, tags, mshrs
      ensures Valid() && g.Valid() && Probed(g, old(tags.lines), g.Block(mf.addr), probed, way)
      ensures status == if probed == HIT then HIT
        else if probed == RESERVATION_FAIL || old(MissQueueFull(0) || NoRoom(g.Block(mf.addr))) then RESERVATION_FAIL
        else MISS
      ensures status == RESERVATION_FAIL ==> Now() == old(Now()) && events == []
      ensures status == HIT ==> Now() == AfterReadOnlyHit(old(Now()), g.Block(mf.addr), mf, way, time) && events == []
      ensures status == MISS ==>
        && Now() == AfterRead(g, writePolicy, old(Now()), g.Block(mf.addr), mf, probed, way, time)
        && events == if g.Block(mf.addr) in old(mshrs.table) then [] else [READ_REQUEST_SENT]
      ensures ok <==> status != MISS || Replaced(g, old(tags.lines), probed, way).status != MODIFIED
      // it is refused exactly if it does not hit and there is no line, no room in the queue or no entry for it
      ensures status == RESERVATION_FAIL <==>
        var b := g.Block(mf.addr);
        && (forall k: nat :: !HeldAt(old(tags.lines), k, b))
        && (|| ((forall k: nat :: !ReservedAt(old(tags.lines), k, b))
                && forall k: nat :: k < |old(tags.lines)| && g.InSet(b, k) ==> old(tags.lines)[k].status == RESERVED)
            || |old(missQueue)| == missQueueSize
            || if b in old(mshrs.table) then |old(mshrs.table)[b].waiting| == mshrs.maxMerged
               else |old(mshrs.table)| == mshrs.numEntries)
    {
      hide Valid, Probed, Now, AfterRead, AfterReadOnlyHit, WriteBacks, Replaced, Geometry.Block;
      ValidFacts();
      var b := g.Block(mf.addr);
      g.BlockOfBlock(mf.addr);
      var p, at := ProbeTags(b);
      probed, way := p, at;
      ProbeMeans(b, p, at);
      RoomMeans(b);
      status, events, ok := RESERVATION_FAIL, [], true;
      if p == HIT {
        ReadOnlyHit(b, mf, time, at);
        status := HIT;
      } else if p != RESERVATION_FAIL {
        if !MissQueueFull(0) {
          var accepted, writeBack, evicted, sentEvents;
          accepted, writeBack, evicted, sentEvents, way := SendRead(b, mf, time, false, p, at);
          if accepted {
            status, events, ok := MISS, sentEvents, !writeBack;
          } else {
            way := at;
          }
        }
      }
    }

    /** The data of an outstanding read arrives: its line is filled, and its block becomes ready. With
        allocate-on-fill a line is replaced and not written back, so exactly the unsent modifications in it are lost;
        and if an atomic waits for the block, an assertion stops the simulator. */
    method Fill(mf: Fetch, time: nat) returns (ok: bool, ghost way: nat)
      requires Valid() && mf in sent && time < MAX_TIME
      modifies this`sent, this`unsent, this`lost, tags, mshrs
      ensures Valid() && g.Valid() && old(sent)[mf].block in old(mshrs.table)
      ensures ok <==> g.allocation == ON_MISS || !old(mshrs.table)[old(sent)[mf].block].hasAtomic
      ensures !ok ==> Now() == old(Now())
      ensures ok ==> way < |old(tags.lines)|
      ensures ok ==> if g.allocation == ON_MISS then way == old(sent)[mf].index
                     else Victim(g, old(tags.lines), old(sent)[mf].block, way)
      ensures ok ==> Now() == AfterFill(g, old(Now()), mf, way, time)
    {
      hide Valid, Victim, AfterFill;
      OutstandingEntry(mf);
      ok := g.allocation == ON_MISS || !mshrs.table[sent[mf].block].hasAtomic;
      way := 0;
      if ok {
        way := FillReady(mf, time);
      }
    }

    lemma OutstandingEntry(mf: Fetch)
      requires Valid() && mf in sent
      ensures g.Valid() && sent[mf].block in mshrs.table
    {
    }

    method FillReady(mf: Fetch, time: nat) returns (ghost way: nat)
      requires Valid() && mf in sent && time < MAX_TIME && sent[mf].block in mshrs.table
      requires g.allocation == ON_MISS || !mshrs.table[sent[mf].block].hasAtomic
      modifies this`sent, this`unsent, this`lost, tags, mshrs
      ensures Valid() && g.Valid() && way < |old(tags.lines)|
      ensures if g.allocation == ON_MISS then way == old(sent)[mf].index
              else Victim(g, old(tags.lines), old(sent)[mf].block, way)
      ensures Now() == AfterFill(g, old(Now()), mf, way, time)
    {
      hide Partitioned, AtomicsNoted, Table.Valid, Placed, Tracked, Coherent, Victim, Kept;
      var o := sent[mf];
      OutstandingFacts(mshrs.table, mshrs.response, sent, mf);
      FillPartitioned(mshrs.table, mshrs.response, sent, mf);
      ghost var filled := FillTags(mf, time);
      way := filled;
      var hasAtomic := mshrs.MarkReady(o.block);
      sent := sent - {mf};
      if hasAtomic {
        NotedHere(mshrs.table, atomics, o.block);
        MarkModified(o.block, o.index, false);
      }
    }

    /** The line of the read is filled, or a line is replaced by it. */
    method FillTags(mf: Fetch, time: nat) returns (ghost way: nat)
      requires Valid() && mf in sent && time < MAX_TIME
      modifies this`unsent, this`lost, tags
      ensures tags.Valid() && Placed(g, tags.lines, sent - {mf}) && Tracked(tags.lines, unsent, writePolicy)
      ensures Kept(writePolicy, g.allocation, unsent, lost, late, atomics)
      ensures tags.uses == old(tags.uses) + if g.allocation == ON_FILL then [Use(sent[mf].block, time, true)] else []
      ensures way < |old(tags.lines)| && HeldAt(tags.lines, way, sent[mf].block)
      ensures g.allocation == ON_MISS ==>
        && way == sent[mf].index && unsent == old(unsent) && lost == old(lost)
        && tags.lines == old(tags.lines)[way := old(tags.lines)[way].(status := VALID, fillTime := time)]
      ensures g.allocation == ON_FILL ==>
        && Victim(g, old(tags.lines), sent[mf].block, way)
        && unsent == old(unsent) - Gone(old(tags.lines)[way], old(unsent))
        && lost == old(lost) + Gone(old(tags.lines)[way], old(unsent))
        && tags.lines == old(tags.lines)[way :=
             old(tags.lines)[way].Allocate(g.Tag(sent[mf].block), sent[mf].block, time)
               .(status := VALID, fillTime := time)]
    {
      hide Partitioned, AtomicsNoted, Table.Valid;
      var o := sent[mf];
      OutstandingFacts(mshrs.table, mshrs.response, sent, mf);
      ghost var before := tags.lines;
      if g.allocation == ON_MISS {
        tags.FillLine(o.index, time);
        way := o.index;
        TouchTracked(before, way, tags.lines[way], unsent, writePolicy);
      } else {
        BlockIsAbsent(g, before, sent, mf);
        way := tags.FillBlock(o.block, time);
        ReplaceTracked(g, before, way, tags.lines[way], unsent, writePolicy);
        lost := lost + Gone(before[way], unsent);
        unsent := unsent - Gone(before[way], unsent);
      }
      FilledPlaced(g, before, tags.lines, sent, mf, way);
    }

    /** Hands back the next request whose data has arrived. */
    method NextAccess() returns (mf: Fetch)
      requires Valid() && mshrs.response != []
      modifies mshrs
      ensures Valid() && old(mshrs.response)[0] in old(mshrs.table)
      ensures old(mshrs.table)[old(mshrs.response)[0]].waiting != []
      ensures mf == old(mshrs.table)[old(mshrs.response)[0]].waiting[0] && Now() == AfterNext(old(Now()))
    {
      hide Partitioned, Placed, Coherent, AllOwed, Tracked, AtomicsNoted, Kept;
      assert mshrs.response[0] in mshrs.table;
      AdvanceNoted(mshrs.table, atomics, mshrs.response[0]);
      NextPartitioned(mshrs.table, mshrs.response, sent);
      mf := mshrs.NextAccess();
    }
  }

  /** What a read miss reports. */
  function ReadEvents(merged: bool, noWriteBack: bool): seq<Event> {
    (if merged then [] else [READ_REQUEST_SENT]) + (if noWriteBack then [] else [WRITE_BACK_REQUEST_SENT])
  }

  /** What a hit reports. */
  function HitEvents(policy: WritePolicy, mf: Fetch): seq<Event> {
    if mf.write && (policy == WRITE_THROUGH || Evicting(policy, mf)) then [WRITE_REQUEST_SENT] else []
  }

  /** What an accepted access reports. */
  ghost function AccessEvents(g: Geometry, policy: WritePolicy, s: State, b: nat, mf: Fetch, probed: RequestStatus,
                              way: nat): seq<Event> {
    if probed == HIT then HitEvents(policy, mf)
    else if mf.write then [WRITE_REQUEST_SENT]
    else ReadEvents(b in s.table, WriteBacks(policy, Replaced(g, s.lines, probed, way)) == [])
  }

  /** What the events tell the caller: whether the write, or the read, has been queued. A write-back is told of only if
      it was for a read. */
  lemma EventsTell(g: Geometry, policy: WritePolicy, allocate: bool, s: State, b: nat, mf: Fetch, read: Fetch,
                   probed: RequestStatus, way: nat, time: nat)
    requires g.Valid() && way < |s.lines| && probed != RESERVATION_FAIL
    ensures var e, t := AccessEvents(g, policy, s, b, mf, probed, way),
                        AfterAccess(g, policy, allocate, s, b, mf, read, probed, way, time);
      && (WRITE_REQUEST_SENT in e <==> mf.write && Request(mf) in Queuing(s, t))
      && (READ_REQUEST_SENT in e <==> !mf.write && Request(mf) in Queuing(s, t))
      && (WRITE_BACK_REQUEST_SENT in e <==> !mf.write && exists c: nat :: WriteBack(c) in Queuing(s, t))
  {
    if probed == HIT {
      HitEventsTell(policy, s, b, mf, way, time);
    } else if mf.write {
      WriteEventsTell(g, policy, allocate, s, b, mf, read, probed, way, time);
    } else {
      ReadEventsTell(g, policy, s, b, mf, probed, way, time);
    }
  }

  lemma HitEventsTell(policy: WritePolicy, s: State, b: nat, mf: Fetch, way: nat, time: nat)
    requires way < |s.lines|
    ensures var t := if mf.write then AfterWriteHit(policy, s, b, mf, way, time) else AfterReadHit(s, b, mf, way, time);
      Queuing(s, t) == if HitEvents(policy, mf) == [] then [] else [Request(mf)]
  {
    hide Gone, Noted, HitLine;
  }

  lemma WriteEventsTell(g: Geometry, policy: WritePolicy, allocate: bool, s: State, b: nat, mf: Fetch, read: Fetch,
                        probed: RequestStatus, way: nat, time: nat)
    requires g.Valid() && mf.write && probed != HIT
    ensures Request(mf) in Queuing(s, AfterAccess(g, policy, allocate, s, b, mf, read, probed, way, time))
  {
    hide Added, TagsAfter, Gone, Noted, WriteBacks, Replaced;
    var t := AfterAccess(g, policy, allocate, s, b, mf, read, probed, way, time);
    assert Queuing(s, t)[0] == Request(mf);
  }

  lemma ReadEventsTell(g: Geometry, policy: WritePolicy, s: State, b: nat, mf: Fetch, probed: RequestStatus, way: nat,
                       time: nat)
    requires g.Valid()
    ensures var q, back := Queuing(s, AfterMiss(g, policy, s, b, mf, probed, way, time)),
                           WriteBacks(policy, Replaced(g, s.lines, probed, way));
      && (Request(mf) in q <==> b !in s.table) && ((exists c: nat :: WriteBack(c) in q) <==> back != [])
  {
    hide AfterMiss, Replaced, Queuing;
    var line := Replaced(g, s.lines, probed, way);
    var q := Queuing(s, AfterMiss(g, policy, s, b, mf, probed, way, time));
    MissQueues(g, policy, s, b, mf, probed, way, time);
    if WriteBacks(policy, line) != [] {
      assert q[|q| - 1] == WriteBack(line.block);
    }
    if b !in s.table {
      assert q[0] == Request(mf);
    }
  }

  lemma MissQueues(g: Geometry, policy: WritePolicy, s: State, b: nat, mf: Fetch, probed: RequestStatus, way: nat,
                   time: nat)
    requires g.Valid()
    ensures Queuing(s, AfterMiss(g, policy, s, b, mf, probed, way, time)) ==
      (if b in s.table then [] else [Request(mf)]) + WriteBacks(policy, Replaced(g, s.lines, probed, way))
  {
    hide Added, TagsAfter, Gone, Noted, Replaced, WriteBacks;
  }

  /** A line that was hit. */
  function HitLine(line: Line, time: nat, written: bool): Line {
    line.(lastAccess := time, status := if written then MODIFIED else line.status)
  }

  lemma OutstandingFacts(table: map<nat, Entry>, response: seq<nat>, sent: map<Fetch, Outstanding>, m: Fetch)
    requires Partitioned(table, response, sent) && m in sent
    ensures sent[m].block in table && sent[m].block !in response
    ensures forall n :: n in sent && n != m ==> sent[n].block != sent[m].block
  {
  }

  /** Allocate-on-fill: the block of an outstanding read is in no line, and its set has a line to take. */
  lemma BlockIsAbsent(g: Geometry, lines: seq<Line>, sent: map<Fetch, Outstanding>, m: Fetch)
    requires g.Valid() && g.allocation == ON_FILL && Coherent(g, lines) && Placed(g, lines, sent) && m in sent
    ensures forall k: nat :: !Holds(g, lines, sent[m].block, k)
    ensures exists k: nat :: k < |lines| && g.InSet(sent[m].block, k) && lines[k].status != RESERVED
  {
    var b := sent[m].block;
    forall k: nat ensures !Holds(g, lines, b, k) {
      if k < |lines| {
        HoldsIsBlock(g, lines, b, k);
      }
    }
    g.SetFits(b);
    assert g.InSet(b, g.Set(b) * g.assoc) && g.Set(b) * g.assoc < |lines|;
  }

  /** Filling the line of one read leaves those of the others alone. */
  lemma FilledPlaced(g: Geometry, lines: seq<Line>, lines': seq<Line>, sent: map<Fetch, Outstanding>, m: Fetch, i: nat)
    requires g.Valid() && Placed(g, lines, sent) && m in sent && i < |lines| == |lines'|
    requires forall n :: n in sent && n != m ==> sent[n].block != sent[m].block
    requires g.allocation == ON_MISS ==> i == sent[m].index
    requires lines' == lines[i := lines'[i]] && lines'[i].block == sent[m].block
    requires lines'[i].status == VALID || lines'[i].status == MODIFIED
    ensures Placed(g, lines', sent - {m})
  {
  }

  /** A block is in one line only. */
  lemma SameWay(g: Geometry, lines: seq<Line>, b: nat, i: nat, k: nat)
    requires g.Valid() && Coherent(g, lines) && g.Block(b) == b && Holds(g, lines, b, i) && Holds(g, lines, b, k)
    ensures i == k
  {
    HoldsIsBlock(g, lines, b, i);
    HoldsIsBlock(g, lines, b, k);
  }

  /** A read of a block that now has a line reserved, or has none because lines are allocated later. */
  lemma NewReadPlaced(g: Geometry, lines: seq<Line>, sent: map<Fetch, Outstanding>, m: Fetch, o: Outstanding)
    requires g.Valid() && Placed(g, lines, sent) && g.Block(o.block) == o.block
    requires g.allocation == ON_MISS ==>
        o.index < |lines| && lines[o.index].status == RESERVED && lines[o.index].block == o.block
    requires g.allocation == ON_FILL ==> forall k: nat :: k < |lines| && lines[k].status != INVALID ==>
        lines[k].block != o.block
    ensures Placed(g, lines, sent[m := o])
  {
  }

  // ----- The configurations that lose data

  /** A cache of one line. */
  function OneLine(allocation: Allocation): Geometry {
    Geometry(128, 1, 1, LRU, allocation)
  }

  lemma OneLineProbe(allocation: Allocation, line: Line, b: nat, probed: RequestStatus, way: nat)
    requires Probed(OneLine(allocation), [line], b, probed, way) && line.status != RESERVED
    ensures way == 0 && probed == if line.status != INVALID && line.tag == b / 128 then HIT else MISS
  {
    var g := OneLine(allocation);
    assert g.Set(b) == 0 && g.Tag(b) == b / 128 && g.InSet(b, 0);
    if line.status != INVALID && line.tag == b / 128 {
      assert Holds(g, [line], b, 0);
    }
  }

  lemma OneLineBlocks(allocation: Allocation)
    ensures var g := OneLine(allocation); g.Valid() && g.NumLines() == 1 && g.Block(0) == 0 && g.Block(128) == 128
    ensures var g := OneLine(allocation); g.Tag(0) == 0 && g.Tag(128) == 1
  {
  }

  function Reading(uid: nat, addr: nat, atomic: bool): Fetch {
    Fetch(uid, addr, false, atomic, false)
  }

  function Writing(uid: nat, addr: nat, globally: bool): Fetch {
    Fetch(uid, addr, true, false, globally)
  }

  const UNUSED: Fetch := Fetch(0, 0, false, false, false)

  const INITIAL: State := State([EMPTY_LINE], map[], [], map[], map[], map[], [], {}, {}, {}, {}, [])

  /** The state after the read `mf` of block 0 has missed and its data has arrived. */
  ghost predicate Warm(s: State, atomic: bool) {
    && |s.lines| == 1 && s.lines[0].block == 0 && s.lines[0].tag == 0
    && s.lines[0].status == (if atomic then MODIFIED else VALID) && s.unsent == (if atomic then {0} else {})
    && s.lost == {} == s.late && s.sent == map[] && s.table.Keys == {0} && |s.queue| == 1
    && s.response == [0] && |s.table[0].waiting| == 1 && s.returned == map[] && WriteBack(0) !in s.queue
  }

  lemma FirstMiss(policy: WritePolicy, allocation: Allocation, atomic: bool)
    requires atomic ==> allocation == ON_MISS
    ensures var g, mf := OneLine(allocation), Reading(1, 0, atomic);
      var s := AfterAccess(g, policy, false, INITIAL, 0, mf, UNUSED, MISS, 0, 1);
      && mf in s.sent && s.sent[mf] == Outstanding(0, 0) && 0 in s.table && |s.lines| == 1
      && Warm(AfterFill(g, s, mf, 0, 2), atomic) && s.atomics == Noted(0, mf)
      && s.table[0].hasAtomic == atomic
  {
    OneLineBlocks(allocation);
    var g, mf := OneLine(allocation), Reading(1, 0, atomic);
    var s := AfterAccess(g, policy, false, INITIAL, 0, mf, UNUSED, MISS, 0, 1);
    assert s.sent == map[mf := Outstanding(0, 0)];
    assert s.sent - {mf} == map[];
  }

  method EmptyLine(policy: WritePolicy, allocation: Allocation) returns (c: Cache)
    ensures fresh(c) && fresh(c.tags) && fresh(c.mshrs) && c.Valid() && c.writePolicy == policy
    ensures c.g == OneLine(allocation)
    ensures !c.writeAllocate && c.missQueueSize == 8 && c.mshrs.numEntries == 4 && c.mshrs.maxMerged == 4
    ensures c.tags.lines == [EMPTY_LINE] && c.Now() == INITIAL
  {
    hide Cache.Valid;
    OneLineBlocks(allocation);
    c := new Cache(OneLine(allocation), policy, false, 8, 4, 4);
  }

  /** A cache of one line that holds block 0, after a miss and its fill; modified and unsent if that was an atomic. */
  method WarmUp(policy: WritePolicy, allocation: Allocation, atomic: bool) returns (c: Cache)
    requires policy != READ_ONLY && (atomic ==> allocation == ON_MISS)
    ensures fresh(c) && fresh(c.tags) && fresh(c.mshrs) && c.Valid() && c.writePolicy == policy
    ensures c.g == OneLine(allocation)
    ensures !c.writeAllocate && c.missQueueSize == 8 && c.mshrs.numEntries == 4 && c.mshrs.maxMerged == 4
    ensures Warm(c.Now(), atomic) && c.atomics == if atomic then {0} else {}
  {
    hide Cache.Valid, Probed, AfterAccess, AfterFill, Victim, Warm;
    OneLineBlocks(allocation);
    c := EmptyLine(policy, allocation);
    var mf := Reading(1, 0, atomic);
    var status, events, probed, way := c.Access(mf, UNUSED, 1);
    OneLineProbe(allocation, EMPTY_LINE, 0, probed, way);
    assert status == MISS;
    FirstMiss(policy, allocation, atomic);
    var ok, filled := c.Fill(mf, 2);
    assert filled == 0;
  }

  lemma AtomicMiss(policy: WritePolicy)
    ensures var g, mf := OneLine(ON_FILL), Reading(1, 0, true);
      var s := AfterAccess(g, policy, false, INITIAL, 0, mf, UNUSED, MISS, 0, 1);
      mf in s.sent && s.sent[mf].block == 0 && 0 in s.table && s.table[0].hasAtomic
  {
    OneLineBlocks(ON_FILL);
  }

  /** Allocate-on-fill: an atomic that misses is accepted, and the arrival of its data stops the simulator. */
  method AtomicStops(policy: WritePolicy) returns (c: Cache, ok: bool)
    requires policy != READ_ONLY
    ensures c.Valid() && c.writePolicy == policy && c.g.allocation == ON_FILL && !ok
  {
    hide Cache.Valid, Probed, AfterAccess, AfterFill, Victim;
    OneLineBlocks(ON_FILL);
    c := EmptyLine(policy, ON_FILL);
    var mf := Reading(1, 0, true);
    var status, events, probed, way := c.Access(mf, UNUSED, 1);
    OneLineProbe(ON_FILL, EMPTY_LINE, 0, probed, way);
    assert status == MISS;
    AtomicMiss(policy);
    ghost var filled;
    ok, filled := c.Fill(mf, 2);
  }

  /** Allocate-on-fill: the line is modified, by an atomic if writes are sent at once and else by a write; another block
      misses, and its fill takes the line. */
  method LosesByFill(policy: WritePolicy) returns (c: Cache)
    requires policy != READ_ONLY
    ensures c.Valid() && c.writePolicy == policy && c.g.allocation == ON_FILL && c.lost == {0}
    ensures c.atomics == if SentAtOnce(policy) then {0} else {}
  {
    hide Cache.Valid, Warm;
    c := WarmUp(policy, ON_FILL, false);
    ModifyLine(c);
    ReadOther(c);
    FillOther(c);
  }

  /** Another block misses. */
  method ReadOther(c: Cache)
    requires c.Valid() && c.g == OneLine(ON_FILL) && c.writePolicy != READ_ONLY
    requires !c.writeAllocate && c.missQueueSize == 8 && c.mshrs.numEntries == 4 && c.mshrs.maxMerged == 4
    requires Warm(c.Now(), true)
    modifies c`missQueue, c`sent, c`unsent, c`lost, c`late, c`atomics, c.tags, c.mshrs
    ensures c.Valid() && Awaiting(c.Now()) && c.atomics == old(c.atomics)
  {
    hide Cache.Valid, Probed, AfterAccess;
    OneLineBlocks(ON_FILL);
    ghost var s := c.Now();
    assert c.tags.lines == [s.lines[0]];
    var status, events, probed, way := c.Access(Reading(3, 128, false), UNUSED, 4);
    OneLineProbe(ON_FILL, s.lines[0], 128, probed, way);
    assert status == MISS;
    SecondMiss(c.writePolicy, s);
  }

  /** Its data arrives, and takes the line. */
  method FillOther(c: Cache)
    requires c.Valid() && c.g == OneLine(ON_FILL) && Awaiting(c.Now())
    modifies c`sent, c`unsent, c`lost, c.tags, c.mshrs
    ensures c.Valid() && c.lost == {0}
  {
    hide Cache.Valid;
    var ok, way := c.Fill(Reading(3, 128, false), 5);
    assert way == 0;
  }

  /** The line has unsent modifications, and another block is being read. */
  ghost predicate Awaiting(s: State) {
    var mf := Reading(3, 128, false);
    && |s.lines| == 1 && s.lines[0].status == MODIFIED && s.lines[0].block == 0 && s.unsent == {0} && s.lost == {}
    && mf in s.sent && s.sent[mf].block == 128 && 128 in s.table && !s.table[128].hasAtomic
  }

  /** The request that modifies the line and sends nothing: an atomic if writes are sent at once. */
  function Modifying(policy: WritePolicy): Fetch {
    if SentAtOnce(policy) then Reading(2, 0, true) else Writing(2, 0, false)
  }

  method ModifyLine(c: Cache)
    requires c.Valid() && c.g == OneLine(c.g.allocation) && c.writePolicy != READ_ONLY
    requires !c.writeAllocate && c.missQueueSize == 8 && Warm(c.Now(), false)
    modifies c`missQueue, c`sent, c`unsent, c`lost, c`late, c`atomics, c.tags, c.mshrs
    ensures c.Valid() && Warm(c.Now(), true)
    ensures c.atomics == old(c.atomics) + if SentAtOnce(c.writePolicy) then {0} else {}
  {
    hide Cache.Valid, Probed, AfterAccess;
    OneLineBlocks(c.g.allocation);
    ghost var s := c.Now();
    assert c.tags.lines == [s.lines[0]];
    var status, events, probed, way := c.Access(Modifying(c.writePolicy), UNUSED, 3);
    OneLineProbe(c.g.allocation, s.lines[0], 0, probed, way);
    assert status == HIT;
    ModifiedLine(c.writePolicy, c.g.allocation, s);
  }

  lemma ModifiedLine(policy: WritePolicy, allocation: Allocation, s: State)
    requires policy != READ_ONLY && Warm(s, false)
    ensures var t := AfterAccess(OneLine(allocation), policy, false, s, 0, Modifying(policy), UNUSED, HIT, 0, 3);
      Warm(t, true) && t.atomics == s.atomics + if SentAtOnce(policy) then {0} else {}
  {
    OneLineBlocks(allocation);
  }

  lemma SecondMiss(policy: WritePolicy, s: State)
    requires Warm(s, true)
    ensures var t := AfterAccess(OneLine(ON_FILL), policy, false, s, 128, Reading(3, 128, false), UNUSED, MISS, 0, 4);
      Awaiting(t) && t.atomics == s.atomics
  {
    OneLineBlocks(ON_FILL);
  }

  /** Allocate-on-miss with local write-back: a local write modifies the line, and a global one drops it. */
  method LosesByWrites() returns (c: Cache)
    ensures c.Valid() && c.writePolicy == LOCAL_WB_GLOBAL_WT && c.g.allocation == ON_MISS && c.lost == {0}
    ensures c.atomics == {}
  {
    hide Cache.Valid, Warm;
    c := WarmUp(LOCAL_WB_GLOBAL_WT, ON_MISS, false);
    ModifyLine(c);
    AccessAgain(c);
  }

  /** Allocate-on-miss: an atomic leaves the line modified; then a write evicts the line, or, under write-through,
      another block replaces it. */
  method LosesByAccess(policy: WritePolicy) returns (c: Cache)
    requires policy == WRITE_THROUGH || policy == WRITE_EVICT || policy == LOCAL_WB_GLOBAL_WT
    ensures c.Valid() && c.writePolicy == policy && c.g.allocation == ON_MISS && c.lost == {0}
  {
    OneLineBlocks(ON_MISS);
    c := WarmUp(policy, ON_MISS, true);
    AccessAgain(c);
  }

  method AccessAgain(c: Cache)
    requires c.Valid() && c.g == OneLine(ON_MISS) && c.writePolicy != READ_ONLY && c.writePolicy != WRITE_BACK
    requires !c.writeAllocate && c.missQueueSize == 8 && c.mshrs.numEntries == 4 && c.mshrs.maxMerged == 4
    requires Warm(c.Now(), true)
    modifies c`missQueue, c`sent, c`unsent, c`lost, c`late, c`atomics, c.tags, c.mshrs
    ensures c.Valid() && c.lost == {0} && c.atomics == old(c.atomics)
  {
    hide Cache.Valid, Probed, AfterAccess;
    OneLineBlocks(ON_MISS);
    ghost var s := c.Now();
    assert c.tags.lines == [s.lines[0]];
    var mf := if c.writePolicy == WRITE_THROUGH then Reading(3, 128, false) else Writing(2, 0, true);
    var status, events, probed, way := c.Access(mf, UNUSED, 3);
    OneLineProbe(ON_MISS, s.lines[0], mf.addr, probed, way);
    LastAccess(c.writePolicy, s);
  }

  lemma LastAccess(policy: WritePolicy, s: State)
    requires (policy == WRITE_THROUGH || policy == WRITE_EVICT || policy == LOCAL_WB_GLOBAL_WT) && Warm(s, true)
    ensures policy == WRITE_THROUGH ==>
      var t := AfterAccess(OneLine(ON_MISS), policy, false, s, 128, Reading(3, 128, false), UNUSED, MISS, 0, 3);
      t.lost == {0} && t.atomics == s.atomics
    ensures policy != WRITE_THROUGH ==>
      var t := AfterAccess(OneLine(ON_MISS), policy, false, s, 0, Writing(2, 0, true), UNUSED, HIT, 0, 3);
      t.lost == {0} && t.atomics == s.atomics
  {
    OneLineBlocks(ON_MISS);
  }

  /** Allocate-on-miss: block 0 arrives, block 128 takes its line, and an atomic to block 0 misses and joins the entry
      that is still being handed out. It is handed back like the other request, and has left no mark. */
  method LosesByMerge(policy: WritePolicy) returns (c: Cache)
    requires policy != READ_ONLY
    ensures c.Valid() && c.writePolicy == policy && c.g.allocation == ON_MISS && c.lost == {0} == c.late
    ensures 0 !in c.mshrs.table && Reading(5, 0, true) in Get(c.mshrs.returned, 0)
    ensures c.sent == map[] && c.unsent == {} && WriteBack(0) !in c.missQueue && !HasModified(c.tags.lines, 0)
  {
    hide Cache.Valid, Warm, Displaced, HasModified;
    c := WarmUp(policy, ON_MISS, false);
    TakeLine(c);
    MergeAtomic(c);
    HandBackTwo(c);
  }

  /** Two requests to block 0 are handed back. */
  method HandBackTwo(c: Cache)
    requires c.Valid() && c.mshrs.response != [] && c.mshrs.response[0] == 0 && 0 in c.mshrs.table
    requires |c.mshrs.table[0].waiting| == 2
    modifies c.mshrs
    ensures c.Valid() && 0 !in c.mshrs.table && old(c.mshrs.table[0].waiting[1]) in Get(c.mshrs.returned, 0)
  {
    hide Cache.Valid, AfterQueue, AfterRead;
    var first := c.NextAccess();
    var second := c.NextAccess();
  }

  /** Block 128 is in the line, and block 0 is still being handed out. */
  ghost predicate Displaced(s: State) {
    && |s.lines| == 1 && s.lines[0].status == VALID && s.lines[0].tag == 1 && s.lines[0].block == 128
    && s.response == [0, 128] && s.table.Keys == {0, 128} && |s.table[0].waiting| == 1 && s.returned == map[]
    && s.sent == map[] && |s.queue| == 2 && s.unsent == {} == s.lost && s.late == {} && WriteBack(0) !in s.queue
  }

  lemma DisplacingMiss(policy: WritePolicy, s: State)
    requires Warm(s, false)
    ensures var g, mf := OneLine(ON_MISS), Reading(3, 128, false);
      var t := AfterAccess(g, policy, false, s, 128, mf, UNUSED, MISS, 0, 3);
      && mf in t.sent && t.sent[mf] == Outstanding(128, 0) && 128 in t.table && |t.lines| == 1
      && Displaced(AfterFill(g, t, mf, 0, 4))
  {
    OneLineBlocks(ON_MISS);
    var g, mf := OneLine(ON_MISS), Reading(3, 128, false);
    var t := AfterAccess(g, policy, false, s, 128, mf, UNUSED, MISS, 0, 3);
    assert t.sent == map[mf := Outstanding(128, 0)];
    assert t.sent - {mf} == map[];
  }

  method TakeLine(c: Cache)
    requires c.Valid() && c.g == OneLine(ON_MISS) && c.writePolicy != READ_ONLY
    requires !c.writeAllocate && c.missQueueSize == 8 && c.mshrs.numEntries == 4 && c.mshrs.maxMerged == 4
    requires Warm(c.Now(), false)
    modifies c`missQueue, c`sent, c`unsent, c`lost, c`late, c`atomics, c.tags, c.mshrs
    ensures c.Valid() && Displaced(c.Now())
  {
    OneLineBlocks(ON_MISS);
    hide Cache.Valid, Probed, AfterAccess, AfterFill, Victim, Displaced;
    ghost var s := c.Now();
    assert c.tags.lines == [s.lines[0]];
    var mf := Reading(3, 128, false);
    var status, events, probed, way := c.Access(mf, UNUSED, 3);
    OneLineProbe(ON_MISS, s.lines[0], 128, probed, way);
    assert status == MISS;
    DisplacingMiss(c.writePolicy, s);
    var ok, filled := c.Fill(mf, 4);
  }

  lemma LateMiss(policy: WritePolicy, s: State)
    requires Displaced(s)
    ensures var t := AfterAccess(OneLine(ON_MISS), policy, false, s, 0, Reading(5, 0, true), UNUSED, MISS, 0, 5);
      && t.lost == {0} == t.late && t.sent == map[] && t.unsent == {} && t.queue == s.queue && !HasModified(t.lines, 0)
      && t.response == [0, 128] && 0 in t.table && |t.table[0].waiting| == 2
      && t.table[0].waiting[1] == Reading(5, 0, true)
  {
    OneLineBlocks(ON_MISS);
  }

  method MergeAtomic(c: Cache)
    requires c.Valid() && c.g == OneLine(ON_MISS) && c.writePolicy != READ_ONLY
    requires !c.writeAllocate && c.missQueueSize == 8 && c.mshrs.numEntries == 4 && c.mshrs.maxMerged == 4
    requires Displaced(c.Now())
    modifies c`missQueue, c`sent, c`unsent, c`lost, c`late, c`atomics, c.tags, c.mshrs
    ensures c.Valid() && c.lost == {0} == c.late && c.mshrs.response == [0, 128] && 0 in c.mshrs.table
    ensures |c.mshrs.table[0].waiting| == 2 && c.mshrs.table[0].waiting[1] == Reading(5, 0, true)
    ensures c.sent == map[] && c.unsent == {} && WriteBack(0) !in c.missQueue && !HasModified(c.tags.lines, 0)
  {
    OneLineBlocks(ON_MISS);
    hide Cache.Valid, Probed, AfterAccess, HasModified;
    ghost var s := c.Now();
    assert c.tags.lines == [s.lines[0]];
    var status, events, probed, way := c.Access(Reading(5, 0, true), UNUSED, 5);
    OneLineProbe(ON_MISS, s.lines[0], 0, probed, way);
    assert status == MISS;
    LateMiss(c.writePolicy, s);
  }

  /** A read-only cache holds block 0 and is hit by an atomic, which marks nothing. */
  method LosesReadOnly(allocation: Allocation) returns (c: Cache)
    ensures c.Valid() && c.writePolicy == READ_ONLY && c.g.allocation == allocation && c.lost == {0}
  {
    hide Cache.Valid, Warm;
    c := WarmReadOnly(allocation);
    HitReadOnly(c);
  }

  lemma FirstReadOnly(allocation: Allocation)
    ensures var g, mf := OneLine(allocation), Reading(1, 0, false);
      var s := AfterRead(g, READ_ONLY, INITIAL, 0, mf, MISS, 0, 1);
      && mf in s.sent && s.sent[mf] == Outstanding(0, 0) && 0 in s.table && |s.lines| == 1 && !s.table[0].hasAtomic
      && Warm(AfterFill(g, s, mf, 0, 2), false)
  {
    OneLineBlocks(allocation);
    var g, mf := OneLine(allocation), Reading(1, 0, false);
    var s := AfterRead(g, READ_ONLY, INITIAL, 0, mf, MISS, 0, 1);
    assert s.sent == map[mf := Outstanding(0, 0)];
    assert s.sent - {mf} == map[];
  }

  method WarmReadOnly(allocation: Allocation) returns (c: Cache)
    ensures fresh(c) && fresh(c.tags) && fresh(c.mshrs) && c.Valid() && c.writePolicy == READ_ONLY
    ensures c.g == OneLine(allocation) && Warm(c.Now(), false)
  {
    hide Cache.Valid, Probed, AfterRead, AfterFill, Victim, Warm;
    OneLineBlocks(allocation);
    c := EmptyLine(READ_ONLY, allocation);
    var mf := Reading(1, 0, false);
    var status, events, fine, probed, way := c.ReadOnlyAccess(mf, 1);
    OneLineProbe(allocation, EMPTY_LINE, 0, probed, way);
    assert status == MISS;
    FirstReadOnly(allocation);
    var ok, filled := c.Fill(mf, 2);
    assert filled == 0;
  }

  method HitReadOnly(c: Cache)
    requires c.Valid() && c.g == OneLine(c.g.allocation) && c.writePolicy == READ_ONLY && Warm(c.Now(), false)
    modifies c`missQueue, c`sent, c`unsent, c`lost, c`late, c`atomics, c.tags, c.mshrs
    ensures c.Valid() && c.lost == {0}
  {
    hide Cache.Valid, Probed;
    OneLineBlocks(c.g.allocation);
    ghost var s := c.Now();
    assert c.tags.lines == [s.lines[0]];
    var status, events, fine, probed, way := c.ReadOnlyAccess(Reading(2, 0, true), 3);
    OneLineProbe(c.g.allocation, s.lines[0], 0, probed, way);
    assert status == HIT;
  }

  /** Every configuration that is not known to keep its writes loses some, without any atomic. */
  method LosesWrites(policy: WritePolicy, allocation: Allocation) returns (c: Cache)
    requires !KeepsWrites(policy, allocation)
    ensures c.Valid() && c.writePolicy == policy && c.g.allocation == allocation && c.lost != {} && c.atomics == {}
  {
    if allocation == ON_FILL {
      c := LosesByFill(policy);
    } else {
      c := LosesByWrites();
    }
  }

  /** With atomics, every configuration can lose data. */
  method LosesData(policy: WritePolicy, allocation: Allocation) returns (c: Cache)
    ensures c.Valid() && c.writePolicy == policy && c.g.allocation == allocation && c.lost != {}
  {
    if policy == READ_ONLY {
      c := LosesReadOnly(allocation);
    } else if allocation == ON_FILL {
      c := LosesByFill(policy);
    } else {
      c := LosesByMerge(policy);
    }
  }
}
