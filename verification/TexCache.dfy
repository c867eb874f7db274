/** The texture cache: its tags run ahead of its data. An access allocates its line at once; the data
arrives in any order, waits in a reorder buffer, and is written when the access leaves the fragment
FIFO. The invariant says how the two are brought back into agreement. */
module TexCache {
  import opened TagArray
  import opened RingFifo

  datatype MemFetch = MemFetch(uid: nat, addr: nat)
  datatype Fragment = Fragment(request: MemFetch, index: nat, miss: bool)
  datatype RobEntry = RobEntry(ready: bool, time: nat, index: nat, request: MemFetch, block: nat)
  datatype DataBlock = NoData | Data(block: nat)

  // ----- Replaying the fragment FIFO

  /** The data array after the data of `f`, if it is a miss, has been written. */
  ghost function Land(g: Geometry, cache: seq<DataBlock>, f: Fragment): (r: seq<DataBlock>)
    requires g.Valid()
    ensures |r| == |cache|
  {
    if f.miss && f.index < |cache| then cache[f.index := Data(g.Block(f.request.addr))] else cache
  }

  ghost function Replay(g: Geometry, cache: seq<DataBlock>, fs: seq<Fragment>): (r: seq<DataBlock>)
    requires g.Valid()
    ensures |r| == |cache|
    decreases |fs|
  {
    if fs == [] then cache else Replay(g, Land(g, cache, fs[0]), fs[1..])
  }

  ghost predicate Served(g: Geometry, cache: seq<DataBlock>, f: Fragment)
    requires g.Valid()
  {
    f.index < |cache| && (!f.miss ==> cache[f.index] == Data(g.Block(f.request.addr)))
  }

  /** Every hit in the FIFO will find its block, once the misses ahead of it have landed. */
  ghost predicate AllServed(g: Geometry, cache: seq<DataBlock>, fs: seq<Fragment>)
    requires g.Valid()
    decreases |fs|
  {
    fs == [] || (Served(g, cache, fs[0]) && AllServed(g, Land(g, cache, fs[0]), fs[1..]))
  }

  ghost predicate Matches(g: Geometry, f: Fragment, r: RobEntry)
    requires g.Valid()
  {
    r.request == f.request && r.index == f.index && r.block == g.Block(f.request.addr)
  }

  /** The reorder buffer holds the misses of the FIFO, in order. */
  ghost predicate Aligned(g: Geometry, fs: seq<Fragment>, rob: seq<RobEntry>)
    requires g.Valid()
    decreases |fs|
  {
    if fs == [] then rob == []
    else if fs[0].miss then rob != [] && Matches(g, fs[0], rob[0]) && Aligned(g, fs[1..], rob[1..])
    else Aligned(g, fs[1..], rob)
  }

  /** The blocks that the tags claim to hold. */
  function TagView(lines: seq<Line>): (v: seq<DataBlock>)
    ensures |v| == |lines|
  {
    seq(|lines|, i requires 0 <= i < |lines| => if lines[i].status == VALID then Data(lines[i].block) else NoData)
  }

  lemma {:induction false} ReplayAppend(g: Geometry, cache: seq<DataBlock>, fs: seq<Fragment>, f: Fragment)
    requires g.Valid()
    ensures Replay(g, cache, fs + [f]) == Land(g, Replay(g, cache, fs), f)
    decreases |fs|
  {
    if fs == [] {
      assert (fs + [f])[1..] == [];
    } else {
      assert (fs + [f])[1..] == fs[1..] + [f];
      ReplayAppend(g, Land(g, cache, fs[0]), fs[1..], f);
    }
  }

  /** A new fragment is served if the replayed data array has what it needs. */
  lemma {:induction false} ServedAppend(g: Geometry, cache: seq<DataBlock>, fs: seq<Fragment>, f: Fragment)
    requires g.Valid()
    ensures AllServed(g, cache, fs + [f]) <==> AllServed(g, cache, fs) && Served(g, Replay(g, cache, fs), f)
    decreases |fs|
  {
    if fs == [] {
      assert (fs + [f])[1..] == [];
    } else {
      assert (fs + [f])[1..] == fs[1..] + [f];
      ServedAppend(g, Land(g, cache, fs[0]), fs[1..], f);
    }
  }

  lemma {:induction false} AlignedAppendHit(g: Geometry, fs: seq<Fragment>, rob: seq<RobEntry>, f: Fragment)
    requires g.Valid() && Aligned(g, fs, rob) && !f.miss
    ensures Aligned(g, fs + [f], rob)
    decreases |fs|
  {
    if fs == [] {
      assert (fs + [f])[1..] == [];
    } else {
      assert (fs + [f])[1..] == fs[1..] + [f];
      AlignedAppendHit(g, fs[1..], if fs[0].miss then rob[1..] else rob, f);
    }
  }

  lemma {:induction false} AlignedAppendMiss(g: Geometry, fs: seq<Fragment>, rob: seq<RobEntry>, f: Fragment,
                                             r: RobEntry)
    requires g.Valid() && Aligned(g, fs, rob) && f.miss && Matches(g, f, r)
    ensures Aligned(g, fs + [f], rob + [r])
    decreases |fs|
  {
    if fs == [] {
      assert (fs + [f])[1..] == [] && (rob + [r])[1..] == [];
    } else {
      assert (fs + [f])[1..] == fs[1..] + [f];
      if fs[0].miss {
        assert (rob + [r])[1..] == rob[1..] + [r];
      }
      AlignedAppendMiss(g, fs[1..], if fs[0].miss then rob[1..] else rob, f, r);
    }
  }

  /** Marking a reorder-buffer entry ready does not disturb the alignment. */
  lemma {:induction false} AlignedReady(g: Geometry, fs: seq<Fragment>, rob: seq<RobEntry>, i: nat, time: nat)
    requires g.Valid() && Aligned(g, fs, rob) && i < |rob|
    ensures Aligned(g, fs, rob[i := rob[i].(ready := true, time := time)])
    decreases |fs|
  {
    var rob' := rob[i := rob[i].(ready := true, time := time)];
    if fs[0].miss {
      if i > 0 {
        AlignedReady(g, fs[1..], rob[1..], i - 1, time);
        assert rob'[1..] == rob[1..][i - 1 := rob[i].(ready := true, time := time)];
      } else {
        assert rob'[1..] == rob[1..];
      }
    } else {
      AlignedReady(g, fs[1..], rob, i, time);
    }
  }

  /** Every request in the reorder buffer is in the fragment FIFO. */
  lemma {:induction false} RobInFifo(g: Geometry, fs: seq<Fragment>, rob: seq<RobEntry>, i: nat)
    requires g.Valid() && Aligned(g, fs, rob) && i < |rob|
    ensures rob[i].request in Requests(fs) && rob[i].block == g.Block(rob[i].request.addr)
    decreases |fs|
  {
    if fs[0].miss && i > 0 {
      RobInFifo(g, fs[1..], rob[1..], i - 1);
    } else if !fs[0].miss {
      RobInFifo(g, fs[1..], rob, i);
    }
  }

  ghost function Requests(fs: seq<Fragment>): (s: seq<MemFetch>)
    ensures |s| == |fs| && forall i :: 0 <= i < |fs| ==> s[i] == fs[i].request
  {
    seq(|fs|, i requires 0 <= i < |fs| => fs[i].request)
  }

  // ----- What every operation keeps

  /** Tags and data agree up to the pending misses, every hit in the FIFO will be served, and the
      reorder buffer holds the misses of the FIFO, each request once. */
  ghost predicate Consistent(g: Geometry, lines: seq<Line>, cache: seq<DataBlock>, fs: seq<Fragment>, es: seq<RobEntry>)
    requires g.Valid()
  {
    && Coherent(g, lines) && |cache| == |lines|
    && (forall i: nat :: i < |lines| ==> lines[i].status == VALID || lines[i].status == INVALID)
    && Replay(g, cache, fs) == TagView(lines)
    && AllServed(g, cache, fs)
    && Aligned(g, fs, es)
    && (forall i: nat, j: nat :: i < j < |es| ==> es[i].request != es[j].request)
  }

  /** With no reserved and no modified lines, an access hits exactly when the tags show the block. */
  lemma StatusIsTagView(g: Geometry, lines: seq<Line>, b: nat, status: RequestStatus, i: nat)
    requires g.Valid() && Coherent(g, lines) && g.Block(b) == b && Probed(g, lines, b, status, i)
    requires forall k: nat :: k < |lines| ==> lines[k].status == VALID || lines[k].status == INVALID
    ensures i < |lines| && (status == HIT || status == MISS)
    ensures status == HIT <==> Data(b) in TagView(lines)
    ensures status == HIT ==> TagView(lines)[i] == Data(b)
  {
    g.SetFits(b);
    var first := g.Set(b) * g.assoc;
    assert g.InSet(b, first) && first < |lines|;
    if status == HIT {
      HoldsIsBlock(g, lines, b, i);
      assert TagView(lines)[i] == Data(b);
    } else if Data(b) in TagView(lines) {
      var k: nat :| k < |lines| && TagView(lines)[k] == Data(b);
      HoldsIsBlock(g, lines, b, k);
    }
  }

  lemma AccessStatus(g: Geometry, lines: seq<Line>, cache: seq<DataBlock>, fs: seq<Fragment>, es: seq<RobEntry>,
                     b: nat, status: RequestStatus, i: nat)
    requires g.Valid() && Consistent(g, lines, cache, fs, es) && g.Block(b) == b && Probed(g, lines, b, status, i)
    ensures i < |lines| && (status == HIT || status == MISS) && lines[i].status != MODIFIED
    ensures status == HIT <==> Data(b) in TagView(lines)
    ensures status == HIT ==> TagView(lines)[i] == Data(b)
  {
    hide Replay, AllServed, Aligned;
    StatusIsTagView(g, lines, b, status, i);
  }

  lemma AcceptHit(g: Geometry, lines: seq<Line>, lines': seq<Line>, cache: seq<DataBlock>,
                  fs: seq<Fragment>, es: seq<RobEntry>, f: Fragment)
    requires g.Valid() && Consistent(g, lines, cache, fs, es) && Coherent(g, lines')
    requires f.index < |lines| && TagView(lines)[f.index] == Data(g.Block(f.request.addr)) && !f.miss
    requires exists t :: lines' == lines[f.index := lines[f.index].(lastAccess := t)]
    ensures Consistent(g, lines', cache, fs + [f], es)
  {
    ReplayAppend(g, cache, fs, f);
    ServedAppend(g, cache, fs, f);
    AlignedAppendHit(g, fs, es, f);
    assert TagView(lines') == TagView(lines);
  }

  lemma AcceptMiss(g: Geometry, lines: seq<Line>, lines': seq<Line>, cache: seq<DataBlock>,
                   fs: seq<Fragment>, es: seq<RobEntry>, f: Fragment, r: RobEntry, reserved: Line, filled: Line)
    requires g.Valid() && Consistent(g, lines, cache, fs, es) && Coherent(g, lines')
    requires f.index < |lines| && f.miss && Matches(g, f, r) && f.request !in Requests(fs)
    requires lines' == lines[f.index := reserved][f.index := filled]
    requires filled.status == VALID && filled.block == r.block
    ensures Consistent(g, lines', cache, fs + [f], es + [r])
  {
    ReplayAppend(g, cache, fs, f);
    ServedAppend(g, cache, fs, f);
    AlignedAppendMiss(g, fs, es, f, r);
    assert TagView(lines') == TagView(lines)[f.index := Data(r.block)];
    forall i: nat | i < |es| ensures es[i].request != r.request {
      RobInFifo(g, fs, es, i);
    }
  }

  /** Serving the oldest fragment, once its data is there, keeps the agreement. */
  lemma ServeOldest(g: Geometry, lines: seq<Line>, cache: seq<DataBlock>, fs: seq<Fragment>, es: seq<RobEntry>)
    requires g.Valid() && Consistent(g, lines, cache, fs, es) && fs != []
    ensures Served(g, cache, fs[0])
    ensures fs[0].miss ==> es != [] && Matches(g, fs[0], es[0])
    ensures Consistent(g, lines, Land(g, cache, fs[0]), fs[1..], if fs[0].miss then es[1..] else es)
  {
  }

  /** Data arriving for an entry that was not ready finds the right block there. */
  lemma FillEntry(g: Geometry, lines: seq<Line>, cache: seq<DataBlock>, fs: seq<Fragment>, es: seq<RobEntry>, i: nat,
                  time: nat)
    requires g.Valid() && Consistent(g, lines, cache, fs, es) && i < |es|
    ensures es[i].block == g.Block(es[i].request.addr)
    ensures Consistent(g, lines, cache, fs, es[i := es[i].(ready := true, time := time)])
    ensures forall k: nat :: k < |es| && k != i ==> es[k].request != es[i].request
  {
    RobInFifo(g, fs, es, i);
    AlignedReady(g, fs, es, i, time);
  }

  // ----- The cache

  class Cache {
    const tags: Tags
    const fragmentEntries: nat
    const requestEntries: nat
    const resultEntries: nat
    /** Queues, oldest element first; only the reorder buffer is also accessed by slot. */
    var fragments: seq<Fragment>
    var requests: seq<MemFetch>
    var results: seq<MemFetch>
    var rob: Ring<RobEntry>
    var cache: seq<DataBlock>
    /** The reorder-buffer slot of a request; entries are never removed, only overwritten. */
    var robSlot: map<MemFetch, nat>

    /** All requests accepted so far, and those handed back. */
    ghost var accepted: seq<MemFetch>
    ghost var returned: seq<MemFetch>

    ghost predicate Valid()
      reads this, tags
    {
      && tags.Valid() && tags.g.allocation == ON_MISS
      && rob.Valid()
      && |fragments| <= fragmentEntries && |requests| <= requestEntries && |results| <= resultEntries
      && Consistent(tags.g, tags.lines, cache, fragments, rob.Elements())
      && Tracked(rob, robSlot)
      // nothing is lost, duplicated or reordered
      && InOrder(accepted, returned, results, fragments)
    }

    constructor (g: Geometry, nFragment: nat, nRequest: nat, nRob: nat, nResult: nat)
      requires g.Valid() && g.allocation == ON_MISS
      ensures Valid() && tags.g == g && fresh(tags) && accepted == [] && returned == []
      ensures fragmentEntries == nFragment && requestEntries == nRequest
      ensures resultEntries == nResult && |rob.data| == nRob
    {
      var none := MemFetch(0, 0);
      tags := new Tags(g);
      fragmentEntries, requestEntries, resultEntries := nFragment, nRequest, nResult;
      fragments, requests, results := [], [], [];
      rob := NewRing(nRob, RobEntry(false, 0, 0, none, 0));
      cache := seq(g.NumLines(), _ => NoData);
      robSlot := map[];
      accepted, returned := [], [];
    }

    /** Accepts the request unless a FIFO is full; tags are updated at once, as if the data were there. */
    method Access(mf: MemFetch, time: nat) returns (status: RequestStatus)
      requires Valid() && time < MAX_TIME
      requires mf !in Requests(fragments)
      modifies this`fragments, this`requests, this`rob, this`robSlot, this`accepted, tags
      ensures Valid()
      ensures status == RESERVATION_FAIL <==>
          old(|fragments| == fragmentEntries || |requests| == requestEntries || rob.num == |rob.data|)
      ensures status == RESERVATION_FAIL ==>
        accepted == old(accepted) && tags.lines == old(tags.lines) && rob == old(rob) && robSlot == old(robSlot)
        && fragments == old(fragments) && requests == old(requests)
      ensures status != RESERVATION_FAIL ==>
        && accepted == old(accepted) + [mf]
        && status == (if Data(tags.g.Block(mf.addr)) in TagView(old(tags.lines)) then HIT_RESERVED else MISS)
        && (status == MISS ==> requests == old(requests) + [mf])
        && (status == HIT_RESERVED ==> requests == old(requests))
        && tags.uses == old(tags.uses) + [Use(tags.g.Block(mf.addr), time, status == MISS)]
    {
      hide Consistent, Tracked, InOrder, Coherent, Requests, TagView, Ring<RobEntry>.Elements, Ring<RobEntry>.Push;
      if |fragments| == fragmentEntries || |requests| == requestEntries || rob.Full() {
        return RESERVATION_FAIL;
      }
      ghost var before := tags.lines;
      var index, miss := LookUp(mf, time);
      var f := Fragment(mf, index, miss);
      OrderAccept(accepted, returned, results, fragments, f);
      accepted := accepted + [mf];
      if miss {
        var entry := RobEntry(false, 0, index, mf, tags.g.Block(mf.addr));
        TrackedPush(tags.g, before, cache, fragments, rob, robSlot, entry);
        fragments := fragments + [f];
        robSlot := robSlot[mf := rob.head];
        rob := rob.Push(entry);
        requests := requests + [mf];
        return MISS;
      } else {
        fragments := fragments + [f];
        return HIT_RESERVED;
      }
    }

    /** Updates the tags for an access, as if its data were there; there is always a line to take. */
    method LookUp(mf: MemFetch, time: nat) returns (index: nat, miss: bool)
      requires tags.Valid() && tags.g.allocation == ON_MISS && rob.Valid() && time < MAX_TIME
      requires Consistent(tags.g, tags.lines, cache, fragments, rob.Elements()) && mf !in Requests(fragments)
      modifies tags
      ensures tags.Valid() && (miss <==> Data(tags.g.Block(mf.addr)) !in TagView(old(tags.lines)))
      ensures tags.uses == old(tags.uses) + [Use(tags.g.Block(mf.addr), time, miss)]
      ensures Consistent(tags.g, tags.lines, cache, fragments + [Fragment(mf, index, miss)],
        if miss then rob.Elements() + [RobEntry(false, 0, index, mf, tags.g.Block(mf.addr))] else rob.Elements())
    {
      hide Consistent, Coherent, Probed, Requests, TagView;
      var g := tags.g;
      var block := g.Block(mf.addr);
      g.BlockOfBlock(mf.addr);
      ghost var before := tags.lines;
      var status, idx, writeBack, evicted := tags.Access(block, time);
      AccessStatus(g, before, cache, fragments, rob.Elements(), block, status, idx);
      assert status != RESERVATION_FAIL && status != HIT_RESERVED && !writeBack;
      index, miss := idx, status == MISS;
      if miss {
        ghost var reserved := tags.lines[index];
        tags.FillLine(index, time);
        AcceptMiss(g, before, tags.lines, cache, fragments, rob.Elements(), Fragment(mf, index, true),
                   RobEntry(false, 0, index, mf, block), reserved, tags.lines[index]);
      } else {
        AcceptHit(g, before, tags.lines, cache, fragments, rob.Elements(), Fragment(mf, index, false));
      }
    }

    /** Sends the oldest request to memory if the port has room. */
    method SendRequest(portFull: bool) returns (sent: seq<MemFetch>)
      requires Valid()
      modifies this`requests
      ensures Valid()
      ensures sent == if portFull || old(requests == []) then [] else [old(requests)[0]]
      ensures requests == old(requests)[|sent|..]
    {
      sent := [];
      if requests != [] && !portFull {
        sent := [requests[0]];
        requests := requests[1..];
      }
    }

    /** Serves the oldest fragment: a miss writes its line once its data is back, a hit reads its line,
        which is valid and holds the requested block. */
    method ServeFragment() returns (served: seq<MemFetch>)
      requires Valid()
      modifies this`cache, this`fragments, this`rob, this`results
      ensures Valid()
      ensures |served| <= |old(fragments)| && results == old(results) + served
      ensures fragments == old(fragments)[|served|..]
      ensures served == [] <==>
        || old(fragments == [] || |results| == resultEntries)
        || (old(fragments)[0].miss && !old(rob.Elements())[0].ready)
      ensures served != [] ==>
        served == [old(fragments)[0].request] && cache[old(fragments)[0].index] == Data(tags.g.Block(served[0].addr))
    {
      hide Consistent, Tracked, InOrder;
      if fragments == [] || |results| == resultEntries {
        return [];
      }
      ghost var fs, es := fragments, rob.Elements();
      var e := fragments[0];
      ServeOldest(tags.g, tags.lines, cache, fs, es);
      if e.miss {
        var r := rob.Peek();
        assert r.request == e.request && r.block == tags.g.Block(e.request.addr);
        if !r.ready {
          return [];
        }
        assert r.index == e.index;
        cache := cache[r.index := Data(r.block)];
        TrackedPop(rob, robSlot);
        rob := rob.Pop();
      } else {
        assert cache[e.index].Data?;
        assert cache[e.index].block == tags.g.Block(e.request.addr);
      }
      OrderServe(accepted, returned, results, fs);
      results := results + [e.request];
      fragments := fragments[1..];
      served := [e.request];
    }

    /** Data comes back from memory, in any order: the entry of the request becomes ready. */
    method Fill(mf: MemFetch, time: nat)
      requires Valid()
      requires exists i: nat :: i < rob.num && rob.Elements()[i].request == mf && !rob.Elements()[i].ready
      modifies this`rob
      ensures Valid() && rob.num == old(rob.num)
      ensures forall i: nat :: i < rob.num ==> rob.Elements()[i] == FilledBy(old(rob.Elements())[i], mf, time)
    {
      hide Consistent, InOrder, Tracked;
      ghost var i: nat :| i < rob.num && rob.Elements()[i].request == mf && !rob.Elements()[i].ready;
      FillEntry(tags.g, tags.lines, cache, fragments, rob.Elements(), i, time);
      TrackedSlot(rob, robSlot, i);
      rob.ElementAt(i);
      var slot := robSlot[mf];
      var r := rob.data[slot];
      assert !r.ready && r.block == tags.g.Block(mf.addr);
      var r' := r.(ready := true, time := time);
      TrackedFill(rob, robSlot, i, r');
      rob := rob.Replace(slot, r', i);
    }

    /** Hands back the oldest result. */
    method NextAccess() returns (mf: MemFetch)
      requires Valid() && results != []
      modifies this`returned, this`results
      ensures Valid() && returned == old(returned) + [mf]
      ensures mf == old(results)[0] && results == old(results)[1..]
    {
      OrderReturn(accepted, returned, results, fragments);
      mf := results[0];
      results := results[1..];
      returned := returned + [mf];
    }
  }

  /** The accepted requests are, in order, those returned, those ready and those in the FIFO. */
  ghost predicate InOrder(accepted: seq<MemFetch>, returned: seq<MemFetch>, results: seq<MemFetch>, fs: seq<Fragment>) {
    accepted == returned + results + Requests(fs)
  }

  lemma OrderAccept(accepted: seq<MemFetch>, returned: seq<MemFetch>, results: seq<MemFetch>, fs: seq<Fragment>,
                    f: Fragment)
    requires InOrder(accepted, returned, results, fs)
    ensures InOrder(accepted + [f.request], returned, results, fs + [f])
  {
    assert Requests(fs + [f]) == Requests(fs) + [f.request];
  }

  lemma OrderServe(accepted: seq<MemFetch>, returned: seq<MemFetch>, results: seq<MemFetch>, fs: seq<Fragment>)
    requires InOrder(accepted, returned, results, fs) && fs != []
    ensures InOrder(accepted, returned, results + [fs[0].request], fs[1..])
  {
    assert Requests(fs) == [fs[0].request] + Requests(fs[1..]);
  }

  lemma OrderReturn(accepted: seq<MemFetch>, returned: seq<MemFetch>, results: seq<MemFetch>, fs: seq<Fragment>)
    requires InOrder(accepted, returned, results, fs) && results != []
    ensures InOrder(accepted, returned + [results[0]], results[1..], fs)
  {
    assert results == [results[0]] + results[1..];
  }

  /** A request that still waits for its data finds its slot. */
  ghost predicate Tracked(rob: Ring<RobEntry>, robSlot: map<MemFetch, nat>)
    requires rob.Valid()
  {
    forall i: nat :: i < rob.num && !rob.Elements()[i].ready ==>
      rob.Elements()[i].request in robSlot && robSlot[rob.Elements()[i].request] == rob.Slot(i)
  }

  lemma TrackedSlot(rob: Ring<RobEntry>, robSlot: map<MemFetch, nat>, i: nat)
    requires rob.Valid() && Tracked(rob, robSlot) && i < rob.num && !rob.Elements()[i].ready
    ensures rob.Elements()[i].request in robSlot && robSlot[rob.Elements()[i].request] == rob.Slot(i)
  {
  }

  lemma TrackedFill(rob: Ring<RobEntry>, robSlot: map<MemFetch, nat>, i: nat, e: RobEntry)
    requires rob.Valid() && Tracked(rob, robSlot) && i < rob.num && e.ready
    ensures Tracked(rob.Replace(rob.Slot(i), e, i), robSlot)
  {
  }

  lemma TrackedPop(rob: Ring<RobEntry>, robSlot: map<MemFetch, nat>)
    requires rob.Valid() && !rob.Empty() && Tracked(rob, robSlot)
    ensures Tracked(rob.Pop(), robSlot)
  {
    forall i: nat | i < rob.num - 1 ensures rob.Pop().Elements()[i] == rob.Elements()[i + 1] {
    }
  }

  lemma TrackedPush(g: Geometry, lines: seq<Line>, cache: seq<DataBlock>, fs: seq<Fragment>,
                    rob: Ring<RobEntry>, robSlot: map<MemFetch, nat>, e: RobEntry)
    requires g.Valid() && rob.Valid() && !rob.Full() && Tracked(rob, robSlot)
    requires Consistent(g, lines, cache, fs, rob.Elements()) && e.request !in Requests(fs)
    ensures Tracked(rob.Push(e), robSlot[e.request := rob.head])
  {
    forall i: nat | i < rob.num ensures rob.Elements()[i].request != e.request {
      RobInFifo(g, fs, rob.Elements(), i);
    }
  }

  /** What the data for `mf` does to a reorder-buffer entry. */
  function FilledBy(r: RobEntry, mf: MemFetch, time: nat): RobEntry {
    if r.request == mf then r.(ready := true, time := time) else r
  }
}
