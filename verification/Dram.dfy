/** The DRAM controller: input queue, scheduler, banks, command engine and read/write queue, one cycle at a
time. Its invariant joins what the parts keep and what ties them together. */
module Dram {
  import opened DelayQueue
  import opened DramTiming
  import opened DramTransfer
  import opened FrFcfs
  import Bits

  // ----- Requests that wait

  ghost predicate Waits(t: Transfer, id: nat) {
    id in t.live && t.live[id].tx == 0 && !Held(t, id)
  }

  /** The scheduler queue of bank `b` holds waiting requests of that bank, newest first. */
  ghost predicate QueueOk(t: Transfer, b: nat, q: seq<Pending>) {
    && (forall i: nat :: i < |q| ==> Waits(t, q[i].id) && t.live[q[i].id].bank == b && t.live[q[i].id].row == q[i].row)
    && NewestFirst(q)
  }

  /** The input queue holds waiting requests, oldest first. */
  ghost predicate InputOk(t: Transfer, mrqq: seq<nat>) {
    && (forall i: nat :: i < |mrqq| ==> Waits(t, mrqq[i]))
    && (forall i: nat, k: nat :: i < k < |mrqq| ==> mrqq[i] < mrqq[k])
  }

  ghost predicate Newer(q: seq<Pending>, mrqq: seq<nat>) {
    forall i: nat, k: nat :: i < |q| && k < |mrqq| ==> q[i].id < mrqq[k]
  }

  ghost predicate InQueue(q: seq<Pending>, id: nat) {
    exists i: nat :: i < |q| && q[i].id == id
  }

  /** No request is lost: each is in the input queue, in the scheduler, in its bank or on its way out. */
  ghost predicate Accounted(t: Transfer, queues: seq<seq<Pending>>, mrqq: seq<nat>, id: nat)
    requires id in t.live
  {
    || t.live[id].tx > 0 || Held(t, id) || id in mrqq
    || (t.live[id].bank < |queues| && InQueue(queues[t.live[id].bank], id))
  }

  /** Requests of one bank to one row were handed over by age, and those still pending are younger. */
  ghost predicate ByAge(rows: map<nat, nat>, h: seq<nat>, q: seq<Pending>, mrqq: seq<nat>) {
    && (forall a: nat :: a < |h| ==> h[a] in rows)
    && (forall a: nat, c: nat :: a < c < |h| && rows[h[a]] == rows[h[c]] ==> h[a] < h[c])
    && (forall a: nat, i: nat :: a < |h| && i < |q| && rows[h[a]] == q[i].row ==> h[a] < q[i].id)
    && (forall a: nat, k: nat :: a < |h| && k < |mrqq| ==> h[a] < mrqq[k])
  }

  ghost predicate NewestFirst(q: seq<Pending>) {
    forall i: nat, k: nat :: i < k < |q| ==> q[i].id > q[k].id
  }

  /** What is left of a queue without the oldest request to a row. */
  lemma RestOfQueue(q: seq<Pending>, q': seq<Pending>, r: Pending)
    requires NewestFirst(q) && WithoutOldest(q, q', r)
    ensures NewestFirst(q') && r in q
    ensures forall i: nat :: i < |q'| ==> q'[i] in q && q'[i].id != r.id && (q'[i].row == r.row ==> q'[i].id > r.id)
    ensures forall i: nat :: i < |q| ==> q[i] == r || q[i] in q'
  {
    var k: nat :| k < |q| && OldestAt(q, k, r) && q' == q[..k] + q[k + 1..];
    RemovedAt(q, q', k);
  }

  lemma RemovedAt(q: seq<Pending>, q': seq<Pending>, k: nat)
    requires k < |q| && q' == q[..k] + q[k + 1..]
    ensures |q'| == |q| - 1 && forall i: nat :: i < |q'| ==> q'[i] == q[if i < k then i else i + 1]
    ensures forall i: nat :: i < |q| && i != k ==> q[i] in q'
  {
    forall i: nat | i < |q| && i != k ensures q[i] in q' {
      assert q'[if i < k then i else i - 1] == q[i];
    }
  }

  /** Handing over the oldest request to a row keeps the requests of that row in order of age. */
  lemma HandByAge(rows: map<nat, nat>, h: seq<nat>, q: seq<Pending>, q': seq<Pending>, mrqq: seq<nat>, r: Pending)
    requires ByAge(rows, h, q, mrqq) && Newer(q, mrqq) && NewestFirst(q) && WithoutOldest(q, q', r)
    requires r.id in rows && rows[r.id] == r.row
    ensures ByAge(rows, h + [r.id], q', mrqq) && Newer(q', mrqq)
  {
    RestOfQueue(q, q', r);
    hide WithoutOldest, NewestFirst;
    OlderThan(rows, h, q, mrqq, r);
    forall i: nat | i < |q'|
      ensures q'[i] in q && forall a: nat :: a < |h| && rows[h[a]] == q'[i].row ==> h[a] < q'[i].id
      ensures forall k: nat :: k < |mrqq| ==> q'[i].id < mrqq[k]
    {
      OlderThan(rows, h, q, mrqq, q'[i]);
    }
    HandRow(rows, h, mrqq, r, q');
  }

  /** A pending request is younger than those of its row handed over, and older than the input queue. */
  lemma OlderThan(rows: map<nat, nat>, h: seq<nat>, q: seq<Pending>, mrqq: seq<nat>, x: Pending)
    requires ByAge(rows, h, q, mrqq) && Newer(q, mrqq) && x in q
    ensures forall a: nat :: a < |h| && rows[h[a]] == x.row ==> h[a] < x.id
    ensures forall k: nat :: k < |mrqq| ==> x.id < mrqq[k]
  {
    var m: nat :| m < |q| && q[m] == x;
  }

  lemma HandRow(rows: map<nat, nat>, h: seq<nat>, mrqq: seq<nat>, r: Pending, q: seq<Pending>)
    requires ByAge(rows, h, [], mrqq) && r.id in rows && rows[r.id] == r.row
    requires forall a: nat :: a < |h| && rows[h[a]] == r.row ==> h[a] < r.id
    requires forall k: nat :: k < |mrqq| ==> r.id < mrqq[k]
    requires forall i: nat, a: nat :: i < |q| && a < |h| && rows[h[a]] == q[i].row ==> h[a] < q[i].id
    requires forall i: nat :: i < |q| ==> q[i].id != r.id && (q[i].row == r.row ==> q[i].id > r.id)
    ensures ByAge(rows, h + [r.id], q, mrqq)
  {
  }

  // ----- The flow of requests through the controller

  /** What holds for one bank. */
  ghost predicate BankFlow(t: Transfer, j: nat, q: seq<Pending>, mrqq: seq<nat>, rows: map<nat, nat>)
    requires j < |t.handed| == |t.finished|
  {
    Ordered(t, j) && QueueOk(t, j, q) && Newer(q, mrqq) && ByAge(rows, t.handed[j], q, mrqq)
  }

  /** Bytes are conserved, no request is lost, and every bank's requests are in order; `rows` remembers the row
      of every request that ever arrived, numbered below `arrived`. */
  ghost predicate Flow(atom: nat, t: Transfer, queues: seq<seq<Pending>>, mrqq: seq<nat>, rows: map<nat, nat>,
                       arrived: nat) {
    && Conserved(t, atom) && atom > 0 && |queues| == |t.held|
    && (forall j: nat :: j < |t.held| ==> BankFlow(t, j, queues[j], mrqq, rows))
    && InputOk(t, mrqq)
    && (forall id: nat :: id in t.live ==> Accounted(t, queues, mrqq, id) && id in rows && rows[id] == t.live[id].row)
    && (forall id: nat :: id in rows ==> id < arrived)
  }

  /** A newcomer is younger than all. */
  lemma ArriveAge(t: Transfer, j: nat, q: seq<Pending>, mrqq: seq<nat>, rows: map<nat, nat>, arrived: nat, row: nat)
    requires j < |t.handed| && ByAge(rows, t.handed[j], q, mrqq) && Newer(q, mrqq)
    requires forall id: nat :: id in rows ==> id < arrived
    requires forall i: nat :: i < |q| ==> q[i].id in rows
    ensures ByAge(rows[arrived := row], t.handed[j], q, mrqq + [arrived]) && Newer(q, mrqq + [arrived])
    ensures arrived !in t.handed[j]
  {
  }

  /** A newcomer waits, and the others wait and are held as before. */
  lemma ArriveWaits(t: Transfer, atom: nat, id: nat, bank: nat, row: nat, write: bool, reply: bool, nbytes: nat)
    requires Conserved(t, atom) && id !in t.live
    ensures var t' := Arrive(t, id, bank, row, write, reply, nbytes);
      StillWaits(t, t') && Waits(t', id) && forall k: nat :: k in t.live ==> (Held(t', k) <==> Held(t, k))
  {
    hide Conserves, Held;
    ArriveHeld(t, id, bank, row, write, reply, nbytes);
  }

  lemma ArriveHeld(t: Transfer, id: nat, bank: nat, row: nat, write: bool, reply: bool, nbytes: nat)
    requires id !in t.live && forall b: nat :: b < |t.held| && t.held[b].Item? ==> t.held[b].item in t.live
    ensures var t' := Arrive(t, id, bank, row, write, reply, nbytes);
      !Held(t', id) && forall k: nat :: k in t.live ==> (Held(t', k) <==> Held(t, k))
  {
  }

  lemma ArriveFlow(atom: nat, t: Transfer, queues: seq<seq<Pending>>, mrqq: seq<nat>, rows: map<nat, nat>, arrived: nat,
                   bank: nat, row: nat, write: bool, reply: bool, nbytes: nat)
    requires Flow(atom, t, queues, mrqq, rows, arrived) && bank < |t.held|
    ensures arrived !in t.live
    ensures Flow(atom, Arrive(t, arrived, bank, row, write, reply, nbytes), queues, mrqq + [arrived],
                 rows[arrived := row], arrived + 1)
  {
    hide Conserves, Ordered;
    var t', mrqq', rows' := Arrive(t, arrived, bank, row, write, reply, nbytes), mrqq + [arrived], rows[arrived := row];
    ArriveConserved(t, atom, arrived, bank, row, write, reply, nbytes);
    ArriveWaits(t, atom, arrived, bank, row, write, reply, nbytes);
    hide Conserved, Held, Waits, StillWaits, ByAge, Newer;
    KeepQueues(t, t', 0, [], mrqq);
    forall j: nat | j < |t.held| ensures BankFlow(t', j, queues[j], mrqq', rows') {
      hide QueueOk;
      assert BankFlow(t, j, queues[j], mrqq, rows);
      KeepQueues(t, t', j, queues[j], mrqq);
      ArriveAge(t, j, queues[j], mrqq, rows, arrived, row);
      ArriveOrdered(t, atom, arrived, bank, row, write, reply, nbytes, j);
    }
    forall id: nat | id in t'.live ensures Accounted(t', queues, mrqq', id) {
      if id != arrived {
        assert Accounted(t, queues, mrqq, id);
      }
    }
  }

  /** The oldest request of the input queue moves to the scheduler queue of its bank. */
  lemma DrainFlow(atom: nat, t: Transfer, queues: seq<seq<Pending>>, mrqq: seq<nat>, rows: map<nat, nat>, arrived: nat)
    requires Flow(atom, t, queues, mrqq, rows, arrived) && mrqq != []
    ensures mrqq[0] in t.live && t.live[mrqq[0]].bank < |queues|
    ensures var r := t.live[mrqq[0]];
      Flow(atom, t, queues[r.bank := [Pending(mrqq[0], r.row)] + queues[r.bank]], mrqq[1..], rows, arrived)
  {
    hide Conserves, Ordered, Held, QueueOk, ByAge, Newer, Accounted;
    assert Waits(t, mrqq[0]);
    var r, e := t.live[mrqq[0]], Pending(mrqq[0], t.live[mrqq[0]].row);
    var queues', mrqq' := queues[r.bank := [e] + queues[r.bank]], mrqq[1..];
    forall j: nat | j < |t.held| ensures BankFlow(t, j, queues'[j], mrqq', rows) {
      assert BankFlow(t, j, queues[j], mrqq, rows);
      DrainBank(t, j, queues[j], mrqq, rows);
    }
    forall id: nat | id in t.live ensures Accounted(t, queues', mrqq', id) {
      DrainAccounted(t, queues, mrqq, id);
    }
  }

  /** The scheduler queue of a bank, with or without the request that arrives. */
  lemma DrainBank(t: Transfer, j: nat, q: seq<Pending>, mrqq: seq<nat>, rows: map<nat, nat>)
    requires j < |t.handed| == |t.finished| && BankFlow(t, j, q, mrqq, rows) && mrqq != [] && Waits(t, mrqq[0])
    requires (forall k: nat :: 0 < k < |mrqq| ==> mrqq[0] < mrqq[k]) && mrqq[0] in rows
    requires rows[mrqq[0]] == t.live[mrqq[0]].row
    ensures BankFlow(t, j, q, mrqq[1..], rows)
    ensures t.live[mrqq[0]].bank == j ==> BankFlow(t, j, [Pending(mrqq[0], t.live[mrqq[0]].row)] + q, mrqq[1..], rows)
  {
    hide Ordered, Waits;
  }

  lemma DrainAccounted(t: Transfer, queues: seq<seq<Pending>>, mrqq: seq<nat>, id: nat)
    requires mrqq != [] && mrqq[0] in t.live && t.live[mrqq[0]].bank < |queues| && id in t.live
    requires Accounted(t, queues, mrqq, id)
    ensures var r := t.live[mrqq[0]];
      Accounted(t, queues[r.bank := [Pending(mrqq[0], r.row)] + queues[r.bank]], mrqq[1..], id)
  {
    hide Held;
    var r := t.live[mrqq[0]];
    var q := [Pending(mrqq[0], r.row)] + queues[r.bank];
    if id == mrqq[0] {
      assert q[0].id == id;
    } else if t.live[id].bank == r.bank && InQueue(queues[r.bank], id) {
      var i: nat :| i < |queues[r.bank]| && queues[r.bank][i].id == id;
      assert q[i + 1].id == id;
    }
  }

  lemma HandFlow(atom: nat, t: Transfer, queues: seq<seq<Pending>>, mrqq: seq<nat>, rows: map<nat, nat>, arrived: nat,
                 b: nat, q': seq<Pending>, r: Pending)
    requires Flow(atom, t, queues, mrqq, rows, arrived)
    requires b < |t.held| && t.held[b].Empty? && WithoutOldest(queues[b], q', r)
    ensures Waits(t, r.id) && t.live[r.id].bank == b && t.live[r.id].row == r.row
    ensures Flow(atom, Hand(t, b, r.id), queues[b := q'], mrqq, rows, arrived)
  {
    hide Conserves, Ordered, WithoutOldest, ByAge, Newer, Accounted;
    var t', queues' := Hand(t, b, r.id), queues[b := q'];
    assert BankFlow(t, b, queues[b], mrqq, rows);
    RestOfQueue(queues[b], q', r);
    var n: nat :| n < |queues[b]| && queues[b][n] == r;
    assert Waits(t, r.id) && t.live[r.id].bank == b && t.live[r.id].row == r.row;
    HandConserved(t, atom, b, r.id);
    hide QueueOk;
    forall j: nat | j < |t.held| ensures BankFlow(t', j, queues'[j], mrqq, rows) {
      assert BankFlow(t, j, queues[j], mrqq, rows);
      HandOrdered(t, atom, b, r.id, j);
      HandQueue(t, t', b, r, j, queues[j], queues'[j]);
      if j == b {
        HandByAge(rows, t.handed[b], queues[b], q', mrqq, r);
      }
    }
    forall id: nat | id in t'.live ensures Accounted(t', queues', mrqq, id) {
      HandAccounted(t, queues, mrqq, b, q', r, id);
    }
    forall i: nat | i < |mrqq| ensures Waits(t', mrqq[i]) {
      assert Waits(t, mrqq[i]);
      assert mrqq[i] != r.id by {
        assert Newer(queues[b], mrqq);
        NewerDiffers(queues[b], mrqq, n, i);
      }
    }
  }

  lemma NewerDiffers(q: seq<Pending>, mrqq: seq<nat>, n: nat, i: nat)
    requires Newer(q, mrqq) && n < |q| && i < |mrqq|
    ensures mrqq[i] != q[n].id
  {
  }

  lemma HandHeld(t: Transfer, b: nat, id: nat, k: nat)
    requires b < |t.held| == |t.handed| && t.held[b].Empty? && k in t.live && id in t.live && t.live[id].bank == b
    ensures Held(t, k) ==> Held(Hand(t, b, id), k)
    ensures Held(Hand(t, b, id), id)
  {
  }

  lemma HandAccounted(t: Transfer, queues: seq<seq<Pending>>, mrqq: seq<nat>, b: nat, q': seq<Pending>, r: Pending,
                      id: nat)
    requires b < |queues| == |t.held| == |t.handed| && NewestFirst(queues[b]) && WithoutOldest(queues[b], q', r)
    requires id in t.live && Accounted(t, queues, mrqq, id) && t.held[b].Empty? && Waits(t, r.id)
    requires t.live[r.id].bank == b
    ensures Accounted(Hand(t, b, r.id), queues[b := q'], mrqq, id)
  {
    RestOfQueue(queues[b], q', r);
    HandHeld(t, b, r.id, id);
    hide WithoutOldest, Held, Waits, NewestFirst;
    if id != r.id && t.live[id].bank == b && InQueue(queues[b], id) {
      var i: nat :| i < |queues[b]| && queues[b][i].id == id;
      var m: nat :| m < |q'| && q'[m] == queues[b][i];
    }
  }

  lemma HandQueue(t: Transfer, t': Transfer, b: nat, r: Pending, j: nat, q: seq<Pending>, q': seq<Pending>)
    requires QueueOk(t, j, q) && b < |t.held| == |t.handed| && t' == Hand(t, b, r.id)
    requires if j == b then WithoutOldest(q, q', r) else q' == q
    requires Waits(t, r.id) && t.live[r.id].bank == b
    ensures QueueOk(t', j, q')
  {
    if j == b {
      RestOfQueue(q, q', r);
    }
    hide WithoutOldest;
    forall i: nat | i < |q'|
      ensures Waits(t', q'[i].id) && t'.live[q'[i].id].bank == j && t'.live[q'[i].id].row == q'[i].row
    {
      var m: nat :| m < |q| && q[m] == q'[i];
      assert Waits(t, q[m].id);
    }
  }

  /** Waiting requests go on waiting. */
  ghost predicate StillWaits(t: Transfer, t': Transfer) {
    forall k: nat :: Waits(t, k) ==>
        Waits(t', k) && t'.live[k].bank == t.live[k].bank && t'.live[k].row == t.live[k].row
  }

  lemma KeepQueues(t: Transfer, t': Transfer, j: nat, q: seq<Pending>, mrqq: seq<nat>)
    requires StillWaits(t, t')
    ensures QueueOk(t, j, q) ==> QueueOk(t', j, q)
    ensures InputOk(t, mrqq) ==> InputOk(t', mrqq)
  {
    hide NewestFirst, Waits;
  }

  lemma KeepAccounted(t: Transfer, t': Transfer, queues: seq<seq<Pending>>, mrqq: seq<nat>, k: nat)
    requires k in t.live && k in t'.live && Accounted(t, queues, mrqq, k) && t'.live[k].bank == t.live[k].bank
    requires t.live[k].tx > 0 || Held(t, k) ==> t'.live[k].tx > 0 || Held(t', k)
    ensures Accounted(t', queues, mrqq, k)
  {
    hide InQueue, Held;
  }

  /** The effect of an operation on requests other than the one it moves. */
  ghost predicate OthersKept(t: Transfer, t': Transfer) {
    && StillWaits(t, t')
    && (forall k: nat :: k in t'.live ==>
          && k in t.live && t'.live[k].bank == t.live[k].bank && t'.live[k].row == t.live[k].row
          && (t.live[k].tx > 0 || Held(t, k) ==> t'.live[k].tx > 0 || Held(t', k)))
  }

  lemma BeatOthers(t: Transfer, atom: nat, b: nat)
    requires Conserved(t, atom) && atom > 0 && b < |t.held| && t.held[b].Item?
    ensures OthersKept(t, Beat(t, atom, b))
  {
    var id := t.held[b].item;
    assert Held(t, id);
    assert forall k: nat :: k in t.live && k != id ==> (Held(Beat(t, atom, b), k) <==> Held(t, k));
  }

  lemma RetireOthers(t: Transfer, atom: nat)
    requires Conserved(t, atom) && atom > 0 && t.rwq != []
    ensures OthersKept(t, Retire(t, atom))
  {
    hide Conserves, Held;
    SentBefore(t, atom);
    RetireHeld(t, atom);
  }

  /** An operation that hands nothing over keeps the flow if it keeps conservation and order. */
  lemma MoveFlow(atom: nat, t: Transfer, t': Transfer, queues: seq<seq<Pending>>, mrqq: seq<nat>, rows: map<nat, nat>,
                 arrived: nat)
    requires Flow(atom, t, queues, mrqq, rows, arrived) && Conserved(t', atom) && OthersKept(t, t')
    requires |t'.held| == |t.held| && t'.handed == t.handed && forall j: nat :: j < |t'.held| ==> Ordered(t', j)
    ensures Flow(atom, t', queues, mrqq, rows, arrived)
  {
    hide Ordered, Conserves, QueueOk, InputOk, ByAge, Newer, Accounted, Held;
    KeepQueues(t, t', 0, [], mrqq);
    forall j: nat | j < |t.held| ensures BankFlow(t', j, queues[j], mrqq, rows) {
      assert BankFlow(t, j, queues[j], mrqq, rows);
      KeepQueues(t, t', j, queues[j], mrqq);
    }
    forall k: nat | k in t'.live ensures Accounted(t', queues, mrqq, k) {
      KeepAccounted(t, t', queues, mrqq, k);
    }
  }

  lemma BeatFlow(atom: nat, t: Transfer, queues: seq<seq<Pending>>, mrqq: seq<nat>, rows: map<nat, nat>, arrived: nat,
                 b: nat)
    requires Flow(atom, t, queues, mrqq, rows, arrived) && b < |t.held| && t.held[b].Item?
    ensures Flow(atom, Beat(t, atom, b), queues, mrqq, rows, arrived)
  {
    hide Ordered, Conserves, OthersKept;
    BeatConserved(t, atom, b);
    BeatOthers(t, atom, b);
    forall j: nat | j < |t.held| ensures Ordered(Beat(t, atom, b), j) {
      assert BankFlow(t, j, queues[j], mrqq, rows);
      BeatOrdered(t, atom, b, j);
    }
    MoveFlow(atom, t, Beat(t, atom, b), queues, mrqq, rows, arrived);
  }

  lemma RetireFlow(atom: nat, t: Transfer, queues: seq<seq<Pending>>, mrqq: seq<nat>, rows: map<nat, nat>, arrived: nat)
    requires Flow(atom, t, queues, mrqq, rows, arrived) && t.rwq != []
    ensures Flow(atom, Retire(t, atom), queues, mrqq, rows, arrived)
  {
    hide Ordered, Conserves, OthersKept;
    RetireConserved(t, atom);
    RetireOthers(t, atom);
    forall j: nat | j < |t.held| ensures Ordered(Retire(t, atom), j) {
      assert BankFlow(t, j, queues[j], mrqq, rows);
      RetireOrdered(t, atom, j);
    }
    MoveFlow(atom, t, Retire(t, atom), queues, mrqq, rows, arrived);
  }

  /** Requests of one bank to one row finish in the order in which they arrived. */
  lemma FinishByAge(atom: nat, t: Transfer, queues: seq<seq<Pending>>, mrqq: seq<nat>, rows: map<nat, nat>,
                    arrived: nat,
                    j: nat, a: nat, c: nat)
    requires Flow(atom, t, queues, mrqq, rows, arrived) && j < |t.finished| && a < c < |t.finished[j]|
    ensures t.finished[j][a] in rows && t.finished[j][c] in rows
    ensures rows[t.finished[j][a]] == rows[t.finished[j][c]] ==> t.finished[j][a] < t.finished[j][c]
  {
    assert BankFlow(t, j, queues[j], mrqq, rows);
    assert t.finished[j][a] == t.handed[j][a] && t.finished[j][c] == t.handed[j][c];
  }

  // ----- The controller

  /** A bank that still serves a row, and holds no request, has that row open. */
  ghost predicate ServesOpenRow(t: Transfer, banks: seq<Bank>, last: seq<RowPointer>, b: nat)
    requires b < |banks| && b < |last| && b < |t.held|
  {
    last[b].AtRow? ==>
      if t.held[b].Item? then t.held[b].item in t.live && t.live[t.held[b].item].row == last[b].row
      else banks[b].row == last[b].row
  }

  ghost predicate AllServe(t: Transfer, banks: seq<Bank>, last: seq<RowPointer>) {
    |banks| == |last| == |t.held| && forall b: nat :: b < |banks| ==> ServesOpenRow(t, banks, last, b)
  }

  class Controller {
    const p: Params
    const atom: nat
    const readLatency: nat
    const writeLatency: nat
    const queueSize: nat
    const rwq: Pipeline<nat>
    const sched: Scheduler
    var engine: Engine
    var live: map<nat, Request>
    var held: seq<Slot<nat>>
    var mrqq: seq<nat>
    var returnq: seq<nat>
    var writing: bool
    var prio: nat
    var nextId: nat

    ghost var handed: seq<seq<nat>>
    ghost var finished: seq<seq<nat>>
    ghost var rows: map<nat, nat>
    ghost var now: nat
    ghost var trace: seq<Cmd>

    ghost function View(): Transfer
      reads this, rwq
    {
      Transfer(live, Items(rwq.slots), held, handed, finished)
    }

    ghost predicate Valid()
      reads this, rwq, sched
    {
      && 0 < atom && 0 < queueSize && writeLatency <= readLatency
      && rwq.Valid() && rwq.maxLen == readLatency + 1
      && rwq.minLen == (if writing then writeLatency else readLatency)
      && OnTime(rwq.slots, rwq.stamps, now + 1)
      && sched.Valid() && sched.numBanks == p.numBanks == |held| && prio < p.numBanks
      && |engine.banks| == |sched.queue| == |sched.lastRow| == p.numBanks
      && |mrqq| <= 2 && |returnq| <= queueSize
      && Tracks(p, engine, now, trace)
      && Flow(atom, View(), sched.queue, mrqq, rows, nextId)
      && AllServe(View(), engine.banks, sched.lastRow)
    }

    /** For every atom of the read/write queue, oldest first, the earliest time at which it may leave. */
    ghost function DueTimes(): seq<nat>
      reads rwq
    {
      if |rwq.stamps| == |rwq.slots| then Dues(rwq.slots, rwq.stamps) else []
    }

    /** A cycle is about to begin: no command was issued in it yet, and no atom is ahead of its time. */
    ghost predicate AtStart()
      reads this, rwq
    {
      Idle(now, trace) && OnTime(rwq.slots, rwq.stamps, now)
    }

    constructor (params: Params, atomSize: nat, cl: nat, wl: nat, schedQueueSize: nat)
      requires params.Valid() && 0 < atomSize && 0 < schedQueueSize && wl <= cl
      ensures Valid() && AtStart() && fresh(rwq) && fresh(sched)
      ensures p == params && trace == [] && live == map[] && nextId == 0
    {
      hide Flow, Tracks, Scheduler.Valid, AllServe, Items;
      p, atom, readLatency, writeLatency, queueSize := params, atomSize, cl, wl, schedQueueSize;
      rwq := new Pipeline<nat>(cl, cl + 1);
      sched := new Scheduler(params.numBanks);
      engine := Reset(params);
      live, held, mrqq, returnq := map[], seq(params.numBanks, _ => Empty), [], [];
      writing, prio, nextId := false, 0, 0;
      handed, finished := seq(params.numBanks, _ => []), seq(params.numBanks, _ => []);
      rows, now, trace := map[], 0, [];
      new;
      NoItems(rwq.slots);
      EmptyFlow(p, atom, View(), sched.queue, sched.lastRow);
    }

    predicate Full()
      reads this, sched
    {
      sched.numPending >= queueSize || |mrqq| >= 2
    }

    /** A new request joins the input queue. */
    method Push(bank: nat, row: nat, write: bool, reply: bool, nbytes: nat)
      requires Valid() && AtStart() && !Full() && bank < p.numBanks
      modifies this`live, this`mrqq, this`nextId, this`rows
      ensures Valid() && AtStart()
      ensures View() == Arrive(old(View()), old(nextId), bank, row, write, reply, nbytes)
      ensures mrqq == old(mrqq) + [old(nextId)] && nextId == old(nextId) + 1
    {
      hide Flow, Tracks, Scheduler.Valid, AllServe;
      ArriveFlow(atom, View(), sched.queue, mrqq, rows, nextId, bank, row, write, reply, nbytes);
      ArriveServes(View(), engine.banks, sched.lastRow, nextId, bank, row, write, reply, nbytes);
      live := live[nextId := Request(bank, row, write, reply, nbytes, 0, 0)];
      mrqq := mrqq + [nextId];
      rows := rows[nextId := row];
      nextId := nextId + 1;
    }

    /** One slot leaves the read/write queue unless the return queue is full. If it carries an atom, that atom
        is counted; a request whose bytes are all out is gone, and answered if it asks for it. */
    method RetireOne() returns (out: Slot<nat>)
      requires Valid() && AtStart()
      modifies this`live, this`returnq, this`finished, rwq
      ensures Valid() && DueLeft(old(DueTimes()), DueTimes(), out, now)
      ensures old(|returnq| >= queueSize) ==> out.Empty?
      ensures old(|returnq| < queueSize && rwq.slots != []) ==> out == old(rwq.slots)[0]
      ensures View() == AfterRetire(old(View()), atom, out)
      ensures (out.Empty? ==> View() == old(View()) && returnq == old(returnq))
      ensures rwq.Full() == old(|returnq| >= queueSize && rwq.Full())
      ensures returnq == old(returnq) +
        if out.Item? && out.item in old(live) && old(live)[out.item].dq + atom >= old(live)[out.item].nbytes
           && old(live)[out.item].reply then [out.item] else []
      ensures out.Item? ==> Retired(old(View()), old(returnq), View(), returnq, atom, out.item)
    {
      hide Flow, Tracks, Scheduler.Valid, AllServe, Retire, Items, Dues, OnTime, DueTimes;
      if |returnq| >= queueSize {
        return Empty;
      }
      ghost var t := View();
      out := PopSlot();
      if out.Item? {
        assert t.rwq == [out.item] + Items(rwq.slots) && t.rwq[0] == out.item;
        FlowFacts(atom, t, sched.queue, mrqq, rows, nextId);
        RetireFlow(atom, t, sched.queue, mrqq, rows, nextId);
        RetireServes(t, atom, engine.banks, sched.lastRow, sched.queue, mrqq, rows, nextId);
        CountAtom(out.item, t);
      }
    }

    /** Takes the oldest slot out of the read/write queue. */
    method PopSlot() returns (out: Slot<nat>)
      requires rwq.Valid() && OnTime(rwq.slots, rwq.stamps, now)
      modifies rwq
      ensures rwq.Valid() && rwq.minLen == old(rwq.minLen) && OnTime(rwq.slots, rwq.stamps, now + 1)
      ensures DueLeft(old(DueTimes()), DueTimes(), out, now)
      ensures Items(old(rwq.slots)) == if out.Item? then [out.item] + Items(rwq.slots) else Items(rwq.slots)
      ensures old(rwq.slots) != [] ==> out == old(rwq.slots)[0]
      ensures rwq.minLen < rwq.maxLen ==> !rwq.Full()
    {
      out := rwq.Pop();
      if out.Item? {
        assert old(DueTimes())[1..] == DueTimes();
      } else {
        assert [] + Items(rwq.slots) == Items(rwq.slots) && [] + DueTimes() == DueTimes();
      }
    }

    /** Counts an atom of request `id` that has left the read/write queue. */
    method CountAtom(id: nat, ghost t: Transfer)
      requires t.rwq == [id] + Items(rwq.slots) && t == Transfer(live, t.rwq, held, handed, finished)
      requires id in live && live[id].bank < |finished|
      modifies this`live, this`returnq, this`finished
      ensures Retired(t, old(returnq), View(), returnq, atom, id)
      ensures |returnq| <= |old(returnq)| + 1
    {
      assert t.rwq[1..] == Items(rwq.slots);
      var r := live[id].(dq := live[id].dq + atom);
      if r.dq >= r.nbytes {
        if r.reply {
          returnq := returnq + [id];
        }
        finished := finished[r.bank := finished[r.bank] + [id]];
        live := live - {id};
      } else {
        live := live[id := r];
      }
    }

    /** Moves requests from the input queue to the scheduler while it has room. */
    method DrainInput()
      requires Valid()
      modifies this`mrqq, sched
      ensures Valid() && sched.lastRow == old(sched.lastRow) && View() == old(View())
      ensures mrqq == [] || sched.numPending >= queueSize
      ensures |mrqq| <= |old(mrqq)| && mrqq == old(mrqq)[|old(mrqq)| - |mrqq|..]
      ensures sched.queue == Drained(old(sched.queue), old(mrqq)[..|old(mrqq)| - |mrqq|], live)
    {
      hide Valid, Enqueued;
      ghost var k := 0;
      while mrqq != [] && sched.numPending < queueSize
        invariant Valid() && sched.lastRow == old(sched.lastRow) && View() == old(View())
        invariant k <= |old(mrqq)| && mrqq == old(mrqq)[k..]
        invariant sched.queue == Drained(old(sched.queue), old(mrqq)[..k], live)
        decreases |mrqq|
      {
        DrainOne();
        k := k + 1;
        assert old(mrqq)[..k][..k - 1] == old(mrqq)[..k - 1];
      }
    }

    /** The oldest request of the input queue becomes the newest of its bank in the scheduler. */
    method DrainOne()
      requires Valid() && mrqq != []
      modifies this`mrqq, sched
      ensures Valid() && sched.lastRow == old(sched.lastRow) && View() == old(View()) && mrqq == old(mrqq)[1..]
      ensures sched.numPending == old(sched.numPending) + 1
      ensures sched.queue == Enqueued(old(sched.queue), old(mrqq)[0], live)
    {
      hide Flow, Tracks, AllServe, Scheduler.Valid;
      SchedulerShape();
      DrainFlow(atom, View(), sched.queue, mrqq, rows, nextId);
      var id := mrqq[0];
      sched.AddReq(live[id].bank, Pending(id, live[id].row));
      mrqq := mrqq[1..];
    }

    lemma SchedulerShape()
      requires Valid()
      ensures |sched.queue| == |sched.bins| == |sched.lastRow| == p.numBanks
      ensures forall b: nat :: b < p.numBanks ==> Indexed(sched.queue[b], sched.bins[b])
      ensures forall b: nat :: b < p.numBanks && sched.lastRow[b].AtRow? ==> sched.lastRow[b].row in sched.bins[b]
    {
    }

    /** At most one free bank gets a request: the oldest pending one to its open row if there is one, else its
        oldest pending one. */
    method HandOne() returns (bank: nat, c: Choice)
      requires Valid()
      modifies this`held, this`prio, this`handed, sched
      ensures Valid() && |held| == |sched.queue| == |engine.banks| == p.numBanks
      ensures sched.numPending + 1 >= old(sched.numPending)
      ensures View() == AfterHand(old(View()), bank, c)
      ensures c.None? ==> View() == old(View()) && sched.queue == old(sched.queue) && NoneWaits(held, sched.queue)
      ensures c.Chosen? ==>
        && bank < p.numBanks && old(held)[bank].Empty? && View() == Hand(old(View()), bank, c.req.id)
        && bank < |old(sched.queue)| && HandedOver(old(sched.queue), sched.queue, bank, c.req)
        && (forall i: nat ::
              i < |old(sched.queue)[bank]| && old(sched.queue)[bank][i].row == engine.banks[bank].row ==>
                c.req.row == engine.banks[bank].row)
        && (c.req.row != engine.banks[bank].row ==> Last(old(sched.queue)[bank], c.req))
        && FirstServed(old(held), old(sched.queue), old(prio), bank)
      ensures prio == if c.Chosen? then Turn(1, old(prio), p.numBanks) else old(prio)
    {
      hide Flow, Tracks, AllServe, ServesOpenRow, Scheduler.Valid, HandedOver, FirstServed, Last;
      bank, c := 0, None;
      for i := 0 to p.numBanks
        invariant Valid() && View() == old(View()) && sched.queue == old(sched.queue) && prio == old(prio) && c.None?
        invariant sched.numPending == old(sched.numPending)
        invariant forall k: nat :: k < i && held[Turn(k, prio, p.numBanks)].Empty? ==>
            sched.queue[Turn(k, prio, p.numBanks)] == []
      {
        var b := Turn(i, prio, p.numBanks);
        if held[b].Empty? {
          InTurn(old(held), old(sched.queue), prio, i);
          c := HandTo(b);
          if c.Chosen? {
            prio := Turn(1, prio, p.numBanks);
            return b, c;
          }
        }
      }
      AllBanks(p.numBanks, prio, held, sched.queue);
    }

    method HandTo(b: nat) returns (c: Choice)
      requires Valid() && b < p.numBanks && held[b].Empty?
      modifies this`held, this`handed, sched
      ensures Valid() && sched.numPending == old(sched.numPending) - if c.Chosen? then 1 else 0
      ensures View() == AfterHand(old(View()), b, c)
      ensures c.None? ==> View() == old(View()) && sched.queue == old(sched.queue) && sched.queue[b] == []
      ensures c.Chosen? ==>
        && View() == Hand(old(View()), b, c.req.id) && HandedOver(old(sched.queue), sched.queue, b, c.req)
        && (forall i: nat :: i < |old(sched.queue)[b]| && old(sched.queue)[b][i].row == engine.banks[b].row ==>
              c.req.row == engine.banks[b].row)
        && (c.req.row != engine.banks[b].row ==> Last(old(sched.queue)[b], c.req))
    {
      hide Flow, Tracks, AllServe, WithoutOldest, Indexed, Scheduler.Valid;
      ghost var t, queues, last := View(), sched.queue, sched.lastRow;
      SchedulerShape();
      ghost var bins := sched.bins[b];
      c := sched.Schedule(b, engine.banks[b].row);
      if c.Chosen? {
        FlowFacts(atom, t, queues, mrqq, rows, nextId);
        HandFlow(atom, t, queues, mrqq, rows, nextId, b, sched.queue[b], c.req);
        IndexedRow(queues[b], bins);
        HandServes(t, engine.banks, last, sched.lastRow, b, c.req, queues[b]);
        ServedIsPreferred(queues[b], sched.queue[b], c.req, engine.banks[b].row);
        held := held[b := Item(c.req.id)];
        handed := handed[b := handed[b] + [c.req.id]];
      }
    }

    /** Bank `j`, which holds a request, issues a command for it if one is ready. */
    method TryBank(j: nat) returns (cmd: Issued)
      requires Valid() && Idle(now, trace) && j < p.numBanks && held[j].Item?
      modifies this`engine, this`live, this`held, this`writing, this`prio, this`trace, rwq
      ensures Valid()
      ensures cmd.NoCommand? ==>
        && trace == old(trace) && View() == old(View()) && engine == old(engine) && prio == old(prio)
        && rwq.Full() == old(rwq.Full()) && Blocked(p, trace, now, View(), rwq.Full(), j)
      ensures cmd.Command? ==> Offered(p, old(trace), now, old(View()), old(rwq.Full()), cmd.kind, j)
      ensures prio == if cmd == Command(ACT) || cmd == Command(PRE) then Turn(1, j, p.numBanks) else old(prio)
      ensures DueTimes() == old(DueTimes()) + NewDues(cmd, now, readLatency, writeLatency)
      ensures cmd.Command? ==>
          Executed(old(View()), old(engine), old(trace), View(), engine, trace, p, atom, now, cmd.kind, j)
    {
      hide Flow, Tracks, AllServe, Scheduler.Valid, Ready, Fire, Executed, DueTimes, Usable, Idle;
      FlowFacts(atom, View(), sched.queue, mrqq, rows, nextId);
      assert Shape(p, engine) by { TracksShape(p, engine, now, trace); }
      ChooseIff(p, engine, now, trace, j, live[held[j].item], rwq.Full());
      cmd := Choose(p, engine, j, live[held[j].item], rwq.Full());
      if cmd.Command? {
        Execute(j, cmd.kind);
      }
    }

    /** Issues a command that is ready, and moves an atom to the read/write queue if it is a read or a write. */
    method Execute(j: nat, kind: Kind)
      requires Valid() && Idle(now, trace) && j < p.numBanks && held[j].Item? && held[j].item in live
      requires Shape(p, engine)
      requires Ready(p, engine, kind, j, live[held[j].item].row) && (kind == RD || kind == WR ==> !rwq.Full())
      modifies this`engine, this`live, this`held, this`writing, this`prio, this`trace, rwq
      ensures Valid() && Executed(old(View()), old(engine), old(trace), View(), engine, trace, p, atom, now, kind, j)
      ensures DueTimes() == old(DueTimes()) + NewDues(Command(kind), now, readLatency, writeLatency)
      ensures prio == if kind == ACT || kind == PRE then Turn(1, j, p.numBanks) else old(prio)
    {
      hide Valid, Ready, Executed, DueTimes, Idle;
      if kind == RD || kind == WR {
        UseRow(j, kind);
      } else {
        SwitchRow(j, kind);
      }
    }

    /** A column command: an atom moves to the read/write queue. */
    method UseRow(j: nat, kind: Kind)
      requires Valid() && Idle(now, trace) && j < p.numBanks && held[j].Item? && held[j].item in live
      requires Shape(p, engine) && (kind == RD || kind == WR) && !rwq.Full()
      requires Ready(p, engine, kind, j, live[held[j].item].row)
      modifies this`engine, this`live, this`held, this`writing, this`trace, rwq
      ensures Valid() && Executed(old(View()), old(engine), old(trace), View(), engine, trace, p, atom, now, kind, j)
      ensures DueTimes() == old(DueTimes()) + NewDues(Command(kind), now, readLatency, writeLatency)
    {
      hide Flow, Tracks, AllServe, Scheduler.Valid, Ready, Fire, OnTime, DueTimes, Items, LoggedRow;
      var r := live[held[j].item];
      FireTracks(p, engine, now, trace, kind, j, r.row);
      FireServes(View(), p, engine, sched.lastRow, kind, j, r.row, atom);
      BeatFlow(atom, View(), sched.queue, mrqq, rows, nextId, j);
      MoveAtom(j, kind == WR);
      trace := trace + [Cmd(now, kind, j, LoggedRow(engine, kind, j, r.row))];
      engine := Fire(p, engine, kind, j, r.row);
    }

    /** A row command: the next turn goes to the next bank. */
    method SwitchRow(j: nat, kind: Kind)
      requires Valid() && Idle(now, trace) && j < p.numBanks && held[j].Item? && held[j].item in live
      requires Shape(p, engine) && (kind == ACT || kind == PRE)
      requires Ready(p, engine, kind, j, live[held[j].item].row)
      modifies this`engine, this`prio, this`trace
      ensures Valid() && Executed(old(View()), old(engine), old(trace), View(), engine, trace, p, atom, now, kind, j)
      ensures prio == Turn(1, j, p.numBanks)
    {
      hide Flow, Tracks, AllServe, Scheduler.Valid, Ready, Fire, OnTime, DueTimes, Items, LoggedRow;
      var r := live[held[j].item];
      FireTracks(p, engine, now, trace, kind, j, r.row);
      FireServes(View(), p, engine, sched.lastRow, kind, j, r.row, atom);
      prio := Turn(1, j, p.numBanks);
      trace := trace + [Cmd(now, kind, j, LoggedRow(engine, kind, j, r.row))];
      engine := Fire(p, engine, kind, j, r.row);
    }

    /** Turns the bus if need be, and sends one atom. */
    method MoveAtom(j: nat, write: bool)
      requires rwq.Valid() && !rwq.Full() && rwq.maxLen == readLatency + 1 && writeLatency <= readLatency
      requires rwq.minLen == (if writing then writeLatency else readLatency)
      requires j < |held| && held[j].Item? && held[j].item in live && OnTime(rwq.slots, rwq.stamps, now + 1)
      modifies this`live, this`held, this`writing, rwq
      ensures rwq.Valid() && writing == write && rwq.minLen == (if writing then writeLatency else readLatency)
      ensures View() == Beat(old(View()), atom, j) && OnTime(rwq.slots, rwq.stamps, now + 1)
      ensures DueTimes() == old(DueTimes()) + [now + if write then writeLatency else readLatency]
    {
      hide OnTime, Dues;
      TurnBus(write);
      SendAtom(j);
    }

    /** Switches the data bus between reading and writing, and the read/write queue to the latency of its new use. */
    method TurnBus(write: bool)
      requires rwq.Valid() && !rwq.Full() && rwq.maxLen == readLatency + 1 && writeLatency <= readLatency
      requires rwq.minLen == (if writing then writeLatency else readLatency)
      requires OnTime(rwq.slots, rwq.stamps, now + 1)
      modifies this`writing, rwq
      ensures rwq.Valid() && !rwq.Full() && writing == write && OnTime(rwq.slots, rwq.stamps, now + 1)
      ensures DueTimes() == old(DueTimes())
      ensures rwq.minLen == (if writing then writeLatency else readLatency)
      ensures Items(rwq.slots) == Items(old(rwq.slots))
    {
      if !write && writing {
        writing := false;
        rwq.SetMinLength(readLatency);
      } else if write && !writing {
        writing := true;
        rwq.SetMinLength(writeLatency);
      }
    }

    /** One atom of the request held by bank `j` enters the read/write queue. */
    method SendAtom(j: nat)
      requires rwq.Valid() && !rwq.Full() && rwq.maxLen > 0
      requires j < |held| && held[j].Item? && held[j].item in live
      requires OnTime(rwq.slots, rwq.stamps, now + 1)
      modifies this`live, this`held, rwq`slots, rwq`stamps
      ensures rwq.Valid() && View() == Beat(old(View()), atom, j)
      ensures OnTime(rwq.slots, rwq.stamps, now + 1) && DueTimes() == old(DueTimes()) + [now + rwq.minLen]
    {
      hide Items, Dues, OnTime;
      var id := held[j].item;
      rwq.Append(Item(id), now + rwq.minLen);
      var r := live[id].(tx := live[id].tx + atom);
      live := live[id := r];
      if !(r.tx < r.nbytes) {
        held := held[j := Empty];
      }
    }

    /** Offers the command slot of this cycle to the banks, in turn; it goes unused only if no bank can use it. */
    method Issue() returns (cmd: Issued, bank: nat)
      requires Valid() && Idle(now, trace)
      modifies this`engine, this`live, this`held, this`writing, this`prio, this`trace, rwq
      ensures Valid()
      ensures cmd.NoCommand? ==> trace == old(trace) && engine == old(engine) && View() == old(View())
      ensures cmd.NoCommand? ==> forall b: nat :: b < p.numBanks ==>
          Blocked(p, old(trace), now, old(View()), old(rwq.Full()), b)
      ensures DueTimes() == old(DueTimes()) + NewDues(cmd, now, readLatency, writeLatency)
      ensures cmd.Command? ==>
          Executed(old(View()), old(engine), old(trace), View(), engine, trace, p, atom, now, cmd.kind, bank)
      // the bank is the first one in turn that can use the slot
      ensures cmd.Command? ==> Offered(p, old(trace), now, old(View()), old(rwq.Full()), cmd.kind, bank)
      ensures cmd.Command? ==> bank < p.numBanks && forall b: nat :: b < p.numBanks ==>
          Distance(old(prio), b, p.numBanks) < Distance(old(prio), bank, p.numBanks) ==>
            Blocked(p, old(trace), now, old(View()), old(rwq.Full()), b)
      ensures prio == if cmd == Command(ACT) || cmd == Command(PRE) then Turn(1, bank, p.numBanks) else old(prio)
    {
      hide Flow, Tracks, AllServe, Scheduler.Valid, Choose, Executed, DueTimes, Blocked, Offered;
      cmd, bank := NoCommand, 0;
      ghost var m: nat := p.numBanks;
      for i := 0 to p.numBanks
        invariant Valid() && DueTimes() == old(DueTimes()) + NewDues(cmd, now, readLatency, writeLatency)
        invariant cmd.NoCommand? ==>
            && trace == old(trace) && engine == old(engine) && View() == old(View()) && Idle(now, trace)
            && rwq.Full() == old(rwq.Full()) && prio == old(prio) && m == p.numBanks
        invariant forall k: nat :: k < i && k < m ==>
            Blocked(p, old(trace), now, old(View()), old(rwq.Full()), Turn(k, old(prio), p.numBanks))
        invariant cmd.Command? ==>
            && Executed(old(View()), old(engine), old(trace), View(), engine, trace, p, atom, now, cmd.kind, bank)
            && m < i && bank == Turn(m, old(prio), p.numBanks)
            && Offered(p, old(trace), now, old(View()), old(rwq.Full()), cmd.kind, bank)
            && prio == if cmd == Command(ACT) || cmd == Command(PRE) then Turn(1, bank, p.numBanks) else old(prio)
      {
        var j := Turn(i, prio, p.numBanks);
        if cmd.NoCommand? {
          FlowFacts(atom, View(), sched.queue, mrqq, rows, nextId);
          TracksShape(p, engine, now, trace);
          if held[j].Item? {
            cmd := TryBank(j);
            bank := j;
            if cmd.Command? {
              m := i;
            }
          } else {
            FreeIsBlocked(p, trace, now, View(), rwq.Full(), j);
          }
        }
      }
      AllBlocked(p, old(trace), now, old(View()), old(rwq.Full()), old(prio), m);
      if cmd.Command? {
        DistanceOfTurn(m, old(prio), p.numBanks);
      }
    }

    /** An answered request leaves the return queue. */
    method PopReturn() returns (id: Slot<nat>)
      requires Valid()
      modifies this`returnq
      ensures Valid() && View() == old(View()) && (old(AtStart()) ==> AtStart())
      ensures if old(returnq) == [] then id == Empty && returnq == []
              else id == Item(old(returnq)[0]) && returnq == old(returnq)[1..]
    {
      hide Flow, Tracks, AllServe, Scheduler.Valid;
      if returnq == [] {
        return Empty;
      }
      id := Item(returnq[0]);
      returnq := returnq[1..];
    }

    /** The end of a cycle. */
    method Advance()
      requires Valid()
      modifies this`engine, this`now
      ensures Valid() && AtStart() && now == old(now) + 1 && engine == Tick(old(engine)) && View() == old(View())
    {
      hide Flow, Tracks, AllServe, Scheduler.Valid, ServesOpenRow;
      TickTracks(p, engine, now, trace);
      TickServes(View(), engine, sched.lastRow);
      engine := Tick(engine);
      now := now + 1;
    }

    /** The first half of a cycle: an atom comes out, and requests move on. */
    method Feed() returns (out: Slot<nat>, handedTo: nat, c: Choice)
      requires Valid() && AtStart()
      modifies this`live, this`returnq, this`finished, this`mrqq, this`held, this`prio, this`handed, rwq, sched
      ensures Valid() && Idle(now, trace)
      // an atom leaves that is due, and the request is answered if that was its last
      ensures old(|returnq| >= queueSize) ==> out.Empty?
      ensures old(|returnq| < queueSize && rwq.slots != []) ==> out == old(rwq.slots)[0]
      ensures DueLeft(old(DueTimes()), DueTimes(), out, now)
      ensures rwq.Full() == old(|returnq| >= queueSize && rwq.Full())
      ensures returnq == old(returnq) +
        if out.Item? && out.item in old(live) && old(live)[out.item].dq + atom >= old(live)[out.item].nbytes
           && old(live)[out.item].reply then [out.item] else []
      // the input queue is drained
      ensures mrqq == [] || sched.numPending + 1 >= queueSize
      ensures |mrqq| <= |old(mrqq)| && mrqq == old(mrqq)[|old(mrqq)| - |mrqq|..]
      // the first free bank in turn with a request gets one: the oldest to its open row if there is one, or its oldest
      ensures var t := AfterRetire(old(View()), atom, out);
        var queues := Drained(old(sched.queue), old(mrqq)[..|old(mrqq)| - |mrqq|], t.live);
        if c.None? then sched.queue == queues && NoneWaits(t.held, queues)
        else && HandedOver(queues, sched.queue, handedTo, c.req) && FirstServed(t.held, queues, old(prio), handedTo)
             && handedTo < |queues| && handedTo < |engine.banks|
             && (forall i: nat :: i < |queues[handedTo]| && queues[handedTo][i].row == engine.banks[handedTo].row ==>
                   c.req.row == engine.banks[handedTo].row)
             && (c.req.row != engine.banks[handedTo].row ==> Last(queues[handedTo], c.req))
      ensures prio == if c.Chosen? then Turn(1, old(prio), p.numBanks) else old(prio)
      ensures View() == AfterHand(AfterRetire(old(View()), atom, out), handedTo, c)
    {
      hide Valid, Idle, Executed, Retire, Hand, Tick, Items, DueTimes, Drained, HandedOver, NoneWaits, OnTime;
      hide FirstServed, Pipeline.Full, Retired;
      out := RetireOne();
      DrainInput();
      handedTo, c := HandOne();
    }

    /** A cycle: an atom comes out, requests move on, at most one command is issued, the counters go down. */
    method Cycle() returns (out: Slot<nat>, handedTo: nat, c: Choice, cmd: Issued, bank: nat)
      requires Valid() && AtStart()
      modifies this, rwq, sched
      ensures Valid() && AtStart() && now == old(now) + 1
      // an atom leaves that is due, and the request is answered if that was its last
      ensures old(|returnq| >= queueSize) ==> out.Empty?
      ensures old(|returnq| < queueSize && rwq.slots != []) ==> out == old(rwq.slots)[0]
      ensures exists left: seq<nat> ::
        && DueLeft(old(DueTimes()), left, out, old(now))
        && DueTimes() == left + NewDues(cmd, old(now), readLatency, writeLatency)
      ensures returnq == old(returnq) +
        if out.Item? && out.item in old(live) && old(live)[out.item].dq + atom >= old(live)[out.item].nbytes
           && old(live)[out.item].reply then [out.item] else []
      // the input queue is drained
      ensures mrqq == [] || sched.numPending + 1 >= queueSize
      ensures |mrqq| <= |old(mrqq)| && mrqq == old(mrqq)[|old(mrqq)| - |mrqq|..]
      // the first free bank in turn with a request gets one: the oldest to its open row if there is one, or its oldest
      ensures var t := AfterRetire(old(View()), atom, out);
        var queues := Drained(old(sched.queue), old(mrqq)[..|old(mrqq)| - |mrqq|], t.live);
        if c.None? then sched.queue == queues && NoneWaits(t.held, queues)
        else && HandedOver(queues, sched.queue, handedTo, c.req) && FirstServed(t.held, queues, old(prio), handedTo)
             && handedTo < |queues| && handedTo < |old(engine).banks|
             && (forall i: nat ::
                   i < |queues[handedTo]| && queues[handedTo][i].row == old(engine).banks[handedTo].row ==>
                     c.req.row == old(engine).banks[handedTo].row)
             && (c.req.row != old(engine).banks[handedTo].row ==> Last(queues[handedTo], c.req))
      // a command is issued if one is ready
      ensures var t := AfterHand(AfterRetire(old(View()), atom, out), handedTo, c);
        if cmd.NoCommand? then trace == old(trace) && engine == Tick(old(engine)) && View() == t
        else exists e: Engine ::
          engine == Tick(e) &&
          Executed(t, old(engine), old(trace), View(), e, trace, p, atom, old(now), cmd.kind, bank)
      // it is what the request of its bank needs, by the row that the commands so far leave open there
      ensures cmd.Command? ==>
        var t := AfterHand(AfterRetire(old(View()), atom, out), handedTo, c);
        && bank < p.numBanks && bank < |t.held| && t.held[bank].Item? && t.held[bank].item in t.live
        && var r, open := t.live[t.held[bank].item], OpenRow(old(trace), bank);
        && (cmd.kind == RD ==> open == Row(r.row) && !r.write) && (cmd.kind == WR ==> open == Row(r.row) && r.write)
        && (cmd.kind == ACT ==> open == Closed) && (cmd.kind == PRE ==> open.Row? && open.row != r.row)
      // and none is issued only if what each bank's request needs comes too early, or the read/write queue is full
      ensures cmd.NoCommand? ==> forall b: nat, kind: Kind ::
        b < p.numBanks && SpacedAfter(p, old(trace), old(now), kind, b) ==>
        var t := AfterHand(AfterRetire(old(View()), atom, out), handedTo, c);
        && b < |t.held| && (t.held[b].Item? ==>
          && t.held[b].item in t.live
          && var r, open := t.live[t.held[b].item], OpenRow(old(trace), b);
          && (kind == RD ==> open != Row(r.row) || r.write || old(|returnq| >= queueSize && rwq.Full()))
          && (kind == WR ==> open != Row(r.row) || !r.write || old(|returnq| >= queueSize && rwq.Full()))
          && (kind == ACT ==> open != Closed) && (kind == PRE ==> open == Closed || open == Row(r.row)))
      // the banks are served in turn, from the one after the last that opened or closed a row
      ensures var start := if c.Chosen? then Turn(1, old(prio), p.numBanks) else old(prio);
        && (cmd.Command? ==> forall b: nat :: b < p.numBanks ==>
              Distance(start, b, p.numBanks) < Distance(start, bank, p.numBanks) ==>
                Blocked(p, old(trace), old(now), AfterHand(AfterRetire(old(View()), atom, out), handedTo, c),
                        old(|returnq| >= queueSize && rwq.Full()), b))
        && prio == if cmd == Command(ACT) || cmd == Command(PRE) then Turn(1, bank, p.numBanks) else start
    {
      hide Valid, Idle, Executed, Retire, Hand, Tick, Items, DueTimes, Drained, HandedOver, NoneWaits, OnTime;
      hide FirstServed, SpacedAfter, OpenRow, Pipeline.Full, Offered, Blocked, DueLeft, Last, NewDues, AfterHand;
      hide AfterRetire;
      out, handedTo, c := Feed();
      ghost var left, t, full := DueTimes(), View(), rwq.Full();
      cmd, bank := Issue();
      if cmd.Command? {
        OfferedMeans(p, old(trace), old(now), t, full, cmd.kind, bank);
      } else {
        forall b: nat, kind: Kind | b < p.numBanks && SpacedAfter(p, old(trace), old(now), kind, b)
          ensures LeavesUnused(old(trace), t, full, kind, b)
        {
          BlockedMeans(p, old(trace), old(now), t, full, kind, b);
        }
      }
      Advance();
    }
  }

  /** No bank without a request has one pending. */
  ghost predicate NoneWaits(held: seq<Slot<nat>>, queues: seq<seq<Pending>>) {
    |held| == |queues| && forall b: nat :: b < |held| && held[b].Empty? ==> queues[b] == []
  }

  /** The oldest pending request of some row was taken out of the queue of bank `b`. */
  ghost predicate HandedOver(before: seq<seq<Pending>>, after: seq<seq<Pending>>, b: nat, r: Pending) {
    b < |before| == |after| && after == before[b := after[b]] && WithoutOldest(before[b], after[b], r)
  }

  /** The request is the oldest of all. */
  ghost predicate Last(q: seq<Pending>, r: Pending) {
    q != [] && r == q[|q| - 1]
  }

  lemma ServedIsPreferred(q: seq<Pending>, q': seq<Pending>, r: Pending, openRow: nat)
    requires q != [] && WithoutOldest(q, q', r) && r.row == ServedRow(q, openRow)
    ensures forall i: nat :: i < |q| && q[i].row == openRow ==> r.row == openRow
    ensures r.row != openRow ==> Last(q, r)
  {
    hide WithoutOldest, OfRow;
    if i: nat :| i < |q| && q[i].row == openRow {
      OfRowHas(q, i);
    } else {
      OfRowEmpty(q, openRow);
      OldestOfLast(q, q', r);
    }
  }

  lemma OldestOfLast(q: seq<Pending>, q': seq<Pending>, r: Pending)
    requires q != [] && WithoutOldest(q, q', r) && r.row == q[|q| - 1].row
    ensures r == q[|q| - 1]
  {
  }

  /** No free bank whose turn comes before that of bank `b` has a request pending. */
  ghost predicate FirstServed(held: seq<Slot<nat>>, queues: seq<seq<Pending>>, start: nat, b: nat) {
    && start < |held| == |queues| && b < |held|
    && forall k: nat :: k < |held| && Distance(start, k, |held|) < Distance(start, b, |held|) && held[k].Empty? ==>
        queues[k] == []
  }

  lemma InTurn(held: seq<Slot<nat>>, queues: seq<seq<Pending>>, start: nat, i: nat)
    requires start < |held| == |queues| && i < |held|
    requires forall k: nat :: k < i && held[Turn(k, start, |held|)].Empty? ==> queues[Turn(k, start, |held|)] == []
    ensures FirstServed(held, queues, start, Turn(i, start, |held|))
  {
    DistanceOfTurn(i, start, |held|);
    forall k: nat | k < |held| && Distance(start, k, |held|) < i && held[k].Empty? ensures queues[k] == [] {
      TurnOfDistance(start, k, |held|);
    }
  }

  /** How many turns after that of bank `start` it is bank `b`'s. */
  function Distance(start: nat, b: nat, n: nat): nat {
    if b >= start then b - start else if b + n >= start then b + n - start else 0
  }

  lemma TurnOfDistance(start: nat, b: nat, n: nat)
    requires start < n && b < n
    ensures Distance(start, b, n) < n && Turn(Distance(start, b, n), start, n) == b
  {
  }

  lemma DistanceOfTurn(k: nat, start: nat, n: nat)
    requires start < n && k < n
    ensures Distance(start, Turn(k, start, n), n) == k
  {
  }

  /** Turns are counted modulo the number of banks. */
  lemma TurnIsModulo(k: nat, start: nat, n: nat)
    requires k <= n && start < n
    ensures Turn(k, start, n) == Bits.Mod(k + start, n)
  {
    hide Bits.Mul, Bits.Mod, Bits.Div;
    Bits.Doubled(n, 1);
    Bits.Quotient(n, if k + start < n then 0 else 1, Turn(k, start, n));
  }

  /** The requests after the first step of a cycle. */
  ghost function AfterRetire(t: Transfer, atom: nat, out: Slot<nat>): Transfer {
    if out.Item? && t.rwq != [] && t.rwq[0] in t.live && t.live[t.rwq[0]].bank < |t.finished| then Retire(t, atom)
    else t
  }

  /** And after a bank was given a request. */
  ghost function AfterHand(t: Transfer, bank: nat, c: Choice): Transfer {
    if c.Chosen? && bank < |t.held| == |t.handed| then Hand(t, bank, c.req.id) else t
  }

  /** After a trace, a command of `kind` is what request `r` of bank `j` needs, and comes late enough. */
  ghost predicate Usable(p: Params, trace: seq<Cmd>, now: nat, kind: Kind, j: nat, r: Request, rwqFull: bool) {
    && Needed(trace, kind, j, r.row) && SpacedAfter(p, trace, now, kind, j)
    && (kind == RD ==> !r.write && !rwqFull) && (kind == WR ==> r.write && !rwqFull)
  }

  /** Bank `j` holds a request that can use a command of `kind`. */
  ghost predicate Offered(p: Params, trace: seq<Cmd>, now: nat, t: Transfer, rwqFull: bool, kind: Kind, j: nat) {
    j < |t.held| && t.held[j].Item? && t.held[j].item in t.live
    && Usable(p, trace, now, kind, j, t.live[t.held[j].item], rwqFull)
  }

  /** Bank `j` holds no request, or one that can use no command. */
  ghost predicate Blocked(p: Params, trace: seq<Cmd>, now: nat, t: Transfer, rwqFull: bool, j: nat) {
    j < |t.held| && (t.held[j].Item? ==>
      t.held[j].item in t.live && forall kind: Kind :: !Usable(p, trace, now, kind, j, t.live[t.held[j].item], rwqFull))
  }

  /** The command tried first that is ready is the one that the request can use, if there is one. */
  lemma ChooseIff(p: Params, e: Engine, now: nat, trace: seq<Cmd>, j: nat, r: Request, rwqFull: bool)
    requires Tracks(p, e, now, trace) && Idle(now, trace) && j < p.numBanks
    ensures Shape(p, e)
    ensures forall kind: Kind :: Choose(p, e, j, r, rwqFull) == Command(kind) <==>
        Usable(p, trace, now, kind, j, r, rwqFull)
  {
    hide Tracks, Idle, Ready, SpacedAfter;
    ReadyIff(p, e, now, trace, RD, j, r.row);
    ReadyIff(p, e, now, trace, WR, j, r.row);
    ReadyIff(p, e, now, trace, ACT, j, r.row);
    ReadyIff(p, e, now, trace, PRE, j, r.row);
  }

  lemma OfferedMeans(p: Params, trace: seq<Cmd>, now: nat, t: Transfer, rwqFull: bool, kind: Kind, j: nat)
    requires Offered(p, trace, now, t, rwqFull, kind, j)
    ensures j < |t.held| && t.held[j].Item? && t.held[j].item in t.live
    ensures var r, open := t.live[t.held[j].item], OpenRow(trace, j);
      && (kind == RD ==> open == Row(r.row) && !r.write) && (kind == WR ==> open == Row(r.row) && r.write)
      && (kind == ACT ==> open == Closed) && (kind == PRE ==> open.Row? && open.row != r.row)
  {
    hide OpenRow, SpacedAfter;
  }

  /** Bank `b` holds no request, or one that does not need a command of `kind` or has no room for its data. */
  ghost predicate LeavesUnused(trace: seq<Cmd>, t: Transfer, rwqFull: bool, kind: Kind, b: nat) {
    b < |t.held| && (t.held[b].Item? ==>
      && t.held[b].item in t.live
      && var r, open := t.live[t.held[b].item], OpenRow(trace, b);
      && (kind == RD ==> open != Row(r.row) || r.write || rwqFull)
      && (kind == WR ==> open != Row(r.row) || !r.write || rwqFull)
      && (kind == ACT ==> open != Closed) && (kind == PRE ==> open == Closed || open == Row(r.row)))
  }

  lemma BlockedMeans(p: Params, trace: seq<Cmd>, now: nat, t: Transfer, rwqFull: bool, kind: Kind, b: nat)
    requires Blocked(p, trace, now, t, rwqFull, b) && SpacedAfter(p, trace, now, kind, b)
    ensures LeavesUnused(trace, t, rwqFull, kind, b)
  {
    hide OpenRow, SpacedAfter;
    assert t.held[b].Item? ==> !Usable(p, trace, now, kind, b, t.live[t.held[b].item], rwqFull);
  }

  lemma FreeIsBlocked(p: Params, trace: seq<Cmd>, now: nat, t: Transfer, rwqFull: bool, j: nat)
    requires j < |t.held| && t.held[j].Empty?
    ensures Blocked(p, trace, now, t, rwqFull, j)
  {
  }

  /** Those whose turn comes among the first `m` are the banks at a smaller distance. */
  lemma AllBlocked(p: Params, trace: seq<Cmd>, now: nat, t: Transfer, rwqFull: bool, start: nat, m: nat)
    requires start < p.numBanks && m <= p.numBanks
    requires forall k: nat :: k < m ==> Blocked(p, trace, now, t, rwqFull, Turn(k, start, p.numBanks))
    ensures forall b: nat :: b < p.numBanks && Distance(start, b, p.numBanks) < m ==>
        Blocked(p, trace, now, t, rwqFull, b)
    ensures m == p.numBanks ==> forall b: nat :: b < p.numBanks ==> Blocked(p, trace, now, t, rwqFull, b)
  {
    hide Blocked;
    forall b: nat | b < p.numBanks && (Distance(start, b, p.numBanks) < m || m == p.numBanks)
      ensures Blocked(p, trace, now, t, rwqFull, b)
    {
      TurnOfDistance(start, b, p.numBanks);
    }
  }

  datatype Issued = NoCommand | Command(kind: Kind)

  /** The command of bank `j` for a request `r`, in the order in which they are tried. */
  function Choose(p: Params, e: Engine, j: nat, r: Request, rwqFull: bool): Issued
    requires p.Valid() && |e.banks| == p.numBanks && |e.groups| == p.numGroups && j < p.numBanks
  {
    if !r.write && Ready(p, e, RD, j, r.row) && !rwqFull then Command(RD)
    else if r.write && Ready(p, e, WR, j, r.row) && !rwqFull then Command(WR)
    else if Ready(p, e, ACT, j, r.row) then Command(ACT)
    else if Ready(p, e, PRE, j, r.row) then Command(PRE)
    else NoCommand
  }

  /** The time from which the atom of a command may leave: its latency after the command. */
  function NewDues(cmd: Issued, now: nat, readLatency: nat, writeLatency: nat): seq<nat> {
    if cmd == Command(RD) then [now + readLatency] else if cmd == Command(WR) then [now + writeLatency] else []
  }

  /** What leaves was due, and the others keep their times. */
  ghost predicate DueLeft(before: seq<nat>, after: seq<nat>, out: Slot<nat>, now: nat) {
    if out.Item? then before != [] && before[0] <= now && after == before[1..] else after == before
  }

  /** The scheduler queues with request `id` as the newest of its bank. */
  ghost function Enqueued(queues: seq<seq<Pending>>, id: nat, live: map<nat, Request>): seq<seq<Pending>> {
    if id in live && live[id].bank < |queues| then
      queues[live[id].bank := [Pending(id, live[id].row)] + queues[live[id].bank]]
    else queues
  }

  /** And with several, oldest first. */
  ghost function Drained(queues: seq<seq<Pending>>, ids: seq<nat>, live: map<nat, Request>): seq<seq<Pending>> {
    if ids == [] then queues else Enqueued(Drained(queues, ids[..|ids| - 1], live), ids[|ids| - 1], live)
  }

  /** Bank `j` issued `kind` for the request it held. */
  ghost predicate Executed(t: Transfer, e: Engine, trace: seq<Cmd>, t': Transfer, e': Engine, trace': seq<Cmd>,
                           p: Params, atom: nat, now: nat, kind: Kind, j: nat) {
    && Shape(p, e) && j < p.numBanks && j < |t.held| && t.held[j].Item? && t.held[j].item in t.live
    && var row := t.live[t.held[j].item].row;
    && Ready(p, e, kind, j, row) && e' == Fire(p, e, kind, j, row)
    && trace' == trace + [Cmd(now, kind, j, LoggedRow(e, kind, j, row))]
    && t' == if kind == RD || kind == WR then Beat(t, atom, j) else t
  }

  /** The bank whose turn it is after `k` others, starting from bank `start`. */
  function Turn(k: nat, start: nat, n: nat): (b: nat)
    ensures k <= n && start < n ==> b < n
  {
    if k + start < n then k + start else k + start - n // (k + start) % n, both being in range
  }

  /** The effect of an atom of `id` leaving the read/write queue. */
  ghost predicate Retired(t: Transfer, returnq: seq<nat>, t': Transfer, returnq': seq<nat>, atom: nat, id: nat) {
    && t.rwq != [] && t.rwq[0] == id && id in t.live && t.live[id].bank < |t.finished|
    && t' == Retire(t, atom)
    && returnq' == if Finishes(t, atom) && t.live[id].reply then returnq + [id] else returnq
  }

  lemma {:induction false} NoItems(q: seq<Slot<nat>>)
    requires forall i :: 0 <= i < |q| ==> q[i] == Empty
    ensures Items(q) == []
  {
    if q != [] {
      NoItems(q[1..]);
    }
  }

  lemma EmptyFlow(p: Params, atom: nat, t: Transfer, queues: seq<seq<Pending>>, last: seq<RowPointer>)
    requires p.Valid() && 0 < atom && t.live == map[] && t.rwq == []
    requires |t.held| == |t.handed| == |t.finished| == |queues| == |last| == p.numBanks
    requires forall j: nat :: j < p.numBanks ==> t.held[j] == Empty && t.handed[j] == [] && t.finished[j] == []
    requires forall j: nat :: j < p.numBanks ==> queues[j] == [] && last[j] == NoRow
    ensures Flow(atom, t, queues, [], map[], 0) && AllServe(t, Reset(p).banks, last)
  {
    forall j: nat | j < p.numBanks ensures BankFlow(t, j, queues[j], [], map[]) {
    }
  }

  lemma FlowFacts(atom: nat, t: Transfer, queues: seq<seq<Pending>>, mrqq: seq<nat>, rows: map<nat, nat>, arrived: nat)
    requires Flow(atom, t, queues, mrqq, rows, arrived)
    ensures |t.held| == |t.handed| == |t.finished|
    ensures forall i: nat :: i < |t.rwq| ==> t.rwq[i] in t.live && t.live[t.rwq[i]].bank < |t.finished|
    ensures forall j: nat :: j < |t.held| && t.held[j].Item? ==>
        t.held[j].item in t.live && t.live[t.held[j].item].bank == j
  {
  }

  /** The row served next by a free bank: its open row if a request to it is pending, else the oldest request's. */
  ghost function ServedRow(q: seq<Pending>, openRow: nat): nat
    requires q != []
  {
    if OfRow(q, openRow) != [] then openRow else q[|q| - 1].row
  }

  lemma RetireServes(t: Transfer, atom: nat, banks: seq<Bank>, last: seq<RowPointer>,
                     queues: seq<seq<Pending>>, mrqq: seq<nat>, rows: map<nat, nat>, arrived: nat)
    requires AllServe(t, banks, last) && Flow(atom, t, queues, mrqq, rows, arrived) && t.rwq != []
    ensures AllServe(Retire(t, atom), banks, last)
  {
    if Finishes(t, atom) {
      FinishedIsGone(t, atom);
    }
    forall b: nat | b < |banks| ensures ServesOpenRow(Retire(t, atom), banks, last, b) {
      assert ServesOpenRow(t, banks, last, b);
    }
  }

  lemma HandServes(t: Transfer, banks: seq<Bank>, last: seq<RowPointer>, last': seq<RowPointer>, b: nat, r: Pending,
                   q: seq<Pending>)
    requires AllServe(t, banks, last) && b < |banks| && |last'| == |last| && |t.handed| == |t.held|
    requires last' == last[b := last'[b]] && (last'[b].AtRow? ==> last'[b].row == r.row)
    requires r.id in t.live && t.live[r.id].row == r.row && t.held[b].Empty?
    requires q != [] && r.row == Target(q, last[b], banks[b].row) && (last[b].AtRow? ==> OfRow(q, last[b].row) != [])
    ensures AllServe(Hand(t, b, r.id), banks, last') && r.row == ServedRow(q, banks[b].row)
  {
    assert ServesOpenRow(t, banks, last, b);
    forall k: nat | k < |banks| ensures ServesOpenRow(Hand(t, b, r.id), banks, last', k) {
      assert ServesOpenRow(t, banks, last, k);
    }
  }

  /** Going round all banks from any starting point visits each of them. */
  lemma AllBanks(n: nat, start: nat, held: seq<Slot<nat>>, queue: seq<seq<Pending>>)
    requires |held| == |queue| == n && start < n
    requires forall k: nat :: k < n && held[Turn(k, start, n)].Empty? ==> queue[Turn(k, start, n)] == []
    ensures forall b: nat :: b < n && held[b].Empty? ==> queue[b] == []
  {
    forall b: nat | b < n && held[b].Empty? ensures queue[b] == [] {
      var k := if b >= start then b - start else b + n - start;
      assert Turn(k, start, n) == b;
    }
  }

  lemma TracksShape(p: Params, e: Engine, now: nat, trace: seq<Cmd>)
    requires Tracks(p, e, now, trace)
    ensures Shape(p, e)
  {
  }

  /** A command leaves every bank with the row open that it serves: a bank that lets go of its request has
      just used that request's row. */
  lemma FireServes(t: Transfer, p: Params, e: Engine, last: seq<RowPointer>, kind: Kind, j: nat, row: nat, atom: nat)
    requires AllServe(t, e.banks, last) && Shape(p, e) && j < p.numBanks && j < |t.held| && t.held[j].Item?
    requires t.held[j].item in t.live && row == t.live[t.held[j].item].row && Ready(p, e, kind, j, row)
    ensures AllServe(if kind == RD || kind == WR then Beat(t, atom, j) else t, Fire(p, e, kind, j, row).banks, last)
  {
    var t', e' := if kind == RD || kind == WR then Beat(t, atom, j) else t, Fire(p, e, kind, j, row);
    forall b: nat | b < |e.banks| ensures ServesOpenRow(t', e'.banks, last, b) {
      assert ServesOpenRow(t, e.banks, last, b);
      assert ServesOpenRow(t, e.banks, last, j);
    }
  }

  lemma TickServes(t: Transfer, e: Engine, last: seq<RowPointer>)
    requires AllServe(t, e.banks, last)
    ensures AllServe(t, Tick(e).banks, last)
  {
    forall b: nat | b < |e.banks| ensures ServesOpenRow(t, Tick(e).banks, last, b) {
      assert ServesOpenRow(t, e.banks, last, b);
    }
  }

  lemma ArriveServes(t: Transfer, banks: seq<Bank>, last: seq<RowPointer>, id: nat,
                     bank: nat, row: nat, write: bool, reply: bool, nbytes: nat)
    requires AllServe(t, banks, last) && id !in t.live
    ensures AllServe(Arrive(t, id, bank, row, write, reply, nbytes), banks, last)
  {
    forall b: nat | b < |banks| ensures ServesOpenRow(Arrive(t, id, bank, row, write, reply, nbytes), banks, last, b) {
      assert ServesOpenRow(t, banks, last, b);
    }
  }
}
