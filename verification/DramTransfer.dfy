/** The data side of the DRAM controller: requests are handed to banks, each column command sends one
atom of a request into the read/write queue, and each atom that leaves the queue is counted until the
request is complete. Bytes are conserved, and a bank's requests complete in the order it got them. */
module DramTransfer {
  import opened Collections
  import opened DelayQueue

  /** A request, known by its arrival number: `tx` bytes have entered the read/write queue, `dq` have left it;
      `reply` says whether it is answered when it is complete. */
  datatype Request = Request(bank: nat, row: nat, write: bool, reply: bool, nbytes: nat, tx: nat, dq: nat)

  /** `live` requests, the queue of atoms, the request held by each bank, and per bank the requests it
      was handed and those of them that have finished. */
  datatype Transfer = Transfer(live: map<nat, Request>, rwq: seq<nat>, held: seq<Slot<nat>>,
                               handed: seq<seq<nat>>, finished: seq<seq<nat>>)

  // ----- Operations

  function Arrive(t: Transfer, id: nat, bank: nat, row: nat, write: bool, reply: bool, nbytes: nat): Transfer {
    t.(live := t.live[id := Request(bank, row, write, reply, nbytes, 0, 0)])
  }

  function Hand(t: Transfer, j: nat, id: nat): Transfer
    requires j < |t.held| == |t.handed|
  {
    t.(held := t.held[j := Item(id)], handed := t.handed[j := t.handed[j] + [id]])
  }

  /** A column command of bank `j`: one atom of the held request; the bank lets go of it after the last one. */
  function Beat(t: Transfer, atom: nat, j: nat): Transfer
    requires j < |t.held| && t.held[j].Item? && t.held[j].item in t.live
  {
    var id := t.held[j].item;
    var r := t.live[id].(tx := t.live[id].tx + atom);
    t.(live := t.live[id := r], rwq := t.rwq + [id],
       held := if r.tx < r.nbytes then t.held else t.held[j := Empty])
  }

  /** The oldest atom leaves the queue; a request with all its bytes out is gone. */
  function Retire(t: Transfer, atom: nat): Transfer
    requires t.rwq != [] && t.rwq[0] in t.live && t.live[t.rwq[0]].bank < |t.finished|
  {
    var id := t.rwq[0];
    var r := t.live[id].(dq := t.live[id].dq + atom);
    if r.dq >= r.nbytes then
      t.(live := t.live - {id}, rwq := t.rwq[1..], finished := t.finished[r.bank := t.finished[r.bank] + [id]])
    else t.(live := t.live[id := r], rwq := t.rwq[1..])
  }

  predicate Finishes(t: Transfer, atom: nat)
    requires t.rwq != [] && t.rwq[0] in t.live
  {
    t.live[t.rwq[0]].dq + atom >= t.live[t.rwq[0]].nbytes
  }

  // ----- Conservation

  ghost predicate Held(t: Transfer, id: nat) {
    id in t.live && t.live[id].bank < |t.held| && t.held[t.live[id].bank] == Item(id)
  }

  /** The bytes sent and not yet out are the atoms in the queue; the last atom sent was needed; the bank
      holds the request exactly until the last atom is sent; and a live request has bytes to come. */
  ghost predicate Conserves(t: Transfer, atom: nat, id: nat)
    requires id in t.live
  {
    var r := t.live[id];
    && r.dq + atom * multiset(t.rwq)[id] == r.tx
    && (r.tx <= atom || r.tx - atom < r.nbytes)
    && (r.tx > 0 ==> (Held(t, id) <==> r.tx < r.nbytes))
    && (r.dq == 0 || r.dq < r.nbytes)
  }

  ghost predicate Conserved(t: Transfer, atom: nat) {
    && |t.held| == |t.handed| == |t.finished|
    && (forall id: nat :: id in t.live ==> Conserves(t, atom, id) && t.live[id].bank < |t.held|)
    && (forall i: nat :: i < |t.rwq| ==> t.rwq[i] in t.live)
    && (forall j: nat :: j < |t.held| && t.held[j].Item? ==>
        t.held[j].item in t.live && t.live[t.held[j].item].bank == j)
  }

  lemma ArriveConserved(t: Transfer, atom: nat, id: nat, bank: nat, row: nat, write: bool, reply: bool, nbytes: nat)
    requires Conserved(t, atom) && id !in t.live && bank < |t.held|
    ensures Conserved(Arrive(t, id, bank, row, write, reply, nbytes), atom)
  {
    var t' := Arrive(t, id, bank, row, write, reply, nbytes);
    forall k: nat | k in t'.live ensures Conserves(t', atom, k) {
      if k != id {
        assert Conserves(t, atom, k);
      }
    }
  }

  lemma HandConserved(t: Transfer, atom: nat, j: nat, id: nat)
    requires Conserved(t, atom) && j < |t.held| && t.held[j].Empty?
    requires id in t.live && t.live[id].bank == j && t.live[id].tx == 0
    ensures Conserved(Hand(t, j, id), atom)
  {
    var t' := Hand(t, j, id);
    forall k: nat | k in t'.live ensures Conserves(t', atom, k) {
      assert Conserves(t, atom, k);
      assert k != id ==> (Held(t', k) <==> Held(t, k));
    }
  }

  lemma BeatConserved(t: Transfer, atom: nat, j: nat)
    requires Conserved(t, atom) && atom > 0 && j < |t.held| && t.held[j].Item?
    ensures Conserved(Beat(t, atom, j), atom)
  {
    var t' := Beat(t, atom, j);
    var id := t.held[j].item;
    assert Conserves(t, atom, id) && Held(t, id);
    forall k: nat | k in t'.live ensures Conserves(t', atom, k) {
      assert Conserves(t, atom, k);
      assert k != id ==> (Held(t', k) <==> Held(t, k));
      assert multiset(t'.rwq)[k] == multiset(t.rwq)[k] + if k == id then 1 else 0;
      TimesNext(atom, multiset(t.rwq)[k]);
    }
  }

  lemma TimesNext(a: nat, n: nat)
    ensures a * (n + 1) == a * n + a
  {
  }

  lemma HeadCount(s: seq<nat>, k: nat)
    requires s != []
    ensures multiset(s)[k] == multiset(s[1..])[k] + (if k == s[0] then 1 else 0)
  {
    assert s == [s[0]] + s[1..];
  }

  /** A request whose last byte is out has no atom left in the queue and is held by no bank. */
  lemma FinishedIsGone(t: Transfer, atom: nat)
    requires Conserved(t, atom) && atom > 0 && t.rwq != [] && Finishes(t, atom)
    ensures t.rwq[0] !in t.rwq[1..]
    ensures forall j: nat :: j < |t.held| ==> t.held[j] != Item(t.rwq[0])
  {
    var id := t.rwq[0];
    assert Conserves(t, atom, id);
    HeadCount(t.rwq, id);
    var r := t.live[id];
    NoAtomLeft(atom, r.dq, r.tx, r.nbytes, multiset(t.rwq[1..])[id]);
    assert r.tx == r.dq + atom * 1 >= r.nbytes;
    assert !Held(t, id);
  }

  lemma NoAtomLeft(atom: nat, dq: nat, tx: nat, nbytes: nat, n: nat)
    requires atom > 0 && dq + atom * (n + 1) == tx && dq + atom >= nbytes && (tx <= atom || tx - atom < nbytes)
    ensures n == 0
  {
    TimesNext(atom, n);
    if n > 0 {
      TimesNext(atom, n - 1);
    }
  }

  lemma RetireConserved(t: Transfer, atom: nat)
    requires Conserved(t, atom) && atom > 0 && t.rwq != []
    ensures Conserved(Retire(t, atom), atom)
  {
    var id := t.rwq[0];
    assert Conserves(t, atom, id);
    var t' := Retire(t, atom);
    if Finishes(t, atom) {
      FinishedIsGone(t, atom);
    }
    forall k: nat | k in t'.live ensures Conserves(t', atom, k) {
      assert Conserves(t, atom, k);
      HeadCount(t.rwq, k);
      TimesNext(atom, multiset(t.rwq[1..])[k]);
      assert Held(t', k) <==> Held(t, k);
    }
  }

  // ----- Order

  /** Request number `a` of those handed to bank `j` is live; unless it is the last one and still held, all
      its atoms have been sent. */
  ghost predicate Unfinished(t: Transfer, j: nat, a: nat)
    requires j < |t.handed| && a < |t.handed[j]|
  {
    var id := t.handed[j][a];
    && id in t.live && t.live[id].bank == j
    && (if Held(t, id) then a == |t.handed[j]| - 1 else t.live[id].tx > 0)
  }

  /** The finished requests of bank `j` are the first ones it was handed; the rest are unfinished, and their
      atoms are in the queue in the order in which the bank was handed the requests. */
  ghost predicate Ordered(t: Transfer, j: nat)
    requires j < |t.handed| == |t.finished|
  {
    && t.finished[j] <= t.handed[j] && NoDup(t.handed[j])
    && (forall a: nat :: a < |t.finished[j]| ==> t.handed[j][a] !in t.live)
    && (forall a: nat :: |t.finished[j]| <= a < |t.handed[j]| ==> Unfinished(t, j, a))
    && (forall id: nat :: id in t.live && t.live[id].bank == j && (t.live[id].tx > 0 || Held(t, id)) ==>
        id in t.handed[j])
    && (forall i: nat, k: nat :: i < k < |t.rwq| ==> Precedes(t.handed[j], t.rwq[i], t.rwq[k]))
  }

  /** Wherever `x` and `y` occur in `s`, `x` does not come after `y`. */
  ghost predicate Precedes(s: seq<nat>, x: nat, y: nat) {
    forall a: nat, c: nat :: a < |s| && c < |s| && s[a] == x && s[c] == y ==> a <= c
  }

  lemma ArriveOrdered(t: Transfer, atom: nat, id: nat, bank: nat, row: nat, write: bool, reply: bool, nbytes: nat,
                      j: nat)
    requires Conserved(t, atom) && j < |t.handed| && Ordered(t, j) && id !in t.live && id !in t.handed[j]
    ensures Ordered(Arrive(t, id, bank, row, write, reply, nbytes), j)
  {
    var t' := Arrive(t, id, bank, row, write, reply, nbytes);
    assert forall k: nat :: k in t.live ==> (Held(t', k) <==> Held(t, k));
    forall a: nat | |t.finished[j]| <= a < |t.handed[j]| ensures Unfinished(t', j, a) {
      assert Unfinished(t, j, a);
    }
  }

  lemma NotYetHanded(t: Transfer, atom: nat, id: nat, j: nat)
    requires Conserved(t, atom) && j < |t.handed| && Ordered(t, j) && atom > 0
    requires id in t.live && t.live[id].tx == 0 && !Held(t, id)
    ensures id !in t.handed[j] && id !in t.rwq
  {
    forall a: nat | a < |t.handed[j]| ensures t.handed[j][a] != id {
      if a >= |t.finished[j]| {
        assert Unfinished(t, j, a);
      }
    }
    assert Conserves(t, atom, id);
    NoProduct(atom, multiset(t.rwq)[id]);
  }

  lemma NoProduct(a: nat, n: nat)
    requires a > 0
    ensures a * n == 0 ==> n == 0
  {
  }

  lemma HandOrdered(t: Transfer, atom: nat, b: nat, id: nat, j: nat)
    requires Conserved(t, atom) && j < |t.handed| && Ordered(t, j) && atom > 0
    requires b < |t.held| && t.held[b].Empty? && id in t.live && t.live[id].bank == b && t.live[id].tx == 0
    ensures Ordered(Hand(t, b, id), j)
  {
    hide Conserves;
    var t' := Hand(t, b, id);
    NotYetHanded(t, atom, id, j);
    assert forall k: nat :: k in t.live && k != id ==> (Held(t', k) <==> Held(t, k));
    forall a: nat | |t.finished[j]| <= a < |t'.handed[j]| ensures Unfinished(t', j, a) {
      if a < |t.handed[j]| {
        assert Unfinished(t, j, a);
      }
    }
    forall i: nat, k: nat | i < k < |t.rwq| ensures Precedes(t'.handed[j], t.rwq[i], t.rwq[k]) {
      assert Precedes(t.handed[j], t.rwq[i], t.rwq[k]);
    }
  }

  lemma BeatOrdered(t: Transfer, atom: nat, b: nat, j: nat)
    requires Conserved(t, atom) && atom > 0 && j < |t.handed| && Ordered(t, j) && b < |t.held| && t.held[b].Item?
    ensures Ordered(Beat(t, atom, b), j)
  {
    var t' := Beat(t, atom, b);
    var id := t.held[b].item;
    assert Held(t, id) && Conserves(t, atom, id);
    assert forall k: nat :: k in t.live && k != id ==> (Held(t', k) <==> Held(t, k));
    forall a: nat | |t.finished[j]| <= a < |t.handed[j]| ensures Unfinished(t', j, a) {
      assert Unfinished(t, j, a);
    }
    forall i: nat | i < |t.rwq| ensures Precedes(t.handed[j], t.rwq[i], id) {
      HeldIsLast(t, b, j, id);
    }
  }

  /** If bank `j` was handed the request it holds, it was handed it last. */
  lemma HeldIsLast(t: Transfer, b: nat, j: nat, id: nat)
    requires j < |t.handed| == |t.finished| && Ordered(t, j) && Held(t, id)
    ensures forall c: nat :: c < |t.handed[j]| && t.handed[j][c] == id ==> c == |t.handed[j]| - 1
  {
    forall c: nat | c < |t.handed[j]| && t.handed[j][c] == id ensures c == |t.handed[j]| - 1 {
      assert c >= |t.finished[j]|;
      assert Unfinished(t, j, c);
    }
  }

  /** A live request that its bank has let go of has an atom in the queue, so it does not come before the
      request at the head of the queue. */
  lemma HeadPrecedes(t: Transfer, atom: nat, j: nat, id: nat)
    requires Conserved(t, atom) && atom > 0 && j < |t.handed| && Ordered(t, j) && t.rwq != []
    requires id in t.live && t.live[id].tx > 0 && !Held(t, id) && id != t.rwq[0]
    ensures Precedes(t.handed[j], t.rwq[0], id)
  {
    assert Conserves(t, atom, id);
    assert multiset(t.rwq)[id] > 0;
    var k: nat :| k < |t.rwq| && t.rwq[k] == id;
  }

  /** The request that finishes is the oldest unfinished one that its bank was handed. */
  lemma FinishesInOrder(t: Transfer, atom: nat, j: nat)
    requires Conserved(t, atom) && atom > 0 && t.rwq != [] && Finishes(t, atom)
    requires t.live[t.rwq[0]].bank == j && Ordered(t, j)
    ensures |t.finished[j]| < |t.handed[j]| && t.handed[j][|t.finished[j]|] == t.rwq[0]
  {
    hide Conserves;
    var id, n := t.rwq[0], |t.finished[j]|;
    SentBefore(t, atom);
    var c: nat :| c < |t.handed[j]| && t.handed[j][c] == id;
    assert c >= n && Unfinished(t, j, n);
    if t.handed[j][n] != id && !Held(t, t.handed[j][n]) {
      HeadPrecedes(t, atom, j, t.handed[j][n]);
    }
  }

  lemma SentBefore(t: Transfer, atom: nat)
    requires Conserved(t, atom) && atom > 0 && t.rwq != []
    ensures t.live[t.rwq[0]].tx > 0
  {
    assert Conserves(t, atom, t.rwq[0]);
    HeadCount(t.rwq, t.rwq[0]);
    TimesNext(atom, multiset(t.rwq[1..])[t.rwq[0]]);
  }

  /** Retiring an atom changes nothing about which of the remaining requests are held. */
  lemma RetireHeld(t: Transfer, atom: nat)
    requires t.rwq != [] && t.rwq[0] in t.live && t.live[t.rwq[0]].bank < |t.finished|
    ensures var t' := Retire(t, atom); forall k: nat :: k in t'.live ==> (Held(t', k) <==> Held(t, k))
  {
  }

  lemma RetireOrdered(t: Transfer, atom: nat, j: nat)
    requires Conserved(t, atom) && atom > 0 && t.rwq != [] && j < |t.handed| && Ordered(t, j)
    ensures Ordered(Retire(t, atom), j)
  {
    hide Conserves, Precedes, Held;
    var t' := Retire(t, atom);
    var id := t.rwq[0];
    SentBefore(t, atom);
    RetireHeld(t, atom);
    if Finishes(t, atom) {
      FinishedIsGone(t, atom);
      if t.live[id].bank == j {
        FinishesInOrder(t, atom, j);
      }
    }
    forall a: nat | |t'.finished[j]| <= a < |t.handed[j]| ensures Unfinished(t', j, a) {
      assert Unfinished(t, j, a);
    }
    TailPrecedes(t.handed[j], t.rwq);
  }

  lemma TailPrecedes(h: seq<nat>, s: seq<nat>)
    requires s != [] && forall i: nat, k: nat :: i < k < |s| ==> Precedes(h, s[i], s[k])
    ensures forall i: nat, k: nat :: i < k < |s[1..]| ==> Precedes(h, s[1..][i], s[1..][k])
  {
    hide Precedes;
    forall i: nat, k: nat | i < k < |s[1..]| ensures Precedes(h, s[1..][i], s[1..][k]) {
      assert Precedes(h, s[i + 1], s[k + 1]);
    }
  }
}
