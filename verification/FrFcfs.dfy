/** The first-ready first-come-first-served scheduler: per bank a queue of pending requests and an index of
it by row. */
module FrFcfs {

  datatype Pending = Pending(id: nat, row: nat)
  datatype RowPointer = NoRow | AtRow(row: nat)
  datatype Choice = None | Chosen(req: Pending)

  // ----- The index

  /** The requests of a queue that go to `row`, in queue order. */
  function OfRow(q: seq<Pending>, row: nat): (s: seq<Pending>)
    ensures |s| <= |q|
    ensures forall i :: 0 <= i < |s| ==> s[i].row == row && s[i] in q
  {
    if q == [] then [] else if q[0].row == row then [q[0]] + OfRow(q[1..], row) else OfRow(q[1..], row)
  }

  /** The bins list exactly the queue's requests, by row and in queue order. */
  ghost predicate Indexed(q: seq<Pending>, bins: map<nat, seq<Pending>>) {
    && (forall row: nat :: row in bins ==> bins[row] != [] && bins[row] == OfRow(q, row))
    && (forall i :: 0 <= i < |q| ==> q[i].row in bins)
  }

  lemma {:induction false} OfRowConcat(p: seq<Pending>, q: seq<Pending>, row: nat)
    ensures OfRow(p + q, row) == OfRow(p, row) + OfRow(q, row)
    decreases |p|
  {
    if p == [] {
      assert p + q == q;
    } else {
      assert (p + q)[1..] == p[1..] + q;
      OfRowConcat(p[1..], q, row);
    }
  }

  lemma {:induction false} OfRowEmpty(q: seq<Pending>, row: nat)
    requires forall i :: 0 <= i < |q| ==> q[i].row != row
    ensures OfRow(q, row) == []
  {
    if q != [] {
      OfRowEmpty(q[1..], row);
    }
  }

  /** `q'` is `q` without `r`, which was the oldest request to its row. */
  ghost predicate WithoutOldest(q: seq<Pending>, q': seq<Pending>, r: Pending) {
    exists k: nat :: k < |q| && OldestAt(q, k, r) && q' == q[..k] + q[k + 1..]
  }

  ghost predicate OldestAt(q: seq<Pending>, k: nat, r: Pending)
    requires k < |q|
  {
    q[k] == r && forall m :: k < m < |q| ==> q[m].row != r.row
  }

  /** Taking out the oldest request to a row takes the last one off its bin and leaves the others alone. */
  lemma EraseOldest(q: seq<Pending>, k: nat, row: nat)
    requires k < |q| && OldestAt(q, k, q[k])
    ensures row == q[k].row ==> OfRow(q, row) == OfRow(q[..k] + q[k + 1..], row) + [q[k]]
    ensures row != q[k].row ==> OfRow(q, row) == OfRow(q[..k] + q[k + 1..], row)
  {
    assert q == q[..k] + ([q[k]] + q[k + 1..]);
    OfRowConcat(q[..k], [q[k]] + q[k + 1..], row);
    OfRowConcat([q[k]], q[k + 1..], row);
    OfRowConcat(q[..k], q[k + 1..], row);
    if row == q[k].row {
      OfRowEmpty(q[k + 1..], row);
    }
  }

  /** The last request of a bin is the oldest to its row. */
  lemma {:induction false} LastOfRow(q: seq<Pending>, row: nat) returns (k: nat)
    requires OfRow(q, row) != []
    ensures k < |q| && q[k] == OfRow(q, row)[|OfRow(q, row)| - 1] && OldestAt(q, k, q[k])
    decreases |q|
  {
    var n := |q| - 1;
    assert q == q[..n] + [q[n]];
    OfRowConcat(q[..n], [q[n]], row);
    if q[n].row == row {
      k := n;
    } else {
      k := LastOfRow(q[..n], row);
    }
  }

  lemma IndexErase(q: seq<Pending>, bins: map<nat, seq<Pending>>, k: nat)
    requires Indexed(q, bins) && k < |q| && OldestAt(q, k, q[k])
    ensures bins[q[k].row][|bins[q[k].row]| - 1] == q[k]
    ensures Indexed(q[..k] + q[k + 1..],
      if |bins[q[k].row]| == 1 then bins - {q[k].row} else bins[q[k].row := bins[q[k].row][..|bins[q[k].row]| - 1]])
  {
    var row, q' := q[k].row, q[..k] + q[k + 1..];
    hide OfRow;
    EraseOldest(q, k, row);
    forall other: nat | other in bins && other != row ensures bins[other] == OfRow(q', other) {
      EraseOldest(q, k, other);
    }
    RowsKept(q, k, q');
    if |bins[row]| == 1 {
      DropBin(q', bins, row);
    } else {
      ShrinkBin(q', bins, row);
    }
  }

  lemma RowsKept(q: seq<Pending>, k: nat, q': seq<Pending>)
    requires k < |q| && q' == q[..k] + q[k + 1..]
    ensures forall i :: 0 <= i < |q'| ==> q'[i] in q
  {
  }

  /** The last request of a row is gone, and with it the row's bin. */
  lemma DropBin(q: seq<Pending>, bins: map<nat, seq<Pending>>, row: nat)
    requires row in bins && OfRow(q, row) == []
    requires forall other: nat :: other in bins && other != row ==> bins[other] != [] && bins[other] == OfRow(q, other)
    requires forall i :: 0 <= i < |q| ==> q[i].row in bins
    ensures Indexed(q, bins - {row})
  {
    hide OfRow;
    forall i | 0 <= i < |q| ensures q[i].row != row {
      OfRowHas(q, i);
    }
  }

  /** The oldest request of a row is gone, but not the last. */
  lemma ShrinkBin(q: seq<Pending>, bins: map<nat, seq<Pending>>, row: nat)
    requires row in bins && |bins[row]| > 1 && OfRow(q, row) == bins[row][..|bins[row]| - 1]
    requires forall other: nat :: other in bins && other != row ==> bins[other] != [] && bins[other] == OfRow(q, other)
    requires forall i :: 0 <= i < |q| ==> q[i].row in bins
    ensures Indexed(q, bins[row := bins[row][..|bins[row]| - 1]])
  {
    hide OfRow;
  }

  lemma {:induction false} OfRowHas(q: seq<Pending>, i: nat)
    requires i < |q|
    ensures q[i] in OfRow(q, q[i].row)
    decreases |q|
  {
    if i > 0 {
      OfRowHas(q[1..], i - 1);
    }
  }

  function Total(qs: seq<seq<Pending>>): nat {
    if qs == [] then 0 else |qs[0]| + Total(qs[1..])
  }

  lemma {:induction false} TotalUpdate(qs: seq<seq<Pending>>, b: nat, q: seq<Pending>)
    requires b < |qs|
    ensures Total(qs[b := q]) == Total(qs) - |qs[b]| + |q| && Total(qs) >= |qs[b]|
    decreases |qs|
  {
    if b == 0 {
      assert qs[b := q][1..] == qs[1..];
    } else {
      assert qs[b := q][1..] == qs[1..][b - 1 := q];
      TotalUpdate(qs[1..], b - 1, q);
    }
  }

  // ----- The scheduler

  /** The row that the next request of a bank is taken from. */
  ghost function Target(q: seq<Pending>, last: RowPointer, currRow: nat): nat
    requires q != []
  {
    if last.AtRow? then last.row
    else if OfRow(q, currRow) != [] then currRow
    else q[|q| - 1].row
  }

  class Scheduler {
    const numBanks: nat
    /** Pending requests of each bank, newest first. */
    var queue: seq<seq<Pending>>
    var bins: seq<map<nat, seq<Pending>>>
    var lastRow: seq<RowPointer>
    var numPending: nat

    ghost predicate Valid()
      reads this
    {
      && |queue| == |bins| == |lastRow| == numBanks
      && (forall b: nat :: b < numBanks ==> Indexed(queue[b], bins[b]))
      && (forall b: nat :: b < numBanks && lastRow[b].AtRow? ==> lastRow[b].row in bins[b])
      && numPending == Total(queue)
    }

    constructor (n: nat)
      ensures Valid() && numBanks == n && numPending == 0
      ensures forall b: nat :: b < n ==> queue[b] == [] && lastRow[b] == NoRow
    {
      numBanks := n;
      queue := seq(n, _ => []);
      bins := seq(n, _ => map[]);
      lastRow := seq(n, _ => NoRow);
      numPending := 0;
      new;
      TotalEmpty(queue);
    }

    /** Newest requests go to the front, of the queue and of the bin of their row. */
    method AddReq(bank: nat, req: Pending)
      requires Valid() && bank < numBanks
      modifies this
      ensures Valid() && queue == old(queue)[bank := [req] + old(queue)[bank]]
      ensures lastRow == old(lastRow) && numPending == old(numPending) + 1
    {
      hide Indexed, Total, OfRow;
      numPending := numPending + 1;
      TotalUpdate(queue, bank, [req] + queue[bank]);
      var bin := if req.row in bins[bank] then bins[bank][req.row] else [];
      AddIndexed(queue[bank], bins[bank], req);
      queue := queue[bank := [req] + queue[bank]];
      var updated: map<nat, seq<Pending>> := bins[bank][req.row := [req] + bin];
      bins := bins[bank := updated];
    }

    /** Picks the oldest request to the row being served, if there is one, else the oldest request to the
        open row, else the oldest request; it takes it out of the queue and of the index. */
    method Schedule(bank: nat, currRow: nat) returns (c: Choice)
      requires Valid() && bank < numBanks
      modifies this
      ensures Valid()
      ensures c.None? <==> old(queue)[bank] == []
      ensures c.None? ==> queue == old(queue) && lastRow == old(lastRow) && numPending == old(numPending)
      ensures c.Chosen? ==>
        && c.req.row == Target(old(queue)[bank], old(lastRow)[bank], currRow)
        && WithoutOldest(old(queue)[bank], queue[bank], c.req)
        && queue == old(queue)[bank := queue[bank]]
        && lastRow == old(lastRow)[bank := lastRow[bank]] && (lastRow[bank].AtRow? ==> lastRow[bank].row == c.req.row)
        && numPending == old(numPending) - 1
    {
      if queue[bank] == [] && lastRow[bank] == NoRow {
        return None;
      }
      PointAtRow(bank, currRow);
      var req := TakeOldest(bank);
      c := Chosen(req);
    }

    /** Keeps serving the current row, else turns to the open row, else to the row of the oldest request. */
    method PointAtRow(bank: nat, currRow: nat)
      requires Valid() && bank < numBanks && (queue[bank] != [] || lastRow[bank].AtRow?)
      modifies this`lastRow
      ensures Valid() && queue[bank] != []
      ensures lastRow == old(lastRow)[bank := AtRow(Target(queue[bank], old(lastRow)[bank], currRow))]
    {
      IndexedRow(queue[bank], bins[bank]);
      if lastRow[bank] == NoRow {
        if currRow !in bins[bank] {
          var req := queue[bank][|queue[bank]| - 1];
          lastRow := lastRow[bank := AtRow(req.row)];
        } else {
          lastRow := lastRow[bank := AtRow(currRow)];
        }
      }
    }

    /** Takes the oldest request to the row being served out of the queue and of the index. */
    method TakeOldest(bank: nat) returns (next: Pending)
      requires Valid() && bank < numBanks && lastRow[bank].AtRow?
      modifies this
      ensures Valid() && next.row == old(lastRow)[bank].row && numPending == old(numPending) - 1
      ensures WithoutOldest(old(queue)[bank], queue[bank], next) && queue == old(queue)[bank := queue[bank]]
      ensures lastRow == old(lastRow)[bank := lastRow[bank]] && (lastRow[bank].AtRow? ==> lastRow[bank].row == next.row)
    {
      hide OfRow, Total;
      var row := lastRow[bank].row;
      var bin := bins[bank][row];
      next := bin[|bin| - 1];
      ghost var q := queue[bank];
      ghost var k := LastOfRow(q, row);
      IndexErase(q, bins[bank], k);
      hide Indexed;
      var rest := Erase(queue[bank], next, k);
      TotalUpdate(queue, bank, rest);
      queue := queue[bank := rest];
      if |bin| == 1 {
        bins := bins[bank := bins[bank] - {row}];
        lastRow := lastRow[bank := NoRow];
      } else {
        var updated: map<nat, seq<Pending>> := bins[bank][row := bin[..|bin| - 1]];
        bins := bins[bank := updated];
      }
      numPending := numPending - 1;
    }
  }

  /** A row has a bin exactly when the queue has a request to it. */
  lemma IndexedRow(q: seq<Pending>, bins: map<nat, seq<Pending>>)
    requires Indexed(q, bins)
    ensures forall row: nat :: row in bins <==> OfRow(q, row) != []
    ensures q == [] ==> bins == map[]
  {
    forall row: nat | row !in bins ensures OfRow(q, row) == [] {
      OfRowEmpty(q, row);
    }
  }

  lemma {:induction false} TotalEmpty(qs: seq<seq<Pending>>)
    requires forall b :: 0 <= b < |qs| ==> qs[b] == []
    ensures Total(qs) == 0
  {
    if qs != [] {
      TotalEmpty(qs[1..]);
    }
  }

  lemma AddIndexed(q: seq<Pending>, bins: map<nat, seq<Pending>>, req: Pending)
    requires Indexed(q, bins)
    ensures Indexed([req] + q, bins[req.row := [req] + (if req.row in bins then bins[req.row] else [])])
  {
    hide OfRow;
    forall row: nat
      ensures OfRow([req] + q, row) == if row == req.row then [req] + OfRow(q, row) else OfRow(q, row)
    {
      OfRowFirst(req, q, row);
    }
    if req.row !in bins {
      OfRowEmpty(q, req.row);
    }
  }

  lemma OfRowFirst(r: Pending, q: seq<Pending>, row: nat)
    ensures OfRow([r] + q, row) == if row == r.row then [r] + OfRow(q, row) else OfRow(q, row)
  {
    assert ([r] + q)[1..] == q;
  }

  /** Removes the list node that holds `r`, the oldest request to its row. */
  method Erase(q: seq<Pending>, r: Pending, ghost k: nat) returns (rest: seq<Pending>)
    requires k < |q| && q[k] == r && OldestAt(q, k, r)
    ensures rest == q[..k] + q[k + 1..]
  {
    var i := |q| - 1;
    while q[i] != r
      invariant k <= i < |q|
      decreases i
    {
      i := i - 1;
    }
    rest := q[..i] + q[i + 1..];
  }
}
