/** What every update keeps of the SIMT stack, for arbitrary next pcs and reconvergence pcs:
the masks form a strict laminar family, no live thread is dropped, and the depth is bounded. */
module SimtInvariants {
  import opened Collections
  import opened SimtStack

  // ----- Structure

  /** Entry `i` was split off entry `j`, which waits at the reconvergence pc of `i`; `j == -1` stands
      for the launch. The entries in between are siblings of `i`. */
  ghost predicate ParentOf(s: seq<Entry>, i: nat, j: int)
    requires i < |s|
  {
    && -1 <= j < i
    && (if j == -1 then s[i].recvgPc == NULL_PC else s[i].recvgPc == s[j].pc && s[i].mask < s[j].mask)
    && forall m :: j < m < i ==> s[m].recvgPc == s[i].recvgPc && s[m].mask !! s[i].mask
  }

  ghost predicate Linked(s: seq<Entry>, i: nat)
    requires i < |s|
  {
    s[i].mask != {} && s[i].pc != s[i].recvgPc && exists j: int :: ParentOf(s, i, j)
  }

  ghost predicate Structured(s: seq<Entry>) {
    forall i: nat :: i < |s| ==> Linked(s, i)
  }

  ghost predicate Covered(s: seq<Entry>, t: nat) {
    exists i :: 0 <= i < |s| && t in s[i].mask
  }

  /** Later masks are strictly inside earlier ones or disjoint from them. */
  ghost predicate Laminar(s: seq<Entry>) {
    forall i, k :: 0 <= i < k < |s| ==> s[k].mask < s[i].mask || s[k].mask !! s[i].mask
  }

  lemma {:induction false} LaminarPair(s: seq<Entry>, i: nat, k: nat)
    requires Structured(s) && i < k < |s|
    ensures s[k].mask < s[i].mask || s[k].mask !! s[i].mask
    decreases k
  {
    assert Linked(s, k);
    var j: int :| ParentOf(s, k, j);
    if i < j {
      LaminarPair(s, i, j);
    }
  }

  lemma StructuredIsLaminar(s: seq<Entry>)
    requires Structured(s)
    ensures Laminar(s)
  {
    forall i, k | 0 <= i < k < |s| ensures s[k].mask < s[i].mask || s[k].mask !! s[i].mask {
      LaminarPair(s, i, k);
    }
  }

  // ----- Depth

  /** `avail` contains what the parent `j` of entry `i` holds and no sibling before `i` has taken. */
  ghost predicate Available(s: seq<Entry>, i: nat, j: int, avail: set<nat>)
    requires i < |s| && ParentOf(s, i, j)
  {
    && s[i].mask <= avail
    && (j >= 0 ==> forall t :: t in s[j].mask && (forall m :: j < m < i ==> t !in s[m].mask) ==> t in avail)
  }

  /** From entry `i` up there are fewer than twice as many entries as there are threads to share. */
  lemma {:induction false} DepthFrom(s: seq<Entry>, u: set<nat>, i: nat, j: int, avail: set<nat>)
    requires Structured(s) && i < |s| && ParentOf(s, i, j) && Available(s, i, j, avail)
    requires forall k :: 0 <= k < |s| ==> s[k].mask <= u
    requires j == -1 ==> forall t :: t in u && (forall m :: j < m < i ==> t !in s[m].mask) ==> t in avail
    ensures |s| - i <= 2 * |avail| - 1
    ensures s[i].mask != avail ==> |s| - i <= 2 * |avail| - 2
    decreases |s| - i
  {
    assert Linked(s, i);
    SubsetSize(s[i].mask, avail);
    SubsetSize({}, s[i].mask);
    if i + 1 < |s| {
      assert Linked(s, i + 1);
      var k: int :| ParentOf(s, i + 1, k);
      if k == i {
        DepthFrom(s, u, i + 1, i, s[i].mask);
      } else {
        SameParent(s, i, j, k);
        DepthFrom(s, u, i + 1, j, avail - s[i].mask);
      }
    }
  }

  lemma SameParent(s: seq<Entry>, i: nat, j: int, k: int)
    requires Structured(s) && i + 1 < |s| && ParentOf(s, i, j) && ParentOf(s, i + 1, k) && k != i
    ensures j == k
  {
    assert j >= 0 ==> Linked(s, j);
    assert k >= 0 ==> Linked(s, k);
  }

  lemma WarpSize(u: set<nat>, n: nat)
    requires InWarp(u, n)
    ensures |u| <= n
    decreases n
  {
    if n > 0 {
      WarpSize(u - {n - 1}, n - 1);
      SubsetSize(u - {n - 1}, u);
      if n - 1 in u {
        assert u == (u - {n - 1}) + {n - 1};
      } else {
        assert u == u - {n - 1};
      }
    } else {
      assert u == {};
    }
  }

  lemma DepthBound(s: seq<Entry>, u: set<nat>, n: nat)
    requires Structured(s) && InWarp(u, n) && n > 0
    requires forall k :: 0 <= k < |s| ==> s[k].mask <= u
    ensures |s| <= 2 * n - 1
  {
    WarpSize(u, n);
    if s != [] {
      assert Linked(s, 0);
      var j: int :| ParentOf(s, 0, j);
      DepthFrom(s, u, 0, -1, u);
    }
  }

  // ----- One update

  /** Threads moved by an update never move to the null pc. */
  ghost predicate Legal(s: seq<Entry>, done: set<nat>, next: seq<nat>) {
    && s != []
    && InWarp(s[|s| - 1].mask, |next|)
    && forall t :: t in s[|s| - 1].mask - done ==> next[t] != NULL_PC
  }

  lemma PrefixStructured(s: seq<Entry>, n: nat)
    requires Structured(s) && n <= |s|
    ensures Structured(s[..n])
  {
    forall i: nat | i < |s[..n]| ensures Linked(s[..n], i) {
      assert Linked(s, i);
      var j: int :| ParentOf(s, i, j);
      assert ParentOf(s[..n], i, j);
    }
  }

  lemma PushStructured(s: seq<Entry>, e: Entry, j: int)
    requires Structured(s) && e.mask != {} && e.pc != e.recvgPc && ParentOf(s + [e], |s|, j)
    ensures Structured(s + [e])
  {
    forall i: nat | i < |s + [e]| ensures Linked(s + [e], i) {
      if i < |s| {
        assert Linked(s, i);
        var k: int :| ParentOf(s, i, k);
        assert ParentOf(s + [e], i, k);
      }
    }
  }

  /** The groups of `live` may be stacked on `base` as children of entry `j`. */
  ghost predicate Stackable(base: seq<Entry>, live: set<nat>, next: seq<nat>, recvg: nat, j: int)
    requires InWarp(live, |next|)
  {
    && -1 <= j < |base|
    && (if j == -1 then recvg == NULL_PC
        else recvg == base[j].pc && live <= base[j].mask
             && (live == base[j].mask && live != {} ==> live != Group(live, next)))
    && forall m :: j < m < |base| ==> base[m].recvgPc == recvg && base[m].mask !! live
  }

  lemma {:induction false} SpreadStructured(base: seq<Entry>, live: set<nat>, next: seq<nat>, topRecvg: nat,
                                            recvg: nat, j: int)
    requires Structured(base) && InWarp(live, |next|) && Stackable(base, live, next, recvg, j)
    ensures var r := Spread(base, live, next, topRecvg, recvg);
      && Structured(r) && base <= r
      && (forall i :: |base| <= i < |r| ==> r[i].mask <= live)
      && (forall t :: t in live && next[t] != topRecvg && next[t] != recvg ==> Covered(r, t))
    decreases |live|
  {
    if live != {} {
      var g := Group(live, next);
      var p := next[Leader(live)];
      var rest := live - g;
      Smaller(live, g);
      if p == topRecvg || p == recvg {
        SpreadStructured(base, rest, next, topRecvg, recvg, j);
      } else {
        var e := Entry(p, g, recvg);
        assert ParentOf(base + [e], |base|, j);
        PushStructured(base, e, j);
        SpreadStructured(base + [e], rest, next, topRecvg, recvg, j);
        var r := Spread(base, live, next, topRecvg, recvg);
        assert r[|base|] == e;
        forall i | |base| <= i < |r| ensures r[i].mask <= live {
          if i > |base| {
            assert r[i].mask <= rest;
          }
        }
        forall t | t in live && next[t] != topRecvg && next[t] != recvg ensures Covered(r, t) {
          assert t in g ==> t in r[|base|].mask;
        }
      }
    }
  }

  ghost predicate InsideOne(m: set<nat>, s: seq<Entry>) {
    exists k :: 0 <= k < |s| && m <= s[k].mask
  }

  /** One update keeps the structure, keeps masks inside the old ones, and drops no live thread. */
  lemma {:induction false} SettleStructured(below: seq<Entry>, top: Entry, live: set<nat>, next: seq<nat>, recvg: nat)
    requires Structured(below + [top]) && live <= top.mask && InWarp(live, |next|)
    requires forall t :: t in live ==> next[t] != NULL_PC
    ensures var r := Settle(below, top, live, next, recvg);
      && Structured(r)
      && (forall i :: 0 <= i < |r| ==> InsideOne(r[i].mask, below + [top]))
      && (forall t :: t in live || Covered(below, t) ==> Covered(r, t))
    decreases |live|
  {
    var s := below + [top];
    var r := Settle(below, top, live, next, recvg);
    PrefixStructured(s, |below|);
    assert s[..|below|] == below;
    assert Linked(s, |below|);
    var j: int :| ParentOf(s, |below|, j);
    if live == {} {
    } else {
      var g := Group(live, next);
      var p := next[Leader(live)];
      Smaller(live, g);
      if p == top.recvgPc {
        SettleStructured(below, top, live - g, next, recvg);
        forall t | t in g ensures Covered(r, t) {
          assert t in below[j].mask;
          assert Covered(below, t);
        }
      } else if live == g {
        var e := Entry(p, g, top.recvgPc);
        assert ParentOf(below + [e], |below|, j);
        PushStructured(below, e, j);
        assert r[|below|] == e;
        assert forall t :: Covered(below, t) ==> Covered(r, t) by { CoverPrefix(below, r); }
      } else {
        DivergeStructured(below, top, live, next, recvg, j);
      }
    }
  }

  lemma CoverPrefix(s: seq<Entry>, r: seq<Entry>)
    requires |s| <= |r| && forall i :: 0 <= i < |s| ==> s[i].mask <= r[i].mask
    ensures forall t :: Covered(s, t) ==> Covered(r, t)
  {
    forall t | Covered(s, t) ensures Covered(r, t) {
      var i :| 0 <= i < |s| && t in s[i].mask;
      assert t in r[i].mask;
    }
  }

  lemma DivergeStructured(below: seq<Entry>, top: Entry, live: set<nat>, next: seq<nat>, recvg: nat, j: int)
    requires Structured(below + [top]) && live <= top.mask && InWarp(live, |next|) && live != {}
    requires forall t :: t in live ==> next[t] != NULL_PC
    requires ParentOf(below + [top], |below|, j)
    requires next[Leader(live)] != top.recvgPc && live != Group(live, next)
    ensures var r := Settle(below, top, live, next, recvg);
      && Structured(r)
      && (forall i :: 0 <= i < |r| ==> InsideOne(r[i].mask, below + [top]))
      && (forall t :: t in live || Covered(below, t) ==> Covered(r, t))
  {
    hide Structured, Linked, Spread;
    var s := below + [top];
    PrefixStructured(s, |below|);
    assert s[..|below|] == below;
    var base := Reconverging(below, top, recvg);
    var r := Settle(below, top, live, next, recvg);
    assert r == Spread(base, live, next, top.recvgPc, recvg);
    if recvg != top.recvgPc {
      assert ParentOf(base, |below|, j);
      PushStructured(below, top.(pc := recvg), j);
      SpreadStructured(base, live, next, top.recvgPc, recvg, |below|);
      hide ParentOf;
      CoverPrefix(s, r);
      CoverPrefix(below, r);
      forall t | t in live ensures Covered(r, t) {
        assert t in s[|below|].mask;
        assert Covered(s, t);
      }
    } else {
      SpreadStructured(base, live, next, top.recvgPc, recvg, j);
      CoverPrefix(below, r);
      forall t | t in live ensures Covered(r, t) {
        if next[t] == recvg {
          assert t in below[j].mask;
          assert Covered(below, t);
        }
      }
      hide ParentOf;
    }
    forall i | 0 <= i < |r| ensures InsideOne(r[i].mask, s) {
      assert r[i].mask <= s[if i < |base| then i else |below|].mask;
    }
  }

  // ----- Whole runs

  /** The arguments of one call of update. */
  datatype Move = Move(done: set<nat>, next: seq<nat>, recvg: nat)

  ghost predicate Enabled(s: seq<Entry>, moves: seq<Move>, warpSize: nat)
    requires moves != []
  {
    var n := |moves| - 1;
    && |moves[n].next| == warpSize
    && Legal(s, moves[n].done, moves[n].next)
    && (n > 0 ==> moves[n - 1].done <= moves[n].done)
  }

  /** `s` is the stack after launching `launched` at `startPc` and the updates `moves`. */
  ghost predicate Run(warpSize: nat, startPc: nat, launched: set<nat>, moves: seq<Move>, s: seq<Entry>)
    decreases |moves|
  {
    if moves == [] then s == [Entry(startPc, launched, NULL_PC)]
    else
      var n := |moves| - 1;
      exists s0 ::
        && Run(warpSize, startPc, launched, moves[..n], s0)
        && Enabled(s0, moves, warpSize)
        && s == Updated(s0, moves[n].done, moves[n].next, moves[n].recvg)
  }

  ghost function DoneAfter(moves: seq<Move>): set<nat> {
    if moves == [] then {} else moves[|moves| - 1].done
  }

  lemma {:induction false} RunStructured(warpSize: nat, startPc: nat, launched: set<nat>, moves: seq<Move>,
                                         s: seq<Entry>)
    requires Run(warpSize, startPc, launched, moves, s)
    requires startPc != NULL_PC && launched != {}
    ensures Structured(s)
    ensures forall i :: 0 <= i < |s| ==> s[i].mask <= launched
    ensures forall t :: t in launched && t !in DoneAfter(moves) ==> Covered(s, t)
    decreases |moves|
  {
    if moves == [] {
      assert ParentOf(s, 0, -1);
      assert Linked(s, 0);
      assert forall t :: t in launched ==> t in s[0].mask;
    } else {
      var n := |moves| - 1;
      var m := moves[n];
      var s0: seq<Entry> :|
        && Run(warpSize, startPc, launched, moves[..n], s0)
        && Enabled(s0, moves, warpSize)
        && s == Updated(s0, m.done, m.next, m.recvg);
      RunStructured(warpSize, startPc, launched, moves[..n], s0);
      UpdateStructured(s0, launched, m.done, m.next, m.recvg);
    }
  }

  /** One update keeps the structure, and covers what was covered and is not done. */
  lemma UpdateStructured(s: seq<Entry>, launched: set<nat>, done: set<nat>, next: seq<nat>, recvg: nat)
    requires s != [] && Structured(s) && InWarp(s[|s| - 1].mask, |next|)
    requires forall i :: 0 <= i < |s| ==> s[i].mask <= launched
    requires forall t :: t in s[|s| - 1].mask - done ==> next[t] != NULL_PC
    ensures var r := Updated(s, done, next, recvg);
      && Structured(r) && (forall i :: 0 <= i < |r| ==> r[i].mask <= launched)
      && forall t :: Covered(s, t) && t !in done ==> Covered(r, t)
  {
    hide Structured, Settle;
    var top, below := s[|s| - 1], s[..|s| - 1];
    assert s == below + [top];
    SettleStructured(below, top, top.mask - done, next, recvg);
    forall t | Covered(s, t) && t !in top.mask ensures Covered(below, t) {
      var i :| 0 <= i < |s| && t in s[i].mask;
      assert t in below[i].mask;
    }
  }

  /** In every run: the masks are non-empty, nested or disjoint and all different; no live launched
      thread is missing from the stack; and the depth stays below twice the warp size. */
  lemma RunIsSafe(warpSize: nat, startPc: nat, launched: set<nat>, moves: seq<Move>, s: seq<Entry>)
    requires Run(warpSize, startPc, launched, moves, s)
    requires startPc != NULL_PC && launched != {} && InWarp(launched, warpSize)
    ensures Laminar(s) && forall i :: 0 <= i < |s| ==> s[i].mask != {} && s[i].mask <= launched
    ensures forall t :: t in launched && t !in DoneAfter(moves) ==> Covered(s, t)
    ensures |s| <= 2 * warpSize - 1
  {
    RunStructured(warpSize, startPc, launched, moves, s);
    StructuredIsLaminar(s);
    forall i: nat | i < |s| ensures s[i].mask != {} {
      assert Linked(s, i);
    }
    var t :| t in launched;
    DepthBound(s, launched, warpSize);
  }
}
