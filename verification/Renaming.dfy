/** A program seen with a return address of its own, and what updates of the stack make of the difference. */
module Renaming {
  import opened SimtStack
  import opened Divergence

  // ----- Renaming the return address

  /** What stands for `x` when the return address `f` is `ret` in truth. */
  function Renamed(x: nat, f: nat, ret: nat): nat {
    if x == f then ret else x
  }

  function RenamedEntry(e: Entry, f: nat, ret: nat): Entry {
    Entry(Renamed(e.pc, f, ret), e.mask, Renamed(e.recvgPc, f, ret))
  }

  function RenamedStack(s: seq<Entry>, f: nat, ret: nat): (r: seq<Entry>)
    ensures |r| == |s| && forall i: nat :: i < |s| ==> r[i] == RenamedEntry(s[i], f, ret)
  {
    if s == [] then [] else RenamedStack(s[..|s| - 1], f, ret) + [RenamedEntry(s[|s| - 1], f, ret)]
  }

  /** No live thread takes the true return address for the reconvergence pc. */
  ghost predicate Unconfused(live: set<nat>, next: seq<nat>, recvg: nat, f: nat, ret: nat)
    requires InWarp(live, |next|)
  {
    forall t: nat :: t in live ==> next[t] != f && (recvg == f ==> next[t] != ret)
  }

  lemma {:induction false} SpreadRenamed(base: seq<Entry>, live: set<nat>, next: seq<nat>, topRecvg: nat, recvg: nat,
                                         f: nat, ret: nat)
    requires InWarp(live, |next|) && Unconfused(live, next, topRecvg, f, ret) && Unconfused(live, next, recvg, f, ret)
    ensures Spread(RenamedStack(base, f, ret), live, next, Renamed(topRecvg, f, ret), Renamed(recvg, f, ret))
      == RenamedStack(Spread(base, live, next, topRecvg, recvg), f, ret)
    decreases |live|
  {
    if live != {} {
      var g := Group(live, next);
      var q := next[Leader(live)];
      Smaller(live, g);
      if q == topRecvg || q == recvg {
        SpreadRenamed(base, live - g, next, topRecvg, recvg, f, ret);
      } else {
        var e := Entry(q, g, recvg);
        SpreadRenamed(base + [e], live - g, next, topRecvg, recvg, f, ret);
        assert RenamedStack(base + [e], f, ret) == RenamedStack(base, f, ret) + [RenamedEntry(e, f, ret)];
      }
    }
  }

  lemma {:induction false} SettleRenamed(below: seq<Entry>, top: Entry, live: set<nat>, next: seq<nat>, recvg: nat,
                                         f: nat, ret: nat)
    requires InWarp(live, |next|) && Unconfused(live, next, top.recvgPc, f, ret)
    requires Unconfused(live, next, recvg, f, ret)
    requires recvg == top.recvgPc <==> Renamed(recvg, f, ret) == Renamed(top.recvgPc, f, ret)
    ensures Settle(RenamedStack(below, f, ret), RenamedEntry(top, f, ret), live, next, Renamed(recvg, f, ret))
      == RenamedStack(Settle(below, top, live, next, recvg), f, ret)
    decreases |live|
  {
    if live != {} {
      var g := Group(live, next);
      var q := next[Leader(live)];
      Smaller(live, g);
      if q == top.recvgPc {
        SettleRenamed(below, top, live - g, next, recvg, f, ret);
      } else if live == g {
        assert RenamedStack(below + [Entry(q, g, top.recvgPc)], f, ret)
            == RenamedStack(below, f, ret) + [RenamedEntry(Entry(q, g, top.recvgPc), f, ret)];
      } else {
        var base := Reconverging(below, top, recvg);
        SpreadRenamed(base, live, next, top.recvgPc, recvg, f, ret);
        assert RenamedStack(base, f, ret)
            == Reconverging(RenamedStack(below, f, ret), RenamedEntry(top, f, ret), Renamed(recvg, f, ret));
      }
    }
  }

  // ----- The program with a return address of its own

  function Highest(s: seq<nat>): (m: nat)
    ensures forall k: nat :: k < |s| ==> s[k] <= m
  {
    if s == [] then 0
    else
      var m := Highest(s[..|s| - 1]);
      if s[|s| - 1] > m then s[|s| - 1] else m
  }

  function HighestOf(ss: seq<seq<nat>>): (m: nat)
    ensures forall i: nat, k: nat :: i < |ss| && k < |ss[i]| ==> ss[i][k] <= m
  {
    if ss == [] then 0
    else
      var m, n := HighestOf(ss[..|ss| - 1]), Highest(ss[|ss| - 1]);
      if m > n then m else n
  }

  /** An address that is no pc of the program. */
  function Elsewhere(p: Program): (f: nat)
    ensures f != NULL_PC && !IsPc(p, f)
  {
    var f := HighestOf(p.blocks) + NULL_PC + 1;
    f
  }

  function Moved(p: Program): Program {
    p.(returnPc := Elsewhere(p))
  }

  lemma SameCode(p: Program, x: nat)
    ensures IsPc(Moved(p), x) == IsPc(p, x)
    ensures forall b: nat, i: nat :: At(Moved(p), x, b, i) == At(p, x, b, i)
  {
    forall b: nat, i: nat ensures At(Moved(p), x, b, i) == At(p, x, b, i) {
    }
    if b: nat, i: nat :| At(p, x, b, i) {
      assert At(Moved(p), x, b, i);
    }
    if b: nat, i: nat :| At(Moved(p), x, b, i) {
      assert At(p, x, b, i);
    }
  }

  lemma MovedIsApart(p: Program)
    requires WellFormedProgram(p)
    ensures Apart(Moved(p))
  {
    var m := Moved(p);
    SameCode(p, NULL_PC);
    SameCode(p, m.returnPc);
    forall pc: nat, b: nat, i: nat, c: nat, j: nat | At(m, pc, b, i) && At(m, pc, c, j) ensures b == c && i == j {
      assert At(p, pc, b, i) && At(p, pc, c, j);
    }
  }

  lemma SameMoves(p: Program, pc: nat, pc': nat)
    requires WellFormedProgram(p) && Apart(Moved(p))
    ensures Moves(Moved(p), pc, pc') == Moves(p, pc, pc')
    ensures Finishes(Moved(p), pc) == Finishes(p, pc)
  {
    var m := Moved(p);
    forall b: nat, i: nat ensures At(m, pc, b, i) == At(p, pc, b, i) {
    }
  }

  lemma SameBlock(p: Program, pc: nat)
    requires WellFormedProgram(p) && Apart(Moved(p)) && IsPc(p, pc)
    ensures BlockAt(Moved(p), pc) == BlockAt(p, pc)
    ensures IsBranch(Moved(p), pc, BlockAt(p, pc)) == IsBranch(p, pc, BlockAt(p, pc))
  {
    var b: nat, i: nat :| At(p, pc, b, i);
    assert At(Moved(p), pc, b, i);
  }
}
