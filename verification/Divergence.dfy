/** Divergence control: what one step of a warp keeps when every branch reconverges at its immediate
postdominator and the return address is no pc of the program. `ReturnAddress` lifts that last condition
and draws the conclusion for whole runs. */
module Divergence {
  import opened FlowGraph
  import opened SimtStack
  import opened SimtInvariants
  import Postdominators

  // ----- Programs

  /** A call-free function: its flow graph, the instruction pcs of each block, which blocks end in a
      branch, and the pc that stands for the return address of the function. For a kernel that is pc 0, where
      the first kernel begins; for all others it is no pc at all. */
  datatype Program = Program(g: Graph, blocks: seq<seq<nat>>, branch: seq<bool>, returnPc: nat)

  ghost predicate At(p: Program, pc: nat, b: nat, i: nat) {
    b < |p.blocks| && i < |p.blocks[b]| && p.blocks[b][i] == pc
  }

  ghost predicate IsPc(p: Program, pc: nat) {
    exists b: nat, i: nat :: At(p, pc, b, i)
  }

  ghost predicate WellFormedProgram(p: Program) {
    && WellFormed(p.g) && AllReachExit(p.g)
    && |p.blocks| == |p.branch| == |p.g|
    && p.blocks[Exit(p.g)] == [] && (forall b :: 0 <= b < Exit(p.g) ==> p.blocks[b] != [])
    && (forall pc: nat, b: nat, i: nat, c: nat, j: nat :: At(p, pc, b, i) && At(p, pc, c, j) ==> b == c && i == j)
    && !IsPc(p, NULL_PC) && (IsPc(p, p.returnPc) ==> p.returnPc == p.blocks[0][0]) && p.returnPc != NULL_PC
    // a branch goes to blocks with instructions; any other block falls through to at most one block
    && (forall b :: 0 <= b < Exit(p.g) ==> if p.branch[b] then Exit(p.g) !in p.g[b] else
         forall s, u :: s in p.g[b] && u in p.g[b] && s != Exit(p.g) && u != Exit(p.g) ==> s == u)
  }

  /** The return address is no pc of the program. */
  ghost predicate Apart(p: Program) {
    WellFormedProgram(p) && !IsPc(p, p.returnPc)
  }

  /** Where a block begins; the exit block has no instructions and stands for the return address. */
  function BeginPc(p: Program, b: nat): nat
    requires b < |p.blocks|
  {
    if p.blocks[b] == [] then p.returnPc else p.blocks[b][0]
  }

  ghost function BlockAt(p: Program, pc: nat): (b: nat)
    requires WellFormedProgram(p)
    ensures forall c: nat, i: nat :: At(p, pc, c, i) ==> b == c
    ensures b < |p.g|
  {
    if IsPc(p, pc) then
      var b: nat, i: nat :| At(p, pc, b, i);
      b
    else Exit(p.g)
  }

  /** A thread may go from `pc` to `pc'`. */
  ghost predicate Moves(p: Program, pc: nat, pc': nat)
    requires WellFormedProgram(p)
  {
    exists b: nat, i: nat :: At(p, pc, b, i) &&
      if i + 1 < |p.blocks[b]| then pc' == p.blocks[b][i + 1]
      else exists s :: s in p.g[b] && s != Exit(p.g) && pc' == p.blocks[s][0]
  }

  /** A thread may finish at `pc`. */
  ghost predicate Finishes(p: Program, pc: nat)
    requires WellFormedProgram(p)
  {
    exists b: nat, i: nat :: At(p, pc, b, i) && i + 1 == |p.blocks[b]| && Exit(p.g) in p.g[b]
  }

  /** `pc` is the branch that ends block `b`. */
  ghost predicate IsBranch(p: Program, pc: nat, b: nat)
    requires WellFormedProgram(p)
  {
    b < Exit(p.g) && p.branch[b] && At(p, pc, b, |p.blocks[b]| - 1)
  }

  /** The reconvergence pc of the instruction at `pc`: where the immediate postdominator of its block
      begins if it is a branch, and none otherwise. */
  ghost function ConvergePc(p: Program, ip: seq<int>, pc: nat): nat
    requires WellFormedProgram(p) && Postdominators.AreImmediate(p.g, ip)
  {
    var b := BlockAt(p, pc);
    if IsBranch(p, pc, b) then BeginPc(p, ip[b]) else NULL_PC
  }

  // ----- Warps

  datatype Warp = Warp(stack: seq<Entry>, pcs: seq<nat>, done: set<nat>)

  function NextPcs(w: Warp): (next: seq<nat>)
    ensures |next| == |w.pcs|
    ensures forall t: nat :: t < |w.pcs| && t !in w.done ==> next[t] == w.pcs[t]
  {
    seq(|w.pcs|, t requires 0 <= t < |w.pcs| => if t in w.done then NULL_PC else w.pcs[t])
  }

  /** The threads of the top entry execute, each from its own pc, and the stack is updated. */
  ghost predicate Step(p: Program, ip: seq<int>, w: Warp, w': Warp)
    requires WellFormedProgram(p) && Postdominators.AreImmediate(p.g, ip)
  {
    && w.stack != [] && |w'.pcs| == |w.pcs|
    && var top := w.stack[|w.stack| - 1];
    && InWarp(top.mask, |w.pcs|)
    && w.done <= w'.done && w'.done - w.done <= top.mask
    && (forall t: nat :: t in top.mask && t !in w.done ==>
         if t in w'.done then Finishes(p, w.pcs[t]) else Moves(p, w.pcs[t], w'.pcs[t]))
    && (forall t: nat :: t < |w.pcs| && t !in top.mask ==> w'.pcs[t] == w.pcs[t])
    && w'.stack == Updated(w.stack, w'.done, NextPcs(w'), ConvergePc(p, ip, top.pc))
  }

  ghost predicate Launched(p: Program, w: Warp, launched: set<nat>)
    requires WellFormedProgram(p)
  {
    && launched != {} && InWarp(launched, |w.pcs|) && w.done == {}
    && w.stack == [Entry(p.blocks[0][0], launched, NULL_PC)]
    && forall t: nat :: t in launched ==> w.pcs[t] == p.blocks[0][0]
  }

  /** `run` goes from a launch through steps, each taken while some launched thread is live. */
  ghost predicate IsRun(p: Program, ip: seq<int>, launched: set<nat>, run: seq<Warp>)
    requires WellFormedProgram(p) && Postdominators.AreImmediate(p.g, ip)
  {
    && run != [] && Launched(p, run[0], launched)
    && forall i :: 0 <= i < |run| - 1 ==> launched - run[i].done != {} && Step(p, ip, run[i], run[i + 1])
  }

  // ----- What every reachable state satisfies

  /** The reconvergence block of an entry strictly postdominates the block it is in. */
  ghost predicate Converges(p: Program, pc: nat, recvgPc: nat)
    requires WellFormedProgram(p)
  {
    var r := BlockAt(p, recvgPc);
    recvgPc == BeginPc(p, r) && StrictlyPostdominates(p.g, r, BlockAt(p, pc))
  }

  ghost predicate EntryOk(p: Program, s: seq<Entry>, i: nat)
    requires WellFormedProgram(p) && i < |s|
  {
    if i == 0 then s[0].recvgPc == NULL_PC && (s[0].pc == p.returnPc || IsPc(p, s[0].pc))
    else s[i].recvgPc != NULL_PC && IsPc(p, s[i].pc) && Converges(p, s[i].pc, s[i].recvgPc)
  }

  ghost predicate InSync(w: Warp, i: nat, t: nat)
    requires i < |w.stack| && t < |w.pcs|
  {
    t in w.stack[i].mask && t !in w.done && (forall k :: i < k < |w.stack| ==> t !in w.stack[k].mask) ==>
      w.pcs[t] == w.stack[i].pc
  }

  ghost predicate Sound(p: Program, w: Warp, launched: set<nat>)
    requires WellFormedProgram(p)
  {
    && InWarp(launched, |w.pcs|) && w.done <= launched
    && Structured(w.stack)
    && (forall i: nat :: i < |w.stack| ==> w.stack[i].mask <= launched)
    && (forall i: nat :: i < |w.stack| ==> EntryOk(p, w.stack, i))
    && (forall i: nat :: i < |w.stack| && w.stack[i].pc != p.returnPc ==> w.stack[i].mask !! w.done)
    && (forall t: nat :: t in launched && t !in w.done ==> Covered(w.stack, t) && IsPc(p, w.pcs[t]))
    && (forall i: nat, t: nat :: i < |w.stack| && t < |w.pcs| ==> InSync(w, i, t))
  }

  // ----- The shape of an updated stack

  /** `r` is `base` with entries for groups of `live` on top: every thread of a group goes to the pc of
      its entry, and every thread that has not reached a reconvergence pc is in a group. */
  ghost predicate Shape(r: seq<Entry>, base: seq<Entry>, live: set<nat>, next: seq<nat>, topRecvg: nat, recvg: nat)
    requires InWarp(live, |next|)
  {
    && base <= r
    && (forall i :: |base| <= i < |r| ==>
         && r[i].recvgPc == recvg && r[i].mask != {} && r[i].mask <= live && r[i].pc != topRecvg && r[i].pc != recvg
         && forall t :: t in r[i].mask ==> next[t] == r[i].pc)
    && (forall t :: t in live && next[t] != topRecvg && next[t] != recvg ==> InGroup(r, |base|, t))
  }

  ghost predicate InGroup(r: seq<Entry>, n: nat, t: nat) {
    exists i :: n <= i < |r| && t in r[i].mask
  }

  ghost predicate Differ(live: set<nat>, next: seq<nat>)
    requires InWarp(live, |next|)
  {
    exists t, u :: t in live && u in live && next[t] != next[u]
  }

  lemma {:induction false} SpreadShape(base: seq<Entry>, live: set<nat>, next: seq<nat>, topRecvg: nat, recvg: nat)
    requires InWarp(live, |next|)
    ensures Shape(Spread(base, live, next, topRecvg, recvg), base, live, next, topRecvg, recvg)
    decreases |live|
  {
    if live != {} {
      var g := Group(live, next);
      var q := next[Leader(live)];
      Smaller(live, g);
      var r := Spread(base, live, next, topRecvg, recvg);
      if q == topRecvg || q == recvg {
        SpreadShape(base, live - g, next, topRecvg, recvg);
      } else {
        var e := Entry(q, g, recvg);
        SpreadShape(base + [e], live - g, next, topRecvg, recvg);
        assert r[|base|] == e;
        forall t | t in live && next[t] != topRecvg && next[t] != recvg ensures InGroup(r, |base|, t) {
          if t !in g {
            assert InGroup(r, |base| + 1, t);
          }
        }
      }
    }
  }

  /** The highest thread of `a` is above every thread of `b`. */
  ghost predicate Higher(a: set<nat>, b: set<nat>) {
    exists t: nat :: t in a && forall u: nat :: u in b ==> u < t
  }

  /** From entry `n` on, the entries are stacked by their highest threads, the highest below. */
  ghost predicate Stacked(r: seq<Entry>, n: nat) {
    forall i: nat, j: nat :: n <= i < j < |r| ==> Higher(r[i].mask, r[j].mask)
  }

  /** That is how groups are stacked. */
  lemma {:induction false} SpreadOrder(base: seq<Entry>, live: set<nat>, next: seq<nat>, topRecvg: nat, recvg: nat)
    requires InWarp(live, |next|)
    ensures Stacked(Spread(base, live, next, topRecvg, recvg), |base|)
    decreases |live|
  {
    hide Stacked, Leader, Shape;
    if live == {} {
      NoneStacked(base);
    } else {
      var g, top := Group(live, next), Leader(live);
      Smaller(live, g);
      if next[top] == topRecvg || next[top] == recvg {
        SpreadOrder(base, live - g, next, topRecvg, recvg);
      } else {
        var e := Entry(next[top], g, recvg);
        SpreadOrder(base + [e], live - g, next, topRecvg, recvg);
        SpreadShape(base + [e], live - g, next, topRecvg, recvg);
        StackBelow(Spread(base + [e], live - g, next, topRecvg, recvg), base, e, live - g, next, topRecvg, recvg, top);
      }
    }
  }

  lemma NoneStacked(r: seq<Entry>)
    ensures Stacked(r, |r|)
  {
  }

  lemma StackBelow(r: seq<Entry>, base: seq<Entry>, e: Entry, rest: set<nat>, next: seq<nat>, topRecvg: nat,
                   recvg: nat, top: nat)
    requires InWarp(rest, |next|) && Shape(r, base + [e], rest, next, topRecvg, recvg) && Stacked(r, |base| + 1)
    requires top in e.mask && forall u: nat :: u in rest ==> u < top
    ensures Stacked(r, |base|)
  {
    hide Higher, InGroup;
    assert r[|base|] == (base + [e])[|base|];
    forall j: nat | |base| < j < |r| ensures Higher(e.mask, r[j].mask) {
      assert r[j].mask <= rest;
      IsHigher(e.mask, r[j].mask, top);
    }
  }

  lemma IsHigher(a: set<nat>, b: set<nat>, t: nat)
    requires t in a && forall u: nat :: u in b ==> u < t
    ensures Higher(a, b)
  {
  }

  /** Either the top entry is replaced by groups that keep its reconvergence pc, more than one only if
      the threads differ and `recvg` is that pc; or it stays to wait at `recvg` below the groups. */
  ghost predicate Outcome(r: seq<Entry>, below: seq<Entry>, top: Entry, live: set<nat>, next: seq<nat>, recvg: nat)
    requires InWarp(live, |next|)
  {
    || (Shape(r, below, live, next, top.recvgPc, top.recvgPc)
        && (|r| <= |below| + 1 || (recvg == top.recvgPc && Differ(live, next))))
    || (recvg != top.recvgPc && Differ(live, next)
        && Shape(r, below + [top.(pc := recvg)], live, next, top.recvgPc, recvg))
  }

  lemma {:induction false} SettleShape(below: seq<Entry>, top: Entry, live: set<nat>, next: seq<nat>, recvg: nat)
    requires InWarp(live, |next|)
    ensures Outcome(Settle(below, top, live, next, recvg), below, top, live, next, recvg)
    decreases |live|
  {
    if live != {} {
      var g := Group(live, next);
      var q := next[Leader(live)];
      Smaller(live, g);
      var r := Settle(below, top, live, next, recvg);
      if q == top.recvgPc {
        SettleShape(below, top, live - g, next, recvg);
        hide Settle;
        OutcomeGrows(r, below, top, live, g, next, recvg);
      } else if live == g {
        assert r[|below|].mask == live;
        assert Shape(r, below, live, next, top.recvgPc, top.recvgPc);
      } else {
        var t :| t in live - g;
        assert next[t] != next[Leader(live)];
        SpreadShape(Reconverging(below, top, recvg), live, next, top.recvgPc, recvg);
        hide Shape, Settle;
      }
    }
  }

  /** Threads that have reached the reconvergence pc of the top entry need no group. */
  lemma OutcomeGrows(r: seq<Entry>, below: seq<Entry>, top: Entry, live: set<nat>, g: set<nat>, next: seq<nat>,
                     recvg: nat)
    requires InWarp(live, |next|) && Outcome(r, below, top, live - g, next, recvg)
    requires forall t :: t in live && t in g ==> next[t] == top.recvgPc
    ensures Outcome(r, below, top, live, next, recvg)
  {
    if Differ(live - g, next) {
      var t, u :| t in live - g && u in live - g && next[t] != next[u];
      assert t in live && u in live;
    }
    hide Differ;
    if Shape(r, below, live - g, next, top.recvgPc, top.recvgPc) {
      ShapeGrows(r, below, live, g, next, top.recvgPc, top.recvgPc);
    }
    if Shape(r, below + [top.(pc := recvg)], live - g, next, top.recvgPc, recvg) {
      ShapeGrows(r, below + [top.(pc := recvg)], live, g, next, top.recvgPc, recvg);
    }
    hide Shape;
  }

  lemma ShapeGrows(r: seq<Entry>, base: seq<Entry>, live: set<nat>, g: set<nat>, next: seq<nat>, topRecvg: nat,
                   recvg: nat)
    requires InWarp(live, |next|) && Shape(r, base, live - g, next, topRecvg, recvg)
    requires forall t :: t in live && t in g ==> next[t] == topRecvg
    ensures Shape(r, base, live, next, topRecvg, recvg)
  {
    forall i | |base| <= i < |r| ensures r[i].mask <= live {
      assert r[i].mask <= live - g;
    }
    forall t | t in live && next[t] != topRecvg && next[t] != recvg ensures InGroup(r, |base|, t) {
      assert t in live - g;
    }
  }

  // ----- One thread's move

  lemma BeginOfBlock(p: Program, b: nat)
    requires Apart(p) && b < |p.g|
    ensures BlockAt(p, BeginPc(p, b)) == b
    ensures BeginPc(p, b) != NULL_PC
    ensures b != Exit(p.g) ==> At(p, BeginPc(p, b), b, 0)
  {
    if b != Exit(p.g) {
      assert At(p, BeginPc(p, b), b, 0);
    }
  }

  /** A thread that moves without reaching its reconvergence pc keeps converging to it. */
  lemma MoveConverges(p: Program, pc: nat, pc': nat, recvgPc: nat)
    requires Apart(p) && Moves(p, pc, pc') && Converges(p, pc, recvgPc) && pc' != recvgPc
    ensures IsPc(p, pc') && Converges(p, pc', recvgPc)
  {
    var r := BlockAt(p, recvgPc);
    var b: nat, i: nat :| At(p, pc, b, i) &&
      if i + 1 < |p.blocks[b]| then pc' == p.blocks[b][i + 1]
      else exists s :: s in p.g[b] && s != Exit(p.g) && pc' == p.blocks[s][0];
    if i + 1 < |p.blocks[b]| {
      assert At(p, pc', b, i + 1);
    } else {
      var s :| s in p.g[b] && s != Exit(p.g) && pc' == p.blocks[s][0];
      assert At(p, pc', s, 0);
      PostdominatesSuccessor(p.g, r, b, s);
    }
  }

  /** Threads that leave the same pc for different ones have executed a branch. */
  lemma DivergenceIsBranch(p: Program, pc: nat, x: nat, y: nat)
    requires WellFormedProgram(p) && Moves(p, pc, x) && Moves(p, pc, y) && x != y
    ensures IsBranch(p, pc, BlockAt(p, pc))
  {
    var b: nat, i: nat :| At(p, pc, b, i);
  }

  /** No thread finishes at a branch. */
  lemma BranchDoesNotFinish(p: Program, pc: nat, b: nat)
    requires Apart(p) && IsBranch(p, pc, b)
    ensures !Finishes(p, pc)
  {
  }

  /** A block in which a thread finishes can only reconverge at the return address. */
  lemma FinishConvergesAtReturn(p: Program, pc: nat, recvgPc: nat)
    requires Apart(p) && Finishes(p, pc) && Converges(p, pc, recvgPc)
    ensures recvgPc == p.returnPc
  {
    var b: nat, i: nat :| At(p, pc, b, i) && i + 1 == |p.blocks[b]| && Exit(p.g) in p.g[b];
    var r := BlockAt(p, recvgPc);
    PostdominatesSuccessor(p.g, r, b, Exit(p.g));
    OnlyExitPostdominatesExit(p.g, r);
  }

  /** A diverging entry that has to wait at a new pc converges there to its old reconvergence pc, and
      none of its threads goes straight to the old one. */
  lemma BranchConverges(p: Program, ip: seq<int>, pc: nat, b: nat, recvgPc: nat)
    requires Apart(p) && Postdominators.AreImmediate(p.g, ip)
    requires IsBranch(p, pc, b) && Converges(p, pc, recvgPc) && recvgPc != BeginPc(p, ip[b])
    ensures ip[b] != Exit(p.g)
    ensures Converges(p, BeginPc(p, ip[b]), recvgPc)
    ensures forall pc': nat :: Moves(p, pc, pc') ==> pc' != recvgPc
  {
    var n: nat := ip[b];
    var r := BlockAt(p, recvgPc);
    BeginOfBlock(p, n);
    assert StrictlyPostdominates(p.g, r, b) && Postdominates(p.g, r, n);
    if n == Exit(p.g) {
      OnlyExitPostdominatesExit(p.g, r);
    }
    forall pc': nat | Moves(p, pc, pc') ensures pc' != recvgPc {
      var s :| s in p.g[b] && s != Exit(p.g) && pc' == p.blocks[s][0];
      assert At(p, pc', s, 0);
      if pc' == recvgPc {
        PostdominatesSuccessor(p.g, n, b, s);
        PostdominanceAntisymmetric(p.g, n, r);
      }
    }
  }

  // ----- Every step keeps the invariant

  /** A sound state about to take a step. */
  ghost predicate Stepping(p: Program, ip: seq<int>, launched: set<nat>, w: Warp, w': Warp) {
    && Apart(p) && Postdominators.AreImmediate(p.g, ip)
    && Sound(p, w, launched) && launched - w.done != {} && Step(p, ip, w, w')
  }

  function Top(w: Warp): Entry
    requires w.stack != []
  {
    w.stack[|w.stack| - 1]
  }

  function Below(w: Warp): (s: seq<Entry>)
    requires w.stack != []
    ensures s + [Top(w)] == w.stack
  {
    w.stack[..|w.stack| - 1]
  }

  /** While any thread is live, the top entry holds live threads only, all of them at its pc. */
  lemma TopIsLive(p: Program, w: Warp, launched: set<nat>)
    requires Apart(p) && Sound(p, w, launched) && launched - w.done != {}
    ensures w.stack != [] && IsPc(p, Top(w).pc) && Top(w).mask !! w.done
    ensures forall t: nat :: t in Top(w).mask ==> w.pcs[t] == Top(w).pc
  {
    var t :| t in launched - w.done;
    assert Covered(w.stack, t);
    var k := |w.stack| - 1;
    assert EntryOk(p, w.stack, k);
    if k == 0 {
      assert InSync(w, 0, t);
    }
    forall u: nat | u in Top(w).mask ensures w.pcs[u] == Top(w).pc {
      assert InSync(w, k, u);
    }
  }

  /** What the live threads of the top entry do in a step. */
  lemma TopMoves(p: Program, ip: seq<int>, launched: set<nat>, w: Warp, w': Warp)
    requires Stepping(p, ip, launched, w, w')
    ensures Top(w).mask <= launched && InWarp(Top(w).mask - w'.done, |NextPcs(w')|)
    ensures forall t: nat :: t in Top(w).mask - w'.done ==>
      NextPcs(w')[t] == w'.pcs[t] && Moves(p, Top(w).pc, w'.pcs[t]) && IsPc(p, w'.pcs[t]) && w'.pcs[t] != NULL_PC
    ensures forall t: nat :: t in w'.done - w.done ==> t in Top(w).mask && Finishes(p, Top(w).pc)
  {
    TopIsLive(p, w, launched);
    forall t: nat | t in Top(w).mask - w'.done ensures IsPc(p, w'.pcs[t]) {
      MoveReachesPc(p, w.pcs[t], w'.pcs[t]);
    }
  }

  lemma MoveReachesPc(p: Program, pc: nat, pc': nat)
    requires Apart(p) && Moves(p, pc, pc')
    ensures IsPc(p, pc')
  {
    var b: nat, i: nat :| At(p, pc, b, i) &&
      if i + 1 < |p.blocks[b]| then pc' == p.blocks[b][i + 1]
      else exists s :: s in p.g[b] && s != Exit(p.g) && pc' == p.blocks[s][0];
    if i + 1 < |p.blocks[b]| {
      assert At(p, pc', b, i + 1);
    } else {
      var s :| s in p.g[b] && s != Exit(p.g) && pc' == p.blocks[s][0];
      assert At(p, pc', s, 0);
    }
  }

  lemma StepOutcome(p: Program, ip: seq<int>, launched: set<nat>, w: Warp, w': Warp)
    requires Stepping(p, ip, launched, w, w')
    ensures InWarp(Top(w).mask - w'.done, |NextPcs(w')|)
    ensures Outcome(w'.stack, Below(w), Top(w), Top(w).mask - w'.done, NextPcs(w'), ConvergePc(p, ip, Top(w).pc))
    ensures Differ(Top(w).mask - w'.done, NextPcs(w')) ==> IsBranch(p, Top(w).pc, BlockAt(p, Top(w).pc))
  {
    TopMoves(p, ip, launched, w, w');
    var live, next := Top(w).mask - w'.done, NextPcs(w');
    SettleShape(Below(w), Top(w), live, next, ConvergePc(p, ip, Top(w).pc));
    if Differ(live, next) {
      var t, u :| t in live && u in live && next[t] != next[u];
      DivergenceIsBranch(p, Top(w).pc, next[t], next[u]);
    }
  }

  lemma StepStructured(p: Program, ip: seq<int>, launched: set<nat>, w: Warp, w': Warp)
    requires Stepping(p, ip, launched, w, w')
    ensures Structured(w'.stack)
    ensures forall i: nat :: i < |w'.stack| ==> w'.stack[i].mask <= launched
    ensures forall t: nat :: t in launched && t !in w'.done ==> Covered(w'.stack, t) && IsPc(p, w'.pcs[t])
  {
    TopMoves(p, ip, launched, w, w');
    var live, next := Top(w).mask - w'.done, NextPcs(w');
    SettleStructured(Below(w), Top(w), live, next, ConvergePc(p, ip, Top(w).pc));
    forall t: nat | t in launched && t !in w'.done ensures Covered(w'.stack, t) && IsPc(p, w'.pcs[t]) {
      assert Covered(w.stack, t);
      if t !in Top(w).mask {
        var i :| 0 <= i < |w.stack| && t in w.stack[i].mask;
        assert t in Below(w)[i].mask;
      }
    }
  }

  /** What a step needs of the entry on top: it is at `pc`, its live threads move by edges, and they
      differ only at a branch, which has `recvg` as its reconvergence pc. */
  ghost predicate TopStep(p: Program, ip: seq<int>, s: seq<Entry>, live: set<nat>, next: seq<nat>, recvg: nat) {
    && Apart(p) && Postdominators.AreImmediate(p.g, ip)
    && s != [] && EntryOk(p, s, |s| - 1) && InWarp(live, |next|)
    && var pc := s[|s| - 1].pc;
    && (forall t: nat :: t in live ==> Moves(p, pc, next[t]) && IsPc(p, next[t]))
    && (Differ(live, next) ==> IsBranch(p, pc, BlockAt(p, pc)) && recvg == BeginPc(p, ip[BlockAt(p, pc)]))
  }

  lemma StepTop(p: Program, ip: seq<int>, launched: set<nat>, w: Warp, w': Warp)
    requires Stepping(p, ip, launched, w, w')
    ensures TopStep(p, ip, w.stack, Top(w).mask - w'.done, NextPcs(w'), ConvergePc(p, ip, Top(w).pc))
  {
    StepOutcome(p, ip, launched, w, w');
    TopMoves(p, ip, launched, w, w');
  }

  /** New entries that keep the reconvergence pc of the old top entry. */
  lemma EntriesReplaced(p: Program, ip: seq<int>, s: seq<Entry>, r: seq<Entry>, live: set<nat>, next: seq<nat>,
                        recvg: nat, i: nat)
    requires TopStep(p, ip, s, live, next, recvg) && |s| - 1 <= i < |r|
    requires Shape(r, s[..|s| - 1], live, next, s[|s| - 1].recvgPc, s[|s| - 1].recvgPc)
    requires |r| <= |s| || (recvg == s[|s| - 1].recvgPc && Differ(live, next))
    ensures EntryOk(p, r, i)
  {
    var k, top := |s| - 1, s[|s| - 1];
    var t :| t in r[i].mask;
    if k > 0 {
      MoveConverges(p, top.pc, r[i].pc, top.recvgPc);
    } else if i > 0 {
      BeginOfBlock(p, ip[BlockAt(p, top.pc)]);
    }
  }

  /** The old top entry waiting at a new pc, and the new entries above it. */
  lemma EntriesStacked(p: Program, ip: seq<int>, s: seq<Entry>, r: seq<Entry>, live: set<nat>, next: seq<nat>,
                       recvg: nat, i: nat)
    requires TopStep(p, ip, s, live, next, recvg) && |s| - 1 <= i < |r|
    requires recvg != s[|s| - 1].recvgPc && Differ(live, next)
    requires Shape(r, s[..|s| - 1] + [s[|s| - 1].(pc := recvg)], live, next, s[|s| - 1].recvgPc, recvg)
    ensures EntryOk(p, r, i)
  {
    var k, top := |s| - 1, s[|s| - 1];
    var b := BlockAt(p, top.pc);
    BeginOfBlock(p, ip[b]);
    EntryAbove(r, s[..k], top.(pc := recvg));
    if i == k {
      if k > 0 {
        BranchConverges(p, ip, top.pc, b, top.recvgPc);
      }
    } else {
      assert Converges(p, top.pc, recvg);
      var t :| t in r[i].mask;
      MoveConverges(p, top.pc, r[i].pc, recvg);
    }
  }

  lemma EntriesKept(p: Program, ip: seq<int>, s: seq<Entry>, r: seq<Entry>, live: set<nat>, next: seq<nat>,
                    recvg: nat, i: nat)
    requires TopStep(p, ip, s, live, next, recvg) && i < |r|
    requires Outcome(r, s[..|s| - 1], s[|s| - 1], live, next, recvg)
    requires i < |s| - 1 ==> EntryOk(p, s, i)
    ensures EntryOk(p, r, i)
  {
    var k, top := |s| - 1, s[|s| - 1];
    if i < k {
      OutcomeKeepsBelow(r, s[..k], top, live, next, recvg);
      assert r[i] == s[..k][i];
    } else if Shape(r, s[..k], live, next, top.recvgPc, top.recvgPc)
      && (|r| <= |s| || (recvg == top.recvgPc && Differ(live, next))) {
      EntriesReplaced(p, ip, s, r, live, next, recvg, i);
    } else {
      EntriesStacked(p, ip, s, r, live, next, recvg, i);
    }
  }

  lemma StepEntries(p: Program, ip: seq<int>, launched: set<nat>, w: Warp, w': Warp, i: nat)
    requires Stepping(p, ip, launched, w, w') && i < |w'.stack|
    ensures EntryOk(p, w'.stack, i)
  {
    StepOutcome(p, ip, launched, w, w');
    StepTop(p, ip, launched, w, w');
    EntriesKept(p, ip, w.stack, w'.stack, Top(w).mask - w'.done, NextPcs(w'), ConvergePc(p, ip, Top(w).pc), i);
  }

  lemma HolderAtOrBelowParent(s: seq<Entry>, i: nat, j: int, t: nat)
    requires i < |s| - 1 && ParentOf(s, |s| - 1, j) && t in s[i].mask && t in s[|s| - 1].mask
    ensures i <= j
  {
  }

  /** A thread that finishes is held by no other entry than one waiting at the return address. */
  lemma FinishedElsewhere(p: Program, s: seq<Entry>, i: nat, t: nat)
    requires Apart(p) && i < |s| - 1 && Linked(s, |s| - 1)
    requires forall k: nat :: k < |s| ==> EntryOk(p, s, k)
    requires Finishes(p, s[|s| - 1].pc) && t in s[i].mask && t in s[|s| - 1].mask
    ensures s[i].pc == p.returnPc
  {
    var k := |s| - 1;
    var j: int :| ParentOf(s, k, j);
    HolderAtOrBelowParent(s, i, j, t);
    assert EntryOk(p, s, k) && EntryOk(p, s, j);
    FinishConvergesAtReturn(p, s[k].pc, s[k].recvgPc);
    assert j == 0;
  }

  lemma StepDone(p: Program, ip: seq<int>, launched: set<nat>, w: Warp, w': Warp, i: nat)
    requires Stepping(p, ip, launched, w, w') && i < |w'.stack| && w'.stack[i].pc != p.returnPc
    ensures w'.stack[i].mask !! w'.done
  {
    StepOutcome(p, ip, launched, w, w');
    var top, live, next := Top(w), Top(w).mask - w'.done, NextPcs(w');
    if i < |w.stack| - 1 {
      OutcomeKeepsBelow(w'.stack, Below(w), top, live, next, ConvergePc(p, ip, top.pc));
      assert w'.stack[i] == Below(w)[i] == w.stack[i];
      DoneBelow(p, ip, launched, w, w', i);
    } else {
      if Differ(live, next) {
        NoneDone(p, ip, launched, w, w');
      }
      NewEntriesAreLive(w'.stack, Below(w), top, live, next, ConvergePc(p, ip, top.pc), i);
    }
  }

  lemma NoneDone(p: Program, ip: seq<int>, launched: set<nat>, w: Warp, w': Warp)
    requires Stepping(p, ip, launched, w, w') && IsBranch(p, Top(w).pc, BlockAt(p, Top(w).pc))
    ensures Top(w).mask - w'.done == Top(w).mask
  {
    TopMoves(p, ip, launched, w, w');
    TopIsLive(p, w, launched);
    BranchDoesNotFinish(p, Top(w).pc, BlockAt(p, Top(w).pc));
  }

  lemma DoneBelow(p: Program, ip: seq<int>, launched: set<nat>, w: Warp, w': Warp, i: nat)
    requires Stepping(p, ip, launched, w, w') && i < |w.stack| - 1 && w.stack[i].pc != p.returnPc
    ensures w.stack[i].mask !! w'.done
  {
    hide EntryOk, Linked, Apart, Finishes;
    TopMoves(p, ip, launched, w, w');
    assert Linked(w.stack, |w.stack| - 1);
    forall t: nat | t in w.stack[i].mask ensures t !in w'.done {
      if t in w'.done - w.done {
        FinishedElsewhere(p, w.stack, i, t);
      }
    }
  }

  lemma NewEntriesAreLive(r: seq<Entry>, below: seq<Entry>, top: Entry, live: set<nat>, next: seq<nat>, recvg: nat,
                          i: nat)
    requires InWarp(live, |next|) && Outcome(r, below, top, live, next, recvg) && |below| <= i < |r|
    requires Differ(live, next) ==> live == top.mask
    ensures r[i].mask <= live
  {
    if below + [top.(pc := recvg)] <= r {
      EntryAbove(r, below, top.(pc := recvg));
    }
  }

  lemma OutcomeKeepsBelow(r: seq<Entry>, below: seq<Entry>, top: Entry, live: set<nat>, next: seq<nat>, recvg: nat)
    requires InWarp(live, |next|) && Outcome(r, below, top, live, next, recvg)
    ensures below <= r
  {
    if below + [top.(pc := recvg)] <= r {
      EntryAbove(r, below, top.(pc := recvg));
    }
  }

  lemma EntryAbove(r: seq<Entry>, below: seq<Entry>, e: Entry)
    requires below + [e] <= r
    ensures below <= r && r[|below|] == e
  {
    assert r[|below|] == (below + [e])[|below|];
  }

  /** A live thread of the old top entry in no new entry went to the reconvergence pc of that entry. */
  lemma DroppedThread(r: seq<Entry>, below: seq<Entry>, top: Entry, live: set<nat>, next: seq<nat>, recvg: nat, t: nat)
    requires InWarp(live, |next|) && Outcome(r, below, top, live, next, recvg)
    requires t in live && live <= top.mask && forall m :: |below| <= m < |r| ==> t !in r[m].mask
    ensures next[t] == top.recvgPc
  {
    if below + [top.(pc := recvg)] <= r {
      EntryAbove(r, below, top.(pc := recvg));
    }
    assert !InGroup(r, |below|, t);
  }

  /** The topmost entry below the top that holds one of the top's threads is its parent. */
  lemma TopmostIsParent(s: seq<Entry>, i: nat, j: int, t: nat)
    requires i < |s| - 1 && ParentOf(s, |s| - 1, j) && j >= 0
    requires t in s[i].mask && t in s[|s| - 1].mask
    requires forall m :: i < m < |s| - 1 ==> t !in s[m].mask
    ensures i == j
  {
    assert t in s[j].mask;
  }

  lemma SyncKept(w: Warp, w': Warp, recvg: nat, i: nat, t: nat)
    requires w.stack != [] && i < |w.stack| - 1 && i < |w'.stack| && t < |w'.pcs| == |w.pcs|
    requires Linked(w.stack, |w.stack| - 1) && InSync(w, i, t) && w.done <= w'.done
    requires InWarp(Top(w).mask - w'.done, |NextPcs(w')|)
    requires Outcome(w'.stack, Below(w), Top(w), Top(w).mask - w'.done, NextPcs(w'), recvg)
    requires if t in Top(w).mask then t !in w'.done ==> w'.pcs[t] != NULL_PC else w'.pcs[t] == w.pcs[t]
    ensures InSync(w', i, t)
  {
    var k, r := |w.stack| - 1, w'.stack;
    if Below(w) + [Top(w).(pc := recvg)] <= r {
      EntryAbove(r, Below(w), Top(w).(pc := recvg));
    }
    assert Below(w) <= r;
    assert forall m :: 0 <= m < k ==> r[m] == Below(w)[m] == w.stack[m];
    if t in r[i].mask && t !in w'.done && (forall m :: i < m < |r| ==> t !in r[m].mask) && t in Top(w).mask {
      DroppedThread(r, Below(w), Top(w), Top(w).mask - w'.done, NextPcs(w'), recvg, t);
      var j: int :| ParentOf(w.stack, k, j);
      TopmostIsParent(w.stack, i, j, t);
    }
  }

  lemma SyncBelow(p: Program, ip: seq<int>, launched: set<nat>, w: Warp, w': Warp, i: nat, t: nat)
    requires Stepping(p, ip, launched, w, w') && i < |w.stack| - 1 && i < |w'.stack| && t < |w'.pcs|
    ensures InSync(w', i, t)
  {
    StepOutcome(p, ip, launched, w, w');
    TopMoves(p, ip, launched, w, w');
    assert Linked(w.stack, |w.stack| - 1) && InSync(w, i, t);
    SyncKept(w, w', ConvergePc(p, ip, Top(w).pc), i, t);
  }

  /** A thread in a new entry and in none above it is at the pc of that entry. */
  lemma SyncNew(p: Program, ip: seq<int>, s: seq<Entry>, r: seq<Entry>, live: set<nat>, next: seq<nat>, recvg: nat,
                i: nat, t: nat)
    requires TopStep(p, ip, s, live, next, recvg)
    requires Outcome(r, s[..|s| - 1], s[|s| - 1], live, next, recvg)
    requires |s| - 1 <= i < |r| && t in live && t in r[i].mask && forall m :: i < m < |r| ==> t !in r[m].mask
    ensures next[t] == r[i].pc
  {
    var k, top := |s| - 1, s[|s| - 1];
    if !Shape(r, s[..k], live, next, top.recvgPc, top.recvgPc) {
      EntryAbove(r, s[..k], top.(pc := recvg));
      if i == k {
        assert !InGroup(r, k + 1, t);
        if k > 0 {
          BranchConverges(p, ip, top.pc, BlockAt(p, top.pc), top.recvgPc);
        }
      }
    }
  }

  lemma SyncAbove(p: Program, ip: seq<int>, launched: set<nat>, w: Warp, w': Warp, i: nat, t: nat)
    requires Stepping(p, ip, launched, w, w') && |w.stack| - 1 <= i < |w'.stack| && t < |w'.pcs|
    ensures InSync(w', i, t)
  {
    StepOutcome(p, ip, launched, w, w');
    StepTop(p, ip, launched, w, w');
    var r, live := w'.stack, Top(w).mask - w'.done;
    if t in r[i].mask && t !in w'.done && (forall m :: i < m < |r| ==> t !in r[m].mask) {
      StepStructured(p, ip, launched, w, w');
      NewEntriesInside(r, Below(w), Top(w), live, NextPcs(w'), ConvergePc(p, ip, Top(w).pc), i);
      SyncNew(p, ip, w.stack, r, live, NextPcs(w'), ConvergePc(p, ip, Top(w).pc), i, t);
    }
  }

  lemma NewEntriesInside(r: seq<Entry>, below: seq<Entry>, top: Entry, live: set<nat>, next: seq<nat>, recvg: nat,
                         i: nat)
    requires InWarp(live, |next|) && live <= top.mask && Outcome(r, below, top, live, next, recvg) && |below| <= i < |r|
    ensures r[i].mask <= top.mask
  {
    if below + [top.(pc := recvg)] <= r {
      EntryAbove(r, below, top.(pc := recvg));
    }
  }

  lemma StepSync(p: Program, ip: seq<int>, launched: set<nat>, w: Warp, w': Warp, i: nat, t: nat)
    requires Stepping(p, ip, launched, w, w') && i < |w'.stack| && t < |w'.pcs|
    ensures InSync(w', i, t)
  {
    if i < |w.stack| - 1 {
      SyncBelow(p, ip, launched, w, w', i, t);
    } else {
      SyncAbove(p, ip, launched, w, w', i, t);
    }
  }

  lemma StepKeepsSound(p: Program, ip: seq<int>, launched: set<nat>, w: Warp, w': Warp)
    requires Stepping(p, ip, launched, w, w')
    ensures Sound(p, w', launched)
  {
    StepStructured(p, ip, launched, w, w');
    forall i: nat | i < |w'.stack| ensures EntryOk(p, w'.stack, i) {
      StepEntries(p, ip, launched, w, w', i);
    }
    forall i: nat | i < |w'.stack| && w'.stack[i].pc != p.returnPc ensures w'.stack[i].mask !! w'.done {
      StepDone(p, ip, launched, w, w', i);
    }
    forall i: nat, t: nat | i < |w'.stack| && t < |w'.pcs| ensures InSync(w', i, t) {
      StepSync(p, ip, launched, w, w', i, t);
    }
  }

  lemma LaunchIsSound(p: Program, w: Warp, launched: set<nat>)
    requires Apart(p) && Launched(p, w, launched)
    ensures Sound(p, w, launched)
  {
    assert At(p, p.blocks[0][0], 0, 0);
    assert ParentOf(w.stack, 0, -1) && Linked(w.stack, 0);
    assert forall t: nat :: t in launched ==> t in w.stack[0].mask;
  }

  /** Each live thread is on the stack and the topmost entry holding it is at the thread's pc; while any thread is
      live, the top entry holds live threads only, so the instruction fetched for the warp is the one each of its
      threads is about to execute. */
  ghost predicate Synced(w: Warp, launched: set<nat>) {
    && (forall t: nat :: t in launched && t !in w.done ==> t < |w.pcs| && Covered(w.stack, t))
    && (forall t: nat, i: nat :: t in launched && t !in w.done && t < |w.pcs| && i < |w.stack| ==> InSync(w, i, t))
    && (launched - w.done != {} ==>
          && w.stack != [] && Top(w).mask != {} && Top(w).mask <= launched - w.done
          && forall t: nat :: t in Top(w).mask ==> t < |w.pcs| && w.pcs[t] == Top(w).pc)
  }

  lemma SoundIsSynced(p: Program, w: Warp, launched: set<nat>)
    requires Apart(p) && Sound(p, w, launched)
    ensures Synced(w, launched)
  {
    if launched - w.done != {} {
      TopIsLive(p, w, launched);
      assert Linked(w.stack, |w.stack| - 1);
    }
  }
}
