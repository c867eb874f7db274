/** The central theorem of divergence control, for whole runs: when every branch reconverges at its immediate
postdominator, the pc of the topmost stack entry holding a live thread is that thread's own pc. A branch whose
immediate postdominator is the exit reconverges at the return address, and for the first kernel that is the pc
where the kernel begins. So the theorem comes with the exact condition on the flow graph under which it holds. */
module ReturnAddress {
  import opened FlowGraph
  import opened SimtStack
  import opened SimtInvariants
  import opened Divergence
  import opened Trails
  import opened Renaming
  import Postdominators

  // ----- When the return address does no harm

  /** Block `b` ends in a branch that reconverges only after the return. */
  ghost predicate ReturnBranch(p: Program, ip: seq<int>, b: nat)
    requires WellFormedProgram(p) && Postdominators.AreImmediate(p.g, ip)
  {
    b < Exit(p.g) && p.branch[b] && ip[b] == Exit(p.g)
  }

  /** If the program begins at its own return address, no branch that can be run and reconverges only after the
      return can be followed by the beginning of the program. */
  ghost predicate ReturnSafe(p: Program, ip: seq<int>)
    requires WellFormedProgram(p) && Postdominators.AreImmediate(p.g, ip)
  {
    IsPc(p, p.returnPc) ==>
      forall b: nat :: ReturnBranch(p, ip, b) && Reached(p.g, b) ==> !Reaches(p.g, b, 0)
  }

  /** The state `w` of program `p`, seen with a return address of its own, is sound; and entries that reconverge
      after the return do not come back to the beginning. */
  ghost predicate Simulates(p: Program, w: Warp, v: Warp, launched: set<nat>)
    requires WellFormedProgram(p)
  {
    && Apart(Moved(p)) && v.pcs == w.pcs && v.done == w.done
    && w.stack == RenamedStack(v.stack, Elsewhere(p), p.returnPc)
    && Sound(Moved(p), v, launched)
    && (forall t: nat :: t in launched && t !in v.done && t < |v.pcs| ==> Reached(p.g, BlockAt(p, v.pcs[t])))
    && (forall i: nat :: i < |v.stack| ==> EntryReturns(p, v.stack[i]))
  }

  ghost predicate EntryReturns(p: Program, e: Entry)
    requires WellFormedProgram(p)
  {
    e.recvgPc == Elsewhere(p) ==> !Reaches(p.g, BlockAt(p, e.pc), 0)
  }

  /** Where a thread that moves ends up. */
  lemma MoveFollowsEdge(p: Program, pc: nat, pc': nat)
    requires WellFormedProgram(p) && Moves(p, pc, pc')
    ensures IsPc(p, pc) && IsPc(p, pc')
    ensures BlockAt(p, pc) < Exit(p.g) && BlockAt(p, pc') < Exit(p.g)
    ensures BlockAt(p, pc') == BlockAt(p, pc) || BlockAt(p, pc') in p.g[BlockAt(p, pc)]
    ensures pc' == p.blocks[0][0] ==> 0 in p.g[BlockAt(p, pc)]
  {
    var b: nat, i: nat :| At(p, pc, b, i) &&
      if i + 1 < |p.blocks[b]| then pc' == p.blocks[b][i + 1]
      else exists s :: s in p.g[b] && s != Exit(p.g) && pc' == p.blocks[s][0];
    assert At(p, p.blocks[0][0], 0, 0);
    if i + 1 < |p.blocks[b]| {
      assert At(p, pc', b, i + 1);
    } else {
      var s :| s in p.g[b] && s != Exit(p.g) && pc' == p.blocks[s][0];
      assert At(p, pc', s, 0);
    }
  }

  lemma MoveReturns(p: Program, pc: nat, pc': nat)
    requires WellFormedProgram(p) && Moves(p, pc, pc') && !Reaches(p.g, BlockAt(p, pc), 0)
    ensures pc' != p.blocks[0][0] && !Reaches(p.g, BlockAt(p, pc'), 0)
  {
    MoveFollowsEdge(p, pc, pc');
    var b, c := BlockAt(p, pc), BlockAt(p, pc');
    if pc' == p.blocks[0][0] {
      EdgeReaches(p.g, b, 0);
    }
    if c != b {
      EdgeReaches(p.g, b, c);
      if Reaches(p.g, c, 0) {
        ReachesOn(p.g, b, c, 0);
      }
    }
  }

  lemma ConvergeRenamed(p: Program, ip: seq<int>, pc: nat)
    requires WellFormedProgram(p) && Apart(Moved(p)) && Postdominators.AreImmediate(p.g, ip) && IsPc(p, pc)
    ensures ConvergePc(p, ip, pc) == Renamed(ConvergePc(Moved(p), ip, pc), Elsewhere(p), p.returnPc)
    ensures ConvergePc(Moved(p), ip, pc) == Elsewhere(p) ==> ReturnBranch(p, ip, BlockAt(p, pc))
    ensures ConvergePc(Moved(p), ip, pc) == p.blocks[0][0] ==>
      IsBranch(p, pc, BlockAt(p, pc)) && ip[BlockAt(p, pc)] == 0
    ensures ConvergePc(Moved(p), ip, pc) == NULL_PC || IsBranch(p, pc, BlockAt(p, pc))
  {
    SameBlock(p, pc);
    var b := BlockAt(p, pc);
    if IsBranch(p, pc, b) {
      var n: nat := ip[b];
      if n != Exit(p.g) {
        assert At(p, p.blocks[n][0], n, 0) && At(p, p.blocks[0][0], 0, 0);
      }
    } else {
      assert At(p, p.blocks[0][0], 0, 0);
    }
  }

  // ----- A step is simulated

  ghost predicate Simulating(p: Program, ip: seq<int>, launched: set<nat>, w: Warp, v: Warp, w': Warp) {
    && WellFormedProgram(p) && Postdominators.AreImmediate(p.g, ip) && ReturnSafe(p, ip) && IsPc(p, p.returnPc)
    && Simulates(p, w, v, launched) && launched - w.done != {} && Step(p, ip, w, w')
  }

  /** The state reached from `v` when the true program goes to `w'`. */
  ghost function Followed(p: Program, ip: seq<int>, v: Warp, w': Warp): Warp
    requires WellFormedProgram(p) && Apart(Moved(p)) && Postdominators.AreImmediate(p.g, ip)
    requires v.stack != [] && InWarp(Top(v).mask, |w'.pcs|)
  {
    Warp(Updated(v.stack, w'.done, NextPcs(w'), ConvergePc(Moved(p), ip, Top(v).pc)), w'.pcs, w'.done)
  }

  /** The top entry is at a pc that can be run, with live threads only. */
  lemma TopIsReached(p: Program, w: Warp, v: Warp, launched: set<nat>)
    requires WellFormedProgram(p) && Simulates(p, w, v, launched) && launched - w.done != {}
    ensures v.stack != [] && w.stack != [] && IsPc(p, Top(v).pc) && Top(w).pc == Top(v).pc && Top(w).mask == Top(v).mask
    ensures Top(v).mask !! v.done && Top(v).mask <= launched
    ensures forall t: nat :: t in Top(v).mask ==> t < |v.pcs| && v.pcs[t] == Top(v).pc
    ensures Reached(p.g, BlockAt(p, Top(v).pc))
  {
    TopIsLive(Moved(p), v, launched);
    SameCode(p, Top(v).pc);
    assert Linked(v.stack, |v.stack| - 1);
    var t: nat :| t in Top(v).mask;
  }

  lemma FollowedSteps(p: Program, ip: seq<int>, launched: set<nat>, w: Warp, v: Warp, w': Warp)
    requires Simulating(p, ip, launched, w, v, w')
    ensures v.stack != [] && InWarp(Top(v).mask, |w'.pcs|)
    ensures Stepping(Moved(p), ip, launched, v, Followed(p, ip, v, w'))
  {
    hide Sound, ReturnSafe, Reached, EntryReturns;
    TopIsReached(p, w, v, launched);
    forall t: nat | t in Top(v).mask ensures Finishes(Moved(p), v.pcs[t]) == Finishes(p, v.pcs[t])
      ensures Moves(Moved(p), v.pcs[t], w'.pcs[t]) == Moves(p, v.pcs[t], w'.pcs[t])
    {
      SameMoves(p, v.pcs[t], w'.pcs[t]);
    }
  }

  /** What the live threads of the top entry do, in the true program. */
  lemma TopGoes(p: Program, ip: seq<int>, launched: set<nat>, w: Warp, v: Warp, w': Warp, t: nat)
    requires Simulating(p, ip, launched, w, v, w') && v.stack != [] && t in Top(v).mask && t !in w'.done
    ensures t < |w'.pcs| && Moves(p, Top(v).pc, w'.pcs[t]) && NextPcs(w')[t] == w'.pcs[t] != Elsewhere(p)
    ensures IsPc(p, w'.pcs[t])
  {
    hide Sound, ReturnSafe, Reached, EntryReturns;
    TopIsReached(p, w, v, launched);
    MoveFollowsEdge(p, Top(v).pc, w'.pcs[t]);
  }

  /** A reconvergence pc after the return is taken only by threads that do not come back. */
  lemma ReturnIsApart(p: Program, ip: seq<int>, launched: set<nat>, w: Warp, v: Warp, w': Warp)
    requires Simulating(p, ip, launched, w, v, w') && v.stack != []
    requires Top(v).recvgPc == Elsewhere(p) || ConvergePc(Moved(p), ip, Top(v).pc) == Elsewhere(p)
    ensures !Reaches(p.g, BlockAt(p, Top(v).pc), 0)
  {
    TopIsReached(p, w, v, launched);
    ConvergeRenamed(p, ip, Top(v).pc);
    assert EntryReturns(p, v.stack[|v.stack| - 1]);
  }

  /** The two reconvergence pcs of a step are the same with either return address, or different with either. */
  lemma SameReconvergence(p: Program, ip: seq<int>, launched: set<nat>, w: Warp, v: Warp, w': Warp)
    requires Simulating(p, ip, launched, w, v, w') && v.stack != []
    ensures var f, recvg := Elsewhere(p), ConvergePc(Moved(p), ip, Top(v).pc);
      recvg == Top(v).recvgPc <==> Renamed(recvg, f, p.returnPc) == Renamed(Top(v).recvgPc, f, p.returnPc)
  {
    TopIsReached(p, w, v, launched);
    ConvergeRenamed(p, ip, Top(v).pc);
    var f, recvg, top := Elsewhere(p), ConvergePc(Moved(p), ip, Top(v).pc), Top(v);
    var b := BlockAt(p, top.pc);
    if recvg == f && top.recvgPc == p.returnPc {
      assert EntryOk(Moved(p), v.stack, |v.stack| - 1);
      BeginIsNoPostdominator(p, ip, top.pc);
    } else if recvg == p.returnPc && top.recvgPc == f {
      ReturnIsApart(p, ip, launched, w, v, w');
      assert ReachesExit(p.g, b);
      ReachesPostdominator(p.g, b, 0);
    }
  }

  lemma BeginIsNoPostdominator(p: Program, ip: seq<int>, pc: nat)
    requires WellFormedProgram(p) && Apart(Moved(p)) && Postdominators.AreImmediate(p.g, ip) && IsPc(p, pc)
    requires ReturnBranch(p, ip, BlockAt(p, pc))
    ensures !Converges(Moved(p), pc, p.blocks[0][0])
  {
    SameBlock(p, pc);
    assert At(Moved(p), p.blocks[0][0], 0, 0);
    if Converges(Moved(p), pc, p.blocks[0][0]) {
      OnlyExitPostdominatesExit(p.g, 0);
    }
  }

  lemma StackRenamed(p: Program, ip: seq<int>, launched: set<nat>, w: Warp, v: Warp, w': Warp)
    requires Simulating(p, ip, launched, w, v, w') && v.stack != [] && InWarp(Top(v).mask, |w'.pcs|)
    ensures w'.stack == RenamedStack(Followed(p, ip, v, w').stack, Elsewhere(p), p.returnPc)
  {
    TopIsReached(p, w, v, launched);
    ConvergeRenamed(p, ip, Top(v).pc);
    SameReconvergence(p, ip, launched, w, v, w');
    var f, recvg, live, next := Elsewhere(p), ConvergePc(Moved(p), ip, Top(v).pc), Top(v).mask - w'.done, NextPcs(w');
    forall t: nat | t in live
      ensures next[t] != f && (recvg == f || Top(v).recvgPc == f ==> next[t] != p.returnPc)
    {
      TopGoes(p, ip, launched, w, v, w', t);
      if recvg == f || Top(v).recvgPc == f {
        ReturnIsApart(p, ip, launched, w, v, w');
        MoveReturns(p, Top(v).pc, w'.pcs[t]);
      }
    }
    hide Sound, ReturnSafe;
    SettleRenamed(Below(v), Top(v), live, next, recvg, f, p.returnPc);
    assert w.stack[..|w.stack| - 1] == RenamedStack(Below(v), f, p.returnPc);
  }

  lemma StillReached(p: Program, ip: seq<int>, launched: set<nat>, w: Warp, v: Warp, w': Warp, t: nat)
    requires Simulating(p, ip, launched, w, v, w') && t in launched && t !in w'.done && t < |w'.pcs|
    ensures Reached(p.g, BlockAt(p, w'.pcs[t]))
  {
    TopIsReached(p, w, v, launched);
    if t in Top(v).mask {
      TopGoes(p, ip, launched, w, v, w', t);
      MoveFollowsEdge(p, Top(v).pc, w'.pcs[t]);
      var b, c := BlockAt(p, Top(v).pc), BlockAt(p, w'.pcs[t]);
      if c != b {
        ReachedOn(p.g, b, c);
      }
    }
  }

  /** A group split off the top entry. */
  lemma GroupReturns(p: Program, ip: seq<int>, launched: set<nat>, w: Warp, v: Warp, w': Warp, e: Entry)
    requires Simulating(p, ip, launched, w, v, w') && v.stack != [] && InWarp(Top(v).mask, |w'.pcs|)
    requires e.mask != {} && e.mask <= Top(v).mask - w'.done && forall t :: t in e.mask ==> NextPcs(w')[t] == e.pc
    requires e.recvgPc == Top(v).recvgPc || e.recvgPc == ConvergePc(Moved(p), ip, Top(v).pc)
    ensures EntryReturns(p, e)
  {
    if e.recvgPc == Elsewhere(p) {
      var t: nat :| t in e.mask;
      ReturnIsApart(p, ip, launched, w, v, w');
      TopGoes(p, ip, launched, w, v, w', t);
      MoveReturns(p, Top(v).pc, w'.pcs[t]);
    }
  }

  /** The top entry when it stays to wait for its groups. */
  lemma WaitingReturns(p: Program, ip: seq<int>, launched: set<nat>, w: Warp, v: Warp, w': Warp)
    requires Simulating(p, ip, launched, w, v, w') && v.stack != []
    requires IsBranch(Moved(p), Top(v).pc, BlockAt(Moved(p), Top(v).pc))
    requires ConvergePc(Moved(p), ip, Top(v).pc) != Top(v).recvgPc
    ensures EntryReturns(p, Top(v).(pc := ConvergePc(Moved(p), ip, Top(v).pc)))
  {
    if Top(v).recvgPc == Elsewhere(p) {
      TopIsReached(p, w, v, launched);
      SameBlock(p, Top(v).pc);
      ReturnIsApart(p, ip, launched, w, v, w');
      var b: nat := BlockAt(p, Top(v).pc);
      var n: nat := ip[b];
      assert n != Exit(p.g);
      assert At(p, p.blocks[n][0], n, 0);
      assert ReachesExit(p.g, b);
      ReachesPostdominator(p.g, b, n);
      if Reaches(p.g, n, 0) {
        ReachesOn(p.g, b, n, 0);
      }
    }
  }

  lemma EntriesReturn(p: Program, ip: seq<int>, launched: set<nat>, w: Warp, v: Warp, w': Warp, i: nat)
    requires Simulating(p, ip, launched, w, v, w') && v.stack != [] && InWarp(Top(v).mask, |w'.pcs|)
    requires Stepping(Moved(p), ip, launched, v, Followed(p, ip, v, w')) && i < |Followed(p, ip, v, w').stack|
    ensures EntryReturns(p, Followed(p, ip, v, w').stack[i])
  {
    var v', top, k := Followed(p, ip, v, w'), Top(v), |v.stack| - 1;
    var r, live, next, recvg := v'.stack, top.mask - w'.done, NextPcs(w'), ConvergePc(Moved(p), ip, top.pc);
    StepOutcome(Moved(p), ip, launched, v, v');
    assert NextPcs(v') == next;
    hide Sound, ReturnSafe, Reached, EntryReturns;
    OutcomeKeepsBelow(r, Below(v), top, live, next, recvg);
    if i < k {
      assert r[i] == Below(v)[i] == v.stack[i];
    } else if Shape(r, Below(v), live, next, top.recvgPc, top.recvgPc) {
      GroupReturns(p, ip, launched, w, v, w', r[i]);
    } else {
      EntryAbove(r, Below(v), top.(pc := recvg));
      if i == k {
        WaitingReturns(p, ip, launched, w, v, w');
      } else {
        GroupReturns(p, ip, launched, w, v, w', r[i]);
      }
    }
  }

  /** One step of the true program is one step of the program with a return address of its own. */
  lemma StepSimulated(p: Program, ip: seq<int>, launched: set<nat>, w: Warp, v: Warp, w': Warp) returns (v': Warp)
    requires Simulating(p, ip, launched, w, v, w')
    ensures Simulates(p, w', v', launched)
  {
    FollowedSteps(p, ip, launched, w, v, w');
    v' := Followed(p, ip, v, w');
    StackRenamed(p, ip, launched, w, v, w');
    StepKeepsSound(Moved(p), ip, launched, v, v');
    hide Sound, ReturnSafe, Reached, EntryReturns;
    forall t: nat | t in launched && t !in v'.done && t < |v'.pcs| ensures Reached(p.g, BlockAt(p, v'.pcs[t])) {
      StillReached(p, ip, launched, w, v, w', t);
    }
    forall i: nat | i < |v'.stack| ensures EntryReturns(p, v'.stack[i]) {
      EntriesReturn(p, ip, launched, w, v, w', i);
    }
  }

  lemma LaunchSimulated(p: Program, w: Warp, launched: set<nat>)
    requires WellFormedProgram(p) && Launched(p, w, launched)
    ensures Simulates(p, w, w, launched)
  {
    MovedIsApart(p);
    assert Launched(Moved(p), w, launched);
    LaunchIsSound(Moved(p), w, launched);
    assert At(p, p.blocks[0][0], 0, 0) && Trail(p.g, [0]);
    assert Reached(p.g, 0);
  }

  /** Every state of every run is simulated. */
  lemma {:induction false} RunSimulated(p: Program, ip: seq<int>, launched: set<nat>, run: seq<Warp>,
                                        n: nat) returns (v: Warp)
    requires WellFormedProgram(p) && Postdominators.AreImmediate(p.g, ip) && IsRun(p, ip, launched, run) && n < |run|
    requires ReturnSafe(p, ip) && IsPc(p, p.returnPc)
    ensures Simulates(p, run[n], v, launched)
  {
    hide ReturnSafe, Simulates;
    if n == 0 {
      LaunchSimulated(p, run[0], launched);
      v := run[0];
    } else {
      var u := RunSimulated(p, ip, launched, run, n - 1);
      assert Step(p, ip, run[n - 1], run[n - 1 + 1]);
      v := StepSimulated(p, ip, launched, run[n - 1], u, run[n]);
    }
  }

  lemma {:induction false} ApartRunIsSound(p: Program, ip: seq<int>, launched: set<nat>, run: seq<Warp>, n: nat)
    requires Apart(p) && Postdominators.AreImmediate(p.g, ip) && IsRun(p, ip, launched, run) && n < |run|
    ensures Sound(p, run[n], launched)
  {
    hide Sound;
    if n == 0 {
      LaunchIsSound(p, run[0], launched);
    } else {
      ApartRunIsSound(p, ip, launched, run, n - 1);
      assert Step(p, ip, run[n - 1], run[n - 1 + 1]);
      StepKeepsSound(p, ip, launched, run[n - 1], run[n]);
    }
  }

  lemma SimulatedIsSynced(p: Program, w: Warp, v: Warp, launched: set<nat>)
    requires WellFormedProgram(p) && Simulates(p, w, v, launched)
    ensures Synced(w, launched)
  {
    SoundIsSynced(Moved(p), v, launched);
    forall t: nat | t in launched && t !in w.done ensures t < |w.pcs| && Covered(w.stack, t) {
      var i :| 0 <= i < |v.stack| && t in v.stack[i].mask;
      assert t in w.stack[i].mask;
    }
    forall t: nat, i: nat | t in launched && t !in w.done && t < |w.pcs| && i < |w.stack| ensures InSync(w, i, t) {
      assert InSync(v, i, t);
      if t in w.stack[i].mask && forall k :: i < k < |w.stack| ==> t !in w.stack[k].mask {
        assert forall k :: i < k < |v.stack| ==> v.stack[k].mask == w.stack[k].mask;
        SameCode(p, v.pcs[t]);
      }
    }
    if launched - w.done != {} {
      TopIsReached(p, w, v, launched);
    }
  }

  /** In every state of every run, each live thread is on the stack and the topmost entry holding it is at the thread's
      pc; while any thread is live, the top entry holds live threads only. */
  lemma ThreadsStayInSync(p: Program, ip: seq<int>, launched: set<nat>, run: seq<Warp>, n: nat)
    requires WellFormedProgram(p) && Postdominators.AreImmediate(p.g, ip) && IsRun(p, ip, launched, run) && n < |run|
    requires ReturnSafe(p, ip)
    ensures Synced(run[n], launched)
  {
    if IsPc(p, p.returnPc) {
      var v := RunSimulated(p, ip, launched, run, n);
      SimulatedIsSynced(p, run[n], v, launched);
    } else {
      ApartRunIsSound(p, ip, launched, run, n);
      SoundIsSynced(p, run[n], launched);
    }
  }
}
