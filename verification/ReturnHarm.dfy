/** The other half of the exact condition of `ReturnAddress`: when a branch that reconverges only after the return can
be followed by the beginning of the program, and that is the return address, two threads get out of step. One goes
back to the beginning and is taken for reconverged; the other finishes, and leaves the first behind in an entry that
still holds them both. */
module ReturnHarm {
  import opened FlowGraph
  import opened SimtStack
  import opened SimtInvariants
  import opened Divergence
  import opened ReturnAddress
  import opened Trails
  import Postdominators

  // ----- Instruction by instruction

  ghost predicate PcPath(p: Program, path: seq<nat>)
    requires WellFormedProgram(p)
  {
    path != [] && forall i: nat :: i + 1 < |path| ==> Moves(p, path[i], path[i + 1])
  }

  /** The instructions of some blocks, one block after the other. */
  function Walk(p: Program, q: seq<nat>): seq<nat>
    requires forall i: nat :: i < |q| ==> q[i] < |p.blocks|
  {
    if q == [] then [] else Walk(p, q[..|q| - 1]) + p.blocks[q[|q| - 1]]
  }

  lemma MoveInside(p: Program, b: nat, i: nat)
    requires WellFormedProgram(p) && b < Exit(p.g) && i + 1 < |p.blocks[b]|
    ensures Moves(p, p.blocks[b][i], p.blocks[b][i + 1])
  {
    assert At(p, p.blocks[b][i], b, i);
  }

  lemma MoveAcross(p: Program, b: nat, s: nat)
    requires WellFormedProgram(p) && b < Exit(p.g) && s < Exit(p.g) && s in p.g[b]
    ensures Moves(p, p.blocks[b][|p.blocks[b]| - 1], p.blocks[s][0])
  {
    assert At(p, p.blocks[b][|p.blocks[b]| - 1], b, |p.blocks[b]| - 1);
  }

  /** Walking along a trail follows the program, from its first block's beginning to its last one's end. */
  lemma {:induction false} WalkIsPath(p: Program, q: seq<nat>)
    requires WellFormedProgram(p) && Trail(p.g, q)
    ensures var w, last := Walk(p, q), p.blocks[q[|q| - 1]];
      PcPath(p, w) && w[0] == p.blocks[q[0]][0] && w[|w| - 1] == last[|last| - 1]
    ensures 0 !in q ==> p.blocks[0][0] !in Walk(p, q)
    decreases |q|
  {
    hide PcPath, Moves;
    var n := |q| - 1;
    var c := p.blocks[q[n]];
    BlockIsPath(p, q[n]);
    if n == 0 {
      assert q[..0] == [];
      assert Walk(p, q) == c;
    } else {
      TrailUpTo(p.g, q, n - 1);
      WalkIsPath(p, q[..n]);
      assert q[n - 1 + 1] in p.g[q[n - 1]];
      MoveAcross(p, q[n - 1], q[n]);
      JoinPaths(p, Walk(p, q[..n]), c);
    }
  }

  lemma BlockIsPath(p: Program, b: nat)
    requires WellFormedProgram(p) && b < Exit(p.g)
    ensures PcPath(p, p.blocks[b]) && (b != 0 ==> p.blocks[0][0] !in p.blocks[b])
  {
    var c := p.blocks[b];
    forall i: nat | i + 1 < |c| ensures Moves(p, c[i], c[i + 1]) {
      MoveInside(p, b, i);
    }
    if p.blocks[0][0] in c {
      var i: nat :| i < |c| && c[i] == p.blocks[0][0];
      assert At(p, c[i], b, i) && At(p, p.blocks[0][0], 0, 0);
    }
  }

  lemma JoinPaths(p: Program, v: seq<nat>, c: seq<nat>)
    requires WellFormedProgram(p) && PcPath(p, v) && PcPath(p, c) && v != [] && c != []
    requires Moves(p, v[|v| - 1], c[0])
    ensures PcPath(p, v + c)
  {
    hide Moves, WellFormedProgram;
    var w := v + c;
    forall i: nat | i + 1 < |w| ensures Moves(p, w[i], w[i + 1]) {
      if i + 1 < |v| {
        assert Moves(p, v[i], v[i + 1]);
      } else if i >= |v| {
        assert Moves(p, c[i - |v|], c[i - |v| + 1]);
      }
    }
  }

  // ----- Building runs of two threads

  const PAIR: set<nat> := {0, 1}

  lemma Extend(p: Program, ip: seq<int>, run: seq<Warp>, w: Warp)
    requires WellFormedProgram(p) && Postdominators.AreImmediate(p.g, ip) && IsRun(p, ip, PAIR, run)
    requires PAIR - run[|run| - 1].done != {} && Step(p, ip, run[|run| - 1], w)
    ensures IsRun(p, ip, PAIR, run + [w])
  {
    hide Step;
    var r := run + [w];
    forall i | 0 <= i < |r| - 1 ensures PAIR - r[i].done != {} && Step(p, ip, r[i], r[i + 1]) {
      if i < |run| - 1 {
        assert Step(p, ip, run[i], run[i + 1]);
      }
    }
  }

  /** Both threads at one pc, never split. */
  function Both(pc: nat): Warp {
    Warp([Entry(pc, PAIR, NULL_PC)], [pc, pc], {})
  }

  lemma LeaderOfPair()
    ensures Leader(PAIR) == 1 && Leader({0}) == 0 && Leader({1}) == 1
  {
    assert Leader(PAIR) in PAIR && 1 in PAIR;
    assert Leader({0}) in {0} && Leader({1}) in {1};
  }

  lemma BothStep(p: Program, ip: seq<int>, pc: nat, pc': nat)
    requires WellFormedProgram(p) && Postdominators.AreImmediate(p.g, ip) && Moves(p, pc, pc')
    ensures Step(p, ip, Both(pc), Both(pc'))
  {
    MoveFollowsEdge(p, pc, pc');
    LeaderOfPair();
    var w, w' := Both(pc), Both(pc');
    var live, next := PAIR - w'.done, NextPcs(w');
    assert live == PAIR && next == [pc', pc'];
    assert Group(PAIR, next) == PAIR;
    assert w.stack[..0] == [];
  }

  /** Two threads follow any path together. */
  lemma {:induction false} Together(p: Program, ip: seq<int>, path: seq<nat>) returns (run: seq<Warp>)
    requires WellFormedProgram(p) && Postdominators.AreImmediate(p.g, ip) && PcPath(p, path)
    requires path[0] == p.blocks[0][0]
    ensures IsRun(p, ip, PAIR, run) && run[|run| - 1] == Both(path[|path| - 1])
    decreases |path|
  {
    var n := |path| - 1;
    if n == 0 {
      run := [Both(path[0])];
      BothLaunched(p, ip);
    } else {
      hide Moves, Step, IsRun;
      PathFront(p, path);
      var before := Together(p, ip, path[..n]);
      BothStep(p, ip, path[n - 1], path[n]);
      Extend(p, ip, before, Both(path[n]));
      run := before + [Both(path[n])];
    }
  }

  lemma BothLaunched(p: Program, ip: seq<int>)
    requires WellFormedProgram(p) && Postdominators.AreImmediate(p.g, ip)
    ensures IsRun(p, ip, PAIR, [Both(p.blocks[0][0])])
  {
    assert 0 in PAIR;
  }

  lemma PathFront(p: Program, path: seq<nat>)
    requires WellFormedProgram(p) && PcPath(p, path) && |path| > 1
    ensures PcPath(p, path[..|path| - 1]) && Moves(p, path[|path| - 2], path[|path| - 1])
  {
    hide Moves;
    var n := |path| - 1;
    forall i: nat | i + 1 < n ensures Moves(p, path[..n][i], path[..n][i + 1]) {
      assert Moves(p, path[i], path[i + 1]);
    }
    assert Moves(p, path[n - 1], path[n - 1 + 1]);
  }

  /** The threads after a split at a branch that reconverges only after the return: thread 0 went to `a`, thread 1 to
      `c`. Thread 0 is taken for reconverged if `a` is the return address. */
  function Apart2(p: Program, a: nat, c: nat): Warp {
    var root := [Entry(p.returnPc, PAIR, NULL_PC), Entry(c, {1}, p.returnPc)];
    Warp(if a == p.returnPc then root else root + [Entry(a, {0}, p.returnPc)], [a, c], {})
  }

  lemma SplitStep(p: Program, ip: seq<int>, pc: nat, a: nat, c: nat)
    requires WellFormedProgram(p) && Postdominators.AreImmediate(p.g, ip) && IsPc(p, pc)
    requires ReturnBranch(p, ip, BlockAt(p, pc)) && IsBranch(p, pc, BlockAt(p, pc))
    requires Moves(p, pc, a) && Moves(p, pc, c) && a != c && c != p.returnPc
    ensures Step(p, ip, Both(pc), Apart2(p, a, c))
  {
    MoveFollowsEdge(p, pc, a);
    MoveFollowsEdge(p, pc, c);
    var w, w' := Both(pc), Apart2(p, a, c);
    var live, next := PAIR - w'.done, NextPcs(w');
    assert live == PAIR && next == [a, c];
    assert w.stack[..0] == [];
    assert ConvergePc(p, ip, pc) == p.returnPc;
    SplitStack(p, pc, a, c, next);
  }

  lemma SplitStack(p: Program, pc: nat, a: nat, c: nat, next: seq<nat>)
    requires a != c && c != p.returnPc && a != NULL_PC && c != NULL_PC && p.returnPc != NULL_PC && next == [a, c]
    ensures Settle([], Entry(pc, PAIR, NULL_PC), PAIR, next, p.returnPc) == Apart2(p, a, c).stack
  {
    LeaderOfPair();
    assert Group(PAIR, next) == {1};
    var base := Reconverging([], Entry(pc, PAIR, NULL_PC), p.returnPc);
    assert base == [Entry(p.returnPc, PAIR, NULL_PC)];
    assert PAIR - {1} == {0};
    assert Group({0}, next) == {0} && {0} - {0} == {};
    var one := base + [Entry(c, {1}, p.returnPc)];
    assert Spread(base, PAIR, next, NULL_PC, p.returnPc) == Spread(one, {0}, next, NULL_PC, p.returnPc);
    if a != p.returnPc {
      var two := one + [Entry(a, {0}, p.returnPc)];
      assert Spread(one, {0}, next, NULL_PC, p.returnPc) == Spread(two, {}, next, NULL_PC, p.returnPc);
      assert Spread(two, {}, next, NULL_PC, p.returnPc) == two;
    } else {
      assert Spread(one, {0}, next, NULL_PC, p.returnPc) == Spread(one, {}, next, NULL_PC, p.returnPc);
      assert Spread(one, {}, next, NULL_PC, p.returnPc) == one;
    }
  }

  /** Thread `t` alone in the top entry. */
  function Solo(below: seq<Entry>, t: nat, pc: nat, recvg: nat, pcs: seq<nat>, done: set<nat>): Warp {
    Warp(below + [Entry(pc, {t}, recvg)], pcs, done)
  }

  /** After it has gone to `pc`. */
  function SoloNext(below: seq<Entry>, t: nat, pc: nat, recvg: nat, pcs: seq<nat>, done: set<nat>): Warp
    requires t < |pcs|
  {
    if pc == recvg then Warp(below, pcs[t := pc], done) else Solo(below, t, pc, recvg, pcs[t := pc], done)
  }

  lemma SoloStep(p: Program, ip: seq<int>, below: seq<Entry>, t: nat, recvg: nat, pcs: seq<nat>, done: set<nat>,
                 pc': nat)
    requires WellFormedProgram(p) && Postdominators.AreImmediate(p.g, ip) && t < |pcs| && t !in done
    requires Moves(p, pcs[t], pc')
    ensures var w := Solo(below, t, pcs[t], recvg, pcs, done);
      Step(p, ip, w, SoloNext(below, t, pc', recvg, pcs, done))
  {
    MoveFollowsEdge(p, pcs[t], pc');
    var w := Solo(below, t, pcs[t], recvg, pcs, done);
    var w' := SoloNext(below, t, pc', recvg, pcs, done);
    var next := NextPcs(w');
    assert w.stack[..|w.stack| - 1] == below && {t} - w'.done == {t};
    assert Leader({t}) in {t};
    assert Group({t}, next) == {t} && {t} - {t} == {};
    SoloSettles(below, Entry(pcs[t], {t}, recvg), t, next, ConvergePc(p, ip, pcs[t]));
    assert Moves(p, w.pcs[t], w'.pcs[t]);
  }

  lemma SoloSettles(below: seq<Entry>, top: Entry, t: nat, next: seq<nat>, recvg: nat)
    requires t < |next|
    ensures Settle(below, top, {t}, next, recvg) ==
      if next[t] == top.recvgPc then below else below + [Entry(next[t], {t}, top.recvgPc)]
  {
    assert Leader({t}) in {t};
    assert Group({t}, next) == {t};
    assert {t} - {t} == {};
    assert Settle(below, top, {}, next, recvg) == below;
  }

  lemma SoloFinish(p: Program, ip: seq<int>, below: seq<Entry>, t: nat, recvg: nat, pcs: seq<nat>, done: set<nat>)
    requires WellFormedProgram(p) && Postdominators.AreImmediate(p.g, ip) && t < |pcs| && t !in done
    requires Finishes(p, pcs[t])
    ensures Step(p, ip, Solo(below, t, pcs[t], recvg, pcs, done), Warp(below, pcs, done + {t}))
  {
    var w, w' := Solo(below, t, pcs[t], recvg, pcs, done), Warp(below, pcs, done + {t});
    assert w.stack[..|w.stack| - 1] == below && {t} - w'.done == {};
  }

  /** A thread alone follows any path that does not meet its reconvergence pc. */
  lemma {:induction false} SoloRun(p: Program, ip: seq<int>, run: seq<Warp>, below: seq<Entry>, t: nat, recvg: nat,
                                   pcs: seq<nat>,
                                   done: set<nat>, path: seq<nat>) returns (run': seq<Warp>)
    requires WellFormedProgram(p) && Postdominators.AreImmediate(p.g, ip) && IsRun(p, ip, PAIR, run)
    requires t in PAIR && t !in done && |pcs| == 2 && PcPath(p, path) && path[0] == pcs[t] && recvg !in path
    requires run[|run| - 1] == Solo(below, t, pcs[t], recvg, pcs, done)
    ensures IsRun(p, ip, PAIR, run')
    ensures run'[|run'| - 1] ==
      Solo(below, t, path[|path| - 1], recvg, pcs[t := path[|path| - 1]], done)
    decreases |path|
  {
    hide Moves, Step;
    if |path| == 1 {
      assert pcs[t := path[0]] == pcs;
      run' := run;
    } else {
      assert Moves(p, path[0], path[0 + 1]);
      SoloStep(p, ip, below, t, recvg, pcs, done, path[1]);
      var next := Solo(below, t, path[1], recvg, pcs[t := path[1]], done);
      assert path[1] in path;
      Extend(p, ip, run, next);
      PathRest(p, path);
      run' := SoloRun(p, ip, run + [next], below, t, recvg, pcs[t := path[1]], done, path[1..]);
      assert pcs[t := path[1]][t := path[|path| - 1]] == pcs[t := path[|path| - 1]];
    }
  }

  lemma PathRest(p: Program, path: seq<nat>)
    requires WellFormedProgram(p) && PcPath(p, path) && |path| > 1
    ensures PcPath(p, path[1..]) && forall x :: x in path[1..] ==> x in path
  {
    hide Moves;
    var rest := path[1..];
    forall i: nat | i + 1 < |rest| ensures Moves(p, rest[i], rest[i + 1]) {
      assert Moves(p, path[i + 1], path[i + 1 + 1]);
    }
  }

  // ----- Two ways on from the branch

  /** A way from block `b` back to the beginning, up to the edge that leads there. */
  ghost predicate Back(g: Graph, b: nat, away: seq<nat>)
    requires WellFormed(g) && b < |g|
  {
    if away == [] then 0 in g[b] else Trail(g, away) && away[0] in g[b] && 0 !in away && 0 in g[away[|away| - 1]]
  }

  /** A way from block `b` to the exit past the beginning. */
  ghost predicate Out(g: Graph, b: nat, out: seq<nat>)
    requires WellFormed(g) && b < |g|
  {
    Direct(g, out) && out[0] in g[b] && 0 !in out
  }

  function FirstBlock(away: seq<nat>): nat {
    if away == [] then 0 else away[0]
  }

  lemma {:induction false} FirstZero(q: seq<nat>) returns (m: nat)
    requires 0 in q
    ensures m < |q| && q[m] == 0 && 0 !in q[..m]
    decreases |q|
  {
    if q[0] == 0 {
      m := 0;
    } else {
      var k := FirstZero(q[1..]);
      m := k + 1;
      assert q[..m] == [q[0]] + q[1..][..k];
    }
  }

  lemma BackAlong(g: Graph, b: nat, q: seq<nat>) returns (away: seq<nat>)
    requires WellFormed(g) && b < |g| && Trail(g, q) && q[0] in g[b] && 0 in q
    ensures Back(g, b, away) && FirstBlock(away) == q[0]
  {
    var m := FirstZero(q);
    away := q[..m];
    if m > 0 {
      TrailUpTo(g, q, m - 1);
      assert q[m - 1 + 1] in g[q[m - 1]];
    }
  }

  lemma OutFrom(g: Graph, b: nat, s: nat) returns (out: seq<nat>)
    requires WellFormed(g) && b < |g| && s in g[b] && s < Exit(g) && !Postdominates(g, 0, s)
    ensures Out(g, b, out) && out[0] == s
  {
    var p :| ExitPath(g, p) && p[0] == s && 0 !in p;
    out := MakeDirect(g, p);
  }

  lemma BackFrom(g: Graph, b: nat, s: nat) returns (away: seq<nat>)
    requires WellFormed(g) && b < |g| && s in g[b] && s < Exit(g) && Postdominates(g, 0, s) && ReachesExit(g, s)
    ensures Back(g, b, away) && FirstBlock(away) == s
  {
    var p :| ExitPath(g, p) && p[0] == s;
    var r := MakeDirect(g, p);
    var i: nat :| i < |r| && r[i] == 0;
    ExitPathLast(g, r);
    assert r[..|r| - 1][i] == 0;
    away := BackAlong(g, b, r[..|r| - 1]);
  }

  lemma {:induction false} ExitPathLast(g: Graph, p: seq<nat>)
    requires WellFormed(g) && ExitPath(g, p)
    ensures p[|p| - 1] == Exit(g)
    decreases |p|
  {
    if |p| > 1 {
      ExitPathLast(g, p[1..]);
    }
  }

  /** The beginning does not postdominate every successor of a branch that reconverges only after the return. */
  lemma SomeWayOut(p: Program, ip: seq<int>, b: nat) returns (s: nat)
    requires WellFormedProgram(p) && Postdominators.AreImmediate(p.g, ip) && ReturnBranch(p, ip, b)
    ensures s in p.g[b] && s < Exit(p.g) && !Postdominates(p.g, 0, s)
  {
    var g := p.g;
    if forall u :: u in g[b] ==> Postdominates(g, 0, u) {
      forall r | ExitPath(g, r) && r[0] == b ensures 0 in r {
        assert r[1] in g[b];
        assert 0 in r[1..];
      }
      if b != 0 {
        assert StrictlyPostdominates(g, 0, b);
        OnlyExitPostdominatesExit(g, 0);
      } else {
        assert ReachesExit(g, 0);
        var r :| ExitPath(g, r) && r[0] == 0;
        LastZero(g, r);
      }
      assert false;
    }
    s :| s in g[b] && !Postdominates(g, 0, s);
  }

  /** On a way to the exit, some successor of the beginning is not followed by it again. */
  lemma {:induction false} LastZero(g: Graph, r: seq<nat>)
    requires WellFormed(g) && ExitPath(g, r) && 0 in r
    ensures exists u :: u in g[0] && !Postdominates(g, 0, u)
    decreases |r|
  {
    if |r| == 1 {
    } else if 0 in r[1..] {
      LastZero(g, r[1..]);
    } else {
      assert r[1] in g[0];
      assert !Postdominates(g, 0, r[1]) by {
        var q := r[1..];
        assert ExitPath(g, q) && q[0] == r[1] && 0 !in q;
      }
    }
  }

  lemma {:induction false} StuckPath(g: Graph, b: nat, r: seq<nat>)
    requires WellFormed(g) && ExitPath(g, r) && r[0] == b && b < Exit(g)
    ensures exists u :: u in g[b] && u != b
    decreases |r|
  {
    if r[1] == b {
      StuckPath(g, b, r[1..]);
    }
  }

  /** A branch that reconverges only after the return has two ways to go. */
  lemma SecondWay(p: Program, ip: seq<int>, b: nat, s: nat) returns (u: nat)
    requires WellFormedProgram(p) && Postdominators.AreImmediate(p.g, ip) && ReturnBranch(p, ip, b) && s in p.g[b]
    ensures u in p.g[b] && u < Exit(p.g) && u != s
  {
    var g := p.g;
    if forall x :: x in g[b] ==> x == s {
      assert ReachesExit(g, b);
      var r :| ExitPath(g, r) && r[0] == b;
      StuckPath(g, b, r);
      forall q | ExitPath(g, q) && q[0] == b ensures s in q {
        assert q[1] in g[b];
      }
      assert StrictlyPostdominates(g, s, b);
      OnlyExitPostdominatesExit(g, s);
      assert false;
    }
    u :| u in g[b] && u != s;
  }

  /** One way leads back to the beginning, a different one to the exit. */
  lemma TwoWays(p: Program, ip: seq<int>, b: nat) returns (away: seq<nat>, out: seq<nat>)
    requires WellFormedProgram(p) && Postdominators.AreImmediate(p.g, ip) && ReturnBranch(p, ip, b)
    requires Reaches(p.g, b, 0)
    ensures Back(p.g, b, away) && Out(p.g, b, out) && FirstBlock(away) != out[0]
  {
    var g := p.g;
    var s := SomeWayOut(p, ip, b);
    out := OutFrom(g, b, s);
    if u: nat :| u in g[b] && u != s && Postdominates(g, 0, u) {
      assert u < Exit(g) && ReachesExit(g, u);
      away := BackFrom(g, b, u);
    } else {
      var q: seq<nat> :| Trail(g, q) && |q| >= 2 && q[0] == b && q[|q| - 1] == 0;
      assert q[0 + 1] in g[q[0]];
      TrailFrom(g, q, 1);
      assert q[1..][|q| - 2] == 0;
      away := BackAlong(g, b, q[1..]);
      if q[1] == s {
        var u := SecondWay(p, ip, b, s);
        out := OutFrom(g, b, u);
      }
    }
  }

  // ----- The two threads

  /** The state in which thread 0 is back at the beginning, thread 1 has finished, and the top entry holds both. */
  function LeftBehind(p: Program, pc: nat): Warp {
    Warp([Entry(p.returnPc, PAIR, NULL_PC)], [p.returnPc, pc], {1})
  }

  lemma LeftBehindIsNotSynced(p: Program, pc: nat)
    ensures !Synced(LeftBehind(p, pc), PAIR)
  {
    var w := LeftBehind(p, pc);
    assert 0 in PAIR - w.done && 1 in Top(w).mask;
  }

  /** Thread 0 goes back to the beginning and is taken for reconverged. */
  lemma ThreadZeroReturns(p: Program, ip: seq<int>, run: seq<Warp>, b: nat, away: seq<nat>,
                          c: nat) returns (run': seq<Warp>)
    requires WellFormedProgram(p) && Postdominators.AreImmediate(p.g, ip) && IsRun(p, ip, PAIR, run)
    requires p.returnPc == p.blocks[0][0] && b < Exit(p.g) && Back(p.g, b, away)
    requires FirstBlock(away) < Exit(p.g) && run[|run| - 1] == Apart2(p, p.blocks[FirstBlock(away)][0], c)
    ensures IsRun(p, ip, PAIR, run') && run'[|run'| - 1] == Apart2(p, p.returnPc, c)
  {
    hide Moves, Step, IsRun;
    if away == [] {
      run' := run;
    } else {
      var path, a, last := Walk(p, away), p.blocks[away[0]][0], away[|away| - 1];
      WalkIsPath(p, away);
      var below := [Entry(p.returnPc, PAIR, NULL_PC), Entry(c, {1}, p.returnPc)];
      assert a in path && a != p.returnPc;
      assert Apart2(p, a, c) == Solo(below, 0, a, p.returnPc, [a, c], {});
      var alone := SoloRun(p, ip, run, below, 0, p.returnPc, [a, c], {}, path);
      var e := path[|path| - 1];
      assert [a, c][0 := e] == [e, c];
      MoveAcross(p, last, 0);
      SoloStep(p, ip, below, 0, p.returnPc, [e, c], {}, p.returnPc);
      assert [e, c][0 := p.returnPc] == [p.returnPc, c];
      assert 0 in PAIR;
      Extend(p, ip, alone, Apart2(p, p.returnPc, c));
      run' := alone + [Apart2(p, p.returnPc, c)];
    }
  }

  /** Thread 1 finishes. */
  lemma ThreadOneFinishes(p: Program, ip: seq<int>, run: seq<Warp>, b: nat, out: seq<nat>) returns (run': seq<Warp>,
                          pc: nat)
    requires WellFormedProgram(p) && Postdominators.AreImmediate(p.g, ip) && IsRun(p, ip, PAIR, run)
    requires p.returnPc == p.blocks[0][0] && b < Exit(p.g) && Out(p.g, b, out)
    requires out[0] < Exit(p.g) && run[|run| - 1] == Apart2(p, p.returnPc, p.blocks[out[0]][0])
    ensures IsRun(p, ip, PAIR, run') && run'[|run'| - 1] == LeftBehind(p, pc)
  {
    hide Moves, Step, IsRun;
    var q := out[..|out| - 1];
    var path, c, last := Walk(p, q), p.blocks[q[0]][0], q[|q| - 1];
    WalkIsPath(p, q);
    var below := [Entry(p.returnPc, PAIR, NULL_PC)];
    assert Apart2(p, p.returnPc, c) == Solo(below, 1, c, p.returnPc, [p.returnPc, c], {});
    var alone := SoloRun(p, ip, run, below, 1, p.returnPc, [p.returnPc, c], {}, path);
    pc := path[|path| - 1];
    assert [p.returnPc, c][1 := pc] == [p.returnPc, pc];
    LastEdge(p.g, out);
    assert At(p, pc, last, |p.blocks[last]| - 1);
    SoloFinish(p, ip, below, 1, p.returnPc, [p.returnPc, pc], {});
    assert 0 in PAIR && {} + {1} == {1};
    Extend(p, ip, alone, LeftBehind(p, pc));
    run' := alone + [LeftBehind(p, pc)];
  }

  lemma {:induction false} LastEdge(g: Graph, r: seq<nat>)
    requires WellFormed(g) && ExitPath(g, r) && |r| >= 2
    ensures r[|r| - 2] < |g| && Exit(g) in g[r[|r| - 2]]
    decreases |r|
  {
    if |r| > 2 {
      LastEdge(g, r[1..]);
    }
  }

  /** Whatever the program: a branch that can be run, reconverges only after the return, and can be followed by a
      beginning that is the return address, makes a run go wrong. */
  lemma ReturnConfuses(p: Program, ip: seq<int>, b: nat) returns (run: seq<Warp>)
    requires WellFormedProgram(p) && Postdominators.AreImmediate(p.g, ip) && IsPc(p, p.returnPc)
    requires ReturnBranch(p, ip, b) && Reached(p.g, b) && Reaches(p.g, b, 0)
    ensures IsRun(p, ip, PAIR, run) && run != [] && !Synced(run[|run| - 1], PAIR)
  {
    var q: seq<nat> :| Trail(p.g, q) && q[0] == 0 && q[|q| - 1] == b;
    WalkIsPath(p, q);
    var path := Walk(p, q);
    var together := Together(p, ip, path);
    var pc := path[|path| - 1];
    assert At(p, pc, b, |p.blocks[b]| - 1);
    var away, out := TwoWays(p, ip, b);
    var s, u := FirstBlock(away), out[0];
    assert s in p.g[b] && s < Exit(p.g) && u in p.g[b] && u < Exit(p.g);
    var a, c := p.blocks[s][0], p.blocks[u][0];
    assert At(p, a, s, 0) && At(p, c, u, 0) && At(p, p.blocks[0][0], 0, 0);
    MoveAcross(p, b, s);
    MoveAcross(p, b, u);
    hide Moves, Step, IsRun, Reached, Reaches;
    SplitStep(p, ip, pc, a, c);
    assert 0 in PAIR;
    Extend(p, ip, together, Apart2(p, a, c));
    var returned := ThreadZeroReturns(p, ip, together + [Apart2(p, a, c)], b, away, c);
    var end;
    run, end := ThreadOneFinishes(p, ip, returned, b, out);
    LeftBehindIsNotSynced(p, end);
  }

  /** Every run of the program stays in step. */
  ghost predicate AlwaysSynced(p: Program, ip: seq<int>)
    requires WellFormedProgram(p) && Postdominators.AreImmediate(p.g, ip)
  {
    forall launched: set<nat>, run: seq<Warp>, n: nat ::
      IsRun(p, ip, launched, run) && n < |run| ==> Synced(run[n], launched)
  }

  /** The exact condition: all runs stay in step if and only if the return address does no harm. */
  lemma AlwaysSyncedIff(p: Program, ip: seq<int>)
    requires WellFormedProgram(p) && Postdominators.AreImmediate(p.g, ip)
    ensures AlwaysSynced(p, ip) <==> ReturnSafe(p, ip)
  {
    hide IsRun, Synced;
    if ReturnSafe(p, ip) {
      forall launched: set<nat>, run: seq<Warp>, n: nat | IsRun(p, ip, launched, run) && n < |run|
        ensures Synced(run[n], launched)
      {
        ThreadsStayInSync(p, ip, launched, run, n);
      }
    } else {
      var b: nat :| ReturnBranch(p, ip, b) && Reached(p.g, b) && Reaches(p.g, b, 0);
      var run := ReturnConfuses(p, ip, b);
      var n: nat := |run| - 1;
      assert IsRun(p, ip, PAIR, run) && n < |run| && !Synced(run[n], PAIR);
    }
  }

  // ----- A program that goes wrong

  /** 0 branches to 1 and 2, 1 branches to 0 and 3, and 2 and 3 return; the program begins at pc 0. */
  function Looping(): Program {
    Program([{1, 2}, {0, 3}, {4}, {4}, {}], [[0], [8], [16], [24], []], [true, true, false, false, false], 0)
  }

  const LOOPING_IMMEDIATE: seq<int> := [4, 4, 4, 4, -1]

  lemma LoopingPaths()
    ensures var g := Looping().g;
      ExitPath(g, [4]) && ExitPath(g, [3, 4]) && ExitPath(g, [2, 4]) && ExitPath(g, [1, 3, 4]) && ExitPath(g, [0, 2, 4])
      && ExitPath(g, [0, 1, 3, 4]) && ExitPath(g, [1, 0, 2, 4])
  {
    var g := Looping().g;
    assert [4][1..] == [] && [3, 4][1..] == [4] && [2, 4][1..] == [4];
    assert ExitPath(g, [4]) && ExitPath(g, [3, 4]) && ExitPath(g, [2, 4]);
    assert [1, 3, 4][1..] == [3, 4] && [0, 2, 4][1..] == [2, 4];
    assert ExitPath(g, [1, 3, 4]) && ExitPath(g, [0, 2, 4]);
    assert [0, 1, 3, 4][1..] == [1, 3, 4] && [1, 0, 2, 4][1..] == [0, 2, 4];
  }

  lemma LoopingIsWellFormed()
    ensures WellFormedProgram(Looping())
  {
    LoopingPaths();
    var p := Looping();
    forall b | 0 <= b < |p.g| ensures ReachesExit(p.g, b) {
      var r := if b == 0 then [0, 2, 4] else if b == 1 then [1, 3, 4] else if b == 2 then [2, 4] else [3, 4];
      r := if b == 4 then [4] else r;
      assert ExitPath(p.g, r) && r[0] == b;
    }
    forall pc: nat, b: nat, i: nat | At(p, pc, b, i) ensures b < 4 && i == 0 && pc == 8 * b {
    }
  }

  lemma LoopingReconverges()
    ensures WellFormed(Looping().g) && Postdominators.AreImmediate(Looping().g, LOOPING_IMMEDIATE)
  {
    LoopingPaths();
    hide ExitPath, ImmediatelyPostdominates;
    OnlyExitShared(Looping().g, [0, 2, 4], [0, 1, 3, 4]);
    OnlyExitShared(Looping().g, [1, 3, 4], [1, 0, 2, 4]);
    OnlyExitShared(Looping().g, [2, 4], [2, 4]);
    OnlyExitShared(Looping().g, [3, 4], [3, 4]);
  }

  /** Two ways to the exit that share no other block leave only the exit as a postdominator. */
  lemma OnlyExitShared(g: Graph, r: seq<nat>, s: seq<nat>)
    requires WellFormed(g) && r != [] && ExitPath(g, r) && s != [] && ExitPath(g, s) && r[0] == s[0] != Exit(g)
    requires forall k :: k in r && k in s ==> k == r[0] || k == Exit(g)
    ensures ImmediatelyPostdominates(g, Exit(g), r[0])
  {
    hide ExitPath;
    ExitPostdominatesAll(g, r[0]);
    PostdominatesSelf(g, Exit(g));
  }

  /** The failing input: the property does not hold of this program. */
  lemma LoopingGoesWrong()
    ensures WellFormedProgram(Looping()) && Postdominators.AreImmediate(Looping().g, LOOPING_IMMEDIATE)
    ensures !AlwaysSynced(Looping(), LOOPING_IMMEDIATE)
  {
    LoopingIsWellFormed();
    LoopingReconverges();
    var p := Looping();
    assert At(p, 0, 0, 0);
    assert Trail(p.g, [0]) && Reached(p.g, 0);
    assert Trail(p.g, [0, 1, 0]);
    assert Reaches(p.g, 0, 0);
    assert ReturnBranch(p, LOOPING_IMMEDIATE, 0);
    AlwaysSyncedIff(p, LOOPING_IMMEDIATE);
  }
}
