/** The postdominator analysis of a function: the fixpoint over postdominator sets and the
pruning of each set down to the immediate postdominator. */
module Postdominators {
  import opened FlowGraph

  // ----- Set helpers of the analysis

  method Intersect(a: set<nat>, b: set<nat>) returns (r: set<nat>)
    ensures r == a * b
  {
    r := a;
    var todo := a;
    while todo != {}
      invariant todo <= a
      invariant forall x :: x in r <==> x in a && (x in todo || x in b)
    {
      var x :| x in todo;
      todo := todo - {x};
      if x !in b {
        r := r - {x};
      }
    }
  }

  lemma SubsetOfSameSize(a: set<nat>, b: set<nat>)
    requires b <= a && |a| == |b|
    ensures a == b
  {
    assert a == b + (a - b);
  }

  method IsEqual(a: set<nat>, b: set<nat>) returns (equal: bool)
    ensures equal <==> a == b
  {
    if |a| != |b| {
      return false;
    }
    var todo := b;
    while todo != {}
      invariant todo <= b
      invariant forall x :: x in b && x !in todo ==> x in a
    {
      var x :| x in todo;
      if x !in a {
        return false;
      }
      todo := todo - {x};
    }
    SubsetOfSameSize(a, b);
    return true;
  }

  // ----- The fixpoint equation

  /** What one visit of block `h` computes: `h` itself and whatever all successors share. */
  ghost predicate IsMeet(g: Graph, d: seq<set<nat>>, h: nat, t: set<nat>)
    requires WellFormed(g) && |d| == |g| && h < |g|
  {
    forall m: nat :: m in t <==> m < |g| && (m == h || forall s :: s in g[h] ==> m in d[s])
  }

  ghost predicate Fixpoint(g: Graph, d: seq<set<nat>>)
    requires WellFormed(g) && |d| == |g|
  {
    d[Exit(g)] == {Exit(g)} && forall h :: 0 <= h < Exit(g) ==> IsMeet(g, d, h, d[h])
  }

  /** The meet at every block other than the exit lies inside the set held there. */
  ghost predicate Shrinking(g: Graph, d: seq<set<nat>>)
    requires WellFormed(g) && |d| == |g|
  {
    && (forall h :: 0 <= h < |g| ==> d[h] <= Ids(|g|))
    && d[Exit(g)] == {Exit(g)}
    && forall h: nat, m: nat :: h < Exit(g) && m < |g| && m !in d[h] ==>
         m != h && exists s :: s in g[h] && m !in d[s]
  }

  /** No postdominator has been lost. */
  ghost predicate KeepsPostdominators(g: Graph, d: seq<set<nat>>)
    requires WellFormed(g) && |d| == |g|
  {
    forall n: nat, m: nat :: n < |g| && Postdominates(g, m, n) ==> m in d[n]
  }

  ghost predicate ArePostdominators(g: Graph, d: seq<set<nat>>)
    requires WellFormed(g)
  {
    |d| == |g| && forall n: nat, m: nat :: n < |g| ==> (m in d[n] <==> Postdominates(g, m, n))
  }

  function TotalSize(d: seq<set<nat>>): nat {
    if d == [] then 0 else |d[0]| + TotalSize(d[1..])
  }

  lemma {:induction false} TotalSizeShrinks(d: seq<set<nat>>, h: nat, t: set<nat>)
    requires h < |d| && t < d[h]
    ensures TotalSize(d[h := t]) < TotalSize(d)
  {
    var e := d[h := t];
    if h == 0 {
      assert d[0] == t + (d[0] - t);
      assert e[1..] == d[1..];
    } else {
      TotalSizeShrinks(d[1..], h - 1, t);
      assert e[1..] == d[1..][h - 1 := t];
    }
  }

  /** Any solution of the equation only holds blocks that lie on every path. */
  lemma {:induction false} FixpointIsSound(g: Graph, d: seq<set<nat>>, m: nat, p: seq<nat>)
    requires WellFormed(g) && |d| == |g| && Fixpoint(g, d)
    requires ExitPath(g, p) && m in d[p[0]]
    ensures m in p
    decreases |p|
  {
    if p[0] != Exit(g) && m != p[0] {
      assert |p| > 1 && p[1] in g[p[0]];
      FixpointIsSound(g, d, m, p[1..]);
    }
  }

  /** A meet of sets that lost no postdominator has lost none itself. */
  lemma MeetKeepsPostdominators(g: Graph, d: seq<set<nat>>, h: nat, t: set<nat>)
    requires WellFormed(g) && |d| == |g| && h < |g| && IsMeet(g, d, h, t)
    requires KeepsPostdominators(g, d)
    ensures KeepsPostdominators(g, d[h := t])
  {
    forall m: nat | Postdominates(g, m, h) ensures m in t {
      if m != h {
        forall s | s in g[h] ensures m in d[s] {
          PostdominatesSuccessor(g, m, h, s);
        }
      }
    }
  }

  lemma MeetKeepsShrinking(g: Graph, d: seq<set<nat>>, h: nat, t: set<nat>)
    requires WellFormed(g) && |d| == |g| && h < Exit(g) && IsMeet(g, d, h, t)
    requires Shrinking(g, d)
    ensures t <= d[h]
    ensures Shrinking(g, d[h := t])
  {
    forall m: nat | m in t ensures m in d[h] {
      assert m < |g| && (m == h || forall s :: s in g[h] ==> m in d[s]);
    }
    var e := d[h := t];
    forall k: nat, m: nat | k < Exit(g) && m < |g| && m !in e[k]
      ensures m != k && exists s :: s in g[k] && m !in e[s]
    {
      if k == h {
        var s :| s in g[h] && m !in d[s];
        assert m !in e[s];
      } else {
        var s :| s in g[k] && m !in d[s];
        assert m !in e[s];
      }
    }
  }

  // ----- The analysis

  class FunctionInfo {
    /** Successor ids of every basic block; the last block is the exit block. */
    const successors: Graph
    var postdominators: seq<set<nat>>
    var candidates: seq<set<nat>>
    var immediatePostdominator: seq<int>

    ghost predicate Valid()
      reads this
    {
      && WellFormed(successors)
      && |postdominators| == |candidates| == |immediatePostdominator| == |successors|
    }

    constructor (g: Graph)
      requires WellFormed(g)
      ensures Valid() && successors == g
      ensures forall b :: 0 <= b < |g| ==> postdominators[b] == {} && immediatePostdominator[b] == -1
    {
      successors := g;
      postdominators := seq(|g|, _ => {});
      candidates := seq(|g|, _ => {});
      immediatePostdominator := seq(|g|, _ => -1);
    }

    /** One visit of block `h`: start from all blocks, intersect over the successors, add `h`. */
    method Meet(h: nat) returns (t: set<nat>)
      requires Valid() && h < |successors|
      ensures IsMeet(successors, postdominators, h, t)
    {
      t := Ids(|successors|);
      var todo := successors[h];
      while todo != {}
        invariant todo <= successors[h]
        invariant forall m: nat :: m in t <==>
          m < |successors| && forall s :: s in successors[h] && s !in todo ==> m in postdominators[s]
      {
        var s :| s in todo;
        todo := todo - {s};
        t := Intersect(t, postdominators[s]);
      }
      t := t + {h};
    }

    /** Visits every block but the exit once, last block first. */
    method Sweep() returns (change: bool)
      requires Valid() && Shrinking(successors, postdominators)
      requires KeepsPostdominators(successors, postdominators)
      modifies this`postdominators
      ensures Valid() && Shrinking(successors, postdominators)
      ensures KeepsPostdominators(successors, postdominators)
      ensures change ==> TotalSize(postdominators) < TotalSize(old(postdominators))
      ensures !change ==> postdominators == old(postdominators) && Fixpoint(successors, postdominators)
    {
      hide IsMeet, KeepsPostdominators, TotalSize;
      change := false;
      var h := |successors| - 1;
      while h > 0
        invariant 0 <= h <= Exit(successors)
        invariant Valid() && Shrinking(successors, postdominators)
        invariant KeepsPostdominators(successors, postdominators)
        invariant change ==> TotalSize(postdominators) < TotalSize(old(postdominators))
        invariant !change ==> postdominators == old(postdominators)
        invariant !change ==> forall k :: h <= k < Exit(successors) ==>
          IsMeet(successors, postdominators, k, postdominators[k])
      {
        h := h - 1;
        var t := Meet(h);
        var same := IsEqual(t, postdominators[h]);
        if !same {
          MeetKeepsShrinking(successors, postdominators, h, t);
          MeetKeepsPostdominators(successors, postdominators, h, t);
          TotalSizeShrinks(postdominators, h, t);
          change := true;
          postdominators := postdominators[h := t];
        }
      }
    }

    /** Terminates on every graph, and leaves in each block exactly the blocks on every path to the exit. */
    method FindPostdominators()
      requires Valid()
      requires forall b :: 0 <= b < |successors| ==> postdominators[b] == {}
      modifies this`postdominators
      ensures Valid() && ArePostdominators(successors, postdominators)
    {
      var all := Ids(|successors|);
      postdominators := seq(|successors|, (b: nat) => if b == |successors| - 1 then {b} else all);
      assert KeepsPostdominators(successors, postdominators) by {
        forall n: nat, m: nat | n < |successors| && Postdominates(successors, m, n) ensures m in postdominators[n] {
          if n == Exit(successors) {
            OnlyExitPostdominatesExit(successors, m);
          }
        }
      }
      var change := true;
      while change
        invariant Valid() && Shrinking(successors, postdominators)
        invariant KeepsPostdominators(successors, postdominators)
        invariant !change ==> Fixpoint(successors, postdominators)
        decreases TotalSize(postdominators), change
      {
        change := Sweep();
      }
      forall n: nat, m: nat | n < |successors| && m in postdominators[n] ensures Postdominates(successors, m, n) {
        forall p | ExitPath(successors, p) && p[0] == n ensures m in p {
          FixpointIsSound(successors, postdominators, m, p);
        }
      }
    }

    /** Initialises the candidates of every block to its strict postdominators, then prunes
        every block but the exit, last block first. */
    method FindCandidates()
      requires Valid()
      requires forall b :: 0 <= b < |successors| ==> postdominators[b] <= Ids(|successors|)
      modifies this`candidates
      ensures Valid()
      ensures forall n: nat, m: nat ::
        n < Exit(successors) && Nearest(postdominators, postdominators[n] - {n}, m) ==> candidates[n] == {m}
      ensures candidates[Exit(successors)] == postdominators[Exit(successors)] - {Exit(successors)}
    {
      candidates := seq(|successors|, b requires 0 <= b < |postdominators| reads this => postdominators[b] - {b});
      var n := |successors| - 1;
      while n > 0
        invariant 0 <= n <= Exit(successors)
        invariant Valid()
        invariant forall k :: 0 <= k < n || k == Exit(successors) ==> candidates[k] == postdominators[k] - {k}
        invariant forall k: nat, m: nat ::
          n <= k < Exit(successors) && Nearest(postdominators, postdominators[k] - {k}, m) ==> candidates[k] == {m}
      {
        n := n - 1;
        var pruned := Prune(postdominators, candidates[n]);
        candidates := candidates[n := pruned];
      }
    }

    /** Every block but the exit that reaches the exit gets its immediate postdominator. When all do, the checks
        hold that the analysis makes on its own result, of which `consistent` is the conjunction. */
    method FindImmediatePostdominators() returns (consistent: bool)
      requires Valid() && ArePostdominators(successors, postdominators)
      requires forall b :: 0 <= b < |successors| ==> immediatePostdominator[b] == -1
      modifies this`candidates, this`immediatePostdominator
      ensures Valid()
      ensures consistent <==> ChecksPass(candidates)
      ensures forall n: nat :: n < Exit(successors) && ReachesExit(successors, n) ==>
                immediatePostdominator[n] >= 0 && ImmediatelyPostdominates(successors, immediatePostdominator[n], n)
      ensures AllReachExit(successors) ==> consistent && AreImmediate(successors, immediatePostdominator)
    {
      FindCandidates();
      consistent := CollectImmediate();
      forall n: nat | n < Exit(successors) && ReachesExit(successors, n)
        ensures immediatePostdominator[n] >= 0 && ImmediatelyPostdominates(successors, immediatePostdominator[n], n)
      {
        CandidateIsImmediate(successors, postdominators, candidates, immediatePostdominator, n);
      }
      if AllReachExit(successors) {
        CandidatesAreImmediate(successors, postdominators, candidates, immediatePostdominator);
      }
    }

    /** The last loop: every block takes an element of its candidate set, if there is one, and the
        sizes of the sets are checked. */
    method CollectImmediate() returns (consistent: bool)
      requires Valid()
      requires forall b :: 0 <= b < |successors| ==> immediatePostdominator[b] == -1
      modifies this`immediatePostdominator
      ensures Valid()
      ensures forall n :: 0 <= n < |candidates| ==> TakenFrom(candidates[n], immediatePostdominator[n])
      ensures consistent <==> ChecksPass(candidates)
    {
      consistent := true;
      var count := 0;
      var n := |successors|;
      while n > 0
        invariant 0 <= n <= |successors| && Valid()
        invariant consistent <==> forall k :: n <= k < |candidates| ==> |candidates[k]| <= 1
        invariant count == NonEmptyFrom(candidates, n)
        invariant forall k :: n <= k < |candidates| ==> TakenFrom(candidates[k], immediatePostdominator[k])
        invariant forall k :: 0 <= k < n ==> immediatePostdominator[k] == -1
      {
        n := n - 1;
        consistent := consistent && |candidates[n]| <= 1;
        if candidates[n] != {} {
          var m :| m in candidates[n];
          immediatePostdominator := immediatePostdominator[n := m];
          count := count + 1;
        }
      }
      consistent := consistent && count == |successors| - 1;
    }
  }

  // ----- Immediate postdominators

  /** `m` is an element of `c`, or -1 when there is none. */
  ghost predicate TakenFrom(c: set<nat>, m: int) {
    if c == {} then m == -1 else m >= 0 && m as nat in c
  }

  function NonEmptyFrom(c: seq<set<nat>>, n: nat): nat
    requires n <= |c|
    decreases |c| - n
  {
    if n == |c| then 0 else (if c[n] == {} then 0 else 1) + NonEmptyFrom(c, n + 1)
  }

  /** No set has two candidates, and all but one of the sets have one. */
  ghost predicate ChecksPass(c: seq<set<nat>>) {
    (forall n :: 0 <= n < |c| ==> |c[n]| <= 1) && NonEmptyFrom(c, 0) == |c| - 1
  }

  lemma {:induction false} NonEmptyCount(c: seq<set<nat>>, n: nat)
    requires n < |c| && c[|c| - 1] == {} && forall k :: n <= k < |c| - 1 ==> |c[k]| == 1
    ensures NonEmptyFrom(c, n) == |c| - 1 - n
    decreases |c| - n
  {
    if n + 1 < |c| {
      assert c[n] != {};
      NonEmptyCount(c, n + 1);
    }
  }

  ghost predicate AreImmediate(g: Graph, ip: seq<int>)
    requires WellFormed(g)
  {
    && |ip| == |g|
    && ip[Exit(g)] == -1
    && forall n :: 0 <= n < Exit(g) ==> ip[n] >= 0 && ImmediatelyPostdominates(g, ip[n], n)
  }

  /** Every block that reaches the exit gets its immediate postdominator, whatever the other blocks do. */
  lemma CandidateIsImmediate(g: Graph, d: seq<set<nat>>, c: seq<set<nat>>, ip: seq<int>, n: nat)
    requires WellFormed(g) && ArePostdominators(g, d) && |c| == |ip| == |g| && n < Exit(g) && ReachesExit(g, n)
    requires forall m: nat :: Nearest(d, d[n] - {n}, m) ==> c[n] == {m}
    requires TakenFrom(c[n], ip[n])
    ensures |c[n]| == 1 && ip[n] >= 0 && ImmediatelyPostdominates(g, ip[n], n)
  {
    var m := ImmediatePostdominatorExists(g, n);
    ImmediateIsNearest(g, d, n, m);
    assert c[n] == {m};
  }

  lemma CandidatesAreImmediate(g: Graph, d: seq<set<nat>>, c: seq<set<nat>>, ip: seq<int>)
    requires WellFormed(g) && AllReachExit(g) && ArePostdominators(g, d) && |c| == |ip| == |g|
    requires forall n: nat, m: nat :: n < Exit(g) && Nearest(d, d[n] - {n}, m) ==> c[n] == {m}
    requires c[Exit(g)] == d[Exit(g)] - {Exit(g)}
    requires forall n :: 0 <= n < |c| ==> TakenFrom(c[n], ip[n])
    ensures ChecksPass(c) && AreImmediate(g, ip)
  {
    assert c[Exit(g)] == {} by {
      forall m: nat | m in d[Exit(g)] ensures m == Exit(g) {
        OnlyExitPostdominatesExit(g, m);
      }
    }
    forall n | 0 <= n < Exit(g) ensures |c[n]| == 1 && ip[n] >= 0 && ImmediatelyPostdominates(g, ip[n], n) {
      assert TakenFrom(c[n], ip[n]);
      CandidateIsImmediate(g, d, c, ip, n);
    }
    NonEmptyCount(c, 0);
  }

  // ----- Pruning

  /** `m` is in `all`, is postdominated by every other element of `all` and postdominates none of them. */
  ghost predicate Nearest(d: seq<set<nat>>, all: set<nat>, m: nat) {
    && m in all && m < |d|
    && forall s :: s in all && s != m ==> s in d[m] && (s < |d| ==> m !in d[s])
  }

  ghost predicate KeepsNearest(d: seq<set<nat>>, all: set<nat>, live: set<nat>, done: nat) {
    forall m: nat :: Nearest(d, all, m) ==> m in live && (m < done ==> live == {m})
  }

  lemma ImmediateIsNearest(g: Graph, d: seq<set<nat>>, n: nat, m: nat)
    requires WellFormed(g) && ReachesExit(g, n) && ArePostdominators(g, d) && n < |g|
    requires ImmediatelyPostdominates(g, m, n)
    ensures Nearest(d, d[n] - {n}, m)
  {
    PostdominatorReachesExit(g, m, n);
    forall s | s in d[n] - {n} && s != m ensures s in d[m] && (s < |d| ==> m !in d[s]) {
      assert StrictlyPostdominates(g, s, n);
      if Postdominates(g, m, s) {
        PostdominanceAntisymmetric(g, m, s);
      }
    }
  }

  /** Erases from the candidates, while iterating over them in ascending order, every element that
      postdominates another one still present. */
  method Prune(d: seq<set<nat>>, all: set<nat>) returns (live: set<nat>)
    requires all <= Ids(|d|)
    ensures live <= all && forall m: nat :: Nearest(d, all, m) ==> live == {m}
  {
    live := all;
    for s := 0 to |d|
      invariant live <= all && KeepsNearest(d, all, live, s)
    {
      if s in live {
        live := PruneBy(d, all, live, s);
      }
    }
    forall m: nat | Nearest(d, all, m) ensures live == {m} {
    }
  }

  /** The inner loop: erases every candidate other than `s` that postdominates `s`. */
  method PruneBy(d: seq<set<nat>>, ghost all: set<nat>, before: set<nat>, s: nat) returns (live: set<nat>)
    requires all <= Ids(|d|) && before <= all && s in before && s < |d|
    requires KeepsNearest(d, all, before, s)
    ensures live <= before && KeepsNearest(d, all, live, s + 1)
  {
    live := before;
    for t := 0 to |d|
      invariant live <= before && s in live && KeepsNearest(d, all, live, s)
      invariant forall k :: 0 <= k < t && k != s && k in d[s] ==> k !in live
    {
      if t in live && t != s && t in d[s] {
        live := live - {t};
      }
    }
    if Nearest(d, all, s) {
      assert live == {s};
    }
  }
}
