/** Basic-block flow graphs, and what it means for one block to postdominate another.

A graph is given by the successor set of every block; the last block is the exit block.
Postdominance is defined by paths alone, so that the fixpoint computed by `Postdominators`
has an independent definition to agree with. */
module FlowGraph {

  type Graph = seq<set<nat>>

  ghost predicate WellFormed(g: Graph) {
    && |g| >= 2
    && forall b, s :: 0 <= b < |g| && s in g[b] ==> s < |g|
  }

  function Exit(g: Graph): nat
    requires |g| >= 2
  {
    |g| - 1
  }

  /** The block ids below `n`. */
  function Ids(n: nat): (ids: set<nat>)
    ensures forall b: nat :: b in ids <==> b < n
  {
    if n == 0 then {} else Ids(n - 1) + {n - 1}
  }

  /** `p` follows edges of `g` and ends in the exit block. */
  ghost predicate ExitPath(g: Graph, p: seq<nat>)
    requires WellFormed(g)
    decreases |p|
  {
    && p != []
    && p[0] < |g|
    && if |p| == 1 then p[0] == Exit(g) else p[1] in g[p[0]] && ExitPath(g, p[1..])
  }

  ghost predicate ReachesExit(g: Graph, b: nat)
    requires WellFormed(g)
  {
    exists p :: ExitPath(g, p) && p[0] == b
  }

  ghost predicate AllReachExit(g: Graph)
    requires WellFormed(g)
  {
    forall b :: 0 <= b < |g| ==> ReachesExit(g, b)
  }

  /** `m` lies on every path from `n` to the exit. */
  ghost predicate Postdominates(g: Graph, m: nat, n: nat)
    requires WellFormed(g)
  {
    m < |g| && forall p :: ExitPath(g, p) && p[0] == n ==> m in p
  }

  ghost predicate StrictlyPostdominates(g: Graph, m: nat, n: nat)
    requires WellFormed(g)
  {
    m != n && Postdominates(g, m, n)
  }

  /** `m` is the nearest strict postdominator of `n`: every other one postdominates `m` too. */
  ghost predicate ImmediatelyPostdominates(g: Graph, m: nat, n: nat)
    requires WellFormed(g)
  {
    && StrictlyPostdominates(g, m, n)
    && forall k :: StrictlyPostdominates(g, k, n) ==> Postdominates(g, k, m)
  }

  // ----- Paths

  lemma {:induction false} SuffixIsPath(g: Graph, p: seq<nat>, i: nat)
    requires WellFormed(g) && ExitPath(g, p) && i < |p|
    ensures ExitPath(g, p[i..])
    decreases i
  {
    if i == 0 {
      assert p[0..] == p;
    } else {
      SuffixIsPath(g, p[1..], i - 1);
      assert p[1..][i - 1..] == p[i..];
    }
  }

  lemma {:induction false} SpliceIsPath(g: Graph, p: seq<nat>, i: nat, q: seq<nat>)
    requires WellFormed(g) && ExitPath(g, p) && ExitPath(g, q) && i < |p| && p[i] == q[0]
    ensures ExitPath(g, p[..i] + q) && (p[..i] + q)[0] == p[0]
    decreases i
  {
    if i == 0 {
      assert p[..0] + q == q;
    } else {
      SpliceIsPath(g, p[1..], i - 1, q);
      assert p[..i] + q == [p[0]] + (p[1..][..i - 1] + q);
    }
  }

  /** The first position of `p` holding one of `a` and `b`. */
  lemma {:induction false} FirstOf(p: seq<nat>, a: nat, b: nat) returns (i: nat)
    requires a in p || b in p
    ensures i < |p| && (p[i] == a || p[i] == b) && a !in p[..i] && b !in p[..i]
  {
    i := 0;
    while p[i] != a && p[i] != b
      invariant i < |p| && a !in p[..i] && b !in p[..i]
      decreases |p| - i
    {
      assert p[..i + 1] == p[..i] + [p[i]];
      assert p == p[..i + 1] + p[i + 1..];
      i := i + 1;
    }
  }

  /** The last position of `p` holding one of `a` and `b`. */
  lemma {:induction false} LastOf(p: seq<nat>, a: nat, b: nat) returns (i: nat)
    requires a in p || b in p
    ensures i < |p| && (p[i] == a || p[i] == b) && a !in p[i + 1..] && b !in p[i + 1..]
  {
    i := |p| - 1;
    while p[i] != a && p[i] != b
      invariant i < |p| && a !in p[i + 1..] && b !in p[i + 1..]
      decreases i
    {
      assert p[i..] == [p[i]] + p[i + 1..];
      assert p == p[..i] + p[i..];
      i := i - 1;
    }
  }

  // ----- Postdominance

  lemma {:induction false} ExitPathEndsInExit(g: Graph, p: seq<nat>)
    requires WellFormed(g) && ExitPath(g, p)
    ensures Exit(g) in p
  {
    if |p| > 1 {
      ExitPathEndsInExit(g, p[1..]);
    }
  }

  lemma ExitPostdominatesAll(g: Graph, n: nat)
    requires WellFormed(g)
    ensures Postdominates(g, Exit(g), n)
  {
    forall p | ExitPath(g, p) && p[0] == n ensures Exit(g) in p {
      ExitPathEndsInExit(g, p);
    }
  }

  lemma OnlyExitPostdominatesExit(g: Graph, m: nat)
    requires WellFormed(g) && Postdominates(g, m, Exit(g))
    ensures m == Exit(g)
  {
    assert ExitPath(g, [Exit(g)]);
  }

  lemma PostdominatesSelf(g: Graph, n: nat)
    requires WellFormed(g) && n < |g|
    ensures Postdominates(g, n, n)
  {
  }

  /** A strict postdominator of a block postdominates each of its successors. */
  lemma PostdominatesSuccessor(g: Graph, m: nat, n: nat, s: nat)
    requires WellFormed(g) && n < |g| && StrictlyPostdominates(g, m, n) && s in g[n]
    ensures Postdominates(g, m, s)
  {
    forall p | ExitPath(g, p) && p[0] == s ensures m in p {
      var q := [n] + p;
      assert q[1..] == p;
      assert ExitPath(g, q);
    }
  }

  /** Two different blocks cannot postdominate each other when one of them reaches the exit. */
  lemma PostdominanceAntisymmetric(g: Graph, a: nat, b: nat)
    requires WellFormed(g) && ReachesExit(g, a)
    requires Postdominates(g, a, b) && Postdominates(g, b, a)
    ensures a == b
  {
    var p :| ExitPath(g, p) && p[0] == a;
    var i := LastOf(p, a, b);
    SuffixIsPath(g, p, i);
    var q := p[i..];
    assert q[1..] == p[i + 1..];
    assert q == [q[0]] + q[1..];
  }

  /** The strict postdominators of a block that reaches the exit form a chain. */
  lemma PostdominatorsFormChain(g: Graph, n: nat, a: nat, b: nat)
    requires WellFormed(g) && ReachesExit(g, n)
    requires Postdominates(g, a, n) && Postdominates(g, b, n)
    ensures Postdominates(g, a, b) || Postdominates(g, b, a)
  {
    var p :| ExitPath(g, p) && p[0] == n;
    var i := FirstOf(p, a, b);
    if p[i] == a {
      FirstMetIsPostdominated(g, p, i, b);
    } else {
      FirstMetIsPostdominated(g, p, i, a);
    }
  }

  /** A postdominator of the start of `p` not met before position `i` postdominates `p[i]`. */
  lemma FirstMetIsPostdominated(g: Graph, p: seq<nat>, i: nat, b: nat)
    requires WellFormed(g) && ExitPath(g, p) && i < |p|
    requires Postdominates(g, b, p[0]) && b !in p[..i]
    ensures Postdominates(g, b, p[i])
  {
    forall q | ExitPath(g, q) && q[0] == p[i] ensures b in q {
      SpliceIsPath(g, p, i, q);
      assert b in p[..i] + q;
    }
  }

  lemma PostdominanceTransitive(g: Graph, a: nat, b: nat, c: nat)
    requires WellFormed(g) && Postdominates(g, a, b) && Postdominates(g, b, c)
    ensures Postdominates(g, a, c)
  {
    forall p | ExitPath(g, p) && p[0] == c ensures a in p {
      var i :| 0 <= i < |p| && p[i] == b;
      SuffixIsPath(g, p, i);
      assert a in p[i..];
    }
  }

  /** Every block other than the exit that reaches the exit has a nearest strict postdominator. */
  lemma ImmediatePostdominatorExists(g: Graph, n: nat) returns (m: nat)
    requires WellFormed(g) && n < Exit(g) && ReachesExit(g, n)
    ensures ImmediatelyPostdominates(g, m, n)
  {
    ExitPostdominatesAll(g, n);
    var all := set b | b in Ids(|g|) && StrictlyPostdominates(g, b, n);
    assert Exit(g) in all;
    m := NearestOf(g, n, all);
  }

  lemma {:induction false} NearestOf(g: Graph, n: nat, s: set<nat>) returns (m: nat)
    requires WellFormed(g) && n < |g| && ReachesExit(g, n) && s != {}
    requires forall b :: b in s ==> Postdominates(g, b, n)
    ensures m in s && forall b :: b in s ==> Postdominates(g, b, m)
    decreases |s|
  {
    var x :| x in s;
    PostdominatesSelf(g, x);
    if s == {x} {
      return x;
    }
    var rest := s - {x};
    assert s == rest + {x};
    var y := NearestOf(g, n, rest);
    PostdominatorsFormChain(g, n, x, y);
    if Postdominates(g, x, y) {
      m := y;
    } else {
      m := x;
      forall b | b in s ensures Postdominates(g, b, m) {
        if b != x {
          PostdominanceTransitive(g, b, y, x);
        }
      }
    }
  }

  /** A postdominator of a block that reaches the exit reaches it too. */
  lemma PostdominatorReachesExit(g: Graph, m: nat, n: nat)
    requires WellFormed(g) && ReachesExit(g, n) && Postdominates(g, m, n)
    ensures ReachesExit(g, m)
  {
    var p :| ExitPath(g, p) && p[0] == n;
    var i: nat :| i < |p| && p[i] == m;
    SuffixIsPath(g, p, i);
    assert p[i..][0] == m;
  }

  lemma ImmediatePostdominatorUnique(g: Graph, n: nat, a: nat, b: nat)
    requires WellFormed(g) && ReachesExit(g, n)
    requires ImmediatelyPostdominates(g, a, n) && ImmediatelyPostdominates(g, b, n)
    ensures a == b
  {
    PostdominatorReachesExit(g, a, n);
    PostdominanceAntisymmetric(g, a, b);
  }
}
