/** Ways through a flow graph that stay on blocks with instructions. */
module Trails {
  import opened FlowGraph

  /** `q` follows edges between blocks with instructions. */
  ghost predicate Trail(g: Graph, q: seq<nat>)
    requires WellFormed(g)
  {
    && q != [] && (forall i: nat :: i < |q| ==> q[i] < Exit(g))
    && (forall i: nat :: i + 1 < |q| ==> q[i + 1] in g[q[i]])
  }

  /** Block `b` can be run after block `a`. */
  ghost predicate Reaches(g: Graph, a: nat, b: nat)
    requires WellFormed(g)
  {
    exists q: seq<nat> :: Trail(g, q) && |q| >= 2 && q[0] == a && q[|q| - 1] == b
  }

  /** Block `b` can be run at all. */
  ghost predicate Reached(g: Graph, b: nat)
    requires WellFormed(g)
  {
    exists q: seq<nat> :: Trail(g, q) && q[0] == 0 && q[|q| - 1] == b
  }

  lemma Join(g: Graph, q: seq<nat>, r: seq<nat>)
    requires WellFormed(g) && Trail(g, q) && Trail(g, r) && r[0] in g[q[|q| - 1]]
    ensures Trail(g, q + r) && (q + r)[0] == q[0] && (q + r)[|q + r| - 1] == r[|r| - 1]
  {
    var s := q + r;
    forall i: nat | i + 1 < |s| ensures s[i + 1] in g[s[i]] {
      if i + 1 < |q| {
        assert q[i + 1] in g[q[i]];
      } else if i >= |q| {
        assert r[i - |q| + 1] in g[r[i - |q|]];
      }
    }
  }

  lemma EdgeReaches(g: Graph, a: nat, b: nat)
    requires WellFormed(g) && a < Exit(g) && b < Exit(g) && b in g[a]
    ensures Reaches(g, a, b)
  {
    Join(g, [a], [b]);
    assert Trail(g, [a] + [b]) && ([a] + [b])[1] == b;
  }

  lemma ReachesOn(g: Graph, a: nat, b: nat, c: nat)
    requires WellFormed(g) && Reaches(g, a, b) && Reaches(g, b, c)
    ensures Reaches(g, a, c)
  {
    var q: seq<nat> :| Trail(g, q) && |q| >= 2 && q[0] == a && q[|q| - 1] == b;
    var r: seq<nat> :| Trail(g, r) && |r| >= 2 && r[0] == b && r[|r| - 1] == c;
    assert r[0 + 1] in g[r[0]];
    TrailFrom(g, r, 1);
    Join(g, q, r[1..]);
    assert (q + r[1..])[|q + r[1..]| - 1] == c;
  }

  lemma TrailFrom(g: Graph, q: seq<nat>, i: nat)
    requires WellFormed(g) && Trail(g, q) && i < |q|
    ensures Trail(g, q[i..])
  {
    var r := q[i..];
    forall k: nat | k + 1 < |r| ensures r[k + 1] in g[r[k]] {
      assert q[i + k + 1] in g[q[i + k]];
    }
  }

  lemma ReachedOn(g: Graph, b: nat, s: nat)
    requires WellFormed(g) && Reached(g, b) && s < Exit(g) && s in g[b]
    ensures Reached(g, s)
  {
    var q: seq<nat> :| Trail(g, q) && q[0] == 0 && q[|q| - 1] == b;
    Join(g, q, [s]);
    assert (q + [s])[|q + [s]| - 1] == s;
  }

  /** A way to the exit that meets the exit only at its end. */
  ghost predicate Direct(g: Graph, p: seq<nat>)
    requires WellFormed(g)
  {
    ExitPath(g, p) && |p| >= 2 && Trail(g, p[..|p| - 1])
  }

  lemma {:induction false} MakeDirect(g: Graph, p: seq<nat>) returns (r: seq<nat>)
    requires WellFormed(g) && ExitPath(g, p) && p[0] < Exit(g)
    ensures Direct(g, r) && r[0] == p[0] && forall b :: b in r ==> b in p
    decreases |p|
  {
    if p[1] == Exit(g) {
      r := [p[0], p[1]];
      assert r[1..] == [p[1]] && r[..1] == [p[0]];
    } else {
      ExitPathStarts(g, p[1..]);
      var rest := MakeDirect(g, p[1..]);
      r := [p[0]] + rest;
      assert r[1..] == rest;
      Join(g, [p[0]], rest[..|rest| - 1]);
      assert r[..|r| - 1] == [p[0]] + rest[..|rest| - 1];
    }
  }

  lemma ExitPathStarts(g: Graph, p: seq<nat>)
    requires WellFormed(g) && ExitPath(g, p)
    ensures p != [] && p[0] < |g|
  {
  }

  /** A block is followed by each of its strict postdominators that has instructions. */
  lemma ReachesPostdominator(g: Graph, b: nat, n: nat)
    requires WellFormed(g) && ReachesExit(g, b) && b < Exit(g) && n < Exit(g) && StrictlyPostdominates(g, n, b)
    ensures Reaches(g, b, n)
  {
    var p :| ExitPath(g, p) && p[0] == b;
    var r := MakeDirect(g, p);
    var i: nat :| i < |r| && r[i] == n;
    ExitPathEndsInExit(g, r);
    TrailUpTo(g, r[..|r| - 1], i);
    assert r[..|r| - 1][..i + 1] == r[..i + 1];
  }

  lemma TrailUpTo(g: Graph, q: seq<nat>, i: nat)
    requires WellFormed(g) && Trail(g, q) && i < |q|
    ensures Trail(g, q[..i + 1])
  {
    var r := q[..i + 1];
    forall k: nat | k + 1 < |r| ensures r[k + 1] in g[r[k]] {
      assert q[k + 1] in g[q[k]];
    }
  }
}
