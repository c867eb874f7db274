/** The SIMT reconvergence stack of a warp, for call-free code. */
module SimtStack {

  /** The pc that stands for "none", (address_type)-1. */
  const NULL_PC: nat := 0xFFFF_FFFF

  datatype Entry = Entry(pc: nat, mask: set<nat>, recvgPc: nat)

  // ----- What one update does to the stack

  /** The largest element: the threads of a warp are grouped from the highest lane down. */
  ghost function Leader(s: set<nat>): (x: nat)
    requires s != {}
    ensures x in s && forall y :: y in s ==> y <= x
    decreases |s|
  {
    var x :| x in s;
    if s == {x} then x
    else
      assert s == (s - {x}) + {x};
      var y := Leader(s - {x});
      if x < y then y else x
  }

  lemma HighestLeads(s: set<nat>, i: nat)
    requires i in s && forall t: nat :: t in s ==> t <= i
    ensures Leader(s) == i
  {
    assert Leader(s) in s;
  }

  /** The threads of `live` that go where its leader goes. */
  ghost function Group(live: set<nat>, next: seq<nat>): (g: set<nat>)
    requires live != {} && InWarp(live, |next|)
    ensures g != {} && g <= live
  {
    assert Leader(live) in live;
    set t | t in live && next[t] == next[Leader(live)]
  }

  ghost predicate InWarp(m: set<nat>, warpSize: nat) {
    forall t :: t in m ==> t < warpSize
  }

  /** One entry per group, except for the groups that have reached a reconvergence pc. */
  ghost function Spread(base: seq<Entry>, live: set<nat>, next: seq<nat>, topRecvg: nat, recvg: nat): seq<Entry>
    requires InWarp(live, |next|)
    decreases |live|
  {
    if live == {} then base
    else
      var g := Group(live, next);
      var p := next[Leader(live)];
      Smaller(live, g);
      Spread(if p == topRecvg || p == recvg then base else base + [Entry(p, g, recvg)], live - g, next, topRecvg, recvg)
  }

  /** What replaces `top`, on top of the entries `below`, when its threads `live` move to `next`. */
  ghost function Settle(below: seq<Entry>, top: Entry, live: set<nat>, next: seq<nat>, recvg: nat): seq<Entry>
    requires InWarp(live, |next|)
    decreases |live|
  {
    if live == {} then below
    else
      var g := Group(live, next);
      var p := next[Leader(live)];
      Smaller(live, g);
      if p == top.recvgPc then Settle(below, top, live - g, next, recvg)
      else if live == g then below + [Entry(p, g, top.recvgPc)]
      else Spread(Reconverging(below, top, recvg), live, next, top.recvgPc, recvg)
  }

  /** A diverging entry stays on the stack to wait at `recvg`, unless it already waits there. */
  function Reconverging(below: seq<Entry>, top: Entry, recvg: nat): seq<Entry> {
    if recvg != top.recvgPc then below + [top.(pc := recvg)] else below
  }

  lemma Smaller(live: set<nat>, g: set<nat>)
    requires g != {} && g <= live
    ensures |live - g| < |live|
  {
    assert live == (live - g) + g;
  }

  ghost function Updated(stack: seq<Entry>, done: set<nat>, next: seq<nat>, recvg: nat): seq<Entry>
    requires stack != [] && InWarp(stack[|stack| - 1].mask, |next|)
  {
    var top := stack[|stack| - 1];
    Settle(stack[..|stack| - 1], top, top.mask - done, next, recvg)
  }

  // ----- The stack object

  class Stack {
    const warpSize: nat
    var entries: seq<Entry>

    ghost predicate Valid()
      reads this
    {
      AllInWarp(entries, warpSize)
    }

    constructor (w: nat)
      ensures Valid() && warpSize == w && entries == []
    {
      warpSize := w;
      entries := [];
    }

    method Launch(startPc: nat, mask: set<nat>)
      requires InWarp(mask, warpSize)
      modifies this
      ensures Valid() && entries == [Entry(startPc, mask, NULL_PC)]
    {
      entries := [Entry(startPc, mask, NULL_PC)];
    }

    /** Takes the next group out of `active`, scanning the lanes downwards; finished threads are
        removed on the way. */
    method ExtractGroup(active: set<nat>, done: set<nat>, next: seq<nat>) returns (pc: nat, group: set<nat>,
                        rest: set<nat>)
      requires |next| == warpSize && InWarp(active, warpSize)
      requires forall t :: t in active - done ==> next[t] != NULL_PC
      ensures active - done == {} ==> pc == NULL_PC && rest == {}
      ensures active - done != {} ==>
        && pc == next[Leader(active - done)] != NULL_PC
        && group == Group(active - done, next) && rest == (active - done) - group
    {
      pc, group, rest := NULL_PC, {}, active;
      ghost var live := active - done;
      var i := warpSize;
      while i > 0
        invariant 0 <= i <= warpSize
        invariant forall t: nat :: t in rest <==>
          t in active && (t < i || (t in live && pc != NULL_PC && next[t] != pc))
        invariant forall t: nat :: t in group <==> t in live && t >= i && next[t] == pc
        invariant pc == NULL_PC ==> forall t: nat :: t in live ==> t < i
        invariant pc != NULL_PC ==> live != {} && Leader(live) >= i && pc == next[Leader(live)]
      {
        i := i - 1;
        if i in rest {
          if i in done {
            rest := rest - {i};
          } else if pc == NULL_PC {
            HighestLeads(live, i);
            pc := next[i];
            group := group + {i};
            rest := rest - {i};
          } else if pc == next[i] {
            group := group + {i};
            rest := rest - {i};
          }
        }
      }
      if live != {} {
        assert pc != NULL_PC by {
          assert Leader(live) in live;
        }
        assert group == Group(live, next);
        assert rest == live - group;
      }
    }

    /** Overwrites the top entry and pushes an empty one above it. */
    method FillTop(e: Entry, ghost base: seq<Entry>, ghost before: Entry) returns (ghost slot: Entry)
      requires entries == base + [before]
      modifies this
      ensures entries == base + [e] + [slot]
    {
      slot := Entry(NULL_PC, {}, NULL_PC);
      entries := entries[|entries| - 1 := e];
      assert entries == base + [e];
      entries := entries + [Entry(NULL_PC, {}, NULL_PC)];
    }

    /** The diverging entry, on top, stays to wait at `recvg`, unless it already waits there. */
    method KeepTop(recvg: nat, ghost base: seq<Entry>, top: Entry) returns (ghost slot: Entry)
      requires entries == base + [top]
      modifies this
      ensures entries == Reconverging(base, top, recvg) + [slot]
    {
      slot := top;
      if recvg != top.recvgPc {
        slot := FillTop(entries[|entries| - 1].(pc := recvg), base, top);
      }
    }

    /** Gives the group an entry, unless it has reached a reconvergence pc; notices divergence if threads remain. */
    method PlaceGroup(top: Entry, pc: nat, group: set<nat>, rest: set<nat>, diverged: bool, recvg: nat,
                      ghost live: set<nat>, ghost next: seq<nat>, ghost base: seq<Entry>, ghost slot: Entry)
      returns (spreads: bool, ghost base': seq<Entry>, ghost slot': Entry)
      requires entries == base + [slot] && (!diverged ==> slot == top)
      requires live != {} && InWarp(live, |next|) && pc == next[Leader(live)]
      requires group == Group(live, next) && rest == live - group
      modifies this
      ensures entries == base' + [slot'] && (!spreads && rest != {} ==> slot' == top)
      ensures Remaining(spreads, base', top, rest, next, recvg) == Remaining(diverged, base, top, live, next, recvg)
    {
      hide Leader, Spread, Settle, Remaining, Reconverging, Group;
      spreads, base', slot' := diverged, base, slot;
      if pc == top.recvgPc {
        DropGroup(diverged, base, top, live, next, recvg);
        return;
      }
      if rest != {} && !diverged {
        StartSpread(base, top, live, next, recvg);
        spreads := true;
        slot' := KeepTop(recvg, base, top);
        base' := Reconverging(base, top, recvg);
      }
      if spreads && pc == recvg {
        DropGroup(spreads, base', top, live, next, recvg);
        return;
      }
      assert live == rest + group;
      PushGroup(spreads, base', top, live, next, recvg);
      var entry := Entry(pc, group, if spreads then recvg else top.recvgPc);
      slot' := FillTop(entry, base', slot');
      base' := base' + [entry];
    }

    /** Executed after the top entry's instruction: splits the entry by next pc and reconverges. */
    method Update(done: set<nat>, next: seq<nat>, recvg: nat)
      requires Valid() && entries != [] && |next| == warpSize
      requires entries[|entries| - 1].mask != {}
      requires forall t :: t in entries[|entries| - 1].mask - done ==> next[t] != NULL_PC
      modifies this
      ensures Valid() && entries == old(Updated(entries, done, next, recvg))
    {
      hide Leader, Group, Spread, Settle, Remaining, Updated, AllInWarp;
      UpdatedInWarp(entries, done, next, recvg);
      var top := entries[|entries| - 1];
      ghost var base, slot := entries[..|entries| - 1], top;
      ghost var target := Updated(entries, done, next, recvg);
      var active := top.mask;
      var diverged := false;
      while active != {}
        invariant active <= top.mask
        invariant entries == base + [slot] && (!diverged && active != {} ==> slot == top)
        invariant target == Remaining(diverged, base, top, active - done, next, recvg)
        decreases |active|
      {
        ghost var live := active - done;
        var pc, group, rest := ExtractGroup(active, done, next);
        Smaller(active, active - rest);
        active := rest;
        if pc == NULL_PC {
          assert active - done == live;
          continue;
        }
        assert active - done == rest;
        diverged, base, slot := PlaceGroup(top, pc, group, rest, diverged, recvg, live, next, base, slot);
      }
      NoneRemains(diverged, base, top, active - done, next, recvg);
      entries := entries[..|entries| - 1];
    }
  }

  ghost predicate AllInWarp(s: seq<Entry>, warpSize: nat) {
    forall i :: 0 <= i < |s| ==> InWarp(s[i].mask, warpSize)
  }

  lemma {:induction false} SpreadInWarp(base: seq<Entry>, live: set<nat>, next: seq<nat>, topRecvg: nat, recvg: nat)
    requires InWarp(live, |next|) && AllInWarp(base, |next|)
    ensures AllInWarp(Spread(base, live, next, topRecvg, recvg), |next|)
    decreases |live|
  {
    if live != {} {
      var g := Group(live, next);
      var p := next[Leader(live)];
      Smaller(live, g);
      var grown := if p == topRecvg || p == recvg then base else base + [Entry(p, g, recvg)];
      SpreadInWarp(grown, live - g, next, topRecvg, recvg);
    }
  }

  lemma {:induction false} SettleInWarp(below: seq<Entry>, top: Entry, live: set<nat>, next: seq<nat>, recvg: nat)
    requires InWarp(live, |next|) && AllInWarp(below, |next|) && InWarp(top.mask, |next|)
    ensures AllInWarp(Settle(below, top, live, next, recvg), |next|)
    decreases |live|
  {
    if live != {} {
      var g := Group(live, next);
      Smaller(live, g);
      if next[Leader(live)] == top.recvgPc {
        SettleInWarp(below, top, live - g, next, recvg);
      } else if live != g {
        SpreadInWarp(Reconverging(below, top, recvg), live, next, top.recvgPc, recvg);
      }
    }
  }

  /** An update brings no thread from outside the warp. */
  lemma UpdatedInWarp(s: seq<Entry>, done: set<nat>, next: seq<nat>, recvg: nat)
    requires s != [] && AllInWarp(s, |next|)
    ensures InWarp(s[|s| - 1].mask, |next|) && AllInWarp(Updated(s, done, next, recvg), |next|)
    ensures var top := s[|s| - 1];
      Updated(s, done, next, recvg) == Remaining(false, s[..|s| - 1], top, top.mask - done, next, recvg)
  {
    var top := s[|s| - 1];
    SettleInWarp(s[..|s| - 1], top, top.mask - done, next, recvg);
  }

  /** What is still to be done to the stack, before and after divergence was noticed. */
  ghost function Remaining(diverged: bool, base: seq<Entry>, top: Entry, live: set<nat>, next: seq<nat>,
                           recvg: nat): seq<Entry>
    requires InWarp(live, |next|)
  {
    if diverged then Spread(base, live, next, top.recvgPc, recvg) else Settle(base, top, live, next, recvg)
  }

  lemma NoneRemains(diverged: bool, base: seq<Entry>, top: Entry, live: set<nat>, next: seq<nat>, recvg: nat)
    requires live == {}
    ensures Remaining(diverged, base, top, live, next, recvg) == base
  {
  }

  lemma DropGroup(diverged: bool, base: seq<Entry>, top: Entry, live: set<nat>, next: seq<nat>, recvg: nat)
    requires live != {} && InWarp(live, |next|)
    requires next[Leader(live)] == top.recvgPc || (diverged && next[Leader(live)] == recvg)
    ensures Remaining(diverged, base, top, live, next, recvg)
      == Remaining(diverged, base, top, live - Group(live, next), next, recvg)
  {
  }

  lemma PushGroup(diverged: bool, base: seq<Entry>, top: Entry, live: set<nat>, next: seq<nat>, recvg: nat)
    requires live != {} && InWarp(live, |next|)
    requires next[Leader(live)] != top.recvgPc && !(diverged && next[Leader(live)] == recvg)
    requires diverged || live == Group(live, next)
    ensures Remaining(diverged, base, top, live, next, recvg)
      == Remaining(diverged,
                   base + [Entry(next[Leader(live)], Group(live, next), if diverged then recvg else top.recvgPc)],
                   top, live - Group(live, next), next, recvg)
  {
  }

  lemma StartSpread(base: seq<Entry>, top: Entry, live: set<nat>, next: seq<nat>, recvg: nat)
    requires live != {} && InWarp(live, |next|)
    requires next[Leader(live)] != top.recvgPc && live != Group(live, next)
    ensures Remaining(false, base, top, live, next, recvg)
      == Remaining(true, Reconverging(base, top, recvg), top, live, next, recvg)
  {
  }
}
