/** The delay queue: a FIFO that is kept at a minimum length with empty slots, so that an element takes
at least that many pops to come out. The minimum length may change while elements are in flight. Every element
carries a stamp, the earliest time at which it may leave, to say so. */
module DelayQueue {

  datatype Slot<T> = Empty | Item(item: T)

  /** The elements in flight, oldest first. */
  function Items<T>(q: seq<Slot<T>>): (s: seq<T>)
    ensures |s| <= |q|
  {
    if q == [] then [] else if q[0].Empty? then Items(q[1..]) else [q[0].item] + Items(q[1..])
  }

  lemma {:induction false} ItemsConcat<T>(q: seq<Slot<T>>, r: seq<Slot<T>>)
    ensures Items(q + r) == Items(q) + Items(r)
    decreases |q|
  {
    if q == [] {
      assert q + r == r;
    } else {
      assert (q + r)[1..] == q[1..] + r;
      ItemsConcat(q[1..], r);
    }
  }

  lemma {:induction false} ItemsLast<T>(q: seq<Slot<T>>)
    requires q != []
    ensures Items(q) == Items(q[..|q| - 1]) + (if q[|q| - 1].Empty? then [] else [q[|q| - 1].item])
  {
    assert q == q[..|q| - 1] + [q[|q| - 1]];
    ItemsConcat(q[..|q| - 1], [q[|q| - 1]]);
  }

  /** The stamps of the elements in flight, oldest first. */
  function Dues<T>(q: seq<Slot<T>>, stamps: seq<nat>): seq<nat>
    requires |stamps| == |q|
  {
    if q == [] then []
    else
      var n := |q| - 1;
      Dues(q[..n], stamps[..n]) + if q[n].Empty? then [] else [stamps[n]]
  }

  /** There is one for every element. */
  lemma {:induction false} DuesAligned<T>(q: seq<Slot<T>>, s: seq<nat>)
    requires |s| == |q|
    ensures |Dues(q, s)| == |Items(q)|
    decreases |q|
  {
    if q != [] {
      ItemsLast(q);
      DuesAligned(q[..|q| - 1], s[..|q| - 1]);
    }
  }

  lemma DuesLast<T>(q: seq<Slot<T>>, s: seq<nat>, x: Slot<T>, stamp: nat)
    requires |s| == |q|
    ensures Dues(q + [x], s + [stamp]) == Dues(q, s) + if x.Empty? then [] else [stamp]
  {
    assert (q + [x])[..|q|] == q && (s + [stamp])[..|q|] == s;
  }

  lemma {:induction false} DuesFirst<T>(q: seq<Slot<T>>, s: seq<nat>)
    requires q != [] && |s| == |q|
    ensures Dues(q, s) == (if q[0].Empty? then [] else [s[0]]) + Dues(q[1..], s[1..])
    decreases |q|
  {
    var n := |q| - 1;
    if n == 0 {
      assert q[..0] == [] && q[1..] == [];
    } else {
      DuesFirst(q[..n], s[..n]);
      assert q[..n][1..] == q[1..][..n - 1] && s[..n][1..] == s[1..][..n - 1];
    }
  }

  /** With one pop per unit of time, the next one at time `now`, no element comes out before its stamp. */
  ghost predicate OnTime<T>(q: seq<Slot<T>>, stamps: seq<nat>, now: nat) {
    |stamps| == |q| && forall i: nat :: i < |q| && q[i].Item? ==> stamps[i] <= now + i
  }

  /** A further slot. */
  lemma SlotAppended<T>(q: seq<Slot<T>>, s: seq<nat>, x: Slot<T>, stamp: nat)
    requires |s| == |q|
    ensures Items(q + [x]) == Items(q) + (if x.Empty? then [] else [x.item])
    ensures Dues(q + [x], s + [stamp]) == Dues(q, s) + (if x.Empty? then [] else [stamp])
    ensures forall now: nat :: OnTime(q, s, now) && (x.Item? ==> stamp <= now + |q|) ==>
              OnTime(q + [x], s + [stamp], now)
  {
    ItemsConcat(q, [x]);
    DuesLast(q, s, x, stamp);
  }

  /** The last slot was empty and is used. */
  lemma SlotUsed<T>(q: seq<Slot<T>>, s: seq<nat>, x: Slot<T>, stamp: nat)
    requires |s| == |q| > 0 && q[|q| - 1].Empty?
    ensures var n := |q| - 1;
      && Items(q[n := x]) == Items(q) + (if x.Empty? then [] else [x.item])
      && Dues(q[n := x], s[n := stamp]) == Dues(q, s) + (if x.Empty? then [] else [stamp])
      && forall now: nat :: OnTime(q, s, now) && (x.Item? ==> stamp <= now + n) ==>
          OnTime(q[n := x], s[n := stamp], now)
  {
    hide Items, Dues, OnTime;
    var n := |q| - 1;
    SlotUnused(q, s);
    assert q[n := x] == q[..n] + [x] && s[n := stamp] == s[..n] + [stamp];
    SlotAppended(q[..n], s[..n], x, stamp);
  }

  /** An empty slot at the back carries nothing. */
  lemma SlotUnused<T>(q: seq<Slot<T>>, s: seq<nat>)
    requires |s| == |q| > 0 && q[|q| - 1].Empty?
    ensures var n := |q| - 1;
      && Items(q) == Items(q[..n]) && Dues(q, s) == Dues(q[..n], s[..n])
      && forall now: nat :: OnTime(q, s, now) ==> OnTime(q[..n], s[..n], now)
  {
    hide Items, OnTime;
    ItemsLast(q);
    assert Items(q[..|q| - 1]) + [] == Items(q[..|q| - 1]);
    OnTimeUpTo(q, s, |q| - 1);
  }

  lemma OnTimeUpTo<T>(q: seq<Slot<T>>, s: seq<nat>, n: nat)
    requires |s| == |q| && n <= |q|
    ensures forall now: nat :: OnTime(q, s, now) ==> OnTime(q[..n], s[..n], now)
  {
  }

  /** The first slot leaves. */
  lemma SlotGone<T>(q: seq<Slot<T>>, s: seq<nat>)
    requires q != [] && |s| == |q|
    ensures Items(q) == (if q[0].Empty? then [] else [q[0].item]) + Items(q[1..])
    ensures Dues(q, s) == (if q[0].Empty? then [] else [s[0]]) + Dues(q[1..], s[1..])
    ensures forall now: nat :: OnTime(q, s, now) ==>
              OnTime(q[1..], s[1..], now + 1) && (q[0].Item? ==> s[0] <= now)
  {
    DuesFirst(q, s);
  }

  lemma SlotNone<T>(q: seq<Slot<T>>, s: seq<nat>)
    requires q == [] && |s| == |q|
    ensures Items(q) == [] && Dues(q, s) == [] && forall now: nat :: OnTime(q, s, now)
  {
  }

  class Pipeline<T> {
    const maxLen: nat
    var minLen: nat
    var slots: seq<Slot<T>>
    ghost var stamps: seq<nat>

    ghost predicate Valid()
      reads this
    {
      minLen <= |slots| <= maxLen && |stamps| == |slots|
    }

    constructor (low: nat, high: nat)
      requires 0 < high && low <= high
      ensures Valid() && minLen == low && maxLen == high && slots == seq(low, _ => Empty)
    {
      hide Items, Dues, OnTime;
      maxLen := high;
      minLen := low;
      slots, stamps := [], [];
      new;
      while |slots| < low
        invariant minLen == low && maxLen == high && |stamps| == |slots| <= low
        invariant forall i :: 0 <= i < |slots| ==> slots[i] == Empty
      {
        Append(Empty, 0);
      }
    }

    predicate Full()
      reads this
    {
      maxLen > 0 && |slots| >= maxLen
    }

    /** Puts `x` behind the last element, in the last slot if that is empty and not needed as a delay: at least as many
        pops away as the minimum length asks for. */
    method Append(x: Slot<T>, ghost stamp: nat)
      requires |slots| < maxLen && |stamps| == |slots|
      modifies this`slots, this`stamps
      ensures |slots| <= maxLen && |slots| >= |old(slots)| && |stamps| == |slots|
      ensures Items(slots) == Items(old(slots)) + (if x.Empty? then [] else [x.item])
      ensures slots == if old(slots) != [] && old(slots)[|old(slots)| - 1].Empty? && minLen <= |old(slots)|
                       then old(slots)[|old(slots)| - 1 := x] else old(slots) + [x]
      ensures slots != [] && slots[|slots| - 1] == x && stamps[|slots| - 1] == stamp
      ensures Dues(slots, stamps) == Dues(old(slots), old(stamps)) + (if x.Empty? then [] else [stamp])
      ensures old(|slots| >= minLen) ==> |slots| >= minLen
      ensures forall now: nat :: OnTime(old(slots), old(stamps), now) && (x.Item? ==> stamp <= now + |slots| - 1) ==>
                OnTime(slots, stamps, now)
    {
      hide Items, Dues, OnTime;
      if slots != [] {
        if slots[|slots| - 1].Item? || |slots| < minLen {
          SlotAppended(slots, stamps, x, stamp);
          slots, stamps := slots + [x], stamps + [stamp];
        } else {
          SlotUsed(slots, stamps, x, stamp);
          slots, stamps := slots[|slots| - 1 := x], stamps[|slots| - 1 := stamp];
        }
      } else {
        SlotAppended(slots, stamps, x, stamp);
        assert slots + [x] == [x] && stamps + [stamp] == [stamp];
        slots, stamps := [x], [stamp];
      }
    }

    /** Takes the oldest slot out and restores the minimum length. */
    method Pop() returns (x: Slot<T>)
      requires Valid()
      modifies this`slots, this`stamps
      ensures Valid() && |slots| <= |old(slots)|
      ensures Items(old(slots)) == (if x.Empty? then [] else [x.item]) + Items(slots)
      ensures if old(slots) == [] then x == Empty && slots == []
              else x == old(slots)[0]
                   && slots == old(slots)[1..] + if |old(slots)| == minLen then [Empty] else []
      ensures Dues(old(slots), old(stamps)) == (if x.Empty? then [] else [old(stamps)[0]]) + Dues(slots, stamps)
      // nothing comes out before its stamp
      ensures forall now: nat :: OnTime(old(slots), old(stamps), now) ==>
                OnTime(slots, stamps, now + 1) && (x.Item? ==> old(stamps)[0] <= now)
    {
      hide Items, Dues, OnTime;
      if slots == [] {
        SlotNone(slots, stamps);
        return Empty;
      }
      x := slots[0];
      SlotGone(slots, stamps);
      slots, stamps := slots[1..], stamps[1..];
      if minLen > 0 && |slots| < minLen {
        Append(Empty, 0);
      }
    }

    /** Changes the minimum length: pads with empty slots, or drops empty slots at the back. */
    method SetMinLength(n: nat)
      requires Valid() && n <= maxLen
      modifies this
      ensures Valid() && minLen == n
      ensures Items(slots) == Items(old(slots)) && Dues(slots, stamps) == Dues(old(slots), old(stamps))
      ensures n >= old(minLen) ==> old(slots) <= slots && |slots| == if |old(slots)| < n then n else |old(slots)|
      ensures n < old(minLen) ==> slots <= old(slots) && (|slots| == n || slots[|slots| - 1].Item?)
      ensures forall i: nat :: |slots| <= i < |old(slots)| ==> old(slots)[i].Empty?
      ensures forall i: nat :: |old(slots)| <= i < |slots| ==> slots[i].Empty?
      ensures forall now: nat :: OnTime(old(slots), old(stamps), now) ==> OnTime(slots, stamps, now)
    {
      hide Items, Dues, OnTime;
      if n == minLen {
        return;
      }
      if n > minLen {
        minLen := n;
        while |slots| < minLen
          invariant |slots| <= maxLen && minLen == n && Items(slots) == Items(old(slots))
          invariant old(slots) <= slots && |slots| <= if |old(slots)| < n then n else |old(slots)|
          invariant forall i: nat :: |old(slots)| <= i < |slots| ==> slots[i].Empty?
          invariant |stamps| == |slots| && Dues(slots, stamps) == Dues(old(slots), old(stamps))
          invariant forall now: nat :: OnTime(old(slots), old(stamps), now) ==> OnTime(slots, stamps, now)
          decreases minLen - |slots|
        {
          Append(Empty, 0);
        }
      } else {
        minLen := n;
        while |slots| > minLen && slots[|slots| - 1].Empty?
          invariant minLen <= |slots| && slots <= old(slots) && minLen == n && Items(slots) == Items(old(slots))
          invariant forall i: nat :: |slots| <= i < |old(slots)| ==> old(slots)[i].Empty?
          invariant |stamps| == |slots| && Dues(slots, stamps) == Dues(old(slots), old(stamps))
          invariant forall now: nat :: OnTime(old(slots), old(stamps), now) ==> OnTime(slots, stamps, now)
          decreases |slots|
        {
          SlotUnused(slots, stamps);
          slots, stamps := slots[..|slots| - 1], stamps[..|slots| - 1];
        }
      }
    }
  }
}
