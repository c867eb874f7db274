/** The miss-status table: which blocks are being read, which requests wait for them, and which blocks have
arrived and are being handed out. */
module Mshr {
  import opened Collections

  /** A memory request, known by its number. */
  datatype Fetch = Fetch(uid: nat, addr: nat, write: bool, atomic: bool, globalWrite: bool)

  datatype Entry = Entry(waiting: seq<Fetch>, hasAtomic: bool)

  function Get(m: map<nat, seq<Fetch>>, b: nat): seq<Fetch> {
    if b in m then m[b] else []
  }

  function Waiting(table: map<nat, Entry>, b: nat): seq<Fetch> {
    if b in table then table[b].waiting else []
  }

  /** What the entry of block `b` has promised: requests come back once each, in the order of acceptance. */
  ghost predicate Owed(table: map<nat, Entry>, accepted: map<nat, seq<Fetch>>, returned: map<nat, seq<Fetch>>, b: nat) {
    Get(accepted, b) == Get(returned, b) + Waiting(table, b)
  }

  ghost predicate AllOwed(table: map<nat, Entry>, accepted: map<nat, seq<Fetch>>, returned: map<nat, seq<Fetch>>) {
    forall b: nat :: Owed(table, accepted, returned, b)
  }

  function Added(table: map<nat, Entry>, b: nat, mf: Fetch): map<nat, Entry> {
    table[b := Entry(Waiting(table, b) + [mf], mf.atomic || (b in table && table[b].hasAtomic))]
  }

  /** The table after the oldest request of block `b` has been handed back. */
  function Advanced(table: map<nat, Entry>, b: nat): map<nat, Entry>
    requires b in table && table[b].waiting != []
  {
    if |table[b].waiting| == 1 then table - {b} else table[b := table[b].(waiting := table[b].waiting[1..])]
  }

  lemma AddOwed(table: map<nat, Entry>, accepted: map<nat, seq<Fetch>>, returned: map<nat, seq<Fetch>>, b: nat,
                mf: Fetch)
    requires AllOwed(table, accepted, returned)
    ensures AllOwed(Added(table, b, mf), accepted[b := Get(accepted, b) + [mf]], returned)
  {
    var table', accepted' := Added(table, b, mf), accepted[b := Get(accepted, b) + [mf]];
    forall c: nat ensures Owed(table', accepted', returned, c) {
      assert Owed(table, accepted, returned, c);
      if c == b {
        Regroup(Get(returned, b), Waiting(table, b), mf);
      } else {
        assert Waiting(table', c) == Waiting(table, c) && Get(accepted', c) == Get(accepted, c);
      }
    }
  }

  lemma AdvanceOwed(table: map<nat, Entry>, accepted: map<nat, seq<Fetch>>, returned: map<nat, seq<Fetch>>, b: nat)
    requires AllOwed(table, accepted, returned) && b in table && table[b].waiting != []
    ensures AllOwed(Advanced(table, b), accepted, returned[b := Get(returned, b) + [table[b].waiting[0]]])
  {
    var mf := table[b].waiting[0];
    var table', returned' := Advanced(table, b), returned[b := Get(returned, b) + [mf]];
    forall c: nat ensures Owed(table', accepted, returned', c) {
      assert Owed(table, accepted, returned, c);
      if c != b {
        assert Waiting(table', c) == Waiting(table, c) && Get(returned', c) == Get(returned, c);
      } else {
        assert Waiting(table', b) == table[b].waiting[1..];
        Shift(Get(returned, b), table[b].waiting);
      }
    }
  }

  lemma Regroup(a: seq<Fetch>, s: seq<Fetch>, mf: Fetch)
    ensures a + s + [mf] == a + (s + [mf])
  {
  }

  lemma Shift(a: seq<Fetch>, s: seq<Fetch>)
    requires s != []
    ensures a + s == a + [s[0]] + s[1..]
  {
  }

  class Table {
    const numEntries: nat
    const maxMerged: nat
    var table: map<nat, Entry>
    var response: seq<nat>
    /** Per block, the requests accepted and those handed back, oldest first. */
    ghost var accepted: map<nat, seq<Fetch>>
    ghost var returned: map<nat, seq<Fetch>>

    ghost predicate Valid()
      reads this
    {
      && |table| <= numEntries
      && (forall b: nat :: b in table ==> 0 < |table[b].waiting| <= maxMerged)
      && NoDup(response) && (forall i: nat :: i < |response| ==> response[i] in table)
      && AllOwed(table, accepted, returned)
    }

    constructor (entries: nat, merged: nat)
      ensures Valid() && numEntries == entries && maxMerged == merged && table == map[] && response == []
      ensures accepted == map[] && returned == map[]
    {
      numEntries, maxMerged := entries, merged;
      table, response := map[], [];
      accepted, returned := map[], map[];
    }

    /** Is the block being read, or being handed out? */
    predicate Probe(b: nat)
      reads this
    {
      b in table
    }

    /** Is there no room for another request to the block? */
    predicate Full(b: nat)
      reads this
    {
      if b in table then |table[b].waiting| >= maxMerged else |table| >= numEntries
    }

    /** Adds a request to the entry of the block, new or not. */
    method Add(b: nat, mf: Fetch)
      requires Valid() && !Full(b) && maxMerged > 0
      modifies this`table, this`accepted
      ensures Valid() && table == Added(old(table), b, mf)
      ensures accepted == old(accepted)[b := Get(old(accepted), b) + [mf]]
    {
      hide AllOwed;
      ghost var before := table;
      AddOwed(table, accepted, returned, b, mf);
      var entry := if b in table then table[b] else Entry([], false);
      entry := entry.(waiting := entry.waiting + [mf]);
      if mf.atomic {
        entry := entry.(hasAtomic := true);
      }
      table := table[b := entry];
      AddGrows(before, b, entry);
      accepted := accepted[b := Get(accepted, b) + [mf]];
    }

    /** The data of a block has arrived. */
    method MarkReady(b: nat) returns (hasAtomic: bool)
      requires Valid() && b in table && b !in response
      modifies this`response
      ensures Valid() && response == old(response) + [b] && hasAtomic == table[b].hasAtomic
      ensures |response| <= |table|
    {
      hide AllOwed;
      response := response + [b];
      hasAtomic := table[b].hasAtomic;
      ResponseFits(response, table.Keys);
    }

    /** Hands back the oldest request of the block that arrived first; the entry goes with its last request. */
    method NextAccess() returns (mf: Fetch)
      requires Valid() && response != []
      modifies this`table, this`response, this`returned
      ensures Valid() && old(response)[0] in old(table)
      ensures mf == old(table)[old(response)[0]].waiting[0] && table == Advanced(old(table), old(response)[0])
      ensures returned == old(returned)[old(response)[0] := Get(old(returned), old(response)[0]) + [mf]]
      ensures response == if old(response)[0] in table then old(response) else old(response)[1..]
    {
      hide AllOwed;
      var b := response[0];
      assert b in table;
      AdvanceOwed(table, accepted, returned, b);
      mf := table[b].waiting[0];
      ghost var before := table;
      var rest := table[b].waiting[1..];
      if rest == [] {
        table := table - {b};
        response := response[1..];
        RemoveShrinks(before, b);
      } else {
        table := table[b := table[b].(waiting := rest)];
        AddGrows(before, b, table[b]);
      }
      returned := returned[b := Get(returned, b) + [mf]];
    }
  }

  lemma AddGrows(t: map<nat, Entry>, b: nat, e: Entry)
    ensures |t[b := e]| == if b in t then |t| else |t| + 1
  {
    assert t[b := e].Keys == t.Keys + {b};
  }

  lemma RemoveShrinks(t: map<nat, Entry>, b: nat)
    requires b in t
    ensures |t - {b}| == |t| - 1
  {
    assert (t - {b}).Keys == t.Keys - {b};
  }

  /** A list without repetitions is no longer than a set that contains it. */
  lemma {:induction false} ResponseFits(s: seq<nat>, keys: set<nat>)
    requires NoDup(s) && forall i: nat :: i < |s| ==> s[i] in keys
    ensures |s| <= |keys|
    decreases |s|
  {
    if s != [] {
      assert forall i: nat :: i < |s[1..]| ==> s[1..][i] in keys - {s[0]};
      ResponseFits(s[1..], keys - {s[0]});
      assert keys == (keys - {s[0]}) + {s[0]};
    }
  }
}
