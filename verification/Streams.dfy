/** Streams of device operations and the manager that starts them, one locked section at a time. */
module Streams {

  datatype Operation = Kernel(uid: nat) | Copy(id: nat) | Event(id: nat)

  datatype Option<T> = None | Some(value: T)

  /** The operations of a stream, and whether the front one has started. */
  datatype View = View(operations: seq<Operation>, pending: bool)

  /** The front operation is kernel `uid` and has started. */
  predicate Running(v: View, uid: nat) {
    v.pending && v.operations != [] && v.operations[0] == Kernel(uid)
  }

  /** A stream starts its front operation and drops it when it is done. */
  class Stream {
    var operations: seq<Operation>
    var pending: bool
    ghost var pushed: seq<Operation>
    ghost var completed: seq<Operation>

    /** Operations complete in the order they were pushed, and only the front one can have started. */
    ghost predicate Valid()
      reads this
    {
      pushed == completed + operations && (pending ==> operations != [])
    }

    constructor ()
      ensures Valid() && operations == [] && !pending && completed == [] && pushed == []
    {
      operations, pending := [], false;
      pushed, completed := [], [];
    }

    predicate Empty()
      reads this
    {
      operations == []
    }

    predicate Ready()
      reads this
    {
      !pending && operations != []
    }

    /** The stream has started kernel `uid`. */
    predicate Runs(uid: nat)
      reads this
    {
      Running(View(operations, pending), uid)
    }

    method Push(op: Operation)
      requires Valid()
      modifies this
      ensures Valid() && operations == old(operations) + [op] && pending == old(pending)
      ensures pushed == old(pushed) + [op] && completed == old(completed)
    {
      operations := operations + [op];
      pushed := pushed + [op];
    }

    method Next() returns (op: Operation)
      requires Valid() && operations != []
      modifies this`pending
      ensures Valid() && op == operations[0] && pending
    {
      pending := true;
      op := operations[0];
    }

    method RecordNextDone()
      requires Valid() && pending
      modifies this
      ensures Valid() && !pending && operations == old(operations)[1..]
      ensures completed == old(completed) + [old(operations)[0]] && pushed == old(pushed)
    {
      completed := completed + [operations[0]];
      operations := operations[1..];
      pending := false;
    }
  }

  // ----- The protocol, on what the streams hold

  /** Stream zero and the other streams never have operations started at the same time. */
  ghost predicate Exclusive(vs: map<Stream, View>, zero: Stream, serviceZero: bool) {
    && zero in vs && (!serviceZero ==> !vs[zero].pending)
    && (serviceZero ==> forall s: Stream :: s in vs && s != zero ==> !vs[s].pending)
  }

  /** The grid map has exactly the kernels that are started, each with its stream. */
  ghost predicate Mapped(vs: map<Stream, View>, grid: map<nat, Stream>) {
    && (forall uid: nat :: uid in grid ==> grid[uid] in vs && Running(vs[grid[uid]], uid))
    && (forall s: Stream, uid: nat :: s in vs && Running(vs[s], uid) ==> uid in grid && grid[uid] == s)
  }

  ghost predicate Holds(vs: map<Stream, View>, s: Stream, i: nat, uid: nat) {
    s in vs && i < |vs[s].operations| && vs[s].operations[i] == Kernel(uid)
  }

  /** No kernel is in two places. */
  ghost predicate UniqueKernels(vs: map<Stream, View>) {
    forall s: Stream, t: Stream, i: nat, j: nat, uid: nat ::
      s in vs && t in vs && Holds(vs, s, i, uid) && Holds(vs, t, j, uid) ==> s == t && i == j
  }

  ghost predicate Protocol(vs: map<Stream, View>, zero: Stream, serviceZero: bool, grid: map<nat, Stream>) {
    Exclusive(vs, zero, serviceZero) && Mapped(vs, grid) && UniqueKernels(vs)
  }

  /** Only kernels are in progress. */
  ghost predicate KernelsOnly(vs: map<Stream, View>) {
    forall s: Stream :: s in vs ==> vs[s].pending ==> KernelInFront(vs[s])
  }

  predicate KernelInFront(v: View) {
    v.operations != [] && v.operations[0].Kernel?
  }

  lemma KernelsOnlyUpdate(vs: map<Stream, View>, s: Stream, v: View, w: View)
    requires KernelsOnly(vs) && (v.pending ==> KernelInFront(v))
    ensures KernelsOnly(vs[s := v]) && vs[s := w][s := v] == vs[s := v]
  {
  }

  function Started(v: View): View {
    v.(pending := true)
  }

  function Finished(v: View): View {
    View(if v.operations == [] then [] else v.operations[1..], false)
  }

  /** What a step completes of a stream with operations `ops`: a started operation that is not a kernel. */
  function Performed(started: Option<Stream>, s: Stream, ops: seq<Operation>): seq<Operation> {
    if started == Some(s) && ops != [] && !ops[0].Kernel? then [ops[0]] else []
  }

  function WithKernel(grid: map<nat, Stream>, s: Stream, op: Operation): map<nat, Stream> {
    if op.Kernel? then grid[op.uid := s] else grid
  }

  function WithoutKernel(grid: map<nat, Stream>, op: Operation): map<nat, Stream> {
    if op.Kernel? then grid - {op.uid} else grid
  }

  /** Starting an operation of the stream whose turn it is keeps the protocol. */
  lemma StartKeepsProtocol(vs: map<Stream, View>, zero: Stream, serviceZero: bool, grid: map<nat, Stream>, s: Stream)
    requires Protocol(vs, zero, serviceZero, grid) && s in vs && vs[s].operations != [] && !vs[s].pending
    requires serviceZero <==> s == zero
    ensures Protocol(vs[s := Started(vs[s])], zero, serviceZero, WithKernel(grid, s, vs[s].operations[0]))
  {
    var ws, op := vs[s := Started(vs[s])], vs[s].operations[0];
    var after := WithKernel(grid, s, op);
    forall t: Stream, i: nat, uid: nat ensures Holds(ws, t, i, uid) == Holds(vs, t, i, uid) {
    }
    StartKeepsMap(vs, grid, s);
  }

  lemma StartKeepsMap(vs: map<Stream, View>, grid: map<nat, Stream>, s: Stream)
    requires Mapped(vs, grid) && UniqueKernels(vs) && s in vs && vs[s].operations != [] && !vs[s].pending
    ensures Mapped(vs[s := Started(vs[s])], WithKernel(grid, s, vs[s].operations[0]))
  {
    var ws, op := vs[s := Started(vs[s])], vs[s].operations[0];
    var after := WithKernel(grid, s, op);
    forall t: Stream, uid: nat | t in ws && Running(ws[t], uid) ensures uid in after && after[uid] == t {
      if t != s && op == Kernel(uid) {
        assert Holds(vs, t, 0, uid) && Holds(vs, s, 0, uid);
      }
    }
    forall uid: nat | uid in after ensures after[uid] in ws && Running(ws[after[uid]], uid) {
    }
  }

  /** Finishing a started operation keeps the protocol. */
  lemma FinishKeepsProtocol(vs: map<Stream, View>, zero: Stream, serviceZero: bool, grid: map<nat, Stream>, s: Stream)
    requires Protocol(vs, zero, serviceZero, grid) && s in vs && vs[s].operations != [] && vs[s].pending
    ensures Protocol(vs[s := Finished(vs[s])], zero, serviceZero, WithoutKernel(grid, vs[s].operations[0]))
  {
    var ws, op := vs[s := Finished(vs[s])], vs[s].operations[0];
    var after := WithoutKernel(grid, op);
    forall t: Stream, i: nat, uid: nat | Holds(ws, t, i, uid) ensures Holds(vs, t, if t == s then i + 1 else i, uid) {
    }
    assert UniqueKernels(ws);
    forall t: Stream, uid: nat | t in ws && Running(ws[t], uid) ensures uid in after && after[uid] == t {
      assert t != s && Running(vs[t], uid);
      assert op == Kernel(uid) ==> Running(vs[s], uid);
    }
    forall uid: nat | uid in after ensures after[uid] in ws && Running(ws[after[uid]], uid) {
      assert grid[uid] == s ==> op == Kernel(uid);
    }
  }

  /** Kernel `op` is in no stream. */
  ghost predicate NewKernel(vs: map<Stream, View>, op: Operation) {
    op.Kernel? ==> forall s: Stream, i: nat :: s in vs ==> !Holds(vs, s, i, op.uid)
  }

  /** Pushing an operation keeps the protocol. */
  lemma PushKeepsProtocol(vs: map<Stream, View>, zero: Stream, serviceZero: bool, grid: map<nat, Stream>, s: Stream,
                          op: Operation)
    requires Protocol(vs, zero, serviceZero, grid) && s in vs && NewKernel(vs, op)
    requires forall t: Stream :: t in vs && vs[t].pending ==> vs[t].operations != []
    ensures Protocol(vs[s := View(vs[s].operations + [op], vs[s].pending)], zero, serviceZero, grid)
  {
    var ws := vs[s := View(vs[s].operations + [op], vs[s].pending)];
    forall t: Stream, i: nat, uid: nat | Holds(ws, t, i, uid)
      ensures Holds(vs, t, i, uid) || (t == s && i == |vs[s].operations| && op == Kernel(uid))
    {
    }
    forall t: Stream, uid: nat | t in vs ensures Running(ws[t], uid) == Running(vs[t], uid) {
    }
  }

  class Manager {
    const zero: Stream
    const launchBlocking: bool
    var streams: seq<Stream>
    var serviceZero: bool
    var gridToStream: map<nat, Stream>

    ghost function All(): set<Stream>
      reads this
    {
      {zero} + set s | s in streams
    }

    ghost function Views(): map<Stream, View>
      reads this, All()
    {
      map s | s in All() :: View(s.operations, s.pending)
    }

    /** The streams are different objects, each in order, and together they keep the protocol. */
    ghost predicate Valid()
      reads this, All()
    {
      Separate() && Protocol(Views(), zero, serviceZero, gridToStream)
    }

    ghost predicate Separate()
      reads this, All()
    {
      && zero !in streams && (forall i: nat, j: nat :: i < j < |streams| ==> streams[i] != streams[j])
      && (forall s <- All() :: s.Valid())
    }

    /** Between two steps only kernels are in progress. */
    ghost predicate Quiet()
      reads this, All()
    {
      KernelsOnly(Views())
    }

    /** When only stream `s` changes, only its view changes. */
    twostate lemma OneChanged(s: Stream)
      requires old(Separate()) && s in All() && s.Valid() && streams == old(streams)
      requires forall t <- All() :: t != s ==> unchanged(t)
      ensures Separate() && Views() == old(Views())[s := View(s.operations, s.pending)]
    {
    }

    lemma ViewOf(s: Stream)
      requires s in All()
      ensures s in Views() && Views()[s] == View(s.operations, s.pending)
    {
    }

    constructor (blocking: bool)
      ensures Valid() && Quiet() && streams == [] && zero.Empty() && fresh(zero) && launchBlocking == blocking
    {
      zero := new Stream();
      launchBlocking := blocking;
      streams, serviceZero, gridToStream := [], false, map[];
      new;
      hide Protocol;
      assert Views() == map[zero := View([], false)];
      InitialProtocol(zero);
    }

    /** Whether no stream but zero has an operation. */
    method ConcurrentStreamsEmpty() returns (allEmpty: bool)
      requires Valid()
      ensures allEmpty <==> forall s <- streams :: s.Empty()
    {
      allEmpty := true;
      for i := 0 to |streams|
        invariant allEmpty <==> forall j: nat :: j < i ==> streams[j].Empty()
      {
        if !streams[i].Empty() {
          allEmpty := false;
        }
      }
    }

    /** The first stream that could start an operation. */
    method FirstReady() returns (k: nat)
      requires Valid()
      ensures k <= |streams| && (k < |streams| ==> streams[k].Ready())
      ensures forall j: nat :: j < k ==> !streams[j].Ready()
      ensures k < |streams| ==> FirstOf(streams[k], streams, NotReady())
    {
      hide FirstOf;
      k := 0;
      while k < |streams| && !streams[k].Ready()
        invariant k <= |streams| && forall j: nat :: j < k ==> !streams[j].Ready()
      {
        k := k + 1;
      }
      if k < |streams| {
        IsFirst(k, streams, NotReady());
      }
    }

    /** Starts the front operation of a stream and records a kernel's stream. */
    method Start(s: Stream) returns (op: Operation)
      requires Valid() && s in All() && s.Ready() && (serviceZero <==> s == zero)
      modifies this`gridToStream, s`pending
      ensures Valid() && s.pending && op == s.operations[0]
      ensures Views() == old(Views())[s := View(s.operations, true)]
      ensures gridToStream == WithKernel(old(gridToStream), s, op)
    {
      hide Protocol, Views;
      ViewOf(s);
      StartKeepsProtocol(Views(), zero, serviceZero, gridToStream, s);
      op := s.Next();
      if op.Kernel? {
        gridToStream := gridToStream[op.uid := s];
      }
      OneChanged(s);
    }

    /** Finishes the started operation of a stream. */
    method Finish(s: Stream)
      requires Valid() && s in All() && s.pending
      modifies this`gridToStream, s
      ensures Valid() && s.completed == old(s.completed) + [old(s.operations)[0]] && s.pushed == old(s.pushed)
      ensures Views() == old(Views())[s := View(old(s.operations)[1..], false)]
      ensures s.operations == old(s.operations)[1..] && !s.pending
      ensures gridToStream == WithoutKernel(old(gridToStream), old(s.operations)[0])
    {
      hide Protocol, Views;
      ViewOf(s);
      FinishKeepsProtocol(Views(), zero, serviceZero, gridToStream, s);
      gridToStream := WithoutKernel(gridToStream, s.operations[0]);
      s.RecordNextDone();
      OneChanged(s);
    }

    /** The turn passes to stream zero when no other stream has an operation. */
    ghost predicate ZeroTurn()
      reads this, All()
    {
      serviceZero || forall s <- streams :: s.Empty()
    }

    /** Starts the next operation, if one can start: of stream zero when it is its turn, else of the first other stream
        that is ready. */
    method Front() returns (r: Option<Stream>)
      requires Valid()
      modifies this`gridToStream, this`serviceZero, All()`pending
      ensures Valid() && serviceZero == (old(ZeroTurn()) && !zero.Empty())
      ensures forall s <- All() :: s.pending == (old(s.pending) || r == Some(s))
      ensures r == Some(zero) <==> old(ZeroTurn() && zero.operations != [] && !zero.pending)
      ensures r.Some? && r.value != zero <==> old(!ZeroTurn() && OtherReady())
      ensures r.Some? && r.value != zero ==> FirstOf(r.value, streams, old(NotReady()))
      ensures r.Some? ==>
                var s := r.value;
                && s in All() && old(s.Ready()) && s.pending && (s == zero <==> old(ZeroTurn()))
                && Views() == old(Views())[s := View(s.operations, true)]
                && gridToStream == WithKernel(old(gridToStream), s, s.operations[0])
      ensures r.None? ==>
                && Views() == old(Views()) && gridToStream == old(gridToStream)
                && NothingToStart()
    {
      hide Protocol, Views, FirstOf, NotReady;
      r := None;
      var allEmpty := ConcurrentStreamsEmpty();
      if allEmpty {
        TurnToZero();
        SetTurn(true);
      }
      assert serviceZero == old(ZeroTurn());
      if serviceZero {
        if !zero.Empty() {
          if !zero.pending {
            var op := Start(zero);
            r := Some(zero);
          }
        } else {
          TurnFromZero();
          SetTurn(false);
        }
      } else {
        var k := FirstReady();
        if k < |streams| {
          var op := Start(streams[k]);
          r := Some(streams[k]);
        }
      }
    }

    method SetTurn(turn: bool)
      requires Separate() && Protocol(Views(), zero, turn, gridToStream)
      modifies this`serviceZero
      ensures Valid() && serviceZero == turn && Views() == old(Views())
    {
      hide Protocol;
      serviceZero := turn;
      assert Views() == old(Views());
    }

    lemma TurnToZero()
      requires Valid() && forall s <- streams :: s.Empty()
      ensures Protocol(Views(), zero, true, gridToStream)
    {
      assert forall s <- All() :: s != zero ==> s in streams;
    }

    lemma TurnFromZero()
      requires Valid() && zero.Empty()
      ensures Protocol(Views(), zero, false, gridToStream)
    {
    }

    /** Performs a started operation: a kernel is launched if the device can take it and in any case stays started; any
        other operation is done at once. */
    method DoOperation(s: Stream, canStartKernel: bool) returns (launched: bool)
      requires Valid() && s in All() && s.pending
      modifies this`gridToStream, s
      ensures Valid() && launched == (canStartKernel && old(s.operations)[0].Kernel?)
      ensures old(s.operations)[0].Kernel? ==> unchanged(s) && Views() == old(Views())
      ensures !old(s.operations)[0].Kernel? ==>
                && Views() == old(Views())[s := View(old(s.operations)[1..], false)]
                && s.completed == old(s.completed) + [old(s.operations)[0]] && s.pushed == old(s.pushed)
                && s.operations == old(s.operations)[1..] && !s.pending
      ensures gridToStream == old(gridToStream)
    {
      launched := canStartKernel && s.operations[0].Kernel?;
      if !s.operations[0].Kernel? {
        Finish(s);
      }
    }

    /** The stream of a finished kernel has that kernel in front, and drops it. */
    method RegisterFinishedKernel(uid: nat) returns (registered: bool)
      requires Valid() && (uid > 0 ==> uid in gridToStream)
      modifies this`gridToStream, gridToStream.Values
      ensures Valid() && registered == (uid > 0)
      ensures uid == 0 ==>
          Views() == old(Views()) && gridToStream == old(gridToStream) && forall s <- All() :: unchanged(s)
      ensures uid > 0 ==>
                var s := old(gridToStream[uid]);
                && s in All() && old(s.Runs(uid)) && Views() == old(Views())[s := View(old(s.operations)[1..], false)]
                && s.completed == old(s.completed) + [Kernel(uid)] && s.pushed == old(s.pushed)
                && old(s.pending) && s.operations == old(s.operations)[1..] && !s.pending
                && gridToStream == old(gridToStream) - {uid} && forall t <- All() :: t != s ==> unchanged(t)
    {
      registered := uid > 0;
      if uid > 0 {
        var s := gridToStream[uid];
        assert s.Runs(uid);
        Finish(s);
      }
    }

    /** The new state after a push. */
    method PushTo(s: Stream, op: Operation)
      requires Valid() && s in All() && NewKernel(Views(), op)
      modifies s
      ensures Valid() && Views() == old(Views())[s := View(old(s.operations) + [op], old(s.pending))]
      ensures s.pushed == old(s.pushed) + [op] && s.completed == old(s.completed)
    {
      hide Protocol, Views;
      ViewOf(s);
      PendingHasFront();
      PushKeepsProtocol(Views(), zero, serviceZero, gridToStream, s, op);
      s.Push(op);
      OneChanged(s);
    }

    lemma StaysQuiet(s: Stream, v: View)
      requires Quiet() && s in All() && v.pending == s.pending
      requires s.pending ==> s.operations != [] && v.operations != [] && v.operations[0] == s.operations[0]
      ensures KernelsOnly(Views()[s := v])
    {
      ViewOf(s);
      KernelsOnlyUpdate(Views(), s, v, v);
    }

    lemma PendingHasFront()
      requires Separate()
      ensures forall t: Stream :: t in Views() && Views()[t].pending ==> Views()[t].operations != []
    {
    }

    /** Queues an operation: on stream zero when it names no stream or launches are blocking. */
    method Push(stream: Option<Stream>, op: Operation)
      requires Valid() && Quiet() && NewKernel(Views(), op) && (stream.Some? ==> stream.value in streams)
      modifies if stream.Some? && !launchBlocking then stream.value else zero
      ensures Valid() && Quiet()
      ensures var s := if stream.Some? && !launchBlocking then stream.value else zero;
              && s.pushed == old(s.pushed) + [op] && s.completed == old(s.completed)
              && Views() == old(Views())[s := View(old(s.operations) + [op], old(s.pending))]
    {
      hide Protocol, Views, NewKernel, KernelsOnly;
      var s := if stream.Some? && !launchBlocking then stream.value else zero;
      ViewOf(s);
      PendingHasFront();
      ghost var v := View(s.operations + [op], s.pending);
      StaysQuiet(s, v);
      PushTo(s, op);
    }

    /** Stream zero is served while it is being served, and when no other stream has an operation. */
    lemma TurnMeans()
      ensures ZeroTurn() <==> serviceZero || forall s <- streams :: s.operations == []
      ensures OtherReady() <==> exists k: nat :: k < |streams| && streams[k].operations != [] && !streams[k].pending
    {
    }

    ghost predicate OtherReady()
      reads this`streams, set s | s in streams
    {
      exists s <- streams :: s.operations != [] && !s.pending
    }

    ghost function NotReady(): set<Stream>
      reads this`streams, set s | s in streams
    {
      set s | s in streams && !s.Ready()
    }

    /** When nothing was started: stream zero is busy with its turn, or the stream whose turn it was has nothing. */
    ghost predicate NothingToStart()
      reads this, All()
    {
      if serviceZero then zero.pending else zero.Empty() || forall s <- streams :: !s.Ready()
    }

    /** Starts and performs the next operation; one that is not a kernel is done before the step ends. */
    method DoNext(canStartKernel: bool) returns (started: Option<Stream>, launched: bool)
      requires Valid() && Quiet()
      modifies this`gridToStream, this`serviceZero, All()
      ensures Valid() && Quiet() && (started.None? ==> NothingToStart())
      ensures started.Some? ==> started.value in All() && old(started.value.Ready())
      ensures started.Some? ==> (started.value == zero <==> old(ZeroTurn()))
      ensures started.Some? && started.value != zero ==> FirstOf(started.value, streams, old(NotReady()))
      ensures started == Some(zero) <==> old(ZeroTurn() && zero.operations != [] && !zero.pending)
      ensures started.Some? && started.value != zero <==> old(!ZeroTurn() && OtherReady())
      ensures launched <==> canStartKernel && started.Some? && old(started.value.operations)[0].Kernel?
      ensures forall s <- All() :: s.pushed == old(s.pushed)
      ensures forall s <- All() :: s.completed == old(s.completed) + Performed(started, s, old(s.operations))
      ensures forall s <- All() ::
        if started != Some(s) then s.operations == old(s.operations) && s.pending == old(s.pending)
        else if old(s.operations)[0].Kernel? then s.operations == old(s.operations) && s.pending
        else s.operations == old(s.operations)[1..] && !s.pending
    {
      hide Protocol, Views, KernelsOnly, Valid, FirstOf, NotReady, ZeroTurn, OtherReady, NothingToStart;
      ghost var vs := Views();
      started := Front();
      launched := false;
      if started.Some? {
        launched := Perform(started.value, canStartKernel, vs);
      }
    }

    /** Performs the operation that has just been started. */
    method Perform(s: Stream, canStartKernel: bool, ghost vs: map<Stream, View>) returns (launched: bool)
      requires Valid() && s in All() && s.pending && KernelsOnly(vs) && Views() == vs[s := View(s.operations, true)]
      modifies this`gridToStream, s
      ensures Valid() && Quiet() && old(s.operations) != []
      ensures launched <==> canStartKernel && old(s.operations)[0].Kernel?
      ensures s.pushed == old(s.pushed)
      ensures if old(s.operations)[0].Kernel? then unchanged(s)
              else && s.operations == old(s.operations)[1..] && !s.pending
                   && s.completed == old(s.completed) + [old(s.operations)[0]]
    {
      hide Protocol, Views, KernelsOnly;
      ghost var ops := s.operations;
      if s.operations[0].Kernel? {
        KernelsOnlyUpdate(vs, s, View(ops, true), View(ops, true));
      } else {
        KernelsOnlyUpdate(vs, s, View(ops[1..], false), View(ops, true));
      }
      launched := DoOperation(s, canStartKernel);
    }

    /** One step of the device: a finished kernel is registered, and the next operation is started and performed. */
    method Operate(finished: nat, canStartKernel: bool) returns (started: Option<Stream>, launched: bool)
      requires Valid() && Quiet() && (finished > 0 ==> finished in gridToStream)
      modifies this`gridToStream, this`serviceZero, All()
      ensures Valid() && Quiet() && (started.None? ==> NothingToStart())
      ensures started.Some? ==> started.value in All()
      ensures finished > 0 ==> old(gridToStream[finished]) in All()
      // the finished kernel is completed, and at most one other operation is started, the front one of `started`
      ensures forall s <- All() :: s.pushed == old(s.pushed)
      ensures forall s <- All() ::
        Stepped(old(View(s.operations, s.pending)), old(s.completed), View(s.operations, s.pending), s.completed,
                finished > 0 && s == old(gridToStream)[finished], finished, started == Some(s))
      // a kernel that is started is launched if the device can take it
      ensures launched <==> canStartKernel && started.Some? && started.value.pending
    {
      hide Protocol, Views, KernelsOnly, NothingToStart, FirstOf, NotReady, Stepped;
      GridInAll();
      if finished > 0 {
        var s := gridToStream[finished];
        KernelsOnlyUpdate(Views(), s, View(s.operations[1..], false), View([], false));
      }
      var registered := RegisterFinishedKernel(finished);
      label Registered:
      started, launched := DoNext(canStartKernel);
      forall s <- All()
        ensures Stepped(old(View(s.operations, s.pending)), old(s.completed),
                        View(s.operations, s.pending), s.completed,
                        finished > 0 && s == old(gridToStream)[finished], finished, started == Some(s))
      {
        StepsTwice(old(View(s.operations, s.pending)), old(s.completed), old@Registered(View(s.operations, s.pending)),
                   old@Registered(s.completed), View(s.operations, s.pending), s.completed,
                   finished > 0 && s == old(gridToStream)[finished], finished, started, s);
      }
    }

    lemma GridInAll()
      requires Valid()
      ensures forall uid: nat :: uid in gridToStream ==> gridToStream[uid] in All() && gridToStream[uid].Runs(uid)
    {
    }

    method AddStream(s: Stream)
      requires Valid() && Quiet() && s !in All() && s.Valid() && s.Empty()
      modifies this`streams
      ensures Valid() && Quiet() && streams == old(streams) + [s]
    {
      AddKeepsProtocol(Views(), zero, serviceZero, gridToStream, s);
      hide Protocol;
      ghost var vs := Views();
      streams := streams + [s];
      assert Views() == vs[s := View([], false)];
    }

    /** The first position of a stream in the list. */
    method PositionOf(s: Stream) returns (k: nat)
      requires s in streams
      ensures k < |streams| && streams[k] == s && s !in streams[..k]
    {
      k := 0;
      while streams[k] != s
        invariant k < |streams| && s in streams[k..] && s !in streams[..k]
        decreases |streams| - k
      {
        k := k + 1;
      }
    }

    /** Removes a stream that has no operation left. */
    method DestroyStream(s: Stream)
      requires Valid() && Quiet() && s in streams && s.Empty()
      modifies this`streams
      ensures Valid() && Quiet() && (forall t <- streams :: t in old(streams) && t != s)
      ensures Removed(old(streams), streams, s)
    {
      hide Protocol, Views, Removed;
      ViewOf(s);
      RemoveKeepsProtocol(Views(), zero, serviceZero, gridToStream, s);
      QuietWithout(Views(), s);
      Erase(s);
    }

    /** Takes a stream off the list. */
    method Erase(s: Stream)
      requires Separate() && s in streams
      modifies this`streams
      ensures Separate() && Views() == old(Views()) - {s} && (forall t <- streams :: t in old(streams) && t != s)
      ensures Removed(old(streams), streams, s)
    {
      var k := PositionOf(s);
      WithoutAt(streams, k);
      streams := streams[..k] + streams[k + 1..];
      assert All() == old(All()) - {s};
    }

    /** In every state the steps lead to: the operations of a stream complete in the order they were pushed, only the
        front one is in progress, stream zero and the others are not in progress together, and the grid map has exactly
        the kernels in progress. */
    lemma Safety()
      requires Valid() && Quiet()
      ensures forall s <- All() :: s.pushed == s.completed + s.operations && (s.pending ==> s.operations != [])
      ensures zero.pending ==> forall s <- streams :: !s.pending
      ensures forall uid: nat :: uid in gridToStream <==> exists s: Stream :: s in All() && s.Runs(uid)
      ensures forall s <- All() :: s.pending ==> s.operations[0].Kernel? && s.operations[0].uid in gridToStream
      ensures forall s <- All() :: s.pending ==> gridToStream[s.operations[0].uid] == s
    {
      forall s <- All() ensures s in Views() && Views()[s] == View(s.operations, s.pending) {
        ViewOf(s);
      }
      forall uid: nat ensures uid in gridToStream <==> exists s: Stream :: s in All() && s.Runs(uid) {
        if uid in gridToStream {
          assert gridToStream[uid] in All() && gridToStream[uid].Runs(uid);
        }
      }
      forall s <- All() | s.pending
        ensures s.operations != [] && s.operations[0].Kernel? && s.operations[0].uid in gridToStream
        ensures gridToStream[s.operations[0].uid] == s
      {
        assert KernelInFront(Views()[s]);
        assert Running(Views()[s], s.operations[0].uid);
      }
    }
  }

  /** What is left of a list without repeats when one element is taken out. */
  lemma WithoutAt(ss: seq<Stream>, k: nat)
    requires k < |ss| && forall i: nat, j: nat :: i < j < |ss| ==> ss[i] != ss[j]
    ensures var rest := ss[..k] + ss[k + 1..];
            && (forall i: nat, j: nat :: i < j < |rest| ==> rest[i] != rest[j])
            && (forall t <- rest :: t in ss && t != ss[k]) && (forall t <- ss :: t != ss[k] ==> t in rest)
  {
    var rest := ss[..k] + ss[k + 1..];
    forall t <- ss | t != ss[k] ensures t in rest {
      var i: nat :| i < |ss| && ss[i] == t;
      assert rest[if i < k then i else i - 1] == t;
    }
  }

  lemma RemoveKeepsProtocol(vs: map<Stream, View>, zero: Stream, serviceZero: bool, grid: map<nat, Stream>, s: Stream)
    requires Protocol(vs, zero, serviceZero, grid) && s in vs && s != zero && vs[s].operations == []
    ensures Protocol(vs - {s}, zero, serviceZero, grid)
  {
    forall t: Stream, i: nat, uid: nat | Holds(vs - {s}, t, i, uid) ensures Holds(vs, t, i, uid) {
    }
  }

  /** What a step does to a stream: its finished kernel is completed if it is `over`; and if its front operation is
      `started`, it is completed too, unless it is a kernel, which then is in progress. */
  ghost predicate Stepped(v: View, completed: seq<Operation>, v': View, completed': seq<Operation>, over: bool,
                          finished: nat, started: bool) {
    && (over ==> v.pending && v.operations != [] && v.operations[0] == Kernel(finished))
    && var left := if over then v.operations[1..] else v.operations;
    var done := completed + if over then [Kernel(finished)] else [];
    if !started then completed' == done && v' == View(left, v.pending && !over)
    else
      && left != [] && (v.pending ==> over)
      && if left[0].Kernel? then completed' == done && v' == View(left, true)
         else completed' == done + [left[0]] && v' == View(left[1..], false)
  }

  lemma StepsTwice(v: View, completed: seq<Operation>, m: View, completedM: seq<Operation>, v': View,
                   completed': seq<Operation>, over: bool, finished: nat, started: Option<Stream>, s: Stream)
    requires over ==> && v.pending && v.operations != [] && v.operations[0] == Kernel(finished)
                      && m == View(v.operations[1..], false) && completedM == completed + [Kernel(finished)]
    requires !over ==> m == v && completedM == completed
    requires started == Some(s) ==> !m.pending && m.operations != []
    requires completed' == completedM + Performed(started, s, m.operations)
    requires v' == if started != Some(s) then m else if m.operations[0].Kernel? then View(m.operations, true)
                   else View(m.operations[1..], false)
    ensures Stepped(v, completed, v', completed', over, finished, started == Some(s))
  {
  }

  /** `s` was taken off the list, and the others stay in their order. */
  ghost predicate Removed(before: seq<Stream>, after: seq<Stream>, s: Stream) {
    exists k: nat :: k < |before| && before[k] == s && after == before[..k] + before[k + 1..]
  }

  /** The streams before `s` in the list are all among `skipped`. */
  ghost predicate FirstOf(s: Stream, streams: seq<Stream>, skipped: set<Stream>) {
    exists k: nat :: k < |streams| && streams[k] == s && forall j: nat :: j < k ==> streams[j] in skipped
  }

  lemma IsFirst(k: nat, streams: seq<Stream>, skipped: set<Stream>)
    requires k < |streams| && forall j: nat :: j < k ==> streams[j] in skipped
    ensures FirstOf(streams[k], streams, skipped)
  {
  }

  lemma QuietWithout(vs: map<Stream, View>, s: Stream)
    requires KernelsOnly(vs)
    ensures KernelsOnly(vs - {s})
  {
  }

  lemma InitialProtocol(zero: Stream)
    ensures Protocol(map[zero := View([], false)], zero, false, map[])
  {
  }

  lemma AddKeepsProtocol(vs: map<Stream, View>, zero: Stream, serviceZero: bool, grid: map<nat, Stream>, s: Stream)
    requires Protocol(vs, zero, serviceZero, grid) && s !in vs
    ensures Protocol(vs[s := View([], false)], zero, serviceZero, grid)
  {
    var ws := vs[s := View([], false)];
    forall t: Stream, i: nat, uid: nat | Holds(ws, t, i, uid) ensures Holds(vs, t, i, uid) {
    }
  }

  // ----- Whole runs

  /** What can happen next: a host pushes an operation, adds a stream or destroys an empty one, or the device takes a
      step in which a kernel may have finished. */
  datatype Step =
    | PushKernel(stream: nat)
    | PushOther(stream: nat, op: Operation)
    | Add
    | Destroy(stream: nat)
    | Device(finished: nat, canStartKernel: bool)

  ghost predicate KernelsBelow(ops: seq<Operation>, next: nat) {
    forall i: nat :: i < |ops| && ops[i].Kernel? ==> ops[i].uid < next
  }

  /** Any interleaving of these steps, with kernels numbered as they are made and only kernels in progress finishing,
      keeps the protocol. */
  method Run(m: Manager, steps: seq<Step>)
    requires m.Valid() && m.Quiet() && forall s <- m.All() :: s.pushed == []
    modifies m, m.All()
    ensures m.Valid() && m.Quiet() && fresh(m.All() - old(m.All()))
    ensures forall s <- m.All() :: s.pushed == s.completed + s.operations
    ensures m.zero.pending ==> forall s <- m.streams :: !s.pending
    ensures forall uid: nat :: uid in m.gridToStream <==> exists s: Stream :: s in m.All() && s.Runs(uid)
  {
    var next := 1;
    for i := 0 to |steps|
      invariant m.Valid() && m.Quiet() && fresh(m.All() - old(m.All()))
      invariant forall s <- m.All() :: KernelsBelow(s.pushed, next)
    {
      next := RunStep(m, steps[i], next);
    }
    m.Safety();
  }

  method RunStep(m: Manager, step: Step, next: nat) returns (after: nat)
    requires m.Valid() && m.Quiet() && forall s <- m.All() :: KernelsBelow(s.pushed, next)
    modifies m, m.All()
    ensures m.Valid() && m.Quiet() && forall s <- m.All() :: KernelsBelow(s.pushed, after)
    ensures fresh(m.All() - old(m.All()))
  {
    hide Protocol, Manager.Views, KernelsOnly;
    after := next;
    match step {
      case PushKernel(k) =>
        IsNewKernel(m, Kernel(next), next);
        m.Push(if k < |m.streams| then Some(m.streams[k]) else None, Kernel(next));
        after := next + 1;
      case PushOther(k, op) =>
        if !op.Kernel? {
          IsNewKernel(m, op, next);
          m.Push(if k < |m.streams| then Some(m.streams[k]) else None, op);
        }
      case Add =>
        var s := new Stream();
        m.AddStream(s);
      case Destroy(k) =>
        if k < |m.streams| && m.streams[k].Empty() {
          m.DestroyStream(m.streams[k]);
        }
      case Device(finished, canStartKernel) =>
        if finished == 0 || finished in m.gridToStream {
          var started, launched := m.Operate(finished, canStartKernel);
        }
    }
  }

  lemma IsNewKernel(m: Manager, op: Operation, next: nat)
    requires m.Valid() && (forall s <- m.All() :: KernelsBelow(s.pushed, next)) && (op.Kernel? ==> op.uid >= next)
    ensures NewKernel(m.Views(), op)
  {
    forall s: Stream, i: nat | s in m.Views() ensures op.Kernel? ==> !Holds(m.Views(), s, i, op.uid) {
      m.ViewOf(s);
      if i < |s.operations| {
        assert s.operations[i] == s.pushed[|s.completed| + i];
      }
    }
  }
}
