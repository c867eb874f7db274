/** The DRAM command engine: which command a bank may issue in a cycle, what issuing it does to the
counters, and the spacing of commands that the counters enforce over whole command traces. */
module DramTiming {

  datatype Kind = ACT | PRE | RD | WR

  datatype Cmd = Cmd(time: nat, kind: Kind, bank: nat, row: nat)

  /** Timing parameters; banks `j` with equal `j / groupSize` share a bank group. */
  datatype Params = Params(numBanks: nat, groupSize: nat, numGroups: nat,
                           tCCD: nat, tCCDL: nat, tRRD: nat, tRCD: nat, tRCDWR: nat, tRAS: nat, tRP: nat, tRC: nat,
                           tRTW: nat, tWTR: nat, tWTP: nat, tRTP: nat, tRTPL: nat) {
    predicate Valid() {
      0 < numBanks && 0 < groupSize && forall j: nat :: j < numBanks ==> Group(j) < numGroups
    }

    function Group(j: nat): nat {
      if groupSize == 0 then 0 else j / groupSize
    }
  }

  datatype Bank = Bank(active: bool, row: nat, rcd: nat, rcdwr: nat, ras: nat, rp: nat, rc: nat, wtp: nat, rtp: nat)
  datatype BankGroup = BankGroup(ccdl: nat, rtpl: nat)
  datatype Engine = Engine(rrd: nat, ccd: nat, rtw: nat, wtr: nat, banks: seq<Bank>, groups: seq<BankGroup>)

  ghost predicate Shape(p: Params, e: Engine) {
    p.Valid() && |e.banks| == p.numBanks && |e.groups| == p.numGroups
  }

  /** The guard under which bank `j` issues a command for a request to `row`. */
  predicate Ready(p: Params, e: Engine, kind: Kind, j: nat, row: nat)
    requires p.Valid() && |e.banks| == p.numBanks && |e.groups| == p.numGroups && j < p.numBanks
  {
    var b, g := e.banks[j], e.groups[p.Group(j)];
    match kind
    case RD => e.ccd == 0 && b.rcd == 0 && g.ccdl == 0 && b.row == row && e.wtr == 0 && b.active
    case WR => e.ccd == 0 && b.rcdwr == 0 && g.ccdl == 0 && b.row == row && e.rtw == 0 && b.active
    case ACT => e.rrd == 0 && !b.active && b.rp == 0 && b.rc == 0
    case PRE => b.row != row && b.active && b.ras == 0 && b.wtp == 0 && b.rtp == 0 && g.rtpl == 0
  }

  /** The effect of issuing it. */
  function Fire(p: Params, e: Engine, kind: Kind, j: nat, row: nat): (e': Engine)
    requires p.Valid() && |e.banks| == p.numBanks && |e.groups| == p.numGroups && j < p.numBanks
    ensures |e'.banks| == |e.banks| && |e'.groups| == |e.groups|
  {
    var b, k := e.banks[j], p.Group(j);
    var g := e.groups[k];
    match kind
    case RD => e.(ccd := p.tCCD, rtw := p.tRTW, banks := e.banks[j := b.(rtp := p.tRTP)],
                  groups := e.groups[k := BankGroup(p.tCCDL, p.tRTPL)])
    case WR => e.(ccd := p.tCCD, wtr := p.tWTR, banks := e.banks[j := b.(wtp := p.tWTP)],
                  groups := e.groups[k := g.(ccdl := p.tCCDL)])
    case ACT => e.(rrd := p.tRRD, banks := e.banks[j := b.(active := true, row := row, rcd := p.tRCD, rcdwr := p.tRCDWR,
                                                          ras := p.tRAS, rc := p.tRC)])
    case PRE => e.(banks := e.banks[j := b.(active := false, rp := p.tRP)])
  }

  function Dec(x: nat): nat {
    if x > 0 then x - 1 else 0
  }

  /** The end of a cycle: every counter goes down by one, not below zero. */
  function Tick(e: Engine): (e': Engine)
    ensures |e'.banks| == |e.banks| && |e'.groups| == |e.groups|
  {
    Engine(Dec(e.rrd), Dec(e.ccd), Dec(e.rtw), Dec(e.wtr),
           seq(|e.banks|, j requires 0 <= j < |e.banks| => TickBank(e.banks[j])),
           seq(|e.groups|, k requires 0 <= k < |e.groups| => BankGroup(Dec(e.groups[k].ccdl), Dec(e.groups[k].rtpl))))
  }

  function TickBank(b: Bank): Bank {
    b.(rcd := Dec(b.rcd), rcdwr := Dec(b.rcdwr), ras := Dec(b.ras), rp := Dec(b.rp), rc := Dec(b.rc),
       wtp := Dec(b.wtp), rtp := Dec(b.rtp))
  }

  // ----- What a command trace must satisfy

  predicate Column(c: Cmd) {
    c.kind == RD || c.kind == WR
  }

  /** Command `d` comes late enough after command `c`. */
  ghost predicate Spaced(p: Params, c: Cmd, d: Cmd) {
    var gap := d.time - c.time;
    var bank := c.bank == d.bank;
    var group := p.Group(c.bank) == p.Group(d.bank);
    && gap >= 1
    && (c.kind == ACT && d.kind == ACT ==> gap >= p.tRRD && (bank ==> gap >= p.tRC))
    && (c.kind == ACT && bank ==>
          && (d.kind == RD ==> gap >= p.tRCD)
          && (d.kind == WR ==> gap >= p.tRCDWR)
          && (d.kind == PRE ==> gap >= p.tRAS))
    && (c.kind == PRE && d.kind == ACT && bank ==> gap >= p.tRP)
    && (Column(c) && Column(d) ==> gap >= p.tCCD && (group ==> gap >= p.tCCDL))
    && (c.kind == WR && d.kind == RD ==> gap >= p.tWTR)
    && (c.kind == RD && d.kind == WR ==> gap >= p.tRTW)
    && (c.kind == WR && d.kind == PRE && bank ==> gap >= p.tWTP)
    && (c.kind == RD && d.kind == PRE ==> (bank ==> gap >= p.tRTP) && (group ==> gap >= p.tRTPL))
  }

  /** The row left open in a bank by a trace, if any. */
  datatype Open = Closed | Row(row: nat)

  function OpenRow(trace: seq<Cmd>, j: nat): Open {
    if trace == [] then Closed
    else
      var c := trace[|trace| - 1];
      if c.bank == j && c.kind == ACT then Row(c.row)
      else if c.bank == j && c.kind == PRE then Closed
      else OpenRow(trace[..|trace| - 1], j)
  }

  /** A command is legal after a trace: rows are opened when closed, and used only while open. */
  ghost predicate LegalAfter(trace: seq<Cmd>, c: Cmd) {
    match c.kind
    case ACT => OpenRow(trace, c.bank) == Closed
    case PRE => OpenRow(trace, c.bank) == Row(c.row)
    case RD => OpenRow(trace, c.bank) == Row(c.row)
    case WR => OpenRow(trace, c.bank) == Row(c.row)
  }

  ghost predicate SafeTrace(p: Params, trace: seq<Cmd>) {
    && (forall i, k :: 0 <= i < k < |trace| ==> Spaced(p, trace[i], trace[k]))
    && (forall i :: 0 <= i < |trace| ==> LegalAfter(trace[..i], trace[i]))
  }

  // ----- The counters remember the trace

  /** Every counter that command `c` set still covers what is left of its delay at time `now`. */
  ghost predicate Remembers(p: Params, e: Engine, now: nat, c: Cmd)
    requires Shape(p, e)
  {
    c.bank < p.numBanks &&
    var b, g := e.banks[c.bank], e.groups[p.Group(c.bank)];
    var age := now - c.time;
    && age >= 0
    && (c.kind == ACT ==>
          && p.tRRD <= age + e.rrd && p.tRC <= age + b.rc && p.tRCD <= age + b.rcd
          && p.tRCDWR <= age + b.rcdwr && p.tRAS <= age + b.ras)
    && (c.kind == PRE ==> p.tRP <= age + b.rp)
    && (Column(c) ==> p.tCCD <= age + e.ccd && p.tCCDL <= age + g.ccdl)
    && (c.kind == WR ==> p.tWTR <= age + e.wtr && p.tWTP <= age + b.wtp)
    && (c.kind == RD ==> p.tRTW <= age + e.rtw && p.tRTP <= age + b.rtp && p.tRTPL <= age + g.rtpl)
  }

  /** Where the commands are that a counter follows. */
  datatype Scope = Everywhere | InBank(bank: nat) | InGroup(group: nat)

  ghost predicate Covers(p: Params, s: Scope, bank: nat) {
    match s
    case Everywhere => true
    case InBank(j) => bank == j
    case InGroup(k) => p.Group(bank) == k
  }

  /** A counter that is not zero holds what is left of the delay after some command of the trace. */
  ghost predicate Owes(p: Params, trace: seq<Cmd>, now: nat, kinds: set<Kind>, s: Scope, delay: nat, left: nat) {
    left > 0 ==> exists i: nat :: i < |trace| && trace[i].kind in kinds && Covers(p, s, trace[i].bank)
                                  && trace[i].time + delay == now + left
  }

  ghost predicate BankOwes(p: Params, b: Bank, now: nat, trace: seq<Cmd>, j: nat) {
    && Owes(p, trace, now, {ACT}, InBank(j), p.tRCD, b.rcd) && Owes(p, trace, now, {ACT}, InBank(j), p.tRCDWR, b.rcdwr)
    && Owes(p, trace, now, {ACT}, InBank(j), p.tRAS, b.ras) && Owes(p, trace, now, {ACT}, InBank(j), p.tRC, b.rc)
    && Owes(p, trace, now, {PRE}, InBank(j), p.tRP, b.rp)
    && Owes(p, trace, now, {WR}, InBank(j), p.tWTP, b.wtp) && Owes(p, trace, now, {RD}, InBank(j), p.tRTP, b.rtp)
  }

  ghost predicate GroupOwes(p: Params, g: BankGroup, now: nat, trace: seq<Cmd>, k: nat) {
    && Owes(p, trace, now, {RD, WR}, InGroup(k), p.tCCDL, g.ccdl)
    && Owes(p, trace, now, {RD}, InGroup(k), p.tRTPL, g.rtpl)
  }

  /** No counter holds back more than the trace calls for. */
  ghost predicate Explained(p: Params, e: Engine, now: nat, trace: seq<Cmd>) {
    && Owes(p, trace, now, {ACT}, Everywhere, p.tRRD, e.rrd) && Owes(p, trace, now, {RD, WR}, Everywhere, p.tCCD, e.ccd)
    && Owes(p, trace, now, {RD}, Everywhere, p.tRTW, e.rtw) && Owes(p, trace, now, {WR}, Everywhere, p.tWTR, e.wtr)
    && (forall j: nat :: j < |e.banks| ==> BankOwes(p, e.banks[j], now, trace, j))
    && (forall k: nat :: k < |e.groups| ==> GroupOwes(p, e.groups[k], now, trace, k))
  }

  ghost predicate Tracks(p: Params, e: Engine, now: nat, trace: seq<Cmd>) {
    && Shape(p, e) && SafeTrace(p, trace) && Explained(p, e, now, trace)
    && (forall i :: 0 <= i < |trace| ==> Remembers(p, e, now, trace[i]))
    && (forall j: nat :: j < p.numBanks ==>
          OpenRow(trace, j) == if e.banks[j].active then Row(e.banks[j].row) else Closed)
  }

  /** No command has been issued in the current cycle yet. */
  ghost predicate Idle(now: nat, trace: seq<Cmd>) {
    forall i :: 0 <= i < |trace| ==> trace[i].time < now
  }

  /** The row that a command is logged with: the one a precharge closes, or the one requested. */
  function LoggedRow(e: Engine, kind: Kind, j: nat, row: nat): nat
    requires j < |e.banks|
  {
    if kind == PRE then e.banks[j].row else row
  }

  lemma ReadyIsSpaced(p: Params, e: Engine, now: nat, c: Cmd, kind: Kind, j: nat, row: nat)
    requires Shape(p, e) && j < p.numBanks && Ready(p, e, kind, j, row) && Remembers(p, e, now, c) && c.time < now
    ensures Spaced(p, c, Cmd(now, kind, j, LoggedRow(e, kind, j, row)))
  {
  }

  /** What the request to `row` that bank `j` holds needs next, by the row that the trace leaves open. */
  ghost predicate Needed(trace: seq<Cmd>, kind: Kind, j: nat, row: nat) {
    match kind
    case RD => OpenRow(trace, j) == Row(row)
    case WR => OpenRow(trace, j) == Row(row)
    case ACT => OpenRow(trace, j) == Closed
    case PRE => OpenRow(trace, j).Row? && OpenRow(trace, j).row != row
  }

  /** A command of bank `j` at time `now` comes late enough after the whole trace. */
  ghost predicate SpacedAfter(p: Params, trace: seq<Cmd>, now: nat, kind: Kind, j: nat) {
    forall i: nat :: i < |trace| ==> Spaced(p, trace[i], Cmd(now, kind, j, 0))
  }

  lemma OwesNothing(p: Params, trace: seq<Cmd>, now: nat, kinds: set<Kind>, s: Scope, delay: nat, left: nat)
    requires Owes(p, trace, now, kinds, s, delay, left)
    requires forall i: nat :: i < |trace| && trace[i].kind in kinds && Covers(p, s, trace[i].bank) ==>
        now - trace[i].time >= delay
    ensures left == 0
  {
  }

  /** The guards are exact: a command may be issued if and only if the request needs it and it is spaced. */
  lemma ReadyIff(p: Params, e: Engine, now: nat, trace: seq<Cmd>, kind: Kind, j: nat, row: nat)
    requires Tracks(p, e, now, trace) && Idle(now, trace) && j < p.numBanks
    ensures Shape(p, e)
    ensures Ready(p, e, kind, j, row) <==> Needed(trace, kind, j, row) && SpacedAfter(p, trace, now, kind, j)
  {
    if Ready(p, e, kind, j, row) {
      forall i: nat | i < |trace| ensures Spaced(p, trace[i], Cmd(now, kind, j, 0)) {
        ReadyIsSpaced(p, e, now, trace[i], kind, j, row);
      }
    }
    if Needed(trace, kind, j, row) && SpacedAfter(p, trace, now, kind, j) {
      assert BankOwes(p, e.banks[j], now, trace, j) && GroupOwes(p, e.groups[p.Group(j)], now, trace, p.Group(j));
      CountersZero(p, e, now, trace, kind, j);
    }
  }

  /** After a spaced command's wait, the counters that it is held back by are zero. */
  lemma CountersZero(p: Params, e: Engine, now: nat, trace: seq<Cmd>, kind: Kind, j: nat)
    requires Shape(p, e) && Explained(p, e, now, trace) && j < p.numBanks && SpacedAfter(p, trace, now, kind, j)
    ensures var b, g := e.banks[j], e.groups[p.Group(j)];
      match kind
      case RD => e.ccd == 0 && b.rcd == 0 && g.ccdl == 0 && e.wtr == 0
      case WR => e.ccd == 0 && b.rcdwr == 0 && g.ccdl == 0 && e.rtw == 0
      case ACT => e.rrd == 0 && b.rp == 0 && b.rc == 0
      case PRE => b.ras == 0 && b.wtp == 0 && b.rtp == 0 && g.rtpl == 0
  {
    hide Owes;
    var b, k := e.banks[j], p.Group(j);
    var g := e.groups[k];
    assert BankOwes(p, b, now, trace, j) && GroupOwes(p, g, now, trace, k);
    match kind
    case RD =>
      OwesNothing(p, trace, now, {RD, WR}, Everywhere, p.tCCD, e.ccd);
      OwesNothing(p, trace, now, {ACT}, InBank(j), p.tRCD, b.rcd);
      OwesNothing(p, trace, now, {RD, WR}, InGroup(k), p.tCCDL, g.ccdl);
      OwesNothing(p, trace, now, {WR}, Everywhere, p.tWTR, e.wtr);
    case WR =>
      OwesNothing(p, trace, now, {RD, WR}, Everywhere, p.tCCD, e.ccd);
      OwesNothing(p, trace, now, {ACT}, InBank(j), p.tRCDWR, b.rcdwr);
      OwesNothing(p, trace, now, {RD, WR}, InGroup(k), p.tCCDL, g.ccdl);
      OwesNothing(p, trace, now, {RD}, Everywhere, p.tRTW, e.rtw);
    case ACT =>
      OwesNothing(p, trace, now, {ACT}, Everywhere, p.tRRD, e.rrd);
      OwesNothing(p, trace, now, {PRE}, InBank(j), p.tRP, b.rp);
      OwesNothing(p, trace, now, {ACT}, InBank(j), p.tRC, b.rc);
    case PRE =>
      OwesNothing(p, trace, now, {ACT}, InBank(j), p.tRAS, b.ras);
      OwesNothing(p, trace, now, {WR}, InBank(j), p.tWTP, b.wtp);
      OwesNothing(p, trace, now, {RD}, InBank(j), p.tRTP, b.rtp);
      OwesNothing(p, trace, now, {RD}, InGroup(k), p.tRTPL, g.rtpl);
  }

  lemma OwesKept(p: Params, trace: seq<Cmd>, now: nat, kinds: set<Kind>, s: Scope, delay: nat, left: nat, d: Cmd)
    requires Owes(p, trace, now, kinds, s, delay, left)
    ensures Owes(p, trace + [d], now, kinds, s, delay, left)
  {
    if left > 0 {
      var i: nat :| i < |trace| && trace[i].kind in kinds && Covers(p, s, trace[i].bank)
                    && trace[i].time + delay == now + left;
      assert (trace + [d])[i] == trace[i];
    }
  }

  lemma OwesNew(p: Params, trace: seq<Cmd>, now: nat, kinds: set<Kind>, s: Scope, delay: nat, d: Cmd)
    requires d.time == now && d.kind in kinds && Covers(p, s, d.bank)
    ensures Owes(p, trace + [d], now, kinds, s, delay, delay)
  {
    assert (trace + [d])[|trace|] == d;
  }

  lemma OwesTick(p: Params, trace: seq<Cmd>, now: nat, kinds: set<Kind>, s: Scope, delay: nat, left: nat)
    requires Owes(p, trace, now, kinds, s, delay, left)
    ensures Owes(p, trace, now + 1, kinds, s, delay, Dec(left))
  {
  }

  lemma BankKept(p: Params, b: Bank, now: nat, trace: seq<Cmd>, j: nat, d: Cmd)
    requires BankOwes(p, b, now, trace, j)
    ensures BankOwes(p, b, now, trace + [d], j)
  {
    hide Owes;
    OwesKept(p, trace, now, {ACT}, InBank(j), p.tRCD, b.rcd, d);
    OwesKept(p, trace, now, {ACT}, InBank(j), p.tRCDWR, b.rcdwr, d);
    OwesKept(p, trace, now, {ACT}, InBank(j), p.tRAS, b.ras, d);
    OwesKept(p, trace, now, {ACT}, InBank(j), p.tRC, b.rc, d);
    OwesKept(p, trace, now, {PRE}, InBank(j), p.tRP, b.rp, d);
    OwesKept(p, trace, now, {WR}, InBank(j), p.tWTP, b.wtp, d);
    OwesKept(p, trace, now, {RD}, InBank(j), p.tRTP, b.rtp, d);
  }

  lemma GroupKept(p: Params, g: BankGroup, now: nat, trace: seq<Cmd>, k: nat, d: Cmd)
    requires GroupOwes(p, g, now, trace, k)
    ensures GroupOwes(p, g, now, trace + [d], k)
  {
    hide Owes;
    OwesKept(p, trace, now, {RD, WR}, InGroup(k), p.tCCDL, g.ccdl, d);
    OwesKept(p, trace, now, {RD}, InGroup(k), p.tRTPL, g.rtpl, d);
  }

  lemma BankFired(p: Params, e: Engine, now: nat, trace: seq<Cmd>, kind: Kind, j: nat, row: nat, d: Cmd)
    requires Shape(p, e) && j < p.numBanks && BankOwes(p, e.banks[j], now, trace, j)
    requires d.time == now && d.kind == kind && d.bank == j
    ensures BankOwes(p, Fire(p, e, kind, j, row).banks[j], now, trace + [d], j)
  {
    hide Owes;
    BankKept(p, e.banks[j], now, trace, j, d);
    match kind
    case RD => OwesNew(p, trace, now, {RD}, InBank(j), p.tRTP, d);
    case WR => OwesNew(p, trace, now, {WR}, InBank(j), p.tWTP, d);
    case ACT =>
      OwesNew(p, trace, now, {ACT}, InBank(j), p.tRCD, d);
      OwesNew(p, trace, now, {ACT}, InBank(j), p.tRCDWR, d);
      OwesNew(p, trace, now, {ACT}, InBank(j), p.tRAS, d);
      OwesNew(p, trace, now, {ACT}, InBank(j), p.tRC, d);
    case PRE => OwesNew(p, trace, now, {PRE}, InBank(j), p.tRP, d);
  }

  lemma GroupFired(p: Params, e: Engine, now: nat, trace: seq<Cmd>, kind: Kind, j: nat, row: nat, d: Cmd)
    requires Shape(p, e) && j < p.numBanks && GroupOwes(p, e.groups[p.Group(j)], now, trace, p.Group(j))
    requires d.time == now && d.kind == kind && d.bank == j
    ensures GroupOwes(p, Fire(p, e, kind, j, row).groups[p.Group(j)], now, trace + [d], p.Group(j))
  {
    hide Owes;
    GroupKept(p, e.groups[p.Group(j)], now, trace, p.Group(j), d);
    if kind == RD || kind == WR {
      OwesNew(p, trace, now, {RD, WR}, InGroup(p.Group(j)), p.tCCDL, d);
    }
    if kind == RD {
      OwesNew(p, trace, now, {RD}, InGroup(p.Group(j)), p.tRTPL, d);
    }
  }

  /** Issuing a command sets no counter that it does not account for. */
  lemma FireExplained(p: Params, e: Engine, now: nat, trace: seq<Cmd>, kind: Kind, j: nat, row: nat, d: Cmd)
    requires Shape(p, e) && j < p.numBanks && Explained(p, e, now, trace)
    requires d.time == now && d.kind == kind && d.bank == j
    ensures Explained(p, Fire(p, e, kind, j, row), now, trace + [d])
  {
    hide Owes, BankOwes, GroupOwes;
    var e' := Fire(p, e, kind, j, row);
    OwesKept(p, trace, now, {ACT}, Everywhere, p.tRRD, e.rrd, d);
    OwesKept(p, trace, now, {RD, WR}, Everywhere, p.tCCD, e.ccd, d);
    OwesKept(p, trace, now, {RD}, Everywhere, p.tRTW, e.rtw, d);
    OwesKept(p, trace, now, {WR}, Everywhere, p.tWTR, e.wtr, d);
    match kind {
      case RD =>
        OwesNew(p, trace, now, {RD, WR}, Everywhere, p.tCCD, d);
        OwesNew(p, trace, now, {RD}, Everywhere, p.tRTW, d);
      case WR =>
        OwesNew(p, trace, now, {RD, WR}, Everywhere, p.tCCD, d);
        OwesNew(p, trace, now, {WR}, Everywhere, p.tWTR, d);
      case ACT => OwesNew(p, trace, now, {ACT}, Everywhere, p.tRRD, d);
      case PRE =>
    }
    forall i: nat | i < |e'.banks| ensures BankOwes(p, e'.banks[i], now, trace + [d], i) {
      if i == j {
        BankFired(p, e, now, trace, kind, j, row, d);
      } else {
        BankKept(p, e.banks[i], now, trace, i, d);
      }
    }
    forall k: nat | k < |e'.groups| ensures GroupOwes(p, e'.groups[k], now, trace + [d], k) {
      if k == p.Group(j) {
        GroupFired(p, e, now, trace, kind, j, row, d);
      } else {
        GroupKept(p, e.groups[k], now, trace, k, d);
      }
    }
  }

  lemma TickExplained(p: Params, e: Engine, now: nat, trace: seq<Cmd>)
    requires Explained(p, e, now, trace)
    ensures Explained(p, Tick(e), now + 1, trace)
  {
    hide Owes;
    OwesTick(p, trace, now, {ACT}, Everywhere, p.tRRD, e.rrd);
    OwesTick(p, trace, now, {RD, WR}, Everywhere, p.tCCD, e.ccd);
    OwesTick(p, trace, now, {RD}, Everywhere, p.tRTW, e.rtw);
    OwesTick(p, trace, now, {WR}, Everywhere, p.tWTR, e.wtr);
    forall j: nat | j < |e.banks| ensures BankOwes(p, TickBank(e.banks[j]), now + 1, trace, j) {
      BankTicks(p, e.banks[j], now, trace, j);
    }
    forall k: nat | k < |e.groups| ensures GroupOwes(p, Tick(e).groups[k], now + 1, trace, k) {
      OwesTick(p, trace, now, {RD, WR}, InGroup(k), p.tCCDL, e.groups[k].ccdl);
      OwesTick(p, trace, now, {RD}, InGroup(k), p.tRTPL, e.groups[k].rtpl);
    }
  }

  lemma BankTicks(p: Params, b: Bank, now: nat, trace: seq<Cmd>, j: nat)
    requires BankOwes(p, b, now, trace, j)
    ensures BankOwes(p, TickBank(b), now + 1, trace, j)
  {
    hide Owes;
    OwesTick(p, trace, now, {ACT}, InBank(j), p.tRCD, b.rcd);
    OwesTick(p, trace, now, {ACT}, InBank(j), p.tRCDWR, b.rcdwr);
    OwesTick(p, trace, now, {ACT}, InBank(j), p.tRAS, b.ras);
    OwesTick(p, trace, now, {ACT}, InBank(j), p.tRC, b.rc);
    OwesTick(p, trace, now, {PRE}, InBank(j), p.tRP, b.rp);
    OwesTick(p, trace, now, {WR}, InBank(j), p.tWTP, b.wtp);
    OwesTick(p, trace, now, {RD}, InBank(j), p.tRTP, b.rtp);
  }

  lemma FireRemembers(p: Params, e: Engine, now: nat, c: Cmd, kind: Kind, j: nat, row: nat)
    requires Shape(p, e) && j < p.numBanks && Remembers(p, e, now, c)
    ensures Remembers(p, Fire(p, e, kind, j, row), now, c)
  {
  }

  lemma TickRemembers(p: Params, e: Engine, now: nat, c: Cmd)
    requires Shape(p, e) && Remembers(p, e, now, c)
    ensures Remembers(p, Tick(e), now + 1, c)
  {
  }

  /** Issuing a ready command extends a safe trace to a safe trace. */
  lemma FireTracks(p: Params, e: Engine, now: nat, trace: seq<Cmd>, kind: Kind, j: nat, row: nat)
    requires Tracks(p, e, now, trace) && Idle(now, trace) && j < p.numBanks && Ready(p, e, kind, j, row)
    ensures Tracks(p, Fire(p, e, kind, j, row), now, trace + [Cmd(now, kind, j, LoggedRow(e, kind, j, row))])
  {
    hide Explained;
    var d := Cmd(now, kind, j, LoggedRow(e, kind, j, row));
    FireExplained(p, e, now, trace, kind, j, row, d);
    var e', trace' := Fire(p, e, kind, j, row), trace + [d];
    assert trace'[..|trace|] == trace;
    forall i, k | 0 <= i < k < |trace'| ensures Spaced(p, trace'[i], trace'[k]) {
      if k == |trace| {
        ReadyIsSpaced(p, e, now, trace[i], kind, j, row);
      }
    }
    forall i | 0 <= i < |trace'| ensures LegalAfter(trace'[..i], trace'[i]) && Remembers(p, e', now, trace'[i]) {
      if i < |trace| {
        assert trace'[..i] == trace[..i];
        FireRemembers(p, e, now, trace[i], kind, j, row);
      }
    }
  }

  /** The passage of a cycle keeps everything, and lets the next command be issued. */
  lemma TickTracks(p: Params, e: Engine, now: nat, trace: seq<Cmd>)
    requires Tracks(p, e, now, trace)
    ensures Tracks(p, Tick(e), now + 1, trace) && Idle(now + 1, trace)
  {
    hide Explained;
    TickExplained(p, e, now, trace);
    forall i | 0 <= i < |trace| ensures Remembers(p, Tick(e), now + 1, trace[i]) && trace[i].time < now + 1 {
      TickRemembers(p, e, now, trace[i]);
    }
  }

  function Reset(p: Params): (e: Engine)
    ensures p.Valid() ==> Tracks(p, e, 0, [])
  {
    Engine(0, 0, 0, 0, seq(p.numBanks, _ => Bank(false, 0, 0, 0, 0, 0, 0, 0, 0)),
           seq(p.numGroups, _ => BankGroup(0, 0)))
  }
}
