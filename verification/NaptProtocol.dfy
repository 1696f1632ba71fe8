/**
 * The interface threads that share the NAPT tables, as a state machine over their lock operations and
 * table accesses. Every lookup and every insert is a step of its own, so a mapping is half inserted for a
 * while.
 */
module NaptProtocol {
  import opened Net
  import opened Napt

  type Tid = nat

  /** Where a thread stands in `napt_out_handle` or `napt_inc_handle`. */
  datatype Pc =
    | Idle
    // napt_out_handle
    | WantIntern(flow: Flow)
    | Lookup(flow: Flow)                      // holds intern
    | WantExtern(flow: Flow)                  // holds intern
    | Trying(flow: Flow, attempts: nat)       // holds both
    | Half(flow: Flow, port: u16)             // holds both, extern entry inserted
    | Mapped(flow: Flow, port: u16)           // holds both, intern entry inserted too
    | GaveUp(flow: Flow)                      // holds both
    | Leave(flow: Flow, result: Option<u16>)  // holds intern
    // napt_inc_handle
    | InWant(key: ExternKey)
    | InLookup(key: ExternKey)                // holds extern
    | InLeave(key: ExternKey, entry: Option<Entry>)  // holds extern

  datatype Creation = Creation(flow: Flow, port: u16)

  /** What reached `send_ipv4`. */
  datatype Forward =
    | Outgoing(flow: Flow, port: u16)
    | Incoming(key: ExternKey, lan: InternKey)

  datatype State = State(
    tables: Tables, internOwner: Option<Tid>, externOwner: Option<Tid>, pc: map<Tid, Pc>,
    created: set<Creation>, forwarded: seq<Forward>)

  predicate HoldsIntern(pc: Pc) {
    pc.Lookup? || pc.WantExtern? || pc.Trying? || pc.Half? || pc.Mapped? || pc.GaveUp? || pc.Leave?
  }

  predicate HoldsExtern(pc: Pc) {
    pc.Trying? || pc.Half? || pc.Mapped? || pc.GaveUp? || pc.InLookup? || pc.InLeave?
  }

  function PcOf(s: State, t: Tid): (pc: Pc) {
    if t in s.pc then s.pc[t] else Idle
  }

  function Init(): (s: State) {
    State(EMPTY_TABLES, None, None, map[], {}, [])
  }

  /** What comes from outside the thread: the packet an idle thread receives, or the number `rand` gives. */
  datatype Input = Packet(pc: Pc) | Random(n: nat)

  predicate IsArrival(pc: Pc) {
    pc.WantIntern? || pc.InWant?
  }

  /** Whether thread `t` can take a step. */
  predicate CanStep(s: State, t: Tid) {
    match PcOf(s, t)
    case WantIntern(_) => s.internOwner == None
    case WantExtern(_) => s.externOwner == None
    case InWant(_) => s.externOwner == None
    case _ => true
  }

  /** One step of thread `t`; each lock is released where the C code means to release it. */
  function Step(s: State, t: Tid, publicIp: Ip, input: Input): (r: State)
    requires CanStep(s, t)
  {
    match PcOf(s, t)
    case Idle =>
      if input.Packet? && IsArrival(input.pc) then s.(pc := s.pc[t := input.pc]) else s
    case WantIntern(flow) =>
      s.(internOwner := Some(t), pc := s.pc[t := Lookup(flow)])
    case Lookup(flow) =>
      if flow.lan in s.tables.intern then
        s.(pc := s.pc[t := Leave(flow, Some(s.tables.intern[flow.lan].publicPort))])
      else
        s.(pc := s.pc[t := WantExtern(flow)])
    case WantExtern(flow) =>
      s.(externOwner := Some(t), pc := s.pc[t := Trying(flow, 0)])
    case Trying(flow, attempts) =>
      if attempts >= ATTEMPTS then s.(pc := s.pc[t := GaveUp(flow)])
      else
        var port := PublicPort(if input.Random? then input.n else 0);
        var key := ExternOf(flow, port);
        if key in s.tables.extern then s.(pc := s.pc[t := Trying(flow, attempts + 1)])
        else
          s.(tables := s.tables.(extern := s.tables.extern[key := EntryOf(flow, publicIp, port)]),
             created := s.created + {Creation(flow, port)},
             pc := s.pc[t := Half(flow, port)])
    case Half(flow, port) =>
      s.(tables := s.tables.(intern := s.tables.intern[flow.lan := EntryOf(flow, publicIp, port)]),
         pc := s.pc[t := Mapped(flow, port)])
    case Mapped(flow, port) =>
      s.(externOwner := None, pc := s.pc[t := Leave(flow, Some(port))])
    case GaveUp(flow) =>
      s.(externOwner := None, pc := s.pc[t := Leave(flow, None)])
    case Leave(flow, port) =>
      s.(internOwner := None, pc := s.pc[t := Idle],
         forwarded := if port.Some? then s.forwarded + [Outgoing(flow, port.value)] else s.forwarded)
    case InWant(key) =>
      s.(externOwner := Some(t), pc := s.pc[t := InLookup(key)])
    case InLookup(key) =>
      s.(pc := s.pc[t := InLeave(key, if key in s.tables.extern then Some(s.tables.extern[key]) else None)])
    case InLeave(key, entry) =>
      s.(externOwner := None, pc := s.pc[t := Idle],
         forwarded :=
           if entry.Some?
           then s.forwarded + [Incoming(key, InternKey(entry.value.lanIp, entry.value.lanPort, key.protocol))]
           else s.forwarded)
  }

  // ---------------------------------------------------------------- the invariant

  /** The locks are owned by exactly the threads that think they own them. */
  predicate LocksAgree(s: State) {
    && (forall t :: t in s.pc ==> (HoldsIntern(s.pc[t]) <==> s.internOwner == Some(t)))
    && (forall t :: t in s.pc ==> (HoldsExtern(s.pc[t]) <==> s.externOwner == Some(t)))
    && (s.internOwner.Some? ==> s.internOwner.value in s.pc)
    && (s.externOwner.Some? ==> s.externOwner.value in s.pc)
  }

  /** The tables once a pending half of a mapping is completed. */
  function Completed(s: State, publicIp: Ip): (t: Tables) {
    if s.externOwner.Some? && PcOf(s, s.externOwner.value).Half? then
      var pc := PcOf(s, s.externOwner.value);
      s.tables.(intern := s.tables.intern[pc.flow.lan := EntryOf(pc.flow, publicIp, pc.port)])
    else
      s.tables
  }

  /** What the thread at this point knows about the tables. */
  predicate Knows(s: State, pc: Pc, publicIp: Ip) {
    match pc
    case WantExtern(flow) => flow.lan !in s.tables.intern
    case Trying(flow, _) => flow.lan !in s.tables.intern
    case Half(flow, port) =>
      && flow.lan !in s.tables.intern
      && ExternOf(flow, port) in s.tables.extern
      && s.tables.extern[ExternOf(flow, port)] == EntryOf(flow, publicIp, port)
    case Mapped(flow, port) => MapsTo(s.tables, flow, port)
    case Leave(flow, port) => port.Some? ==> MapsTo(s.tables, flow, port.value)
    case InLeave(key, entry) => entry.Some? ==> key in s.tables.extern && s.tables.extern[key] == entry.value
    case _ => true
  }

  predicate MapsTo(t: Tables, flow: Flow, port: u16) {
    flow.lan in t.intern && t.intern[flow.lan].publicPort == port
  }

  /** Every external key was put there by an outgoing packet to exactly that remote. */
  predicate Recorded(s: State) {
    forall k :: k in s.tables.extern ==>
      Creation(Flow(InternKey(s.tables.extern[k].lanIp, s.tables.extern[k].lanPort, k.protocol),
                    k.ipDst, k.portDst), k.portSrc) in s.created
  }

  /** Every forwarded incoming packet goes to the LAN endpoint that asked that remote, by that port. */
  predicate ForwardsAnswerRequests(s: State) {
    forall i :: 0 <= i < |s.forwarded| && s.forwarded[i].Incoming? ==>
      Creation(Flow(s.forwarded[i].lan, s.forwarded[i].key.ipDst, s.forwarded[i].key.portDst),
               s.forwarded[i].key.portSrc) in s.created
  }

  /** Every forwarded outgoing packet left by the port of its endpoint's mapping. */
  predicate ForwardsMapped(s: State) {
    forall i :: 0 <= i < |s.forwarded| && s.forwarded[i].Outgoing? ==>
      MapsTo(s.tables, s.forwarded[i].flow, s.forwarded[i].port)
  }

  predicate Inv(s: State, publicIp: Ip) {
    && LocksAgree(s)
    && InStep(Completed(s, publicIp))
    && (forall t :: t in s.pc ==> Knows(s, s.pc[t], publicIp))
    && Recorded(s)
    && ForwardsAnswerRequests(s)
    && ForwardsMapped(s)
  }

  lemma InitHolds(publicIp: Ip)
    ensures Inv(Init(), publicIp)
  {
  }

  // ---------------------------------------------------------------- every step keeps it

  lemma StepKeepsLocks(s: State, t: Tid, publicIp: Ip, input: Input)
    requires LocksAgree(s) && CanStep(s, t)
    ensures LocksAgree(Step(s, t, publicIp, input))
  {
  }

  /** Only the thread that holds both locks changes a table, and it only adds. */
  lemma StepExtends(s: State, t: Tid, publicIp: Ip, input: Input)
    requires CanStep(s, t) && Knows(s, PcOf(s, t), publicIp)
    ensures Extends(Step(s, t, publicIp, input).tables, s.tables)
    ensures s.created <= Step(s, t, publicIp, input).created
  {
  }

  lemma StepKeepsTables(s: State, t: Tid, publicIp: Ip, input: Input)
    requires Inv(s, publicIp) && CanStep(s, t)
    ensures InStep(Completed(Step(s, t, publicIp, input), publicIp))
  {
    var r := Step(s, t, publicIp, input);
    var pc := PcOf(s, t);
    if pc.Trying? && PcOf(r, t).Half? {
      var port := PcOf(r, t).port;
      assert Completed(s, publicIp) == s.tables;
      NewMappingKeepsStep(s.tables, pc.flow, publicIp, port);
      assert Completed(r, publicIp) == WithMapping(s.tables, pc.flow, publicIp, port);
    } else if pc.Half? {
      assert Completed(r, publicIp) == Completed(s, publicIp);
    } else {
      assert Completed(r, publicIp) == Completed(s, publicIp);
    }
  }

  lemma StepKeepsKnows(s: State, t: Tid, publicIp: Ip, input: Input, other: Tid)
    requires Inv(s, publicIp) && CanStep(s, t) && other in Step(s, t, publicIp, input).pc
    ensures Knows(Step(s, t, publicIp, input), Step(s, t, publicIp, input).pc[other], publicIp)
  {
    StepExtends(s, t, publicIp, input);
    var r := Step(s, t, publicIp, input);
    if other != t {
      assert r.pc[other] == s.pc[other];
      KnowsIsStable(s, r, s.pc[other], publicIp);
    }
  }

  /** What a thread knows survives additions, and what it knows to be absent is under its own lock. */
  lemma KnowsIsStable(s: State, r: State, pc: Pc, publicIp: Ip)
    requires Knows(s, pc, publicIp) && Extends(r.tables, s.tables)
    requires HoldsIntern(pc) ==> r.tables.intern == s.tables.intern
    ensures Knows(r, pc, publicIp)
  {
  }

  lemma StepKeepsHistory(s: State, t: Tid, publicIp: Ip, input: Input)
    requires Inv(s, publicIp) && CanStep(s, t)
    ensures Recorded(Step(s, t, publicIp, input))
    ensures ForwardsAnswerRequests(Step(s, t, publicIp, input))
  {
    StepExtends(s, t, publicIp, input);
  }

  lemma StepKeepsForwards(s: State, t: Tid, publicIp: Ip, input: Input)
    requires Inv(s, publicIp) && CanStep(s, t)
    ensures ForwardsMapped(Step(s, t, publicIp, input))
  {
    StepExtends(s, t, publicIp, input);
    var r := Step(s, t, publicIp, input);
    forall i | 0 <= i < |r.forwarded| && r.forwarded[i].Outgoing?
      ensures MapsTo(r.tables, r.forwarded[i].flow, r.forwarded[i].port)
    {
      if i < |s.forwarded| {
        assert r.forwarded[i] == s.forwarded[i];
      }
    }
  }

  /** The invariant holds after every step of every thread, whatever it receives or draws. */
  lemma StepKeepsInv(s: State, t: Tid, publicIp: Ip, input: Input)
    requires Inv(s, publicIp) && CanStep(s, t)
    ensures Inv(Step(s, t, publicIp, input), publicIp)
  {
    StepKeepsLocks(s, t, publicIp, input);
    StepKeepsTables(s, t, publicIp, input);
    StepKeepsHistory(s, t, publicIp, input);
    StepKeepsForwards(s, t, publicIp, input);
    var r := Step(s, t, publicIp, input);
    forall other | other in r.pc
      ensures Knows(r, r.pc[other], publicIp)
    {
      StepKeepsKnows(s, t, publicIp, input, other);
    }
  }

  // ---------------------------------------------------------------- every interleaving

  datatype Turn = Turn(t: Tid, input: Input)

  predicate Schedulable(s: State, publicIp: Ip, turns: seq<Turn>)
    decreases |turns|
  {
    turns != [] ==>
      && CanStep(s, turns[0].t)
      && Schedulable(Step(s, turns[0].t, publicIp, turns[0].input), publicIp, turns[1..])
  }

  function Interleave(s: State, publicIp: Ip, turns: seq<Turn>): (r: State)
    requires Schedulable(s, publicIp, turns)
    decreases |turns|
  {
    if turns == [] then s else Interleave(Step(s, turns[0].t, publicIp, turns[0].input), publicIp, turns[1..])
  }

  lemma {:induction false} InterleavingKeepsInv(s: State, publicIp: Ip, turns: seq<Turn>)
    requires Inv(s, publicIp) && Schedulable(s, publicIp, turns)
    ensures Inv(Interleave(s, publicIp, turns), publicIp)
    decreases |turns|
  {
    if turns != [] {
      StepKeepsInv(s, turns[0].t, publicIp, turns[0].input);
      InterleavingKeepsInv(Step(s, turns[0].t, publicIp, turns[0].input), publicIp, turns[1..]);
    }
  }

  /**
   * After every interleaving: while nobody holds the external lock, and whenever an incoming packet is
   * being looked up, the two tables are in step, so no half-inserted mapping is ever seen; and every
   * incoming packet that was forwarded answers an outgoing packet of that endpoint to that exact remote,
   * and every outgoing one left by the port of its mapping.
   */
  lemma NoHalfMappingIsSeen(publicIp: Ip, turns: seq<Turn>, t: Tid)
    requires Schedulable(Init(), publicIp, turns)
    ensures var s := Interleave(Init(), publicIp, turns);
      && (s.externOwner == None ==> InStep(s.tables))
      && (PcOf(s, t).InLookup? ==> InStep(s.tables))
      && (PcOf(s, t).Lookup? && s.externOwner == None ==> InStep(s.tables))
      && ForwardsAnswerRequests(s) && ForwardsMapped(s)
  {
    InitHolds(publicIp);
    InterleavingKeepsInv(Init(), publicIp, turns);
  }

  /** At most one thread is inside each table. */
  lemma MutualExclusion(publicIp: Ip, turns: seq<Turn>, a: Tid, b: Tid)
    requires Schedulable(Init(), publicIp, turns)
    ensures var s := Interleave(Init(), publicIp, turns);
      && (HoldsIntern(PcOf(s, a)) && HoldsIntern(PcOf(s, b)) ==> a == b)
      && (HoldsExtern(PcOf(s, a)) && HoldsExtern(PcOf(s, b)) ==> a == b)
  {
    InitHolds(publicIp);
    InterleavingKeepsInv(Init(), publicIp, turns);
  }

  /** A lookup of the internal table by the thread that owns it is not disturbed by the others. */
  lemma InternLookupIsStable(s: State, publicIp: Ip, t: Tid, other: Tid, input: Input)
    requires Inv(s, publicIp) && CanStep(s, other) && t != other && HoldsIntern(PcOf(s, t))
    ensures Step(s, other, publicIp, input).tables == s.tables
  {
  }

  /** The lock order rules out deadlock: while some thread is busy, some busy thread can step. */
  lemma NoDeadlock(s: State, publicIp: Ip, t: Tid) returns (next: Tid)
    requires Inv(s, publicIp) && PcOf(s, t) != Idle
    ensures PcOf(s, next) != Idle && CanStep(s, next)
  {
    if s.externOwner.Some? {
      next := s.externOwner.value;
    } else if s.internOwner.Some? {
      next := s.internOwner.value;
    } else {
      next := t;
    }
  }
}
