/**
 * The locking that the C text performs: `hashmap_get` releases its table's mutex on a hit, and
 * `napt_out_handle` returns without releasing the internal table when it gives up.
 */
module NaptLocksAsCoded {
  import opened Net
  import opened Napt
  import opened NaptProtocol

  /** The port that a `rand` result stands for. */
  function Drawn(input: Input): (port: u16) {
    PublicPort(if input.Random? then input.n else 0)
  }

  /** The step is a lookup that finds its key. */
  predicate Hits(s: State, t: Tid, input: Input) {
    match PcOf(s, t)
    case Lookup(flow) => flow.lan in s.tables.intern
    case Trying(flow, attempts) => attempts < ATTEMPTS && ExternOf(flow, Drawn(input)) in s.tables.extern
    case InLookup(key) => key in s.tables.extern
    case _ => false
  }

  function StepAsCoded(s: State, t: Tid, publicIp: Ip, input: Input): (r: State)
    requires CanStep(s, t)
  {
    var meant := Step(s, t, publicIp, input);
    if Hits(s, t, input) then
      if PcOf(s, t).Lookup? then meant.(internOwner := None) else meant.(externOwner := None)
    else if PcOf(s, t).GaveUp? then
      meant.(pc := meant.pc[t := Idle])
    else meant
  }

  /** The steps on which the text departs from what is meant. */
  predicate Departs(s: State, turn: Turn) {
    Hits(s, turn.t, turn.input) || PcOf(s, turn.t).GaveUp?
  }

  /** The locking as coded is the intended one exactly on the steps that neither hit nor give up. */
  lemma CodedStepAgreesIff(s: State, t: Tid, publicIp: Ip, input: Input)
    requires LocksAgree(s) && CanStep(s, t)
    ensures StepAsCoded(s, t, publicIp, input) == Step(s, t, publicIp, input) <==> !Departs(s, Turn(t, input))
  {
    var meant := Step(s, t, publicIp, input);
    if PcOf(s, t).GaveUp? {
      assert meant.pc[t].Leave?;
    }
  }

  /** On exactly these steps some lock ends up with an owner that does not think it owns it, or with none. */
  lemma CodedStepKeepsLocksIff(s: State, t: Tid, publicIp: Ip, input: Input)
    requires LocksAgree(s) && CanStep(s, t)
    ensures LocksAgree(StepAsCoded(s, t, publicIp, input)) <==> !Departs(s, Turn(t, input))
  {
    CodedStepAgreesIff(s, t, publicIp, input);
    StepKeepsLocks(s, t, publicIp, input);
    if Departs(s, Turn(t, input)) {
      var r := StepAsCoded(s, t, publicIp, input);
      assert t in r.pc;
    }
  }

  // ---------------------------------------------------------------- whole runs

  predicate SchedulableAsCoded(s: State, publicIp: Ip, turns: seq<Turn>)
    decreases |turns|
  {
    turns != [] ==>
      && CanStep(s, turns[0].t)
      && SchedulableAsCoded(StepAsCoded(s, turns[0].t, publicIp, turns[0].input), publicIp, turns[1..])
  }

  function RunAsCoded(s: State, publicIp: Ip, turns: seq<Turn>): (r: State)
    requires SchedulableAsCoded(s, publicIp, turns)
    decreases |turns|
  {
    if turns == [] then s
    else RunAsCoded(StepAsCoded(s, turns[0].t, publicIp, turns[0].input), publicIp, turns[1..])
  }

  /** In every state of the run the locks are owned by exactly the threads that think they own them. */
  predicate LocksAgreeAlong(s: State, publicIp: Ip, turns: seq<Turn>)
    requires SchedulableAsCoded(s, publicIp, turns)
    decreases |turns|
  {
    && LocksAgree(s)
    && (turns != [] ==>
        LocksAgreeAlong(StepAsCoded(s, turns[0].t, publicIp, turns[0].input), publicIp, turns[1..]))
  }

  /** No lookup of the run finds its key, and no search for a port is given up. */
  predicate NeverDeparts(s: State, publicIp: Ip, turns: seq<Turn>)
    requires SchedulableAsCoded(s, publicIp, turns)
    decreases |turns|
  {
    turns != [] ==>
      && !Departs(s, turns[0])
      && NeverDeparts(StepAsCoded(s, turns[0].t, publicIp, turns[0].input), publicIp, turns[1..])
  }

  /** The locking as coded is sound along a run if and only if nothing is ever found or given up in it. */
  lemma {:induction false} LocksAgreeAlongIff(s: State, publicIp: Ip, turns: seq<Turn>)
    requires LocksAgree(s) && SchedulableAsCoded(s, publicIp, turns)
    ensures LocksAgreeAlong(s, publicIp, turns) <==> NeverDeparts(s, publicIp, turns)
    decreases |turns|
  {
    if turns != [] {
      CodedStepKeepsLocksIff(s, turns[0].t, publicIp, turns[0].input);
      if !Departs(s, turns[0]) {
        LocksAgreeAlongIff(StepAsCoded(s, turns[0].t, publicIp, turns[0].input), publicIp, turns[1..]);
      }
    }
  }

  /** Such a run is one of the protocol, so all that holds of the protocol holds of it. */
  lemma {:induction false} SoundRunIsMeant(s: State, publicIp: Ip, turns: seq<Turn>)
    requires LocksAgree(s) && SchedulableAsCoded(s, publicIp, turns) && LocksAgreeAlong(s, publicIp, turns)
    ensures Schedulable(s, publicIp, turns) && RunAsCoded(s, publicIp, turns) == Interleave(s, publicIp, turns)
    decreases |turns|
  {
    if turns != [] {
      CodedStepKeepsLocksIff(s, turns[0].t, publicIp, turns[0].input);
      CodedStepAgreesIff(s, turns[0].t, publicIp, turns[0].input);
      SoundRunIsMeant(StepAsCoded(s, turns[0].t, publicIp, turns[0].input), publicIp, turns[1..]);
    }
  }

  // ---------------------------------------------------------------- the leak

  predicate NobodyHoldsIntern(s: State) {
    forall t :: t in s.pc ==> !HoldsIntern(s.pc[t])
  }

  /** The internal table is locked and no thread means to unlock it. */
  predicate Leaked(s: State) {
    s.internOwner.Some? && NobodyHoldsIntern(s)
  }

  /** Thread `t` gives up while the internal table is locked and no other thread is inside it. */
  predicate GivesUpAlone(s: State, t: Tid) {
    PcOf(s, t).GaveUp? && s.internOwner.Some? && forall u :: u in s.pc && u != t ==> !HoldsIntern(s.pc[u])
  }

  /** Giving up leaves the internal table locked for good; nothing else does, and nothing mends it. */
  lemma GivingUpLeaksIff(s: State, t: Tid, publicIp: Ip, input: Input)
    requires CanStep(s, t)
    ensures Leaked(StepAsCoded(s, t, publicIp, input)) <==> Leaked(s) || GivesUpAlone(s, t)
  {
    var r := StepAsCoded(s, t, publicIp, input);
    assert forall u :: u in s.pc && u != t ==> u in r.pc && r.pc[u] == s.pc[u];
    assert forall u :: u in r.pc && u != t ==> u in s.pc;
    if Leaked(s) {
      assert !HoldsIntern(PcOf(s, t)) && !HoldsIntern(PcOf(r, t));
    } else if GivesUpAlone(s, t) {
      assert PcOf(r, t) == Idle;
    } else if s.internOwner.Some? {
      var u :| u in s.pc && HoldsIntern(s.pc[u]) && (PcOf(s, t).GaveUp? ==> u != t);
      assert r.internOwner.Some? ==> u in r.pc && HoldsIntern(r.pc[u]);
    } else {
      assert r.internOwner.Some? ==> t in r.pc && HoldsIntern(r.pc[t]);
    }
  }

  predicate SomebodyGivesUpAlone(s: State, publicIp: Ip, turns: seq<Turn>)
    requires SchedulableAsCoded(s, publicIp, turns)
    decreases |turns|
  {
    turns != [] &&
      (|| GivesUpAlone(s, turns[0].t)
       || SomebodyGivesUpAlone(StepAsCoded(s, turns[0].t, publicIp, turns[0].input), publicIp, turns[1..]))
  }

  /** A run ends with the internal table locked for good if and only if somebody gave up alone in it. */
  lemma {:induction false} RunLeaksIff(s: State, publicIp: Ip, turns: seq<Turn>)
    requires SchedulableAsCoded(s, publicIp, turns)
    ensures Leaked(RunAsCoded(s, publicIp, turns)) <==> Leaked(s) || SomebodyGivesUpAlone(s, publicIp, turns)
    decreases |turns|
  {
    if turns != [] {
      GivingUpLeaksIff(s, turns[0].t, publicIp, turns[0].input);
      RunLeaksIff(StepAsCoded(s, turns[0].t, publicIp, turns[0].input), publicIp, turns[1..]);
    }
  }

  /** From then on, however long the run, no outgoing packet is forwarded any more. */
  lemma {:induction false} LeakIsForever(s: State, publicIp: Ip, turns: seq<Turn>)
    requires Leaked(s) && SchedulableAsCoded(s, publicIp, turns)
    ensures var r := RunAsCoded(s, publicIp, turns);
      && Leaked(r) && r.internOwner == s.internOwner
      && s.forwarded <= r.forwarded
      && forall i :: |s.forwarded| <= i < |r.forwarded| ==> r.forwarded[i].Incoming?
    decreases |turns|
  {
    if turns != [] {
      GivingUpLeaksIff(s, turns[0].t, publicIp, turns[0].input);
      LeakIsForever(StepAsCoded(s, turns[0].t, publicIp, turns[0].input), publicIp, turns[1..]);
    }
  }

  // ---------------------------------------------------------------- what happens from the start

  /** Some run of the coded steps leads from the start to this state. */
  ghost predicate Reached(publicIp: Ip, s: State) {
    exists turns :: SchedulableAsCoded(Init(), publicIp, turns) && RunAsCoded(Init(), publicIp, turns) == s
  }

  lemma ReachedAtFirst(publicIp: Ip)
    ensures Reached(publicIp, Init())
  {
    assert SchedulableAsCoded(Init(), publicIp, []) && RunAsCoded(Init(), publicIp, []) == Init();
  }

  lemma {:induction false} OneMoreTurn(s: State, publicIp: Ip, turns: seq<Turn>, t: Tid, input: Input)
    requires SchedulableAsCoded(s, publicIp, turns) && CanStep(RunAsCoded(s, publicIp, turns), t)
    ensures SchedulableAsCoded(s, publicIp, turns + [Turn(t, input)])
    ensures RunAsCoded(s, publicIp, turns + [Turn(t, input)])
      == StepAsCoded(RunAsCoded(s, publicIp, turns), t, publicIp, input)
    decreases |turns|
  {
    var all := turns + [Turn(t, input)];
    if turns == [] {
      assert all[1..] == [];
    } else {
      assert all[1..] == turns[1..] + [Turn(t, input)];
      OneMoreTurn(StepAsCoded(s, turns[0].t, publicIp, turns[0].input), publicIp, turns[1..], t, input);
    }
  }

  /** One more step of a reached state. */
  lemma Go(s: State, t: Tid, publicIp: Ip, input: Input) returns (r: State)
    requires Reached(publicIp, s) && CanStep(s, t)
    ensures Reached(publicIp, r) && r == StepAsCoded(s, t, publicIp, input)
  {
    var turns :| SchedulableAsCoded(Init(), publicIp, turns) && RunAsCoded(Init(), publicIp, turns) == s;
    OneMoreTurn(Init(), publicIp, turns, t, input);
    r := StepAsCoded(s, t, publicIp, input);
    assert RunAsCoded(Init(), publicIp, turns + [Turn(t, input)]) == r;
  }

  /** Nobody is inside a table. */
  predicate Quiet(s: State) {
    s.internOwner == None && s.externOwner == None
  }

  /** A thread takes a packet of an unmapped endpoint as far as the search for a port. */
  lemma GoToSearch(s: State, t: Tid, publicIp: Ip, flow: Flow) returns (r: State)
    requires Reached(publicIp, s) && Quiet(s) && PcOf(s, t) == Idle && flow.lan !in s.tables.intern
    ensures Reached(publicIp, r)
    ensures r == s.(internOwner := Some(t), externOwner := Some(t), pc := s.pc[t := Trying(flow, 0)])
  {
    r := Go(s, t, publicIp, Packet(WantIntern(flow)));
    r := Go(r, t, publicIp, Random(0));
    r := Go(r, t, publicIp, Random(0));
    r := Go(r, t, publicIp, Random(0));
  }

  /** A thread maps a flow under the port of random number `n`, and is done. */
  lemma GoMap(s: State, t: Tid, publicIp: Ip, flow: Flow, n: nat) returns (r: State)
    requires Reached(publicIp, s) && Quiet(s) && PcOf(s, t) == Idle && flow.lan !in s.tables.intern
    requires ExternOf(flow, PublicPort(n)) !in s.tables.extern
    ensures Reached(publicIp, r) && Quiet(r) && r.tables == WithMapping(s.tables, flow, publicIp, PublicPort(n))
    ensures r.pc == s.pc[t := Idle]
  {
    r := GoToSearch(s, t, publicIp, flow);
    r := Go(r, t, publicIp, Random(n));
    r := Go(r, t, publicIp, Random(0));
    r := Go(r, t, publicIp, Random(0));
    r := Go(r, t, publicIp, Random(0));
  }

  predicate SameRemote(a: Flow, b: Flow) {
    a.dstIp == b.dstIp && a.dstPort == b.dstPort && a.lan.protocol == b.lan.protocol
  }

  /**
   * Threads 0 and 1 send from two endpoints to one remote: thread 0 is done, and thread 1 searches for a
   * port, inside both tables.
   */
  lemma GoSecondSearch(publicIp: Ip, first: Flow, second: Flow) returns (s: State)
    requires first.lan != second.lan && SameRemote(first, second)
    ensures Reached(publicIp, s) && PcOf(s, 1) == Trying(second, 0) && PcOf(s, 2) == Idle
    ensures s.tables == WithMapping(EMPTY_TABLES, first, publicIp, PublicPort(0))
    ensures s.internOwner == Some(1) && s.pc.Keys == {0, 1} && s.pc[0] == Idle
  {
    ReachedAtFirst(publicIp);
    s := GoMap(Init(), 0, publicIp, first, 0);
    s := GoToSearch(s, 1, publicIp, second);
  }

  /**
   * After a port collision the external table is unlocked while the search for a port goes on: another
   * thread gets inside it too and looks up an incoming packet in the middle of the insertion.
   */
  lemma HalfMappingCanBeSeen(s: State, a: Tid, b: Tid, publicIp: Ip, n: nat, m: nat)
    requires a != b && PcOf(s, b).InWant?
    requires PcOf(s, a).Trying? && PcOf(s, a).attempts + 1 < ATTEMPTS && PcOf(s, a).flow.lan !in s.tables.intern
    requires ExternOf(PcOf(s, a).flow, PublicPort(n)) in s.tables.extern
    requires ExternOf(PcOf(s, a).flow, PublicPort(m)) !in s.tables.extern
    ensures var s1 := StepAsCoded(s, a, publicIp, Random(n));
      && CanStep(s1, b)
      && var s2 := StepAsCoded(s1, b, publicIp, Random(0));
      && CanStep(s2, a)
      && var s3 := StepAsCoded(s2, a, publicIp, Random(m));
      && PcOf(s3, b) == InLookup(PcOf(s, b).key) && HoldsExtern(PcOf(s3, a)) && !InStep(s3.tables)
  {
    var flow := PcOf(s, a).flow;
    var s1 := StepAsCoded(s, a, publicIp, Random(n));
    assert PcOf(s1, a) == Trying(flow, PcOf(s, a).attempts + 1) && s1.tables == s.tables;
    var s2 := StepAsCoded(s1, b, publicIp, Random(0));
    assert PcOf(s2, a) == PcOf(s1, a) && s2.tables == s.tables;
    HalfIsOutOfStep(s.tables, flow, publicIp, PublicPort(m));
  }

  /** A run from the start comes to this. */
  lemma HalfMappingIsReached(publicIp: Ip, first: Flow, second: Flow, key: ExternKey) returns (s: State)
    requires first.lan != second.lan && SameRemote(first, second)
    ensures Reached(publicIp, s) && !InStep(s.tables)
    ensures PcOf(s, 2) == InLookup(key) && HoldsExtern(PcOf(s, 1)) && HoldsExtern(PcOf(s, 2))
  {
    s := GoSecondSearch(publicIp, first, second);
    s := Go(s, 2, publicIp, Packet(InWant(key)));
    HalfMappingCanBeSeen(s, 1, 2, publicIp, 0, 1);
    s := Go(s, 1, publicIp, Random(0));
    s := Go(s, 2, publicIp, Random(0));
    s := Go(s, 1, publicIp, Random(1));
  }

  lemma HalfIsOutOfStep(t: Tables, flow: Flow, publicIp: Ip, port: u16)
    requires flow.lan !in t.intern
    ensures !InStep(t.(extern := t.extern[ExternOf(flow, port) := EntryOf(flow, publicIp, port)]))
  {
    var key := ExternOf(flow, port);
    var r := t.(extern := t.extern[key := EntryOf(flow, publicIp, port)]);
    assert InternKeyOf(r.extern[key], key.protocol) == flow.lan;
  }

  /** A search that only draws the taken port gives up. */
  lemma {:induction false} GoDrawAgain(s: State, publicIp: Ip, flow: Flow, attempts: nat) returns (r: State)
    requires Reached(publicIp, s) && s.externOwner == None && PcOf(s, 1) == Trying(flow, attempts)
    requires attempts <= ATTEMPTS && ExternOf(flow, PublicPort(0)) in s.tables.extern
    ensures Reached(publicIp, r) && r == s.(pc := s.pc[1 := GaveUp(flow)])
    decreases ATTEMPTS - attempts
  {
    r := Go(s, 1, publicIp, Random(0));
    if attempts < ATTEMPTS {
      assert r == s.(pc := s.pc[1 := Trying(flow, attempts + 1)]);
      r := GoDrawAgain(r, publicIp, flow, attempts + 1);
    }
  }

  /** The leak happens: a run from the start in which thread 1 draws the taken port ten times and gives up. */
  lemma LeakIsReached(publicIp: Ip, first: Flow, second: Flow) returns (s: State)
    requires first.lan != second.lan && SameRemote(first, second)
    ensures Reached(publicIp, s) && Leaked(s) && s.internOwner == Some(1) && PcOf(s, 1) == Idle
  {
    s := GoSecondSearch(publicIp, first, second);
    s := Go(s, 1, publicIp, Random(0));
    s := GoDrawAgain(s, publicIp, second, 1);
    GivingUpLeaksIff(s, 1, publicIp, Random(0));
    s := Go(s, 1, publicIp, Random(0));
  }
}
