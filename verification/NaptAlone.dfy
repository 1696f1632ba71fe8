/** A thread that is not disturbed takes its packet through the tables exactly as `Napt` says. */
module NaptAlone {
  import opened Net
  import opened Napt
  import opened NaptProtocol

  /** Some run of the protocol leads from one state to the other. */
  ghost predicate LeadsTo(s: State, publicIp: Ip, r: State) {
    exists turns :: Schedulable(s, publicIp, turns) && Interleave(s, publicIp, turns) == r
  }

  lemma LeadsToItself(s: State, publicIp: Ip)
    ensures LeadsTo(s, publicIp, s)
  {
    assert Schedulable(s, publicIp, []) && Interleave(s, publicIp, []) == s;
  }

  lemma {:induction false} OneMoreTurn(s: State, publicIp: Ip, turns: seq<Turn>, t: Tid, input: Input)
    requires Schedulable(s, publicIp, turns) && CanStep(Interleave(s, publicIp, turns), t)
    ensures Schedulable(s, publicIp, turns + [Turn(t, input)])
    ensures Interleave(s, publicIp, turns + [Turn(t, input)])
      == Step(Interleave(s, publicIp, turns), t, publicIp, input)
    decreases |turns|
  {
    var all := turns + [Turn(t, input)];
    if turns == [] {
      assert all[1..] == [];
    } else {
      assert all[1..] == turns[1..] + [Turn(t, input)];
      OneMoreTurn(Step(s, turns[0].t, publicIp, turns[0].input), publicIp, turns[1..], t, input);
    }
  }

  /** One more step. */
  lemma Go(start: State, s: State, t: Tid, publicIp: Ip, input: Input) returns (r: State)
    requires LeadsTo(start, publicIp, s) && CanStep(s, t)
    ensures LeadsTo(start, publicIp, r) && r == Step(s, t, publicIp, input)
  {
    var turns :| Schedulable(start, publicIp, turns) && Interleave(start, publicIp, turns) == s;
    OneMoreTurn(start, publicIp, turns, t, input);
    r := Step(s, t, publicIp, input);
    assert Interleave(start, publicIp, turns + [Turn(t, input)]) == r;
  }

  /** Nobody is inside a table. */
  predicate Quiet(s: State) {
    s.internOwner == None && s.externOwner == None
  }

  /** What an undisturbed outgoing packet leaves behind. */
  predicate SentAlone(s: State, r: State, t: Tid, tables: Tables, flow: Flow, port: Option<u16>) {
    && Quiet(r) && PcOf(r, t) == Idle && r.tables == tables
    && r.forwarded == s.forwarded + if port.Some? then [Outgoing(flow, port.value)] else []
  }

  /** The search for a port from attempt `i` on. */
  lemma {:induction false} SearchAlone(start: State, s: State, t: Tid, publicIp: Ip, flow: Flow, draws: seq<nat>,
                                       i: nat)
    returns (r: State)
    requires LeadsTo(start, publicIp, s) && |draws| == ATTEMPTS && i <= ATTEMPTS
    requires PcOf(s, t) == Trying(flow, i)
    ensures LeadsTo(start, publicIp, r)
    ensures var port := FreePort(s.tables, flow, draws, i);
      SentAlone(s, r, t, if port.Some? then WithMapping(s.tables, flow, publicIp, port.value) else s.tables, flow, port)
    decreases ATTEMPTS - i
  {
    r := Go(start, s, t, publicIp, Random(if i < ATTEMPTS then draws[i] else 0));
    if i == ATTEMPTS {
      r := Go(start, r, t, publicIp, Random(0));
      r := Go(start, r, t, publicIp, Random(0));
    } else if ExternOf(flow, PublicPort(draws[i])) in s.tables.extern {
      r := SearchAlone(start, r, t, publicIp, flow, draws, i + 1);
    } else {
      r := FinishAlone(start, r, t, publicIp, flow, PublicPort(draws[i]));
    }
  }

  /** The second insertion and the releases. */
  lemma FinishAlone(start: State, s: State, t: Tid, publicIp: Ip, flow: Flow, port: u16) returns (r: State)
    requires LeadsTo(start, publicIp, s) && PcOf(s, t) == Half(flow, port)
    ensures LeadsTo(start, publicIp, r)
    ensures SentAlone(s, r, t, s.tables.(intern := s.tables.intern[flow.lan := EntryOf(flow, publicIp, port)]),
                      flow, Some(port))
  {
    r := Go(start, s, t, publicIp, Random(0));
    r := Go(start, r, t, publicIp, Random(0));
    r := Go(start, r, t, publicIp, Random(0));
  }

  /**
   * An undisturbed outgoing packet: the tables become what they are meant to become, and the packet is
   * forwarded with the port that is meant, or dropped when there is none.
   */
  lemma OutAlone(s: State, t: Tid, publicIp: Ip, flow: Flow, draws: seq<nat>) returns (r: State)
    requires Quiet(s) && PcOf(s, t) == Idle && |draws| == ATTEMPTS
    ensures LeadsTo(s, publicIp, r)
    ensures var (tables, port) := Out(s.tables, flow, publicIp, draws); SentAlone(s, r, t, tables, flow, port)
  {
    LeadsToItself(s, publicIp);
    r := Go(s, s, t, publicIp, Packet(WantIntern(flow)));
    r := Go(s, r, t, publicIp, Random(0));
    r := Go(s, r, t, publicIp, Random(0));
    if flow.lan in s.tables.intern {
      r := Go(s, r, t, publicIp, Random(0));
    } else {
      r := Go(s, r, t, publicIp, Random(0));
      r := SearchAlone(s, r, t, publicIp, flow, draws, 0);
    }
  }

  /** An undisturbed incoming packet is forwarded to the endpoint that is meant, or dropped without one. */
  lemma InAlone(s: State, t: Tid, publicIp: Ip, srcIp: Ip, srcPort: u16, dstPort: u16, protocol: byte)
    returns (r: State)
    requires s.externOwner == None && PcOf(s, t) == Idle
    ensures LeadsTo(s, publicIp, r) && r.tables == s.tables && r.externOwner == None && PcOf(r, t) == Idle
    ensures var lan := In(s.tables, srcIp, srcPort, dstPort, protocol);
      r.forwarded == s.forwarded +
        if lan.Some? then [Incoming(ExternKey(srcIp, dstPort, srcPort, protocol), lan.value)] else []
  {
    LeadsToItself(s, publicIp);
    r := Go(s, s, t, publicIp, Packet(InWant(ExternKey(srcIp, dstPort, srcPort, protocol))));
    r := Go(s, r, t, publicIp, Random(0));
    r := Go(s, r, t, publicIp, Random(0));
    r := Go(s, r, t, publicIp, Random(0));
  }
}
