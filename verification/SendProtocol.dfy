/**
 * Threads that send, learn and release at the same time: the test of the device table, the access to the
 * wait queue and the write to the interface are steps of their own, as each has its own mutex or none.
 */
module SendProtocol {
  import opened Net
  import opened Interfaces
  import opened Devices
  import opened DeltaQueue
  import opened DeltaQueueSafety
  import opened DeltaQueueRuns
  import opened DeltaQueueEffects
  import opened Outgoing
  import opened Ipv4
  import opened Router

  /** Where a thread stands in `send_ipv4`, `arp_handle` or `timer_update_packets`. */
  datatype Pc =
    | Idle
    | Testing(p: Packet)                       // before has_mac_for_ip
    | Queueing(p: Packet, hop: Ip)             // before timer_add_packet
    | Writing(p: Packet, hop: Ip)              // before get_mac_from_ip
    | Learnt(hop: Ip)                          // before timer_update_packets
    | Releasing(hop: Ip, pkts: seq<Packet>)    // before has_mac_for_ip for the first of these
    | Requeueing(hop: Ip, pkts: seq<Packet>)   // before timer_add_packet for it
    | Rewriting(hop: Ip, pkts: seq<Packet>)    // before get_mac_from_ip for it

  /** A packet that reached the end of `send_ipv4`, with the MAC it found there. */
  datatype Written = Written(p: Packet, hop: Ip, mac: Mac)

  datatype World = World(
    known: map<Ip, Mac>, queue: State, threads: seq<Pc>, taken: seq<Packet>, written: seq<Written>)

  /** What an idle thread receives: a packet to send, an ARP message, or an IPv4 frame that teaches a MAC. */
  datatype Input = Send(p: Packet) | Arp(ip: Ip, mac: Mac) | Hear(ip: Ip, mac: Mac)

  datatype Turn = Thread(t: nat, input: Input) | Tock | Pass(ns: nat)

  function Start(n: nat): (w: World) {
    World(map[], INIT, seq(n, _ => Idle), [], [])
  }

  predicate CanTurn(w: World, turn: Turn) {
    match turn
    case Thread(t, input) => t < |w.threads| && (input.Send? ==> WellFormed(input.p))
    case Tock => true
    case Pass(ns) => Enabled(w.queue, Wait(ns))
  }

  function At(w: World, t: nat, pc: Pc): (r: World)
    requires t < |w.threads|
    ensures |r.threads| == |w.threads|
  {
    w.(threads := w.threads[t := pc])
  }

  function Receive(w: World, t: nat, input: Input): (r: World)
    requires t < |w.threads| && (input.Send? ==> WellFormed(input.p))
    ensures |r.threads| == |w.threads|
  {
    match input
    case Send(p) => At(w, t, Testing(Rewritten(p))).(taken := w.taken + [Rewritten(p)])
    case Arp(ip, mac) => At(w, t, Learnt(ip)).(known := w.known[ip := mac])
    case Hear(ip, mac) => w.(known := w.known[ip := mac])
  }

  /** The interface and the next hop of a packet; one without a header goes nowhere. */
  function HopOf(r: Routing, p: Packet): (hop: Ip) {
    if |p| >= 20 then NextHop(r, DstIp(p)) else ZERO_IP
  }

  function IntOf(r: Routing, p: Packet): (intId: nat) {
    if |p| >= 20 then IntFor(r, DstIp(p)) else 0
  }

  /** `get_mac_from_ip`: zeros where nothing is known. */
  function MacOf(w: World, hop: Ip): (mac: Mac) {
    if hop in w.known then w.known[hop] else ZERO_MAC
  }

  function Advance(r: Routing, w: World, t: nat, input: Input): (s: World)
    requires t < |w.threads| && (input.Send? ==> WellFormed(input.p))
    ensures |s.threads| == |w.threads|
  {
    match w.threads[t]
    case Idle => Receive(w, t, input)
    case Testing(p) =>
      var hop := HopOf(r, p);
      At(w, t, if hop in w.known then Writing(p, hop) else Queueing(p, hop))
    case Queueing(p, hop) =>
      At(w, t, Idle).(queue := AddPacket(w.queue, p, IntOf(r, p), hop))
    case Writing(p, hop) =>
      At(w, t, Idle).(written := w.written + [Written(p, hop, MacOf(w, hop))])
    case Learnt(hop) =>
      At(w, t, Releasing(hop, ResolvedPackets(w.queue, hop))).(queue := Resolve(w.queue, hop))
    case Releasing(hop, pkts) =>
      if pkts == [] then At(w, t, Idle)
      else At(w, t, if HopOf(r, pkts[0]) in w.known then Rewriting(hop, pkts) else Requeueing(hop, pkts))
    case Requeueing(hop, pkts) =>
      if pkts == [] then At(w, t, Idle)
      else At(w, t, Releasing(hop, pkts[1..]))
        .(queue := AddPacket(w.queue, pkts[0], IntOf(r, pkts[0]), HopOf(r, pkts[0])))
    case Rewriting(hop, pkts) =>
      if pkts == [] then At(w, t, Idle)
      else At(w, t, Releasing(hop, pkts[1..]))
        .(written := w.written + [Written(pkts[0], HopOf(r, pkts[0]), MacOf(w, HopOf(r, pkts[0])))])
  }

  function After(r: Routing, w: World, turn: Turn): (s: World)
    requires CanTurn(w, turn)
  {
    match turn
    case Thread(t, input) => Advance(r, w, t, input)
    case Tock => w.(queue := Tick(w.queue, r.table))
    case Pass(ns) => w.(queue := Elapse(w.queue, ns))
  }

  predicate Schedule(r: Routing, w: World, turns: seq<Turn>)
    decreases |turns|
  {
    turns != [] ==> CanTurn(w, turns[0]) && Schedule(r, After(r, w, turns[0]), turns[1..])
  }

  function AfterAll(r: Routing, w: World, turns: seq<Turn>): (s: World)
    requires Schedule(r, w, turns)
    decreases |turns|
  {
    if turns == [] then w else AfterAll(r, After(r, w, turns[0]), turns[1..])
  }

  // ---------------------------------------------------------------- who knows what

  /** Every packet is on its way to its own next hop, and what is released or written has a known one. */
  predicate Sane(r: Routing, known: map<Ip, Mac>, pc: Pc) {
    match pc
    case Idle => true
    case Testing(p) => RoutedTo(r, p, HopOf(r, p))
    case Queueing(p, hop) => RoutedTo(r, p, hop)
    case Writing(p, hop) => RoutedTo(r, p, hop) && hop in known
    case Learnt(hop) => hop in known
    case Releasing(hop, pkts) => hop in known && NodeRouted(r, Node(0, hop, pkts, 0))
    case Requeueing(hop, pkts) => false
    case Rewriting(hop, pkts) => hop in known && NodeRouted(r, Node(0, hop, pkts, 0))
  }

  predicate AllSane(r: Routing, w: World) {
    && QueueRouted(r, w.queue.list)
    && (forall t :: 0 <= t < |w.threads| ==> Sane(r, w.known, w.threads[t]))
    && (forall i :: 0 <= i < |w.written| ==> RoutedTo(r, w.written[i].p, w.written[i].hop))
  }

  lemma SaneStays(r: Routing, known: map<Ip, Mac>, more: map<Ip, Mac>, pc: Pc)
    requires Sane(r, known, pc) && known.Keys <= more.Keys
    ensures Sane(r, more, pc)
  {
  }

  lemma ResolveRouted(r: Routing, s: State, hop: Ip)
    requires QueueRouted(r, s.list)
    ensures QueueRouted(r, Resolve(s, hop).list)
    ensures NodeRouted(r, Node(0, hop, ResolvedPackets(s, hop), 0))
  {
    var i := IndexOf(s.list, hop);
    if i < |s.list| {
      UnlinkKeepsRouted(r, s.list, i);
      SameNodeRouted(r, s.list[i], Node(0, hop, ResolvedPackets(s, hop), 0));
    }
  }

  /** The thread that moves is sane afterwards, and so is the queue. */
  lemma AdvanceIsSane(r: Routing, w: World, t: nat, input: Input)
    requires AllSane(r, w) && CanTurn(w, Thread(t, input))
    ensures var s := Advance(r, w, t, input);
      && |s.threads| == |w.threads| && Sane(r, s.known, s.threads[t])
      && QueueRouted(r, s.queue.list) && w.known.Keys <= s.known.Keys
  {
    var pc := w.threads[t];
    assert Sane(r, w.known, pc);
    match pc
    case Idle =>
      if input.Send? {
        RewrittenIsRouted(r, input.p);
      }
    case Queueing(p, hop) => AddKeepsRouted(r, w.queue, p, IntOf(r, p), hop);
    case Learnt(hop) => ResolveRouted(r, w.queue, hop);
    case Releasing(hop, pkts) =>
      if pkts != [] {
        assert RoutedTo(r, pkts[0], hop);
      }
    case Rewriting(hop, pkts) =>
      if pkts != [] {
        RestRouted(r, hop, pkts);
      }
    case _ =>
  }

  lemma RestRouted(r: Routing, hop: Ip, pkts: seq<Packet>)
    requires pkts != [] && NodeRouted(r, Node(0, hop, pkts, 0))
    ensures NodeRouted(r, Node(0, hop, pkts[1..], 0)) && RoutedTo(r, pkts[0], hop)
  {
    assert forall j :: 0 <= j < |pkts[1..]| ==> pkts[1..][j] == pkts[j + 1];
  }

  lemma AdvanceWritesRouted(r: Routing, w: World, t: nat, input: Input)
    requires AllSane(r, w) && CanTurn(w, Thread(t, input))
    ensures var s := Advance(r, w, t, input);
      forall i :: 0 <= i < |s.written| ==> RoutedTo(r, s.written[i].p, s.written[i].hop)
  {
    var pc := w.threads[t];
    assert Sane(r, w.known, pc);
    if pc.Rewriting? && pc.pkts != [] {
      RestRouted(r, pc.hop, pc.pkts);
    }
  }

  lemma OthersStay(r: Routing, w: World, t: nat, input: Input, u: nat)
    requires CanTurn(w, Thread(t, input)) && u < |w.threads| && u != t
    ensures |Advance(r, w, t, input).threads| == |w.threads|
    ensures Advance(r, w, t, input).threads[u] == w.threads[u]
  {
  }

  lemma AdvanceKeepsSane(r: Routing, w: World, t: nat, input: Input)
    requires AllSane(r, w) && CanTurn(w, Thread(t, input))
    ensures AllSane(r, Advance(r, w, t, input))
  {
    AdvanceIsSane(r, w, t, input);
    AdvanceWritesRouted(r, w, t, input);
    var s := Advance(r, w, t, input);
    forall u | 0 <= u < |s.threads|
      ensures Sane(r, s.known, s.threads[u])
    {
      if u != t {
        OthersStay(r, w, t, input, u);
        SaneStays(r, w.known, s.known, w.threads[u]);
      }
    }
  }

  lemma TurnKeepsSane(r: Routing, w: World, turn: Turn)
    requires AllSane(r, w) && CanTurn(w, turn)
    ensures AllSane(r, After(r, w, turn))
  {
    match turn
    case Thread(t, input) => AdvanceKeepsSane(r, w, t, input);
    case Tock => TickKeepsRouted(r, w.queue);
    case Pass(_) =>
  }

  /** The device table changes when an idle thread hears of a MAC, and then in that address only. */
  lemma OnlyHearsayTeaches(r: Routing, w: World, turn: Turn)
    requires CanTurn(w, turn)
    ensures After(r, w, turn).known ==
      if turn.Thread? && w.threads[turn.t] == Idle && !turn.input.Send? then w.known[turn.input.ip := turn.input.mac]
      else w.known
  {
  }

  /** Whatever a step writes goes to the MAC that is known for its next hop. */
  lemma WritesToKnownMac(r: Routing, w: World, t: nat, input: Input)
    requires AllSane(r, w) && CanTurn(w, Thread(t, input))
    ensures var s := Advance(r, w, t, input);
      && |w.written| <= |s.written|
      && forall i :: |w.written| <= i < |s.written| ==>
          && s.written[i].hop in w.known && s.written[i].mac == w.known[s.written[i].hop]
          && NextHop(r, DstIp(s.written[i].p)) == s.written[i].hop
  {
    var pc := w.threads[t];
    assert Sane(r, w.known, pc);
    if pc.Rewriting? && pc.pkts != [] {
      RestRouted(r, pc.hop, pc.pkts);
    }
  }

  /**
   * Under every interleaving, no released packet is queued again: every one is on its way to a hop whose
   * MAC is known, whichever thread learnt it.
   */
  lemma {:induction false} NeverRequeued(r: Routing, w: World, turns: seq<Turn>)
    requires AllSane(r, w) && Schedule(r, w, turns)
    ensures AllSane(r, AfterAll(r, w, turns))
    ensures forall t :: 0 <= t < |AfterAll(r, w, turns).threads| ==> !AfterAll(r, w, turns).threads[t].Requeueing?
    decreases |turns|
  {
    if turns != [] {
      TurnKeepsSane(r, w, turns[0]);
      NeverRequeued(r, After(r, w, turns[0]), turns[1..]);
    } else {
      assert forall t :: 0 <= t < |w.threads| ==> Sane(r, w.known, w.threads[t]);
    }
  }

  // ---------------------------------------------------------------- the queue's own run

  /** What one turn does to the wait queue. */
  function QueueStep(r: Routing, w: World, turn: Turn): (steps: seq<Step>)
    requires CanTurn(w, turn)
  {
    match turn
    case Tock => [Alarm]
    case Pass(ns) => [Wait(ns)]
    case Thread(t, _) =>
      match w.threads[t]
      case Queueing(p, hop) => [Add(p, IntOf(r, p), hop)]
      case Learnt(hop) => [Learn(hop)]
      case Requeueing(_, pkts) => if pkts == [] then [] else [Add(pkts[0], IntOf(r, pkts[0]), HopOf(r, pkts[0]))]
      case _ => []
  }

  function QueueSteps(r: Routing, w: World, turns: seq<Turn>): (steps: seq<Step>)
    requires Schedule(r, w, turns)
    decreases |turns|
  {
    if turns == [] then []
    else QueueStep(r, w, turns[0]) + QueueSteps(r, After(r, w, turns[0]), turns[1..])
  }

  lemma RunOn(s: State, a: seq<Step>, b: seq<Step>, table: seq<Config>)
    requires |a| <= 1
    ensures Run(s, a + b, table) == Run(Run(s, a, table), b, table)
    ensures Feasible(s, a + b, table) <==> Feasible(s, a, table) && Feasible(Run(s, a, table), b, table)
  {
    if a == [] {
      assert a + b == b;
    } else {
      assert (a + b)[1..] == b && a[1..] == [];
    }
  }

  /** The wait queue under every interleaving is the wait queue alone, in the order of its mutex. */
  lemma {:induction false} QueueRunsAlone(r: Routing, w: World, turns: seq<Turn>)
    requires Schedule(r, w, turns)
    ensures AfterAll(r, w, turns).queue == Run(w.queue, QueueSteps(r, w, turns), r.table)
    ensures Feasible(w.queue, QueueSteps(r, w, turns), r.table)
    decreases |turns|
  {
    if turns != [] {
      var w' := After(r, w, turns[0]);
      var a := QueueStep(r, w, turns[0]);
      OneQueueStep(r, w, turns[0]);
      QueueRunsAlone(r, w', turns[1..]);
      RunOn(w.queue, a, QueueSteps(r, w', turns[1..]), r.table);
    }
  }

  lemma OneQueueStep(r: Routing, w: World, turn: Turn)
    requires CanTurn(w, turn)
    ensures var a := QueueStep(r, w, turn);
      |a| <= 1 && After(r, w, turn).queue == Run(w.queue, a, r.table) && Feasible(w.queue, a, r.table)
  {
    var a := QueueStep(r, w, turn);
    if a != [] {
      assert a[1..] == [];
      assert Run(w.queue, a, r.table) == Run(Next(w.queue, a[0], r.table), a[1..], r.table);
    }
  }

  /** The time that passes in a schedule. */
  function TimeOf(turns: seq<Turn>): (ns: nat) {
    if turns == [] then 0 else (if turns[0].Pass? then turns[0].ns else 0) + TimeOf(turns[1..])
  }

  lemma {:induction false} QueueTime(r: Routing, w: World, turns: seq<Turn>)
    requires Schedule(r, w, turns)
    ensures TotalDuration(QueueSteps(r, w, turns)) == TimeOf(turns)
    decreases |turns|
  {
    if turns != [] {
      var w' := After(r, w, turns[0]);
      var a, b := QueueStep(r, w, turns[0]), QueueSteps(r, w', turns[1..]);
      QueueTime(r, w', turns[1..]);
      if a == [] {
        assert a + b == b;
      } else {
        assert (a + b)[1..] == b;
      }
    }
  }

  /**
   * A packet that is queued just after its address was learnt leaves too: whatever is known, and however
   * the threads are scheduled, a destination waits at most one second, and one more if its retry is still
   * to come, as long as the queue does not stall.
   */
  lemma LatePacketLeaves(r: Routing, n: nat, before: seq<Turn>, later: seq<Turn>, hop: Ip)
    requires Schedule(r, Start(n), before)
    requires var w := AfterAll(r, Start(n), before);
      && Schedule(r, w, later)
      && NeverStalls(INIT, QueueSteps(r, Start(n), before), r.table)
      && NeverStalls(w.queue, QueueSteps(r, w, later), r.table)
      && WaitsThroughout(w.queue, QueueSteps(r, w, later), r.table, hop)
    ensures var w := AfterAll(r, Start(n), before);
      && Waiting(w.queue, hop)
      && TimeOf(later) <= (2 - w.queue.list[IndexOf(w.queue.list, hop)].retry) * WAIT_MS * NS_PER_MS
  {
    var w := AfterAll(r, Start(n), before);
    QueueRunsAlone(r, Start(n), before);
    QueueRunsAlone(r, w, later);
    InvAfter(INIT, QueueSteps(r, Start(n), before), r.table);
    WaitIsBounded(w.queue, QueueSteps(r, w, later), r.table, hop);
    QueueTime(r, w, later);
  }

  lemma {:induction false} InvAfter(s: State, steps: seq<Step>, table: seq<Config>)
    requires Inv(s) && Feasible(s, steps, table) && NeverStalls(s, steps, table)
    ensures Inv(Run(s, steps, table))
    decreases |steps|
  {
    if steps != [] {
      NextKeepsInvIff(s, steps[0], table);
      InvAfter(Next(s, steps[0], table), steps[1..], table);
    }
  }

  // ---------------------------------------------------------------- no packet is lost or doubled

  /** How often `q` is among the packets. */
  function Times(pkts: seq<Packet>, q: Packet): (n: nat) {
    if pkts == [] then 0 else Times(pkts[..|pkts| - 1], q) + One(pkts[|pkts| - 1], q)
  }

  function One(p: Packet, q: Packet): (n: nat) {
    if p == q then 1 else 0
  }

  function InHandOf(pc: Pc, q: Packet): (n: nat) {
    match pc
    case Idle => 0
    case Testing(p) => One(p, q)
    case Queueing(p, _) => One(p, q)
    case Writing(p, _) => One(p, q)
    case Learnt(_) => 0
    case Releasing(_, pkts) => Times(pkts, q)
    case Requeueing(_, pkts) => Times(pkts, q)
    case Rewriting(_, pkts) => Times(pkts, q)
  }

  /** How often threads have `q` in hand. */
  function InHand(threads: seq<Pc>, q: Packet): (n: nat) {
    if threads == [] then 0 else InHandOf(threads[0], q) + InHand(threads[1..], q)
  }

  /** How often it waits. */
  function InQueue(list: seq<Node>, q: Packet): (n: nat) {
    if list == [] then 0 else Times(list[0].pkts, q) + InQueue(list[1..], q)
  }

  /** How often the handler gave it up. */
  function GivenUp(gone: seq<Departure>, q: Packet): (n: nat) {
    if gone == [] then 0
    else
      var last := gone[|gone| - 1];
      GivenUp(gone[..|gone| - 1], q) + if last.fate == Discarded then One(last.pkt, q) else 0
  }

  /** How often it came to the end of `send_ipv4`. */
  function OutDoor(written: seq<Written>, q: Packet): (n: nat) {
    if written == [] then 0 else OutDoor(written[..|written| - 1], q) + One(written[|written| - 1].p, q)
  }

  /** It is in as many places as often it was taken on. */
  predicate Balanced(w: World, q: Packet) {
    Times(w.taken, q) ==
      InHand(w.threads, q) + InQueue(w.queue.list, q) + GivenUp(w.queue.gone, q) + OutDoor(w.written, q)
  }

  lemma TimesOneMore(pkts: seq<Packet>, p: Packet, q: Packet)
    ensures Times(pkts + [p], q) == Times(pkts, q) + One(p, q)
  {
    assert (pkts + [p])[..|pkts|] == pkts;
  }

  lemma {:induction false} TimesFirst(pkts: seq<Packet>, q: Packet)
    requires pkts != []
    ensures Times(pkts, q) == One(pkts[0], q) + Times(pkts[1..], q)
  {
    var n := |pkts| - 1;
    if n == 0 {
      assert pkts[..0] == [] && pkts[1..] == [];
    } else {
      TimesFirst(pkts[..n], q);
      assert pkts[..n][1..] == pkts[1..][..n - 1];
    }
  }

  lemma {:induction false} InHandUpdate(threads: seq<Pc>, t: nat, pc: Pc, q: Packet)
    requires t < |threads|
    ensures InHand(threads[t := pc], q) + InHandOf(threads[t], q) == InHand(threads, q) + InHandOf(pc, q)
  {
    var r := threads[t := pc];
    if t == 0 {
      assert r[1..] == threads[1..];
    } else {
      assert r[1..] == threads[1..][t - 1 := pc] && r[0] == threads[0];
      InHandUpdate(threads[1..], t - 1, pc, q);
    }
  }

  lemma {:induction false} InQueueAppend(a: seq<Node>, b: seq<Node>, q: Packet)
    ensures InQueue(a + b, q) == InQueue(a, q) + InQueue(b, q)
  {
    if a == [] {
      assert a + b == b;
    } else {
      assert (a + b)[1..] == a[1..] + b;
      InQueueAppend(a[1..], b, q);
    }
  }

  lemma InQueueOne(n: Node, q: Packet)
    ensures InQueue([n], q) == Times(n.pkts, q)
  {
    assert [n][1..] == [];
  }

  lemma InQueueSplit(list: seq<Node>, i: nat, q: Packet)
    requires i < |list|
    ensures InQueue(list, q) == InQueue(list[..i], q) + Times(list[i].pkts, q) + InQueue(list[i + 1..], q)
  {
    assert list == list[..i] + ([list[i]] + list[i + 1..]);
    InQueueAppend(list[..i], [list[i]] + list[i + 1..], q);
    InQueueAppend([list[i]], list[i + 1..], q);
    InQueueOne(list[i], q);
  }

  /** Delays do not count. */
  lemma {:induction false} InQueueSame(a: seq<Node>, b: seq<Node>, q: Packet)
    requires |a| == |b| && forall i :: 0 <= i < |a| ==> a[i].pkts == b[i].pkts
    ensures InQueue(a, q) == InQueue(b, q)
  {
    if a != [] {
      InQueueSame(a[1..], b[1..], q);
    }
  }

  lemma AddTakesOne(s: State, p: Packet, intId: nat, hop: Ip, q: Packet)
    ensures InQueue(AddPacket(s, p, intId, hop).list, q) == InQueue(s.list, q) + One(p, q)
    ensures AddPacket(s, p, intId, hop).gone == s.gone
  {
    var i := IndexOf(s.list, hop);
    var r := AddPacket(s, p, intId, hop).list;
    if i < |s.list| {
      InQueueSplit(s.list, i, q);
      InQueueSplit(r, i, q);
      assert r[..i] == s.list[..i] && r[i + 1..] == s.list[i + 1..];
      TimesOneMore(s.list[i].pkts, p, q);
    } else {
      var n := Node(TailDelay(s.list), hop, [p], 0);
      InQueueAppend(s.list, [n], q);
      InQueueOne(n, q);
      TimesOneMore([], p, q);
      assert [] + [p] == [p];
    }
  }

  /** A queue's departures count when they are discarded. */
  lemma {:induction false} DeparturesCount(gone: seq<Departure>, ip: Ip, pkts: seq<Packet>, fate: Fate, q: Packet)
    ensures GivenUp(gone + Departures(ip, pkts, fate), q)
      == GivenUp(gone, q) + if fate == Discarded then Times(pkts, q) else 0
    decreases |pkts|
  {
    var all := gone + Departures(ip, pkts, fate);
    if pkts == [] {
      assert all == gone;
    } else {
      var n := |pkts| - 1;
      DeparturesCount(gone, ip, pkts[..n], fate, q);
      assert all[..|all| - 1] == gone + Departures(ip, pkts[..n], fate);
      assert all[|all| - 1] == Departure(ip, pkts[n], fate);
    }
  }

  lemma ResolveHandsOut(s: State, hop: Ip, q: Packet)
    ensures InQueue(s.list, q) == InQueue(Resolve(s, hop).list, q) + Times(ResolvedPackets(s, hop), q)
    ensures GivenUp(Resolve(s, hop).gone, q) == GivenUp(s.gone, q)
  {
    var i := IndexOf(s.list, hop);
    if i < |s.list| {
      UnlinkElements(s.list, i);
      InQueueSplit(s.list, i, q);
      InQueueAppend(s.list[..i], s.list[i + 1..], q);
      InQueueSame(Unlink(s.list, i), s.list[..i] + s.list[i + 1..], q);
      DeparturesCount(s.gone, hop, s.list[i].pkts, Released, q);
    }
  }

  lemma DrainStepMoves(d: Drained, table: seq<Config>, q: Packet)
    requires d.list != []
    ensures var r := DrainStep(d, table);
      InQueue(r.list, q) + GivenUp(r.gone, q) == InQueue(d.list, q) + GivenUp(d.gone, q)
  {
    var n, rest := d.list[0], d.list[1..];
    if n.retry >= 1 {
      DeparturesCount(d.gone, n.ip, n.pkts, Discarded, q);
    } else {
      var m := n.(msec := TailDelay(rest), retry := n.retry + 1);
      InQueueAppend(rest, [m], q);
      InQueueOne(m, q);
    }
  }

  lemma {:induction false} DrainMoves(d: Drained, table: seq<Config>, q: Packet)
    ensures var r := Drain(d, table);
      InQueue(r.list, q) + GivenUp(r.gone, q) == InQueue(d.list, q) + GivenUp(d.gone, q)
    decreases Budget(d.list)
  {
    if d.list != [] && d.list[0].msec == 0 {
      DrainStepMoves(d, table, q);
      DrainMoves(DrainStep(d, table), table, q);
    }
  }

  lemma TickMoves(s: State, table: seq<Config>, q: Packet)
    ensures var r := Tick(s, table);
      InQueue(r.list, q) + GivenUp(r.gone, q) == InQueue(s.list, q) + GivenUp(s.gone, q)
  {
    if s.list != [] {
      var due := s.list[0 := s.list[0].(msec := 0)];
      InQueueSame(s.list, due, q);
      DrainMoves(Drained(due, s.requests, s.gone), table, q);
    }
  }

  lemma OutDoorOne(written: seq<Written>, x: Written, q: Packet)
    ensures OutDoor(written + [x], q) == OutDoor(written, q) + One(x.p, q)
  {
    assert (written + [x])[..|written|] == written;
  }

  // What a step moves: into a thread's hands, from the queue, to the queue, out of the door.

  function Taking(pc: Pc, input: Input, q: Packet): (n: nat)
    requires input.Send? ==> WellFormed(input.p)
  {
    if pc.Idle? && input.Send? then One(Rewritten(input.p), q) else 0
  }

  function FromQueue(queue: State, pc: Pc, q: Packet): (n: nat) {
    if pc.Learnt? then Times(ResolvedPackets(queue, pc.hop), q) else 0
  }

  function ToQueue(pc: Pc, q: Packet): (n: nat) {
    if pc.Queueing? then One(pc.p, q) else if pc.Requeueing? && pc.pkts != [] then One(pc.pkts[0], q) else 0
  }

  function ToDoor(pc: Pc, q: Packet): (n: nat) {
    if pc.Writing? then One(pc.p, q) else if pc.Rewriting? && pc.pkts != [] then One(pc.pkts[0], q) else 0
  }

  lemma TakenMoves(r: Routing, w: World, t: nat, input: Input, q: Packet)
    requires CanTurn(w, Thread(t, input))
    ensures Times(Advance(r, w, t, input).taken, q) == Times(w.taken, q) + Taking(w.threads[t], input, q)
  {
    if w.threads[t].Idle? && input.Send? {
      TimesOneMore(w.taken, Rewritten(input.p), q);
    }
  }

  lemma QueueMoves(r: Routing, w: World, t: nat, input: Input, q: Packet)
    requires CanTurn(w, Thread(t, input))
    ensures var s, pc := Advance(r, w, t, input), w.threads[t];
      InQueue(s.queue.list, q) + GivenUp(s.queue.gone, q) + FromQueue(w.queue, pc, q)
        == InQueue(w.queue.list, q) + GivenUp(w.queue.gone, q) + ToQueue(pc, q)
  {
    match w.threads[t]
    case Queueing(p, hop) => AddTakesOne(w.queue, p, IntOf(r, p), hop, q);
    case Learnt(hop) => ResolveHandsOut(w.queue, hop, q);
    case Requeueing(hop, pkts) =>
      if pkts != [] {
        AddTakesOne(w.queue, pkts[0], IntOf(r, pkts[0]), HopOf(r, pkts[0]), q);
      }
    case _ =>
  }

  lemma DoorMoves(r: Routing, w: World, t: nat, input: Input, q: Packet)
    requires CanTurn(w, Thread(t, input))
    ensures OutDoor(Advance(r, w, t, input).written, q) == OutDoor(w.written, q) + ToDoor(w.threads[t], q)
  {
    match w.threads[t]
    case Writing(p, hop) => OutDoorOne(w.written, Written(p, hop, MacOf(w, hop)), q);
    case Rewriting(hop, pkts) =>
      if pkts != [] {
        OutDoorOne(w.written, Written(pkts[0], HopOf(r, pkts[0]), MacOf(w, HopOf(r, pkts[0]))), q);
      }
    case _ =>
  }

  lemma HandMoves(r: Routing, w: World, t: nat, input: Input, q: Packet)
    requires CanTurn(w, Thread(t, input))
    ensures var s, pc := Advance(r, w, t, input), w.threads[t];
      && s.threads == w.threads[t := s.threads[t]]
      && InHandOf(s.threads[t], q) + ToQueue(pc, q) + ToDoor(pc, q)
        == InHandOf(pc, q) + Taking(pc, input, q) + FromQueue(w.queue, pc, q)
  {
    match w.threads[t]
    case Requeueing(_, pkts) =>
      if pkts != [] {
        TimesFirst(pkts, q);
      }
    case Rewriting(_, pkts) =>
      if pkts != [] {
        TimesFirst(pkts, q);
      }
    case _ =>
  }

  lemma AdvanceBalances(r: Routing, w: World, t: nat, input: Input, q: Packet)
    requires Balanced(w, q) && CanTurn(w, Thread(t, input))
    ensures Balanced(Advance(r, w, t, input), q)
  {
    TakenMoves(r, w, t, input, q);
    QueueMoves(r, w, t, input, q);
    DoorMoves(r, w, t, input, q);
    HandMoves(r, w, t, input, q);
    InHandUpdate(w.threads, t, Advance(r, w, t, input).threads[t], q);
  }

  lemma TurnBalances(r: Routing, w: World, turn: Turn, q: Packet)
    requires Balanced(w, q) && CanTurn(w, turn)
    ensures Balanced(After(r, w, turn), q)
  {
    match turn
    case Thread(t, input) => AdvanceBalances(r, w, t, input, q);
    case Tock => TickMoves(w.queue, r.table, q);
    case Pass(_) =>
  }

  lemma {:induction false} ScheduleBalances(r: Routing, w: World, turns: seq<Turn>, q: Packet)
    requires Balanced(w, q) && Schedule(r, w, turns)
    ensures Balanced(AfterAll(r, w, turns), q)
    decreases |turns|
  {
    if turns != [] {
      TurnBalances(r, w, turns[0], q);
      ScheduleBalances(r, After(r, w, turns[0]), turns[1..], q);
    }
  }

  lemma {:induction false} NothingInHand(threads: seq<Pc>, q: Packet)
    requires forall t :: 0 <= t < |threads| ==> threads[t] == Idle
    ensures InHand(threads, q) == 0
  {
    if threads != [] {
      NothingInHand(threads[1..], q);
    }
  }

  /**
   * Under every interleaving, each packet that was given to `send_ipv4` is in exactly one place: in a
   * thread's hands, in the wait queue, given up, or through the end of `send_ipv4`.
   */
  lemma EveryPacketIsSomewhere(r: Routing, n: nat, turns: seq<Turn>, q: Packet)
    requires Schedule(r, Start(n), turns)
    ensures Balanced(AfterAll(r, Start(n), turns), q)
  {
    NothingInHand(Start(n).threads, q);
    ScheduleBalances(r, Start(n), turns, q);
  }

  // ---------------------------------------------------------------- a thread that is not disturbed

  const NOTHING := Hear(ZERO_IP, ZERO_MAC)

  /** `n` steps of thread `t`, while it is busy. */
  function Alone(r: Routing, w: World, t: nat, n: nat): (s: World)
    requires t < |w.threads|
    ensures |s.threads| == |w.threads|
    decreases n
  {
    if n == 0 then w else Alone(r, Advance(r, w, t, NOTHING), t, n - 1)
  }

  /** Steps of thread `t` alone lead from one world to the other. */
  ghost predicate LeadsTo(r: Routing, w: World, t: nat, s: World) {
    t < |w.threads| && |s.threads| == |w.threads| && exists n: nat :: Alone(r, w, t, n) == s
  }

  lemma {:induction false} AloneOn(r: Routing, w: World, t: nat, m: nat, n: nat)
    requires t < |w.threads|
    ensures Alone(r, w, t, m + n) == Alone(r, Alone(r, w, t, m), t, n)
    decreases m
  {
    if m > 0 {
      AloneOn(r, Advance(r, w, t, NOTHING), t, m - 1, n);
    }
  }

  lemma LeadsOn(r: Routing, w: World, b: World, s: World, t: nat)
    requires LeadsTo(r, w, t, b) && LeadsTo(r, b, t, s)
    ensures LeadsTo(r, w, t, s)
  {
    var m: nat :| Alone(r, w, t, m) == b;
    var n: nat :| Alone(r, b, t, n) == s;
    AloneOn(r, w, t, m, n);
    assert Alone(r, w, t, m + n) == s;
  }

  lemma OneStep(r: Routing, w: World, t: nat) returns (s: World)
    requires t < |w.threads|
    ensures s == Advance(r, w, t, NOTHING) && LeadsTo(r, w, t, s)
  {
    s := Advance(r, w, t, NOTHING);
    assert Alone(r, w, t, 1) == Alone(r, s, t, 0) == s;
  }

  /** The frames for what was written. */
  function FramesOf(r: Routing, written: seq<Written>): (f: seq<Frame>) {
    if written == [] then [] else FramesFor(r, written[0].p, written[0].mac) + FramesOf(r, written[1..])
  }

  lemma FramesOfOne(r: Routing, x: Written)
    ensures FramesOf(r, [x]) == FramesFor(r, x.p, x.mac)
  {
    assert [x][1..] == [];
  }

  /** The steps of an undisturbed `send_ipv4`. */
  lemma SendSteps(r: Routing, w: World, t: nat, p: Packet) returns (s: World)
    requires t < |w.threads| && w.threads[t] == Idle && WellFormed(p)
    ensures LeadsTo(r, Receive(w, t, Send(p)), t, s) && s.threads[t] == Idle && s.known == w.known
    ensures var hop := NextHop(r, DstIp(p));
      if hop in w.known then s.queue == w.queue && s.written == w.written + [Written(Rewritten(p), hop, w.known[hop])]
      else s.queue == AddPacket(w.queue, Rewritten(p), IntFor(r, DstIp(p)), hop) && s.written == w.written
  {
    RewrittenIsRouted(r, p);
    var a := Receive(w, t, Send(p));
    var b := OneStep(r, a, t);
    s := OneStep(r, b, t);
    LeadsOn(r, a, b, s, t);
  }

  /** An undisturbed `send_ipv4` does to the queue and the wire exactly what it is meant to do. */
  lemma SendAlone(r: Routing, w: World, t: nat, p: Packet, frames: seq<Frame>) returns (s: World)
    requires t < |w.threads| && w.threads[t] == Idle && WellFormed(p)
    ensures LeadsTo(r, Receive(w, t, Send(p)), t, s)
    ensures s.threads[t] == Idle && s.known == w.known && w.written <= s.written
    ensures (s.queue, frames + FramesOf(r, s.written[|w.written|..])) == AfterSend(r, w.known, w.queue, frames, p)
  {
    s := SendSteps(r, w, t, p);
    var hop := NextHop(r, DstIp(p));
    if hop in w.known {
      FramesOfOne(r, Written(Rewritten(p), hop, w.known[hop]));
      assert s.written[|w.written|..] == [Written(Rewritten(p), hop, w.known[hop])];
    } else {
      assert s.written[|w.written|..] == [];
      assert frames + [] == frames;
    }
  }

  /** The packets of a released queue, written in order to one MAC. */
  function WrittenAll(pkts: seq<Packet>, hop: Ip, mac: Mac): (w: seq<Written>)
    ensures |w| == |pkts| && forall j :: 0 <= j < |w| ==> w[j] == Written(pkts[j], hop, mac)
  {
    seq(|pkts|, j requires 0 <= j < |pkts| => Written(pkts[j], hop, mac))
  }

  /** One packet of a released queue: the test, and the write. */
  lemma OneReleased(r: Routing, w: World, t: nat, hop: Ip, pkts: seq<Packet>) returns (b: World)
    requires t < |w.threads| && w.threads[t] == Releasing(hop, pkts) && hop in w.known
    requires pkts != [] && RoutedTo(r, pkts[0], hop)
    ensures LeadsTo(r, w, t, b)
    ensures b.threads[t] == Releasing(hop, pkts[1..]) && b.known == w.known && b.queue == w.queue
    ensures b.written == w.written + [Written(pkts[0], hop, w.known[hop])]
  {
    var a := OneStep(r, w, t);
    b := OneStep(r, a, t);
    LeadsOn(r, w, a, b, t);
  }

  lemma {:induction false} ReleaseAlone(r: Routing, w: World, t: nat, hop: Ip, pkts: seq<Packet>) returns (s: World)
    requires t < |w.threads| && w.threads[t] == Releasing(hop, pkts) && hop in w.known
    requires NodeRouted(r, Node(0, hop, pkts, 0))
    ensures LeadsTo(r, w, t, s) && s.threads[t] == Idle && s.known == w.known && s.queue == w.queue
    ensures s.written == w.written + WrittenAll(pkts, hop, w.known[hop])
    decreases |pkts|
  {
    if pkts == [] {
      s := OneStep(r, w, t);
    } else {
      RestRouted(r, hop, pkts);
      var b := OneReleased(r, w, t, hop, pkts);
      s := ReleaseAlone(r, b, t, hop, pkts[1..]);
      LeadsOn(r, w, b, s, t);
      FirstWritten(pkts, hop, w.known[hop], w.written);
    }
  }

  lemma FirstWritten(pkts: seq<Packet>, hop: Ip, mac: Mac, before: seq<Written>)
    requires pkts != []
    ensures before + [Written(pkts[0], hop, mac)] + WrittenAll(pkts[1..], hop, mac)
      == before + WrittenAll(pkts, hop, mac)
  {
  }

  /**
   * An undisturbed `arp_handle` writes every packet that waits for the sender, in its order, to the MAC just
   * learnt.
   */
  lemma ArpAlone(r: Routing, w: World, t: nat, ip: Ip, mac: Mac) returns (s: World)
    requires t < |w.threads| && w.threads[t] == Idle && QueueRouted(r, w.queue.list) && GoodList(w.queue.list)
    ensures LeadsTo(r, Receive(w, t, Arp(ip, mac)), t, s) && s.threads[t] == Idle
    ensures s.known == w.known[ip := mac] && s.queue == Resolve(w.queue, ip)
    ensures s.written == w.written + WrittenAll(Queued(w.queue.list, ip), ip, mac)
  {
    var a := Receive(w, t, Arp(ip, mac));
    var b := OneStep(r, a, t);
    ResolvedIsQueued(w.queue, ip);
    ResolveRouted(r, w.queue, ip);
    s := ReleaseAlone(r, b, t, ip, ResolvedPackets(w.queue, ip));
    LeadsOn(r, a, b, s, t);
  }
}
