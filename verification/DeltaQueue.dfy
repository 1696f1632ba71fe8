/**
 * The ARP wait queue of timer.c as a state machine on values: what each locked region of the C code
 * does to the delta list, to the POSIX timer and to the packets.
 */
module DeltaQueue {
  import opened Net
  import opened Interfaces

  const WAIT_MS := 1000
  const NS_PER_MS := 1_000_000
  const NS_PER_SEC := 1_000_000_000

  /** `struct delta_node`: milliseconds after the previous node, the address, its packets, its retries. */
  datatype Node = Node(msec: nat, ip: Ip, pkts: seq<Packet>, retry: nat)

  /** The variable part of an ARP request: the interface it leaves by and the address it asks for. */
  datatype ArpRequest = ArpRequest(intId: Option<nat>, target: Ip)

  datatype Fate = Released | Discarded

  datatype Arrival = Arrival(ip: Ip, pkt: Packet)

  datatype Departure = Departure(ip: Ip, pkt: Packet, fate: Fate)

  /**
   * `remaining` is the timer's it_value in nanoseconds, 0 when it is disarmed; `pending` says that it
   * expired and its handler has not run yet. The three logs record what happened so far.
   */
  datatype State = State(
    list: seq<Node>, remaining: nat, pending: bool,
    requests: seq<ArpRequest>, arrived: seq<Arrival>, gone: seq<Departure>)

  const INIT := State([], 0, false, [], [], [])

  /** Sum of the deltas. */
  function Total(list: seq<Node>): (t: nat) {
    if list == [] then 0 else list[0].msec + Total(list[1..])
  }

  /** Position of the first node for `ip`, or the length of the list. */
  function IndexOf(list: seq<Node>, ip: Ip): (i: nat)
    ensures i <= |list|
    ensures i < |list| ==> list[i].ip == ip
    ensures forall j :: 0 <= j < i ==> list[j].ip != ip
  {
    if list == [] || list[0].ip == ip then 0 else 1 + IndexOf(list[1..], ip)
  }

  /** The delay given to a node appended to `list`, with the clamp of the C code. */
  function TailDelay(list: seq<Node>): (m: nat) {
    if Total(list) > WAIT_MS then 0 else WAIT_MS - Total(list)
  }

  function Departures(ip: Ip, pkts: seq<Packet>, fate: Fate): (d: seq<Departure>)
    ensures |d| == |pkts|
  {
    seq(|pkts|, i requires 0 <= i < |pkts| => Departure(ip, pkts[i], fate))
  }

  // ---------------------------------------------------------------- the three operations

  /** `timer_add_packet`. */
  function AddPacket(s: State, pkt: Packet, intId: nat, dst: Ip): (r: State) {
    var i := IndexOf(s.list, dst);
    var arrived := s.arrived + [Arrival(dst, pkt)];
    if i < |s.list| then
      s.(list := s.list[i := s.list[i].(pkts := s.list[i].pkts + [pkt])], arrived := arrived)
    else
      s.(list := s.list + [Node(TailDelay(s.list), dst, [pkt], 0)],
         remaining := if s.list == [] then NS_PER_SEC else s.remaining,
         requests := s.requests + [ArpRequest(Some(intId), dst)],
         arrived := arrived)
  }

  /** The list without node `i`, whose delta goes to its successor. */
  function Unlink(list: seq<Node>, i: nat): (r: seq<Node>)
    requires i < |list|
    ensures |r| == |list| - 1
  {
    if i + 1 < |list| then
      list[..i] + [list[i + 1].(msec := list[i + 1].msec + list[i].msec)] + list[i + 2..]
    else
      list[..i]
  }

  /**
   * The timer value after node `i` is unlinked. Of the running timer only the nanosecond part is read,
   * so a remaining time of exactly one second counts as none.
   */
  function RemainingAfterUnlink(list: seq<Node>, remaining: nat, i: nat): (ns: nat)
    requires i < |list|
  {
    if i > 0 then remaining
    else if |list| == 1 then 0
    else remaining % NS_PER_SEC + list[1].msec * NS_PER_MS
  }

  /** `timer_update_packets`: the node for `dst` leaves the list and its packets are handed back. */
  function Resolve(s: State, dst: Ip): (r: State) {
    var i := IndexOf(s.list, dst);
    if i == |s.list| then s
    else
      s.(list := Unlink(s.list, i),
         remaining := RemainingAfterUnlink(s.list, s.remaining, i),
         gone := s.gone + Departures(dst, s.list[i].pkts, Released))
  }

  /** The packets `timer_update_packets` hands to `send_ipv4`, in order. */
  function ResolvedPackets(s: State, dst: Ip): (pkts: seq<Packet>) {
    var i := IndexOf(s.list, dst);
    if i == |s.list| then [] else s.list[i].pkts
  }

  /** Handlings left in the list: a bound on the rounds of the handler's loop. */
  function Budget(list: seq<Node>): (b: nat) {
    if list == [] then 0 else (if list[0].retry >= 1 then 1 else 2) + Budget(list[1..])
  }

  lemma {:induction false} BudgetAppend(a: seq<Node>, n: Node)
    ensures Budget(a + [n]) == Budget(a) + if n.retry >= 1 then 1 else 2
  {
    if a == [] {
      assert a + [n] == [n];
    } else {
      assert (a + [n])[1..] == a[1..] + [n];
      BudgetAppend(a[1..], n);
    }
  }

  /** The handler's loop: the part of the state it works on. */
  datatype Drained = Drained(list: seq<Node>, requests: seq<ArpRequest>, gone: seq<Departure>)

  /** One round of the handler's loop. */
  function DrainStep(d: Drained, table: seq<Config>): (r: Drained)
    requires d.list != []
    ensures Budget(r.list) < Budget(d.list)
  {
    var n := d.list[0];
    var rest := d.list[1..];
    if n.retry >= 1 then
      Drained(rest, d.requests, d.gone + Departures(n.ip, n.pkts, Discarded))
    else
      BudgetAppend(rest, n.(msec := TailDelay(rest), retry := n.retry + 1));
      Drained(rest + [n.(msec := TailDelay(rest), retry := n.retry + 1)],
              d.requests + [ArpRequest(BestMatch(table, n.ip), n.ip)],
              d.gone)
  }

  /** The whole loop; it re-appends to the list it consumes. */
  function Drain(d: Drained, table: seq<Config>): (r: Drained)
    ensures r.list == [] || r.list[0].msec > 0
    decreases Budget(d.list)
  {
    if d.list == [] || d.list[0].msec != 0 then d else Drain(DrainStep(d, table), table)
  }

  /** `timer_handler`. It may run late, early, or when nothing is due. */
  function Tick(s: State, table: seq<Config>): (r: State) {
    if s.list == [] then s.(pending := false)
    else
      var d := Drain(Drained(s.list[0 := s.list[0].(msec := 0)], s.requests, s.gone), table);
      s.(list := d.list,
         remaining := if d.list == [] then 0 else d.list[0].msec * NS_PER_MS,
         pending := false,
         requests := d.requests,
         gone := d.gone)
  }

  /** Time passes; a timer that reaches zero expires. */
  function Elapse(s: State, ns: nat): (r: State) {
    if s.remaining == 0 then s
    else if ns < s.remaining then s.(remaining := s.remaining - ns)
    else s.(remaining := 0, pending := true)
  }

  // ---------------------------------------------------------------- runs

  datatype Step =
    | Add(pkt: Packet, intId: nat, dst: Ip)
    | Learn(dst: Ip)
    | Alarm
    | Wait(ns: nat)

  function Next(s: State, step: Step, table: seq<Config>): (r: State) {
    match step
    case Add(pkt, intId, dst) => AddPacket(s, pkt, intId, dst)
    case Learn(dst) => Resolve(s, dst)
    case Alarm => Tick(s, table)
    case Wait(ns) => Elapse(s, ns)
  }

  /** Time stands still while an expired timer waits for its handler, and stops at the next expiry. */
  predicate Enabled(s: State, step: Step) {
    step.Wait? ==> !s.pending && (s.remaining > 0 ==> step.ns <= s.remaining)
  }

  function Run(s: State, steps: seq<Step>, table: seq<Config>): (r: State)
    decreases |steps|
  {
    if steps == [] then s else Run(Next(s, steps[0], table), steps[1..], table)
  }

  predicate Feasible(s: State, steps: seq<Step>, table: seq<Config>)
    decreases |steps|
  {
    steps != [] ==> Enabled(s, steps[0]) && Feasible(Next(s, steps[0], table), steps[1..], table)
  }
}
