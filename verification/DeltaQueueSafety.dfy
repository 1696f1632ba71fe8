/** What every step of the ARP wait queue keeps. */
module DeltaQueueSafety {
  import opened Net
  import opened Interfaces
  import opened DeltaQueue

  // ---------------------------------------------------------------- lists

  predicate Distinct(list: seq<Node>) {
    forall i, j :: 0 <= i < j < |list| ==> list[i].ip != list[j].ip
  }

  predicate GoodNodes(list: seq<Node>) {
    forall i :: 0 <= i < |list| ==> list[i].pkts != [] && list[i].retry <= 1
  }

  /** Distinct destinations, no empty packet list, at most one retry, and deltas of at most a second. */
  predicate GoodList(list: seq<Node>) {
    Distinct(list) && GoodNodes(list) && Total(list) <= WAIT_MS
  }

  lemma {:induction false} TotalAppend(a: seq<Node>, b: seq<Node>)
    ensures Total(a + b) == Total(a) + Total(b)
  {
    if a == [] {
      assert a + b == b;
    } else {
      assert (a + b)[1..] == a[1..] + b;
      TotalAppend(a[1..], b);
    }
  }

  lemma TotalSplit(list: seq<Node>, i: nat)
    requires i <= |list|
    ensures Total(list) == Total(list[..i]) + Total(list[i..])
  {
    assert list == list[..i] + list[i..];
    TotalAppend(list[..i], list[i..]);
  }

  lemma TotalOne(n: Node)
    ensures Total([n]) == n.msec
  {
    assert [n][1..] == [];
  }

  /** Unlinking a node that is not the last keeps the sum of the deltas; the last takes its own away. */
  lemma UnlinkTotal(list: seq<Node>, i: nat)
    requires i < |list|
    ensures Total(Unlink(list, i)) == if i + 1 < |list| then Total(list) else Total(list) - list[i].msec
  {
    TotalSplit(list, i);
    if i + 1 < |list| {
      var merged := list[i + 1].(msec := list[i + 1].msec + list[i].msec);
      TotalAppend(list[..i] + [merged], list[i + 2..]);
      TotalAppend(list[..i], [merged]);
      TotalOne(merged);
      assert list[i..][1..] == list[i + 1..] && list[i + 1..][1..] == list[i + 2..];
    } else {
      assert list[i..] == [list[i]];
      TotalOne(list[i]);
    }
  }

  /** The elements of a list after its `i`-th node is unlinked. */
  lemma UnlinkElements(list: seq<Node>, i: nat)
    requires i < |list|
    ensures forall j {:trigger Unlink(list, i)[j]} :: 0 <= j < |list| - 1 ==>
      Unlink(list, i)[j] ==
        if j < i then list[j]
        else if j == i then list[i + 1].(msec := list[i + 1].msec + list[i].msec)
        else list[j + 1]
  {
  }

  lemma UnlinkGood(list: seq<Node>, i: nat)
    requires i < |list| && GoodList(list)
    ensures GoodList(Unlink(list, i))
  {
    UnlinkTotal(list, i);
    var r := Unlink(list, i);
    forall j | 0 <= j < |r|
      ensures r[j].ip == list[if j < i then j else j + 1].ip
      ensures r[j].pkts == list[if j < i then j else j + 1].pkts
      ensures r[j].retry == list[if j < i then j else j + 1].retry
    {
    }
  }

  // ---------------------------------------------------------------- the handler's loop in closed form

  /** Length of the run of due nodes at the front. */
  function DueRun(list: seq<Node>): (k: nat)
    ensures k <= |list|
    ensures forall j :: 0 <= j < k ==> list[j].msec == 0
    ensures k < |list| ==> list[k].msec > 0
  {
    if list == [] || list[0].msec > 0 then 0 else 1 + DueRun(list[1..])
  }

  /** The due nodes that get their one retry: the first waits `first` ms, the others expire with it. */
  function Retried(due: seq<Node>, first: nat): (r: seq<Node>) {
    if due == [] then []
    else if due[0].retry >= 1 then Retried(due[1..], first)
    else [due[0].(msec := first, retry := due[0].retry + 1)] + Retried(due[1..], 0)
  }

  function RetryRequests(due: seq<Node>, table: seq<Config>): (r: seq<ArpRequest>) {
    if due == [] then []
    else if due[0].retry >= 1 then RetryRequests(due[1..], table)
    else [ArpRequest(BestMatch(table, due[0].ip), due[0].ip)] + RetryRequests(due[1..], table)
  }

  function DroppedPackets(due: seq<Node>): (r: seq<Departure>) {
    if due == [] then []
    else if due[0].retry >= 1 then Departures(due[0].ip, due[0].pkts, Discarded) + DroppedPackets(due[1..])
    else DroppedPackets(due[1..])
  }

  /** Each due node handled once: the retried ones follow what was not due. */
  function HandleDueOnce(d: Drained, table: seq<Config>): (r: Drained) {
    var k := DueRun(d.list);
    Drained(d.list[k..] + Retried(d.list[..k], TailDelay(d.list)),
            d.requests + RetryRequests(d.list[..k], table),
            d.gone + DroppedPackets(d.list[..k]))
  }

  /** The delay still missing from a list whose retried part is `late`. */
  function Missing(front: seq<Node>, late: seq<Node>): (m: nat)
    requires Total(front) <= WAIT_MS
  {
    if late == [] then WAIT_MS - Total(front) else 0
  }

  /** What the loop makes of untouched nodes followed by the nodes it re-appended itself. */
  function Outcome(front: seq<Node>, late: seq<Node>, d: Drained, table: seq<Config>): (r: Drained)
    requires Total(front) <= WAIT_MS
  {
    var k := DueRun(front);
    Drained(front[k..] + late + Retried(front[..k], Missing(front, late)),
            d.requests + RetryRequests(front[..k], table),
            d.gone + DroppedPackets(front[..k]))
  }

  lemma DiscardKeepsOutcome(front: seq<Node>, late: seq<Node>, d: Drained, table: seq<Config>)
    requires d.list == front + late && Total(front) <= WAIT_MS
    requires front != [] && front[0].msec == 0 && front[0].retry >= 1
    ensures var d' := DrainStep(d, table);
      d'.list == front[1..] + late && Outcome(front, late, d, table) == Outcome(front[1..], late, d', table)
  {
    var k := DueRun(front);
    assert front[..k][1..] == front[1..][..k - 1];
    Associate(d.gone, Departures(front[0].ip, front[0].pkts, Discarded), DroppedPackets(front[1..][..k - 1]));
  }

  lemma RetryKeepsList(front: seq<Node>, late: seq<Node>)
    requires Total(front) <= WAIT_MS && front != [] && front[0].msec == 0 && front[0].retry == 0
    ensures var k := DueRun(front);
      var first := Missing(front, late);
      var again := front[0].(msec := first, retry := 1);
      front[k..] + late + Retried(front[..k], first)
      == front[1..][k - 1..] + (late + [again]) + Retried(front[1..][..k - 1], 0)
  {
    var k := DueRun(front);
    var again := front[0].(msec := Missing(front, late), retry := 1);
    assert front[..k][1..] == front[1..][..k - 1] && front[..k][0] == front[0];
    Associate(front[k..] + late, [again], Retried(front[1..][..k - 1], 0));
    Associate(front[k..], late, [again]);
  }

  lemma RetryKeepsLogs(front: seq<Node>, d: Drained, table: seq<Config>)
    requires d.list != [] && front != [] && d.list[0] == front[0] && front[0].msec == 0 && front[0].retry == 0
    ensures var d' := DrainStep(d, table);
      var k := DueRun(front);
      && d.requests + RetryRequests(front[..k], table) == d'.requests + RetryRequests(front[1..][..k - 1], table)
      && d.gone + DroppedPackets(front[..k]) == d'.gone + DroppedPackets(front[1..][..k - 1])
  {
    var k := DueRun(front);
    assert front[..k][1..] == front[1..][..k - 1] && front[..k][0] == front[0];
    Associate(d.requests, [ArpRequest(BestMatch(table, front[0].ip), front[0].ip)],
              RetryRequests(front[1..][..k - 1], table));
  }

  lemma RetryDelay(front: seq<Node>, late: seq<Node>)
    requires Total(front) <= WAIT_MS && front != [] && front[0].msec == 0
    requires late != [] ==> Total(late) == WAIT_MS - Total(front)
    ensures TailDelay(front[1..] + late) == Missing(front, late)
  {
    TotalAppend(front[1..], late);
  }

  lemma RetryStepList(front: seq<Node>, late: seq<Node>, d: Drained, table: seq<Config>)
    requires d.list == front + late && front != [] && front[0].retry == 0
    ensures DrainStep(d, table).list
         == front[1..] + (late + [front[0].(msec := TailDelay(front[1..] + late), retry := 1)])
  {
    assert d.list[1..] == front[1..] + late && d.list[0] == front[0];
    Associate(front[1..], late, [front[0].(msec := TailDelay(front[1..] + late), retry := 1)]);
  }

  lemma RetryRound(front: seq<Node>, late: seq<Node>, d: Drained, table: seq<Config>)
    requires d.list == front + late && Total(front) <= WAIT_MS
    requires late != [] ==> late[0].msec == Total(late) == WAIT_MS - Total(front)
    requires front != [] && front[0].msec == 0 && front[0].retry == 0
    ensures var d' := DrainStep(d, table);
      var late' := late + [front[0].(msec := Missing(front, late), retry := 1)];
      && d'.list == front[1..] + late'
      && late'[0].msec == Total(late') == WAIT_MS - Total(front[1..])
      && Outcome(front, late, d, table) == Outcome(front[1..], late', d', table)
  {
    var again := front[0].(msec := Missing(front, late), retry := 1);
    RetryDelay(front, late);
    RetryStepList(front, late, d, table);
    RetryKeepsList(front, late);
    RetryKeepsLogs(front, d, table);
    TotalAppend(late, [again]);
    TotalOne(again);
  }

  /** The loop stops before it meets a node it re-appended. */
  lemma {:induction false} DrainInvariant(front: seq<Node>, late: seq<Node>, d: Drained, table: seq<Config>)
    requires d.list == front + late && Total(front) <= WAIT_MS
    requires late != [] ==> late[0].msec == Total(late) == WAIT_MS - Total(front)
    ensures Drain(d, table) == Outcome(front, late, d, table)
    decreases |front|
  {
    if front == [] {
      assert d.list == late;
    } else if front[0].msec > 0 {
      assert front[..0] == [] && front[0..] == front;
    } else {
      assert d.list[0] == front[0];
      var d' := DrainStep(d, table);
      if front[0].retry >= 1 {
        DiscardKeepsOutcome(front, late, d, table);
        DrainInvariant(front[1..], late, d', table);
      } else {
        var again := front[0].(msec := Missing(front, late), retry := 1);
        RetryRound(front, late, d, table);
        DrainInvariant(front[1..], late + [again], d', table);
      }
    }
  }

  lemma Associate<T>(a: seq<T>, b: seq<T>, c: seq<T>)
    ensures a + (b + c) == a + b + c
  {
  }

  /**
   * When the deltas sum to at most a second, the handler's loop handles exactly the nodes that were due
   * when it started, each of them once.
   */
  lemma DrainHandlesEachDueNodeOnce(d: Drained, table: seq<Config>)
    requires Total(d.list) <= WAIT_MS
    ensures Drain(d, table) == HandleDueOnce(d, table)
  {
    assert d.list + [] == d.list;
    DrainInvariant(d.list, [], d, table);
    var k := DueRun(d.list);
    assert d.list[k..] + [] + Retried(d.list[..k], TailDelay(d.list))
        == d.list[k..] + Retried(d.list[..k], TailDelay(d.list));
  }

  // ---------------------------------------------------------------- the invariant

  /** A waiting packet always has a running timer or a tick on its way, and no delta sum exceeds a second. */
  predicate Inv(s: State) {
    && GoodList(s.list)
    && (s.list == [] ==> s.remaining == 0)
    && (s.list != [] ==> s.remaining > 0 || s.pending)
    && (s.list != [] ==> s.remaining <= s.list[0].msec * NS_PER_MS)
  }

  /**
   * The one corner in which the C code stops the clock: the head is resolved while its timer shows
   * exactly whole seconds, the next node has no delay of its own, and no tick is on its way.
   */
  predicate Stalls(s: State, dst: Ip) {
    && |s.list| >= 2 && s.list[0].ip == dst
    && s.remaining % NS_PER_SEC == 0 && s.list[1].msec == 0 && !s.pending
  }

  lemma AddKeepsGood(s: State, pkt: Packet, intId: nat, dst: Ip)
    requires GoodList(s.list)
    ensures GoodList(AddPacket(s, pkt, intId, dst).list)
  {
    var i := IndexOf(s.list, dst);
    if i < |s.list| {
      SameMsecSameTotal(s.list, s.list[i := s.list[i].(pkts := s.list[i].pkts + [pkt])]);
    } else {
      var n := Node(TailDelay(s.list), dst, [pkt], 0);
      TotalAppend(s.list, [n]);
      TotalOne(n);
    }
  }

  lemma AddKeepsInv(s: State, pkt: Packet, intId: nat, dst: Ip)
    requires Inv(s)
    ensures Inv(AddPacket(s, pkt, intId, dst))
  {
    AddKeepsGood(s, pkt, intId, dst);
  }

  lemma {:induction false} SameMsecSameTotal(a: seq<Node>, b: seq<Node>)
    requires |a| == |b| && forall i :: 0 <= i < |a| ==> a[i].msec == b[i].msec
    ensures Total(a) == Total(b)
  {
    if a != [] {
      SameMsecSameTotal(a[1..], b[1..]);
    }
  }

  /** Resolving keeps the invariant in every case but the one above. */
  lemma ResolveKeepsInvIff(s: State, dst: Ip)
    requires Inv(s)
    ensures Inv(Resolve(s, dst)) <==> !Stalls(s, dst)
  {
    var i := IndexOf(s.list, dst);
    if i < |s.list| {
      UnlinkGood(s.list, i);
      if i == 0 && |s.list| >= 2 {
        assert Total(s.list) == s.list[0].msec + Total(s.list[1..]);
        assert s.list[1..][0] == s.list[1];
      }
    }
  }

  lemma DrainStepKeepsGood(d: Drained, table: seq<Config>)
    requires GoodList(d.list) && d.list != []
    ensures GoodList(DrainStep(d, table).list)
  {
    var n := d.list[0];
    var rest := d.list[1..];
    if n.retry == 0 {
      var again := n.(msec := TailDelay(rest), retry := 1);
      TotalAppend(rest, [again]);
      TotalOne(again);
    }
  }

  lemma {:induction false} DrainKeepsGood(d: Drained, table: seq<Config>)
    requires GoodList(d.list)
    ensures GoodList(Drain(d, table).list)
    decreases Budget(d.list)
  {
    if d.list != [] && d.list[0].msec == 0 {
      DrainStepKeepsGood(d, table);
      DrainKeepsGood(DrainStep(d, table), table);
    }
  }

  lemma ZeroHeadKeepsGood(list: seq<Node>)
    requires GoodList(list) && list != []
    ensures GoodList(list[0 := list[0].(msec := 0)])
    ensures Total(list[0 := list[0].(msec := 0)]) == Total(list[1..])
  {
    assert list[0 := list[0].(msec := 0)][1..] == list[1..];
  }

  /** A tick keeps the invariant whenever it comes. */
  lemma TickKeepsInv(s: State, table: seq<Config>)
    requires Inv(s)
    ensures Inv(Tick(s, table))
  {
    if s.list != [] {
      ZeroHeadKeepsGood(s.list);
      DrainKeepsGood(Drained(s.list[0 := s.list[0].(msec := 0)], s.requests, s.gone), table);
    }
  }

  lemma ElapseKeepsInv(s: State, ns: nat)
    requires Inv(s) && Enabled(s, Wait(ns))
    ensures Inv(Elapse(s, ns))
  {
  }

  /** Every step keeps the invariant, except exactly the stalling resolution. */
  lemma NextKeepsInvIff(s: State, step: Step, table: seq<Config>)
    requires Inv(s) && Enabled(s, step)
    ensures Inv(Next(s, step, table)) <==> !(step.Learn? && Stalls(s, step.dst))
  {
    match step
    case Add(pkt, intId, dst) => AddKeepsInv(s, pkt, intId, dst);
    case Learn(dst) => ResolveKeepsInvIff(s, dst);
    case Alarm => TickKeepsInv(s, table);
    case Wait(ns) => ElapseKeepsInv(s, ns);
  }

  // ---------------------------------------------------------------- due times

  /** Nanoseconds until node `i` is due: what the timer has left plus the deltas after the head. */
  function Due(s: State, i: nat): (ns: nat)
    requires i < |s.list|
  {
    s.remaining + Total(s.list[1..i + 1]) * NS_PER_MS
  }

  /** No node is ever due later than one second from now. */
  lemma DueWithinASecond(s: State, i: nat)
    requires Inv(s) && i < |s.list|
    ensures Due(s, i) <= WAIT_MS * NS_PER_MS
  {
    assert s.list[1..] == s.list[1..i + 1] + s.list[i + 1..];
    TotalAppend(s.list[1..i + 1], s.list[i + 1..]);
  }

  /** The invariant's arithmetic: no clamp binds and no 32-bit product overflows. */
  lemma NoClampNoOverflow(s: State, i: nat)
    requires Inv(s) && i < |s.list|
    ensures TailDelay(s.list) == WAIT_MS - Total(s.list)
    ensures s.list[i].msec * NS_PER_MS < 0x8000_0000
    ensures s.remaining % NS_PER_SEC + s.list[i].msec * NS_PER_MS < 0x8000_0000
  {
    TotalSplit(s.list, i);
    assert Total(s.list[i..]) >= s.list[i].msec;
  }

  // ---------------------------------------------------------------- conservation

  /** Packets that arrived for `ip`, in order. */
  function ArrivedFor(log: seq<Arrival>, ip: Ip): (r: seq<Packet>) {
    if log == [] then []
    else
      var last := log[|log| - 1];
      ArrivedFor(log[..|log| - 1], ip) + if last.ip == ip then [last.pkt] else []
  }

  /** Packets for `ip` that left the queue, in order, released or discarded. */
  function GoneFor(log: seq<Departure>, ip: Ip): (r: seq<Packet>) {
    if log == [] then []
    else
      var last := log[|log| - 1];
      GoneFor(log[..|log| - 1], ip) + if last.ip == ip then [last.pkt] else []
  }

  /** Packets waiting for `ip`. */
  function Queued(list: seq<Node>, ip: Ip): (r: seq<Packet>) {
    if list == [] then []
    else if list[0].ip == ip then list[0].pkts + Queued(list[1..], ip)
    else Queued(list[1..], ip)
  }

  /** Each packet that arrived for `ip` left or waits, once, in its order of arrival. */
  predicate ConservedFor(s: State, ip: Ip) {
    ArrivedFor(s.arrived, ip) == GoneFor(s.gone, ip) + Queued(s.list, ip)
  }

  lemma {:induction false} QueuedAppend(a: seq<Node>, b: seq<Node>, ip: Ip)
    ensures Queued(a + b, ip) == Queued(a, ip) + Queued(b, ip)
  {
    if a == [] {
      assert a + b == b;
    } else {
      assert (a + b)[1..] == a[1..] + b;
      QueuedAppend(a[1..], b, ip);
    }
  }

  lemma {:induction false} QueuedAbsent(list: seq<Node>, ip: Ip)
    requires forall j :: 0 <= j < |list| ==> list[j].ip != ip
    ensures Queued(list, ip) == []
  {
    if list != [] {
      QueuedAbsent(list[1..], ip);
    }
  }

  lemma QueuedOne(n: Node, ip: Ip)
    ensures Queued([n], ip) == if n.ip == ip then n.pkts else []
  {
    assert [n][1..] == [];
  }

  /** In a list of distinct addresses the packets waiting for an address are those of its node. */
  lemma QueuedIsNode(list: seq<Node>, i: nat)
    requires i < |list| && Distinct(list)
    ensures Queued(list, list[i].ip) == list[i].pkts
  {
    QueuedAround(list, i, list[i].ip);
  }

  /** Lists that agree on addresses and packets hold the same packets. */
  lemma {:induction false} QueuedSame(a: seq<Node>, b: seq<Node>, ip: Ip)
    requires |a| == |b|
    requires forall i :: 0 <= i < |a| ==> a[i].ip == b[i].ip && (a[i].ip == ip ==> a[i].pkts == b[i].pkts)
    ensures Queued(a, ip) == Queued(b, ip)
  {
    if a != [] {
      QueuedSame(a[1..], b[1..], ip);
    }
  }

  lemma {:induction false} GoneForDepartures(log: seq<Departure>, from: Ip, pkts: seq<Packet>, fate: Fate, ip: Ip)
    ensures GoneFor(log + Departures(from, pkts, fate), ip)
         == GoneFor(log, ip) + if from == ip then pkts else []
    decreases |pkts|
  {
    var all := log + Departures(from, pkts, fate);
    if pkts == [] {
      assert all == log;
    } else {
      var front := pkts[..|pkts| - 1];
      assert all[..|all| - 1] == log + Departures(from, front, fate);
      GoneForDepartures(log, from, front, fate, ip);
      assert pkts == front + [pkts[|pkts| - 1]];
    }
  }

  lemma AddQueued(s: State, pkt: Packet, intId: nat, dst: Ip, ip: Ip)
    requires Distinct(s.list)
    ensures Queued(AddPacket(s, pkt, intId, dst).list, ip) == Queued(s.list, ip) + if ip == dst then [pkt] else []
  {
    var i := IndexOf(s.list, dst);
    if i == |s.list| {
      var n := Node(TailDelay(s.list), dst, [pkt], 0);
      QueuedAppend(s.list, [n], ip);
      QueuedOne(n, ip);
    } else {
      var n := s.list[i].(pkts := s.list[i].pkts + [pkt]);
      AddToNode(s.list, i, n, ip);
    }
  }

  lemma AddToNode(list: seq<Node>, i: nat, n: Node, ip: Ip)
    requires i < |list| && Distinct(list) && n.ip == list[i].ip
    ensures Queued(list[i := n], ip) == if ip == n.ip then n.pkts else Queued(list, ip)
    ensures ip == n.ip ==> Queued(list, ip) == list[i].pkts
  {
    var r := list[i := n];
    assert r[..i] == list[..i] && r[i + 1..] == list[i + 1..];
    QueuedAround(list, i, ip);
    QueuedAround(r, i, ip);
  }

  lemma AddConserves(s: State, pkt: Packet, intId: nat, dst: Ip, ip: Ip)
    requires Distinct(s.list) && ConservedFor(s, ip)
    ensures ConservedFor(AddPacket(s, pkt, intId, dst), ip)
  {
    AddQueued(s, pkt, intId, dst, ip);
    var r := AddPacket(s, pkt, intId, dst);
    assert r.arrived[..|r.arrived| - 1] == s.arrived;
  }

  lemma UnlinkQueued(list: seq<Node>, i: nat, ip: Ip)
    requires i < |list| && Distinct(list)
    ensures Queued(Unlink(list, i), ip) == if ip == list[i].ip then [] else Queued(list, ip)
  {
    var front, back := list[..i], list[i + 1..];
    var rest := Unlink(list, i)[i..];
    UnlinkElements(list, i);
    assert Unlink(list, i) == front + rest;
    QueuedSame(back, rest, ip);
    QueuedAppend(front, rest, ip);
    QueuedAround(list, i, ip);
  }

  /** The packets for an address before, at and behind a node. */
  lemma QueuedAround(list: seq<Node>, i: nat, ip: Ip)
    requires i < |list| && Distinct(list)
    ensures ip == list[i].ip ==> Queued(list[..i], ip) == [] && Queued(list[i + 1..], ip) == []
    ensures Queued(list, ip) ==
      if ip == list[i].ip then list[i].pkts else Queued(list[..i], ip) + Queued(list[i + 1..], ip)
  {
    assert list == list[..i] + ([list[i]] + list[i + 1..]);
    QueuedAppend(list[..i], [list[i]] + list[i + 1..], ip);
    QueuedAppend([list[i]], list[i + 1..], ip);
    QueuedOne(list[i], ip);
    if ip == list[i].ip {
      QueuedAbsent(list[..i], ip);
      QueuedAbsent(list[i + 1..], ip);
    }
  }

  lemma ResolveConserves(s: State, dst: Ip, ip: Ip)
    requires Distinct(s.list) && ConservedFor(s, ip)
    ensures ConservedFor(Resolve(s, dst), ip)
  {
    var i := IndexOf(s.list, dst);
    if i < |s.list| {
      UnlinkQueued(s.list, i, ip);
      QueuedIsNode(s.list, i);
      GoneForDepartures(s.gone, dst, s.list[i].pkts, Released, ip);
    }
  }

  lemma DrainStepConserves(d: Drained, table: seq<Config>, ip: Ip)
    requires d.list != [] && Distinct(d.list)
    ensures var r := DrainStep(d, table);
      GoneFor(r.gone, ip) + Queued(r.list, ip) == GoneFor(d.gone, ip) + Queued(d.list, ip)
  {
    var n := d.list[0];
    var rest := d.list[1..];
    if n.ip == ip {
      QueuedAbsent(rest, ip);
    }
    if n.retry >= 1 {
      GoneForDepartures(d.gone, n.ip, n.pkts, Discarded, ip);
    } else {
      var again := n.(msec := TailDelay(rest), retry := n.retry + 1);
      QueuedAppend(rest, [again], ip);
      QueuedOne(again, ip);
    }
  }

  lemma {:induction false} DrainConserves(d: Drained, table: seq<Config>, ip: Ip)
    requires GoodList(d.list)
    ensures var r := Drain(d, table);
      GoneFor(r.gone, ip) + Queued(r.list, ip) == GoneFor(d.gone, ip) + Queued(d.list, ip)
    decreases Budget(d.list)
  {
    if d.list != [] && d.list[0].msec == 0 {
      DrainStepKeepsGood(d, table);
      DrainStepConserves(d, table, ip);
      DrainConserves(DrainStep(d, table), table, ip);
    }
  }

  lemma TickConserves(s: State, table: seq<Config>, ip: Ip)
    requires GoodList(s.list) && ConservedFor(s, ip)
    ensures ConservedFor(Tick(s, table), ip)
  {
    if s.list != [] {
      var zeroed := s.list[0 := s.list[0].(msec := 0)];
      ZeroHeadKeepsGood(s.list);
      QueuedSame(s.list, zeroed, ip);
      DrainConserves(Drained(zeroed, s.requests, s.gone), table, ip);
    }
  }

  /** Every step conserves packets, even the stalling one. */
  lemma NextConserves(s: State, step: Step, table: seq<Config>, ip: Ip)
    requires GoodList(s.list) && ConservedFor(s, ip)
    ensures ConservedFor(Next(s, step, table), ip)
    ensures GoodList(Next(s, step, table).list)
  {
    match step
    case Add(pkt, intId, dst) =>
      AddConserves(s, pkt, intId, dst, ip);
      AddKeepsGood(s, pkt, intId, dst);
    case Learn(dst) =>
      ResolveConserves(s, dst, ip);
      var i := IndexOf(s.list, dst);
      if i < |s.list| {
        UnlinkGood(s.list, i);
      }
    case Alarm =>
      TickConserves(s, table, ip);
      if s.list != [] {
        ZeroHeadKeepsGood(s.list);
        DrainKeepsGood(Drained(s.list[0 := s.list[0].(msec := 0)], s.requests, s.gone), table);
      }
    case Wait(_) =>
  }
}
