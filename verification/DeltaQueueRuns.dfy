/** The ARP wait queue over whole runs: conservation, liveness of the timer, bounded waiting. */
module DeltaQueueRuns {
  import opened Net
  import opened Interfaces
  import opened DeltaQueue
  import opened DeltaQueueSafety

  // ---------------------------------------------------------------- conservation

  /**
   * Over every run, whatever the timing: per destination the packets that arrived are exactly those that
   * left, once each and in order of arrival, followed by those that wait.
   */
  lemma {:induction false} RunConserves(s: State, steps: seq<Step>, table: seq<Config>, ip: Ip)
    requires GoodList(s.list) && ConservedFor(s, ip)
    ensures GoodList(Run(s, steps, table).list) && ConservedFor(Run(s, steps, table), ip)
    decreases |steps|
  {
    if steps != [] {
      NextConserves(s, steps[0], table, ip);
      RunConserves(Next(s, steps[0], table), steps[1..], table, ip);
    }
  }

  lemma EveryRunConserves(steps: seq<Step>, table: seq<Config>, ip: Ip)
    ensures GoodList(Run(INIT, steps, table).list) && ConservedFor(Run(INIT, steps, table), ip)
  {
    RunConserves(INIT, steps, table, ip);
  }

  // ---------------------------------------------------------------- the timer never sleeps

  predicate AlwaysInv(s: State, steps: seq<Step>, table: seq<Config>)
    decreases |steps|
  {
    Inv(s) && (steps != [] ==> AlwaysInv(Next(s, steps[0], table), steps[1..], table))
  }

  predicate NeverStalls(s: State, steps: seq<Step>, table: seq<Config>)
    decreases |steps|
  {
    steps != [] ==>
      && !(steps[0].Learn? && Stalls(s, steps[0].dst))
      && NeverStalls(Next(s, steps[0], table), steps[1..], table)
  }

  /** The invariant holds all along a run exactly when the run avoids the stalling resolution. */
  lemma {:induction false} RunKeepsInvIff(s: State, steps: seq<Step>, table: seq<Config>)
    requires Inv(s) && Feasible(s, steps, table)
    ensures AlwaysInv(s, steps, table) <==> NeverStalls(s, steps, table)
    decreases |steps|
  {
    if steps != [] {
      NextKeepsInvIff(s, steps[0], table);
      var s' := Next(s, steps[0], table);
      if Inv(s') {
        RunKeepsInvIff(s', steps[1..], table);
      }
    }
  }

  // ---------------------------------------------------------------- bounded waiting

  predicate Waiting(s: State, ip: Ip) {
    IndexOf(s.list, ip) < |s.list|
  }

  /** Latest time, in nanoseconds from now, at which the node for `ip` is still in the list. */
  function Deadline(s: State, ip: Ip): (ns: int)
    requires Waiting(s, ip)
  {
    var i := IndexOf(s.list, ip);
    Due(s, i) + (1 - s.list[i].retry) * NS_PER_SEC
  }

  function Duration(step: Step): (ns: nat) {
    if step.Wait? then step.ns else 0
  }

  function TotalDuration(steps: seq<Step>): (ns: nat) {
    if steps == [] then 0 else Duration(steps[0]) + TotalDuration(steps[1..])
  }

  lemma DeadlineBound(s: State, ip: Ip)
    requires Inv(s) && Waiting(s, ip)
    ensures 0 <= Deadline(s, ip) <= (2 - s.list[IndexOf(s.list, ip)].retry) * WAIT_MS * NS_PER_MS
  {
    DueWithinASecond(s, IndexOf(s.list, ip));
  }

  lemma IndexUnder(list: seq<Node>, ip: Ip, i: nat)
    requires i < |list| && Distinct(list) && list[i].ip == ip
    ensures IndexOf(list, ip) == i
  {
  }

  /** A packet added anywhere leaves every waiting node's due time as it is. */
  lemma AddKeepsDeadline(s: State, pkt: Packet, intId: nat, dst: Ip, ip: Ip)
    requires Inv(s) && Waiting(s, ip)
    ensures var r := AddPacket(s, pkt, intId, dst);
      Waiting(r, ip) && Deadline(r, ip) == Deadline(s, ip)
  {
    var r := AddPacket(s, pkt, intId, dst);
    var i := IndexOf(s.list, ip);
    AddKeepsGood(s, pkt, intId, dst);
    IndexUnder(r.list, ip, i);
    SameMsecSameTotal(s.list[1..i + 1], r.list[1..i + 1]);
  }

  /** A tick is on its way or will be. */
  predicate ClockRuns(s: State) {
    s.remaining > 0 || s.pending
  }

  /**
   * Resolving another destination never moves a node's deadline back, and leaves a clock to meet it if and
   * only if it is not the stalling resolution.
   */
  lemma ResolveKeepsDeadline(s: State, dst: Ip, ip: Ip)
    requires Inv(s) && Waiting(s, ip) && dst != ip
    ensures var r := Resolve(s, dst);
      && Waiting(r, ip) && Deadline(r, ip) <= Deadline(s, ip)
      && (ClockRuns(r) <==> !Stalls(s, dst))
  {
    ResolveKeepsInvIff(s, dst);
    var r := Resolve(s, dst);
    var d := IndexOf(s.list, dst);
    var i := IndexOf(s.list, ip);
    if d < |s.list| {
      UnlinkGood(s.list, d);
      var k := if i < d then i else i - 1;
      OthersStay(s, d, i, k);
      IndexUnder(r.list, ip, k);
    }
  }

  function Unlinked(s: State, d: nat): (r: State)
    requires d < |s.list|
  {
    s.(list := Unlink(s.list, d), remaining := RemainingAfterUnlink(s.list, s.remaining, d))
  }

  /** Node `i` is node `k` once another one is unlinked, and due no later. */
  lemma OthersStay(s: State, d: nat, i: nat, k: nat)
    requires d < |s.list| && i < |s.list| && d != i && k == if i < d then i else i - 1
    ensures var r := Unlinked(s, d);
      && k < |r.list| && r.list[k].ip == s.list[i].ip && r.list[k].retry == s.list[i].retry
      && Due(r, k) <= Due(s, i)
  {
    if i < d {
      UnlinkKeepsFront(s.list, d, i);
    } else {
      UnlinkElements(s.list, d);
      UnlinkDue(s, d, i);
    }
  }

  lemma UnlinkKeepsFront(l: seq<Node>, d: nat, i: nat)
    requires i < d < |l|
    ensures Unlink(l, d)[i] == l[i] && Unlink(l, d)[1..i + 1] == l[1..i + 1]
  {
    UnlinkElements(l, d);
    var u := Unlink(l, d);
    assert forall j :: 0 <= j <= i ==> u[j] == l[j];
  }

  function Merged(l: seq<Node>, d: nat): (n: Node)
    requires d + 1 < |l|
  {
    l[d + 1].(msec := l[d + 1].msec + l[d].msec)
  }

  lemma UnlinkSlice(l: seq<Node>, d: nat, i: nat)
    requires 0 < d < i < |l|
    ensures Unlink(l, d)[1..i] == l[1..d] + ([Merged(l, d)] + l[d + 2..i + 1])
  {
    var u := Unlink(l, d);
    UnlinkElements(l, d);
    forall j | 0 <= j < i - 1
      ensures u[1..i][j] == (l[1..d] + ([Merged(l, d)] + l[d + 2..i + 1]))[j]
    {
      assert u[1..i][j] == u[j + 1];
    }
  }

  /** The deltas between the head and a node keep their sum when a node between them is unlinked. */
  lemma UnlinkKeepsSpan(l: seq<Node>, d: nat, i: nat)
    requires 0 < d < i < |l|
    ensures Total(Unlink(l, d)[1..i]) == Total(l[1..i + 1])
  {
    UnlinkSlice(l, d, i);
    TotalAppend(l[1..d], [Merged(l, d)] + l[d + 2..i + 1]);
    TotalAppend([Merged(l, d)], l[d + 2..i + 1]);
    TotalOne(Merged(l, d));
    TotalSlice(l, 1, d, i + 1);
    TotalFirst(l, d, i + 1);
    TotalFirst(l, d + 1, i + 1);
  }

  lemma TotalFirst(l: seq<Node>, a: nat, c: nat)
    requires a < c <= |l|
    ensures Total(l[a..c]) == l[a].msec + Total(l[a + 1..c])
  {
    assert l[a..c][1..] == l[a + 1..c];
  }

  /** The due time of a node behind the one that is unlinked. */
  lemma UnlinkDue(s: State, d: nat, i: nat)
    requires d < i < |s.list|
    ensures Due(Unlinked(s, d), i - 1) <= Due(s, i)
  {
    if d == 0 {
      TotalFirst(s.list, 1, i + 1);
      var u := Unlink(s.list, 0);
      UnlinkElements(s.list, 0);
      forall j | 0 <= j < i - 1
        ensures u[1..i][j] == s.list[2..i + 1][j]
      {
        assert u[1..i][j] == u[j + 1];
      }
      assert u[1..i] == s.list[2..i + 1];
    } else {
      UnlinkKeepsSpan(s.list, d, i);
    }
  }

  lemma TotalSlice(list: seq<Node>, a: nat, b: nat, c: nat)
    requires a <= b <= c <= |list|
    ensures Total(list[a..c]) == Total(list[a..b]) + Total(list[b..c])
  {
    assert list[a..c] == list[a..b] + list[b..c];
    TotalAppend(list[a..b], list[b..c]);
  }

  lemma {:induction false} RetriedNodes(due: seq<Node>, first: nat)
    ensures forall j :: 0 <= j < |Retried(due, first)| ==> Retried(due, first)[j].retry == 1
  {
    if due != [] {
      RetriedNodes(due[1..], if due[0].retry >= 1 then first else 0);
    }
  }

  lemma {:induction false} ZeroTotal(list: seq<Node>)
    requires forall j :: 0 <= j < |list| ==> list[j].msec == 0
    ensures Total(list) == 0
  {
    if list != [] {
      ZeroTotal(list[1..]);
    }
  }

  /** A node that was not due is due no later after the tick than before. */
  lemma NotDueKeepsDue(s: State, table: seq<Config>, i: nat)
    requires Inv(s) && i < |s.list|
    requires var zeroed := s.list[0 := s.list[0].(msec := 0)];
      && DueRun(zeroed) <= i
      && zeroed[DueRun(zeroed)..] <= Tick(s, table).list
    ensures Due(Tick(s, table), i - DueRun(s.list[0 := s.list[0].(msec := 0)])) <= Due(s, i)
  {
    var zeroed := s.list[0 := s.list[0].(msec := 0)];
    var k := DueRun(zeroed);
    var r := Tick(s, table);
    assert k > 0;
    assert r.list[..i - k + 1] == zeroed[k..i + 1];
    assert s.list[1..i + 1] == zeroed[1..k] + zeroed[k..i + 1];
    TotalAppend(zeroed[1..k], zeroed[k..i + 1]);
    ZeroTotal(zeroed[1..k]);
    assert zeroed[k..i + 1][1..] == r.list[1..i - k + 1];
  }

  /** A tick's list: what was not due, then the retried nodes. */
  lemma TickClosedForm(s: State, table: seq<Config>)
    requires Inv(s) && s.list != []
    ensures var zeroed := s.list[0 := s.list[0].(msec := 0)];
      var k := DueRun(zeroed);
      Tick(s, table).list == zeroed[k..] + Retried(zeroed[..k], TailDelay(zeroed))
  {
    var zeroed := s.list[0 := s.list[0].(msec := 0)];
    ZeroHeadKeepsGood(s.list);
    DrainHandlesEachDueNodeOnce(Drained(zeroed, s.requests, s.gone), table);
  }

  /** A destination that still waits after being due had no retry before and has had its one retry now. */
  lemma HandledWasFirstTry(s: State, table: seq<Config>, ip: Ip)
    requires Inv(s) && Waiting(s, ip) && Waiting(Tick(s, table), ip)
    requires IndexOf(s.list, ip) < DueRun(s.list[0 := s.list[0].(msec := 0)])
    ensures s.list[IndexOf(s.list, ip)].retry == 0
    ensures var r := Tick(s, table); r.list[IndexOf(r.list, ip)].retry == 1
  {
    var zeroed := s.list[0 := s.list[0].(msec := 0)];
    var k := DueRun(zeroed);
    var r := Tick(s, table);
    var i := IndexOf(s.list, ip);
    var i' := IndexOf(r.list, ip);
    TickClosedForm(s, table);
    var late := Retried(zeroed[..k], TailDelay(zeroed));
    if i' < |zeroed| - k {
      assert false;
    }
    var j := i' - (|zeroed| - k);
    assert r.list[i'] == late[j];
    RetriedNodes(zeroed[..k], TailDelay(zeroed));
    RetriedHadNone(zeroed[..k], TailDelay(zeroed), j);
    var m :| 0 <= m < k && zeroed[..k][m].retry == 0 && zeroed[..k][m].ip == late[j].ip;
    assert s.list[m].ip == s.list[i].ip;
  }

  lemma TickKeepsDeadline(s: State, table: seq<Config>, ip: Ip)
    requires Inv(s) && Waiting(s, ip) && Waiting(Tick(s, table), ip)
    ensures Deadline(Tick(s, table), ip) <= Deadline(s, ip)
  {
    var zeroed := s.list[0 := s.list[0].(msec := 0)];
    var k := DueRun(zeroed);
    var r := Tick(s, table);
    var i := IndexOf(s.list, ip);
    TickKeepsInv(s, table);
    if i < k {
      HandledWasFirstTry(s, table, ip);
      DueWithinASecond(r, IndexOf(r.list, ip));
    } else {
      TickClosedForm(s, table);
      assert r.list[i - k] == zeroed[i];
      IndexUnder(r.list, ip, i - k);
      NotDueKeepsDue(s, table, i);
    }
  }

  /** A node is re-appended only when it had no retry before. */
  lemma {:induction false} RetriedHadNone(due: seq<Node>, first: nat, j: nat)
    requires j < |Retried(due, first)|
    ensures exists i :: 0 <= i < |due| && due[i].retry == 0 && due[i].ip == Retried(due, first)[j].ip
  {
    if due[0].retry >= 1 {
      RetriedHadNone(due[1..], first, j);
      var i :| 0 <= i < |due[1..]| && due[1..][i].retry == 0 && due[1..][i].ip == Retried(due[1..], first)[j].ip;
      assert due[i + 1].retry == 0;
    } else if j > 0 {
      RetriedHadNone(due[1..], 0, j - 1);
      var i :| 0 <= i < |due[1..]| && due[1..][i].retry == 0 && due[1..][i].ip == Retried(due[1..], 0)[j - 1].ip;
      assert due[i + 1].retry == 0;
    }
  }

  /** Each step uses up at least its own duration of every deadline it leaves standing. */
  lemma NextSpendsDeadline(s: State, step: Step, table: seq<Config>, ip: Ip)
    requires Inv(s) && Enabled(s, step)
    requires Waiting(s, ip) && Waiting(Next(s, step, table), ip)
    ensures Deadline(Next(s, step, table), ip) + Duration(step) <= Deadline(s, ip)
  {
    match step
    case Add(pkt, intId, dst) => AddKeepsDeadline(s, pkt, intId, dst, ip);
    case Learn(dst) =>
      if dst == ip {
        var i := IndexOf(s.list, dst);
        UnlinkGood(s.list, i);
        UnlinkRemoves(s.list, i);
        assert false;
      } else {
        ResolveKeepsDeadline(s, dst, ip);
      }
    case Alarm => TickKeepsDeadline(s, table, ip);
    case Wait(ns) =>
  }

  lemma UnlinkRemoves(list: seq<Node>, i: nat)
    requires i < |list| && Distinct(list)
    ensures IndexOf(Unlink(list, i), list[i].ip) == |list| - 1
  {
    var u := Unlink(list, i);
    forall j | 0 <= j < |u|
      ensures u[j].ip == list[if j < i then j else j + 1].ip
    {
    }
  }

  predicate WaitsThroughout(s: State, steps: seq<Step>, table: seq<Config>, ip: Ip)
    decreases |steps|
  {
    Waiting(s, ip) && (steps != [] ==> WaitsThroughout(Next(s, steps[0], table), steps[1..], table, ip))
  }

  /**
   * As long as a run avoids the stalling resolution, a destination waits at most one second, and one
   * more if its retry is still to come: by then its packets were released or discarded.
   */
  lemma {:induction false} WaitIsBounded(s: State, steps: seq<Step>, table: seq<Config>, ip: Ip)
    requires Inv(s) && Feasible(s, steps, table) && NeverStalls(s, steps, table)
    requires WaitsThroughout(s, steps, table, ip)
    ensures TotalDuration(steps) <= Deadline(s, ip)
    ensures TotalDuration(steps) <= (2 - s.list[IndexOf(s.list, ip)].retry) * WAIT_MS * NS_PER_MS
    decreases |steps|
  {
    DeadlineBound(s, ip);
    if steps != [] {
      NextKeepsInvIff(s, steps[0], table);
      NextSpendsDeadline(s, steps[0], table, ip);
      WaitIsBounded(Next(s, steps[0], table), steps[1..], table, ip);
    }
  }

  /**
   * The corner is reachable: two destinations queued back to back and the first resolved before the clock
   * moves leave the second waiting for as long as one likes.
   */
  lemma StallIsReachable(p: Packet, q: Packet, a: Ip, b: Ip, ns: nat, table: seq<Config>)
    requires a != b
    ensures var steps := [Add(p, 0, a), Add(q, 0, b), Learn(a), Wait(ns)];
      && Feasible(INIT, steps, table)
      && !NeverStalls(INIT, steps, table)
      && Waiting(Run(INIT, steps, table), b)
      && TotalDuration(steps) == ns
  {
    var na := Node(1000, a, [p], 0);
    var nb := Node(0, b, [q], 0);
    var s1 := AddPacket(INIT, p, 0, a);
    assert s1.list == [na];
    TotalOne(na);
    var s2 := AddPacket(s1, q, 0, b);
    assert s2.list == [na, nb];
    var s3 := Resolve(s2, a);
    assert s3.list == [nb.(msec := 1000)] && s3.remaining == 0;
    var s4 := Elapse(s3, ns);
    var steps := [Add(p, 0, a), Add(q, 0, b), Learn(a), Wait(ns)];
    assert steps[1..] == [Add(q, 0, b), Learn(a), Wait(ns)];
    assert steps[1..][1..] == [Learn(a), Wait(ns)];
    assert steps[1..][1..][1..] == [Wait(ns)];
    assert [Wait(ns)][1..] == [];
    assert Run(s3, [Wait(ns)], table) == Run(s4, [], table) == s4;
    assert Run(s2, [Learn(a), Wait(ns)], table) == Run(s3, [Wait(ns)], table);
    assert Feasible(s3, [Wait(ns)], table);
    assert Feasible(s2, [Learn(a), Wait(ns)], table);
    assert !NeverStalls(s2, [Learn(a), Wait(ns)], table);
    assert TotalDuration([Learn(a), Wait(ns)]) == TotalDuration([Wait(ns)]) == ns;
  }

  // ---------------------------------------------------------------- ARP requests

  /** How often `ip` was asked for. */
  function Asked(requests: seq<ArpRequest>, ip: Ip): (n: nat) {
    if requests == [] then 0
    else Asked(requests[..|requests| - 1], ip) + if requests[|requests| - 1].target == ip then 1 else 0
  }

  /** How often a waiting destination should have been asked for since it was queued. */
  function Tries(list: seq<Node>, ip: Ip): (n: nat) {
    var i := IndexOf(list, ip);
    if i == |list| then 0 else 1 + list[i].retry
  }

  lemma AskedOneMore(requests: seq<ArpRequest>, q: ArpRequest, ip: Ip)
    ensures Asked(requests + [q], ip) == Asked(requests, ip) + if q.target == ip then 1 else 0
  {
    assert (requests + [q])[..|requests|] == requests;
  }

  lemma TriesUnder(list: seq<Node>, i: nat, ip: Ip)
    requires i < |list| && Distinct(list) && list[i].ip == ip
    ensures Tries(list, ip) == 1 + list[i].retry
  {
    IndexUnder(list, ip, i);
  }

  lemma TriesAbsent(list: seq<Node>, ip: Ip)
    requires forall j :: 0 <= j < |list| ==> list[j].ip != ip
    ensures Tries(list, ip) == 0 && IndexOf(list, ip) == |list|
  {
  }

  lemma TriesBehindHead(list: seq<Node>, i: nat, ip: Ip)
    requires 0 < i < |list| && Distinct(list) && list[i].ip == ip
    ensures Tries(list, ip) == Tries(list[1..], ip) && IndexOf(list, ip) < |list|
  {
    TriesUnder(list, i, ip);
    assert list[1..][i - 1] == list[i];
    TriesUnder(list[1..], i - 1, ip);
  }

  /** A round of the handler asks for a destination exactly when it counts its retry. */
  lemma DrainStepAsks(d: Drained, table: seq<Config>, ip: Ip)
    requires d.list != [] && Distinct(d.list)
    requires IndexOf(DrainStep(d, table).list, ip) < |DrainStep(d, table).list|
    ensures IndexOf(d.list, ip) < |d.list|
    ensures var r := DrainStep(d, table);
      Asked(r.requests, ip) - Tries(r.list, ip) == Asked(d.requests, ip) - Tries(d.list, ip)
  {
    var n := d.list[0];
    var rest := d.list[1..];
    var i := IndexOf(DrainStep(d, table).list, ip);
    if n.retry >= 1 {
      TriesBehindHead(d.list, i + 1, ip);
    } else {
      AskedOneMore(d.requests, ArpRequest(BestMatch(table, n.ip), n.ip), ip);
      RequeuedTries(d.list, i, ip);
      if i < |rest| {
        TriesBehindHead(d.list, i + 1, ip);
      } else {
        TriesUnder(d.list, 0, ip);
      }
    }
  }

  lemma RequeuedTries(before: seq<Node>, i: nat, ip: Ip)
    requires before != [] && Distinct(before)
    requires var n, rest := before[0], before[1..];
      i == IndexOf(Requeued(rest, n), ip) < |Requeued(rest, n)|
    ensures var n, rest := before[0], before[1..];
      if i < |rest| then Tries(Requeued(rest, n), ip) == Tries(rest, ip) && ip != n.ip
      else Tries(Requeued(rest, n), ip) == 2 + n.retry && ip == n.ip
  {
    var n, rest := before[0], before[1..];
    assert forall j :: 0 <= j < |rest| ==> rest[j] == before[j + 1];
    if i < |rest| {
      assert rest[i] == Requeued(rest, n)[i];
      TriesUnder(rest, i, ip);
    }
  }

  function Requeued(rest: seq<Node>, n: Node): (list: seq<Node>) {
    rest + [n.(msec := TailDelay(rest), retry := n.retry + 1)]
  }

  lemma {:induction false} DrainAsks(d: Drained, table: seq<Config>, ip: Ip)
    requires GoodList(d.list)
    requires IndexOf(Drain(d, table).list, ip) < |Drain(d, table).list|
    ensures IndexOf(d.list, ip) < |d.list|
    ensures var r := Drain(d, table);
      Asked(r.requests, ip) - Tries(r.list, ip) == Asked(d.requests, ip) - Tries(d.list, ip)
    decreases Budget(d.list)
  {
    if d.list != [] && d.list[0].msec == 0 {
      DrainStepKeepsGood(d, table);
      DrainAsks(DrainStep(d, table), table, ip);
      DrainStepAsks(d, table, ip);
    }
  }

  lemma ResolveKeepsTries(s: State, dst: Ip, ip: Ip)
    requires GoodList(s.list) && Waiting(Resolve(s, dst), ip)
    ensures Tries(Resolve(s, dst).list, ip) == Tries(s.list, ip)
  {
    var i := IndexOf(s.list, dst);
    if i < |s.list| {
      UnlinkGood(s.list, i);
      var u := Unlink(s.list, i);
      var j := IndexOf(u, ip);
      TriesUnder(u, j, ip);
      TriesUnder(s.list, if j < i then j else j + 1, ip);
    }
  }

  lemma AddAsks(s: State, pkt: Packet, intId: nat, dst: Ip, ip: Ip)
    requires GoodList(s.list)
    ensures var r := AddPacket(s, pkt, intId, dst);
      Asked(r.requests, ip) - Tries(r.list, ip) == Asked(s.requests, ip) - Tries(s.list, ip)
  {
    var r := AddPacket(s, pkt, intId, dst);
    var i := IndexOf(s.list, dst);
    AddKeepsGood(s, pkt, intId, dst);
    if i == |s.list| {
      AskedOneMore(s.requests, ArpRequest(Some(intId), dst), ip);
    }
    assert r.list[i].ip == dst;
    var j := IndexOf(r.list, ip);
    if j < |r.list| {
      TriesUnder(r.list, j, ip);
      if j < |s.list| {
        TriesUnder(s.list, j, ip);
      } else {
        TriesAbsent(s.list, ip);
      }
    } else {
      forall k | 0 <= k < |s.list|
        ensures s.list[k].ip != ip
      {
        assert s.list[k].ip == r.list[k].ip;
      }
      TriesAbsent(s.list, ip);
    }
  }

  /**
   * Requests and retries stay in step: as long as a destination waits, each step sends exactly the ARP
   * requests that its retry count records, one when it is queued and one with its retry.
   */
  lemma NextAsksAsRecorded(s: State, step: Step, table: seq<Config>, ip: Ip)
    requires GoodList(s.list) && Waiting(Next(s, step, table), ip)
    ensures var r := Next(s, step, table);
      Asked(r.requests, ip) - Asked(s.requests, ip) == Tries(r.list, ip) - Tries(s.list, ip)
  {
    match step
    case Add(pkt, intId, dst) => AddAsks(s, pkt, intId, dst, ip);
    case Learn(dst) => ResolveKeepsTries(s, dst, ip);
    case Alarm =>
      if s.list != [] {
        var zeroed := s.list[0 := s.list[0].(msec := 0)];
        ZeroHeadKeepsGood(s.list);
        DrainAsks(Drained(zeroed, s.requests, s.gone), table, ip);
        var j := IndexOf(zeroed, ip);
        TriesUnder(zeroed, j, ip);
        TriesUnder(s.list, j, ip);
      }
    case Wait(_) =>
  }
}
