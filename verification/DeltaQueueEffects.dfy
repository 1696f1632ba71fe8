/**
 * What each operation of the wait queue does to one destination, told by its packets, its retries, its due
 * time and the ARP requests for it, and what runs hand on.
 */
module DeltaQueueEffects {
  import opened Net
  import opened Interfaces
  import opened DeltaQueue
  import opened DeltaQueueSafety
  import opened DeltaQueueRuns

  /** The requests for `ip`, in order. */
  function RequestsFor(log: seq<ArpRequest>, ip: Ip): (r: seq<ArpRequest>) {
    if log == [] then []
    else
      var last := log[|log| - 1];
      RequestsFor(log[..|log| - 1], ip) + if last.target == ip then [last] else []
  }

  lemma {:induction false} RequestsForAppend(a: seq<ArpRequest>, b: seq<ArpRequest>, ip: Ip)
    ensures RequestsFor(a + b, ip) == RequestsFor(a, ip) + RequestsFor(b, ip)
    decreases |b|
  {
    if b == [] {
      assert a + b == a;
    } else {
      var n := |b| - 1;
      assert (a + b)[..|a + b| - 1] == a + b[..n];
      RequestsForAppend(a, b[..n], ip);
    }
  }

  lemma RequestsForOne(q: ArpRequest, ip: Ip)
    ensures RequestsFor([q], ip) == if q.target == ip then [q] else []
  {
    assert [q][..0] == [];
  }

  // ---------------------------------------------------------------- adding

  /**
   * A packet for a destination that waits joins its packets, and nothing else changes; one for a new
   * destination is alone there, due one second after the last timer start, and the destination is asked
   * for once, on the given interface.
   */
  lemma AddEffect(s: State, pkt: Packet, intId: nat, dst: Ip)
    requires Inv(s)
    ensures var r := AddPacket(s, pkt, intId, dst);
      && Waiting(r, dst) && Queued(r.list, dst) == Queued(s.list, dst) + [pkt]
      && r.pending == s.pending && r.gone == s.gone
      && (Waiting(s, dst) ==>
          && r.requests == s.requests && r.remaining == s.remaining
          && Due(r, IndexOf(r.list, dst)) == Due(s, IndexOf(s.list, dst))
          && r.list[IndexOf(r.list, dst)].retry == s.list[IndexOf(s.list, dst)].retry)
      && (!Waiting(s, dst) ==>
          && r.requests == s.requests + [ArpRequest(Some(intId), dst)]
          && r.list[IndexOf(r.list, dst)].retry == 0
          && Due(r, IndexOf(r.list, dst)) ==
             if s.list == [] then NS_PER_SEC else s.remaining + (WAIT_MS - s.list[0].msec) * NS_PER_MS)
  {
    var r := AddPacket(s, pkt, intId, dst);
    var i := IndexOf(s.list, dst);
    AddQueued(s, pkt, intId, dst, dst);
    AddKeepsGood(s, pkt, intId, dst);
    IndexUnder(r.list, dst, i);
    if i < |s.list| {
      SameMsecSameTotal(s.list[1..i + 1], r.list[1..i + 1]);
    } else {
      LastDue(s.list, r.list[i]);
      assert r.list == s.list + [r.list[i]];
    }
  }

  /** The deltas behind the head sum up to what the head lacks of a full second. */
  lemma LastDue(list: seq<Node>, n: Node)
    requires Total(list) <= WAIT_MS && n.msec == TailDelay(list)
    ensures list != [] ==> Total((list + [n])[1..|list| + 1]) == WAIT_MS - list[0].msec
    ensures list == [] ==> Total((list + [n])[1..|list| + 1]) == 0
  {
    if list != [] {
      assert (list + [n])[1..|list| + 1] == list[1..] + [n];
      TotalAppend(list[1..], [n]);
      TotalOne(n);
    }
  }

  /** Other destinations keep their packets, their retries, their due times and their requests. */
  lemma AddSparesOthers(s: State, pkt: Packet, intId: nat, dst: Ip, ip: Ip)
    requires Inv(s) && ip != dst
    ensures var r := AddPacket(s, pkt, intId, dst);
      && Queued(r.list, ip) == Queued(s.list, ip)
      && RequestsFor(r.requests, ip) == RequestsFor(s.requests, ip)
      && (Waiting(r, ip) <==> Waiting(s, ip))
      && (Waiting(s, ip) ==>
          && r.list[IndexOf(r.list, ip)].retry == s.list[IndexOf(s.list, ip)].retry
          && Due(r, IndexOf(r.list, ip)) == Due(s, IndexOf(s.list, ip)))
  {
    AddQueued(s, pkt, intId, dst, ip);
    AddRequests(s, pkt, intId, dst, ip);
    if Waiting(s, ip) {
      AddSparesNode(s, pkt, intId, dst, IndexOf(s.list, ip));
    } else {
      AddBringsNobody(s, pkt, intId, dst, ip);
    }
  }

  lemma AddRequests(s: State, pkt: Packet, intId: nat, dst: Ip, ip: Ip)
    requires ip != dst
    ensures RequestsFor(AddPacket(s, pkt, intId, dst).requests, ip) == RequestsFor(s.requests, ip)
  {
    RequestsForAppend(s.requests, [ArpRequest(Some(intId), dst)], ip);
    RequestsForOne(ArpRequest(Some(intId), dst), ip);
  }

  lemma AddSparesNode(s: State, pkt: Packet, intId: nat, dst: Ip, i: nat)
    requires Inv(s) && i < |s.list| && s.list[i].ip != dst
    ensures var r := AddPacket(s, pkt, intId, dst);
      && IndexOf(r.list, s.list[i].ip) == i < |r.list| && r.list[i].retry == s.list[i].retry
      && Due(r, i) == Due(s, i)
  {
    var r := AddPacket(s, pkt, intId, dst);
    AddKeepsGood(s, pkt, intId, dst);
    IndexUnder(r.list, s.list[i].ip, i);
    SameMsecSameTotal(s.list[1..i + 1], r.list[1..i + 1]);
  }

  lemma AddBringsNobody(s: State, pkt: Packet, intId: nat, dst: Ip, ip: Ip)
    requires ip != dst && !Waiting(s, ip)
    ensures !Waiting(AddPacket(s, pkt, intId, dst), ip)
  {
    var r := AddPacket(s, pkt, intId, dst);
    assert forall j :: 0 <= j < |s.list| ==> s.list[j].ip != ip;
    assert forall j :: 0 <= j < |r.list| ==> r.list[j].ip != ip;
  }

  // ---------------------------------------------------------------- resolving

  /** What is handed back is exactly what waited, and it is logged as gone in that order. */
  lemma ResolvedIsQueued(s: State, dst: Ip)
    requires GoodList(s.list)
    ensures ResolvedPackets(s, dst) == Queued(s.list, dst)
    ensures Queued(s.list, dst) == ResolvedPackets(s, dst) + Queued(Resolve(s, dst).list, dst)
    ensures GoneFor(Resolve(s, dst).gone, dst) == GoneFor(s.gone, dst) + ResolvedPackets(s, dst)
    ensures !Waiting(Resolve(s, dst), dst) && Resolve(s, dst).requests == s.requests
    ensures Resolve(s, dst).pending == s.pending
  {
    var i := IndexOf(s.list, dst);
    if i < |s.list| {
      QueuedIsNode(s.list, i);
      UnlinkQueued(s.list, i, dst);
      UnlinkRemoves(s.list, i);
      GoneForDepartures(s.gone, dst, s.list[i].pkts, Released, dst);
    } else {
      QueuedAbsent(s.list, dst);
    }
  }

  function WholeSeconds(ns: nat): (r: nat) {
    ns - ns % NS_PER_SEC
  }

  /**
   * Other destinations keep their packets and their retries. Their due times stay as they are too, except
   * that those behind a head that leaves while its timer shows whole seconds come that much earlier.
   */
  lemma ResolveSparesOthers(s: State, dst: Ip, ip: Ip)
    requires Inv(s) && Waiting(s, ip) && ip != dst
    ensures var r := Resolve(s, dst);
      && Waiting(r, ip) && Queued(r.list, ip) == Queued(s.list, ip)
      && GoneFor(r.gone, ip) == GoneFor(s.gone, ip)
      && r.list[IndexOf(r.list, ip)].retry == s.list[IndexOf(s.list, ip)].retry
      && Due(r, IndexOf(r.list, ip)) == Due(s, IndexOf(s.list, ip))
         - if s.list[0].ip == dst then WholeSeconds(s.remaining) else 0
  {
    ResolveSparesPackets(s, dst, ip);
    var d := IndexOf(s.list, dst);
    assert d == 0 <==> s.list[0].ip == dst;
    if d < |s.list| {
      ResolveSparesNode(s, d, IndexOf(s.list, ip));
      var r, u := Resolve(s, dst), Unlinked(s, d);
      assert r.list == u.list && r.remaining == u.remaining;
    }
  }

  lemma ResolveSparesPackets(s: State, dst: Ip, ip: Ip)
    requires GoodList(s.list) && ip != dst
    ensures Queued(Resolve(s, dst).list, ip) == Queued(s.list, ip)
    ensures GoneFor(Resolve(s, dst).gone, ip) == GoneFor(s.gone, ip)
  {
    var d := IndexOf(s.list, dst);
    if d < |s.list| {
      UnlinkQueued(s.list, d, ip);
      GoneForDepartures(s.gone, dst, s.list[d].pkts, Released, ip);
    }
  }

  lemma ResolveSparesNode(s: State, d: nat, i: nat)
    requires GoodList(s.list) && d < |s.list| && i < |s.list| && d != i
    ensures var u := Unlinked(s, d);
      var k := IndexOf(u.list, s.list[i].ip);
      && k < |u.list| && u.list[k].retry == s.list[i].retry
      && Due(u, k) == Due(s, i) - if d == 0 then WholeSeconds(s.remaining) else 0
  {
    var k := if i < d then i else i - 1;
    UnlinkGood(s.list, d);
    OthersStay(s, d, i, k);
    OthersStayDue(s, d, i, k);
    IndexUnder(Unlinked(s, d).list, s.list[i].ip, k);
  }

  lemma OthersStayDue(s: State, d: nat, i: nat, k: nat)
    requires d < |s.list| && i < |s.list| && d != i && k == if i < d then i else i - 1
    ensures Due(Unlinked(s, d), k) == Due(s, i) - if d == 0 then WholeSeconds(s.remaining) else 0
  {
    var u := Unlink(s.list, d);
    UnlinkElements(s.list, d);
    if i < d {
      UnlinkKeepsFront(s.list, d, i);
    } else if d > 0 {
      UnlinkKeepsSpan(s.list, d, i);
    } else {
      TotalFirst(s.list, 1, i + 1);
      forall j | 0 <= j < i - 1
        ensures u[1..i][j] == s.list[2..i + 1][j]
      {
        assert u[1..i][j] == u[j + 1];
      }
      assert u[1..i] == s.list[2..i + 1];
    }
  }

  // ---------------------------------------------------------------- the handler

  /** Milliseconds after the head at which a node is due. */
  function BehindHead(list: seq<Node>, i: nat): (ms: nat)
    requires i < |list|
  {
    Total(list[1..i + 1])
  }

  lemma {:induction false} RetriedTotal(due: seq<Node>, first: nat, j: nat)
    requires j < |Retried(due, first)|
    ensures Total(Retried(due, first)[..j + 1]) == first
  {
    var r := Retried(due, first);
    if due[0].retry >= 1 {
      RetriedTotal(due[1..], first, j);
    } else {
      assert r[..j + 1] == [r[0]] + Retried(due[1..], 0)[..j];
      TotalAppend([r[0]], Retried(due[1..], 0)[..j]);
      TotalOne(r[0]);
      if j > 0 {
        RetriedTotal(due[1..], 0, j - 1);
      } else {
        assert Retried(due[1..], 0)[..0] == [];
      }
    }
  }

  lemma {:induction false} RetriedHas(due: seq<Node>, first: nat, m: nat) returns (j: nat)
    requires m < |due| && due[m].retry == 0
    ensures j < |Retried(due, first)| && Retried(due, first)[j].ip == due[m].ip
    ensures Retried(due, first)[j].pkts == due[m].pkts && Retried(due, first)[j].retry == 1
  {
    if m == 0 {
      j := 0;
    } else if due[0].retry >= 1 {
      j := RetriedHas(due[1..], first, m - 1);
    } else {
      j := RetriedHas(due[1..], 0, m - 1);
      j := j + 1;
    }
  }

  predicate FirstTry(due: seq<Node>, ip: Ip) {
    exists i :: 0 <= i < |due| && due[i].ip == ip && due[i].retry == 0
  }

  lemma {:induction false} RetryRequestsFor(due: seq<Node>, table: seq<Config>, ip: Ip)
    requires Distinct(due)
    ensures RequestsFor(RetryRequests(due, table), ip)
      == if FirstTry(due, ip) then [ArpRequest(BestMatch(table, ip), ip)] else []
  {
    if due != [] {
      var rest := due[1..];
      RetryRequestsFor(rest, table, ip);
      assert FirstTry(rest, ip) ==> FirstTry(due, ip) by {
        if i :| 0 <= i < |rest| && rest[i].ip == ip && rest[i].retry == 0 {
          assert due[i + 1] == rest[i];
        }
      }
      var q := ArpRequest(BestMatch(table, due[0].ip), due[0].ip);
      RequestsForAppend([q], RetryRequests(rest, table), ip);
      RequestsForOne(q, ip);
      assert FirstTry(due, ip) <==> FirstTry(rest, ip) || (due[0].ip == ip && due[0].retry == 0);
    }
  }

  /** Zero deltas behind the head mean a place in the run of due nodes. */
  lemma DueRunIs(list: seq<Node>, i: nat)
    requires i < |list|
    ensures i < DueRun(list[0 := list[0].(msec := 0)]) <==> BehindHead(list, i) == 0
  {
    var zeroed := list[0 := list[0].(msec := 0)];
    var k := DueRun(zeroed);
    assert list[1..i + 1] == zeroed[1..i + 1];
    if i < k {
      ZeroTotal(zeroed[1..i + 1]);
    } else {
      TotalSlice(zeroed, 1, k, i + 1);
      TotalFirst(zeroed, k, i + 1);
    }
  }

  /**
   * A tick, early or not, handles exactly the destinations that are due with the head. One on its first
   * try is asked for once more, on the interface of longest prefix, keeps its packets, and is due again
   * in exactly a second; one on its second try is given up. Everybody else keeps packets, retries and
   * distance from the head.
   */
  lemma TickEffect(s: State, table: seq<Config>, ip: Ip)
    requires GoodList(s.list) && Waiting(s, ip)
    ensures var r := Tick(s, table);
      var i, j := IndexOf(s.list, ip), IndexOf(r.list, ip);
      var due := BehindHead(s.list, i) == 0;
      && GoodList(r.list) && !r.pending && (r.remaining > 0 <==> r.list != [])
      && (Waiting(r, ip) <==> !due || s.list[i].retry == 0)
      && (Waiting(r, ip) ==>
          && r.list[j].pkts == s.list[i].pkts && GoneFor(r.gone, ip) == GoneFor(s.gone, ip)
          && r.list[j].retry == (if due then 1 else s.list[i].retry)
          && Due(r, j) == (if due then WAIT_MS else BehindHead(s.list, i)) * NS_PER_MS)
      && (!Waiting(r, ip) ==> GoneFor(r.gone, ip) == GoneFor(s.gone, ip) + s.list[i].pkts)
      && RequestsFor(r.requests, ip) == RequestsFor(s.requests, ip)
         + if due && s.list[i].retry == 0 then [ArpRequest(BestMatch(table, ip), ip)] else []
  {
    var zeroed := s.list[0 := s.list[0].(msec := 0)];
    var k := DueRun(zeroed);
    var i := IndexOf(s.list, ip);
    DueRunIs(s.list, i);
    TickClosed(s, table);
    TickRequests(s, table, ip);
    if i >= k {
      TickNotDue(s, table, i);
    } else if s.list[i].retry == 0 {
      TickRetried(s, table, i);
    } else {
      TickDropped(s, table, i);
    }
    TickGone(s, table, ip);
    var r := Tick(s, table);
    if Waiting(r, ip) {
      SameEnd(GoneFor(r.gone, ip), GoneFor(s.gone, ip), s.list[i].pkts);
    }
  }

  lemma SameEnd<T>(a: seq<T>, b: seq<T>, end: seq<T>)
    requires a + end == b + end
    ensures a == b
  {
    assert |a| == |b|;
    assert forall i :: 0 <= i < |a| ==> a[i] == (a + end)[i] == (b + end)[i] == b[i];
  }

  /** The closed form of the whole tick. */
  lemma TickClosed(s: State, table: seq<Config>)
    requires GoodList(s.list) && s.list != []
    ensures var zeroed := s.list[0 := s.list[0].(msec := 0)];
      var k := DueRun(zeroed);
      var r := Tick(s, table);
      && k > 0 && GoodList(zeroed) && GoodList(r.list)
      && r.list == zeroed[k..] + Retried(zeroed[..k], TailDelay(zeroed))
      && r.requests == s.requests + RetryRequests(zeroed[..k], table)
      && r.remaining == if r.list == [] then 0 else r.list[0].msec * NS_PER_MS
  {
    var zeroed := s.list[0 := s.list[0].(msec := 0)];
    var d := Drained(zeroed, s.requests, s.gone);
    ZeroHeadKeepsGood(s.list);
    DrainKeepsGood(d, table);
    DrainHandlesEachDueNodeOnce(d, table);
  }

  lemma TickRequests(s: State, table: seq<Config>, ip: Ip)
    requires GoodList(s.list) && Waiting(s, ip)
    ensures var i := IndexOf(s.list, ip);
      RequestsFor(Tick(s, table).requests, ip) == RequestsFor(s.requests, ip)
        + if BehindHead(s.list, i) == 0 && s.list[i].retry == 0 then [ArpRequest(BestMatch(table, ip), ip)] else []
  {
    var zeroed := s.list[0 := s.list[0].(msec := 0)];
    var k := DueRun(zeroed);
    var i := IndexOf(s.list, ip);
    TickClosed(s, table);
    DueRunIs(s.list, i);
    RetryRequestsFor(zeroed[..k], table, ip);
    RequestsForAppend(s.requests, RetryRequests(zeroed[..k], table), ip);
    if i < k {
      assert zeroed[..k][i].ip == ip && zeroed[..k][i].retry == s.list[i].retry;
    }
    assert forall m :: 0 <= m < k && zeroed[..k][m].ip == ip ==> s.list[m].ip == ip && m == i;
  }

  /** Due times right after a tick are sums of deltas, the head's included. */
  lemma DueAfterTick(r: State, j: nat)
    requires j < |r.list| && r.remaining == r.list[0].msec * NS_PER_MS
    ensures Due(r, j) == Total(r.list[..j + 1]) * NS_PER_MS
  {
    assert r.list[..j + 1] == [r.list[0]] + r.list[1..j + 1];
    TotalAppend([r.list[0]], r.list[1..j + 1]);
    TotalOne(r.list[0]);
  }

  lemma TickNotDue(s: State, table: seq<Config>, i: nat)
    requires GoodList(s.list) && i < |s.list| && BehindHead(s.list, i) > 0
    ensures var r := Tick(s, table);
      var j := IndexOf(r.list, s.list[i].ip);
      && j < |r.list| && r.list[j].pkts == s.list[i].pkts && r.list[j].retry == s.list[i].retry
      && Due(r, j) == BehindHead(s.list, i) * NS_PER_MS
  {
    var zeroed := s.list[0 := s.list[0].(msec := 0)];
    var k := DueRun(zeroed);
    var r := Tick(s, table);
    TickClosed(s, table);
    DueRunIs(s.list, i);
    assert r.list[i - k] == zeroed[i];
    IndexUnder(r.list, s.list[i].ip, i - k);
    DueAfterTick(r, i - k);
    assert r.list[..i - k + 1] == zeroed[k..i + 1];
    assert s.list[1..i + 1] == zeroed[1..i + 1];
    TotalSlice(zeroed, 1, k, i + 1);
    ZeroTotal(zeroed[1..k]);
  }

  lemma TickRetried(s: State, table: seq<Config>, i: nat)
    requires GoodList(s.list) && i < |s.list| && BehindHead(s.list, i) == 0 && s.list[i].retry == 0
    ensures var r := Tick(s, table);
      var j := IndexOf(r.list, s.list[i].ip);
      && j < |r.list| && r.list[j].pkts == s.list[i].pkts && r.list[j].retry == 1
      && Due(r, j) == WAIT_MS * NS_PER_MS
  {
    var zeroed := s.list[0 := s.list[0].(msec := 0)];
    var k := DueRun(zeroed);
    var r := Tick(s, table);
    var first := TailDelay(zeroed);
    TickClosed(s, table);
    DueRunIs(s.list, i);
    assert zeroed[..k][i].ip == s.list[i].ip && zeroed[..k][i].pkts == s.list[i].pkts;
    var m := RetriedHas(zeroed[..k], first, i);
    var late := Retried(zeroed[..k], first);
    var j := |zeroed| - k + m;
    assert r.list[j] == late[m];
    IndexUnder(r.list, s.list[i].ip, j);
    DueAfterTick(r, j);
    assert r.list[..j + 1] == zeroed[k..] + late[..m + 1];
    TotalAppend(zeroed[k..], late[..m + 1]);
    RetriedTotal(zeroed[..k], first, m);
    TotalSplit(zeroed, k);
    ZeroTotal(zeroed[..k]);
  }

  lemma TickDropped(s: State, table: seq<Config>, i: nat)
    requires GoodList(s.list) && i < |s.list| && BehindHead(s.list, i) == 0 && s.list[i].retry > 0
    ensures IndexOf(Tick(s, table).list, s.list[i].ip) == |Tick(s, table).list|
  {
    var zeroed := s.list[0 := s.list[0].(msec := 0)];
    var k := DueRun(zeroed);
    var r := Tick(s, table);
    TickClosed(s, table);
    DueRunIs(s.list, i);
    forall j | 0 <= j < |r.list|
      ensures r.list[j].ip != s.list[i].ip
    {
      if j < |zeroed| - k {
        assert r.list[j] == zeroed[k + j];
      } else {
        RetriedHadNone(zeroed[..k], TailDelay(zeroed), j - (|zeroed| - k));
        var m :| 0 <= m < k && zeroed[..k][m].retry == 0 && zeroed[..k][m].ip == r.list[j].ip;
        assert s.list[m].retry == 0;
      }
    }
  }

  /** A tick gives up all of a destination's packets or none. */
  lemma TickGone(s: State, table: seq<Config>, ip: Ip)
    requires GoodList(s.list) && s.list != []
    ensures var r := Tick(s, table);
      GoneFor(r.gone, ip) + Queued(r.list, ip) == GoneFor(s.gone, ip) + Queued(s.list, ip)
    ensures forall i :: 0 <= i < |s.list| && s.list[i].ip == ip ==> Queued(s.list, ip) == s.list[i].pkts
    ensures var r := Tick(s, table);
      Queued(r.list, ip) == if Waiting(r, ip) then r.list[IndexOf(r.list, ip)].pkts else []
  {
    var zeroed := s.list[0 := s.list[0].(msec := 0)];
    TickClosed(s, table);
    QueuedSame(s.list, zeroed, ip);
    DrainConserves(Drained(zeroed, s.requests, s.gone), table, ip);
    forall i | 0 <= i < |s.list| && s.list[i].ip == ip
      ensures Queued(s.list, ip) == s.list[i].pkts
    {
      QueuedIsNode(s.list, i);
    }
    var r := Tick(s, table);
    if Waiting(r, ip) {
      QueuedIsNode(r.list, IndexOf(r.list, ip));
    } else {
      QueuedAbsent(r.list, ip);
    }
  }

  lemma TickBringsNobody(s: State, table: seq<Config>, ip: Ip)
    requires GoodList(s.list) && s.list != [] && !Waiting(s, ip)
    ensures !Waiting(Tick(s, table), ip)
  {
    var zeroed := s.list[0 := s.list[0].(msec := 0)];
    var k := DueRun(zeroed);
    var r := Tick(s, table);
    TickClosed(s, table);
    forall j | 0 <= j < |r.list|
      ensures r.list[j].ip != ip
    {
      if j < |zeroed| - k {
        assert r.list[j] == zeroed[k + j];
      } else {
        RetriedHadNone(zeroed[..k], TailDelay(zeroed), j - (|zeroed| - k));
      }
    }
  }

  lemma TickAsksNobody(s: State, table: seq<Config>, ip: Ip)
    requires GoodList(s.list) && s.list != [] && !Waiting(s, ip)
    ensures RequestsFor(Tick(s, table).requests, ip) == RequestsFor(s.requests, ip)
  {
    var zeroed := s.list[0 := s.list[0].(msec := 0)];
    var k := DueRun(zeroed);
    TickClosed(s, table);
    assert forall m :: 0 <= m < k ==> zeroed[..k][m].ip == s.list[m].ip;
    assert !FirstTry(zeroed[..k], ip);
    RetryRequestsFor(zeroed[..k], table, ip);
    RequestsForAppend(s.requests, RetryRequests(zeroed[..k], table), ip);
  }

  /** Nobody who did not wait is asked for or waits afterwards. */
  lemma TickAddsNobody(s: State, table: seq<Config>, ip: Ip)
    requires GoodList(s.list) && !Waiting(s, ip)
    ensures !Waiting(Tick(s, table), ip) && RequestsFor(Tick(s, table).requests, ip) == RequestsFor(s.requests, ip)
    ensures GoneFor(Tick(s, table).gone, ip) == GoneFor(s.gone, ip)
  {
    if s.list != [] {
      TickBringsNobody(s, table, ip);
      TickAsksNobody(s, table, ip);
      TickGone(s, table, ip);
      QueuedAbsent(s.list, ip);
      assert GoneFor(Tick(s, table).gone, ip) + [] == GoneFor(s.gone, ip) + [];
      SameEnd(GoneFor(Tick(s, table).gone, ip), GoneFor(s.gone, ip), []);
    }
  }

  // ---------------------------------------------------------------- time

  /** Time that passes brings every due time nearer by itself, and at zero the handler is on its way. */
  lemma WaitEffect(s: State, ns: nat, i: nat)
    requires Inv(s) && Enabled(s, Wait(ns)) && i < |s.list|
    ensures var r := Elapse(s, ns);
      && r.list == s.list && r.gone == s.gone && r.requests == s.requests
      && Due(r, i) == Due(s, i) - ns && (r.pending <==> ns == s.remaining)
  {
  }

  // ---------------------------------------------------------------- what runs hand on

  /** The packets that a run is given for `ip`, in order. */
  function Given(steps: seq<Step>, ip: Ip): (r: seq<Packet>) {
    if steps == [] then []
    else (if steps[0].Add? && steps[0].dst == ip then [steps[0].pkt] else []) + Given(steps[1..], ip)
  }

  /** What leaves for `ip` in a step: handed back if its address is learnt, given up if its wait ends. */
  function Leaving(s: State, step: Step, table: seq<Config>, ip: Ip): (r: seq<Packet>) {
    if step.Learn? && step.dst == ip then ResolvedPackets(s, ip)
    else if step.Alarm? && !Waiting(Tick(s, table), ip) then Queued(s.list, ip)
    else []
  }

  function LeavingOver(s: State, steps: seq<Step>, table: seq<Config>, ip: Ip): (r: seq<Packet>)
    decreases |steps|
  {
    if steps == [] then []
    else Leaving(s, steps[0], table, ip) + LeavingOver(Next(s, steps[0], table), steps[1..], table, ip)
  }

  lemma LearnHandsOn(s: State, dst: Ip, ip: Ip)
    requires GoodList(s.list)
    ensures GoodList(Resolve(s, dst).list)
    ensures Queued(s.list, ip) == (if dst == ip then ResolvedPackets(s, ip) else []) + Queued(Resolve(s, dst).list, ip)
  {
    ResolvedIsQueued(s, dst);
    var i := IndexOf(s.list, dst);
    if i < |s.list| {
      UnlinkGood(s.list, i);
      UnlinkQueued(s.list, i, ip);
    }
  }

  lemma AlarmHandsOn(s: State, table: seq<Config>, ip: Ip)
    requires GoodList(s.list)
    ensures GoodList(Tick(s, table).list)
    ensures Queued(s.list, ip)
      == (if Waiting(Tick(s, table), ip) then [] else Queued(s.list, ip)) + Queued(Tick(s, table).list, ip)
  {
    if s.list != [] {
      TickClosed(s, table);
      TickGone(s, table, ip);
      if Waiting(s, ip) {
        TickEffect(s, table, ip);
      } else {
        TickBringsNobody(s, table, ip);
      }
    }
  }

  lemma StepHandsOnInOrder(s: State, step: Step, table: seq<Config>, ip: Ip)
    requires GoodList(s.list)
    ensures GoodList(Next(s, step, table).list)
    ensures Queued(s.list, ip) + Given([step], ip)
      == Leaving(s, step, table, ip) + Queued(Next(s, step, table).list, ip)
  {
    assert [step][1..] == [];
    match step
    case Add(pkt, intId, dst) =>
      AddKeepsGood(s, pkt, intId, dst);
      AddQueued(s, pkt, intId, dst, ip);
    case Learn(dst) => LearnHandsOn(s, dst, ip);
    case Alarm => AlarmHandsOn(s, table, ip);
    case Wait(_) =>
  }

  /**
   * Over every run, what is handed back or given up for a destination, followed by what waits for it, is
   * exactly what was given for it, in that order.
   */
  lemma {:induction false} RunHandsOnInOrder(s: State, steps: seq<Step>, table: seq<Config>, ip: Ip)
    requires GoodList(s.list)
    ensures Queued(s.list, ip) + Given(steps, ip)
      == LeavingOver(s, steps, table, ip) + Queued(Run(s, steps, table).list, ip)
    decreases |steps|
  {
    if steps != [] {
      var next := Next(s, steps[0], table);
      StepHandsOnInOrder(s, steps[0], table, ip);
      RunHandsOnInOrder(next, steps[1..], table, ip);
      var a, b := Given([steps[0]], ip), Given(steps[1..], ip);
      assert [steps[0]][1..] == [];
      assert Given(steps, ip) == a + b;
      var x, y := Leaving(s, steps[0], table, ip), LeavingOver(next, steps[1..], table, ip);
      Associate(Queued(s.list, ip), a, b);
      Associate(x, Queued(next.list, ip), b);
      Associate(x, y, Queued(Run(s, steps, table).list, ip));
    }
  }
}
