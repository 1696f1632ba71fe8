/**
 * `ipv4_handle` (ipv4.c): which packets are ignored, bridged or translated, what it hands to `send_ipv4`,
 * and what that means for whole runs of arriving packets.
 */
module Forwarding {
  import opened Net
  import opened Interfaces
  import opened Outgoing
  import opened Napt
  import opened NaptTables
  import opened Ipv4
  import opened Router

  const BROADCAST := Ip(0xFF, 0xFF, 0xFF, 0xFF)

  /** `interface_get_wan_id`. */
  const WAN_ID := 1

  /** A packet that arrives on an interface, with the random numbers it may draw. */
  datatype Received = Received(p: Packet, intId: nat, draws: seq<nat>)

  predicate Possible(r: Routing, a: Received) {
    |r.table| > WAN_ID && a.intId < |r.table| && WellFormed(a.p) && |a.draws| == ATTEMPTS
  }

  function PublicIp(r: Routing): (ip: Ip)
    requires |r.table| > WAN_ID
  {
    r.table[WAN_ID].interfaceIp
  }

  /**
   * `ipv4_handle`: the tables after it, and the packet given to `send_ipv4`, if any, which has all the
   * headers that `send_ipv4` reads.
   */
  function Handled(r: Routing, t: Tables, a: Received): (h: (Tables, Option<Packet>))
    requires Possible(r, a)
    ensures h.1.Some? ==> WellFormed(h.1.value)
  {
    OutIsWellFormed(t, a.p, PublicIp(r), a.draws);
    InIsWellFormed(t, a.p);
    var dst := DstIp(a.p);
    if dst == BROADCAST then (t, None)
    else if r.table[a.intId].side == WAN then
      (t, if dst == r.table[a.intId].interfaceIp then TranslatedIn(t, a.p) else None)
    else if IntFor(r, dst) == a.intId then (t, None)
    else if r.table[IntFor(r, dst)].side == LAN then (t, Some(a.p))
    else TranslatedOut(t, a.p, PublicIp(r), a.draws)
  }

  /** The arrival is a TCP or UDP packet on its way from the LAN to the WAN. */
  predicate Leaves(r: Routing, a: Received)
    requires Possible(r, a)
  {
    && Translatable(a.p) && DstIp(a.p) != BROADCAST
    && r.table[a.intId].side == LAN && r.table[IntFor(r, DstIp(a.p))].side == WAN
  }

  // ---------------------------------------------------------------- one packet

  lemma OutIsWellFormed(t: Tables, p: Packet, publicIp: Ip, draws: seq<nat>)
    requires WellFormed(p) && |draws| == ATTEMPTS
    ensures var q := TranslatedOut(t, p, publicIp, draws).1; q.Some? ==> WellFormed(q.value)
  {
    if Translatable(p) {
      var port := Out(t, FlowOf(p), publicIp, draws).1;
      if port.Some? {
        OutRewriteEffect(p, publicIp, port.value);
        SameLengths(p, OutRewritten(p, publicIp, port.value));
      }
    }
  }

  lemma InIsWellFormed(t: Tables, p: Packet)
    requires WellFormed(p)
    ensures var q := TranslatedIn(t, p); q.Some? ==> WellFormed(q.value)
  {
    var lan := Endpoint(t, p);
    if lan.Some? {
      InRewriteEffect(p, lan.value);
      SameLengths(p, InRewritten(p, lan.value));
    }
  }

  /** Addresses and ports say nothing about lengths. */
  lemma SameLengths(p: Packet, q: Packet)
    requires WellFormed(p) && HasPorts(p) && |q| == |p|
    requires forall i :: 0 <= i < |p| && !(12 <= i < 20) && !(HeaderLength(p) <= i < HeaderLength(p) + 4) ==>
      q[i] == p[i]
    ensures WellFormed(q)
  {
  }

  /** The interface of longest prefix for the destination of an arrival. */
  function WayOut(r: Routing, a: Received): (intId: nat)
    requires Possible(r, a)
    ensures BestMatch(r.table, DstIp(a.p)) == Some(intId) && intId < |r.table|
  {
    IntFor(r, DstIp(a.p))
  }

  /** A packet from the LAN that is not for the WAN is ignored or bridged as it is. */
  lemma LanToLan(r: Routing, t: Tables, a: Received)
    requires Possible(r, a) && r.table[a.intId].side == LAN
    requires DstIp(a.p) == Ip(255, 255, 255, 255) || r.table[WayOut(r, a)].side == LAN
    ensures Handled(r, t, a) ==
      (t, if DstIp(a.p) == Ip(255, 255, 255, 255) || WayOut(r, a) == a.intId then None else Some(a.p))
  {
  }

  /** The packets agree outside an address at `ip` and a port at `port`. */
  predicate SameOutside(p: Packet, q: Packet, ip: nat, port: nat) {
    && |p| == |q|
    && forall i :: 0 <= i < |p| && !(ip <= i < ip + 4) && !(port <= i < port + 2) ==> q[i] == p[i]
  }

  /** A mapping for the packet's endpoint, or a drawn port that its remote has no mapping for. */
  predicate PortIsHad(t: Tables, a: Received)
    requires HasPorts(a.p)
  {
    || InternKey(SrcIp(a.p), SrcPort(a.p), a.p[9]) in t.intern
    || exists j :: 0 <= j < |a.draws| &&
        ExternKey(DstIp(a.p), PublicPort(a.draws[j]), DstPort(a.p), a.p[9]) !in t.extern
  }

  /**
   * A packet from the LAN to the WAN goes on exactly if it is TCP or UDP and a public port is had for it,
   * and then from the public address and that port, to where it went, and otherwise unchanged.
   */
  lemma LanToWan(r: Routing, t: Tables, a: Received)
    requires Possible(r, a) && r.table[a.intId].side == LAN
    requires DstIp(a.p) != Ip(255, 255, 255, 255) && r.table[WayOut(r, a)].side == WAN
    ensures var q := Handled(r, t, a).1;
      && (q.Some? <==> (a.p[9] == 6 || a.p[9] == 17) && PortIsHad(t, a))
      && (q.Some? ==>
          && SrcIp(q.value) == r.table[WAN_ID].interfaceIp && HasPorts(q.value)
          && DstIp(q.value) == DstIp(a.p) && DstPort(q.value) == DstPort(a.p)
          && SameOutside(a.p, q.value, 12, HeaderLength(a.p))
          && var lan := InternKey(SrcIp(a.p), SrcPort(a.p), a.p[9]);
             if lan in t.intern then SrcPort(q.value) == t.intern[lan].publicPort
             else ExternKey(DstIp(a.p), SrcPort(q.value), DstPort(a.p), a.p[9]) !in t.extern)
  {
    if Translatable(a.p) {
      FreePortIff(t, FlowOf(a.p), a.draws, 0);
      var port := Out(t, FlowOf(a.p), PublicIp(r), a.draws).1;
      if port.Some? {
        OutRewriteEffect(a.p, PublicIp(r), port.value);
      }
    }
  }

  /**
   * A packet from the WAN goes on exactly if it is for the router's own address, TCP or UDP, and has a
   * mapping, and then to the endpoint of that, and otherwise unchanged.
   */
  lemma FromWan(r: Routing, t: Tables, a: Received)
    requires Possible(r, a) && r.table[a.intId].side == WAN
    ensures Handled(r, t, a).0 == t
    ensures var q := Handled(r, t, a).1;
      && (q.Some? <==>
          && DstIp(a.p) == r.table[a.intId].interfaceIp && DstIp(a.p) != Ip(255, 255, 255, 255)
          && (a.p[9] == 6 || a.p[9] == 17)
          && ExternKey(SrcIp(a.p), DstPort(a.p), SrcPort(a.p), a.p[9]) in t.extern)
      && (q.Some? ==>
          var e := t.extern[ExternKey(SrcIp(a.p), DstPort(a.p), SrcPort(a.p), a.p[9])];
          && HasPorts(q.value)
          && DstIp(q.value) == e.lanIp && DstPort(q.value) == e.lanPort
          && SameOutside(a.p, q.value, 16, HeaderLength(a.p) + 2))
  {
    var lan := Endpoint(t, a.p);
    if lan.Some? {
      InRewriteEffect(a.p, lan.value);
    }
  }

  // ---------------------------------------------------------------- whole runs

  predicate PossibleRun(r: Routing, run: seq<Received>) {
    forall i :: 0 <= i < |run| ==> Possible(r, run[i])
  }

  function TablesAfter(r: Routing, t: Tables, run: seq<Received>): (end: Tables)
    requires PossibleRun(r, run)
    decreases |run|
  {
    if run == [] then t else TablesAfter(r, Handled(r, t, run[0]).0, run[1..])
  }

  /** What NAPT sees of a run. */
  function Leaving(r: Routing, run: seq<Received>): (sent: seq<Sent>)
    requires PossibleRun(r, run)
    ensures Drawable(sent)
    decreases |run|
  {
    if run == [] then []
    else
      (if Leaves(r, run[0]) then [Sent(FlowOf(run[0].p), run[0].draws)] else []) + Leaving(r, run[1..])
  }

  lemma {:induction false} LeavingCameFrom(r: Routing, run: seq<Received>, j: nat) returns (i: nat)
    requires PossibleRun(r, run) && j < |Leaving(r, run)|
    ensures i < |run| && Leaves(r, run[i]) && Leaving(r, run)[j] == Sent(FlowOf(run[i].p), run[i].draws)
    decreases |run|
  {
    if Leaves(r, run[0]) && j == 0 {
      i := 0;
    } else {
      i := LeavingCameFrom(r, run[1..], if Leaves(r, run[0]) then j - 1 else j);
      i := i + 1;
    }
  }

  /** Only a packet that leaves changes the tables. */
  lemma HandledTables(r: Routing, t: Tables, a: Received)
    requires Possible(r, a)
    ensures Handled(r, t, a).0 == if Leaves(r, a) then Out(t, FlowOf(a.p), PublicIp(r), a.draws).0 else t
  {
  }

  /** The tables after a run are those that NAPT makes of the packets that leave. */
  lemma {:induction false} RunIsLeaving(r: Routing, t: Tables, run: seq<Received>)
    requires PossibleRun(r, run) && |r.table| > WAN_ID
    ensures TablesAfter(r, t, run) == After(t, PublicIp(r), Leaving(r, run))
    decreases |run|
  {
    if run != [] {
      HandledTables(r, t, run[0]);
      var sent, rest := Leaving(r, run), Leaving(r, run[1..]);
      if Leaves(r, run[0]) {
        assert sent == [Sent(FlowOf(run[0].p), run[0].draws)] + rest;
        assert sent[1..] == rest;
      } else {
        assert sent == rest;
      }
      RunIsLeaving(r, Handled(r, t, run[0]).0, run[1..]);
    }
  }

  /**
   * The firewall. After any run of arrivals, a packet from the WAN is let through only if some earlier
   * packet left for exactly its source, and then it goes to the endpoint which that packet came from.
   */
  lemma OnlyAnswersAreForwarded(r: Routing, run: seq<Received>, a: Received)
    requires PossibleRun(r, run) && Possible(r, a) && r.table[a.intId].side == WAN
    ensures var q := Handled(r, TablesAfter(r, EMPTY_TABLES, run), a).1;
      q.Some? ==>
        && DstIp(a.p) == r.table[a.intId].interfaceIp
        && exists i ::
          && 0 <= i < |run| && Leaves(r, run[i])
          && DstIp(run[i].p) == SrcIp(a.p) && DstPort(run[i].p) == SrcPort(a.p) && run[i].p[9] == a.p[9]
          && DstIp(q.value) == SrcIp(run[i].p) && DstPort(q.value) == SrcPort(run[i].p)
  {
    var t := TablesAfter(r, EMPTY_TABLES, run);
    var q := Handled(r, t, a).1;
    if q.Some? {
      var sent := Leaving(r, run);
      RunIsLeaving(r, EMPTY_TABLES, run);
      OnlyAnswersEnter(PublicIp(r), sent, SrcIp(a.p), SrcPort(a.p), DstPort(a.p), a.p[9]);
      var lan := Endpoint(t, a.p).value;
      InRewriteEffect(a.p, lan);
      var j: nat :| j < |sent| && sent[j].flow == Flow(lan, SrcIp(a.p), SrcPort(a.p));
      var i := LeavingCameFrom(r, run, j);
    }
  }

  /**
   * There and back. A packet that leaves the LAN and creates a mapping goes to the WAN from the public
   * address. After any further arrivals, a packet that answers it goes back into the LAN as an answer to
   * the original one, and its next hop is the host that sent that.
   */
  lemma ThereAndBack(r: Routing, before: seq<Received>, a: Received, later: seq<Received>, b: Received)
    requires PossibleRun(r, before) && Possible(r, a) && PossibleRun(r, later) && Possible(r, b)
    requires Leaves(r, a)
    requires FlowOf(a.p).lan !in TablesAfter(r, EMPTY_TABLES, before).intern
    requires b.intId == WAN_ID && r.table[WAN_ID].side == WAN && PublicIp(r) != BROADCAST
    ensures var (t, out) := Handled(r, TablesAfter(r, EMPTY_TABLES, before), a);
      out.Some? ==>
        && SrcIp(out.value) == PublicIp(r) && HasPorts(out.value)
        && (Answers(b.p, out.value) ==>
          var back := Handled(r, TablesAfter(r, t, later), b).1;
          && back.Some? && Answers(back.value, a.p)
          && (r.table[IntFor(r, SrcIp(a.p))].side == LAN ==> NextHop(r, DstIp(back.value)) == SrcIp(a.p)))
  {
    var publicIp := PublicIp(r);
    var t0 := TablesAfter(r, EMPTY_TABLES, before);
    RunIsLeaving(r, EMPTY_TABLES, before);
    var (t, port) := Out(t0, FlowOf(a.p), publicIp, a.draws);
    RunIsLeaving(r, t, later);
    if port.Some? {
      OutRewriteEffect(a.p, publicIp, port.value);
      if Answers(b.p, OutRewritten(a.p, publicIp, port.value)) {
        PacketRoundTrip(publicIp, Leaving(r, before), a.p, a.draws, Leaving(r, later), b.p, port.value);
      }
    }
  }

  // ---------------------------------------------------------------- in place

  /** Hands a packet of the router's own buffers through `ipv4_handle`. */
  method Ipv4Handle(router: RouterState, napt: NaptState, pkt: array<byte>, intId: nat, draws: seq<nat>)
    requires router.Valid() && napt.Valid() && Possible(router.routing, Received(pkt[..], intId, draws))
    requires pkt != napt.extern.store.data && pkt != napt.intern.store.data
    modifies router, router.timer, router.timer.nodes, pkt
    modifies napt.extern, napt.extern.store, napt.extern.store.data
    modifies napt.intern, napt.intern.store, napt.intern.store.data
    ensures router.Valid() && napt.Valid()
    ensures
      var (t, out) := Handled(router.routing, old(napt.View()), Received(old(pkt[..]), intId, draws));
      && napt.View() == t
      && (router.timer.state, router.frames) ==
        if out.Some? then
          AfterSend(router.routing, router.devices.table, old(router.timer.state), old(router.frames), out.value)
        else (old(router.timer.state), old(router.frames))
  {
    var send := Translate(router.routing, napt, pkt, intId, draws);
    if send {
      Send(router, napt, pkt);
    }
  }

  /** `send_ipv4` leaves the NAPT tables alone. */
  method Send(router: RouterState, napt: NaptState, pkt: array<byte>)
    requires router.Valid() && napt.Valid() && WellFormed(pkt[..])
    requires pkt != napt.extern.store.data && pkt != napt.intern.store.data
    modifies router, router.timer, router.timer.nodes, pkt
    ensures router.Valid() && napt.Valid() && napt.View() == old(napt.View())
    ensures (router.timer.state, router.frames) ==
      AfterSend(router.routing, router.devices.table, old(router.timer.state), old(router.frames), old(pkt[..]))
  {
    router.SendIpv4(pkt);
  }

  /** The branches of `ipv4_handle` up to `send_ipv4`. */
  method Translate(r: Routing, napt: NaptState, pkt: array<byte>, intId: nat, draws: seq<nat>) returns (send: bool)
    requires napt.Valid() && Possible(r, Received(pkt[..], intId, draws))
    requires pkt != napt.extern.store.data && pkt != napt.intern.store.data
    modifies pkt, napt.extern, napt.extern.store, napt.extern.store.data
    modifies napt.intern, napt.intern.store, napt.intern.store.data
    ensures napt.Valid() && pkt != napt.extern.store.data && pkt != napt.intern.store.data
    ensures
      var (t, out) := Handled(r, old(napt.View()), Received(old(pkt[..]), intId, draws));
      && napt.View() == t && send == out.Some?
      && (out.Some? ==> pkt[..] == out.value)
  {
    var dst := ReadIp(pkt[..], 16);
    if dst.b0 == 0xFF && dst.b1 == 0xFF && dst.b2 == 0xFF && dst.b3 == 0xFF {
      return false;
    }
    if r.table[intId].side == WAN {
      if dst != r.table[intId].interfaceIp {
        return false;
      }
      send := NaptIncHandle(napt, pkt);
      return;
    }
    var outIntId := GetInterfaceForIp(r.table, dst);
    ghost var same := IntFor(r, dst);
    if outIntId.value == intId {
      return false;
    } else if r.table[outIntId.value].side == LAN {
      return true;
    }
    send := NaptOutHandle(napt, pkt, r.table[WAN_ID].interfaceIp, draws);
  }
}
