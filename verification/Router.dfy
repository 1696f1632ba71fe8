/**
 * The path of an outgoing packet through outgoing.c, devices.c, timer.c and arp.c: next-hop choice, the
 * decision to queue or to transmit, and the release of a queue when its address is learnt.
 */
module Router {
  import opened Net
  import opened Interfaces
  import opened Devices
  import opened DeltaQueue
  import opened DeltaQueueSafety
  import opened DeltaQueueRuns
  import opened DeltaQueueEffects
  import opened DeltaTimer
  import opened Outgoing
  import opened Ipv4

  /** The routing configuration: `interface_arr` and the three WAN variables. */
  datatype Configuration = Configuration(
    table: seq<Config>, wanNetworkIp: Ip, wanPrefixLen: byte, wanGatewayIp: Ip)

  /** There is a default entry, as in the table of interfaces.c, and no prefix is longer than 24. */
  predicate GoodRouting(r: Configuration) {
    HasDefaultRoute(r.table) && forall c <- r.table :: c.prefixLen <= 24
  }

  const DEFAULT_ONLY := Configuration([Config(ZERO_MAC, ZERO_IP, ZERO_IP, 0, WAN, Ether)], ZERO_IP, 0, ZERO_IP)

  lemma DefaultOnlyIsGood()
    ensures GoodRouting(DEFAULT_ONLY)
  {
    assert DEFAULT_ONLY.table[0].prefixLen == 0;
  }

  type Routing = r: Configuration | GoodRouting(r) ghost witness (DefaultOnlyIsGood(); DEFAULT_ONLY)

  /** `get_interface_for_ip` in a table with a default entry. */
  function IntFor(r: Routing, dst: Ip): (intId: nat)
    ensures BestMatch(r.table, dst) == Some(intId) && intId < |r.table|
  {
    LongestPrefixMatch(r.table, dst, 0);
    BestMatch(r.table, dst).value
  }

  /** `local_dst_ip`: the address whose MAC a packet for `dst` is sent to. */
  function NextHop(r: Routing, dst: Ip): (hop: Ip)
  {
    if r.table[IntFor(r, dst)].side == LAN then dst
    else if ApplyMask(SubnetMask(r.wanPrefixLen), dst) == r.wanNetworkIp then dst
    else r.wanGatewayIp
  }

  /** An Ethernet frame that carries an IPv4 packet. */
  datatype Frame = Frame(intId: nat, macDst: Mac, macSrc: Mac, packet: Packet)

  /** What is written to the interface for a packet to a known MAC; nothing on a WiFi interface. */
  function FramesFor(r: Routing, p: Packet, mac: Mac): (f: seq<Frame>)
  {
    if |p| < 20 then []
    else
      var intId := IntFor(r, DstIp(p));
      if r.table[intId].kind == Ether then [Frame(intId, mac, r.table[intId].mac, p)] else []
  }

  /** A packet buffer is as long as its header says, and its headers lie in it. */
  predicate WellFormed(p: Packet) {
    Sound(p) && TotalLength(p) == |p|
  }

  /** A queued packet has its checksums and stands in the node of its next hop. */
  predicate RoutedTo(r: Routing, p: Packet, hop: Ip)
  {
    WellFormed(p) && Rewritten(p) == p && NextHop(r, DstIp(p)) == hop
  }

  predicate NodeRouted(r: Routing, n: Node)
  {
    forall j :: 0 <= j < |n.pkts| ==> RoutedTo(r, n.pkts[j], n.ip)
  }

  predicate QueueRouted(r: Routing, list: seq<Node>)
  {
    forall i :: 0 <= i < |list| ==> NodeRouted(r, list[i])
  }

  // ---------------------------------------------------------------- the queue stays routed

  lemma AddKeepsRouted(r: Routing, s: State, pkt: Packet, intId: nat, hop: Ip)
    requires QueueRouted(r, s.list) && RoutedTo(r, pkt, hop)
    ensures QueueRouted(r, AddPacket(s, pkt, intId, hop).list)
  {
    var i := IndexOf(s.list, hop);
    if i < |s.list| {
      assert NodeRouted(r, s.list[i]);
      var n := s.list[i].(pkts := s.list[i].pkts + [pkt]);
      forall j | 0 <= j < |n.pkts|
        ensures RoutedTo(r, n.pkts[j], n.ip)
      {
      }
    } else {
      assert NodeRouted(r, Node(TailDelay(s.list), hop, [pkt], 0));
    }
  }

  lemma SameNodeRouted(r: Routing, n: Node, m: Node)
    requires NodeRouted(r, n) && m.pkts == n.pkts && m.ip == n.ip
    ensures NodeRouted(r, m)
  {
  }

  lemma UnlinkKeepsRouted(r: Routing, list: seq<Node>, i: nat)
    requires QueueRouted(r, list) && i < |list|
    ensures QueueRouted(r, Unlink(list, i))
  {
    var u := Unlink(list, i);
    UnlinkElements(list, i);
    forall j | 0 <= j < |u|
      ensures NodeRouted(r, u[j])
    {
      SameNodeRouted(r, list[if j < i then j else j + 1], u[j]);
    }
  }

  lemma {:induction false} DrainKeepsRouted(r: Routing, d: Drained)
    requires QueueRouted(r, d.list)
    ensures QueueRouted(r, Drain(d, r.table).list)
    decreases Budget(d.list)
  {
    if d.list != [] && d.list[0].msec == 0 {
      var next := DrainStep(d, r.table);
      assert NodeRouted(r, d.list[0]);
      assert forall i :: 0 <= i < |d.list[1..]| ==> d.list[1..][i] == d.list[i + 1];
      assert QueueRouted(r, next.list);
      DrainKeepsRouted(r, next);
    }
  }

  lemma TickKeepsRouted(r: Routing, s: State)
    requires QueueRouted(r, s.list)
    ensures QueueRouted(r, Tick(s, r.table).list)
  {
    if s.list != [] {
      assert NodeRouted(r, s.list[0]);
      DrainKeepsRouted(r, Drained(s.list[0 := s.list[0].(msec := 0)], s.requests, s.gone));
    }
  }

  /** What `send_ipv4` hands on is well formed, routed, and settled. */
  lemma RewrittenIsRouted(r: Routing, p: Packet)
    requires WellFormed(p)
    ensures |Rewritten(p)| >= 20 && DstIp(Rewritten(p)) == DstIp(p)
    ensures RoutedTo(r, Rewritten(p), NextHop(r, DstIp(p)))
  {
    RewriteIsIdempotent(p);
    OnlyChecksumsChange(p);
  }

  /** The frames for a released queue: each packet once, in order, unchanged. */
  function ReleasedFrames(r: Routing, pkts: seq<Packet>, mac: Mac): (f: seq<Frame>)
  {
    if pkts == [] then []
    else ReleasedFrames(r, pkts[..|pkts| - 1], mac) + FramesFor(r, pkts[|pkts| - 1], mac)
  }

  lemma ReleasedOneMore(r: Routing, pkts: seq<Packet>, k: nat, mac: Mac)
    requires k < |pkts|
    ensures ReleasedFrames(r, pkts[..k + 1], mac) == ReleasedFrames(r, pkts[..k], mac) + FramesFor(r, pkts[k], mac)
  {
    assert pkts[..k + 1][..k] == pkts[..k];
  }

  /**
   * Every released packet leaves on the interface of its destination, once, in order of arrival, to the
   * MAC that was learnt, provided that interface is an Ethernet one.
   */
  lemma {:induction false} AllReleasedTransmitted(r: Routing, pkts: seq<Packet>, mac: Mac)
    requires forall j :: 0 <= j < |pkts| ==> |pkts[j]| >= 20 && r.table[IntFor(r, DstIp(pkts[j]))].kind == Ether
    ensures |ReleasedFrames(r, pkts, mac)| == |pkts|
    ensures forall j :: 0 <= j < |pkts| ==>
      && ReleasedFrames(r, pkts, mac)[j].packet == pkts[j]
      && ReleasedFrames(r, pkts, mac)[j].macDst == mac
      && BestMatch(r.table, DstIp(pkts[j])) == Some(ReleasedFrames(r, pkts, mac)[j].intId)
      && ReleasedFrames(r, pkts, mac)[j].macSrc == r.table[ReleasedFrames(r, pkts, mac)[j].intId].mac
  {
    if pkts != [] {
      AllReleasedTransmitted(r, pkts[..|pkts| - 1], mac);
    }
  }

  /** The next hop of a destination beyond the WAN interface is the gateway unless it lies on the WAN link. */
  lemma NextHopIsOnLink(r: Routing, dst: Ip)
    requires r.wanPrefixLen <= 24
    requires IpNumber(r.wanNetworkIp) == ClearLow(IpNumber(r.wanNetworkIp), 32 - r.wanPrefixLen)
    requires r.wanGatewayIp != dst
    ensures NextHop(r, dst) == dst <==>
      || r.table[IntFor(r, dst)].side == LAN
      || LeadingBits(dst, r.wanPrefixLen) == LeadingBits(r.wanNetworkIp, r.wanPrefixLen)
    ensures NextHop(r, dst) != dst ==> NextHop(r, dst) == r.wanGatewayIp
  {
    MatchesIsPrefixAgreement(Config(ZERO_MAC, r.wanNetworkIp, ZERO_IP, r.wanPrefixLen, WAN, Ether), dst);
  }

  /** `send_ipv4` on the wait queue and the wire: transmitted if the next hop's MAC is known, else queued. */
  function AfterSend(r: Routing, known: map<Ip, Mac>, s: State, frames: seq<Frame>, pkt: Packet)
    : (after: (State, seq<Frame>))
    requires WellFormed(pkt)
  {
    var p := Rewritten(pkt);
    var hop := NextHop(r, DstIp(pkt));
    if hop in known then (s, frames + FramesFor(r, p, known[hop]))
    else (AddPacket(s, p, IntFor(r, DstIp(pkt)), hop), frames)
  }

  /**
   * To an unknown next hop nothing is written: the rewritten packet waits behind the hop's other packets,
   * nobody else's packets change, and a hop that is new to the queue is asked for once, on the interface
   * of longest prefix for the packet's destination.
   */
  lemma UnknownHopQueues(r: Routing, known: map<Ip, Mac>, s: State, frames: seq<Frame>, pkt: Packet, other: Ip)
    requires WellFormed(pkt) && GoodList(s.list) && NextHop(r, DstIp(pkt)) !in known
    ensures var hop := NextHop(r, DstIp(pkt));
      var (after, out) := AfterSend(r, known, s, frames, pkt);
      && out == frames && after.gone == s.gone
      && Queued(after.list, hop) == Queued(s.list, hop) + [Rewritten(pkt)]
      && (other != hop ==> Queued(after.list, other) == Queued(s.list, other))
      && after.requests == s.requests +
         if Waiting(s, hop) then [] else [ArpRequest(BestMatch(r.table, DstIp(pkt)), hop)]
  {
    var hop := NextHop(r, DstIp(pkt));
    AddQueued(s, Rewritten(pkt), IntFor(r, DstIp(pkt)), hop, hop);
    AddQueued(s, Rewritten(pkt), IntFor(r, DstIp(pkt)), hop, other);
  }

  /**
   * To a known next hop the rewritten packet is written at once, as one frame on the Ethernet interface of
   * longest prefix, from that interface's MAC to the hop's; the queue does not change.
   */
  lemma KnownHopTransmits(r: Routing, known: map<Ip, Mac>, s: State, frames: seq<Frame>, pkt: Packet, best: nat)
    requires WellFormed(pkt) && NextHop(r, DstIp(pkt)) in known
    requires BestMatch(r.table, DstIp(pkt)) == Some(best)
    ensures var (after, out) := AfterSend(r, known, s, frames, pkt);
      && after == s
      && out == frames +
         if r.table[best].kind == Ether
         then [Frame(best, known[NextHop(r, DstIp(pkt))], r.table[best].mac, Rewritten(pkt))]
         else []
  {
    OnlyChecksumsChange(pkt);
  }

  // ---------------------------------------------------------------- the router

  class RouterState {
    const routing: Routing
    const devices: DeviceTable
    const timer: Timer

    /** The IPv4 frames written so far. */
    var frames: seq<Frame>

    ghost predicate Valid()
      reads this, devices, devices.arr, timer, timer.nodes
    {
      && devices.Valid() && timer.Valid()
      && QueueRouted(routing, timer.state.list)
    }

    constructor (routing: Routing)
      ensures Valid() && frames == [] && devices.table == map[] && timer.state == INIT
      ensures this.routing == routing
    {
      this.routing := routing;
      devices := new DeviceTable();
      timer := new Timer();
      frames := [];
    }

    /** `send_ipv4`. */
    method SendIpv4(pkt: array<byte>)
      requires Valid() && WellFormed(pkt[..])
      modifies this, timer, timer.nodes, pkt
      ensures Valid() && pkt[..] == Rewritten(old(pkt[..]))
      ensures (timer.state, frames) ==
        AfterSend(routing, devices.table, old(timer.state), old(frames), old(pkt[..]))
      ensures NextHop(routing, DstIp(old(pkt[..]))) in devices.table ==> timer.nodes == old(timer.nodes)
      ensures forall i :: 0 <= i < |timer.nodes| ==> timer.nodes[i] in old(timer.nodes) || fresh(timer.nodes[i])
    {
      ghost var original := pkt[..];
      RewrittenIsRouted(routing, original);
      RewriteChecksums(pkt);
      QueueOrTransmit(pkt[..]);
    }

    /** The second half of `send_ipv4`, on a packet with its checksums. */
    method QueueOrTransmit(p: Packet)
      requires Valid() && |p| >= 20 && RoutedTo(routing, p, NextHop(routing, DstIp(p)))
      modifies this, timer, timer.nodes
      ensures Valid()
      ensures
        var hop := NextHop(routing, DstIp(p));
        if hop in devices.table
        then
          && timer.state == old(timer.state) && timer.nodes == old(timer.nodes)
          && frames == old(frames) + FramesFor(routing, p, devices.table[hop])
        else
          && timer.state == AddPacket(old(timer.state), p, IntFor(routing, DstIp(p)), hop)
          && frames == old(frames)
      ensures forall i :: 0 <= i < |timer.nodes| ==> timer.nodes[i] in old(timer.nodes) || fresh(timer.nodes[i])
    {
      var hop := ChooseHop(DstIp(p));
      var intId := GetInterfaceForIp(routing.table, DstIp(p));
      var known := devices.HasMac(hop);
      if !known {
        Enqueue(p, intId.value, hop);
      } else {
        WriteFrame(p, intId.value, hop);
      }
    }

    method Enqueue(p: Packet, intId: nat, hop: Ip)
      requires Valid() && RoutedTo(routing, p, hop)
      modifies timer, timer.nodes
      ensures Valid() && timer.state == AddPacket(old(timer.state), p, intId, hop)
      ensures forall i :: 0 <= i < |timer.nodes| ==> timer.nodes[i] in old(timer.nodes) || fresh(timer.nodes[i])
    {
      AddKeepsRouted(routing, timer.state, p, intId, hop);
      timer.TimerAddPacket(p, intId, hop);
    }

    method WriteFrame(p: Packet, intId: nat, hop: Ip)
      requires Valid() && |p| >= 20 && intId == IntFor(routing, DstIp(p)) && hop in devices.table
      modifies `frames
      ensures frames == old(frames) + FramesFor(routing, p, devices.table[hop])
    {
      var mac := devices.GetMac(hop);
      if routing.table[intId].kind == Ether {
        frames := frames + [Frame(intId, mac, routing.table[intId].mac, p)];
      }
    }

    /** The next-hop choice of `send_ipv4`. */
    method ChooseHop(dst: Ip) returns (hop: Ip)
      ensures hop == NextHop(routing, dst)
    {
      var intId := GetInterfaceForIp(routing.table, dst);
      ghost var same := IntFor(routing, dst);
      if routing.table[intId.value].side == LAN {
        return dst;
      }
      var mask := CreateSubnetMask(routing.wanPrefixLen);
      if ApplyMask(mask, dst) == routing.wanNetworkIp {
        return dst;
      }
      return routing.wanGatewayIp;
    }

    /**
     * `ethernet_handle` on an IPv4 frame: the source is learnt but its queue is not released, so a waiting
     * destination may have a known MAC.
     */
    method LearnFromIpv4(srcIp: Ip, srcMac: Mac)
      requires Valid()
      modifies devices, devices.arr
      ensures Valid() && devices.table == old(devices.table)[srcIp := srcMac]
      ensures timer.state == old(timer.state) && frames == old(frames)
    {
      devices.Update(Pair(srcIp, srcMac));
    }

    /** `timer_handler`. */
    method Alarm()
      requires Valid()
      modifies timer, timer.nodes
      ensures Valid() && timer.state == Tick(old(timer.state), routing.table)
    {
      TickKeepsRouted(routing, timer.state);
      timer.TimerHandler(routing.table);
    }

    /**
     * `arp_handle`: the sender's MAC is learnt first, then its queue is released. Every released packet is
     * transmitted to that MAC, in order of arrival and with its bytes unchanged; none is queued again.
     */
    method ArpHandle(hardwareType: u16, protocolType: u16, senderIp: Ip, senderMac: Mac)
      requires Valid()
      modifies this, devices, devices.arr, timer, timer.nodes
      ensures Valid()
      ensures protocolType != 0x0800 || hardwareType != 0x0001 || senderIp == ZERO_IP ==>
        devices.table == old(devices.table) && timer.state == old(timer.state) && frames == old(frames)
      ensures protocolType == 0x0800 && hardwareType == 0x0001 && senderIp != ZERO_IP ==>
        && devices.table == old(devices.table)[senderIp := senderMac]
        && timer.state == Resolve(old(timer.state), senderIp)
        && frames == old(frames) + ReleasedFrames(routing, Queued(old(timer.state.list), senderIp), senderMac)
    {
      if protocolType != 0x0800 || hardwareType != 0x0001 || senderIp == ZERO_IP {
        return;
      }
      devices.Update(Pair(senderIp, senderMac));
      var pkts := Release(senderIp);
      Transmit(pkts, senderIp);
    }

    /** `timer_update_packets` up to the release of the mutex. */
    method Release(ip: Ip) returns (pkts: seq<Packet>)
      requires Valid()
      modifies timer, timer.nodes
      ensures Valid() && timer.state == Resolve(old(timer.state), ip)
      ensures pkts == Queued(old(timer.state.list), ip)
      ensures forall j :: 0 <= j < |pkts| ==> RoutedTo(routing, pkts[j], ip)
      ensures forall i :: 0 <= i < |timer.nodes| ==> timer.nodes[i] in old(timer.nodes)
    {
      ghost var list := timer.state.list;
      ghost var i := IndexOf(list, ip);
      if i < |list| {
        assert NodeRouted(routing, list[i]);
        UnlinkKeepsRouted(routing, list, i);
      }
      ResolvedIsQueued(timer.state, ip);
      pkts := timer.TimerUpdatePackets(ip);
    }

    /** The loop of `timer_update_packets` that sends what was queued. */
    method Transmit(pkts: seq<Packet>, hop: Ip)
      requires Valid() && hop in devices.table
      requires forall j :: 0 <= j < |pkts| ==> RoutedTo(routing, pkts[j], hop)
      modifies this, timer, timer.nodes
      ensures Valid() && timer.state == old(timer.state) && timer.nodes == old(timer.nodes)
      ensures frames == old(frames) + ReleasedFrames(routing, pkts, devices.table[hop])
    {
      ghost var mac, before := devices.table[hop], frames;
      assert pkts[..0] == [];
      for k := 0 to |pkts|
        invariant Valid() && timer.state == old(timer.state) && timer.nodes == old(timer.nodes)
        invariant frames == before + ReleasedFrames(routing, pkts[..k], mac)
      {
        SendNext(pkts, k, hop, before);
      }
      assert pkts[..|pkts|] == pkts;
    }

    /** One round of that loop. */
    method SendNext(pkts: seq<Packet>, k: nat, hop: Ip, ghost before: seq<Frame>)
      requires Valid() && hop in devices.table && k < |pkts| && RoutedTo(routing, pkts[k], hop)
      requires frames == before + ReleasedFrames(routing, pkts[..k], devices.table[hop])
      modifies this, timer, timer.nodes
      ensures Valid() && timer.state == old(timer.state) && timer.nodes == old(timer.nodes)
      ensures frames == before + ReleasedFrames(routing, pkts[..k + 1], devices.table[hop])
    {
      ReleasedOneMore(routing, pkts, k, devices.table[hop]);
      SendReleased(pkts[k], hop);
    }

    /** One released packet: `send_ipv4` rewrites it to itself and finds its MAC. */
    method SendReleased(p: Packet, hop: Ip)
      requires Valid() && hop in devices.table && RoutedTo(routing, p, hop)
      modifies this, timer, timer.nodes
      ensures Valid() && timer.state == old(timer.state) && timer.nodes == old(timer.nodes)
      ensures frames == old(frames) + FramesFor(routing, p, devices.table[hop])
    {
      var buffer := new byte[|p|](i requires 0 <= i < |p| => p[i]);
      assert buffer[..] == p;
      SendIpv4(buffer);
    }
  }
}
