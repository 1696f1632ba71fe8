/** ipv4.c on packets: which way a packet goes, and how NAPT rewrites its addresses and ports. */
module Ipv4 {
  import opened Net
  import opened Outgoing
  import opened Napt
  import opened NaptTables

  function SrcIp(p: Packet): (ip: Ip)
    requires |p| >= 20
  {
    ReadIp(p, 12)
  }

  function DstIp(p: Packet): (ip: Ip)
    requires |p| >= 20
  {
    ReadIp(p, 16)
  }

  /** Ports in host order; TCP and UDP keep them in the same place. */
  function SrcPort(p: Packet): (port: u16)
    requires |p| >= 20 && HeaderLength(p) + 4 <= |p|
  {
    Ntohs(p, HeaderLength(p))
  }

  function DstPort(p: Packet): (port: u16)
    requires |p| >= 20 && HeaderLength(p) + 4 <= |p|
  {
    Ntohs(p, HeaderLength(p) + 2)
  }

  predicate Translatable(p: Packet)
    requires |p| >= 20
  {
    p[9] == PROTO_TCP || p[9] == PROTO_UDP
  }

  /** The header and the ports lie in the buffer, and the transport header does not overlap the header. */
  predicate HasPorts(p: Packet) {
    |p| >= 20 && 20 <= HeaderLength(p) && HeaderLength(p) + 4 <= |p|
  }

  /** What ipv4.c reads of a packet: the header, and the ports of TCP and UDP. */
  predicate Readable(p: Packet) {
    |p| >= 20 && (Translatable(p) ==> HasPorts(p))
  }

  function WithIp(p: Packet, o: nat, ip: Ip): (r: Packet)
    requires o + 4 <= |p|
    ensures |r| == |p| && ReadIp(r, o) == ip
    ensures forall i :: 0 <= i < |p| && !(o <= i < o + 4) ==> r[i] == p[i]
  {
    p[o := ip.b0][o + 1 := ip.b1][o + 2 := ip.b2][o + 3 := ip.b3]
  }

  /** `from_port`: the port stored in network order. */
  function WithPort(p: Packet, o: nat, port: u16): (r: Packet)
    requires o + 2 <= |p|
    ensures |r| == |p| && Ntohs(r, o) == port
    ensures forall i :: 0 <= i < |p| && !(o <= i < o + 2) ==> r[i] == p[i]
  {
    p[o := port / 0x100][o + 1 := port % 0x100]
  }

  function FlowOf(p: Packet): (f: Flow)
    requires HasPorts(p)
  {
    Flow(InternKey(SrcIp(p), SrcPort(p), p[9]), DstIp(p), DstPort(p))
  }

  /** What `napt_out_handle` makes of a packet for which it has a public port. */
  function OutRewritten(p: Packet, publicIp: Ip, port: u16): (r: Packet)
    requires HasPorts(p)
  {
    WithPort(WithIp(p, 12, publicIp), HeaderLength(p), port)
  }

  /** What `napt_inc_handle` makes of a packet for a LAN endpoint. */
  function InRewritten(p: Packet, lan: InternKey): (r: Packet)
    requires HasPorts(p)
  {
    WithPort(WithIp(p, 16, lan.ipSrc), HeaderLength(p) + 2, lan.portSrc)
  }

  /** `napt_out_handle`: the tables after it, and the packet it gives to `send_ipv4`. */
  function TranslatedOut(t: Tables, p: Packet, publicIp: Ip, draws: seq<nat>): (r: (Tables, Option<Packet>))
    requires Readable(p) && |draws| == ATTEMPTS
  {
    if !Translatable(p) then (t, None)
    else
      var (next, port) := Out(t, FlowOf(p), publicIp, draws);
      (next, if port.Some? then Some(OutRewritten(p, publicIp, port.value)) else None)
  }

  /** The LAN endpoint of an incoming packet; other protocols than TCP and UDP have none. */
  function Endpoint(t: Tables, p: Packet): (lan: Option<InternKey>)
    requires Readable(p)
  {
    if Translatable(p) then In(t, SrcIp(p), SrcPort(p), DstPort(p), p[9]) else None
  }

  /** `napt_inc_handle`: the packet it gives to `send_ipv4`. */
  function TranslatedIn(t: Tables, p: Packet): (r: Option<Packet>)
    requires Readable(p)
  {
    var lan := Endpoint(t, p);
    if lan.Some? then Some(InRewritten(p, lan.value)) else None
  }

  // ---------------------------------------------------------------- the rewrites undo each other

  /** The outgoing rewrite replaces the source endpoint and nothing else. */
  lemma OutRewriteEffect(p: Packet, publicIp: Ip, port: u16)
    requires HasPorts(p)
    ensures var q := OutRewritten(p, publicIp, port);
      && HasPorts(q) && SrcIp(q) == publicIp && SrcPort(q) == port
      && DstIp(q) == DstIp(p) && DstPort(q) == DstPort(p) && q[9] == p[9]
      && |q| == |p|
      && forall i :: 0 <= i < |p| && !(12 <= i < 16) && !(HeaderLength(p) <= i < HeaderLength(p) + 2) ==> q[i] == p[i]
  {
  }

  /** The incoming rewrite replaces the destination endpoint and nothing else. */
  lemma InRewriteEffect(p: Packet, lan: InternKey)
    requires HasPorts(p)
    ensures var q := InRewritten(p, lan);
      && HasPorts(q) && DstIp(q) == lan.ipSrc && DstPort(q) == lan.portSrc
      && SrcIp(q) == SrcIp(p) && SrcPort(q) == SrcPort(p) && q[9] == p[9]
      && |q| == |p|
      && forall i :: 0 <= i < |p| && !(16 <= i < 20) && !(HeaderLength(p) + 2 <= i < HeaderLength(p) + 4) ==>
          q[i] == p[i]
  {
  }

  /** A packet that answers `q`: it comes from where `q` went and goes to where `q` came from. */
  predicate Answers(reply: Packet, q: Packet)
    requires HasPorts(q)
  {
    && HasPorts(reply)
    && SrcIp(reply) == DstIp(q) && SrcPort(reply) == DstPort(q)
    && DstIp(reply) == SrcIp(q) && DstPort(reply) == SrcPort(q) && reply[9] == q[9]
  }

  /**
   * The round trip on packets. A LAN packet that creates a mapping leaves as `q`; after any further
   * traffic a packet that answers `q` is rewritten so that it answers the original LAN packet.
   */
  lemma PacketRoundTrip(publicIp: Ip, before: seq<Sent>, p: Packet, draws: seq<nat>, later: seq<Sent>,
                        reply: Packet, port: u16)
    requires Drawable(before) && Drawable(later) && |draws| == ATTEMPTS && HasPorts(p)
    requires FlowOf(p).lan !in After(EMPTY_TABLES, publicIp, before).intern
    requires Out(After(EMPTY_TABLES, publicIp, before), FlowOf(p), publicIp, draws).1 == Some(port)
    requires Answers(reply, OutRewritten(p, publicIp, port))
    ensures var created := Out(After(EMPTY_TABLES, publicIp, before), FlowOf(p), publicIp, draws).0;
      var lan := In(After(created, publicIp, later), SrcIp(reply), SrcPort(reply), DstPort(reply), reply[9]);
      lan.Some? && Answers(InRewritten(reply, lan.value), p)
  {
    OutRewriteEffect(p, publicIp, port);
    RoundTrip(publicIp, before, FlowOf(p), draws, later, DstIp(p), DstPort(p), draws);
    InRewriteEffect(reply, FlowOf(p).lan);
  }

  // ---------------------------------------------------------------- in place

  method StoreIp(pkt: array<byte>, o: nat, ip: Ip)
    requires o + 4 <= pkt.Length
    modifies pkt
    ensures pkt[..] == WithIp(old(pkt[..]), o, ip)
  {
    pkt[o], pkt[o + 1], pkt[o + 2], pkt[o + 3] := ip.b0, ip.b1, ip.b2, ip.b3;
  }

  method StorePort(pkt: array<byte>, o: nat, port: u16)
    requires o + 2 <= pkt.Length
    modifies pkt
    ensures pkt[..] == WithPort(old(pkt[..]), o, port)
  {
    pkt[o] := port / 0x100;
    pkt[o + 1] := port % 0x100;
  }

  method RewriteSource(pkt: array<byte>, at: nat, publicIp: Ip, port: u16)
    requires HasPorts(pkt[..]) && at == HeaderLength(pkt[..])
    modifies pkt
    ensures pkt[..] == OutRewritten(old(pkt[..]), publicIp, port)
  {
    StoreIp(pkt, 12, publicIp);
    StorePort(pkt, at, port);
  }

  method RewriteDestination(pkt: array<byte>, at: nat, lan: InternKey)
    requires HasPorts(pkt[..]) && at == HeaderLength(pkt[..])
    modifies pkt
    ensures pkt[..] == InRewritten(old(pkt[..]), lan)
  {
    StoreIp(pkt, 16, lan.ipSrc);
    StorePort(pkt, at + 2, lan.portSrc);
  }

  /** `napt_out_handle`; `send` says whether the rewritten packet goes on to `send_ipv4`. */
  method NaptOutHandle(napt: NaptState, pkt: array<byte>, publicIp: Ip, draws: seq<nat>) returns (send: bool)
    requires napt.Valid() && Readable(pkt[..]) && |draws| == ATTEMPTS
    requires pkt != napt.extern.store.data && pkt != napt.intern.store.data
    modifies pkt, napt.extern, napt.extern.store, napt.extern.store.data
    modifies napt.intern, napt.intern.store, napt.intern.store.data
    ensures napt.Valid() && pkt != napt.extern.store.data && pkt != napt.intern.store.data
    ensures
      var (t, out) := TranslatedOut(old(napt.View()), old(pkt[..]), publicIp, draws);
      && napt.View() == t && send == out.Some?
      && pkt[..] == if out.Some? then out.value else old(pkt[..])
  {
    var p := pkt[..];
    var at := HeaderLength(p);
    var protocol := p[9];
    if protocol != 6 && protocol != 17 {
      return false;
    }
    var port := napt.OutPort(FlowOf(p), publicIp, draws);
    if port.None? {
      return false;
    }
    RewriteSource(pkt, at, publicIp, port.value);
    return true;
  }

  /** The lookup of `napt_inc_handle`. */
  method LanEndpoint(napt: NaptState, p: Packet) returns (lan: Option<InternKey>)
    requires napt.Valid() && Readable(p)
    ensures lan == Endpoint(napt.View(), p)
  {
    if p[9] != 6 && p[9] != 17 {
      return None;
    }
    lan := napt.InEndpoint(SrcIp(p), SrcPort(p), DstPort(p), p[9]);
  }

  /** `napt_inc_handle`. */
  method NaptIncHandle(napt: NaptState, pkt: array<byte>) returns (send: bool)
    requires napt.Valid() && Readable(pkt[..])
    requires pkt != napt.extern.store.data && pkt != napt.intern.store.data
    modifies pkt
    ensures napt.Valid() && napt.View() == old(napt.View())
    ensures
      var out := TranslatedIn(old(napt.View()), old(pkt[..]));
      send == out.Some? && pkt[..] == if out.Some? then out.value else old(pkt[..])
  {
    var lan := LanEndpoint(napt, pkt[..]);
    if lan.None? {
      return false;
    }
    RewriteDestination(pkt, HeaderLength(pkt[..]), lan.value);
    return true;
  }
}
