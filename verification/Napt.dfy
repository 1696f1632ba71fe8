/**
 * The two NAPT tables of ipv4.c as finite maps: what an outgoing and an incoming packet do to them, and
 * the round trip of section 2.2 of RFC 3022.
 */
module Napt {
  import opened Net

  /** `napt_extern_key_t`: remote address, public port, remote port, protocol. */
  datatype ExternKey = ExternKey(ipDst: Ip, portSrc: u16, portDst: u16, protocol: byte)

  /** `napt_intern_key_t`: LAN address, LAN port, protocol. It does not name the remote. */
  datatype InternKey = InternKey(ipSrc: Ip, portSrc: u16, protocol: byte)

  /** `napt_entry_t`; the timestamp is always written as 0. */
  datatype Entry = Entry(
    lanIp: Ip, lanPort: u16, publicIp: Ip, publicPort: u16, dstIp: Ip, dstPort: u16, timestamp: u32)

  datatype Tables = Tables(extern: map<ExternKey, Entry>, intern: map<InternKey, Entry>)

  const EMPTY_TABLES := Tables(map[], map[])

  const ATTEMPTS := 10

  /** An outgoing packet as NAPT sees it: LAN endpoint and protocol, remote endpoint. */
  datatype Flow = Flow(lan: InternKey, dstIp: Ip, dstPort: u16)

  function ExternOf(flow: Flow, port: u16): (k: ExternKey) {
    ExternKey(flow.dstIp, port, flow.dstPort, flow.lan.protocol)
  }

  function EntryOf(flow: Flow, publicIp: Ip, port: u16): (e: Entry) {
    Entry(flow.lan.ipSrc, flow.lan.portSrc, publicIp, port, flow.dstIp, flow.dstPort, 0)
  }

  /** The keys under which an entry of this protocol belongs. */
  function ExternKeyOf(e: Entry, protocol: byte): (k: ExternKey) {
    ExternKey(e.dstIp, e.publicPort, e.dstPort, protocol)
  }

  function InternKeyOf(e: Entry, protocol: byte): (k: InternKey) {
    InternKey(e.lanIp, e.lanPort, protocol)
  }

  /** The two tables are in step: each entry stands under both of its keys. */
  predicate InStep(t: Tables) {
    && (forall k :: k in t.extern ==>
        && ExternKeyOf(t.extern[k], k.protocol) == k
        && InternKeyOf(t.extern[k], k.protocol) in t.intern
        && t.intern[InternKeyOf(t.extern[k], k.protocol)] == t.extern[k])
    && (forall k :: k in t.intern ==>
        && InternKeyOf(t.intern[k], k.protocol) == k
        && ExternKeyOf(t.intern[k], k.protocol) in t.extern
        && t.extern[ExternKeyOf(t.intern[k], k.protocol)] == t.intern[k])
  }

  /** `(rand() % (60000 - 1024)) + 1024`. */
  function PublicPort(random: nat): (p: u16)
    ensures 1024 <= p < 60000
  {
    random % (60000 - 1024) + 1024
  }

  /** The first of the drawn ports, from attempt `i` on, under which the remote has no mapping yet. */
  function FreePort(t: Tables, flow: Flow, draws: seq<nat>, i: nat): (p: Option<u16>)
    requires |draws| == ATTEMPTS && i <= ATTEMPTS
    ensures p.Some? ==> p.value >= 1024 && ExternOf(flow, p.value) !in t.extern
    decreases ATTEMPTS - i
  {
    if i == ATTEMPTS then None
    else if ExternOf(flow, PublicPort(draws[i])) !in t.extern then Some(PublicPort(draws[i]))
    else FreePort(t, flow, draws, i + 1)
  }

  /** The tables after a new mapping. */
  function WithMapping(t: Tables, flow: Flow, publicIp: Ip, port: u16): (r: Tables) {
    var e := EntryOf(flow, publicIp, port);
    Tables(t.extern[ExternOf(flow, port) := e], t.intern[flow.lan := e])
  }

  /** The table part of `napt_out_handle`: the public port of the packet, or `None` when it is dropped. */
  function Out(t: Tables, flow: Flow, publicIp: Ip, draws: seq<nat>): (r: (Tables, Option<u16>))
    requires |draws| == ATTEMPTS
  {
    if flow.lan in t.intern then (t, Some(t.intern[flow.lan].publicPort))
    else
      match FreePort(t, flow, draws, 0)
      case None => (t, None)
      case Some(port) => (WithMapping(t, flow, publicIp, port), Some(port))
  }

  /** The key `napt_inc_handle` looks up for a packet from `srcIp`:`srcPort` to public port `dstPort`. */
  function InKey(srcIp: Ip, srcPort: u16, dstPort: u16, protocol: byte): (k: ExternKey) {
    ExternKey(srcIp, dstPort, srcPort, protocol)
  }

  /** The LAN endpoint to which `napt_inc_handle` redirects a packet, or `None` when it drops it. */
  function In(t: Tables, srcIp: Ip, srcPort: u16, dstPort: u16, protocol: byte): (r: Option<InternKey>) {
    var k := InKey(srcIp, srcPort, dstPort, protocol);
    if k in t.extern then Some(InternKey(t.extern[k].lanIp, t.extern[k].lanPort, protocol)) else None
  }

  // ---------------------------------------------------------------- one call

  lemma NewMappingKeepsStep(t: Tables, flow: Flow, publicIp: Ip, port: u16)
    requires InStep(t) && flow.lan !in t.intern && ExternOf(flow, port) !in t.extern
    ensures InStep(WithMapping(t, flow, publicIp, port))
  {
    var r := WithMapping(t, flow, publicIp, port);
    forall k | k in r.extern
      ensures ExternKeyOf(r.extern[k], k.protocol) == k
      ensures InternKeyOf(r.extern[k], k.protocol) in r.intern
      ensures r.intern[InternKeyOf(r.extern[k], k.protocol)] == r.extern[k]
    {
    }
    forall k | k in r.intern
      ensures InternKeyOf(r.intern[k], k.protocol) == k
      ensures ExternKeyOf(r.intern[k], k.protocol) in r.extern
      ensures r.extern[ExternKeyOf(r.intern[k], k.protocol)] == r.intern[k]
    {
    }
  }

  /** An outgoing packet keeps the tables in step and every mapping that was there. */
  lemma OutKeepsStep(t: Tables, flow: Flow, publicIp: Ip, draws: seq<nat>)
    requires InStep(t) && |draws| == ATTEMPTS
    ensures var (r, port) := Out(t, flow, publicIp, draws);
      && InStep(r) && Extends(r, t)
      && (port.Some? <==> flow.lan in r.intern)
      && (port.Some? ==> r.intern[flow.lan].publicPort == port.value)
  {
    if flow.lan !in t.intern {
      match FreePort(t, flow, draws, 0)
      case None =>
      case Some(port) => NewMappingKeepsStep(t, flow, publicIp, port);
    }
  }

  /** Every mapping of `old` is still there unchanged. */
  predicate Extends(t: Tables, before: Tables) {
    && (forall k :: k in before.extern ==> k in t.extern && t.extern[k] == before.extern[k])
    && (forall k :: k in before.intern ==> k in t.intern && t.intern[k] == before.intern[k])
  }

  /** Distinct LAN endpoints have distinct external keys: the tables are in bijection. */
  lemma KeysInBijection(t: Tables, a: InternKey, b: InternKey)
    requires InStep(t) && a in t.intern && b in t.intern
    ensures ExternKeyOf(t.intern[a], a.protocol) == ExternKeyOf(t.intern[b], b.protocol) <==> a == b
    ensures forall k :: k in t.extern ==>
      exists lan :: lan in t.intern && ExternKeyOf(t.intern[lan], lan.protocol) == k
  {
    forall k | k in t.extern
      ensures exists lan :: lan in t.intern && ExternKeyOf(t.intern[lan], lan.protocol) == k
    {
      var lan := InternKeyOf(t.extern[k], k.protocol);
      assert lan in t.intern && ExternKeyOf(t.intern[lan], lan.protocol) == k;
    }
  }

  /**
   * A packet from a remote to the public port of LAN endpoint `lan` is redirected to that endpoint if and
   * only if the remote is the one for which the mapping was created. For other remotes that a reused
   * mapping sends to, there is no way back.
   */
  lemma ReplyReturnsIff(t: Tables, lan: InternKey, srcIp: Ip, srcPort: u16)
    requires InStep(t) && lan in t.intern
    ensures In(t, srcIp, srcPort, t.intern[lan].publicPort, lan.protocol) == Some(lan)
      <==> srcIp == t.intern[lan].dstIp && srcPort == t.intern[lan].dstPort
  {
    var e := t.intern[lan];
    var k := InKey(srcIp, srcPort, e.publicPort, lan.protocol);
    assert ExternKeyOf(e, lan.protocol) in t.extern;
    if k in t.extern {
      var lan' := InternKeyOf(t.extern[k], k.protocol);
      assert t.intern[lan'] == t.extern[k];
    }
  }

  /** A new mapping exists exactly when one of the ten drawn ports is free for this remote. */
  lemma {:induction false} FreePortIff(t: Tables, flow: Flow, draws: seq<nat>, i: nat)
    requires |draws| == ATTEMPTS && i <= ATTEMPTS
    ensures FreePort(t, flow, draws, i) == None
      <==> forall j :: i <= j < ATTEMPTS ==> ExternOf(flow, PublicPort(draws[j])) in t.extern
    decreases ATTEMPTS - i
  {
    if i < ATTEMPTS {
      FreePortIff(t, flow, draws, i + 1);
    }
  }

  /**
   * An outgoing packet of a mapped endpoint takes its port and changes nothing. One of an unmapped endpoint
   * takes the first drawn port that its remote has no mapping for, and the mapping is entered under both
   * keys, from the endpoint by that port to the remote; without such a port nothing changes.
   */
  lemma OutEffect(t: Tables, flow: Flow, publicIp: Ip, draws: seq<nat>)
    requires |draws| == ATTEMPTS
    ensures var (r, port) := Out(t, flow, publicIp, draws);
      var lan := flow.lan;
      if lan in t.intern then r == t && port == Some(t.intern[lan].publicPort)
      else if port == None then r == t && forall j :: 0 <= j < ATTEMPTS ==> PortTaken(t, flow, draws[j])
      else
        var key := ExternKey(flow.dstIp, port.value, flow.dstPort, lan.protocol);
        var e := Entry(lan.ipSrc, lan.portSrc, publicIp, port.value, flow.dstIp, flow.dstPort, 0);
        && r == Tables(t.extern[key := e], t.intern[lan := e])
        && exists j :: 0 <= j < ATTEMPTS && IsFirstFree(t, flow, draws, j) && port.value == draws[j] % 58976 + 1024
  {
    if flow.lan !in t.intern {
      FirstFreePort(t, flow, draws, 0);
    }
  }

  predicate PortTaken(t: Tables, flow: Flow, draw: nat) {
    ExternKey(flow.dstIp, PublicPort(draw), flow.dstPort, flow.lan.protocol) in t.extern
  }

  predicate IsFirstFree(t: Tables, flow: Flow, draws: seq<nat>, j: nat)
    requires j < |draws|
  {
    !PortTaken(t, flow, draws[j]) && forall i :: 0 <= i < j ==> PortTaken(t, flow, draws[i])
  }

  lemma {:induction false} FirstFreePort(t: Tables, flow: Flow, draws: seq<nat>, i: nat)
    requires |draws| == ATTEMPTS && i <= ATTEMPTS && forall j :: 0 <= j < i ==> PortTaken(t, flow, draws[j])
    ensures var port := FreePort(t, flow, draws, i);
      if port == None then forall j :: 0 <= j < ATTEMPTS ==> PortTaken(t, flow, draws[j])
      else exists j :: 0 <= j < ATTEMPTS && IsFirstFree(t, flow, draws, j) && port.value == draws[j] % 58976 + 1024
    decreases ATTEMPTS - i
  {
    if i < ATTEMPTS {
      if PortTaken(t, flow, draws[i]) {
        FirstFreePort(t, flow, draws, i + 1);
      } else {
        assert IsFirstFree(t, flow, draws, i);
      }
    }
  }

  // ---------------------------------------------------------------- whole runs

  /** An outgoing packet with the ten random numbers it may draw. Incoming packets change no table. */
  datatype Sent = Sent(flow: Flow, draws: seq<nat>)

  predicate Drawable(run: seq<Sent>) {
    forall i :: 0 <= i < |run| ==> |run[i].draws| == ATTEMPTS
  }

  function After(t: Tables, publicIp: Ip, run: seq<Sent>): (r: Tables)
    requires Drawable(run)
    decreases |run|
  {
    if run == [] then t
    else
      assert |run[0].draws| == ATTEMPTS;
      After(Out(t, run[0].flow, publicIp, run[0].draws).0, publicIp, run[1..])
  }

  lemma {:induction false} RunKeepsStep(t: Tables, publicIp: Ip, run: seq<Sent>)
    requires InStep(t) && Drawable(run)
    ensures InStep(After(t, publicIp, run)) && Extends(After(t, publicIp, run), t)
    decreases |run|
  {
    if run != [] {
      var next := Out(t, run[0].flow, publicIp, run[0].draws).0;
      OutKeepsStep(t, run[0].flow, publicIp, run[0].draws);
      RunKeepsStep(next, publicIp, run[1..]);
    }
  }

  /**
   * The round trip over whole runs. An outgoing packet that creates a mapping leaves with some public
   * port; after any further traffic, whatever the creating remote sends to that port comes back to the
   * LAN endpoint, and whatever the endpoint sends with that protocol leaves by that port.
   */
  lemma RoundTrip(publicIp: Ip, before: seq<Sent>, flow: Flow, draws: seq<nat>, later: seq<Sent>,
                  dstIp: Ip, dstPort: u16, more: seq<nat>)
    requires Drawable(before) && Drawable(later) && |draws| == |more| == ATTEMPTS
    requires flow.lan !in After(EMPTY_TABLES, publicIp, before).intern
    ensures var t := After(EMPTY_TABLES, publicIp, before);
      var (created, port) := Out(t, flow, publicIp, draws);
      var end := After(created, publicIp, later);
      port.Some? ==>
        && In(end, flow.dstIp, flow.dstPort, port.value, flow.lan.protocol) == Some(flow.lan)
        && Out(end, Flow(flow.lan, dstIp, dstPort), publicIp, more) == (end, port)
  {
    var t := After(EMPTY_TABLES, publicIp, before);
    RunKeepsStep(EMPTY_TABLES, publicIp, before);
    var (created, port) := Out(t, flow, publicIp, draws);
    OutKeepsStep(t, flow, publicIp, draws);
    RunKeepsStep(created, publicIp, later);
    var end := After(created, publicIp, later);
    if port.Some? {
      assert created.intern[flow.lan] == EntryOf(flow, publicIp, port.value);
      assert end.intern[flow.lan] == created.intern[flow.lan];
      ReplyReturnsIff(end, flow.lan, flow.dstIp, flow.dstPort);
    }
  }

  // ---------------------------------------------------------------- the firewall

  /** `sent` went to the remote of an external key, with its protocol. */
  predicate AskedFor(sent: Sent, k: ExternKey) {
    sent.flow.dstIp == k.ipDst && sent.flow.dstPort == k.portDst && sent.flow.lan.protocol == k.protocol
  }

  /** Every mapping goes back to an outgoing packet from its LAN endpoint to exactly its remote. */
  lemma {:induction false} MappingsWereAskedFor(t: Tables, publicIp: Ip, run: seq<Sent>, k: ExternKey)
    requires Drawable(run) && k in After(t, publicIp, run).extern && k !in t.extern
    ensures exists i: nat ::
      && i < |run| && AskedFor(run[i], k)
      && InternKeyOf(After(t, publicIp, run).extern[k], k.protocol) == run[i].flow.lan
    decreases |run|
  {
    var next := Out(t, run[0].flow, publicIp, run[0].draws).0;
    if k in next.extern {
      assert AskedFor(run[0], k);
      MappingStays(next, publicIp, run[1..], k);
    } else {
      MappingsWereAskedFor(next, publicIp, run[1..], k);
      var i: nat :| i < |run[1..]| && AskedFor(run[1..][i], k)
        && InternKeyOf(After(t, publicIp, run).extern[k], k.protocol) == run[1..][i].flow.lan;
      assert AskedFor(run[i + 1], k);
    }
  }

  lemma {:induction false} MappingStays(t: Tables, publicIp: Ip, run: seq<Sent>, k: ExternKey)
    requires Drawable(run) && k in t.extern
    ensures k in After(t, publicIp, run).extern && After(t, publicIp, run).extern[k] == t.extern[k]
    decreases |run|
  {
    if run != [] {
      MappingStays(Out(t, run[0].flow, publicIp, run[0].draws).0, publicIp, run[1..], k);
    }
  }

  /**
   * Over whole runs an incoming packet is let in only as the answer to an earlier outgoing packet to
   * exactly its source, and then to the endpoint that sent it.
   */
  lemma OnlyAnswersEnter(publicIp: Ip, run: seq<Sent>, srcIp: Ip, srcPort: u16, dstPort: u16, protocol: byte)
    requires Drawable(run)
    ensures var lan := In(After(EMPTY_TABLES, publicIp, run), srcIp, srcPort, dstPort, protocol);
      lan.Some? ==>
        exists i: nat :: i < |run| && run[i].flow == Flow(lan.value, srcIp, srcPort)
  {
    var k := InKey(srcIp, srcPort, dstPort, protocol);
    if k in After(EMPTY_TABLES, publicIp, run).extern {
      MappingsWereAskedFor(EMPTY_TABLES, publicIp, run, k);
    }
  }
}
