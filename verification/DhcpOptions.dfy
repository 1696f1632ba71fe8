/** The replies that dhcp.c writes, and the option loops with which it reads packets. */
module DhcpOptions {
  import opened Net
  import DhcpLeases

  const BUFFER_SIZE := 1024
  const HEADER_SIZE := 240
  /** `240 * 4`, where the replies put their options. */
  const OPTIONS_AT := 960
  const REPLY_SIZE := 994

  const OPTION_SUBNET_MASK: byte := 1
  const OPTION_ROUTER: byte := 3
  const OPTION_DNS: byte := 6
  const OPTION_REQUESTED_IP: byte := 50
  const OPTION_LEASE_TIME: byte := 51
  const OPTION_MESSAGE_TYPE: byte := 53
  const END: byte := 255

  /** `htonl(18000)` in memory. */
  const LEASE_TIME: seq<byte> := IpBytes(DhcpLeases.FromNumber(DhcpLeases.ANNOUNCED_SECONDS))
  const SUBNET_MASK: seq<byte> := [255, 255, 255, 0]
  const ROUTER: seq<byte> := [192, 168, 1, 1]
  const DNS: seq<byte> := [8, 8, 8, 8]

  // ---------------------------------------------------------------- reading

  /** Where an option loop ends: at the option, at the end mark or limit, or beyond the buffer. */
  datatype Scan = Found(data: seq<byte>) | Missing | BeyondBuffer

  /**
   * The loops of `handle_dhcp_packet` (one data byte) and `extract_requested_ip` (four) from position `at`.
   * The C code reads without looking at the buffer's end; such a read is `BeyondBuffer`.
   */
  function ScanFrom(buffer: seq<byte>, code: byte, size: nat, at: nat, limit: nat): (r: Scan)
    decreases |buffer| - at
  {
    if at >= |buffer| then BeyondBuffer
    else if buffer[at] == END || at >= limit then Missing
    else if at + 1 >= |buffer| then BeyondBuffer
    else if buffer[at] == code then
      if at + 2 + size <= |buffer| then Found(buffer[at + 2..at + 2 + size]) else BeyondBuffer
    else ScanFrom(buffer, code, size, at + 2 + buffer[at + 1], limit)
  }

  method ReadOption(buffer: seq<byte>, code: byte, size: nat, limit: nat) returns (r: Scan)
    ensures r == ScanFrom(buffer, code, size, HEADER_SIZE, limit)
  {
    var options: nat := HEADER_SIZE;
    while options < |buffer| && buffer[options] != END && options < limit
      invariant ScanFrom(buffer, code, size, HEADER_SIZE, limit) == ScanFrom(buffer, code, size, options, limit)
      decreases |buffer| - options
    {
      if options + 1 >= |buffer| {
        return BeyondBuffer;
      }
      var optionType := buffer[options];
      var optionLen: int := buffer[options + 1];
      if optionType == code {
        if options + 2 + size <= |buffer| {
          return Found(buffer[options + 2..options + 2 + size]);
        }
        return BeyondBuffer;
      }
      options := options + 2 + optionLen;
    }
    return if options < |buffer| then Missing else BeyondBuffer;
  }

  /** A reader that follows RFC 2132: section 3.1 makes a zero a padding byte without a length. */
  function ScanPadded(buffer: seq<byte>, code: byte, size: nat, at: nat, limit: nat): (r: Scan)
    decreases |buffer| - at
  {
    if at >= |buffer| then BeyondBuffer
    else if buffer[at] == END || at >= limit then Missing
    else if buffer[at] == 0 then ScanPadded(buffer, code, size, at + 1, limit)
    else if at + 1 >= |buffer| then BeyondBuffer
    else if buffer[at] == code then
      if at + 2 + size <= |buffer| then Found(buffer[at + 2..at + 2 + size]) else BeyondBuffer
    else ScanPadded(buffer, code, size, at + 2 + buffer[at + 1], limit)
  }

  // ---------------------------------------------------------------- writing

  function Option4(code: byte, data: seq<byte>): (b: seq<byte>)
    requires |data| == 4
    ensures |b| == 6
  {
    [code, 4] + data
  }

  function Options(kind: byte, ip: seq<byte>): (b: seq<byte>)
    requires |ip| == 4
    ensures |b| == 34
  {
    [OPTION_MESSAGE_TYPE, 1, kind]
    + Option4(OPTION_REQUESTED_IP, ip)
    + Option4(OPTION_LEASE_TIME, LEASE_TIME)
    + Option4(OPTION_SUBNET_MASK, SUBNET_MASK)
    + Option4(OPTION_ROUTER, ROUTER)
    + Option4(OPTION_DNS, DNS)
    + [END]
  }

  /** The first 240 bytes: the client's, made a reply for `ip`; an offer also names the router as relay. */
  function Header(request: seq<byte>, ip: seq<byte>, offer: bool): (b: seq<byte>)
    requires |request| == HEADER_SIZE && |ip| == 4
    ensures |b| == HEADER_SIZE
  {
    [2] + request[1..16] + ip + request[20..24] + (if offer then ROUTER else request[24..28]) + request[28..]
  }

  lemma HeaderForms(request: seq<byte>, ip: seq<byte>)
    requires |request| == HEADER_SIZE && |ip| == 4
    ensures var h := [2] + request[1..16] + ip + request[20..];
      && |h| == HEADER_SIZE
      && Header(request, ip, false) == h
      && Header(request, ip, true) == h[..24] + ROUTER + h[28..]
  {
    var h := [2] + request[1..16] + ip + request[20..];
    assert request[20..] == request[20..24] + request[24..28] + request[28..];
    assert h[..24] == [2] + request[1..16] + ip + request[20..24];
    assert h[28..] == request[28..];
  }

  /** The packet that `send_dhcp_offer` or `send_dhcp_ack` sends. */
  function Reply(request: seq<byte>, ip: seq<byte>, kind: byte, offer: bool): (b: seq<byte>)
    requires |request| == HEADER_SIZE && |ip| == 4
    ensures |b| == REPLY_SIZE
  {
    Header(request, ip, offer) + Zeros(720) + Options(kind, ip)
  }

  class Writer {
    const packet: array<byte>
    /** `options`. */
    var at: nat

    constructor ()
      ensures packet.Length == BUFFER_SIZE && packet[..] == Zeros(BUFFER_SIZE) && fresh(packet) && at == OPTIONS_AT
    {
      packet := new byte[BUFFER_SIZE](_ => 0);
      at := OPTIONS_AT;
      new;
      assert packet[..] == Zeros(BUFFER_SIZE);
    }

    /** `memcpy(packet + o, data, |data|)`. */
    method Copy(o: nat, data: seq<byte>)
      requires o + |data| <= packet.Length
      modifies packet
      ensures packet[..] == old(packet[..o]) + data + old(packet[o + |data|..])
    {
      ghost var s := packet[..];
      forall i | 0 <= i < |data| {
        packet[o + i] := data[i];
      }
      assert packet[..] == s[..o] + data + s[o + |data|..];
    }

    /** The first 240 bytes. */
    method PutHeader(request: seq<byte>, ip: seq<byte>, offer: bool)
      requires packet.Length == BUFFER_SIZE && packet[..] == Zeros(BUFFER_SIZE)
      requires |request| == HEADER_SIZE && |ip| == 4
      modifies packet
      ensures packet[..] == Header(request, ip, offer) + Zeros(784)
    {
      PutRequest(request, ip);
      HeaderForms(request, ip);
      ghost var h := [2] + request[1..16] + ip + request[20..];
      assert packet[..] == h + Zeros(784);
      if offer {
        Copy(24, ROUTER);
        assert packet[..] == h[..24] + ROUTER + h[28..] + Zeros(784);
      }
    }

    /** The client's header with the operation code and `yiaddr` of the reply. */
    method PutRequest(request: seq<byte>, ip: seq<byte>)
      requires packet.Length == BUFFER_SIZE && packet[..] == Zeros(BUFFER_SIZE)
      requires |request| == HEADER_SIZE && |ip| == 4
      modifies packet
      ensures packet[..] == [2] + request[1..16] + ip + request[20..] + Zeros(784)
    {
      Copy(0, request);
      assert packet[..] == request + Zeros(784);
      Copy(0, [2]);
      ghost var s := [2] + request[1..] + Zeros(784);
      assert packet[..] == s;
      assert s[..16] == [2] + request[1..16] && s[20..] == request[20..] + Zeros(784);
      Copy(16, ip);
    }

    /** `*(options++) = ...`, byte after byte, behind what is `done`. */
    method Put(data: seq<byte>, ghost done: seq<byte>)
      requires packet.Length == BUFFER_SIZE && |done| == at && at + |data| <= BUFFER_SIZE
      requires packet[..] == done + Zeros(BUFFER_SIZE - |done|)
      modifies packet, `at
      ensures at == old(at) + |data|
      ensures packet[..] == done + data + Zeros(BUFFER_SIZE - at)
    {
      Copy(at, data);
      at := at + |data|;
    }
  }

  /** `send_dhcp_offer` and `send_dhcp_ack` up to `sendto`. */
  method BuildReply(request: seq<byte>, ip: seq<byte>, kind: byte, offer: bool) returns (sent: seq<byte>)
    requires |request| == HEADER_SIZE && |ip| == 4
    ensures sent == Reply(request, ip, kind, offer)
  {
    var w := new Writer();
    w.PutHeader(request, ip, offer);
    ghost var done := Header(request, ip, offer) + Zeros(720);
    assert w.packet[..] == done + Zeros(64);
    WriteOptions(w, ip, kind, done);
    sent := w.packet[..w.at];
    assert sent == done + Options(kind, ip);
  }

  method WriteOptions(w: Writer, ip: seq<byte>, kind: byte, ghost start: seq<byte>)
    requires |ip| == 4 && w.packet.Length == BUFFER_SIZE && |start| == w.at == OPTIONS_AT
    requires w.packet[..] == start + Zeros(64)
    modifies w.packet, w`at
    ensures w.at == REPLY_SIZE && w.packet[..] == start + Options(kind, ip) + Zeros(30)
  {
    ghost var done := start;
    w.Put([OPTION_MESSAGE_TYPE, 1, kind], done);
    done := done + [OPTION_MESSAGE_TYPE, 1, kind];
    w.Put(Option4(OPTION_REQUESTED_IP, ip), done);
    done := done + Option4(OPTION_REQUESTED_IP, ip);
    w.Put(Option4(OPTION_LEASE_TIME, LEASE_TIME), done);
    done := done + Option4(OPTION_LEASE_TIME, LEASE_TIME);
    w.Put(Option4(OPTION_SUBNET_MASK, SUBNET_MASK), done);
    done := done + Option4(OPTION_SUBNET_MASK, SUBNET_MASK);
    w.Put(Option4(OPTION_ROUTER, ROUTER), done);
    done := done + Option4(OPTION_ROUTER, ROUTER);
    w.Put(Option4(OPTION_DNS, DNS), done);
    done := done + Option4(OPTION_DNS, DNS);
    w.Put([END], done);
    assert done + [END] == start + Options(kind, ip);
  }

  // ---------------------------------------------------------------- the round trip

  /** Zero bytes are stepped over two at a time: exactly onto position `end` when the gap is even. */
  lemma {:induction false} GapSkipped(buffer: seq<byte>, code: byte, size: nat, at: nat, end: nat, limit: nat)
    requires at <= end < |buffer| && end < limit && (end - at) % 2 == 0 && code != 0
    requires forall i :: at <= i < end ==> buffer[i] == 0
    ensures ScanFrom(buffer, code, size, at, limit) == ScanFrom(buffer, code, size, end, limit)
    decreases end - at
  {
    if at < end {
      GapSkipped(buffer, code, size, at + 2, end, limit);
    }
  }

  lemma {:induction false} PaddingSkipped(buffer: seq<byte>, code: byte, size: nat, at: nat, end: nat, limit: nat)
    requires at <= end < |buffer| && end < limit
    requires forall i :: at <= i < end ==> buffer[i] == 0
    ensures ScanPadded(buffer, code, size, at, limit) == ScanPadded(buffer, code, size, end, limit)
    decreases end - at
  {
    if at < end {
      PaddingSkipped(buffer, code, size, at + 1, end, limit);
    }
  }

  // ---------------------------------------------------------------- any option list

  /** One option of a client's message. */
  datatype Opt = Opt(code: byte, data: seq<byte>)

  predicate Listable(opts: seq<Opt>) {
    forall i :: 0 <= i < |opts| ==> opts[i].code != END && |opts[i].data| < 0x100
  }

  /** The bytes of an option list, section 2 of RFC 2132: code, length, data. */
  function Listing(opts: seq<Opt>): (b: seq<byte>)
    requires Listable(opts)
  {
    if opts == [] then [] else [opts[0].code, |opts[0].data|] + opts[0].data + Listing(opts[1..])
  }

  /** The data of the first option with the code. */
  function FirstWith(opts: seq<Opt>, code: byte): (data: Option<seq<byte>>) {
    if opts == [] then None else if opts[0].code == code then Some(opts[0].data) else FirstWith(opts[1..], code)
  }

  /**
   * From any well-formed option list, whatever comes before and behind it, the option loops read the first
   * option with the code, stepping over options of any length, and miss a code that is not there.
   */
  lemma {:induction false} ScanFindsFirst(front: seq<byte>, opts: seq<Opt>, tail: seq<byte>, code: byte, size: nat,
                                          limit: nat)
    requires Listable(opts) && |front| + |Listing(opts)| <= limit
    ensures var data := FirstWith(opts, code);
      var r := ScanFrom(front + Listing(opts) + [END] + tail, code, size, |front|, limit);
      && (data.None? ==> r == Missing)
      && (data.Some? && size <= |data.value| ==> r == Found(data.value[..size]))
    decreases |opts|
  {
    var buffer := front + Listing(opts) + [END] + tail;
    if opts == [] {
      assert buffer[|front|] == END;
    } else {
      var o, rest := opts[0], Listing(opts[1..]);
      var head := [o.code, |o.data|] + o.data;
      OptionInBuffer(front, o, rest + [END] + tail);
      assert buffer == front + head + (rest + [END] + tail);
      if o.code != code {
        assert buffer == (front + head) + rest + [END] + tail;
        ScanFindsFirst(front + head, opts[1..], tail, code, size, limit);
      }
    }
  }

  lemma OptionInBuffer(front: seq<byte>, o: Opt, rest: seq<byte>)
    requires |o.data| < 0x100
    ensures var b := front + ([o.code, |o.data|] + o.data) + rest;
      && b[|front|] == o.code && b[|front| + 1] == |o.data|
      && forall n :: 0 <= n <= |o.data| ==> b[|front| + 2..|front| + 2 + n] == o.data[..n]
  {
    var b := front + ([o.code, |o.data|] + o.data) + rest;
    assert forall k :: 0 <= k < |o.data| ==> b[|front| + 2 + k] == o.data[k];
  }

  // ---------------------------------------------------------------- the replies

  /**
   * The bytes of a reply: a BOOTREPLY with the client's header, the offered address, for an offer the router
   * as relay, a gap of zeros, and the options with their values in network order.
   */
  lemma ReplyLayout(request: seq<byte>, ip: seq<byte>, kind: byte, offer: bool)
    requires |request| == 240 && |ip| == 4
    ensures var b := Reply(request, ip, kind, offer);
      && |b| == 994 && b[0] == 2 && b[1..16] == request[1..16] && b[16..20] == ip
      && b[20..24] == request[20..24] && b[24..28] == (if offer then [192, 168, 1, 1] else request[24..28])
      && b[28..240] == request[28..240] && (forall i :: 240 <= i < 960 ==> b[i] == 0)
      && b[960..963] == [53, 1, kind] && b[963..969] == [50, 4] + ip
      && b[969..971] == [51, 4] && IpNumber(Ip(b[971], b[972], b[973], b[974])) == 18000
      && b[975..981] == [1, 4, 255, 255, 255, 0] && b[981..987] == [3, 4, 192, 168, 1, 1]
      && b[987..993] == [6, 4, 8, 8, 8, 8] && b[993] == 255
    ensures DhcpLeases.ANNOUNCED_SECONDS == 18000
  {
    var b := Reply(request, ip, kind, offer);
    var h := Header(request, ip, offer);
    assert b[..240] == h && b[240..960] == Zeros(720) && b[960..] == Options(kind, ip);
    ReplyHeader(request, ip, offer);
    assert forall i, j :: 0 <= i <= j <= 240 ==> b[i..j] == h[i..j];
    ReplyOptions(b, kind, ip);
  }

  lemma ReplyOptions(b: seq<byte>, kind: byte, ip: seq<byte>)
    requires |ip| == 4 && HasOptions(b, kind, ip)
    ensures b[960..963] == [53, 1, kind] && b[963..969] == [50, 4] + ip
    ensures b[969..971] == [51, 4] && IpNumber(Ip(b[971], b[972], b[973], b[974])) == 18000
    ensures b[975..981] == [1, 4, 255, 255, 255, 0] && b[981..987] == [3, 4, 192, 168, 1, 1]
    ensures b[987..993] == [6, 4, 8, 8, 8, 8] && b[993] == 255
  {
    OptionBytes(b, kind, ip);
    LeaseTimeBytes();
    var time := b[971..975];
    assert b[971] == time[0] && b[972] == time[1] && b[973] == time[2] && b[974] == time[3];
  }

  lemma ReplyHeader(request: seq<byte>, ip: seq<byte>, offer: bool)
    requires |request| == 240 && |ip| == 4
    ensures var h := Header(request, ip, offer);
      && h[0] == 2 && h[1..16] == request[1..16] && h[16..20] == ip && h[20..24] == request[20..24]
      && h[24..28] == (if offer then [192, 168, 1, 1] else request[24..28]) && h[28..240] == request[28..240]
  {
  }

  lemma LeaseTimeBytes()
    ensures LEASE_TIME == [0, 0, 0x46, 0x50] && IpNumber(Ip(0, 0, 0x46, 0x50)) == 18000
  {
  }

  /** What an option list says: the data of each option that the replies carry. */
  function Announced(kind: byte, ip: seq<byte>, code: byte): (data: Option<seq<byte>>) {
    if code == OPTION_MESSAGE_TYPE then Some([kind])
    else if code == OPTION_REQUESTED_IP then Some(ip)
    else if code == OPTION_LEASE_TIME then Some(LEASE_TIME)
    else if code == OPTION_SUBNET_MASK then Some(SUBNET_MASK)
    else if code == OPTION_ROUTER then Some(ROUTER)
    else if code == OPTION_DNS then Some(DNS)
    else None
  }

  /** A buffer with this option list at position 960, whatever follows. */
  predicate HasOptions(buffer: seq<byte>, kind: byte, ip: seq<byte>)
    requires |ip| == 4
  {
    |buffer| >= REPLY_SIZE && buffer[OPTIONS_AT..REPLY_SIZE] == Options(kind, ip)
  }

  lemma OptionBytes(buffer: seq<byte>, kind: byte, ip: seq<byte>)
    requires |ip| == 4 && HasOptions(buffer, kind, ip)
    ensures buffer[960] == OPTION_MESSAGE_TYPE && buffer[961] == 1 && buffer[962..963] == [kind]
    ensures buffer[963] == OPTION_REQUESTED_IP && buffer[964] == 4 && buffer[965..969] == ip
    ensures buffer[969] == OPTION_LEASE_TIME && buffer[970] == 4 && buffer[971..975] == LEASE_TIME
    ensures buffer[975] == OPTION_SUBNET_MASK && buffer[976] == 4 && buffer[977..981] == SUBNET_MASK
    ensures buffer[981] == OPTION_ROUTER && buffer[982] == 4 && buffer[983..987] == ROUTER
    ensures buffer[987] == OPTION_DNS && buffer[988] == 4 && buffer[989..993] == DNS
    ensures buffer[993] == END
  {
    var o := Options(kind, ip);
    assert forall i :: 0 <= i < 34 ==> buffer[960 + i] == o[i];
    assert o[2..3] == [kind] && o[5..9] == ip && o[11..15] == LEASE_TIME;
    assert o[17..21] == SUBNET_MASK && o[23..27] == ROUTER && o[29..33] == DNS;
    assert forall i, j :: 0 <= i <= j <= 34 ==> buffer[960 + i..960 + j] == o[i..j];
  }

  /** From the option list on, both readers find exactly what it announces. */
  lemma OptionsReadBack(buffer: seq<byte>, kind: byte, ip: seq<byte>, code: byte, limit: nat)
    requires |ip| == 4 && HasOptions(buffer, kind, ip) && limit >= REPLY_SIZE
    requires Announced(kind, ip, code).Some?
    ensures ScanFrom(buffer, code, |Announced(kind, ip, code).value|, OPTIONS_AT, limit)
      == Found(Announced(kind, ip, code).value)
    ensures ScanPadded(buffer, code, |Announced(kind, ip, code).value|, OPTIONS_AT, limit)
      == Found(Announced(kind, ip, code).value)
  {
    OptionBytes(buffer, kind, ip);
    var size := |Announced(kind, ip, code).value|;
    if code != OPTION_MESSAGE_TYPE {
      assert ScanFrom(buffer, code, size, 960, limit) == ScanFrom(buffer, code, size, 963, limit);
      assert ScanPadded(buffer, code, size, 960, limit) == ScanPadded(buffer, code, size, 963, limit);
      if code != OPTION_REQUESTED_IP {
        assert ScanFrom(buffer, code, size, 963, limit) == ScanFrom(buffer, code, size, 969, limit);
        assert ScanPadded(buffer, code, size, 963, limit) == ScanPadded(buffer, code, size, 969, limit);
        if code != OPTION_LEASE_TIME {
          assert ScanFrom(buffer, code, size, 969, limit) == ScanFrom(buffer, code, size, 975, limit);
          assert ScanPadded(buffer, code, size, 969, limit) == ScanPadded(buffer, code, size, 975, limit);
          if code != OPTION_SUBNET_MASK {
            assert ScanFrom(buffer, code, size, 975, limit) == ScanFrom(buffer, code, size, 981, limit);
            assert ScanPadded(buffer, code, size, 975, limit) == ScanPadded(buffer, code, size, 981, limit);
            if code != OPTION_ROUTER {
              assert ScanFrom(buffer, code, size, 981, limit) == ScanFrom(buffer, code, size, 987, limit);
              assert ScanPadded(buffer, code, size, 981, limit) == ScanPadded(buffer, code, size, 987, limit);
            }
          }
        }
      }
    }
  }

  /**
   * Whatever buffer a reply is received in, the server's own option loops and a reader that follows RFC
   * 2132 find each written option with the written data, over the gap of zeros from 240 to 960.
   */
  lemma ReplyReadsBack(request: seq<byte>, ip: seq<byte>, kind: byte, offer: bool, tail: seq<byte>,
                       code: byte, limit: nat)
    requires |request| == HEADER_SIZE && |ip| == 4 && limit >= REPLY_SIZE
    requires Announced(kind, ip, code).Some?
    ensures var buffer := Reply(request, ip, kind, offer) + tail;
      var data := Announced(kind, ip, code).value;
      && ScanFrom(buffer, code, |data|, HEADER_SIZE, limit) == Found(data)
      && ScanPadded(buffer, code, |data|, HEADER_SIZE, limit) == Found(data)
      && buffer[16..20] == ip
  {
    var reply := Reply(request, ip, kind, offer);
    var buffer := reply + tail;
    var size := |Announced(kind, ip, code).value|;
    assert reply[OPTIONS_AT..REPLY_SIZE] == Options(kind, ip);
    assert buffer[OPTIONS_AT..REPLY_SIZE] == Options(kind, ip);
    assert forall i :: HEADER_SIZE <= i < OPTIONS_AT ==> buffer[i] == 0;
    GapSkipped(buffer, code, size, HEADER_SIZE, OPTIONS_AT, limit);
    PaddingSkipped(buffer, code, size, HEADER_SIZE, OPTIONS_AT, limit);
    OptionsReadBack(buffer, kind, ip, code, limit);
    assert buffer[16..20] == Header(request, ip, offer)[16..20] == ip;
  }
}
