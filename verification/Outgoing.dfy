/** The checksum rewrite of `send_ipv4` (outgoing.c) on the bytes of a packet. */
module Outgoing {
  import opened Net
  import opened Checksum

  const PROTO_TCP := 6
  const PROTO_UDP := 0x11

  // ---------------------------------------------------------------- packet layout

  /** `(pkt->ver_ihl & 0xF) * 4`. */
  function HeaderLength(p: Packet): (len: nat)
    requires |p| >= 20
    ensures len % 4 == 0 && len <= 60
  {
    var v: int := p[0];
    (v % 16) * 4
  }

  /** `ntohs` of the field at `o`. */
  function Ntohs(p: Packet, o: nat): (w: u16)
    requires o + 2 <= |p|
  {
    NetworkWordAt(p, o)
  }

  /** `pkt->total_length`, in host order. */
  function TotalLength(p: Packet): (len: nat)
    requires |p| >= 20
  {
    Ntohs(p, 2)
  }

  /** `tcp_len`, a 16-bit subtraction. */
  function TcpLength(p: Packet): (len: nat)
    requires |p| >= 20
    ensures len <= 0xFFFF
  {
    (TotalLength(p) - HeaderLength(p)) % 0x1_0000
  }

  function UdpLength(p: Packet): (len: nat)
    requires |p| >= 20 && HeaderLength(p) + 8 <= |p|
    ensures len <= 0xFFFF
  {
    Ntohs(p, HeaderLength(p) + 4)
  }

  /**
   * The buffer holds every byte that `send_ipv4` reads, and an IPv4 header of at least the five words of
   * RFC 791, section 3.1, so that the transport header does not overlap it.
   */
  predicate Sound(p: Packet) {
    && |p| >= 20
    && 20 <= HeaderLength(p) <= |p|
    && (p[9] == PROTO_UDP ==>
        && HeaderLength(p) + 8 <= |p|
        && (WordAt(p, HeaderLength(p) + 6) != 0 ==> HeaderLength(p) + UdpLength(p) <= |p|))
    && (p[9] == PROTO_TCP ==> HeaderLength(p) + 20 <= |p| && HeaderLength(p) + TcpLength(p) <= |p|)
  }

  /** `struct ip_pseudo_hdr` for a segment length in network order. */
  function PseudoHeader(p: Packet, lengthHigh: byte, lengthLow: byte): (h: seq<byte>)
    requires |p| >= 20
    ensures |h| == 12
  {
    p[12..20] + [0, p[9], lengthHigh, lengthLow]
  }

  function UdpPseudoHeader(p: Packet): (h: seq<byte>)
    requires |p| >= 20 && HeaderLength(p) + 8 <= |p|
  {
    PseudoHeader(p, p[HeaderLength(p) + 4], p[HeaderLength(p) + 5])
  }

  function TcpPseudoHeader(p: Packet): (h: seq<byte>)
    requires |p| >= 20
  {
    PseudoHeader(p, TcpLength(p) / 0x100, TcpLength(p) % 0x100)
  }

  /** What the IP header checksum covers. */
  function HeaderBytes(p: Packet): (b: seq<byte>)
    requires |p| >= 20 && HeaderLength(p) <= |p|
  {
    p[..HeaderLength(p)]
  }

  function UdpSegment(p: Packet): (b: seq<byte>)
    requires |p| >= 20 && HeaderLength(p) + 8 <= |p| && HeaderLength(p) + UdpLength(p) <= |p|
  {
    p[HeaderLength(p)..HeaderLength(p) + UdpLength(p)]
  }

  function TcpSegment(p: Packet): (b: seq<byte>)
    requires |p| >= 20 && HeaderLength(p) + TcpLength(p) <= |p|
  {
    p[HeaderLength(p)..HeaderLength(p) + TcpLength(p)]
  }

  // ---------------------------------------------------------------- the rewrite

  function WithHeaderChecksum(p: Packet): (r: Packet)
    requires |p| >= 20 && HeaderLength(p) <= |p|
    ensures |r| == |p|
  {
    var blank := WithWord(p, 10, 0);
    WithWord(blank, 10, ChecksumOf(blank[..HeaderLength(p)]))
  }

  /** UDP: the field is seeded with the folded pseudo-header sum; a zero result is sent as all ones. */
  function WithUdpChecksum(p: Packet): (r: Packet)
    requires |p| >= 20 && HeaderLength(p) + 8 <= |p| && HeaderLength(p) + UdpLength(p) <= |p|
    ensures |r| == |p|
  {
    var at := HeaderLength(p);
    var seeded := WithWord(p, at + 6, 0xFFFF - ChecksumOf(UdpPseudoHeader(p)));
    var c := ChecksumOf(seeded[at..at + UdpLength(p)]);
    WithWord(p, at + 6, if c == 0 then 0xFFFF else c)
  }

  function WithTcpChecksum(p: Packet): (r: Packet)
    requires |p| >= 20 && HeaderLength(p) + 20 <= |p| && HeaderLength(p) + TcpLength(p) <= |p|
    ensures |r| == |p|
  {
    var at := HeaderLength(p);
    var seeded := WithWord(p, at + 16, 0xFFFF - ChecksumOf(TcpPseudoHeader(p)));
    WithWord(p, at + 16, ChecksumOf(seeded[at..at + TcpLength(p)]))
  }

  /** The packet after the first half of `send_ipv4`. */
  function Rewritten(p: Packet): (r: Packet)
    requires Sound(p)
    ensures |r| == |p|
  {
    var h := WithHeaderChecksum(p);
    SameLayout(p, h);
    WithTransportChecksum(h)
  }

  /** The transport part of it; a UDP checksum of zero is disabled and stays so. */
  function WithTransportChecksum(h: Packet): (r: Packet)
    requires Sound(h)
    ensures |r| == |h|
  {
    if h[9] == PROTO_UDP then
      if WordAt(h, HeaderLength(h) + 6) != 0 then WithUdpChecksum(h) else h
    else if h[9] == PROTO_TCP then WithTcpChecksum(h)
    else h
  }

  /** Two packets that agree outside the checksum fields have the same layout. */
  lemma SameLayout(p: Packet, q: Packet)
    requires Sound(p) && |q| == |p|
    requires forall i :: 0 <= i < |p| && i != 10 && i != 11 ==> q[i] == p[i]
    ensures Sound(q) && HeaderLength(q) == HeaderLength(p)
  {
  }

  // ---------------------------------------------------------------- words in slices

  lemma SliceWithWord(p: Packet, at: nat, len: nat, o: nat, w: u16)
    requires at + len <= |p| && o + 2 <= len
    ensures WithWord(p, at + o, w)[at..at + len] == WithWord(p[at..at + len], o, w)
  {
  }

  lemma StoreSame(b: seq<byte>, o: nat)
    requires o + 2 <= |b|
    ensures WithWord(b, o, WordAt(b, o)) == b
  {
  }

  lemma StoreTwice(b: seq<byte>, o: nat, v: u16, w: u16)
    requires o + 2 <= |b|
    ensures WithWord(WithWord(b, o, v), o, w) == WithWord(b, o, w)
  {
  }

  /** The seeded checksum stored in a segment makes pseudo-header and segment verify. */
  lemma SegmentVerifies(pseudo: seq<byte>, segment: seq<byte>, o: nat)
    requires |pseudo| % 2 == 0 && o % 2 == 0 && o + 2 <= |segment|
    ensures var c := ChecksumOf(WithWord(segment, o, 0xFFFF - ChecksumOf(pseudo)));
      && Verifies(pseudo + WithWord(segment, o, c))
      && (c == 0 ==> Verifies(pseudo + WithWord(segment, o, 0xFFFF)))
  {
    var c := ChecksumOf(WithWord(segment, o, 0xFFFF - ChecksumOf(pseudo)));
    SeededChecksum(pseudo, segment, o);
    FieldInSegment(pseudo, segment, o, c);
    ChecksummedVerifies(pseudo + WithWord(segment, o, c), |pseudo| + o);
    if c == 0 {
      AllOnesSegmentVerifies(pseudo, segment, o);
    }
  }

  lemma AllOnesSegmentVerifies(pseudo: seq<byte>, segment: seq<byte>, o: nat)
    requires |pseudo| % 2 == 0 && o % 2 == 0 && o + 2 <= |segment|
    requires ChecksumOf(pseudo + WithWord(segment, o, 0)) == 0
    ensures Verifies(pseudo + WithWord(segment, o, 0xFFFF))
  {
    FieldInSegment(pseudo, segment, o, 0xFFFF);
    AllOnesForZeroVerifies(pseudo + WithWord(segment, o, 0xFFFF), |pseudo| + o);
  }

  lemma FieldInSegment(pseudo: seq<byte>, segment: seq<byte>, o: nat, w: u16)
    requires o + 2 <= |segment|
    ensures var b := pseudo + WithWord(segment, o, w);
      && WordAt(b, |pseudo| + o) == w
      && WithWord(b, |pseudo| + o, 0) == pseudo + WithWord(segment, o, 0)
  {
  }

  // ---------------------------------------------------------------- what is emitted

  /** The rewrite changes the two checksum fields and nothing else. */
  lemma OnlyChecksumsChange(p: Packet)
    requires Sound(p)
    ensures var r := Rewritten(p);
      var field := HeaderLength(p) + if p[9] == PROTO_UDP then 6 else 16;
      forall i :: 0 <= i < |p| && r[i] != p[i] ==>
        i == 10 || i == 11 || (p[9] in {PROTO_UDP, PROTO_TCP} && (i == field || i == field + 1))
  {
  }

  /** What the first step leaves in the header is what is emitted. */
  lemma HeaderKept(p: Packet)
    requires Sound(p)
    ensures Sound(Rewritten(p)) && HeaderLength(Rewritten(p)) == HeaderLength(p)
    ensures Rewritten(p)[..HeaderLength(p)] == WithHeaderChecksum(p)[..HeaderLength(p)]
  {
    var h := WithHeaderChecksum(p);
    SameLayout(p, h);
    var r := Rewritten(p);
    assert forall i :: 0 <= i < HeaderLength(p) ==> r[i] == h[i];
    SoundKept(h, r);
  }

  lemma SoundKept(h: Packet, r: Packet)
    requires Sound(h) && |r| == |h|
    requires forall i :: 0 <= i < HeaderLength(h) + 6 && i < |h| ==> r[i] == h[i]
    requires h[9] == PROTO_UDP ==> WordAt(h, HeaderLength(h) + 6) == 0 ==> WordAt(r, HeaderLength(h) + 6) == 0
    ensures Sound(r) && HeaderLength(r) == HeaderLength(h)
  {
  }

  /** Every emitted IPv4 header verifies. */
  lemma HeaderBytesVerify(p: Packet)
    requires Sound(p)
    ensures Verifies(HeaderBytes(Rewritten(p)))
  {
    HeaderKept(p);
    var len := HeaderLength(p);
    var h := WithHeaderChecksum(p);
    var blank := WithWord(p, 10, 0);
    SliceWithWord(blank, 0, len, 10, ChecksumOf(blank[..len]));
    assert h[0..len] == h[..len] && blank[0..len] == blank[..len];
    SliceWithWord(h, 0, len, 10, 0);
    StoreTwice(blank, 10, ChecksumOf(blank[..len]), 0);
    StoreSame(blank, 10);
    ChecksummedVerifies(h[..len], 10);
  }

  /** Every emitted TCP segment long enough to contain its checksum field verifies with its pseudo-header. */
  lemma TcpWithPseudoVerifies(p: Packet)
    requires Sound(p) && p[9] == PROTO_TCP && TcpLength(p) >= 18
    ensures var r := Rewritten(p);
      Sound(r) && Verifies(TcpPseudoHeader(r) + TcpSegment(r))
  {
    HeaderKept(p);
    var h := WithHeaderChecksum(p);
    SameLayout(p, h);
    assert TcpLength(h) == TcpLength(p);
    TcpSegmentVerifies(h);
  }

  lemma TcpSegmentVerifies(h: Packet)
    requires |h| >= 20 && 20 <= HeaderLength(h) && HeaderLength(h) + 20 <= |h|
    requires HeaderLength(h) + TcpLength(h) <= |h| && TcpLength(h) >= 18
    ensures var r := WithTcpChecksum(h);
      && HeaderLength(r) == HeaderLength(h) && TcpLength(r) == TcpLength(h)
      && Verifies(TcpPseudoHeader(r) + TcpSegment(r))
  {
    var at, len := HeaderLength(h), TcpLength(h);
    var pseudo := TcpPseudoHeader(h);
    var seed := 0xFFFF - ChecksumOf(pseudo);
    SliceWithWord(h, at, len, 16, seed);
    var c := ChecksumOf(WithWord(h[at..at + len], 16, seed));
    SliceWithWord(h, at, len, 16, c);
    SegmentVerifies(pseudo, h[at..at + len], 16);
    TcpStoreKeepsPseudo(h, c);
  }

  lemma TcpStoreKeepsPseudo(h: Packet, c: u16)
    requires |h| >= 20 && 20 <= HeaderLength(h) && HeaderLength(h) + 20 <= |h|
    ensures var r := WithWord(h, HeaderLength(h) + 16, c);
      && HeaderLength(r) == HeaderLength(h) && TcpLength(r) == TcpLength(h)
      && TcpPseudoHeader(r) == TcpPseudoHeader(h)
  {
  }

  /** On the wire the header checksum is the one RFC 1071 defines on network-order words. */
  lemma HeaderFieldIs(p: Packet)
    requires Sound(p)
    ensures NetworkWordAt(Rewritten(p), 10)
      == 0xFFFF - Fold(SumBe(WithWord(p, 10, 0)[..HeaderLength(p)]))
  {
    HeaderKept(p);
    var blank := WithWord(p, 10, 0);
    var r := Rewritten(p);
    assert r[10] == r[..HeaderLength(p)][10] && r[11] == r[..HeaderLength(p)][11];
    NativeChecksumIsNetworkChecksum(blank[..HeaderLength(p)], blank, 10);
  }

  /** The seeded TCP checksum is that of pseudo-header and segment with a zero field. */
  lemma TcpChecksumValue(h: Packet)
    requires |h| >= 20 && 20 <= HeaderLength(h) && HeaderLength(h) + TcpLength(h) <= |h| && TcpLength(h) >= 18
    requires HeaderLength(h) + 20 <= |h|
    ensures WithTcpChecksum(h) == WithWord(h, HeaderLength(h) + 16,
      ChecksumOf(TcpPseudoHeader(h) + WithWord(TcpSegment(h), 16, 0)))
  {
    var pseudo := TcpPseudoHeader(h);
    SliceWithWord(h, HeaderLength(h), TcpLength(h), 16, 0xFFFF - ChecksumOf(pseudo));
    SeededChecksum(pseudo, TcpSegment(h), 16);
  }

  /** So is the TCP checksum, over pseudo-header and segment. */
  lemma TcpFieldIs(p: Packet)
    requires Sound(p) && p[9] == PROTO_TCP && TcpLength(p) >= 18
    ensures NetworkWordAt(Rewritten(p), HeaderLength(p) + 16)
      == 0xFFFF - Fold(SumBe(TcpPseudoHeader(p) + WithWord(TcpSegment(p), 16, 0)))
  {
    var h := WithHeaderChecksum(p);
    SameLayout(p, h);
    assert TcpSegment(h) == TcpSegment(p) && TcpPseudoHeader(h) == TcpPseudoHeader(p);
    TcpChecksumValue(h);
    NativeChecksumIsNetworkChecksum(TcpPseudoHeader(p) + WithWord(TcpSegment(p), 16, 0), h, HeaderLength(p) + 16);
  }

  /** The seeded UDP checksum is that of pseudo-header and segment with a zero field, or all ones for zero. */
  lemma UdpChecksumValue(h: Packet)
    requires |h| >= 20 && 20 <= HeaderLength(h) && HeaderLength(h) + 8 <= |h|
    requires HeaderLength(h) + UdpLength(h) <= |h| && UdpLength(h) >= 8
    ensures var c := ChecksumOf(UdpPseudoHeader(h) + WithWord(UdpSegment(h), 6, 0));
      WithUdpChecksum(h) == WithWord(h, HeaderLength(h) + 6, if c == 0 then 0xFFFF else c)
  {
    var pseudo := UdpPseudoHeader(h);
    SliceWithWord(h, HeaderLength(h), UdpLength(h), 6, 0xFFFF - ChecksumOf(pseudo));
    SeededChecksum(pseudo, UdpSegment(h), 6);
  }

  /** On the wire an enabled UDP checksum is that of RFC 768: all ones where the sum of RFC 1071 is zero. */
  lemma UdpFieldIs(p: Packet)
    requires Sound(p) && p[9] == PROTO_UDP && WordAt(p, HeaderLength(p) + 6) != 0 && UdpLength(p) >= 8
    ensures var c := 0xFFFF - Fold(SumBe(UdpPseudoHeader(p) + WithWord(UdpSegment(p), 6, 0)));
      NetworkWordAt(Rewritten(p), HeaderLength(p) + 6) == if c == 0 then 0xFFFF else c
  {
    var h := WithHeaderChecksum(p);
    SameLayout(p, h);
    assert UdpSegment(h) == UdpSegment(p) && UdpPseudoHeader(h) == UdpPseudoHeader(p);
    UdpChecksumValue(h);
    NativeChecksumIsNetworkChecksum(UdpPseudoHeader(p) + WithWord(UdpSegment(p), 6, 0), h, HeaderLength(p) + 6);
  }

  /**
   * Every emitted UDP segment whose checksum is enabled carries a non-zero checksum, and from the minimal
   * length of 8 on it verifies with its pseudo-header; a disabled checksum stays disabled.
   */
  lemma UdpWithPseudoVerifies(p: Packet)
    requires Sound(p) && p[9] == PROTO_UDP
    ensures var r := Rewritten(p);
      var field := HeaderLength(p) + 6;
      && Sound(r)
      && (WordAt(p, field) == 0 <==> WordAt(r, field) == 0)
      && (WordAt(p, field) != 0 && UdpLength(p) >= 8 ==> Verifies(UdpPseudoHeader(r) + UdpSegment(r)))
  {
    HeaderKept(p);
    var h := WithHeaderChecksum(p);
    SameLayout(p, h);
    var at, len := HeaderLength(h), UdpLength(h);
    if WordAt(p, at + 6) != 0 && len >= 8 {
      UdpSegmentVerifies(h);
    }
  }

  lemma UdpSegmentVerifies(h: Packet)
    requires |h| >= 20 && 20 <= HeaderLength(h) && HeaderLength(h) + 8 <= |h|
    requires HeaderLength(h) + UdpLength(h) <= |h| && UdpLength(h) >= 8
    ensures var r := WithUdpChecksum(h);
      && HeaderLength(r) == HeaderLength(h) && UdpLength(r) == UdpLength(h)
      && Verifies(UdpPseudoHeader(r) + UdpSegment(r))
  {
    var r := WithUdpChecksum(h);
    var at, len := HeaderLength(h), UdpLength(h);
    var pseudo := UdpPseudoHeader(h);
    var seed := 0xFFFF - ChecksumOf(pseudo);
    SliceWithWord(h, at, len, 6, seed);
    var c := ChecksumOf(WithWord(h[at..at + len], 6, seed));
    SliceWithWord(h, at, len, 6, if c == 0 then 0xFFFF else c);
    SegmentVerifies(pseudo, h[at..at + len], 6);
    assert UdpPseudoHeader(r) == pseudo;
  }

  // ---------------------------------------------------------------- what is emitted, field by field

  /** The number of two bytes in network order. */
  function TwoBytes(high: int, low: int): (n: int) {
    0x100 * high + low
  }

  /**
   * The sum that a transport checksum covers: the words of both addresses, the protocol number, the
   * segment's length and the segment (RFC 768 and RFC 9293, section 3.1).
   */
  function CoveredSum(src: seq<byte>, dst: seq<byte>, protocol: nat, segment: seq<byte>): (s: nat) {
    SumBe(src) + SumBe(dst) + protocol + |segment| + SumBe(segment)
  }

  /** A segment is summed with both addresses, the protocol number and its length. */
  lemma PseudoHeaderSum(p: Packet, lengthHigh: byte, lengthLow: byte, segment: seq<byte>)
    requires |p| >= 20
    ensures SumBe(PseudoHeader(p, lengthHigh, lengthLow) + segment)
      == SumBe(p[12..16]) + SumBe(p[16..20]) + p[9] + TwoBytes(lengthHigh, lengthLow) + SumBe(segment)
  {
    var rest := [0, p[9]] + [lengthHigh, lengthLow];
    SumBeTwo(0, p[9]);
    SumBeTwo(lengthHigh, lengthLow);
    SumBeAppend([0, p[9]], [lengthHigh, lengthLow]);
    assert PseudoHeader(p, lengthHigh, lengthLow) == p[12..16] + (p[16..20] + rest);
    SumBeAppend(PseudoHeader(p, lengthHigh, lengthLow), segment);
    SumBeAppend(p[12..16], p[16..20] + rest);
    SumBeAppend(p[16..20], rest);
  }

  lemma SumBeTwo(high: byte, low: byte)
    ensures SumBe([high, low]) == TwoBytes(high, low)
  {
    assert [high, low][2..] == [];
  }

  /** The header has `at` bytes: the low half of its first byte counts them in words of four. */
  predicate HeaderEndsAt(p: Packet, at: nat) {
    |p| >= 20 && at % 4 == 0 && at < 64 && (p[0] - at / 4) % 16 == 0
  }

  lemma HeaderEnd(p: Packet, at: nat)
    requires HeaderEndsAt(p, at)
    ensures at == HeaderLength(p)
  {
  }

  /** Every emitted IPv4 header verifies at the receiver (RFC 791, section 3.1). */
  lemma EmittedHeaderVerifies(p: Packet, at: nat)
    requires Sound(p) && HeaderEndsAt(p, at)
    ensures at <= |p| && Fold(SumBe(Rewritten(p)[..at])) == 0xFFFF
  {
    HeaderEnd(p, at);
    HeaderKept(p);
    HeaderBytesVerify(p);
  }

  /** Its checksum is the complement of the sum of its words with a zero field. */
  lemma EmittedHeaderIsNetworkChecksum(p: Packet, at: nat)
    requires Sound(p) && HeaderEndsAt(p, at)
    ensures 12 <= at <= |p|
    ensures TwoBytes(Rewritten(p)[10], Rewritten(p)[11]) == 0xFFFF - Fold(SumBe(p[..10] + [0, 0] + p[12..at]))
  {
    HeaderEnd(p, at);
    HeaderFieldIs(p);
    assert WithWord(p, 10, 0)[..at] == p[..10] + [0, 0] + p[12..at];
  }

  /**
   * Every emitted TCP segment long enough to contain its checksum verifies at the receiver: both
   * addresses, the protocol number 6, the length and the segment add up to all ones (RFC 9293, section 3.1).
   */
  lemma EmittedTcpVerifies(p: Packet, at: nat, len: nat)
    requires Sound(p) && p[9] == 6 && HeaderEndsAt(p, at) && at + len == TwoBytes(p[2], p[3]) && len >= 18
    ensures at + len <= |p|
    ensures Fold(CoveredSum(p[12..16], p[16..20], 6, Rewritten(p)[at..at + len])) == 0xFFFF
  {
    HeaderEnd(p, at);
    RewrittenLengths(p);
    TcpWithPseudoVerifies(p);
    TcpAllOnes(p, Rewritten(p), at, len);
  }

  /** What tells the lengths, the protocol and the addresses does not change. */
  lemma RewrittenLengths(p: Packet)
    requires Sound(p)
    ensures var r := Rewritten(p);
      && HeaderLength(r) == HeaderLength(p) && TotalLength(r) == TotalLength(p) && TcpLength(r) == TcpLength(p)
      && r[9] == p[9] && r[12..16] == p[12..16] && r[16..20] == p[16..20]
  {
    OnlyChecksumsChange(p);
    SameFront(p, Rewritten(p));
  }

  lemma SameFront(p: Packet, r: Packet)
    requires |p| >= 20 && |r| >= 20
    requires forall i :: 0 <= i < 20 && i != 10 && i != 11 ==> r[i] == p[i]
    ensures HeaderLength(r) == HeaderLength(p) && TotalLength(r) == TotalLength(p) && TcpLength(r) == TcpLength(p)
    ensures r[9] == p[9] && r[12..16] == p[12..16] && r[16..20] == p[16..20]
  {
  }

  lemma TcpAllOnes(p: Packet, r: Packet, at: nat, len: nat)
    requires |p| >= 20 && |r| >= 20 && r[12..16] == p[12..16] && r[16..20] == p[16..20] && r[9] == 6
    requires at == HeaderLength(r) && TotalLength(r) == at + len <= |r| && TcpLength(r) == len
    requires Verifies(TcpPseudoHeader(r) + TcpSegment(r))
    ensures Fold(CoveredSum(p[12..16], p[16..20], 6, r[at..at + len])) == 0xFFFF
  {
    TcpSum(r, at, len, TcpSegment(r));
  }

  lemma UdpAllOnes(p: Packet, r: Packet, at: nat, len: nat)
    requires |p| >= 20 && |r| >= 20 && r[12..16] == p[12..16] && r[16..20] == p[16..20] && r[9] == 17
    requires at == HeaderLength(r) && at + 8 <= |r| && at + len <= |r|
    requires len == TwoBytes(r[at + 4], r[at + 5]) == UdpLength(r)
    requires Verifies(UdpPseudoHeader(r) + UdpSegment(r))
    ensures Fold(CoveredSum(p[12..16], p[16..20], 17, r[at..at + len])) == 0xFFFF
  {
    UdpSum(r, at, len, UdpSegment(r));
  }

  lemma TcpBlankSum(p: Packet, at: nat, len: nat)
    requires |p| >= 20 && at == HeaderLength(p) && TotalLength(p) == at + len <= |p| && p[9] == 6 && len >= 18
    ensures TcpLength(p) == len
    ensures SumBe(TcpPseudoHeader(p) + WithWord(TcpSegment(p), 16, 0)) ==
      CoveredSum(p[12..16], p[16..20], 6, p[at..at + 16] + [0, 0] + p[at + 18..at + len])
  {
    BlankField(p, at, len, 16);
    TcpSum(p, at, len, WithWord(TcpSegment(p), 16, 0));
  }

  lemma UdpBlankSum(p: Packet, at: nat, len: nat)
    requires |p| >= 20 && at == HeaderLength(p) && at + 8 <= |p| && at + len <= |p| && p[9] == 17 && len >= 8
    requires len == TwoBytes(p[at + 4], p[at + 5])
    ensures UdpLength(p) == len
    ensures SumBe(UdpPseudoHeader(p) + WithWord(UdpSegment(p), 6, 0)) ==
      CoveredSum(p[12..16], p[16..20], 17, p[at..at + 6] + [0, 0] + p[at + 8..at + len])
  {
    BlankField(p, at, len, 6);
    UdpSum(p, at, len, WithWord(UdpSegment(p), 6, 0));
  }

  /** What a TCP segment is summed with. */
  lemma TcpSum(p: Packet, at: nat, len: nat, segment: seq<byte>)
    requires |segment| == len && |p| >= 20 && at == HeaderLength(p) && TotalLength(p) == at + len && p[9] == 6
    ensures TcpLength(p) == len
    ensures SumBe(TcpPseudoHeader(p) + segment) == CoveredSum(p[12..16], p[16..20], 6, segment)
  {
    PseudoHeaderSum(p, len / 0x100, len % 0x100, segment);
  }

  lemma UdpSum(p: Packet, at: nat, len: nat, segment: seq<byte>)
    requires |segment| == len
    requires |p| >= 20 && at == HeaderLength(p) && at + 8 <= |p| && len == TwoBytes(p[at + 4], p[at + 5]) && p[9] == 17
    ensures UdpLength(p) == len
    ensures SumBe(UdpPseudoHeader(p) + segment) == CoveredSum(p[12..16], p[16..20], 17, segment)
  {
    PseudoHeaderSum(p, p[at + 4], p[at + 5], segment);
  }


  /** Its checksum is the complement of that sum over the original segment with a zero field. */
  lemma EmittedTcpIsNetworkChecksum(p: Packet, at: nat, len: nat)
    requires Sound(p) && p[9] == 6 && HeaderEndsAt(p, at) && at + len == TwoBytes(p[2], p[3]) && len >= 18
    ensures at + len <= |p|
    ensures TwoBytes(Rewritten(p)[at + 16], Rewritten(p)[at + 17]) == 0xFFFF - Fold(
      CoveredSum(p[12..16], p[16..20], 6, p[at..at + 16] + [0, 0] + p[at + 18..at + len]))
  {
    HeaderEnd(p, at);
    TcpBlankSum(p, at, len);
    TcpFieldIs(p);
  }

  /**
   * Every emitted UDP datagram with an enabled checksum carries a non-zero one, and from the minimal
   * length of 8 on it verifies at the receiver like that, with the protocol number 17 (RFC 768). A disabled
   * checksum stays disabled.
   */
  lemma EmittedUdpVerifies(p: Packet, at: nat, len: nat)
    requires Sound(p) && p[9] == 17 && HeaderEndsAt(p, at) && at + 8 <= |p| && len == TwoBytes(p[at + 4], p[at + 5])
    ensures var r := Rewritten(p);
      && (p[at + 6] == p[at + 7] == 0 <==> r[at + 6] == r[at + 7] == 0)
      && ((p[at + 6] != 0 || p[at + 7] != 0) && len >= 8 ==>
          && at + len <= |p|
          && Fold(CoveredSum(p[12..16], p[16..20], 17, r[at..at + len])) == 0xFFFF)
  {
    HeaderEnd(p, at);
    UdpWithPseudoVerifies(p);
    if (p[at + 6] != 0 || p[at + 7] != 0) && len >= 8 {
      EnabledUdpVerifies(p, at, len);
    }
  }

  lemma EnabledUdpVerifies(p: Packet, at: nat, len: nat)
    requires Sound(p) && p[9] == 17 && at == HeaderLength(p) && len == TwoBytes(p[at + 4], p[at + 5]) && len >= 8
    requires WordAt(p, at + 6) != 0
    ensures at + len <= |p|
    ensures Fold(CoveredSum(p[12..16], p[16..20], 17, Rewritten(p)[at..at + len])) == 0xFFFF
  {
    RewrittenLengths(p);
    RewrittenUdpLength(p);
    UdpWithPseudoVerifies(p);
    UdpAllOnes(p, Rewritten(p), at, len);
  }

  lemma RewrittenUdpLength(p: Packet)
    requires Sound(p) && p[9] == 17
    ensures Sound(Rewritten(p)) && HeaderLength(Rewritten(p)) == HeaderLength(p)
    ensures var at := HeaderLength(p); Rewritten(p)[at + 4] == p[at + 4] && Rewritten(p)[at + 5] == p[at + 5]
  {
    HeaderKept(p);
    OnlyChecksumsChange(p);
  }

  /** Its checksum is the complement of that sum with a zero field, or all ones in place of zero. */
  lemma EmittedUdpIsNetworkChecksum(p: Packet, at: nat, len: nat)
    requires Sound(p) && p[9] == 17 && HeaderEndsAt(p, at) && at + 8 <= |p| && len == TwoBytes(p[at + 4], p[at + 5])
    requires (p[at + 6] != 0 || p[at + 7] != 0) && len >= 8
    ensures at + len <= |p|
    ensures var c := 0xFFFF - Fold(
        CoveredSum(p[12..16], p[16..20], 17, p[at..at + 6] + [0, 0] + p[at + 8..at + len]));
      TwoBytes(Rewritten(p)[at + 6], Rewritten(p)[at + 7]) == if c == 0 then 0xFFFF else c
  {
    HeaderEnd(p, at);
    UdpBlankSum(p, at, len);
    UdpFieldIs(p);
  }

  lemma BlankField(p: Packet, at: nat, len: nat, o: nat)
    requires at + len <= |p| && o + 2 <= len
    ensures WithWord(p[at..at + len], o, 0) == p[at..at + o] + [0, 0] + p[at + o + 2..at + len]
  {
    var a := WithWord(p[at..at + len], o, 0);
    var b := p[at..at + o] + [0, 0] + p[at + o + 2..at + len];
    assert forall i :: 0 <= i < len ==> a[i] == b[i];
  }

  // ---------------------------------------------------------------- idempotence

  lemma HeaderChecksumIdempotent(p: Packet, q: Packet)
    requires Sound(p) && Sound(q) && HeaderLength(q) == HeaderLength(p)
    requires q[..HeaderLength(p)] == WithHeaderChecksum(p)[..HeaderLength(p)]
    ensures WithHeaderChecksum(q) == q
  {
    var len := HeaderLength(p);
    var h := WithHeaderChecksum(p);
    assert forall i :: 0 <= i < len ==> q[i] == q[..len][i] && h[i] == h[..len][i];
    assert WithWord(q, 10, 0)[..len] == WithWord(p, 10, 0)[..len];
    assert WordAt(q, 10) == WordAt(h, 10);
    StoreTwice(q, 10, 0, WordAt(q, 10));
    StoreSame(q, 10);
  }

  lemma UdpChecksumIdempotent(h: Packet)
    requires |h| >= 20 && 20 <= HeaderLength(h) && HeaderLength(h) + 8 <= |h|
    requires HeaderLength(h) + UdpLength(h) <= |h|
    ensures var r := WithUdpChecksum(h);
      && HeaderLength(r) == HeaderLength(h) && UdpLength(r) == UdpLength(h)
      && WithUdpChecksum(r) == r
  {
    var at := HeaderLength(h);
    var seed := 0xFFFF - ChecksumOf(UdpPseudoHeader(h));
    var r := WithUdpChecksum(h);
    assert UdpPseudoHeader(r) == UdpPseudoHeader(h);
    StoreTwice(h, at + 6, WordAt(r, at + 6), seed);
    StoreSame(r, at + 6);
  }

  lemma TcpChecksumIdempotent(h: Packet)
    requires |h| >= 20 && 20 <= HeaderLength(h) && HeaderLength(h) + 20 <= |h|
    requires HeaderLength(h) + TcpLength(h) <= |h|
    ensures var r := WithTcpChecksum(h);
      && HeaderLength(r) == HeaderLength(h) && TcpLength(r) == TcpLength(h)
      && WithTcpChecksum(r) == r
  {
    var at := HeaderLength(h);
    var seed := 0xFFFF - ChecksumOf(TcpPseudoHeader(h));
    var r := WithTcpChecksum(h);
    assert TcpPseudoHeader(r) == TcpPseudoHeader(h);
    StoreTwice(h, at + 16, WordAt(r, at + 16), seed);
    StoreSame(r, at + 16);
  }

  lemma TransportChecksumIdempotent(h: Packet)
    requires Sound(h) && Sound(WithTransportChecksum(h))
    ensures WithTransportChecksum(WithTransportChecksum(h)) == WithTransportChecksum(h)
  {
    if h[9] == PROTO_UDP && WordAt(h, HeaderLength(h) + 6) != 0 {
      UdpChecksumIdempotent(h);
    } else if h[9] == PROTO_TCP {
      TcpChecksumIdempotent(h);
    }
  }

  /** A packet rewritten before it is queued keeps its bytes when it is rewritten again on release. */
  lemma RewriteIsIdempotent(p: Packet)
    requires Sound(p)
    ensures Sound(Rewritten(p)) && Rewritten(Rewritten(p)) == Rewritten(p)
  {
    HeaderKept(p);
    var h := WithHeaderChecksum(p);
    SameLayout(p, h);
    HeaderChecksumIdempotent(p, Rewritten(p));
    TransportChecksumIdempotent(h);
  }

  // ---------------------------------------------------------------- in place

  /** The checksum half of `send_ipv4`, in the packet's own buffer. */
  method RewriteChecksums(pkt: array<byte>)
    requires Sound(pkt[..])
    modifies pkt
    ensures pkt[..] == Rewritten(old(pkt[..]))
  {
    ghost var p := pkt[..];
    var ver: int := pkt[0];
    var at := (ver % 16) * 4;
    StoreWord(pkt, 10, 0);
    var c := CalculateChecksum(pkt, 0, at);
    StoreWord(pkt, 10, c);
    assert pkt[..] == WithHeaderChecksum(p);
    SameLayout(p, pkt[..]);
    var proto := pkt[9];
    if proto == PROTO_UDP {
      if pkt[at + 6] != 0 || pkt[at + 7] != 0 {
        RewriteUdp(pkt, at);
      }
    } else if proto == PROTO_TCP {
      RewriteTcp(pkt, at);
    }
  }

  method StoreWord(buffer: array<byte>, o: nat, w: u16)
    requires o + 2 <= buffer.Length
    modifies buffer
    ensures buffer[..] == WithWord(old(buffer[..]), o, w)
  {
    buffer[o] := w % 0x100;
    buffer[o + 1] := w / 0x100;
  }

  method PseudoChecksum(pkt: array<byte>, lengthHigh: byte, lengthLow: byte) returns (c: u16)
    requires pkt.Length >= 20
    ensures c == ChecksumOf(PseudoHeader(pkt[..], lengthHigh, lengthLow))
  {
    var header := new byte[12];
    for i := 0 to 8
      invariant header[..i] == pkt[12..12 + i]
    {
      header[i] := pkt[12 + i];
    }
    header[8], header[9], header[10], header[11] := 0, pkt[9], lengthHigh, lengthLow;
    assert header[..8] == pkt[12..20];
    assert header[0..12] == PseudoHeader(pkt[..], lengthHigh, lengthLow);
    c := CalculateChecksum(header, 0, 12);
  }

  /** Seeds the checksum field at `at + o` and sums the segment. */
  method SeededSum(pkt: array<byte>, at: nat, o: nat, len: nat, pseudo: u16) returns (c: u16)
    requires at + o + 2 <= pkt.Length && at + len <= pkt.Length && len <= 0xFFFF
    modifies pkt
    ensures pkt[..] == WithWord(old(pkt[..]), at + o, 0xFFFF - pseudo)
    ensures c == ChecksumOf(pkt[..][at..at + len])
  {
    StoreWord(pkt, at + o, 0xFFFF - pseudo);
    c := CalculateChecksum(pkt, at, len);
    assert pkt[at..at + len] == pkt[..][at..at + len];
  }

  method RewriteUdp(pkt: array<byte>, at: nat)
    requires pkt.Length >= 20 && at == HeaderLength(pkt[..]) >= 20 && at + 8 <= pkt.Length
    requires at + UdpLength(pkt[..]) <= pkt.Length
    modifies pkt
    ensures pkt[..] == WithUdpChecksum(old(pkt[..]))
  {
    ghost var p := pkt[..];
    var pseudo := PseudoChecksum(pkt, pkt[at + 4], pkt[at + 5]);
    var high: int, low: int := pkt[at + 4], pkt[at + 5];
    var len := 0x100 * high + low;
    assert len == UdpLength(p) && pseudo == ChecksumOf(UdpPseudoHeader(p));
    var c := SeededSum(pkt, at, 6, len, pseudo);
    if c == 0 {
      c := 0xFFFF;
    }
    UdpStored(p, pkt[..], c);
    StoreWord(pkt, at + 6, c);
  }

  lemma UdpStored(p: Packet, seeded: Packet, c: u16)
    requires |p| >= 20 && HeaderLength(p) + 8 <= |p| && HeaderLength(p) + UdpLength(p) <= |p|
    requires seeded == WithWord(p, HeaderLength(p) + 6, 0xFFFF - ChecksumOf(UdpPseudoHeader(p)))
    requires var sum := ChecksumOf(seeded[HeaderLength(p)..HeaderLength(p) + UdpLength(p)]);
      c == if sum == 0 then 0xFFFF else sum
    ensures WithWord(seeded, HeaderLength(p) + 6, c) == WithUdpChecksum(p)
  {
    StoreTwice(p, HeaderLength(p) + 6, 0xFFFF - ChecksumOf(UdpPseudoHeader(p)), c);
  }

  method RewriteTcp(pkt: array<byte>, at: nat)
    requires pkt.Length >= 20 && at == HeaderLength(pkt[..]) >= 20 && at + 20 <= pkt.Length
    requires at + TcpLength(pkt[..]) <= pkt.Length
    modifies pkt
    ensures pkt[..] == WithTcpChecksum(old(pkt[..]))
  {
    ghost var p := pkt[..];
    var high: int, low: int := pkt[2], pkt[3];
    var len := (0x100 * high + low - at) % 0x1_0000;
    var pseudo := PseudoChecksum(pkt, len / 0x100, len % 0x100);
    assert len == TcpLength(p) && pseudo == ChecksumOf(TcpPseudoHeader(p));
    var c := SeededSum(pkt, at, 16, len, pseudo);
    TcpStored(p, pkt[..], c);
    StoreWord(pkt, at + 16, c);
  }

  lemma TcpStored(p: Packet, seeded: Packet, c: u16)
    requires |p| >= 20 && HeaderLength(p) + 20 <= |p| && HeaderLength(p) + TcpLength(p) <= |p|
    requires seeded == WithWord(p, HeaderLength(p) + 16, 0xFFFF - ChecksumOf(TcpPseudoHeader(p)))
    requires c == ChecksumOf(seeded[HeaderLength(p)..HeaderLength(p) + TcpLength(p)])
    ensures WithWord(seeded, HeaderLength(p) + 16, c) == WithTcpChecksum(p)
  {
    StoreTwice(p, HeaderLength(p) + 16, 0xFFFF - ChecksumOf(TcpPseudoHeader(p)), c);
  }
}
