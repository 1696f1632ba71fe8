/**
 * The zero byte that `calculate_checksum` stores behind an odd number of bytes before it sums them, where
 * that byte lies in the packet: what `send_ipv4` then makes of a packet.
 */
module PaddingByte {
  import opened Net
  import opened Checksum
  import opened Outgoing

  /** `((uint8_t*) ptr)[len] = 0` for an odd length, in the packet or else behind it. */
  function Padded(p: Packet, at: nat, len: nat): (r: Packet)
    ensures |r| == |p|
  {
    if len % 2 == 1 && at + len < |p| then p[at + len := 0] else p
  }

  /** The packet whose UDP segment is summed: seeded, and padded if its length is odd. */
  function UdpSeeded(p: Packet): (r: Packet)
    requires |p| >= 20 && HeaderLength(p) + 8 <= |p|
    ensures |r| == |p|
  {
    var at := HeaderLength(p);
    Padded(WithWord(p, at + 6, 0xFFFF - ChecksumOf(UdpPseudoHeader(p))), at, UdpLength(p))
  }

  function UdpSealed(seeded: Packet, at: nat, len: nat): (r: Packet)
    requires at + 8 <= |seeded| && at + len <= |seeded|
    ensures |r| == |seeded|
  {
    var c := ChecksumOf(seeded[at..at + len]);
    WithWord(seeded, at + 6, if c == 0 then 0xFFFF else c)
  }

  function UdpAsCoded(p: Packet): (r: Packet)
    requires |p| >= 20 && HeaderLength(p) + 8 <= |p| && HeaderLength(p) + UdpLength(p) <= |p|
    ensures |r| == |p|
  {
    UdpSealed(UdpSeeded(p), HeaderLength(p), UdpLength(p))
  }

  function TcpSeeded(p: Packet): (r: Packet)
    requires |p| >= 20 && HeaderLength(p) + 20 <= |p|
    ensures |r| == |p|
  {
    var at := HeaderLength(p);
    Padded(WithWord(p, at + 16, 0xFFFF - ChecksumOf(TcpPseudoHeader(p))), at, TcpLength(p))
  }

  function TcpSealed(seeded: Packet, at: nat, len: nat): (r: Packet)
    requires at + 20 <= |seeded| && at + len <= |seeded|
    ensures |r| == |seeded|
  {
    WithWord(seeded, at + 16, ChecksumOf(seeded[at..at + len]))
  }

  function TcpAsCoded(p: Packet): (r: Packet)
    requires |p| >= 20 && HeaderLength(p) + 20 <= |p| && HeaderLength(p) + TcpLength(p) <= |p|
    ensures |r| == |p|
  {
    TcpSealed(TcpSeeded(p), HeaderLength(p), TcpLength(p))
  }

  /** The packet after the first half of `send_ipv4`, to the letter; the header's length is even. */
  function RewrittenAsCoded(p: Packet): (r: Packet)
    requires Sound(p)
    ensures |r| == |p|
  {
    var h := WithHeaderChecksum(p);
    SameLayout(p, h);
    TransportAsCoded(h)
  }

  function TransportAsCoded(h: Packet): (r: Packet)
    requires Sound(h)
    ensures |r| == |h|
  {
    if h[9] == PROTO_UDP then
      if WordAt(h, HeaderLength(h) + 6) != 0 then UdpAsCoded(h) else h
    else if h[9] == PROTO_TCP then TcpAsCoded(h)
    else h
  }

  predicate UdpEnabled(p: Packet)
    requires Sound(p)
  {
    p[9] == PROTO_UDP && WordAt(p, HeaderLength(p) + 6) != 0
  }

  /** Where a segment's zero byte stays in the packet; one in the checksum field is overwritten at once. */
  function PadOf(p: Packet, at: nat, len: nat, field: nat): (i: Option<nat>)
    ensures i.Some? ==> at < i.value < |p| && i.value != at + field && i.value != at + field + 1
    requires field % 2 == 0
  {
    if len % 2 == 1 && at + len < |p| && len != field + 1 then Some(at + len) else None
  }

  function PadAt(p: Packet): (i: Option<nat>)
    requires Sound(p)
    ensures i.Some? ==> i.value < |p|
  {
    if UdpEnabled(p) then PadOf(p, HeaderLength(p), UdpLength(p), 6)
    else if p[9] == PROTO_TCP then PadOf(p, HeaderLength(p), TcpLength(p), 16)
    else None
  }

  function Zeroed(p: Packet, i: Option<nat>): (r: Packet)
    requires i.Some? ==> i.value < |p|
    ensures |r| == |p|
  {
    if i.Some? then p[i.value := 0] else p
  }

  // ---------------------------------------------------------------- what the byte changes

  /** The byte lies behind what is summed. */
  lemma PadKeepsSegment(plain: Packet, at: nat, len: nat)
    requires at + len <= |plain|
    ensures Padded(plain, at, len)[at..at + len] == plain[at..at + len]
  {
  }

  /** The stores in their order, and the byte after all of them. */
  lemma PadAroundField(p: Packet, at: nat, len: nat, field: nat, seed: u16, c: u16, plain: Packet, seeded: Packet)
    requires at + field + 2 <= |p| && at + len <= |p| && field % 2 == 0
    requires plain == WithWord(p, at + field, seed) && seeded == Padded(plain, at, len)
    ensures WithWord(seeded, at + field, c) == Zeroed(WithWord(p, at + field, c), PadOf(p, at, len, field))
  {
    var a := WithWord(seeded, at + field, c);
    var b := Zeroed(WithWord(p, at + field, c), PadOf(p, at, len, field));
    assert forall i :: 0 <= i < |p| ==> a[i] == b[i];
  }

  lemma UdpIsPadded(h: Packet)
    requires |h| >= 20 && HeaderLength(h) + 8 <= |h| && HeaderLength(h) + UdpLength(h) <= |h|
    ensures UdpAsCoded(h) == Zeroed(WithUdpChecksum(h), PadOf(h, HeaderLength(h), UdpLength(h), 6))
  {
    var at, len := HeaderLength(h), UdpLength(h);
    var seed := 0xFFFF - ChecksumOf(UdpPseudoHeader(h));
    var plain, seeded := WithWord(h, at + 6, seed), UdpSeeded(h);
    PadKeepsSegment(plain, at, len);
    var c := ChecksumOf(plain[at..at + len]);
    PadAroundField(h, at, len, 6, seed, if c == 0 then 0xFFFF else c, plain, seeded);
  }

  lemma TcpIsPadded(h: Packet)
    requires |h| >= 20 && HeaderLength(h) + 20 <= |h| && HeaderLength(h) + TcpLength(h) <= |h|
    ensures TcpAsCoded(h) == Zeroed(WithTcpChecksum(h), PadOf(h, HeaderLength(h), TcpLength(h), 16))
  {
    var at, len := HeaderLength(h), TcpLength(h);
    var seed := 0xFFFF - ChecksumOf(TcpPseudoHeader(h));
    var plain, seeded := WithWord(h, at + 16, seed), TcpSeeded(h);
    PadKeepsSegment(plain, at, len);
    PadAroundField(h, at, len, 16, seed, ChecksumOf(plain[at..at + len]), plain, seeded);
  }

  lemma TransportIsPadded(h: Packet)
    requires Sound(h)
    ensures TransportAsCoded(h) == Zeroed(WithTransportChecksum(h), PadAt(h))
  {
    if UdpEnabled(h) {
      UdpIsPadded(h);
    } else if h[9] == PROTO_TCP {
      TcpIsPadded(h);
    }
  }

  /** To the letter the packet is the one of the model with one byte more zeroed. */
  lemma AsCodedIsPadded(p: Packet)
    requires Sound(p)
    ensures RewrittenAsCoded(p) == Zeroed(Rewritten(p), PadAt(p))
  {
    var h := WithHeaderChecksum(p);
    SameLayout(p, h);
    TransportIsPadded(h);
    SamePad(p, h);
  }

  lemma SamePad(p: Packet, h: Packet)
    requires Sound(p) && Sound(h) && |h| == |p| && HeaderLength(h) == HeaderLength(p)
    requires forall i :: 0 <= i < |p| && i != 10 && i != 11 ==> h[i] == p[i]
    ensures PadAt(h) == PadAt(p)
  {
  }

  /** The byte is lost exactly where it was not zero. */
  lemma AsCodedAgreesIff(p: Packet)
    requires Sound(p)
    ensures RewrittenAsCoded(p) == Rewritten(p) <==> (PadAt(p).Some? ==> p[PadAt(p).value] == 0)
  {
    AsCodedIsPadded(p);
    OnlyChecksumsChange(p);
  }

  /** Behind an odd number of summed UDP bytes there is a zero, wherever that is in the packet. */
  lemma PadIsStored(p: Packet)
    requires Sound(p) && UdpEnabled(p) && UdpLength(p) % 2 == 1 && HeaderLength(p) + UdpLength(p) < |p|
    requires UdpLength(p) != 7
    ensures RewrittenAsCoded(p)[HeaderLength(p) + UdpLength(p)] == 0
  {
    AsCodedIsPadded(p);
  }

  /** A TCP segment ends with its packet, so only a UDP segment shorter than its packet is concerned. */
  lemma PadIsUdp(p: Packet)
    requires Sound(p) && TotalLength(p) == |p| && PadAt(p).Some?
    ensures UdpEnabled(p) && PadAt(p).value == HeaderLength(p) + UdpLength(p) < TotalLength(p)
  {
  }

  // ---------------------------------------------------------------- rewriting twice

  /** The zero byte is the low byte of the UDP length itself. */
  predicate LosesLength(p: Packet)
    requires Sound(p)
  {
    UdpEnabled(p) && UdpLength(p) == 5
  }

  lemma UdpAsCodedLayout(h: Packet)
    requires |h| >= 20 && 20 <= HeaderLength(h) && HeaderLength(h) + 8 <= |h|
    requires HeaderLength(h) + UdpLength(h) <= |h| && UdpLength(h) != 5
    ensures var r := UdpAsCoded(h);
      && HeaderLength(r) == HeaderLength(h) && UdpLength(r) == UdpLength(h)
      && UdpPseudoHeader(r) == UdpPseudoHeader(h)
  {
    var at, len := HeaderLength(h), UdpLength(h);
    var r := UdpAsCoded(h);
    assert forall i :: 0 <= i < at + 6 && i != at + len ==> r[i] == h[i];
  }

  lemma UdpAsCodedIdempotent(h: Packet)
    requires |h| >= 20 && 20 <= HeaderLength(h) && HeaderLength(h) + 8 <= |h|
    requires HeaderLength(h) + UdpLength(h) <= |h| && UdpLength(h) != 5
    ensures var r := UdpAsCoded(h);
      && HeaderLength(r) == HeaderLength(h) && UdpLength(r) == UdpLength(h) && UdpAsCoded(r) == r
  {
    UdpAsCodedLayout(h);
    SealedUdpAgain(h, HeaderLength(h), UdpLength(h), 0xFFFF - ChecksumOf(UdpPseudoHeader(h)));
    assert UdpSeeded(UdpAsCoded(h)) == UdpSeeded(h);
  }

  lemma SealedUdpAgain(h: Packet, at: nat, len: nat, seed: u16)
    requires at + 8 <= |h| && at + len <= |h|
    ensures var seeded := Padded(WithWord(h, at + 6, seed), at, len);
      Padded(WithWord(UdpSealed(seeded, at, len), at + 6, seed), at, len) == seeded
  {
    var seeded := Padded(WithWord(h, at + 6, seed), at, len);
    var c := ChecksumOf(seeded[at..at + len]);
    PadTwice(h, at, len, 6, seed, if c == 0 then 0xFFFF else c);
  }

  lemma TcpAsCodedLayout(h: Packet)
    requires |h| >= 20 && 20 <= HeaderLength(h) && HeaderLength(h) + 20 <= |h|
    requires HeaderLength(h) + TcpLength(h) <= |h|
    ensures var r := TcpAsCoded(h);
      && HeaderLength(r) == HeaderLength(h) && TcpLength(r) == TcpLength(h)
      && TcpPseudoHeader(r) == TcpPseudoHeader(h)
  {
    var r := TcpAsCoded(h);
    assert forall i :: 0 <= i < 20 ==> r[i] == h[i];
  }

  lemma TcpAsCodedIdempotent(h: Packet)
    requires |h| >= 20 && 20 <= HeaderLength(h) && HeaderLength(h) + 20 <= |h|
    requires HeaderLength(h) + TcpLength(h) <= |h|
    ensures var r := TcpAsCoded(h);
      && HeaderLength(r) == HeaderLength(h) && TcpLength(r) == TcpLength(h) && TcpAsCoded(r) == r
  {
    TcpAsCodedLayout(h);
    SealedTcpAgain(h, HeaderLength(h), TcpLength(h), 0xFFFF - ChecksumOf(TcpPseudoHeader(h)));
    assert TcpSeeded(TcpAsCoded(h)) == TcpSeeded(h);
  }

  lemma SealedTcpAgain(h: Packet, at: nat, len: nat, seed: u16)
    requires at + 20 <= |h| && at + len <= |h|
    ensures var seeded := Padded(WithWord(h, at + 16, seed), at, len);
      Padded(WithWord(TcpSealed(seeded, at, len), at + 16, seed), at, len) == seeded
  {
    var seeded := Padded(WithWord(h, at + 16, seed), at, len);
    PadTwice(h, at, len, 16, seed, ChecksumOf(seeded[at..at + len]));
  }

  lemma PadTwice(h: Packet, at: nat, len: nat, field: nat, seed: u16, c: u16)
    requires at + field + 2 <= |h| && field % 2 == 0
    ensures var seeded := Padded(WithWord(h, at + field, seed), at, len);
      Padded(WithWord(WithWord(seeded, at + field, c), at + field, seed), at, len) == seeded
  {
    var seeded := Padded(WithWord(h, at + field, seed), at, len);
    var again := Padded(WithWord(WithWord(seeded, at + field, c), at + field, seed), at, len);
    assert forall i :: 0 <= i < |h| ==> again[i] == seeded[i];
  }

  lemma AsCodedHeaderKept(p: Packet)
    requires Sound(p)
    ensures var r := RewrittenAsCoded(p);
      && Sound(r) && HeaderLength(r) == HeaderLength(p)
      && r[..HeaderLength(p)] == WithHeaderChecksum(p)[..HeaderLength(p)]
  {
    HeaderKept(p);
    AsCodedIsPadded(p);
    SameUdpLength(p);
    HeaderOfZeroed(p, Rewritten(p), PadAt(p), RewrittenAsCoded(p));
  }

  lemma SameUdpLength(p: Packet)
    requires Sound(p)
    ensures Rewritten(p)[9] == p[9] && (UdpEnabled(p) ==> UdpLength(Rewritten(p)) == UdpLength(p))
  {
    HeaderKept(p);
    OnlyChecksumsChange(p);
  }

  /** The zero byte lies behind the header, and no length grows by it. */
  lemma HeaderOfZeroed(p: Packet, q: Packet, i: Option<nat>, r: Packet)
    requires Sound(p) && Sound(q) && |q| == |p| && i == PadAt(p) && r == Zeroed(q, i)
    requires HeaderLength(q) == HeaderLength(p) && q[9] == p[9]
    requires UdpEnabled(p) ==> HeaderLength(p) + 8 <= |q| && UdpLength(q) == UdpLength(p)
    ensures Sound(r) && HeaderLength(r) == HeaderLength(p) && r[..HeaderLength(p)] == q[..HeaderLength(p)]
  {
  }

  /** With a UDP length of 5 the second rewrite sums no byte at all. */
  lemma LostLength(h: Packet)
    requires |h| >= 20 && 20 <= HeaderLength(h) && HeaderLength(h) + 8 <= |h| && UdpLength(h) == 5
    ensures var r := UdpAsCoded(h);
      && HeaderLength(r) == HeaderLength(h) && UdpLength(r) == 0
      && (UdpAsCoded(r) == r <==>
          Fold(SumLe(h[HeaderLength(h)..HeaderLength(h) + 4])) in {0, 0xFFFF})
  {
    var at := HeaderLength(h);
    var r := UdpAsCoded(h);
    assert h[at + 4] == 0;
    FiveBytes(h, at);
    var c := ChecksumOf(h[at..at + 5]);
    var seed := 0xFFFF - ChecksumOf(UdpPseudoHeader(h));
    assert Padded(WithWord(h, at + 6, seed), at, 5)[at..at + 5] == h[at..at + 5];
    assert WordAt(r, at + 6) == if c == 0 then 0xFFFF else c;
    assert r[at + 5] == 0 && r[at + 4] == 0;
    var seed' := 0xFFFF - ChecksumOf(UdpPseudoHeader(r));
    assert WithWord(r, at + 6, seed')[at..at + 0] == [];
    assert UdpAsCoded(r) == WithWord(WithWord(r, at + 6, seed'), at + 6, 0xFFFF);
    StoreTwice(r, at + 6, seed', 0xFFFF);
    StoreSame(r, at + 6);
    assert WordAt(WithWord(r, at + 6, 0xFFFF), at + 6) == 0xFFFF;
  }

  lemma FiveBytes(h: Packet, at: nat)
    requires at + 5 <= |h| && h[at + 4] == 0
    ensures SumLe(h[at..at + 5]) == SumLe(h[at..at + 4])
  {
    assert h[at..at + 5] == h[at..at + 4] + [0];
    SumLeAppend(h[at..at + 4], [0]);
  }

  /**
   * To the letter, rewriting a packet again changes no byte if and only if its length field survives, or
   * its ports happen to add up to a checksum of all ones or zero.
   */
  lemma AsCodedIsIdempotentIff(p: Packet)
    requires Sound(p)
    ensures Sound(RewrittenAsCoded(p))
    ensures RewrittenAsCoded(RewrittenAsCoded(p)) == RewrittenAsCoded(p) <==>
      !LosesLength(p) || Fold(SumLe(p[HeaderLength(p)..HeaderLength(p) + 4])) in {0, 0xFFFF}
  {
    var h := WithHeaderChecksum(p);
    SameLayout(p, h);
    AsCodedHeaderKept(p);
    HeaderChecksumIdempotent(p, RewrittenAsCoded(p));
    SameLosses(p, h);
    TransportAsCodedIdempotentIff(h);
  }

  lemma SameLosses(p: Packet, h: Packet)
    requires Sound(p) && Sound(h) && |h| == |p| && HeaderLength(h) == HeaderLength(p)
    requires forall i :: 0 <= i < |p| && i != 10 && i != 11 ==> h[i] == p[i]
    ensures LosesLength(h) <==> LosesLength(p)
    ensures LosesLength(p) ==> h[HeaderLength(h)..HeaderLength(h) + 4] == p[HeaderLength(p)..HeaderLength(p) + 4]
  {
  }

  lemma TransportAsCodedIdempotentIff(h: Packet)
    requires Sound(h) && Sound(TransportAsCoded(h))
    ensures TransportAsCoded(TransportAsCoded(h)) == TransportAsCoded(h) <==>
      !LosesLength(h) || Fold(SumLe(h[HeaderLength(h)..HeaderLength(h) + 4])) in {0, 0xFFFF}
  {
    if LosesLength(h) {
      LostLength(h);
    } else if UdpEnabled(h) {
      UdpAsCodedIdempotent(h);
    } else if h[9] == PROTO_TCP {
      TcpAsCodedIdempotent(h);
    }
  }
}
