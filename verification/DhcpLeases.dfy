/** The lease table of dhcp.c. */
module DhcpLeases {
  import opened Net

  const MAX_LEASES := 10
  const LEASE_SECONDS := 180000

  /** The lease time that offers and acknowledgements announce. */
  const ANNOUNCED_SECONDS := 18000

  /** `dhcp_pool_start` and `dhcp_pool_end`. */
  const POOL_START := Ip(192, 168, 1, 100)
  const POOL_END := Ip(192, 168, 1, 110)

  /** `dhcp_lease_t`; the MAC field is never used. */
  datatype Lease = Lease(ip: Ip, start: nat, expiry: nat, taken: bool)

  const FREE := Lease(ZERO_IP, 0, 0, false)

  /** `s_addr` on a little-endian machine: the address bytes read as a native word. */
  function Raw(ip: Ip): (n: nat) {
    ip.b3 * 0x100_0000 + ip.b2 * 0x1_0000 + ip.b1 * 0x100 + ip.b0
  }

  /** The address denoted by a number, `ntohl` of a host-order word. */
  function FromNumber(n: u32): (ip: Ip) {
    var n1: int := n / 0x100;
    var n2: int := n1 / 0x100;
    Ip(n2 / 0x100, n2 % 0x100, n1 % 0x100, n % 0x100)
  }

  /** `ntohl(ntohl(dhcp_pool_start.s_addr) + i)`. */
  function PoolAddress(i: nat): (ip: Ip)
    requires i < MAX_LEASES
  {
    FromNumber(IpNumber(POOL_START) + i)
  }

  lemma PoolAddressIs(i: nat)
    requires i < MAX_LEASES
    ensures PoolAddress(i) == Ip(192, 168, 1, 100 + i)
  {
    var n := IpNumber(POOL_START) + i;
    assert n == 0xC0_A801 * 0x100 + (100 + i);
    assert n / 0x100 == 0xC0_A801 && n % 0x100 == 100 + i;
  }

  /** `is_ip_in_pool` compares raw words, in which the last byte of the address weighs most. */
  predicate InPool(ip: Ip) {
    Raw(POOL_START) <= Raw(ip) <= Raw(POOL_END)
  }

  /** The range that the two bounds denote. */
  predicate InRange(ip: Ip) {
    IpNumber(POOL_START) <= IpNumber(ip) <= IpNumber(POOL_END)
  }

  /** The three bytes that weigh least in the raw word. */
  function Low(ip: Ip): (n: nat) {
    0x1_0000 * ip.b2 + 0x100 * ip.b1 + ip.b0
  }

  /** Those of 192.168.1. */
  const POOL_LOW := 0x1_A8C0

  lemma RawIs(ip: Ip)
    ensures Raw(ip) == 0x100_0000 * ip.b3 + Low(ip)
    ensures Low(ip) < 0x100_0000
    ensures Low(ip) == POOL_LOW <==> ip.b0 == 192 && ip.b1 == 168 && ip.b2 == 1
  {
    assert Low(ip) == 0x100 * (0x100 * ip.b2 + ip.b1) + ip.b0;
  }

  lemma InRangeIs(ip: Ip)
    ensures InRange(ip) <==> ip.b0 == 192 && ip.b1 == 168 && ip.b2 == 1 && 100 <= ip.b3 <= 110
  {
    if InRange(ip) {
      InRangeBytes(ip);
    }
  }

  lemma InRangeBytes(ip: Ip)
    requires InRange(ip)
    ensures ip.b0 == 192 && ip.b1 == 168 && ip.b2 == 1 && 100 <= ip.b3 <= 110
  {
    var high := 0x1_0000 * ip.b0 + 0x100 * ip.b1 + ip.b2;
    assert IpNumber(ip) == 0x100 * high + ip.b3;
    assert IpNumber(POOL_START) == 0x100 * 0xC0_A801 + 100 && IpNumber(POOL_END) == 0x100 * 0xC0_A801 + 110;
    assert high == 0xC0_A801;
    var high2 := 0x100 * ip.b0 + ip.b1;
    assert high == 0x100 * high2 + ip.b2 && high2 == 0xC0A8;
  }

  /**
   * What the raw comparison accepts: every address that ends in 101 to 109, and on the two bounds those
   * whose other bytes, read backwards, are not below or not above those of the pool.
   */
  lemma PoolCheckAccepts(ip: Ip)
    ensures InPool(ip) <==>
      || 101 <= ip.b3 <= 109
      || (ip.b3 == 100 && Low(ip) >= POOL_LOW)
      || (ip.b3 == 110 && Low(ip) <= POOL_LOW)
  {
    RawIs(ip);
    RawIs(POOL_START);
    RawIs(POOL_END);
  }

  /**
   * The raw comparison accepts the whole range and too much besides. It is right exactly for the
   * addresses of the pool's network and for those that it refuses by their ending.
   */
  lemma PoolCheckAcceptsTooMuch(ip: Ip)
    ensures InRange(ip) ==> InPool(ip)
    ensures (InPool(ip) <==> InRange(ip)) <==>
      || (ip.b0 == 192 && ip.b1 == 168 && ip.b2 == 1)
      || ip.b3 < 100
      || ip.b3 > 110
      || (ip.b3 == 100 && Low(ip) < POOL_LOW)
      || (ip.b3 == 110 && Low(ip) > POOL_LOW)
    ensures InPool(Ip(10, 0, 0, 105)) && !InRange(Ip(10, 0, 0, 105))
  {
    PoolCheckAccepts(ip);
    PoolCheckAccepts(Ip(10, 0, 0, 105));
    InRangeIs(ip);
    RawIs(ip);
  }

  type Leases = s: seq<Lease> | |s| == MAX_LEASES witness seq(MAX_LEASES, _ => FREE)

  const NO_LEASES: Leases := seq(MAX_LEASES, _ => FREE)

  predicate LiveSlot(s: Leases, i: nat, now: nat)
    requires i < MAX_LEASES
  {
    s[i].taken && now < s[i].expiry
  }

  /** Somebody holds a lease on `ip`. */
  predicate Live(s: Leases, ip: Ip, now: nat) {
    exists i :: 0 <= i < MAX_LEASES && LiveSlot(s, i, now) && s[i].ip == ip
  }

  /** An allocated slot holds the pool address of its own index. */
  predicate SlotsHoldTheirAddress(s: Leases) {
    forall i :: 0 <= i < MAX_LEASES && s[i].taken ==> s[i].ip == PoolAddress(i)
  }

  /** `cleanup_expired_leases`. */
  function Cleaned(s: Leases, now: nat): (r: Leases) {
    seq(MAX_LEASES, i requires 0 <= i < MAX_LEASES => if s[i].taken && s[i].expiry <= now then FREE else s[i])
  }

  /** The first free slot from `i` on, or the size of the table. */
  function FirstFree(s: Leases, i: nat): (f: nat)
    requires i <= MAX_LEASES
    ensures i <= f <= MAX_LEASES
    ensures f < MAX_LEASES ==> !s[f].taken
    ensures forall j :: i <= j < f ==> s[j].taken
    decreases MAX_LEASES - i
  {
    if i == MAX_LEASES || !s[i].taken then i else FirstFree(s, i + 1)
  }

  function NewLease(i: nat, start: nat): (l: Lease)
    requires i < MAX_LEASES
  {
    Lease(PoolAddress(i), start, start + LEASE_SECONDS, true)
  }

  /** `get_available_ip`; the clock is read once for the clean-up and once for the new lease. */
  function Offer(s: Leases, now: nat, later: nat): (r: (Leases, Ip)) {
    var c := Cleaned(s, now);
    var i := FirstFree(c, 0);
    if i < MAX_LEASES then (c[i := NewLease(i, later)], PoolAddress(i)) else (c, ZERO_IP)
  }

  /** `is_ip_available`. */
  predicate Available(s: Leases, ip: Ip, now: nat) {
    !Live(s, ip, now)
  }

  /** Whether a DHCPREQUEST for `ip` is answered with DHCPACK rather than DHCPNAK. */
  predicate Acked(s: Leases, ip: Ip, now: nat) {
    InPool(ip) && !Available(s, ip, now)
  }

  // ---------------------------------------------------------------- properties

  lemma OfferKeepsSlots(s: Leases, now: nat, later: nat)
    requires SlotsHoldTheirAddress(s)
    ensures SlotsHoldTheirAddress(Offer(s, now, later).0)
  {
  }

  lemma DistinctPoolAddresses(i: nat, j: nat)
    requires i < MAX_LEASES && j < MAX_LEASES
    ensures PoolAddress(i) == PoolAddress(j) <==> i == j
  {
    PoolAddressIs(i);
    PoolAddressIs(j);
  }

  /**
   * An offer is a pool address that nobody holds, and it leaves every other live lease alone; 0.0.0.0 is
   * offered exactly when all slots are live.
   */
  lemma OfferIsFresh(s: Leases, now: nat, later: nat)
    requires SlotsHoldTheirAddress(s)
    ensures var (r, ip) := Offer(s, now, later);
      && !Live(s, ip, now)
      && (ip == ZERO_IP <==> forall i :: 0 <= i < MAX_LEASES ==> LiveSlot(s, i, now))
      && (forall i :: 0 <= i < MAX_LEASES && LiveSlot(s, i, now) ==> r[i] == s[i])
      && (ip != ZERO_IP ==> Live(r, ip, later) && InRange(ip))
  {
    var (r, ip) := Offer(s, now, later);
    var c := Cleaned(s, now);
    var f := FirstFree(c, 0);
    forall i | 0 <= i < MAX_LEASES && LiveSlot(s, i, now)
      ensures s[i].ip != ip && r[i] == s[i]
    {
      PoolAddressIs(i);
      if f < MAX_LEASES {
        DistinctPoolAddresses(i, f);
      }
    }
    if f < MAX_LEASES {
      PoolAddressIs(f);
      assert LiveSlot(r, f, later) && r[f].ip == ip;
      assert !LiveSlot(s, f, now);
    } else {
      forall i | 0 <= i < MAX_LEASES
        ensures LiveSlot(s, i, now)
      {
        assert c[i].taken;
      }
    }
  }

  predicate IsFirstNotLive(s: Leases, i: nat, now: nat) {
    i < MAX_LEASES && !LiveSlot(s, i, now) && forall j :: 0 <= j < i ==> LiveSlot(s, j, now)
  }

  /** It is the address of the first slot that is not live. */
  lemma OfferIsFirst(s: Leases, now: nat, later: nat, i: nat)
    requires SlotsHoldTheirAddress(s) && IsFirstNotLive(s, i, now)
    ensures Offer(s, now, later).1 == Ip(192, 168, 1, 100 + i)
  {
    var c := Cleaned(s, now);
    var f := FirstFree(c, 0);
    assert forall j :: 0 <= j < i ==> LiveSlot(s, j, now) && c[j].taken;
    assert !c[i].taken;
    assert f == i;
    PoolAddressIs(i);
  }

  /** Two live leases are never for the same address. */
  lemma LiveLeasesDistinct(s: Leases, i: nat, j: nat, now: nat)
    requires SlotsHoldTheirAddress(s) && i < MAX_LEASES && j < MAX_LEASES
    requires LiveSlot(s, i, now) && LiveSlot(s, j, now)
    ensures s[i].ip == s[j].ip <==> i == j
  {
    DistinctPoolAddresses(i, j);
  }

  /** Despite the raw comparison a request is acknowledged exactly when its address has a live lease. */
  lemma AckedIffLive(s: Leases, ip: Ip, now: nat)
    requires SlotsHoldTheirAddress(s)
    ensures Acked(s, ip, now) <==> Live(s, ip, now)
  {
    if Live(s, ip, now) {
      var i :| 0 <= i < MAX_LEASES && LiveSlot(s, i, now) && s[i].ip == ip;
      PoolAddressIs(i);
      PoolCheckAcceptsTooMuch(ip);
    }
  }

  /** One DHCPDISCOVER with its two readings of the clock. */
  datatype Discover = Discover(now: nat, later: nat)

  function After(s: Leases, run: seq<Discover>): (r: Leases)
    decreases |run|
  {
    if run == [] then s else After(Offer(s, run[0].now, run[0].later).0, run[1..])
  }

  /** In every reachable table each allocated slot holds its own pool address. */
  lemma {:induction false} ReachableSlots(s: Leases, run: seq<Discover>)
    requires SlotsHoldTheirAddress(s)
    ensures SlotsHoldTheirAddress(After(s, run))
    decreases |run|
  {
    if run != [] {
      OfferKeepsSlots(s, run[0].now, run[0].later);
      ReachableSlots(Offer(s, run[0].now, run[0].later).0, run[1..]);
    }
  }

  /**
   * No address is offered twice while its lease runs: as long as the clock has not reached the expiry of
   * slot `i`, whatever offers are made in between, its lease stands and the next offer is another address.
   */
  lemma {:induction false} NoDoubleLease(s: Leases, i: nat, run: seq<Discover>, next: Discover)
    requires SlotsHoldTheirAddress(s) && i < MAX_LEASES && s[i].taken
    requires forall k :: 0 <= k < |run| ==> run[k].now < s[i].expiry
    requires next.now < s[i].expiry
    ensures After(s, run)[i] == s[i]
    ensures Offer(After(s, run), next.now, next.later).1 != s[i].ip
    decreases |run|
  {
    if run == [] {
      OfferIsFresh(s, next.now, next.later);
      assert LiveSlot(s, i, next.now);
    } else {
      var s' := Offer(s, run[0].now, run[0].later).0;
      OfferKeepsSlots(s, run[0].now, run[0].later);
      OfferIsFresh(s, run[0].now, run[0].later);
      assert LiveSlot(s, i, run[0].now);
      NoDoubleLease(s', i, run[1..], next);
    }
  }

  predicate OffersBefore(run: seq<Discover>, end: nat) {
    forall k :: 0 <= k < |run| ==> run[k].now < end
  }

  /** No offer made before `end` touches the lease of slot `i`. */
  ghost predicate StandsUntil(s: Leases, i: nat, end: nat)
    requires i < MAX_LEASES
  {
    forall run :: OffersBefore(run, end) ==> After(s, run)[i] == s[i]
  }

  /**
   * An acknowledgement announces the lease for another 18000 seconds but does not extend it in the table.
   * The lease stands for all that time, whatever is offered meanwhile, if and only if the table's expiry
   * is not sooner; otherwise its address can be offered to somebody else.
   */
  lemma AckIsKeptIff(s: Leases, i: nat, now: nat)
    requires SlotsHoldTheirAddress(s) && i < MAX_LEASES && LiveSlot(s, i, now)
    ensures StandsUntil(s, i, now + ANNOUNCED_SECONDS) <==> now + ANNOUNCED_SECONDS <= s[i].expiry
    ensures s[i].expiry < now + ANNOUNCED_SECONDS && (forall j :: 0 <= j < i ==> LiveSlot(s, j, s[i].expiry)) ==>
      Offer(s, s[i].expiry, s[i].expiry).1 == s[i].ip
  {
    var e := s[i].expiry;
    if now + ANNOUNCED_SECONDS <= e {
      forall run | OffersBefore(run, now + ANNOUNCED_SECONDS)
        ensures After(s, run)[i] == s[i]
      {
        NoDoubleLease(s, i, run, Discover(now, now));
      }
    } else {
      var run := [Discover(e, e)];
      assert OffersBefore(run, now + ANNOUNCED_SECONDS);
      assert run[1..] == [];
      assert After(s, run) == After(Offer(s, e, e).0, run[1..]) == Offer(s, e, e).0;
      OfferAtExpiry(s, i);
      assert After(s, run)[i] != s[i];
    }
  }

  /** An offer at the expiry of slot `i` ends its lease, and is its address if all slots before it are live. */
  lemma OfferAtExpiry(s: Leases, i: nat)
    requires SlotsHoldTheirAddress(s) && i < MAX_LEASES && s[i].taken
    ensures var (r, ip) := Offer(s, s[i].expiry, s[i].expiry);
      r[i] != s[i] && ((forall j :: 0 <= j < i ==> LiveSlot(s, j, s[i].expiry)) ==> ip == s[i].ip)
  {
    var c := Cleaned(s, s[i].expiry);
    assert c[i] == FREE;
    var f := FirstFree(c, 0);
    assert f <= i;
    if forall j :: 0 <= j < i ==> LiveSlot(s, j, s[i].expiry) {
      forall j | 0 <= j < i
        ensures c[j].taken
      {
        assert LiveSlot(s, j, s[i].expiry);
      }
      assert f == i;
    }
  }

  /** So every acknowledgement in the first 162000 seconds of a lease is kept, and none after that. */
  lemma NewLeaseIsKeptIff(s: Leases, i: nat, start: nat, now: nat)
    requires SlotsHoldTheirAddress(s) && i < MAX_LEASES && s[i] == NewLease(i, start) && LiveSlot(s, i, now)
    ensures StandsUntil(s, i, now + ANNOUNCED_SECONDS) <==> now <= start + 162000
  {
    AckIsKeptIff(s, i, now);
  }

  // ---------------------------------------------------------------- the server's table

  class DhcpServer {
    const leaseTable: array<Lease>

    ghost predicate Valid()
      reads this, leaseTable
    {
      leaseTable.Length == MAX_LEASES && SlotsHoldTheirAddress(leaseTable[..])
    }

    constructor ()
      ensures Valid() && leaseTable[..] == NO_LEASES && fresh(leaseTable)
    {
      leaseTable := new Lease[MAX_LEASES](_ => FREE);
      new;
      assert leaseTable[..] == NO_LEASES;
    }

    /** `cleanup_expired_leases`. */
    method CleanupExpiredLeases(now: nat)
      requires Valid()
      modifies leaseTable
      ensures Valid() && leaseTable[..] == Cleaned(old(leaseTable[..]), now)
    {
      ghost var s := leaseTable[..];
      for i := 0 to MAX_LEASES
        invariant forall j :: 0 <= j < MAX_LEASES ==> leaseTable[j] == if j < i then Cleaned(s, now)[j] else s[j]
      {
        if leaseTable[i].taken && leaseTable[i].expiry <= now {
          leaseTable[i] := Lease(ZERO_IP, 0, 0, false);
        }
      }
      assert leaseTable[..] == Cleaned(s, now);
    }

    /** `get_available_ip`. */
    method GetAvailableIp(now: nat, later: nat) returns (ip: Ip)
      requires Valid()
      modifies leaseTable
      ensures Valid() && (leaseTable[..], ip) == Offer(old(leaseTable[..]), now, later)
    {
      ghost var s := leaseTable[..];
      OfferKeepsSlots(s, now, later);
      CleanupExpiredLeases(now);
      ghost var c := leaseTable[..];
      for i := 0 to MAX_LEASES
        invariant leaseTable[..] == c && FirstFree(c, 0) == FirstFree(c, i)
      {
        if !leaseTable[i].taken {
          ip := FromNumber(IpNumber(POOL_START) + i);
          leaseTable[i] := Lease(ip, later, later + 180000, true);
          assert leaseTable[..] == c[i := NewLease(i, later)];
          return;
        }
      }
      return ZERO_IP;
    }

    /** `is_ip_available`. */
    method IsIpAvailable(ip: Ip, now: nat) returns (b: bool)
      requires Valid()
      ensures b <==> Available(leaseTable[..], ip, now)
    {
      ghost var s := leaseTable[..];
      for i := 0 to MAX_LEASES
        invariant forall j :: 0 <= j < i ==> !(LiveSlot(s, j, now) && s[j].ip == ip)
      {
        if leaseTable[i].taken && leaseTable[i].ip == ip && now < leaseTable[i].expiry {
          assert LiveSlot(s, i, now);
          return false;
        }
      }
      return true;
    }

    /** The decision of `handle_dhcp_packet` on a DHCPREQUEST. */
    method HandleRequest(ip: Ip, now: nat) returns (ack: bool)
      requires Valid()
      ensures ack <==> Live(leaseTable[..], ip, now)
    {
      AckedIffLive(leaseTable[..], ip, now);
      var available := IsIpAvailable(ip, now);
      ack := !(!InPool(ip) || available);
    }
  }
}
