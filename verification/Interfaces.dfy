/** Subnet masks and the longest-prefix choice of an outgoing interface (utils.c, interfaces.c). */
module Interfaces {
  import opened Net

  datatype Side = LAN | WAN

  datatype Kind = Ether | Wifi

  /** `interface_config_t`, without the name and the file descriptor. */
  datatype Config = Config(
    mac: Mac, networkIp: Ip, interfaceIp: Ip, prefixLen: byte, side: Side, kind: Kind)

  /** The byte of a netmask that `k` more leading ones reach into. */
  function MaskByte(k: int): (r: byte) {
    if k <= 0 then 0 else if k >= 8 then 0xFF else 0x100 - Pow2Small(8 - k)
  }

  function Pow2Small(j: nat): (p: int)
    requires j <= 8
    ensures 1 <= p <= 0x100 && p == Pow2(j)
  {
    assert Pow2(8) == 256 && Pow2(7) == 128 && Pow2(6) == 64 && Pow2(5) == 32;
    assert Pow2(4) == 16 && Pow2(3) == 8 && Pow2(2) == 4 && Pow2(1) == 2;
    Pow2(j)
  }

  /** What `create_subnet_mask` returns: its loop never reaches the fourth byte. */
  function SubnetMask(prefix: byte): (m: Ip) {
    Ip(MaskByte(prefix), MaskByte(prefix - 8), MaskByte(prefix - 16), 0)
  }

  method CreateSubnetMask(cidrPrefixLen: byte) returns (mask: Ip)
    ensures mask == SubnetMask(cidrPrefixLen)
  {
    var bytes: seq<byte> := [0, 0, 0, 0];
    var left: int := cidrPrefixLen;
    for i := 0 to 3
      invariant |bytes| == 4 && left == cidrPrefixLen - 8 * i && left >= 0 && (i > 0 ==> left > 0)
      invariant forall k :: 0 <= k < i ==> bytes[k] == MaskByte(cidrPrefixLen - 8 * k)
      invariant forall k :: i <= k < 4 ==> bytes[k] == 0
    {
      if left <= 8 {
        ShiftedMinusOne(8 - left);
        bytes := bytes[i := Shl(0xFF, 8 - left) % 0x100];
        break;
      } else {
        bytes := bytes[i := 0xFF];
        left := left - 8;
      }
    }
    mask := Ip(bytes[0], bytes[1], bytes[2], bytes[3]);
  }

  /** `((int8_t) -1) << j`, truncated to a byte, keeps the `8 - j` high ones. */
  lemma ShiftedMinusOne(j: nat)
    requires j <= 8
    ensures Shl(0xFF, j) % 0x100 == MaskByte(8 - j)
  {
    var v := Shl(0xFF, 0);
    assert Shl(0xFF, 1) == 0x1FE && Shl(0xFF, 2) == 0x3FC && Shl(0xFF, 3) == 0x7F8;
    assert Shl(0xFF, 4) == 0xFF0 && Shl(0xFF, 5) == 0x1FE0 && Shl(0xFF, 6) == 0x3FC0;
    assert Shl(0xFF, 7) == 0x7F80 && Shl(0xFF, 8) == 0xFF00;
    var p := Pow2Small(j);
    assert Pow2(0) == 1 && Pow2(1) == 2 && Pow2(2) == 4 && Pow2(3) == 8 && Pow2(4) == 16;
    assert Pow2(5) == 32 && Pow2(6) == 64 && Pow2(7) == 128 && Pow2(8) == 256;
  }

  function ApplyMask(mask: Ip, ip: Ip): (r: Ip) {
    Ip(BitAnd(mask.b0, ip.b0), BitAnd(mask.b1, ip.b1), BitAnd(mask.b2, ip.b2), BitAnd(mask.b3, ip.b3))
  }

  /** `n` with its `j` low bits cleared. */
  function ClearLow(n: nat, j: nat): (r: nat) {
    Shl(Shr(n, j), j)
  }

  lemma SmallPowers()
    ensures Pow2(0) == 1 && Pow2(1) == 2 && Pow2(2) == 4 && Pow2(3) == 8 && Pow2(4) == 16
    ensures Pow2(5) == 32 && Pow2(6) == 64 && Pow2(7) == 128 && Pow2(8) == 256
  {
    var a, b, c, d := Pow2(2), Pow2(4), Pow2(6), Pow2(8);
  }

  lemma {:induction false} ShrBound(b: nat, j: nat, n: nat)
    requires j <= n && b < Pow2(n)
    ensures Shr(b, j) < Pow2(n - j)
  {
    if j > 0 {
      ShrBound(b / 2, j - 1, n - 1);
    }
  }

  lemma {:induction false} ShlOnes(k: nat, j: nat)
    ensures Shl(Pow2(k) - 1, j) == Pow2(k + j) - Pow2(j)
  {
    if j > 0 {
      ShlOnes(k, j - 1);
    }
  }

  /** One masked byte keeps exactly its `k` high bits. */
  lemma MaskedByte(k: int, b: byte)
    requires 0 <= k <= 8
    ensures BitAnd(MaskByte(k), b) == ClearLow(b, 8 - k)
  {
    SmallPowers();
    var j := 8 - k;
    ShlOnes(k, j);
    AndShifted(Pow2(k) - 1, j, b);
    ShrBound(b, j, 8);
    AndLowOnes(k, Shr(b, j));
  }

  lemma {:induction false} ShrCompose(n: nat, i: nat, j: nat)
    ensures Shr(Shr(n, i), j) == Shr(n, i + j)
    decreases i
  {
    if i > 0 {
      ShrCompose(n / 2, i - 1, j);
    }
  }

  lemma {:induction false} ShlCompose(m: nat, i: nat, j: nat)
    ensures Shl(Shl(m, i), j) == Shl(m, i + j)
    decreases j
  {
    if j > 0 {
      ShlCompose(m, i, j - 1);
    }
  }

  lemma ShlByte(m: nat)
    ensures Shl(m, 8) == 0x100 * m
  {
    assert Shl(m, 1) == 2 * m;
    assert Shl(m, 3) == 2 * Shl(m, 2) == 4 * Shl(m, 1);
    assert Shl(m, 5) == 2 * Shl(m, 4) == 4 * Shl(m, 3);
    assert Shl(m, 7) == 2 * Shl(m, 6) == 4 * Shl(m, 5);
  }

  /** Clearing low bits does not reach the bits above position `k`. */
  lemma {:induction false} ClearLowBelow(h: nat, k: nat, b: nat, j: nat)
    requires j <= k
    ensures ClearLow(Shl(h, k) + b, j) == Shl(h, k) + ClearLow(b, j)
  {
    if j > 0 {
      ClearLowBelow(h, k - 1, b / 2, j - 1);
    }
  }

  lemma {:induction false} DropByte(h: nat, k: nat, b: nat)
    requires b < Pow2(k)
    ensures Shr(Shl(h, k) + b, k) == h
  {
    if k > 0 {
      DropByte(h, k - 1, b / 2);
    }
  }

  /** Clearing at least a whole low byte works on what is above that byte. */
  lemma ClearLowByte(h: nat, b: byte, j: nat)
    ensures ClearLow(0x100 * h + b, j + 8) == 0x100 * ClearLow(h, j)
  {
    var n := 0x100 * h + b;
    SmallPowers();
    ShlByte(h);
    DropByte(h, 8, b);
    ShrCompose(n, 8, j);
    ShlCompose(Shr(h, j), j, 8);
    ShlByte(ClearLow(h, j));
  }

  /** The two and the three high bytes of an address as a number. */
  function High2(ip: Ip): (n: nat) {
    0x100 * ip.b0 + ip.b1
  }

  function High3(ip: Ip): (n: nat) {
    0x100 * High2(ip) + ip.b2
  }

  lemma IpNumberNested(ip: Ip)
    ensures IpNumber(ip) == 0x100 * High3(ip) + ip.b3
  {
  }

  /** Masking the three high bytes clears the low bits of the number they form. */
  lemma MaskClearsHigh3(prefix: byte, ip: Ip)
    requires prefix <= 24
    ensures High3(ApplyMask(SubnetMask(prefix), ip)) == ClearLow(High3(ip), 24 - prefix)
  {
    var j := 24 - prefix;
    if prefix > 16 {
      MaskFull(ip.b0);
      MaskFull(ip.b1);
      MaskedByte(prefix - 16, ip.b2);
      ShlByte(High2(ip));
      ClearLowBelow(High2(ip), 8, ip.b2, j);
    } else {
      MaskClearsHigh2(prefix, ip);
      MaskZero(ip.b2);
      ClearLowByte(High2(ip), ip.b2, j - 8);
    }
  }

  lemma MaskClearsHigh2(prefix: byte, ip: Ip)
    requires prefix <= 16
    ensures High2(ApplyMask(SubnetMask(prefix), ip)) == ClearLow(High2(ip), 16 - prefix)
  {
    if prefix > 8 {
      MaskFull(ip.b0);
      MaskedLowByte(prefix - 8, ip.b0, ip.b1);
    } else {
      MaskZero(ip.b1);
      ClearLowByte(ip.b0, ip.b1, 8 - prefix);
      MaskedByte(prefix, ip.b0);
    }
  }

  /** Masking the low byte of a number of two clears the low bits of that number. */
  lemma MaskedLowByte(k: nat, high: byte, low: byte)
    requires k <= 8
    ensures 0x100 * high + BitAnd(MaskByte(k), low) == ClearLow(0x100 * high + low, 8 - k)
  {
    MaskedByte(k, low);
    ShlByte(high);
    ClearLowBelow(high, 8, low, 8 - k);
  }

  /**
   * For every prefix length up to 24 the mask keeps exactly the leading bits.
   */
  lemma MaskClearsHostBits(prefix: byte, ip: Ip)
    requires prefix <= 24
    ensures IpNumber(ApplyMask(SubnetMask(prefix), ip)) == ClearLow(IpNumber(ip), 32 - prefix)
  {
    MaskClearsHigh3(prefix, ip);
    MaskZero(ip.b3);
    ClearLowOfIp(ip, ApplyMask(SubnetMask(prefix), ip), 24 - prefix);
  }

  /** Cleared bits of the three high bytes, and a cleared low byte, are cleared bits of the number. */
  lemma ClearLowOfIp(ip: Ip, masked: Ip, j: nat)
    requires High3(masked) == ClearLow(High3(ip), j) && masked.b3 == 0
    ensures IpNumber(masked) == ClearLow(IpNumber(ip), j + 8)
  {
    IpNumberNested(ip);
    IpNumberNested(masked);
    ClearLowByte(High3(ip), ip.b3, j);
  }

  lemma MaskFull(b: byte)
    ensures BitAnd(0xFF, b) == b
  {
    SmallPowers();
    AndLowOnes(8, b);
  }

  lemma MaskZero(b: byte)
    ensures BitAnd(0, b) == 0
  {
  }

  // ---------------------------------------------------------------- prefix length of a mask

  /** What is left of `len` after one count for each trailing zero of `v`. */
  function SignificantBits(v: nat, len: nat): (r: nat) {
    if v % 2 == 0 && len > 0 then SignificantBits(v / 2, len - 1) else len
  }

  /** `None` where the C function falls off its end without a return statement. */
  function PrefixLengthFrom(bytes: seq<byte>, found: nat): (r: Option<nat>) {
    if bytes == [] then None
    else
      var len := SignificantBits(bytes[0], 8);
      if len != 8 then Some(found + len) else PrefixLengthFrom(bytes[1..], found + len)
  }

  method PrefixLenGet(mask: Ip) returns (r: Option<nat>)
    ensures r == PrefixLengthFrom(IpBytes(mask), 0)
  {
    var bytes := IpBytes(mask);
    var prefixLen := 0;
    for j := 0 to 4
      invariant PrefixLengthFrom(bytes, 0) == PrefixLengthFrom(bytes[j..], prefixLen)
    {
      var val: nat := bytes[j];
      var byteLen := 8;
      while val % 2 == 0 && byteLen > 0
        invariant SignificantBits(val, byteLen) == SignificantBits(bytes[j], 8)
      {
        byteLen := byteLen - 1;
        val := val / 2;
      }
      prefixLen := prefixLen + byteLen;
      assert bytes[j..][1..] == bytes[j + 1..];
      if byteLen != 8 {
        return Some(prefixLen);
      }
    }
    return None;
  }

  lemma {:induction false} SignificantShifted(m: nat, j: nat, len: nat)
    requires j <= len && m % 2 == 1
    ensures SignificantBits(Shl(m, j), len) == len - j
    decreases j
  {
    if j > 0 {
      SignificantShifted(m, j - 1, len - 1);
    }
  }

  lemma {:induction false} SignificantZero(len: nat)
    ensures SignificantBits(0, len) == 0
  {
    if len > 0 {
      SignificantZero(len - 1);
    }
  }

  lemma SignificantMaskByte(k: int)
    ensures SignificantBits(MaskByte(k), 8) == if k <= 0 then 0 else if k >= 8 then 8 else k
  {
    if k <= 0 {
      SignificantZero(8);
    } else if k < 8 {
      SmallPowers();
      ShlOnes(k, 8 - k);
      SignificantShifted(Pow2(k) - 1, 8 - k, 8);
    }
  }

  /** The mask of `p` leading ones in all four bytes. */
  function LeadingOnes(p: nat): (m: Ip) {
    Ip(MaskByte(p), MaskByte(p - 8), MaskByte(p - 16), MaskByte(p - 24))
  }

  /** `prefix_len_get` recovers every length but 32, where it returns nothing. */
  lemma PrefixOfLeadingOnes(p: nat)
    requires p <= 32
    ensures PrefixLengthFrom(IpBytes(LeadingOnes(p)), 0) == if p < 32 then Some(p) else None
  {
    var s := IpBytes(LeadingOnes(p));
    SignificantMaskByte(p);
    SignificantMaskByte(p - 8);
    SignificantMaskByte(p - 16);
    SignificantMaskByte(p - 24);
    assert s[1..][1..] == s[2..] && s[2..][1..] == s[3..] && s[3..][1..] == [];
    if p >= 8 {
      assert PrefixLengthFrom(s, 0) == PrefixLengthFrom(s[1..], 8);
      if p >= 16 {
        assert PrefixLengthFrom(s[1..], 8) == PrefixLengthFrom(s[2..], 16);
        if p >= 24 {
          assert PrefixLengthFrom(s[2..], 16) == PrefixLengthFrom(s[3..], 24);
        }
      }
    }
  }

  /**
   * Of any mask `prefix_len_get` counts the bits up to the last one of the first even byte, all of them if
   * that byte is zero; without an even byte it returns nothing.
   */
  lemma PrefixOfAnyMask(mask: Ip, j: nat, m: nat, zeros: nat)
    requires j <= 4 && forall i :: 0 <= i < j ==> IpBytes(mask)[i] % 2 == 1
    requires j < 4 ==> 1 <= zeros <= 8 && IpBytes(mask)[j] == Shl(m, zeros) && (m % 2 == 1 || (m == 0 && zeros == 8))
    ensures PrefixLengthFrom(IpBytes(mask), 0) == if j < 4 then Some(8 * j + 8 - zeros) else None
  {
    var s := IpBytes(mask);
    if j < 4 {
      if m == 0 {
        ShlZero(zeros);
        SignificantZero(8);
      } else {
        SignificantShifted(m, zeros, 8);
      }
    }
    PrefixSkipsOdd(s, 0, j);
    assert s[j..] != [] ==> s[j..][0] == s[j];
  }

  lemma {:induction false} ShlZero(j: nat)
    ensures Shl(0, j) == 0
  {
    if j > 0 {
      ShlZero(j - 1);
    }
  }

  lemma {:induction false} PrefixSkipsOdd(s: seq<byte>, i: nat, j: nat)
    requires i <= j <= |s| && forall k :: i <= k < j ==> s[k] % 2 == 1
    ensures PrefixLengthFrom(s[i..], 8 * i) == PrefixLengthFrom(s[j..], 8 * j)
    ensures i == 0 ==> s[i..] == s
    decreases j - i
  {
    if i < j {
      assert s[i..][0] == s[i] && s[i..][1..] == s[i + 1..];
      assert SignificantBits(s[i], 8) == 8;
      PrefixSkipsOdd(s, i + 1, j);
    }
  }

  /** `prefix_len_get` inverts `create_subnet_mask` exactly on the lengths 0 to 24. */
  lemma PrefixLenInvertsMask(prefix: byte)
    ensures PrefixLengthFrom(IpBytes(SubnetMask(prefix)), 0) == Some(prefix) <==> prefix <= 24
    ensures prefix > 24 ==> PrefixLengthFrom(IpBytes(SubnetMask(prefix)), 0) == Some(24)
    ensures prefix >= 24 ==> SubnetMask(prefix) == Ip(255, 255, 255, 0)
  {
    if prefix <= 24 {
      assert SubnetMask(prefix) == LeadingOnes(prefix);
      PrefixOfLeadingOnes(prefix);
    } else {
      assert SubnetMask(prefix) == LeadingOnes(24);
      PrefixOfLeadingOnes(24);
    }
  }

  // ---------------------------------------------------------------- longest prefix match

  /** The test `get_interface_for_ip` makes on one table entry. */
  predicate Matches(config: Config, ip: Ip) {
    ApplyMask(SubnetMask(config.prefixLen), ip) == config.networkIp
  }

  /** The leading `p` bits of an address. */
  function LeadingBits(ip: Ip, p: nat): (r: nat)
    requires p <= 32
  {
    Shr(IpNumber(ip), 32 - p)
  }

  /** An entry matches when its network has no host bits and shares exactly its prefix with the address. */
  lemma MatchesIsPrefixAgreement(config: Config, ip: Ip)
    requires config.prefixLen <= 24
    ensures Matches(config, ip) <==>
      && IpNumber(config.networkIp) == ClearLow(IpNumber(config.networkIp), 32 - config.prefixLen)
      && LeadingBits(config.networkIp, config.prefixLen) == LeadingBits(ip, config.prefixLen)
  {
    var p := config.prefixLen;
    MaskClearsHostBits(p, ip);
    if Matches(config, ip) {
      ShrOfClear(IpNumber(ip), 32 - p);
    }
    IpNumberInjective(ApplyMask(SubnetMask(p), ip), config.networkIp);
  }

  lemma {:induction false} ShrOfShl(m: nat, j: nat)
    ensures Shr(Shl(m, j), j) == m
  {
    if j > 0 {
      ShrOfShl(m, j - 1);
    }
  }

  lemma ShrOfClear(n: nat, j: nat)
    ensures Shr(ClearLow(n, j), j) == Shr(n, j)
    ensures ClearLow(ClearLow(n, j), j) == ClearLow(n, j)
  {
    ShrOfShl(Shr(n, j), j);
  }

  lemma IpNumberInjective(a: Ip, b: Ip)
    ensures IpNumber(a) == IpNumber(b) ==> a == b
  {
    if IpNumber(a) == IpNumber(b) {
      IpNumberNested(a);
      IpNumberNested(b);
      LastDigit(High3(a), a.b3, High3(b), b.b3);
      LastDigit(High2(a), a.b2, High2(b), b.b2);
      LastDigit(a.b0, a.b1, b.b0, b.b1);
    }
  }

  lemma LastDigit(x: nat, r: byte, y: nat, s: byte)
    requires 0x100 * x + r == 0x100 * y + s
    ensures x == y && r == s
  {
  }

  /** The best entry among the first `n`: the scan's state after `n` rounds. */
  function BestUpTo(table: seq<Config>, ip: Ip, n: nat): (r: Option<nat>)
    requires n <= |table|
    ensures r.Some? ==> r.value < n
  {
    if n == 0 then None
    else
      var best := BestUpTo(table, ip, n - 1);
      if best.Some? && table[n - 1].prefixLen <= table[best.value].prefixLen then best
      else if Matches(table[n - 1], ip) then Some(n - 1)
      else best
  }

  /** The interface `get_interface_for_ip` chooses; `None` where it returns an uninitialised id. */
  function BestMatch(table: seq<Config>, ip: Ip): (r: Option<nat>)
    ensures r.Some? ==> r.value < |table|
  {
    BestUpTo(table, ip, |table|)
  }

  method GetInterfaceForIp(table: seq<Config>, ip: Ip) returns (intId: Option<nat>)
    requires forall c <- table :: c.prefixLen <= 127
    ensures intId == BestMatch(table, ip)
  {
    intId := None;
    var highest: int := -1;
    for i := 0 to |table|
      invariant intId == BestUpTo(table, ip, i)
      invariant highest == if intId.Some? then table[intId.value].prefixLen else -1
    {
      if table[i].prefixLen <= highest {
        continue;
      }
      var mask := CreateSubnetMask(table[i].prefixLen);
      if ApplyMask(mask, ip) == table[i].networkIp {
        intId := Some(i);
        highest := table[i].prefixLen;
      }
    }
  }

  /** The first entry of greatest prefix length among the matching ones. */
  ghost predicate IsFirstLongest(table: seq<Config>, ip: Ip, n: nat, best: nat)
    requires n <= |table|
  {
    && best < n
    && Matches(table[best], ip)
    && (forall j :: 0 <= j < n && Matches(table[j], ip) ==> table[j].prefixLen <= table[best].prefixLen)
    && (forall j :: 0 <= j < best && Matches(table[j], ip) ==> table[j].prefixLen < table[best].prefixLen)
  }

  /** The scan's state is a first longest match, or there is none. */
  lemma {:induction false} BestUpToIsOne(table: seq<Config>, ip: Ip, n: nat)
    requires n <= |table|
    ensures BestUpTo(table, ip, n) == None <==> forall j :: 0 <= j < n ==> !Matches(table[j], ip)
    ensures BestUpTo(table, ip, n).Some? ==> IsFirstLongest(table, ip, n, BestUpTo(table, ip, n).value)
  {
    if n > 0 {
      BestUpToIsOne(table, ip, n - 1);
    }
  }

  /** There is at most one. */
  lemma FirstLongestIsUnique(table: seq<Config>, ip: Ip, n: nat, i: nat, k: nat)
    requires n <= |table| && IsFirstLongest(table, ip, n, i) && IsFirstLongest(table, ip, n, k)
    ensures i == k
  {
  }

  /**
   * The chosen interface is exactly the first one of greatest prefix length that matches the address; a
   * default entry makes one exist.
   */
  lemma LongestPrefixMatch(table: seq<Config>, ip: Ip, best: nat)
    ensures BestMatch(table, ip) == Some(best) <==> IsFirstLongest(table, ip, |table|, best)
    ensures HasDefaultRoute(table) ==> BestMatch(table, ip).Some?
  {
    var n := |table|;
    BestUpToIsOne(table, ip, n);
    if IsFirstLongest(table, ip, n, best) {
      assert Matches(table[best], ip);
      FirstLongestIsUnique(table, ip, n, best, BestMatch(table, ip).value);
    }
    if HasDefaultRoute(table) {
      var i :| 0 <= i < |table| && table[i].prefixLen == 0 && table[i].networkIp == ZERO_IP;
      assert Matches(table[i], ip);
    }
  }

  predicate HasDefaultRoute(table: seq<Config>) {
    exists i :: 0 <= i < |table| && table[i].prefixLen == 0 && table[i].networkIp == ZERO_IP
  }
}
