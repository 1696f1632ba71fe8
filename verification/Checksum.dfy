/** One's-complement arithmetic of `calculate_checksum` (outgoing.c) against RFC 1071. */
module Checksum {
  import opened Net

  /** Sum of the 16-bit words in little-endian order, an odd last byte padded with zero. */
  function SumLe(b: seq<byte>): (s: nat) {
    if b == [] then 0
    else if |b| == 1 then b[0]
    else b[0] + 0x100 * b[1] + SumLe(b[2..])
  }

  /** The same in network order, as RFC 1071 defines it. */
  function SumBe(b: seq<byte>): (s: nat) {
    if b == [] then 0
    else if |b| == 1 then 0x100 * b[0]
    else 0x100 * b[0] + b[1] + SumBe(b[2..])
  }

  /** The one's-complement value of a sum: its residue modulo 65535, where only 0 itself gives 0. */
  function Fold(x: nat): (r: u16) {
    if x == 0 then 0 else (x - 1) % 0xFFFF + 1
  }

  /** What `calculate_checksum` returns for these bytes. */
  function ChecksumOf(b: seq<byte>): (c: u16) {
    0xFFFF - Fold(SumLe(b))
  }

  // ---------------------------------------------------------------- folding

  lemma FoldShift(x: nat, k: nat)
    requires x > 0
    ensures Fold(x + 0xFFFF * k) == Fold(x)
  {
    assert (x - 1 + 0xFFFF * k) % 0xFFFF == (x - 1) % 0xFFFF;
  }

  /** One round of the carry loop. */
  lemma FoldStep(x: nat)
    requires x > 0xFFFF
    ensures x % 0x1_0000 + x / 0x1_0000 < x
    ensures Fold(x % 0x1_0000 + x / 0x1_0000) == Fold(x)
  {
    FoldShift(x % 0x1_0000 + x / 0x1_0000, x / 0x1_0000);
  }

  lemma FoldDecompose(x: nat) returns (k: nat)
    ensures x == Fold(x) + 0xFFFF * k
  {
    k := if x == 0 then 0 else (x - 1) / 0xFFFF;
  }

  /** Folding a part of a sum early does not change the folded sum. */
  lemma FoldAbsorbs(a: nat, b: nat)
    ensures Fold(a + Fold(b)) == Fold(a + b)
  {
    var k := FoldDecompose(b);
    if a + Fold(b) > 0 {
      FoldShift(a + Fold(b), k);
    }
  }

  /** Adding the complement of a folded sum gives all ones. */
  lemma ComplementCancels(s: nat)
    ensures Fold(s + (0xFFFF - Fold(s))) == 0xFFFF
  {
    var k := FoldDecompose(s);
    FoldShift(0xFFFF, k);
  }

  /** A folded sum is the sum modulo 65535, and it is zero for a zero sum only. */
  lemma FoldIsResidue(x: nat)
    ensures Fold(x) % 0xFFFF == x % 0xFFFF && (Fold(x) == 0 <==> x == 0)
  {
    var k := FoldDecompose(x);
    assert (Fold(x) + 0xFFFF * k) % 0xFFFF == Fold(x) % 0xFFFF;
  }

  lemma FoldSmall(x: nat)
    requires x <= 0xFFFF
    ensures Fold(x) == x
  {
  }

  // ---------------------------------------------------------------- sums over sequences

  lemma {:induction false} SumLeAppend(a: seq<byte>, b: seq<byte>)
    requires |a| % 2 == 0
    ensures SumLe(a + b) == SumLe(a) + SumLe(b)
  {
    if a == [] {
      assert a + b == b;
    } else {
      assert (a + b)[2..] == a[2..] + b;
      SumLeAppend(a[2..], b);
    }
  }

  lemma {:induction false} SumBeAppend(a: seq<byte>, b: seq<byte>)
    requires |a| % 2 == 0
    ensures SumBe(a + b) == SumBe(a) + SumBe(b)
  {
    if a == [] {
      assert a + b == b;
    } else {
      assert (a + b)[2..] == a[2..] + b;
      SumBeAppend(a[2..], b);
    }
  }

  /** The word at an even position, little-endian. */
  function WordAt(b: seq<byte>, o: nat): (w: u16)
    requires o + 2 <= |b|
  {
    var low: int, high: int := b[o], b[o + 1];
    low + 0x100 * high
  }

  /** `b` with the 16-bit word `w` stored natively at `o`. */
  function WithWord(b: seq<byte>, o: nat, w: u16): (r: seq<byte>)
    requires o + 2 <= |b|
    ensures |r| == |b| && WordAt(r, o) == w
    ensures forall i :: 0 <= i < |b| && i != o && i != o + 1 ==> r[i] == b[i]
  {
    b[o := w % 0x100][o + 1 := w / 0x100]
  }

  /** Replacing a word changes the sum by the difference. */
  lemma SumLeWithWord(b: seq<byte>, o: nat, w: u16)
    requires o + 2 <= |b| && o % 2 == 0
    ensures SumLe(WithWord(b, o, w)) == SumLe(b) - WordAt(b, o) + w
  {
    var r := WithWord(b, o, w);
    SplitWord(b, o);
    SplitWord(r, o);
    assert r[..o] == b[..o] && r[o + 2..] == b[o + 2..];
  }

  lemma SplitWord(b: seq<byte>, o: nat)
    requires o + 2 <= |b| && o % 2 == 0
    ensures SumLe(b) == SumLe(b[..o]) + WordAt(b, o) + SumLe(b[o + 2..])
  {
    assert b == b[..o] + b[o..];
    SumLeAppend(b[..o], b[o..]);
    assert b[o..][2..] == b[o + 2..];
  }

  // ---------------------------------------------------------------- byte order

  function Swap(w: u16): (r: u16) {
    (w % 0x100) * 0x100 + w / 0x100
  }

  function EvenBytes(b: seq<byte>): (s: nat) {
    if b == [] then 0 else if |b| == 1 then b[0] else b[0] + EvenBytes(b[2..])
  }

  lemma {:induction false} SumsDifferByResidue(b: seq<byte>)
    ensures 0x100 * SumBe(b) == SumLe(b) + 0xFFFF * EvenBytes(b)
  {
    if |b| > 1 {
      SumsDifferByResidue(b[2..]);
    }
  }

  lemma {:induction false} SumsVanishTogether(b: seq<byte>)
    ensures SumLe(b) == 0 <==> SumBe(b) == 0
  {
    if |b| > 1 {
      SumsVanishTogether(b[2..]);
    }
  }

  /**
   * The folded sum of native little-endian words is the byte-swapped folded sum of network-order words,
   * for every length (section 2(B) of RFC 1071).
   */
  lemma ByteOrderIndependence(b: seq<byte>)
    ensures Fold(SumLe(b)) == Swap(Fold(SumBe(b)))
  {
    SumsDifferByResidue(b);
    SumsVanishTogether(b);
    if SumBe(b) > 0 {
      FoldShift(SumLe(b), EvenBytes(b));
      FoldTimes256(SumBe(b));
    }
  }

  /** Multiplication by 256 is a byte swap in one's-complement arithmetic. */
  lemma FoldTimes256(s: nat)
    requires s > 0
    ensures Fold(0x100 * s) == Swap(Fold(s))
  {
    var f: int := Fold(s);
    var k := FoldDecompose(s);
    FoldShift(0x100 * f, 0x100 * k);
    var high, low := f / 0x100, f % 0x100;
    assert 0x100 * f == (low * 0x100 + high) + 0xFFFF * high;
    FoldShift(low * 0x100 + high, high);
  }

  /** The network-order value of a stored word. */
  function NetworkWordAt(b: seq<byte>, o: nat): (w: u16)
    requires o + 2 <= |b|
  {
    var high: int, low: int := b[o], b[o + 1];
    0x100 * high + low
  }

  /** Storing the natively computed checksum natively puts the RFC's checksum on the wire. */
  lemma NativeChecksumIsNetworkChecksum(b: seq<byte>, field: seq<byte>, o: nat)
    requires o + 2 <= |field|
    ensures NetworkWordAt(WithWord(field, o, ChecksumOf(b)), o) == 0xFFFF - Fold(SumBe(b))
  {
    ByteOrderIndependence(b);
    SwapComplement(Fold(SumBe(b)));
    StoredSwapped(field, o, ChecksumOf(b));
  }

  lemma SwapComplement(f: u16)
    ensures Swap(0xFFFF - Swap(f)) == 0xFFFF - f
  {
    var high, low := f / 0x100, f % 0x100;
    assert 0xFFFF - Swap(f) == (0xFF - low) * 0x100 + (0xFF - high);
  }

  lemma StoredSwapped(field: seq<byte>, o: nat, w: u16)
    requires o + 2 <= |field|
    ensures NetworkWordAt(WithWord(field, o, w), o) == Swap(w)
  {
  }

  /** The receiver's test of RFC 1071: the network-order sum of everything covered is all ones. */
  predicate Verifies(b: seq<byte>) {
    Fold(SumBe(b)) == 0xFFFF
  }

  lemma VerifiesNatively(b: seq<byte>)
    ensures Verifies(b) <==> Fold(SumLe(b)) == 0xFFFF
  {
    ByteOrderIndependence(b);
  }

  // ---------------------------------------------------------------- covered data with a checksum field

  /** Data whose field holds the checksum of the data with a zero field verifies. */
  lemma ChecksummedVerifies(b: seq<byte>, o: nat)
    requires o + 2 <= |b| && o % 2 == 0
    requires WordAt(b, o) == ChecksumOf(WithWord(b, o, 0))
    ensures Verifies(b)
  {
    SumLeWithWord(b, o, 0);
    ComplementCancels(SumLe(WithWord(b, o, 0)));
    VerifiesNatively(b);
  }

  /** All ones in place of a zero checksum verifies as well (RFC 768). */
  lemma AllOnesForZeroVerifies(b: seq<byte>, o: nat)
    requires o + 2 <= |b| && o % 2 == 0
    requires WordAt(b, o) == 0xFFFF && ChecksumOf(WithWord(b, o, 0)) == 0
    ensures Verifies(b)
  {
    SumLeWithWord(b, o, 0);
    var s := SumLe(WithWord(b, o, 0));
    FoldShift(s, 1);
    VerifiesNatively(b);
  }

  /**
   * Seeding the checksum field with the folded sum of the pseudo-header and then taking the checksum of
   * the segment is the checksum of pseudo-header and segment with a zero field, for every length.
   */
  lemma SeededChecksum(pseudo: seq<byte>, segment: seq<byte>, o: nat)
    requires |pseudo| % 2 == 0 && o + 2 <= |segment| && o % 2 == 0
    ensures ChecksumOf(WithWord(segment, o, 0xFFFF - ChecksumOf(pseudo)))
         == ChecksumOf(pseudo + WithWord(segment, o, 0))
  {
    var seed := Fold(SumLe(pseudo));
    var blank := WithWord(segment, o, 0);
    SumLeWithWord(segment, o, seed);
    SumLeWithWord(segment, o, 0);
    SumLeAppend(pseudo, blank);
    FoldAbsorbs(SumLe(blank), SumLe(pseudo));
  }

  // ---------------------------------------------------------------- the loops

  /**
   * `calculate_checksum` on `len` bytes from `start`. For every length a packet can have the 32-bit
   * accumulator stays below 2^32.
   */
  method CalculateChecksum(data: array<byte>, start: nat, len: nat) returns (r: u16)
    requires start + len <= data.Length && len <= 0xFFFF
    ensures r == ChecksumOf(data[start..start + len])
  {
    var checksum: nat := 0;
    ghost var b := data[start..start + len];
    for i := 0 to (len + 1) / 2
      invariant checksum + SumLe(b[Least(2 * i, len)..]) == SumLe(b)
      invariant checksum <= 0xFFFF * i < 0x1_0000_0000
    {
      var low: int := data[start + 2 * i];
      var high: int := if 2 * i + 1 < len then data[start + 2 * i + 1] else 0;
      ghost var rest := b[2 * i..];
      assert rest[0] == low && (|rest| > 1 ==> rest[1] == high);
      assert |rest| > 1 ==> rest[2..] == b[2 * i + 2..];
      assert |rest| == 1 ==> b[len..] == [];
      checksum := checksum + (low + 0x100 * high);
    }
    assert b[len..] == [];
    assert checksum == SumLe(b);
    while checksum > 0xFFFF
      invariant Fold(checksum) == Fold(SumLe(b))
    {
      FoldStep(checksum);
      checksum := checksum % 0x1_0000 + checksum / 0x1_0000;
    }
    FoldSmall(checksum);
    r := 0xFFFF - checksum;
  }

  function Least(a: nat, b: nat): (m: nat) {
    if a <= b then a else b
  }
}
