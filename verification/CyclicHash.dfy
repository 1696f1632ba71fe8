/** The byte hash of hashmap.c. */
module CyclicHash {
  import opened Net

  /** `(size_t) (pow(2, 31) - 1)`. */
  const RING_SIZE := 0x7FFF_FFFF

  /** One round: multiply, exclusive-or with the byte, reduce. */
  function Mix(hash: nat, val: byte): (r: nat)
    ensures r < RING_SIZE
  {
    BitXor(hash * 47, val) % RING_SIZE
  }

  /** The hash of a byte sequence, from the last byte inwards. */
  function HashBytes(key: seq<byte>): (h: nat)
    ensures h < RING_SIZE
  {
    if key == [] then 0 else Mix(HashBytes(key[..|key| - 1]), key[|key| - 1])
  }

  lemma {:induction false} XorBound(a: nat, b: nat, n: nat)
    requires a < Pow2(n) && b < Pow2(n)
    ensures BitXor(a, b) < Pow2(n)
    decreases n
  {
    if n > 0 {
      XorBound(a / 2, b / 2, n - 1);
    }
  }

  lemma Pow2Of38()
    ensures Pow2(38) == 0x40_0000_0000
  {
    assert Pow2(4) == 16 by { var a := Pow2(2); }
    assert Pow2(8) == 256 by { var a := Pow2(6); }
    Pow2Add(8, 8);
    Pow2Add(16, 16);
    Pow2Add(32, 4);
    assert Pow2(38) == 2 * Pow2(37) == 4 * Pow2(36);
  }

  lemma {:induction false} Pow2Add(a: nat, b: nat)
    ensures Pow2(a + b) == Pow2(a) * Pow2(b)
    decreases b
  {
    if b > 0 {
      Pow2Add(a, b - 1);
      assert Pow2(a) * (2 * Pow2(b - 1)) == 2 * (Pow2(a) * Pow2(b - 1));
    } else {
      assert Pow2(a) * 1 == Pow2(a);
    }
  }

  /** No round leaves 38 bits, so 64-bit arithmetic never wraps. */
  lemma RoundFitsWord(hash: nat, val: byte)
    requires hash < RING_SIZE
    ensures BitXor(hash * 47, val) < 0x40_0000_0000
  {
    Pow2Of38();
    XorBound(hash * 47, val, 38);
  }

  /** Three rounds worked out: 1, then 47 xor 2, then 2115 xor 3. */
  lemma HashOfThree()
    ensures HashBytes([1, 2, 3]) == 2112
  {
    assert [1, 2, 3][..2] == [1, 2] && [1, 2][..1] == [1] && [1][..0] == [];
    assert BitXor(0, 1) == 1;
    assert BitXor(2, 0) == 2 && BitXor(5, 0) == 5 && BitXor(11, 0) == 11;
    assert BitXor(23, 1) == 22;
    assert BitXor(47, 2) == 45;
    assert BitXor(8, 0) == 8 && BitXor(66, 0) == 66 && BitXor(132, 0) == 132 && BitXor(264, 0) == 264;
    assert BitXor(528, 0) == 528 && BitXor(1057, 1) == 1056;
    assert BitXor(2115, 3) == 2112;
    assert HashBytes([1]) == 1;
    assert HashBytes([1, 2]) == 45;
  }

  /** `hashmap_cyclic_hash`. */
  method Compute(key: seq<byte>) returns (hash: nat)
    ensures hash == HashBytes(key) && hash < RING_SIZE
  {
    hash := 0;
    for i := 0 to |key|
      invariant hash == HashBytes(key[..i])
    {
      var val := key[i];
      assert key[..i + 1][..i] == key[..i];
      hash := BitXor(hash * 47, val) % RING_SIZE;
    }
    assert key[..|key|] == key;
  }
}
