/** Addresses and raw bytes shared by every component of the router. */
module Net {

  datatype Option<+T> = None | Some(value: T)

  /** One `uint8_t`. */
  type byte = b: int | 0 <= b < 0x100

  /** One `uint16_t`. */
  type u16 = w: int | 0 <= w < 0x1_0000

  /** One `uint32_t`. */
  type u32 = w: int | 0 <= w < 0x1_0000_0000

  /** `ip_addr_t`: four bytes, most significant first. `ip_addr_equals` is equality of these values. */
  datatype Ip = Ip(b0: byte, b1: byte, b2: byte, b3: byte)

  /** `mac_addr_t`. */
  datatype Mac = Mac(m0: byte, m1: byte, m2: byte, m3: byte, m4: byte, m5: byte)

  /** A packet buffer as the bytes it holds. */
  type Packet = seq<byte>

  const ZERO_IP := Ip(0, 0, 0, 0)

  /** The address as the number it denotes. */
  function IpNumber(ip: Ip): (n: nat) {
    ip.b0 * 0x100_0000 + ip.b1 * 0x1_0000 + ip.b2 * 0x100 + ip.b3
  }

  /** The address as it lies in memory. */
  function IpBytes(ip: Ip): (b: seq<byte>)
    ensures |b| == 4
  {
    [ip.b0, ip.b1, ip.b2, ip.b3]
  }

  function Zeros(n: nat): (s: seq<byte>)
    ensures |s| == n && forall i :: 0 <= i < n ==> s[i] == 0
  {
    seq(n, _ => 0)
  }

  /** Powers of two, for bit positions. */
  function Pow2(n: nat): (p: nat)
    ensures p > 0
  {
    if n == 0 then 1 else 2 * Pow2(n - 1)
  }

  /** Bitwise conjunction, bit by bit. */
  function BitAnd(a: nat, b: nat): (r: nat)
    ensures r <= a && r <= b
  {
    if a == 0 then 0
    else (if a % 2 == 1 && b % 2 == 1 then 1 else 0) + 2 * BitAnd(a / 2, b / 2)
  }

  /** Bitwise exclusive or, bit by bit. */
  function BitXor(a: nat, b: nat): (r: nat)
    decreases a + b
  {
    if a == 0 && b == 0 then 0
    else (if a % 2 != b % 2 then 1 else 0) + 2 * BitXor(a / 2, b / 2)
  }

  /** Left shift. */
  function Shl(m: nat, j: nat): (r: nat) {
    if j == 0 then m else 2 * Shl(m, j - 1)
  }

  /** Right shift. */
  function Shr(b: nat, j: nat): (r: nat) {
    if j == 0 then b else Shr(b / 2, j - 1)
  }

  /** Conjunction with a shifted mask works on the shifted operand. */
  lemma {:induction false} AndShifted(m: nat, j: nat, b: nat)
    ensures BitAnd(Shl(m, j), b) == Shl(BitAnd(m, Shr(b, j)), j)
  {
    if j > 0 {
      AndShifted(m, j - 1, b / 2);
    }
  }

  /** Conjunction with `n` low ones keeps an operand of at most `n` bits. */
  lemma {:induction false} AndLowOnes(n: nat, b: nat)
    requires b < Pow2(n)
    ensures BitAnd(Pow2(n) - 1, b) == b
  {
    if n > 0 {
      AndLowOnes(n - 1, b / 2);
    }
  }
}
