/** Bytes, 32-bit words and 32-bit counters.

    The source uses `uint32_t` in two ways.  What is rotated and xor-ed is a `word`, a bit vector.  What counts bytes is
    a `uint32`, a number; on it `x & 0x3F` is `x % 64`, `x >> k` is `x / 2^k`, `x << k` is `x * 2^k % 2^32`, and `x | y`
    of two numbers with no common bit is `x + y`.  `WordNumbers` proves this of the expressions the source has. */
module Words {

  newtype byte = x: int | 0 <= x < 0x100
  newtype uint32 = x: int | 0 <= x < 0x1_0000_0000
  type word = bv32

  const TWO_32: nat := 0x1_0000_0000
  const TWO_64: nat := 0x1_0000_0000_0000_0000

  /** Addition of words, modulo 2^32. */
  function Add(x: word, y: word): word {
    x + y
  }

  /** The number a word stands for. */
  function Number(x: word): nat {
    x as nat
  }

  /** GET_UINT32_BE: the word whose bytes, most significant first, are the given four. */
  function GetBE(b3: byte, b2: byte, b1: byte, b0: byte): word {
    Pack(b3 as bv8, b2 as bv8, b1 as bv8, b0 as bv8)
  }

  function Pack(b3: bv8, b2: bv8, b1: bv8, b0: bv8): word {
    (b3 as word << 24) | (b2 as word << 16) | (b1 as word << 8) | b0 as word
  }

  /** PUT_UINT32_BE of a word: its four bytes, most significant first. */
  function PutBE(x: word): (b: seq<byte>)
    ensures |b| == 4
  {
    [((x >> 24) & 0xFF) as bv8 as byte, ((x >> 16) & 0xFF) as bv8 as byte,
     ((x >> 8) & 0xFF) as bv8 as byte, (x & 0xFF) as bv8 as byte]
  }

  /** PUT_UINT32_BE of a number. */
  function PutNumberBE(n: uint32): (b: seq<byte>)
    ensures |b| == 4
  {
    [(n / 0x100_0000) as byte, (n / 0x1_0000 % 0x100) as byte, (n / 0x100 % 0x100) as byte, (n % 0x100) as byte]
  }

  /** The number a byte string stands for, most significant byte first. */
  function BeNat(b: seq<byte>): nat {
    if b == [] then 0 else 0x100 * BeNat(b[..|b| - 1]) + b[|b| - 1] as nat
  }

  /** The `len` base-256 digits of n, most significant first. */
  function BeBytes(n: nat, len: nat): (b: seq<byte>)
    ensures |b| == len
  {
    if len == 0 then [] else BeBytes(n / 0x100, len - 1) + [(n % 0x100) as byte]
  }

  lemma ByteBits(b: bv8)
    ensures (b as byte) as bv8 == b
  {
  }

  lemma PackBits(x: word)
    ensures Pack(((x >> 24) & 0xFF) as bv8, ((x >> 16) & 0xFF) as bv8, ((x >> 8) & 0xFF) as bv8, (x & 0xFF) as bv8) == x
  {
  }

  /** GET_UINT32_BE undoes PUT_UINT32_BE. */
  lemma GetOfPut(x: word)
    ensures var b := PutBE(x); GetBE(b[0], b[1], b[2], b[3]) == x
  {
    ByteBits(((x >> 24) & 0xFF) as bv8);
    ByteBits(((x >> 16) & 0xFF) as bv8);
    ByteBits(((x >> 8) & 0xFF) as bv8);
    ByteBits((x & 0xFF) as bv8);
    PackBits(x);
  }

  // ----- the two-word bit length -----

  /** `(t0 >> 29) | (t1 << 3)`: the first term is below 8 and the second a multiple of 8. */
  function HighLength(t0: uint32, t1: uint32): uint32 {
    (t0 / 0x2000_0000) + ((t1 as int * 8) % 0x1_0000_0000) as uint32
  }

  /** `t0 << 3` */
  function LowLength(t0: uint32): uint32 {
    ((t0 as int * 8) % 0x1_0000_0000) as uint32
  }

  function Pow256(k: nat): (p: nat)
    ensures p > 0
  {
    if k == 0 then 1 else 0x100 * Pow256(k - 1)
  }

  /** The digits of hi * 256^k + lo are those of hi, then those of lo. */
  lemma {:induction false} DigitsConcat(hi: nat, lo: nat, len: nat, k: nat)
    requires lo < Pow256(k)
    ensures BeBytes(hi * Pow256(k) + lo, len + k) == BeBytes(hi, len) + BeBytes(lo, k)
    decreases k
  {
    if k > 0 {
      var p := Pow256(k - 1);
      CarryOut(hi, p, lo);
      DigitsConcat(hi, lo / 0x100, len, k - 1);
    }
  }

  lemma CarryOut(hi: nat, p: nat, lo: nat)
    ensures (hi * (0x100 * p) + lo) / 0x100 == hi * p + lo / 0x100
    ensures (hi * (0x100 * p) + lo) % 0x100 == lo % 0x100
  {
    assert hi * (0x100 * p) == 0x100 * (hi * p);
  }

  lemma {:induction false} PutNumberIsDigits(n: uint32)
    ensures PutNumberBE(n) == BeBytes(n as nat, 4)
  {
    var q := n as nat;
    assert BeBytes(q / 0x100 / 0x100 / 0x100, 1) == [(q / 0x100_0000) as byte];
    assert BeBytes(q / 0x100 / 0x100, 2) == [(q / 0x100_0000) as byte, (q / 0x1_0000 % 0x100) as byte];
    assert BeBytes(q / 0x100, 3)
        == [(q / 0x100_0000) as byte, (q / 0x1_0000 % 0x100) as byte, (q / 0x100 % 0x100) as byte];
  }

  lemma EightTimes(t0: uint32, t1: uint32)
    ensures TWO_32 * HighLength(t0, t1) as nat + LowLength(t0) as nat == 8 * (TWO_32 * t1 as nat + t0 as nat) % TWO_64
  {
    var q, r := t1 as nat * 8 / TWO_32, t1 as nat * 8 % TWO_32;
    var lo := t0 as nat * 8 % TWO_32;
    assert 8 * t0 as nat == TWO_32 * (t0 as nat / 0x2000_0000) + lo;
    assert r % 8 == 0;
    assert 8 * (TWO_32 * t1 as nat + t0 as nat) == TWO_64 * q + (TWO_32 * (r + t0 as nat / 0x2000_0000) + lo);
  }

  /** The eight bytes finish writes are the counter times eight, as a 64-bit number. */
  lemma {:induction false} LengthBytes(t0: uint32, t1: uint32)
    ensures PutNumberBE(HighLength(t0, t1)) + PutNumberBE(LowLength(t0))
         == BeBytes(8 * (TWO_32 * t1 as nat + t0 as nat) % TWO_64, 8)
  {
    var hi, lo := HighLength(t0, t1), LowLength(t0);
    PutNumberIsDigits(hi);
    PutNumberIsDigits(lo);
    EightTimes(t0, t1);
    assert Pow256(1) == 0x100 && Pow256(2) == 0x1_0000 && Pow256(3) == 0x100_0000 && Pow256(4) == TWO_32;
    DigitsConcat(hi as nat, lo as nat, 4, 4);
  }
}
