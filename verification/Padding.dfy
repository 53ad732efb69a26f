/** Padding, section 5.1.1 of FIPS 180-4, on whole bytes. */
module Padding {
  import opened Words

  function Zeros(n: nat): (z: seq<byte>)
    ensures |z| == n
  {
    seq(n, _ => 0)
  }

  /** The number of zero bytes between the byte 0x80 and the 64-bit length. */
  function PadZeros(n: nat): nat {
    (119 - n % 64) % 64
  }

  /** The padded message.  The length is a 64-bit number, so the message is shorter than 2^64 bits. */
  function Pad(m: seq<byte>): (p: seq<byte>)
    requires 8 * |m| < TWO_64
    ensures |p| % 64 == 0
  {
    PadLength(|m|);
    m + ([0x80] + Zeros(PadZeros(|m|)) + BeBytes(8 * |m|, 8))
  }

  lemma PadLength(n: nat)
    ensures (n + 1 + PadZeros(n)) % 64 == 56
    ensures (n + 1 + PadZeros(n) + 8) % 64 == 0
  {
    assert n == 64 * (n / 64) + n % 64;
    var r := n % 64;
    assert n + 1 + PadZeros(n) == 64 * (n / 64) + 56 || n + 1 + PadZeros(n) == 64 * (n / 64 + 1) + 56;
  }

  /** Section 5.1.1 asks for the least number of zero bits; with whole bytes that is the least number of zero bytes,
      plus the seven zero bits that follow the one bit in 0x80. */
  lemma PadIsLeast(n: nat, k: nat)
    requires (8 * n + 1 + k) % 512 == 448
    ensures 8 * PadZeros(n) + 7 <= k
    ensures (8 * n + 1 + (8 * PadZeros(n) + 7)) % 512 == 448
  {
    PadLength(n);
  }
}
