/** SHA-256 as FIPS 180-4 states it: one-shot, over byte sequences. */
module Sha256Spec {
  import opened Words
  import opened Padding
  import opened Streaming

  /** The eight words of an intermediate hash value. */
  type State = h: seq<word> | |h| == 8 witness seq(8, _ => 0)

  // ----- functions, section 4.1.2 -----

  function Ch(x: word, y: word, z: word): word { (x & y) ^ (!x & z) }
  function Maj(x: word, y: word, z: word): word { (x & y) ^ (x & z) ^ (y & z) }
  function BigSigma0(x: word): word { x.RotateRight(2) ^ x.RotateRight(13) ^ x.RotateRight(22) }
  function BigSigma1(x: word): word { x.RotateRight(6) ^ x.RotateRight(11) ^ x.RotateRight(25) }
  function SmallSigma0(x: word): word { x.RotateRight(7) ^ x.RotateRight(18) ^ (x >> 3) }
  function SmallSigma1(x: word): word { x.RotateRight(17) ^ x.RotateRight(19) ^ (x >> 10) }

  // ----- constants, sections 4.2.2 and 5.3.3 -----

  /** The round constants. */
  function K(t: nat): word
    requires t < 64
  {
    match t
    case 0 => 0x428A2F98 case 1 => 0x71374491 case 2 => 0xB5C0FBCF case 3 => 0xE9B5DBA5
    case 4 => 0x3956C25B case 5 => 0x59F111F1 case 6 => 0x923F82A4 case 7 => 0xAB1C5ED5
    case 8 => 0xD807AA98 case 9 => 0x12835B01 case 10 => 0x243185BE case 11 => 0x550C7DC3
    case 12 => 0x72BE5D74 case 13 => 0x80DEB1FE case 14 => 0x9BDC06A7 case 15 => 0xC19BF174
    case 16 => 0xE49B69C1 case 17 => 0xEFBE4786 case 18 => 0x0FC19DC6 case 19 => 0x240CA1CC
    case 20 => 0x2DE92C6F case 21 => 0x4A7484AA case 22 => 0x5CB0A9DC case 23 => 0x76F988DA
    case 24 => 0x983E5152 case 25 => 0xA831C66D case 26 => 0xB00327C8 case 27 => 0xBF597FC7
    case 28 => 0xC6E00BF3 case 29 => 0xD5A79147 case 30 => 0x06CA6351 case 31 => 0x14292967
    case 32 => 0x27B70A85 case 33 => 0x2E1B2138 case 34 => 0x4D2C6DFC case 35 => 0x53380D13
    case 36 => 0x650A7354 case 37 => 0x766A0ABB case 38 => 0x81C2C92E case 39 => 0x92722C85
    case 40 => 0xA2BFE8A1 case 41 => 0xA81A664B case 42 => 0xC24B8B70 case 43 => 0xC76C51A3
    case 44 => 0xD192E819 case 45 => 0xD6990624 case 46 => 0xF40E3585 case 47 => 0x106AA070
    case 48 => 0x19A4C116 case 49 => 0x1E376C08 case 50 => 0x2748774C case 51 => 0x34B0BCB5
    case 52 => 0x391C0CB3 case 53 => 0x4ED8AA4A case 54 => 0x5B9CCA4F case 55 => 0x682E6FF3
    case 56 => 0x748F82EE case 57 => 0x78A5636F case 58 => 0x84C87814 case 59 => 0x8CC70208
    case 60 => 0x90BEFFFA case 61 => 0xA4506CEB case 62 => 0xBEF9A3F7 case 63 => 0xC67178F2
  }

  const H0: State := [
    0x6A09E667, 0xBB67AE85, 0x3C6EF372, 0xA54FF53A, 0x510E527F, 0x9B05688C, 0x1F83D9AB, 0x5BE0CD19]

  // ----- compression, section 6.2.2 -----

  /** The message schedule of one block. */
  function W(block: seq<byte>, t: nat): word
    requires |block| == 64 && t < 64
  {
    if t < 16 then GetBE(block[4 * t], block[4 * t + 1], block[4 * t + 2], block[4 * t + 3])
    else
      Add(Add(Add(SmallSigma1(W(block, t - 2)), W(block, t - 7)), SmallSigma0(W(block, t - 15))), W(block, t - 16))
  }

  function T1(e: word, f: word, g: word, h: word, k: word, w: word): word {
    Add(Add(Add(Add(h, BigSigma1(e)), Ch(e, f, g)), k), w)
  }

  function T2(a: word, b: word, c: word): word {
    Add(BigSigma0(a), Maj(a, b, c))
  }

  /** One round on the working variables a, b, c, d, e, f, g, h. */
  function Round(v: seq<word>, k: word, w: word): (r: seq<word>)
    requires |v| == 8
    ensures |r| == 8
  {
    var t1 := T1(v[4], v[5], v[6], v[7], k, w);
    var t2 := T2(v[0], v[1], v[2]);
    [Add(t1, t2), v[0], v[1], v[2], Add(v[3], t1), v[4], v[5], v[6]]
  }

  function Rounds(h: seq<word>, block: seq<byte>, t: nat): (v: seq<word>)
    requires |h| == 8 && |block| == 64 && t <= 64
    ensures |v| == 8
  {
    if t == 0 then h else Round(Rounds(h, block, t - 1), K(t - 1), W(block, t - 1))
  }

  function AddWords(a: seq<word>, b: seq<word>): (r: seq<word>)
    requires |a| == |b|
    ensures |r| == |a|
  {
    seq(|a|, i requires 0 <= i < |a| => Add(a[i], b[i]))
  }

  function Compress(h: State, block: Block): State {
    AddWords(h, Rounds(h, block, 64))
  }

  // ----- the hash, section 6.2 -----

  function DigestBytes(h: seq<word>): (b: seq<byte>)
    ensures |b| == 4 * |h|
  {
    if h == [] then [] else DigestBytes(h[..|h| - 1]) + PutBE(h[|h| - 1])
  }

  /** SHA-256, section 6.2. */
  function Sha256(m: seq<byte>): (d: seq<byte>)
    requires 8 * |m| < TWO_64
    ensures |d| == 32
  {
    PadLength(|m|);
    DigestBytes(Fold<State>(Compress, H0, Pad(m)))
  }
}
