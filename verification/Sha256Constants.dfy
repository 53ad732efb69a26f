/** The constants of SHA-256 are the numbers sections 4.2.2 and 5.3.3 of FIPS 180-4 describe: the first 32 bits of the
    fractional parts of the cube roots of the first 64 primes, and of the square roots of the first 8. */
module Sha256Constants {
  import opened Words
  import opened Sha256Spec

  /** The 64 primes from 2 to 311. */
  function Prime(i: nat): nat
    requires i < 64
  {
    match i
    case 0 => 2 case 1 => 3 case 2 => 5 case 3 => 7 case 4 => 11 case 5 => 13 case 6 => 17 case 7 => 19
    case 8 => 23 case 9 => 29 case 10 => 31 case 11 => 37 case 12 => 41 case 13 => 43 case 14 => 47 case 15 => 53
    case 16 => 59 case 17 => 61 case 18 => 67 case 19 => 71 case 20 => 73 case 21 => 79 case 22 => 83 case 23 => 89
    case 24 => 97 case 25 => 101 case 26 => 103 case 27 => 107 case 28 => 109 case 29 => 113 case 30 => 127 case 31 => 131
    case 32 => 137 case 33 => 139 case 34 => 149 case 35 => 151 case 36 => 157 case 37 => 163 case 38 => 167 case 39 => 173
    case 40 => 179 case 41 => 181 case 42 => 191 case 43 => 193 case 44 => 197 case 45 => 199 case 46 => 211 case 47 => 223
    case 48 => 227 case 49 => 229 case 50 => 233 case 51 => 239 case 52 => 241 case 53 => 251 case 54 => 257 case 55 => 263
    case 56 => 269 case 57 => 271 case 58 => 277 case 59 => 281 case 60 => 283 case 61 => 293 case 62 => 307 case 63 => 311
  }

  function Cube(x: nat): nat { x * x * x }
  function Square(x: nat): nat { x * x }

  /** w is the first 32 bits of the fractional part of the cube root of p: with c the integer part of the root,
      c * 2^32 + w is the root scaled by 2^32 and rounded down. */
  ghost predicate CubeRootBits(p: nat, w: word) {
    exists c: nat :: CubeRootAt(p, c, Number(w))
  }

  ghost predicate CubeRootAt(p: nat, c: nat, f: nat) {
    && Cube(c) <= p < Cube(c + 1)
    && Cube(c * TWO_32 + f) <= p * Cube(TWO_32) < Cube(c * TWO_32 + f + 1)
  }

  /** The same for square roots. */
  ghost predicate SquareRootBits(p: nat, w: word) {
    exists c: nat :: SquareRootAt(p, c, Number(w))
  }

  ghost predicate SquareRootAt(p: nat, c: nat, f: nat) {
    && Square(c) <= p < Square(c + 1)
    && Square(c * TWO_32 + f) <= p * Square(TWO_32) < Square(c * TWO_32 + f + 1)
  }

  lemma CubeRoots0(i: nat)
    requires 0 <= i < 8
    ensures CubeRootBits(Prime(i), K(i))
  {
    assert Number(0x428A2F98) == 0x428A2F98 && CubeRootAt(2, 1, 0x428A2F98);
    assert Number(0x71374491) == 0x71374491 && CubeRootAt(3, 1, 0x71374491);
    assert Number(0xB5C0FBCF) == 0xB5C0FBCF && CubeRootAt(5, 1, 0xB5C0FBCF);
    assert Number(0xE9B5DBA5) == 0xE9B5DBA5 && CubeRootAt(7, 1, 0xE9B5DBA5);
    assert Number(0x3956C25B) == 0x3956C25B && CubeRootAt(11, 2, 0x3956C25B);
    assert Number(0x59F111F1) == 0x59F111F1 && CubeRootAt(13, 2, 0x59F111F1);
    assert Number(0x923F82A4) == 0x923F82A4 && CubeRootAt(17, 2, 0x923F82A4);
    assert Number(0xAB1C5ED5) == 0xAB1C5ED5 && CubeRootAt(19, 2, 0xAB1C5ED5);
  }

  lemma CubeRoots1(i: nat)
    requires 8 <= i < 16
    ensures CubeRootBits(Prime(i), K(i))
  {
    assert Number(0xD807AA98) == 0xD807AA98 && CubeRootAt(23, 2, 0xD807AA98);
    assert Number(0x12835B01) == 0x12835B01 && CubeRootAt(29, 3, 0x12835B01);
    assert Number(0x243185BE) == 0x243185BE && CubeRootAt(31, 3, 0x243185BE);
    assert Number(0x550C7DC3) == 0x550C7DC3 && CubeRootAt(37, 3, 0x550C7DC3);
    assert Number(0x72BE5D74) == 0x72BE5D74 && CubeRootAt(41, 3, 0x72BE5D74);
    assert Number(0x80DEB1FE) == 0x80DEB1FE && CubeRootAt(43, 3, 0x80DEB1FE);
    assert Number(0x9BDC06A7) == 0x9BDC06A7 && CubeRootAt(47, 3, 0x9BDC06A7);
    assert Number(0xC19BF174) == 0xC19BF174 && CubeRootAt(53, 3, 0xC19BF174);
  }

  lemma CubeRoots2(i: nat)
    requires 16 <= i < 24
    ensures CubeRootBits(Prime(i), K(i))
  {
    assert Number(0xE49B69C1) == 0xE49B69C1 && CubeRootAt(59, 3, 0xE49B69C1);
    assert Number(0xEFBE4786) == 0xEFBE4786 && CubeRootAt(61, 3, 0xEFBE4786);
    assert Number(0x0FC19DC6) == 0x0FC19DC6 && CubeRootAt(67, 4, 0x0FC19DC6);
    assert Number(0x240CA1CC) == 0x240CA1CC && CubeRootAt(71, 4, 0x240CA1CC);
    assert Number(0x2DE92C6F) == 0x2DE92C6F && CubeRootAt(73, 4, 0x2DE92C6F);
    assert Number(0x4A7484AA) == 0x4A7484AA && CubeRootAt(79, 4, 0x4A7484AA);
    assert Number(0x5CB0A9DC) == 0x5CB0A9DC && CubeRootAt(83, 4, 0x5CB0A9DC);
    assert Number(0x76F988DA) == 0x76F988DA && CubeRootAt(89, 4, 0x76F988DA);
  }

  lemma CubeRoots3(i: nat)
    requires 24 <= i < 32
    ensures CubeRootBits(Prime(i), K(i))
  {
    assert Number(0x983E5152) == 0x983E5152 && CubeRootAt(97, 4, 0x983E5152);
    assert Number(0xA831C66D) == 0xA831C66D && CubeRootAt(101, 4, 0xA831C66D);
    assert Number(0xB00327C8) == 0xB00327C8 && CubeRootAt(103, 4, 0xB00327C8);
    assert Number(0xBF597FC7) == 0xBF597FC7 && CubeRootAt(107, 4, 0xBF597FC7);
    assert Number(0xC6E00BF3) == 0xC6E00BF3 && CubeRootAt(109, 4, 0xC6E00BF3);
    assert Number(0xD5A79147) == 0xD5A79147 && CubeRootAt(113, 4, 0xD5A79147);
    assert Number(0x06CA6351) == 0x06CA6351 && CubeRootAt(127, 5, 0x06CA6351);
    assert Number(0x14292967) == 0x14292967 && CubeRootAt(131, 5, 0x14292967);
  }

  lemma CubeRoots4(i: nat)
    requires 32 <= i < 40
    ensures CubeRootBits(Prime(i), K(i))
  {
    assert Number(0x27B70A85) == 0x27B70A85 && CubeRootAt(137, 5, 0x27B70A85);
    assert Number(0x2E1B2138) == 0x2E1B2138 && CubeRootAt(139, 5, 0x2E1B2138);
    assert Number(0x4D2C6DFC) == 0x4D2C6DFC && CubeRootAt(149, 5, 0x4D2C6DFC);
    assert Number(0x53380D13) == 0x53380D13 && CubeRootAt(151, 5, 0x53380D13);
    assert Number(0x650A7354) == 0x650A7354 && CubeRootAt(157, 5, 0x650A7354);
    assert Number(0x766A0ABB) == 0x766A0ABB && CubeRootAt(163, 5, 0x766A0ABB);
    assert Number(0x81C2C92E) == 0x81C2C92E && CubeRootAt(167, 5, 0x81C2C92E);
    assert Number(0x92722C85) == 0x92722C85 && CubeRootAt(173, 5, 0x92722C85);
  }

  lemma CubeRoots5(i: nat)
    requires 40 <= i < 48
    ensures CubeRootBits(Prime(i), K(i))
  {
    assert Number(0xA2BFE8A1) == 0xA2BFE8A1 && CubeRootAt(179, 5, 0xA2BFE8A1);
    assert Number(0xA81A664B) == 0xA81A664B && CubeRootAt(181, 5, 0xA81A664B);
    assert Number(0xC24B8B70) == 0xC24B8B70 && CubeRootAt(191, 5, 0xC24B8B70);
    assert Number(0xC76C51A3) == 0xC76C51A3 && CubeRootAt(193, 5, 0xC76C51A3);
    assert Number(0xD192E819) == 0xD192E819 && CubeRootAt(197, 5, 0xD192E819);
    assert Number(0xD6990624) == 0xD6990624 && CubeRootAt(199, 5, 0xD6990624);
    assert Number(0xF40E3585) == 0xF40E3585 && CubeRootAt(211, 5, 0xF40E3585);
    assert Number(0x106AA070) == 0x106AA070 && CubeRootAt(223, 6, 0x106AA070);
  }

  lemma CubeRoots6(i: nat)
    requires 48 <= i < 56
    ensures CubeRootBits(Prime(i), K(i))
  {
    assert Number(0x19A4C116) == 0x19A4C116 && CubeRootAt(227, 6, 0x19A4C116);
    assert Number(0x1E376C08) == 0x1E376C08 && CubeRootAt(229, 6, 0x1E376C08);
    assert Number(0x2748774C) == 0x2748774C && CubeRootAt(233, 6, 0x2748774C);
    assert Number(0x34B0BCB5) == 0x34B0BCB5 && CubeRootAt(239, 6, 0x34B0BCB5);
    assert Number(0x391C0CB3) == 0x391C0CB3 && CubeRootAt(241, 6, 0x391C0CB3);
    assert Number(0x4ED8AA4A) == 0x4ED8AA4A && CubeRootAt(251, 6, 0x4ED8AA4A);
    assert Number(0x5B9CCA4F) == 0x5B9CCA4F && CubeRootAt(257, 6, 0x5B9CCA4F);
    assert Number(0x682E6FF3) == 0x682E6FF3 && CubeRootAt(263, 6, 0x682E6FF3);
  }

  lemma CubeRoots7(i: nat)
    requires 56 <= i < 64
    ensures CubeRootBits(Prime(i), K(i))
  {
    assert Number(0x748F82EE) == 0x748F82EE && CubeRootAt(269, 6, 0x748F82EE);
    assert Number(0x78A5636F) == 0x78A5636F && CubeRootAt(271, 6, 0x78A5636F);
    assert Number(0x84C87814) == 0x84C87814 && CubeRootAt(277, 6, 0x84C87814);
    assert Number(0x8CC70208) == 0x8CC70208 && CubeRootAt(281, 6, 0x8CC70208);
    assert Number(0x90BEFFFA) == 0x90BEFFFA && CubeRootAt(283, 6, 0x90BEFFFA);
    assert Number(0xA4506CEB) == 0xA4506CEB && CubeRootAt(293, 6, 0xA4506CEB);
    assert Number(0xBEF9A3F7) == 0xBEF9A3F7 && CubeRootAt(307, 6, 0xBEF9A3F7);
    assert Number(0xC67178F2) == 0xC67178F2 && CubeRootAt(311, 6, 0xC67178F2);
  }

  /** Section 4.2.2. */
  lemma RoundConstantsAreCubeRoots(i: nat)
    requires i < 64
    ensures CubeRootBits(Prime(i), K(i))
  {
    if i < 8 { CubeRoots0(i); }
    else if i < 16 { CubeRoots1(i); }
    else if i < 24 { CubeRoots2(i); }
    else if i < 32 { CubeRoots3(i); }
    else if i < 40 { CubeRoots4(i); }
    else if i < 48 { CubeRoots5(i); }
    else if i < 56 { CubeRoots6(i); }
    else if i < 64 { CubeRoots7(i); }
  }

  /** Section 5.3.3. */
  lemma InitialValueIsSquareRoots()
    ensures |H0| == 8
    ensures forall i :: 0 <= i < 8 ==> SquareRootBits(Prime(i), H0[i])
  {
    assert Number(0x6A09E667) == 0x6A09E667 && SquareRootAt(2, 1, 0x6A09E667);
    assert Number(0xBB67AE85) == 0xBB67AE85 && SquareRootAt(3, 1, 0xBB67AE85);
    assert Number(0x3C6EF372) == 0x3C6EF372 && SquareRootAt(5, 2, 0x3C6EF372);
    assert Number(0xA54FF53A) == 0xA54FF53A && SquareRootAt(7, 2, 0xA54FF53A);
    assert Number(0x510E527F) == 0x510E527F && SquareRootAt(11, 3, 0x510E527F);
    assert Number(0x9B05688C) == 0x9B05688C && SquareRootAt(13, 3, 0x9B05688C);
    assert Number(0x1F83D9AB) == 0x1F83D9AB && SquareRootAt(17, 4, 0x1F83D9AB);
    assert Number(0x5BE0CD19) == 0x5BE0CD19 && SquareRootAt(19, 4, 0x5BE0CD19);
  }
}
