/** The published answer for the message "abc" (the one-block example that accompanies FIPS 180-4), computed from the
    definitions of `Sha256Spec` step by step: the message schedule word by word, then the 64 rounds. */
module Sha256Abc {
  import opened Words
  import opened Padding
  import opened Streaming
  import opened Sha256Spec

  /** The one block "abc" is padded to. */
  function Abc(): (b: Block) {
    [97, 98, 99, 0x80] + Zeros(59) + [24]
  }

  lemma AbcIsPadded(m: seq<byte>)
    requires m == [97, 98, 99]
    ensures Pad(m) == Abc()
  {
    assert PadZeros(3) == 52;
    LengthOf24();
    assert Zeros(52) + Zeros(7) == Zeros(59);
  }

  lemma LengthOf24()
    ensures BeBytes(24, 8) == Zeros(7) + [24]
  {
    assert BeBytes(0, 1) == [0];
    assert BeBytes(0, 2) == [0, 0];
    assert BeBytes(0, 3) == [0, 0, 0];
    assert BeBytes(0, 4) == [0, 0, 0, 0];
    assert BeBytes(0, 5) == [0, 0, 0, 0, 0];
    assert BeBytes(0, 6) == [0, 0, 0, 0, 0, 0];
    assert BeBytes(0, 7) == [0, 0, 0, 0, 0, 0, 0];
  }

  lemma BytesToWords()
    ensures GetBE(97, 98, 99, 0x80) == 0x61626380 && GetBE(0, 0, 0, 24) == 0x00000018 && GetBE(0, 0, 0, 0) == 0
  {
  }

  /** The words of the block: only the first and the last are not zero. */
  ghost predicate IsAbc(b: Block) {
    && W(b, 0) == 0x61626380 && W(b, 15) == 0x00000018
    && (forall t: nat :: 1 <= t < 15 ==> W(b, t) == 0)
  }

  lemma AbcWords(b: Block)
    requires b == Abc()
    ensures IsAbc(b)
  {
    BytesToWords();
    assert b[0] == 97 && b[1] == 98 && b[2] == 99 && b[3] == 0x80;
    assert b[60] == 0 && b[61] == 0 && b[62] == 0 && b[63] == 24;
    forall t: nat | 1 <= t < 15
      ensures W(b, t) == 0
    {
      assert b[4 * t] == 0 && b[4 * t + 1] == 0 && b[4 * t + 2] == 0 && b[4 * t + 3] == 0;
    }
  }

  // The schedule, the round constants and the working variables are functions of the number of the round here, of which
  // only the equations of section 6.2.2 are known.

  /** Has no meaning but to say which round is looked at. */
  predicate IsRound(t: nat) {
    t < 64
  }

  /** A word of the schedule, from the four it is made of. */
  function Mixed(w2: word, w7: word, w15: word, w16: word): word {
    Add(Add(Add(SmallSigma1(w2), w7), SmallSigma0(w15)), w16)
  }

  predicate Obeys(w: nat -> word, t: nat)
    requires t >= 16
  {
    w(t) == Mixed(w(t - 2), w(t - 7), w(t - 15), w(t - 16))
  }

  ghost predicate IsSchedule(w: nat -> word) {
    && w(0) == 0x61626380 && w(15) == 0x00000018 && (forall t: nat :: 1 <= t < 15 ==> w(t) == 0)
    && (forall t: nat {:trigger IsRound(t)} :: IsRound(t) && t >= 16 ==> Obeys(w, t))
  }

  ghost predicate IsRun(v: nat -> seq<word>, k: nat -> word, w: nat -> word) {
    && v(0) == H0 && (forall t: nat :: |v(t)| == 8)
    && (forall t: nat {:trigger IsRound(t)} :: IsRound(t) ==> v(t + 1) == Round(v(t), k(t), w(t)))
  }

  ghost predicate HasConstants(k: nat -> word) {
    forall t: nat {:trigger IsRound(t)} :: IsRound(t) ==> k(t) == K(t)
  }

  // ----- the message schedule -----

  lemma Words16(w: nat -> word)
    requires IsSchedule(w)
    ensures w(16) == 0x61626380 && w(17) == 0x000F0000 && w(18) == 0x7DA86405 && w(19) == 0x600003C6
    ensures w(20) == 0x3E9D7B78 && w(21) == 0x0183FC00 && w(22) == 0x12DCBFDB && w(23) == 0xE2E2C38E
  {
    assert IsRound(16) && w(16) == 0x61626380 && IsRound(17) && w(17) == 0x000F0000;
    assert IsRound(18) && w(18) == 0x7DA86405 && IsRound(19) && w(19) == 0x600003C6;
    assert IsRound(20) && w(20) == 0x3E9D7B78 && IsRound(21) && w(21) == 0x0183FC00;
    assert IsRound(22) && w(22) == 0x12DCBFDB && IsRound(23) && w(23) == 0xE2E2C38E;
  }

  lemma Words24(w: nat -> word)
    requires IsSchedule(w)
    requires w(16) == 0x61626380 && w(17) == 0x000F0000 && w(18) == 0x7DA86405 && w(19) == 0x600003C6
    requires w(20) == 0x3E9D7B78 && w(21) == 0x0183FC00 && w(22) == 0x12DCBFDB && w(23) == 0xE2E2C38E
    ensures w(24) == 0xC8215C1A && w(25) == 0xB73679A2 && w(26) == 0xE5BC3909 && w(27) == 0x32663C5B
    ensures w(28) == 0x9D209D67 && w(29) == 0xEC8726CB && w(30) == 0x702138A4 && w(31) == 0xD3B7973B
  {
    assert IsRound(24) && w(24) == 0xC8215C1A && IsRound(25) && w(25) == 0xB73679A2;
    assert IsRound(26) && w(26) == 0xE5BC3909 && IsRound(27) && w(27) == 0x32663C5B;
    assert IsRound(28) && w(28) == 0x9D209D67 && IsRound(29) && w(29) == 0xEC8726CB;
    assert IsRound(30) && w(30) == 0x702138A4 && IsRound(31) && w(31) == 0xD3B7973B;
  }

  lemma Words32(w: nat -> word)
    requires IsSchedule(w)
    requires w(16) == 0x61626380 && w(17) == 0x000F0000 && w(18) == 0x7DA86405 && w(19) == 0x600003C6
    requires w(20) == 0x3E9D7B78 && w(21) == 0x0183FC00 && w(22) == 0x12DCBFDB && w(23) == 0xE2E2C38E
    requires w(24) == 0xC8215C1A && w(25) == 0xB73679A2 && w(26) == 0xE5BC3909 && w(27) == 0x32663C5B
    requires w(28) == 0x9D209D67 && w(29) == 0xEC8726CB && w(30) == 0x702138A4 && w(31) == 0xD3B7973B
    ensures w(32) == 0x93F5997F && w(33) == 0x3B68BA73 && w(34) == 0xAFF4FFC1 && w(35) == 0xF10A5C62
    ensures w(36) == 0x0A8B3996 && w(37) == 0x72AF830A && w(38) == 0x9409E33E && w(39) == 0x24641522
  {
    assert IsRound(32) && w(32) == 0x93F5997F && IsRound(33) && w(33) == 0x3B68BA73;
    assert IsRound(34) && w(34) == 0xAFF4FFC1 && IsRound(35) && w(35) == 0xF10A5C62;
    assert IsRound(36) && w(36) == 0x0A8B3996 && IsRound(37) && w(37) == 0x72AF830A;
    assert IsRound(38) && w(38) == 0x9409E33E && IsRound(39) && w(39) == 0x24641522;
  }

  lemma Words40(w: nat -> word)
    requires IsSchedule(w)
    requires w(24) == 0xC8215C1A && w(25) == 0xB73679A2 && w(26) == 0xE5BC3909 && w(27) == 0x32663C5B
    requires w(28) == 0x9D209D67 && w(29) == 0xEC8726CB && w(30) == 0x702138A4 && w(31) == 0xD3B7973B
    requires w(32) == 0x93F5997F && w(33) == 0x3B68BA73 && w(34) == 0xAFF4FFC1 && w(35) == 0xF10A5C62
    requires w(36) == 0x0A8B3996 && w(37) == 0x72AF830A && w(38) == 0x9409E33E && w(39) == 0x24641522
    ensures w(40) == 0x9F47BF94 && w(41) == 0xF0A64F5A && w(42) == 0x3E246A79 && w(43) == 0x27333BA3
    ensures w(44) == 0x0C4763F2 && w(45) == 0x840ABF27 && w(46) == 0x7A290D5D && w(47) == 0x065C43DA
  {
    assert IsRound(40) && w(40) == 0x9F47BF94 && IsRound(41) && w(41) == 0xF0A64F5A;
    assert IsRound(42) && w(42) == 0x3E246A79 && IsRound(43) && w(43) == 0x27333BA3;
    assert IsRound(44) && w(44) == 0x0C4763F2 && IsRound(45) && w(45) == 0x840ABF27;
    assert IsRound(46) && w(46) == 0x7A290D5D && IsRound(47) && w(47) == 0x065C43DA;
  }

  lemma Words48(w: nat -> word)
    requires IsSchedule(w)
    requires w(32) == 0x93F5997F && w(33) == 0x3B68BA73 && w(34) == 0xAFF4FFC1 && w(35) == 0xF10A5C62
    requires w(36) == 0x0A8B3996 && w(37) == 0x72AF830A && w(38) == 0x9409E33E && w(39) == 0x24641522
    requires w(40) == 0x9F47BF94 && w(41) == 0xF0A64F5A && w(42) == 0x3E246A79 && w(43) == 0x27333BA3
    requires w(44) == 0x0C4763F2 && w(45) == 0x840ABF27 && w(46) == 0x7A290D5D && w(47) == 0x065C43DA
    ensures w(48) == 0xFB3E89CB && w(49) == 0xCC7617DB && w(50) == 0xB9E66C34 && w(51) == 0xA9993667
    ensures w(52) == 0x84BADEDD && w(53) == 0xC21462BC && w(54) == 0x1487472C && w(55) == 0xB20F7A99
  {
    assert IsRound(48) && w(48) == 0xFB3E89CB && IsRound(49) && w(49) == 0xCC7617DB;
    assert IsRound(50) && w(50) == 0xB9E66C34 && IsRound(51) && w(51) == 0xA9993667;
    assert IsRound(52) && w(52) == 0x84BADEDD && IsRound(53) && w(53) == 0xC21462BC;
    assert IsRound(54) && w(54) == 0x1487472C && IsRound(55) && w(55) == 0xB20F7A99;
  }

  lemma Words56(w: nat -> word)
    requires IsSchedule(w)
    requires w(40) == 0x9F47BF94 && w(41) == 0xF0A64F5A && w(42) == 0x3E246A79 && w(43) == 0x27333BA3
    requires w(44) == 0x0C4763F2 && w(45) == 0x840ABF27 && w(46) == 0x7A290D5D && w(47) == 0x065C43DA
    requires w(48) == 0xFB3E89CB && w(49) == 0xCC7617DB && w(50) == 0xB9E66C34 && w(51) == 0xA9993667
    requires w(52) == 0x84BADEDD && w(53) == 0xC21462BC && w(54) == 0x1487472C && w(55) == 0xB20F7A99
    ensures w(56) == 0xEF57B9CD && w(57) == 0xEBE6B238 && w(58) == 0x9FE3095E && w(59) == 0x78BC8D4B
    ensures w(60) == 0xA43FCF15 && w(61) == 0x668B2FF8 && w(62) == 0xEEABA2CC && w(63) == 0x12B1EDEB
  {
    assert IsRound(56) && w(56) == 0xEF57B9CD && IsRound(57) && w(57) == 0xEBE6B238;
    assert IsRound(58) && w(58) == 0x9FE3095E && IsRound(59) && w(59) == 0x78BC8D4B;
    assert IsRound(60) && w(60) == 0xA43FCF15 && IsRound(61) && w(61) == 0x668B2FF8;
    assert IsRound(62) && w(62) == 0xEEABA2CC && IsRound(63) && w(63) == 0x12B1EDEB;
  }

  // ----- the round constants -----

  lemma Constants0(k: nat -> word)
    requires HasConstants(k)
    ensures k(0) == 0x428A2F98 && k(1) == 0x71374491 && k(2) == 0xB5C0FBCF && k(3) == 0xE9B5DBA5
  {
    assert IsRound(0) && IsRound(1) && IsRound(2) && IsRound(3);
  }

  lemma Constants4(k: nat -> word)
    requires HasConstants(k)
    ensures k(4) == 0x3956C25B && k(5) == 0x59F111F1 && k(6) == 0x923F82A4 && k(7) == 0xAB1C5ED5
  {
    assert IsRound(4) && IsRound(5) && IsRound(6) && IsRound(7);
  }

  lemma Constants8(k: nat -> word)
    requires HasConstants(k)
    ensures k(8) == 0xD807AA98 && k(9) == 0x12835B01 && k(10) == 0x243185BE && k(11) == 0x550C7DC3
  {
    assert IsRound(8) && IsRound(9) && IsRound(10) && IsRound(11);
  }

  lemma Constants12(k: nat -> word)
    requires HasConstants(k)
    ensures k(12) == 0x72BE5D74 && k(13) == 0x80DEB1FE && k(14) == 0x9BDC06A7 && k(15) == 0xC19BF174
  {
    assert IsRound(12) && IsRound(13) && IsRound(14) && IsRound(15);
  }

  lemma Constants16(k: nat -> word)
    requires HasConstants(k)
    ensures k(16) == 0xE49B69C1 && k(17) == 0xEFBE4786 && k(18) == 0x0FC19DC6 && k(19) == 0x240CA1CC
  {
    assert IsRound(16) && IsRound(17) && IsRound(18) && IsRound(19);
  }

  lemma Constants20(k: nat -> word)
    requires HasConstants(k)
    ensures k(20) == 0x2DE92C6F && k(21) == 0x4A7484AA && k(22) == 0x5CB0A9DC && k(23) == 0x76F988DA
  {
    assert IsRound(20) && IsRound(21) && IsRound(22) && IsRound(23);
  }

  lemma Constants24(k: nat -> word)
    requires HasConstants(k)
    ensures k(24) == 0x983E5152 && k(25) == 0xA831C66D && k(26) == 0xB00327C8 && k(27) == 0xBF597FC7
  {
    assert IsRound(24) && IsRound(25) && IsRound(26) && IsRound(27);
  }

  lemma Constants28(k: nat -> word)
    requires HasConstants(k)
    ensures k(28) == 0xC6E00BF3 && k(29) == 0xD5A79147 && k(30) == 0x06CA6351 && k(31) == 0x14292967
  {
    assert IsRound(28) && IsRound(29) && IsRound(30) && IsRound(31);
  }

  lemma Constants32(k: nat -> word)
    requires HasConstants(k)
    ensures k(32) == 0x27B70A85 && k(33) == 0x2E1B2138 && k(34) == 0x4D2C6DFC && k(35) == 0x53380D13
  {
    assert IsRound(32) && IsRound(33) && IsRound(34) && IsRound(35);
  }

  lemma Constants36(k: nat -> word)
    requires HasConstants(k)
    ensures k(36) == 0x650A7354 && k(37) == 0x766A0ABB && k(38) == 0x81C2C92E && k(39) == 0x92722C85
  {
    assert IsRound(36) && IsRound(37) && IsRound(38) && IsRound(39);
  }

  lemma Constants40(k: nat -> word)
    requires HasConstants(k)
    ensures k(40) == 0xA2BFE8A1 && k(41) == 0xA81A664B && k(42) == 0xC24B8B70 && k(43) == 0xC76C51A3
  {
    assert IsRound(40) && IsRound(41) && IsRound(42) && IsRound(43);
  }

  lemma Constants44(k: nat -> word)
    requires HasConstants(k)
    ensures k(44) == 0xD192E819 && k(45) == 0xD6990624 && k(46) == 0xF40E3585 && k(47) == 0x106AA070
  {
    assert IsRound(44) && IsRound(45) && IsRound(46) && IsRound(47);
  }

  lemma Constants48(k: nat -> word)
    requires HasConstants(k)
    ensures k(48) == 0x19A4C116 && k(49) == 0x1E376C08 && k(50) == 0x2748774C && k(51) == 0x34B0BCB5
  {
    assert IsRound(48) && IsRound(49) && IsRound(50) && IsRound(51);
  }

  lemma Constants52(k: nat -> word)
    requires HasConstants(k)
    ensures k(52) == 0x391C0CB3 && k(53) == 0x4ED8AA4A && k(54) == 0x5B9CCA4F && k(55) == 0x682E6FF3
  {
    assert IsRound(52) && IsRound(53) && IsRound(54) && IsRound(55);
  }

  lemma Constants56(k: nat -> word)
    requires HasConstants(k)
    ensures k(56) == 0x748F82EE && k(57) == 0x78A5636F && k(58) == 0x84C87814 && k(59) == 0x8CC70208
  {
    assert IsRound(56) && IsRound(57) && IsRound(58) && IsRound(59);
  }

  lemma Constants60(k: nat -> word)
    requires HasConstants(k)
    ensures k(60) == 0x90BEFFFA && k(61) == 0xA4506CEB && k(62) == 0xBEF9A3F7 && k(63) == 0xC67178F2
  {
    assert IsRound(60) && IsRound(61) && IsRound(62) && IsRound(63);
  }

  // ----- the rounds -----

  lemma Rounds0(v: nat -> seq<word>, k: nat -> word, w: nat -> word)
    requires IsRun(v, k, w) && v(0) == [0x6A09E667, 0xBB67AE85, 0x3C6EF372, 0xA54FF53A, 0x510E527F, 0x9B05688C, 0x1F83D9AB, 0x5BE0CD19]
    requires k(0) == 0x428A2F98 && k(1) == 0x71374491 && k(2) == 0xB5C0FBCF && k(3) == 0xE9B5DBA5
    requires w(0) == 0x61626380 && w(1) == 0x00000000 && w(2) == 0x00000000 && w(3) == 0x00000000
    ensures v(4) == [0xD550F666, 0xC8C347A7, 0x5A6AD9AD, 0x5D6AEBCD, 0x24E00850, 0xF92939EB, 0x78CE7989, 0xFA2A4622]
  {
    assert IsRound(0) && v(1) == [0x5D6AEBCD, 0x6A09E667, 0xBB67AE85, 0x3C6EF372, 0xFA2A4622, 0x510E527F, 0x9B05688C, 0x1F83D9AB];
    assert IsRound(1) && v(2) == [0x5A6AD9AD, 0x5D6AEBCD, 0x6A09E667, 0xBB67AE85, 0x78CE7989, 0xFA2A4622, 0x510E527F, 0x9B05688C];
    assert IsRound(2) && v(3) == [0xC8C347A7, 0x5A6AD9AD, 0x5D6AEBCD, 0x6A09E667, 0xF92939EB, 0x78CE7989, 0xFA2A4622, 0x510E527F];
    assert IsRound(3) && v(4) == [0xD550F666, 0xC8C347A7, 0x5A6AD9AD, 0x5D6AEBCD, 0x24E00850, 0xF92939EB, 0x78CE7989, 0xFA2A4622];
  }

  lemma Rounds4(v: nat -> seq<word>, k: nat -> word, w: nat -> word)
    requires IsRun(v, k, w) && v(4) == [0xD550F666, 0xC8C347A7, 0x5A6AD9AD, 0x5D6AEBCD, 0x24E00850, 0xF92939EB, 0x78CE7989, 0xFA2A4622]
    requires k(4) == 0x3956C25B && k(5) == 0x59F111F1 && k(6) == 0x923F82A4 && k(7) == 0xAB1C5ED5
    requires w(4) == 0x00000000 && w(5) == 0x00000000 && w(6) == 0x00000000 && w(7) == 0x00000000
    ensures v(8) == [0x85A07B5F, 0xE5030380, 0x2B4209F5, 0x04409A6A, 0x0C657A79, 0x9B27A401, 0x714260AD, 0x43ADA245]
  {
    assert IsRound(4) && v(5) == [0x04409A6A, 0xD550F666, 0xC8C347A7, 0x5A6AD9AD, 0x43ADA245, 0x24E00850, 0xF92939EB, 0x78CE7989];
    assert IsRound(5) && v(6) == [0x2B4209F5, 0x04409A6A, 0xD550F666, 0xC8C347A7, 0x714260AD, 0x43ADA245, 0x24E00850, 0xF92939EB];
    assert IsRound(6) && v(7) == [0xE5030380, 0x2B4209F5, 0x04409A6A, 0xD550F666, 0x9B27A401, 0x714260AD, 0x43ADA245, 0x24E00850];
    assert IsRound(7) && v(8) == [0x85A07B5F, 0xE5030380, 0x2B4209F5, 0x04409A6A, 0x0C657A79, 0x9B27A401, 0x714260AD, 0x43ADA245];
  }

  lemma Rounds8(v: nat -> seq<word>, k: nat -> word, w: nat -> word)
    requires IsRun(v, k, w) && v(8) == [0x85A07B5F, 0xE5030380, 0x2B4209F5, 0x04409A6A, 0x0C657A79, 0x9B27A401, 0x714260AD, 0x43ADA245]
    requires k(8) == 0xD807AA98 && k(9) == 0x12835B01 && k(10) == 0x243185BE && k(11) == 0x550C7DC3
    requires w(8) == 0x00000000 && w(9) == 0x00000000 && w(10) == 0x00000000 && w(11) == 0x00000000
    ensures v(12) == [0xF71FC5A9, 0x4798A3F4, 0x8C87346B, 0x8E04ECB9, 0x816FD6E9, 0x436B23E8, 0x1CC92596, 0x32CA2D8C]
  {
    assert IsRound(8) && v(9) == [0x8E04ECB9, 0x85A07B5F, 0xE5030380, 0x2B4209F5, 0x32CA2D8C, 0x0C657A79, 0x9B27A401, 0x714260AD];
    assert IsRound(9) && v(10) == [0x8C87346B, 0x8E04ECB9, 0x85A07B5F, 0xE5030380, 0x1CC92596, 0x32CA2D8C, 0x0C657A79, 0x9B27A401];
    assert IsRound(10) && v(11) == [0x4798A3F4, 0x8C87346B, 0x8E04ECB9, 0x85A07B5F, 0x436B23E8, 0x1CC92596, 0x32CA2D8C, 0x0C657A79];
    assert IsRound(11) && v(12) == [0xF71FC5A9, 0x4798A3F4, 0x8C87346B, 0x8E04ECB9, 0x816FD6E9, 0x436B23E8, 0x1CC92596, 0x32CA2D8C];
  }

  lemma Rounds12(v: nat -> seq<word>, k: nat -> word, w: nat -> word)
    requires IsRun(v, k, w) && v(12) == [0xF71FC5A9, 0x4798A3F4, 0x8C87346B, 0x8E04ECB9, 0x816FD6E9, 0x436B23E8, 0x1CC92596, 0x32CA2D8C]
    requires k(12) == 0x72BE5D74 && k(13) == 0x80DEB1FE && k(14) == 0x9BDC06A7 && k(15) == 0xC19BF174
    requires w(12) == 0x00000000 && w(13) == 0x00000000 && w(14) == 0x00000000 && w(15) == 0x00000018
    ensures v(16) == [0xB0FA238E, 0xC0645FDE, 0xD932EB16, 0x87912990, 0x07590DCD, 0x0B92F20C, 0x745A48DE, 0x1E578218]
  {
    assert IsRound(12) && v(13) == [0x87912990, 0xF71FC5A9, 0x4798A3F4, 0x8C87346B, 0x1E578218, 0x816FD6E9, 0x436B23E8, 0x1CC92596];
    assert IsRound(13) && v(14) == [0xD932EB16, 0x87912990, 0xF71FC5A9, 0x4798A3F4, 0x745A48DE, 0x1E578218, 0x816FD6E9, 0x436B23E8];
    assert IsRound(14) && v(15) == [0xC0645FDE, 0xD932EB16, 0x87912990, 0xF71FC5A9, 0x0B92F20C, 0x745A48DE, 0x1E578218, 0x816FD6E9];
    assert IsRound(15) && v(16) == [0xB0FA238E, 0xC0645FDE, 0xD932EB16, 0x87912990, 0x07590DCD, 0x0B92F20C, 0x745A48DE, 0x1E578218];
  }

  lemma Rounds16(v: nat -> seq<word>, k: nat -> word, w: nat -> word)
    requires IsRun(v, k, w) && v(16) == [0xB0FA238E, 0xC0645FDE, 0xD932EB16, 0x87912990, 0x07590DCD, 0x0B92F20C, 0x745A48DE, 0x1E578218]
    requires k(16) == 0xE49B69C1 && k(17) == 0xEFBE4786 && k(18) == 0x0FC19DC6 && k(19) == 0x240CA1CC
    requires w(16) == 0x61626380 && w(17) == 0x000F0000 && w(18) == 0x7DA86405 && w(19) == 0x600003C6
    ensures v(20) == [0xE1F20C33, 0xFE777BBF, 0xC2FBD9D1, 0x21DA9A9B, 0xB0638179, 0xCC899961, 0x846EE454, 0x8034229C]
  {
    assert IsRound(16) && v(17) == [0x21DA9A9B, 0xB0FA238E, 0xC0645FDE, 0xD932EB16, 0x8034229C, 0x07590DCD, 0x0B92F20C, 0x745A48DE];
    assert IsRound(17) && v(18) == [0xC2FBD9D1, 0x21DA9A9B, 0xB0FA238E, 0xC0645FDE, 0x846EE454, 0x8034229C, 0x07590DCD, 0x0B92F20C];
    assert IsRound(18) && v(19) == [0xFE777BBF, 0xC2FBD9D1, 0x21DA9A9B, 0xB0FA238E, 0xCC899961, 0x846EE454, 0x8034229C, 0x07590DCD];
    assert IsRound(19) && v(20) == [0xE1F20C33, 0xFE777BBF, 0xC2FBD9D1, 0x21DA9A9B, 0xB0638179, 0xCC899961, 0x846EE454, 0x8034229C];
  }

  lemma Rounds20(v: nat -> seq<word>, k: nat -> word, w: nat -> word)
    requires IsRun(v, k, w) && v(20) == [0xE1F20C33, 0xFE777BBF, 0xC2FBD9D1, 0x21DA9A9B, 0xB0638179, 0xCC899961, 0x846EE454, 0x8034229C]
    requires k(20) == 0x2DE92C6F && k(21) == 0x4A7484AA && k(22) == 0x5CB0A9DC && k(23) == 0x76F988DA
    requires w(20) == 0x3E9D7B78 && w(21) == 0x0183FC00 && w(22) == 0x12DCBFDB && w(23) == 0xE2E2C38E
    ensures v(24) == [0xC5D53D8D, 0xA7A3623F, 0xC2606D6D, 0x9DC68B63, 0xAA47C347, 0x49F5114A, 0xE1257970, 0x8ADA8930]
  {
    assert IsRound(20) && v(21) == [0x9DC68B63, 0xE1F20C33, 0xFE777BBF, 0xC2FBD9D1, 0x8ADA8930, 0xB0638179, 0xCC899961, 0x846EE454];
    assert IsRound(21) && v(22) == [0xC2606D6D, 0x9DC68B63, 0xE1F20C33, 0xFE777BBF, 0xE1257970, 0x8ADA8930, 0xB0638179, 0xCC899961];
    assert IsRound(22) && v(23) == [0xA7A3623F, 0xC2606D6D, 0x9DC68B63, 0xE1F20C33, 0x49F5114A, 0xE1257970, 0x8ADA8930, 0xB0638179];
    assert IsRound(23) && v(24) == [0xC5D53D8D, 0xA7A3623F, 0xC2606D6D, 0x9DC68B63, 0xAA47C347, 0x49F5114A, 0xE1257970, 0x8ADA8930];
  }

  lemma Rounds24(v: nat -> seq<word>, k: nat -> word, w: nat -> word)
    requires IsRun(v, k, w) && v(24) == [0xC5D53D8D, 0xA7A3623F, 0xC2606D6D, 0x9DC68B63, 0xAA47C347, 0x49F5114A, 0xE1257970, 0x8ADA8930]
    requires k(24) == 0x983E5152 && k(25) == 0xA831C66D && k(26) == 0xB00327C8 && k(27) == 0xBF597FC7
    requires w(24) == 0xC8215C1A && w(25) == 0xB73679A2 && w(26) == 0xE5BC3909 && w(27) == 0x32663C5B
    ensures v(28) == [0x77D37528, 0xB62EC4BC, 0xCDE8037D, 0x1C2C2838, 0xEDFFBFF8, 0xC74C6516, 0x14383D8E, 0x2823EF91]
  {
    assert IsRound(24) && v(25) == [0x1C2C2838, 0xC5D53D8D, 0xA7A3623F, 0xC2606D6D, 0x2823EF91, 0xAA47C347, 0x49F5114A, 0xE1257970];
    assert IsRound(25) && v(26) == [0xCDE8037D, 0x1C2C2838, 0xC5D53D8D, 0xA7A3623F, 0x14383D8E, 0x2823EF91, 0xAA47C347, 0x49F5114A];
    assert IsRound(26) && v(27) == [0xB62EC4BC, 0xCDE8037D, 0x1C2C2838, 0xC5D53D8D, 0xC74C6516, 0x14383D8E, 0x2823EF91, 0xAA47C347];
    assert IsRound(27) && v(28) == [0x77D37528, 0xB62EC4BC, 0xCDE8037D, 0x1C2C2838, 0xEDFFBFF8, 0xC74C6516, 0x14383D8E, 0x2823EF91];
  }

  lemma Rounds28(v: nat -> seq<word>, k: nat -> word, w: nat -> word)
    requires IsRun(v, k, w) && v(28) == [0x77D37528, 0xB62EC4BC, 0xCDE8037D, 0x1C2C2838, 0xEDFFBFF8, 0xC74C6516, 0x14383D8E, 0x2823EF91]
    requires k(28) == 0xC6E00BF3 && k(29) == 0xD5A79147 && k(30) == 0x06CA6351 && k(31) == 0x14292967
    requires w(28) == 0x9D209D67 && w(29) == 0xEC8726CB && w(30) == 0x702138A4 && w(31) == 0xD3B7973B
    ensures v(32) == [0x73B33BF5, 0xEA992A22, 0xA0060B30, 0x363482C9, 0xBA591112, 0x0109AB3A, 0xADE79437, 0x6112A3B7]
  {
    assert IsRound(28) && v(29) == [0x363482C9, 0x77D37528, 0xB62EC4BC, 0xCDE8037D, 0x6112A3B7, 0xEDFFBFF8, 0xC74C6516, 0x14383D8E];
    assert IsRound(29) && v(30) == [0xA0060B30, 0x363482C9, 0x77D37528, 0xB62EC4BC, 0xADE79437, 0x6112A3B7, 0xEDFFBFF8, 0xC74C6516];
    assert IsRound(30) && v(31) == [0xEA992A22, 0xA0060B30, 0x363482C9, 0x77D37528, 0x0109AB3A, 0xADE79437, 0x6112A3B7, 0xEDFFBFF8];
    assert IsRound(31) && v(32) == [0x73B33BF5, 0xEA992A22, 0xA0060B30, 0x363482C9, 0xBA591112, 0x0109AB3A, 0xADE79437, 0x6112A3B7];
  }

  lemma Rounds32(v: nat -> seq<word>, k: nat -> word, w: nat -> word)
    requires IsRun(v, k, w) && v(32) == [0x73B33BF5, 0xEA992A22, 0xA0060B30, 0x363482C9, 0xBA591112, 0x0109AB3A, 0xADE79437, 0x6112A3B7]
    requires k(32) == 0x27B70A85 && k(33) == 0x2E1B2138 && k(34) == 0x4D2C6DFC && k(35) == 0x53380D13
    requires w(32) == 0x93F5997F && w(33) == 0x3B68BA73 && w(34) == 0xAFF4FFC1 && w(35) == 0xF10A5C62
    ensures v(36) == [0x65A0CFE4, 0xA9A7738C, 0xFE604DF5, 0x98E12507, 0xF4B002D6, 0x085F3833, 0x59249DD3, 0x9CD9F5F6]
  {
    assert IsRound(32) && v(33) == [0x98E12507, 0x73B33BF5, 0xEA992A22, 0xA0060B30, 0x9CD9F5F6, 0xBA591112, 0x0109AB3A, 0xADE79437];
    assert IsRound(33) && v(34) == [0xFE604DF5, 0x98E12507, 0x73B33BF5, 0xEA992A22, 0x59249DD3, 0x9CD9F5F6, 0xBA591112, 0x0109AB3A];
    assert IsRound(34) && v(35) == [0xA9A7738C, 0xFE604DF5, 0x98E12507, 0x73B33BF5, 0x085F3833, 0x59249DD3, 0x9CD9F5F6, 0xBA591112];
    assert IsRound(35) && v(36) == [0x65A0CFE4, 0xA9A7738C, 0xFE604DF5, 0x98E12507, 0xF4B002D6, 0x085F3833, 0x59249DD3, 0x9CD9F5F6];
  }

  lemma Rounds36(v: nat -> seq<word>, k: nat -> word, w: nat -> word)
    requires IsRun(v, k, w) && v(36) == [0x65A0CFE4, 0xA9A7738C, 0xFE604DF5, 0x98E12507, 0xF4B002D6, 0x085F3833, 0x59249DD3, 0x9CD9F5F6]
    requires k(36) == 0x650A7354 && k(37) == 0x766A0ABB && k(38) == 0x81C2C92E && k(39) == 0x92722C85
    requires w(36) == 0x0A8B3996 && w(37) == 0x72AF830A && w(38) == 0x9409E33E && w(39) == 0x24641522
    ensures v(40) == [0x79EA687A, 0x6DC57A8A, 0x34DF1604, 0x41A65CB1, 0x1EFBC0A0, 0xF0781BC8, 0xA507A53D, 0x0772A26B]
  {
    assert IsRound(36) && v(37) == [0x41A65CB1, 0x65A0CFE4, 0xA9A7738C, 0xFE604DF5, 0x0772A26B, 0xF4B002D6, 0x085F3833, 0x59249DD3];
    assert IsRound(37) && v(38) == [0x34DF1604, 0x41A65CB1, 0x65A0CFE4, 0xA9A7738C, 0xA507A53D, 0x0772A26B, 0xF4B002D6, 0x085F3833];
    assert IsRound(38) && v(39) == [0x6DC57A8A, 0x34DF1604, 0x41A65CB1, 0x65A0CFE4, 0xF0781BC8, 0xA507A53D, 0x0772A26B, 0xF4B002D6];
    assert IsRound(39) && v(40) == [0x79EA687A, 0x6DC57A8A, 0x34DF1604, 0x41A65CB1, 0x1EFBC0A0, 0xF0781BC8, 0xA507A53D, 0x0772A26B];
  }

  lemma Rounds40(v: nat -> seq<word>, k: nat -> word, w: nat -> word)
    requires IsRun(v, k, w) && v(40) == [0x79EA687A, 0x6DC57A8A, 0x34DF1604, 0x41A65CB1, 0x1EFBC0A0, 0xF0781BC8, 0xA507A53D, 0x0772A26B]
    requires k(40) == 0xA2BFE8A1 && k(41) == 0xA81A664B && k(42) == 0xC24B8B70 && k(43) == 0xC76C51A3
    requires w(40) == 0x9F47BF94 && w(41) == 0xF0A64F5A && w(42) == 0x3E246A79 && w(43) == 0x27333BA3
    ensures v(44) == [0x9D4BAF93, 0x17AA0DFE, 0xDF46652F, 0xD6670766, 0xFDA24C2E, 0xDECD4715, 0x838B2711, 0x26352D63]
  {
    assert IsRound(40) && v(41) == [0xD6670766, 0x79EA687A, 0x6DC57A8A, 0x34DF1604, 0x26352D63, 0x1EFBC0A0, 0xF0781BC8, 0xA507A53D];
    assert IsRound(41) && v(42) == [0xDF46652F, 0xD6670766, 0x79EA687A, 0x6DC57A8A, 0x838B2711, 0x26352D63, 0x1EFBC0A0, 0xF0781BC8];
    assert IsRound(42) && v(43) == [0x17AA0DFE, 0xDF46652F, 0xD6670766, 0x79EA687A, 0xDECD4715, 0x838B2711, 0x26352D63, 0x1EFBC0A0];
    assert IsRound(43) && v(44) == [0x9D4BAF93, 0x17AA0DFE, 0xDF46652F, 0xD6670766, 0xFDA24C2E, 0xDECD4715, 0x838B2711, 0x26352D63];
  }

  lemma Rounds44(v: nat -> seq<word>, k: nat -> word, w: nat -> word)
    requires IsRun(v, k, w) && v(44) == [0x9D4BAF93, 0x17AA0DFE, 0xDF46652F, 0xD6670766, 0xFDA24C2E, 0xDECD4715, 0x838B2711, 0x26352D63]
    requires k(44) == 0xD192E819 && k(45) == 0xD6990624 && k(46) == 0xF40E3585 && k(47) == 0x106AA070
    requires w(44) == 0x0C4763F2 && w(45) == 0x840ABF27 && w(46) == 0x7A290D5D && w(47) == 0x065C43DA
    ensures v(48) == [0x4172328D, 0xA14C14B0, 0x72AB4B91, 0x26628815, 0xFECF0BC6, 0xD57B94A9, 0xB7755DA1, 0xA80F11F0]
  {
    assert IsRound(44) && v(45) == [0x26628815, 0x9D4BAF93, 0x17AA0DFE, 0xDF46652F, 0xA80F11F0, 0xFDA24C2E, 0xDECD4715, 0x838B2711];
    assert IsRound(45) && v(46) == [0x72AB4B91, 0x26628815, 0x9D4BAF93, 0x17AA0DFE, 0xB7755DA1, 0xA80F11F0, 0xFDA24C2E, 0xDECD4715];
    assert IsRound(46) && v(47) == [0xA14C14B0, 0x72AB4B91, 0x26628815, 0x9D4BAF93, 0xD57B94A9, 0xB7755DA1, 0xA80F11F0, 0xFDA24C2E];
    assert IsRound(47) && v(48) == [0x4172328D, 0xA14C14B0, 0x72AB4B91, 0x26628815, 0xFECF0BC6, 0xD57B94A9, 0xB7755DA1, 0xA80F11F0];
  }

  lemma Rounds48(v: nat -> seq<word>, k: nat -> word, w: nat -> word)
    requires IsRun(v, k, w) && v(48) == [0x4172328D, 0xA14C14B0, 0x72AB4B91, 0x26628815, 0xFECF0BC6, 0xD57B94A9, 0xB7755DA1, 0xA80F11F0]
    requires k(48) == 0x19A4C116 && k(49) == 0x1E376C08 && k(50) == 0x2748774C && k(51) == 0x34B0BCB5
    requires w(48) == 0xFB3E89CB && w(49) == 0xCC7617DB && w(50) == 0xB9E66C34 && w(51) == 0xA9993667
    ensures v(52) == [0x886E7A22, 0x7A0508A1, 0xF11BFAA8, 0x05757CEB, 0x49231C1E, 0x52F1CCF7, 0x6E5C390C, 0xBD714038]
  {
    assert IsRound(48) && v(49) == [0x05757CEB, 0x4172328D, 0xA14C14B0, 0x72AB4B91, 0xBD714038, 0xFECF0BC6, 0xD57B94A9, 0xB7755DA1];
    assert IsRound(49) && v(50) == [0xF11BFAA8, 0x05757CEB, 0x4172328D, 0xA14C14B0, 0x6E5C390C, 0xBD714038, 0xFECF0BC6, 0xD57B94A9];
    assert IsRound(50) && v(51) == [0x7A0508A1, 0xF11BFAA8, 0x05757CEB, 0x4172328D, 0x52F1CCF7, 0x6E5C390C, 0xBD714038, 0xFECF0BC6];
    assert IsRound(51) && v(52) == [0x886E7A22, 0x7A0508A1, 0xF11BFAA8, 0x05757CEB, 0x49231C1E, 0x52F1CCF7, 0x6E5C390C, 0xBD714038];
  }

  lemma Rounds52(v: nat -> seq<word>, k: nat -> word, w: nat -> word)
    requires IsRun(v, k, w) && v(52) == [0x886E7A22, 0x7A0508A1, 0xF11BFAA8, 0x05757CEB, 0x49231C1E, 0x52F1CCF7, 0x6E5C390C, 0xBD714038]
    requires k(52) == 0x391C0CB3 && k(53) == 0x4ED8AA4A && k(54) == 0x5B9CCA4F && k(55) == 0x682E6FF3
    requires w(52) == 0x84BADEDD && w(53) == 0xC21462BC && w(54) == 0x1487472C && w(55) == 0xB20F7A99
    ensures v(56) == [0x38CC9913, 0x3EC45CDB, 0xF5702FDB, 0x101FD28F, 0x54CB266B, 0xE50E1B4F, 0x9F4787C3, 0x529E7D00]
  {
    assert IsRound(52) && v(53) == [0x101FD28F, 0x886E7A22, 0x7A0508A1, 0xF11BFAA8, 0x529E7D00, 0x49231C1E, 0x52F1CCF7, 0x6E5C390C];
    assert IsRound(53) && v(54) == [0xF5702FDB, 0x101FD28F, 0x886E7A22, 0x7A0508A1, 0x9F4787C3, 0x529E7D00, 0x49231C1E, 0x52F1CCF7];
    assert IsRound(54) && v(55) == [0x3EC45CDB, 0xF5702FDB, 0x101FD28F, 0x886E7A22, 0xE50E1B4F, 0x9F4787C3, 0x529E7D00, 0x49231C1E];
    assert IsRound(55) && v(56) == [0x38CC9913, 0x3EC45CDB, 0xF5702FDB, 0x101FD28F, 0x54CB266B, 0xE50E1B4F, 0x9F4787C3, 0x529E7D00];
  }

  lemma Rounds56(v: nat -> seq<word>, k: nat -> word, w: nat -> word)
    requires IsRun(v, k, w) && v(56) == [0x38CC9913, 0x3EC45CDB, 0xF5702FDB, 0x101FD28F, 0x54CB266B, 0xE50E1B4F, 0x9F4787C3, 0x529E7D00]
    requires k(56) == 0x748F82EE && k(57) == 0x78A5636F && k(58) == 0x84C87814 && k(59) == 0x8CC70208
    requires w(56) == 0xEF57B9CD && w(57) == 0xEBE6B238 && w(58) == 0x9FE3095E && w(59) == 0x78BC8D4B
    ensures v(60) == [0xB6AE8FFF, 0xFFB70472, 0xC062D46F, 0xFCD1887B, 0xB21BAD3D, 0x6D83BFC6, 0x7E44008E, 0x9B5E906C]
  {
    assert IsRound(56) && v(57) == [0xFCD1887B, 0x38CC9913, 0x3EC45CDB, 0xF5702FDB, 0x9B5E906C, 0x54CB266B, 0xE50E1B4F, 0x9F4787C3];
    assert IsRound(57) && v(58) == [0xC062D46F, 0xFCD1887B, 0x38CC9913, 0x3EC45CDB, 0x7E44008E, 0x9B5E906C, 0x54CB266B, 0xE50E1B4F];
    assert IsRound(58) && v(59) == [0xFFB70472, 0xC062D46F, 0xFCD1887B, 0x38CC9913, 0x6D83BFC6, 0x7E44008E, 0x9B5E906C, 0x54CB266B];
    assert IsRound(59) && v(60) == [0xB6AE8FFF, 0xFFB70472, 0xC062D46F, 0xFCD1887B, 0xB21BAD3D, 0x6D83BFC6, 0x7E44008E, 0x9B5E906C];
  }

  lemma Rounds60(v: nat -> seq<word>, k: nat -> word, w: nat -> word)
    requires IsRun(v, k, w) && v(60) == [0xB6AE8FFF, 0xFFB70472, 0xC062D46F, 0xFCD1887B, 0xB21BAD3D, 0x6D83BFC6, 0x7E44008E, 0x9B5E906C]
    requires k(60) == 0x90BEFFFA && k(61) == 0xA4506CEB && k(62) == 0xBEF9A3F7 && k(63) == 0xC67178F2
    requires w(60) == 0xA43FCF15 && w(61) == 0x668B2FF8 && w(62) == 0xEEABA2CC && w(63) == 0x12B1EDEB
    ensures v(64) == [0x506E3058, 0xD39A2165, 0x04D24D6C, 0xB85E2CE9, 0x5EF50F24, 0xFB121210, 0x948D25B6, 0x961F4894]
  {
    assert IsRound(60) && v(61) == [0xB85E2CE9, 0xB6AE8FFF, 0xFFB70472, 0xC062D46F, 0x961F4894, 0xB21BAD3D, 0x6D83BFC6, 0x7E44008E];
    assert IsRound(61) && v(62) == [0x04D24D6C, 0xB85E2CE9, 0xB6AE8FFF, 0xFFB70472, 0x948D25B6, 0x961F4894, 0xB21BAD3D, 0x6D83BFC6];
    assert IsRound(62) && v(63) == [0xD39A2165, 0x04D24D6C, 0xB85E2CE9, 0xB6AE8FFF, 0xFB121210, 0x948D25B6, 0x961F4894, 0xB21BAD3D];
    assert IsRound(63) && v(64) == [0x506E3058, 0xD39A2165, 0x04D24D6C, 0xB85E2CE9, 0x5EF50F24, 0xFB121210, 0x948D25B6, 0x961F4894];
  }

  // ----- the answer -----

  lemma AllRounds(v: nat -> seq<word>, k: nat -> word, w: nat -> word)
    requires IsSchedule(w) && HasConstants(k) && IsRun(v, k, w)
    ensures v(64) == [0x506E3058, 0xD39A2165, 0x04D24D6C, 0xB85E2CE9, 0x5EF50F24, 0xFB121210, 0x948D25B6, 0x961F4894]
  {
    Words16(w);
    Words24(w);
    Words32(w);
    Words40(w);
    Words48(w);
    Words56(w);
    Constants0(k);
    Rounds0(v, k, w);
    Constants4(k);
    Rounds4(v, k, w);
    Constants8(k);
    Rounds8(v, k, w);
    Constants12(k);
    Rounds12(v, k, w);
    Constants16(k);
    Rounds16(v, k, w);
    Constants20(k);
    Rounds20(v, k, w);
    Constants24(k);
    Rounds24(v, k, w);
    Constants28(k);
    Rounds28(v, k, w);
    Constants32(k);
    Rounds32(v, k, w);
    Constants36(k);
    Rounds36(v, k, w);
    Constants40(k);
    Rounds40(v, k, w);
    Constants44(k);
    Rounds44(v, k, w);
    Constants48(k);
    Rounds48(v, k, w);
    Constants52(k);
    Rounds52(v, k, w);
    Constants56(k);
    Rounds56(v, k, w);
    Constants60(k);
    Rounds60(v, k, w);
  }

  lemma {:induction false} AbcRounds(b: Block)
    requires IsAbc(b)
    ensures Rounds(H0, b, 64) == [0x506E3058, 0xD39A2165, 0x04D24D6C, 0xB85E2CE9, 0x5EF50F24, 0xFB121210, 0x948D25B6, 0x961F4894]
  {
    var v: nat -> seq<word> := (t: nat) => if t <= 64 then Rounds(H0, b, t) else H0;
    var k: nat -> word := (t: nat) => if t < 64 then K(t) else 0;
    var w: nat -> word := (t: nat) => if t < 64 then W(b, t) else 0;
    WordsOfBlock(b, w);
    RoundsOfBlock(b, v, k, w);
    AllRounds(v, k, w);
  }

  lemma {:induction false} WordsOfBlock(b: Block, w: nat -> word)
    requires IsAbc(b) && forall t: nat {:trigger IsRound(t)} :: IsRound(t) ==> w(t) == W(b, t)
    ensures IsSchedule(w)
  {
    assert IsRound(0) && IsRound(15);
    forall t: nat | 1 <= t < 15
      ensures w(t) == 0
    {
      assert IsRound(t);
    }
    forall t: nat | IsRound(t) && t >= 16
      ensures Obeys(w, t)
    {
      assert IsRound(t - 2) && IsRound(t - 7) && IsRound(t - 15) && IsRound(t - 16);
      WordOf(b, w, t);
    }
  }

  lemma WordOf(b: Block, w: nat -> word, t: nat)
    requires 16 <= t < 64
    requires w(t) == W(b, t) && w(t - 2) == W(b, t - 2) && w(t - 7) == W(b, t - 7)
    requires w(t - 15) == W(b, t - 15) && w(t - 16) == W(b, t - 16)
    ensures Obeys(w, t)
  {
    OneWord(b, t);
  }

  lemma RoundsOfBlock(b: Block, v: nat -> seq<word>, k: nat -> word, w: nat -> word)
    requires forall t: nat :: v(t) == if t <= 64 then Rounds(H0, b, t) else H0
    requires (forall t: nat :: t < 64 ==> k(t) == K(t)) && (forall t: nat :: t < 64 ==> w(t) == W(b, t))
    ensures IsRun(v, k, w)
  {
    forall t: nat | IsRound(t)
      ensures v(t + 1) == Round(v(t), k(t), w(t))
    {
      OneRound(b, t);
    }
  }

  lemma OneWord(b: Block, t: nat)
    requires 16 <= t < 64
    ensures W(b, t) == Mixed(W(b, t - 2), W(b, t - 7), W(b, t - 15), W(b, t - 16))
  {
  }

  lemma OneRound(b: Block, t: nat)
    requires t < 64
    ensures Rounds(H0, b, t + 1) == Round(Rounds(H0, b, t), K(t), W(b, t))
  {
  }

  lemma AbcSums()
    ensures Add(0x6A09E667, 0x506E3058) == 0xBA7816BF && Add(0xBB67AE85, 0xD39A2165) == 0x8F01CFEA
         && Add(0x3C6EF372, 0x04D24D6C) == 0x414140DE && Add(0xA54FF53A, 0xB85E2CE9) == 0x5DAE2223
         && Add(0x510E527F, 0x5EF50F24) == 0xB00361A3 && Add(0x9B05688C, 0xFB121210) == 0x96177A9C
         && Add(0x1F83D9AB, 0x948D25B6) == 0xB410FF61 && Add(0x5BE0CD19, 0x961F4894) == 0xF20015AD
  {
  }

  lemma AbcCompressed(b: Block)
    requires IsAbc(b)
    ensures Compress(H0, b) == [0xBA7816BF, 0x8F01CFEA, 0x414140DE, 0x5DAE2223, 0xB00361A3, 0x96177A9C, 0xB410FF61, 0xF20015AD]
  {
    AbcRounds(b);
    AbcSums();
  }

  lemma Digest0()
    ensures PutBE(0xBA7816BF) == [0xBA, 0x78, 0x16, 0xBF]
  {
  }

  lemma Digest1()
    ensures PutBE(0x8F01CFEA) == [0x8F, 0x01, 0xCF, 0xEA]
  {
  }

  lemma Digest2()
    ensures PutBE(0x414140DE) == [0x41, 0x41, 0x40, 0xDE]
  {
  }

  lemma Digest3()
    ensures PutBE(0x5DAE2223) == [0x5D, 0xAE, 0x22, 0x23]
  {
  }

  lemma Digest4()
    ensures PutBE(0xB00361A3) == [0xB0, 0x03, 0x61, 0xA3]
  {
  }

  lemma Digest5()
    ensures PutBE(0x96177A9C) == [0x96, 0x17, 0x7A, 0x9C]
  {
  }

  lemma Digest6()
    ensures PutBE(0xB410FF61) == [0xB4, 0x10, 0xFF, 0x61]
  {
  }

  lemma Digest7()
    ensures PutBE(0xF20015AD) == [0xF2, 0x00, 0x15, 0xAD]
  {
  }

  function Flat(ps: seq<seq<byte>>): seq<byte> {
    if ps == [] then [] else Flat(ps[..|ps| - 1]) + ps[|ps| - 1]
  }

  lemma {:induction false} DigestIsFlat(h: seq<word>, ps: seq<seq<byte>>)
    requires |ps| == |h| && forall i :: 0 <= i < |h| ==> ps[i] == PutBE(h[i])
    ensures DigestBytes(h) == Flat(ps)
    decreases |h|
  {
    if h != [] {
      DigestIsFlat(h[..|h| - 1], ps[..|h| - 1]);
    }
  }

  lemma FlatPrefix(ps: seq<seq<byte>>, n: nat)
    requires n < |ps|
    ensures Flat(ps[..n + 1]) == Flat(ps[..n]) + ps[n]
  {
    assert ps[..n + 1][..n] == ps[..n];
  }

  lemma {:induction false} FlatOfEight(ps: seq<seq<byte>>)
    requires |ps| == 8
    ensures Flat(ps) == ps[0] + ps[1] + ps[2] + ps[3] + ps[4] + ps[5] + ps[6] + ps[7]
  {
    assert Flat(ps[..0]) == [] && ps[..8] == ps && [] + ps[0] == ps[0];
    FlatPrefix(ps, 0);
    FlatPrefix(ps, 1);
    FlatPrefix(ps, 2);
    FlatPrefix(ps, 3);
    FlatPrefix(ps, 4);
    FlatPrefix(ps, 5);
    FlatPrefix(ps, 6);
    FlatPrefix(ps, 7);
  }

  lemma {:induction false} AbcBytes(h: seq<word>)
    requires h == [0xBA7816BF, 0x8F01CFEA, 0x414140DE, 0x5DAE2223, 0xB00361A3, 0x96177A9C, 0xB410FF61, 0xF20015AD]
    ensures DigestBytes(h) == [
              0xBA, 0x78, 0x16, 0xBF, 0x8F, 0x01, 0xCF, 0xEA, 0x41, 0x41, 0x40, 0xDE, 0x5D, 0xAE, 0x22, 0x23,
              0xB0, 0x03, 0x61, 0xA3, 0x96, 0x17, 0x7A, 0x9C, 0xB4, 0x10, 0xFF, 0x61, 0xF2, 0x00, 0x15, 0xAD]
  {
    Digest0();
    Digest1();
    Digest2();
    Digest3();
    Digest4();
    Digest5();
    Digest6();
    Digest7();
    var ps := [[0xBA, 0x78, 0x16, 0xBF], [0x8F, 0x01, 0xCF, 0xEA], [0x41, 0x41, 0x40, 0xDE], [0x5D, 0xAE, 0x22, 0x23],
               [0xB0, 0x03, 0x61, 0xA3], [0x96, 0x17, 0x7A, 0x9C], [0xB4, 0x10, 0xFF, 0x61], [0xF2, 0x00, 0x15, 0xAD]];
    DigestIsFlat(h, ps);
    FlatOfEight(ps);
  }

  /** SHA-256 of "abc". */
  lemma AbcDigest(m: seq<byte>)
    requires m == [97, 98, 99]
    ensures Sha256(m) == [
              0xBA, 0x78, 0x16, 0xBF, 0x8F, 0x01, 0xCF, 0xEA, 0x41, 0x41, 0x40, 0xDE, 0x5D, 0xAE, 0x22, 0x23,
              0xB0, 0x03, 0x61, 0xA3, 0x96, 0x17, 0x7A, 0x9C, 0xB4, 0x10, 0xFF, 0x61, 0xF2, 0x00, 0x15, 0xAD]
  {
    AbcIsPadded(m);
    var b: Block := Pad(m);
    AbcWords(b);
    AbcCompressed(b);
    FoldOneBlock<State>(Compress, H0, b, []);
    AbcBytes(Compress(H0, b));
  }
}
