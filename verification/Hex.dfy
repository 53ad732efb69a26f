/** `_hex2str` of `aiot_mqtt_sign.c`, its inverse, and the numeral the Java signer prints. */
module Hex {
  import opened Words
  import opened Memory

  /** zEncode[n] */
  function UpperDigit(n: nat): (c: byte)
    requires n < 16
  {
    if n < 10 then (48 + n) as byte else (55 + n) as byte
  }

  /** The value of an upper-case hex digit, or 16. */
  function DigitValue(c: byte): (n: nat)
    ensures n <= 16
  {
    if 48 <= c <= 57 then c as nat - 48 else if 65 <= c <= 70 then c as nat - 55 else 16
  }

  /** Two digits a byte, the high half first. */
  function Encode(b: seq<byte>): (s: seq<byte>)
    ensures |s| == 2 * |b|
  {
    seq(2 * |b|, i requires 0 <= i < 2 * |b| =>
      UpperDigit(if i % 2 == 0 then b[i / 2] as nat / 16 else b[i / 2] as nat % 16))
  }

  ghost predicate IsHex(s: seq<byte>) {
    |s| % 2 == 0 && forall i :: 0 <= i < |s| ==> DigitValue(s[i]) < 16
  }

  function Pair(high: byte, low: byte): byte
    requires DigitValue(high) < 16 && DigitValue(low) < 16
  {
    (16 * DigitValue(high) + DigitValue(low)) as byte
  }

  function Decode(s: seq<byte>): (b: seq<byte>)
    requires IsHex(s)
    ensures 2 * |b| == |s|
  {
    seq(|s| / 2, i requires 0 <= i < |s| / 2 => Pair(s[2 * i], s[2 * i + 1]))
  }

  lemma DigitsOfByte(b: byte)
    ensures DigitValue(UpperDigit(b as nat / 16)) == b as nat / 16
    ensures DigitValue(UpperDigit(b as nat % 16)) == b as nat % 16
    ensures Pair(UpperDigit(b as nat / 16), UpperDigit(b as nat % 16)) == b
  {
  }

  lemma DigitsOfPair(high: byte, low: byte)
    requires DigitValue(high) < 16 && DigitValue(low) < 16
    ensures UpperDigit(Pair(high, low) as nat / 16) == high
    ensures UpperDigit(Pair(high, low) as nat % 16) == low
  {
  }

  lemma EncodeAt(b: seq<byte>, i: nat)
    requires i < |b|
    ensures Encode(b)[2 * i] == UpperDigit(b[i] as nat / 16)
    ensures Encode(b)[2 * i + 1] == UpperDigit(b[i] as nat % 16)
  {
  }

  lemma EncodeIsHex(b: seq<byte>)
    ensures IsHex(Encode(b))
  {
    forall i | 0 <= i < 2 * |b|
      ensures DigitValue(Encode(b)[i]) < 16
    {
      DigitsOfByte(b[i / 2]);
    }
  }

  /** Decoding undoes encoding. */
  lemma DecodeOfEncode(b: seq<byte>)
    ensures IsHex(Encode(b)) && Decode(Encode(b)) == b
  {
    EncodeIsHex(b);
    forall i | 0 <= i < |b|
      ensures Decode(Encode(b))[i] == b[i]
    {
      EncodeAt(b, i);
      DigitsOfByte(b[i]);
    }
  }

  lemma EncodeOfDecodeAt(s: seq<byte>, i: nat)
    requires IsHex(s) && i < |s| / 2
    ensures Encode(Decode(s))[2 * i] == s[2 * i] && Encode(Decode(s))[2 * i + 1] == s[2 * i + 1]
  {
    EncodeAt(Decode(s), i);
    DigitsOfPair(s[2 * i], s[2 * i + 1]);
  }

  /** Encoding undoes decoding: every upper-case hex string of even length is the encoding of some bytes. */
  lemma EncodeOfDecode(s: seq<byte>)
    requires IsHex(s)
    ensures Encode(Decode(s)) == s
  {
    var t := Encode(Decode(s));
    assert |t| == |s|;
    forall j | 0 <= j < |s|
      ensures t[j] == s[j]
    {
      var i := j / 2;
      EncodeOfDecodeAt(s, i);
      if j % 2 == 0 {
        assert j == 2 * i;
      } else {
        assert j == 2 * i + 1;
      }
    }
  }

  /** _hex2str */
  method Hex2Str(input: array<byte>, inputLen: nat, output: array<byte>)
    requires inputLen <= input.Length && 2 * inputLen <= output.Length && input != output
    modifies output
    ensures output[..] == Splice(old(output[..]), 0, Encode(input[..inputLen]))
  {
    ghost var s, o := Encode(input[..inputLen]), output[..];
    var i, j := 0, 0;
    while i < inputLen
      invariant 0 <= i <= inputLen && j == 2 * i
      invariant forall k :: 0 <= k < output.Length ==> output[k] == if k < j then s[k] else o[k]
    {
      EncodeAt(input[..inputLen], i);
      output[j] := UpperDigit(input[i] as nat / 16 % 16);
      j := j + 1;
      output[j] := UpperDigit(input[i] as nat % 16);
      j := j + 1;
      i := i + 1;
    }
    SpliceIs(o, 0, s, output[..]);
  }

  // ----- the Java signer's form: BigInteger formatted with %064x -----

  function LowerDigit(n: nat): byte
    requires n < 16
  {
    if n < 10 then (48 + n) as byte else (87 + n) as byte
  }

  function Lower(s: seq<byte>): (r: seq<byte>)
    ensures |r| == |s|
  {
    seq(|s|, i requires 0 <= i < |s| => if 65 <= s[i] <= 90 then s[i] + 32 else s[i])
  }

  /** The base-16 numeral of n, without leading zeros. */
  function Numeral(n: nat): (s: seq<byte>)
    ensures |s| >= 1
  {
    if n < 16 then [LowerDigit(n)] else Numeral(n / 16) + [LowerDigit(n % 16)]
  }

  /** Left-filled with '0' to a width. */
  function Filled(s: seq<byte>, width: nat): seq<byte> {
    if |s| < width then seq(width - |s|, _ => 48) + s else s
  }

  /** The last `width` base-16 digits of n. */
  function Digits(n: nat, width: nat): (s: seq<byte>)
    ensures |s| == width
  {
    if width == 0 then [] else Digits(n / 16, width - 1) + [LowerDigit(n % 16)]
  }

  function Pow16(k: nat): nat {
    if k == 0 then 1 else 16 * Pow16(k - 1)
  }

  lemma {:induction false} DigitsOfZero(width: nat)
    ensures Digits(0, width) == seq(width, _ => 48)
    decreases width
  {
    if width > 0 {
      DigitsOfZero(width - 1);
    }
  }

  lemma {:induction false} FilledIsDigits(n: nat, width: nat)
    requires width >= 1 && n < Pow16(width)
    ensures |Numeral(n)| <= width
    ensures Filled(Numeral(n), width) == Digits(n, width)
    decreases width
  {
    if n < 16 {
      DigitsOfZero(width - 1);
      assert n / 16 == 0;
    } else {
      assert Pow16(width) == 16 * Pow16(width - 1);
      FilledIsDigits(n / 16, width - 1);
    }
  }

  lemma {:induction false} LowerOfEncode(b: seq<byte>)
    ensures BeNat(b) < Pow16(2 * |b|)
    ensures Lower(Encode(b)) == Digits(BeNat(b), 2 * |b|)
    decreases |b|
  {
    if b != [] {
      var k := |b| - 1;
      LowerOfEncode(b[..k]);
      var x, l := BeNat(b[..k]), b[k] as nat;
      assert Pow16(2 * k + 2) == 16 * Pow16(2 * k + 1) == 16 * (16 * Pow16(2 * k));
      DigitsOfSum(x, l, 2 * k);
      LowerStep(b);
    }
  }

  lemma DigitsOfSum(x: nat, l: nat, width: nat)
    requires l < 256
    ensures Digits(256 * x + l, width + 2) == Digits(x, width) + [LowerDigit(l / 16), LowerDigit(l % 16)]
  {
    var n := 256 * x + l;
    assert n / 16 == 16 * x + l / 16 && n % 16 == l % 16;
    assert n / 16 / 16 == x && n / 16 % 16 == l / 16;
    assert Digits(n, width + 2) == Digits(n / 16, width + 1) + [LowerDigit(l % 16)];
    assert Digits(n / 16, width + 1) == Digits(x, width) + [LowerDigit(l / 16)];
  }

  lemma LowerStep(b: seq<byte>)
    requires b != []
    ensures var l := b[|b| - 1] as nat;
            Lower(Encode(b)) == Lower(Encode(b[..|b| - 1])) + [LowerDigit(l / 16), LowerDigit(l % 16)]
  {
    var k := |b| - 1;
    var l := b[k] as nat;
    EncodeAt(b, k);
    LowerOfUpper(l / 16);
    LowerOfUpper(l % 16);
    forall j | 0 <= j < 2 * k
      ensures Encode(b)[j] == Encode(b[..k])[j]
    {
    }
  }

  lemma LowerOfUpper(n: nat)
    requires n < 16
    ensures Lower([UpperDigit(n)]) == [LowerDigit(n)]
  {
  }

  /** Up to letter case the hex form of some bytes is the numeral of the big-endian number they stand for, filled with
      zeros to two digits a byte; for a 32-byte digest that is what `%064x` prints. */
  lemma {:induction false} HexIsNumeral(b: seq<byte>)
    requires b != []
    ensures Lower(Encode(b)) == Filled(Numeral(BeNat(b)), 2 * |b|)
  {
    LowerOfEncode(b);
    FilledIsDigits(BeNat(b), 2 * |b|);
  }

  /** The digits are those of zEncode, the high half of a byte comes first. */
  lemma DigitsAreUpperCase(b: seq<byte>, i: nat)
    requires i < |b|
    ensures Encode(b)[2 * i] as char == "0123456789ABCDEF"[b[i] as int / 16]
    ensures Encode(b)[2 * i + 1] as char == "0123456789ABCDEF"[b[i] as int % 16]
  {
    EncodeAt(b, i);
  }
}
