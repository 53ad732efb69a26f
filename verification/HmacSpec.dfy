/** HMAC with SHA-256 as RFC 2104, section 2, states it. */
module HmacSpec {
  import opened Words
  import opened Memory
  import opened Padding
  import Sha256Spec

  const BLOCK := 64

  function XorByte(b: byte, p: bv8): byte {
    (b as bv8 ^ p) as byte
  }

  function XorPad(k: seq<byte>, p: bv8): (r: seq<byte>)
    ensures |r| == |k|
  {
    seq(|k|, i requires 0 <= i < |k| => XorByte(k[i], p))
  }

  /** The key brought to the block length: a longer key is hashed first, a shorter one is filled with zeros. */
  function BlockKey(key: seq<byte>): (k: seq<byte>)
    requires 8 * |key| < TWO_64
    ensures |k| == BLOCK
  {
    var k := if |key| > BLOCK then Sha256Spec.Sha256(key) else key;
    k + Zeros(BLOCK - |k|)
  }

  function Hmac(key: seq<byte>, msg: seq<byte>): (d: seq<byte>)
    requires 8 * |key| < TWO_64 && 8 * (BLOCK + |msg|) < TWO_64
    ensures |d| == 32
  {
    var k := BlockKey(key);
    var inner := Sha256Spec.Sha256(XorPad(k, 0x36) + msg);
    Sha256Spec.Sha256(XorPad(k, 0x5c) + inner)
  }

  /** The key, filled with zeros to 64 bytes, with every byte xor p. */
  ghost predicate IsPad(pad: seq<byte>, key: seq<byte>, p: bv8) {
    |pad| == 64 && forall i :: 0 <= i < 64 ==> pad[i] == ((if i < |key| then key[i] else 0) as bv8 ^ p) as byte
  }

  lemma PadIs(key: seq<byte>, pad: seq<byte>, p: bv8)
    requires |key| <= 64 && IsPad(pad, key, p)
    ensures XorPad(key + Zeros(64 - |key|), p) == pad
  {
    var k := key + Zeros(64 - |key|);
    assert forall i :: 0 <= i < 64 ==> k[i] == if i < |key| then key[i] else 0;
  }

  /** HMAC of a key of at most 64 bytes, with nothing but SHA-256 and the two pads: the inner hash has 0x36, the outer
      0x5c. */
  lemma HmacInFull(key: seq<byte>, msg: seq<byte>, ipad: seq<byte>, opad: seq<byte>)
    requires |key| <= 64 && 8 * (64 + |msg|) < TWO_64 && IsPad(ipad, key, 0x36) && IsPad(opad, key, 0x5c)
    ensures Hmac(key, msg) == Sha256Spec.Sha256(opad + Sha256Spec.Sha256(ipad + msg))
  {
    PadIs(key, ipad, 0x36);
    PadIs(key, opad, 0x5c);
    assert BlockKey(key) == key + Zeros(64 - |key|);
  }

  /** What `utils_hmac_sha256` leaves in an output array that held o, when no pointer is NULL: a key over 64 bytes is
      refused without a word. */
  function Written(o: seq<byte>, key: seq<byte>, msg: seq<byte>): (r: seq<byte>)
    requires 8 * |key| < TWO_64 && 8 * (BLOCK + |msg|) < TWO_64 && |o| >= 32
    ensures |r| == |o|
  {
    if |key| > BLOCK then o else Splice(o, 0, Hmac(key, msg))
  }

  lemma WrittenInFull(o: seq<byte>, key: seq<byte>, msg: seq<byte>, ipad: seq<byte>, opad: seq<byte>)
    requires |key| <= 64 && 8 * (64 + |msg|) < TWO_64 && |o| >= 32 && IsPad(ipad, key, 0x36) && IsPad(opad, key, 0x5c)
    ensures Written(o, key, msg)[..32] == Sha256Spec.Sha256(opad + Sha256Spec.Sha256(ipad + msg))
  {
    HmacInFull(key, msg, ipad, opad);
    SpliceOver(o, 0, Hmac(key, msg), Hmac(key, msg));
  }

  /** The function delivers the HMAC of RFC 2104, whatever the array held before, if and only if the key is at most one
      block long.  RFC 2104 would hash a longer key first. */
  lemma DeliversHmac(key: seq<byte>, msg: seq<byte>)
    requires 8 * |key| < TWO_64 && 8 * (BLOCK + |msg|) < TWO_64
    ensures (forall o :: |o| >= 32 ==> Written(o, key, msg)[..32] == Hmac(key, msg)) <==> |key| <= BLOCK
  {
    var d := Hmac(key, msg);
    if |key| <= BLOCK {
      forall o | |o| >= 32
        ensures Written(o, key, msg)[..32] == d
      {
        SpliceOver(o, 0, d, d);
      }
    } else {
      var o := [if d[0] == 0 then 1 else 0] + d[1..];
      assert |o| == 32 && Written(o, key, msg)[..32] == o;
      assert o[0] != d[0];
    }
  }

  /** With a longer key the output array is as it was, and for some old content that is not the HMAC. */
  lemma LongKeyLeavesOutput(key: seq<byte>, msg: seq<byte>)
    requires BLOCK < |key| && 8 * |key| < TWO_64 && 8 * (BLOCK + |msg|) < TWO_64
    ensures forall o :: |o| >= 32 ==> Written(o, key, msg) == o
    ensures exists o :: |o| >= 32 && Written(o, key, msg)[..32] != Hmac(key, msg)
  {
    DeliversHmac(key, msg);
  }

  /** For one, with a key of 65 zero bytes and an empty message. */
  lemma LongKeyExample()
    ensures exists o :: |o| >= 32 && Written(o, Zeros(65), [])[..32] != Hmac(Zeros(65), [])
  {
    LongKeyLeavesOutput(Zeros(65), []);
  }
}
