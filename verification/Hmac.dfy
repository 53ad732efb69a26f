/** `utils_hmac_sha256` of `aiot_mqtt_sign.c`. */
module Hmac {
  import opened Words
  import opened Padding
  import opened Streaming
  import opened Memory
  import opened Sha256
  import Spec = HmacSpec
  import Sha256Spec

  /** One pass: init, starts, update with the pad, update with the text, finish. */
  method HashAfterPad(pad: array<byte>, text: array<byte>, n: uint32, output: array<byte>)
    requires pad.Length == 64 && n as nat <= text.Length && output.Length >= 32
    modifies output
    ensures output[..] == Splice(old(output[..]), 0, Sha256Spec.Sha256(old(pad[..]) + old(text[..n])))
  {
    ghost var p, t := pad[..], text[..n];
    var context := new Context();
    context.Starts();
    context.Update(pad, 0, 64);
    context.Update(text, 0, n);
    assert pad[0..64] == p && text[0..n] == t;
    AbsorbConcat<Sha256Spec.State>(context.compress, Start(Sha256Spec.H0), p, t);
    context.Finish(output);
    DigestIsSpec(context.compress, p + t);
  }

  lemma DigestIsSpec(f: (Sha256Spec.State, Block) -> Sha256Spec.State, m: seq<byte>)
    requires IsCompress(f) && 8 * |m| < TWO_64
    ensures Sha256Spec.DigestBytes(Finished<Sha256Spec.State>(f, Absorb(f, Start(Sha256Spec.H0), m)).state)
         == Sha256Spec.Sha256(m)
  {
    AbsorbThenFinish<Sha256Spec.State>(f, Sha256Spec.H0, m);
    FoldIsSpec(f, Sha256Spec.H0, Pad(m));
  }

  /** The lines that store the key in both pads and xor them. */
  method MakePads(key: array<byte>, keyLen: nat) returns (ipad: array<byte>, opad: array<byte>)
    requires keyLen <= 64 && keyLen <= key.Length
    ensures fresh(ipad) && fresh(opad) && ipad.Length == opad.Length == 64
    ensures ipad[..] == Spec.XorPad(Spec.BlockKey(key[..keyLen]), 0x36)
    ensures opad[..] == Spec.XorPad(Spec.BlockKey(key[..keyLen]), 0x5c)
  {
    ghost var k := Spec.BlockKey(key[..keyLen]);
    ipad := KeyBlock(key, keyLen);
    opad := KeyBlock(key, keyLen);
    for i := 0 to 64
      invariant forall j :: 0 <= j < i ==> ipad[j] == Spec.XorByte(k[j], 0x36) && opad[j] == Spec.XorByte(k[j], 0x5c)
      invariant forall j :: i <= j < 64 ==> ipad[j] == k[j] && opad[j] == k[j]
    {
      ipad[i] := Spec.XorByte(ipad[i], 0x36);
      opad[i] := Spec.XorByte(opad[i], 0x5c);
    }
  }

  /** memset, then memcpy of the key. */
  method KeyBlock(key: array<byte>, keyLen: nat) returns (pad: array<byte>)
    requires keyLen <= 64 && keyLen <= key.Length
    ensures fresh(pad) && pad.Length == 64
    ensures pad[..] == Spec.BlockKey(key[..keyLen])
  {
    pad := new byte[64];
    Memset(pad, 0, 0, 64);
    Memcpy(pad, 0, key, 0, keyLen);
    assert key[0..keyLen] == key[..keyLen];
  }

  /** utils_hmac_sha256 after its checks.  The inner digest is written to output and read back from there. */
  method HashTwice(msg: array<byte>, msgLen: uint32, key: array<byte>, keyLen: nat, output: array<byte>)
    requires msgLen as nat <= msg.Length && keyLen <= key.Length && keyLen <= 64 && output.Length >= 32
    modifies output
    ensures output[..] == Spec.Written(old(output[..]), old(key[..keyLen]), old(msg[..msgLen]))
  {
    ghost var o, k, m := output[..], Spec.BlockKey(key[..keyLen]), msg[..msgLen];
    ghost var inner := Sha256Spec.Sha256(Spec.XorPad(k, 0x36) + m);
    ghost var outer := Sha256Spec.Sha256(Spec.XorPad(k, 0x5c) + inner);
    var ipad, opad := MakePads(key, keyLen);
    HashAfterPad(ipad, msg, msgLen, output);
    SpliceOver(o, 0, inner, outer);
    assert output[..32] == inner;
    HashAfterPad(opad, output, 32, output);
  }

  /** utils_hmac_sha256.  For a key of at most 64 bytes the first 32 bytes of the output are the hash of the key xor 0x5c
      and the hash of the key xor 0x36 and the message. */
  method HmacSha256(msg: array?<byte>, msgLen: uint32, key: array?<byte>, keyLen: uint32, output: array?<byte>)
    requires msg != null ==> msgLen as nat <= msg.Length
    requires key != null ==> keyLen as nat <= key.Length
    requires output != null ==> output.Length >= 32
    modifies if output == null then {} else {output}
    ensures output != null && (msg == null || key == null) ==> output[..] == old(output[..])
    ensures output != null && msg != null && key != null ==>
              output[..] == Spec.Written(old(output[..]), old(key[..keyLen]), old(msg[..msgLen]))
    ensures output != null && msg != null && key != null && keyLen <= 64 ==>
              forall ipad: seq<byte>, opad: seq<byte> ::
                Spec.IsPad(ipad, old(key[..keyLen]), 0x36) && Spec.IsPad(opad, old(key[..keyLen]), 0x5c) ==>
                  output[..32] == Sha256Spec.Sha256(opad + Sha256Spec.Sha256(ipad + old(msg[..msgLen])))
  {
    if msg == null || key == null || output == null {
      return;
    }
    if keyLen > 64 {
      return;
    }
    ghost var o, k, m := output[..], key[..keyLen], msg[..msgLen];
    HashTwice(msg, msgLen, key, keyLen as nat, output);
    forall ipad: seq<byte>, opad: seq<byte> | Spec.IsPad(ipad, k, 0x36) && Spec.IsPad(opad, k, 0x5c)
      ensures output[..32] == Sha256Spec.Sha256(opad + Sha256Spec.Sha256(ipad + m))
    {
      Spec.WrittenInFull(o, k, m, ipad, opad);
    }
  }
}
