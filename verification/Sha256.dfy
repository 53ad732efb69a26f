/** The streaming SHA-256 of `aiot_mqtt_sign.c`, in place on a context. */
module Sha256 {
  import opened Words
  import opened Memory
  import opened Padding
  import opened Streaming
  import Spec = Sha256Spec

  // ----- the round macros, with SHR(x, n) and ROTR(x, n) expanded -----

  function S0(x: word): word {
    (((x & 0xFFFFFFFF) >> 7) | (x << 25)) ^ (((x & 0xFFFFFFFF) >> 18) | (x << 14)) ^ ((x & 0xFFFFFFFF) >> 3)
  }

  function S1(x: word): word {
    (((x & 0xFFFFFFFF) >> 17) | (x << 15)) ^ (((x & 0xFFFFFFFF) >> 19) | (x << 13)) ^ ((x & 0xFFFFFFFF) >> 10)
  }

  function S2(x: word): word {
    (((x & 0xFFFFFFFF) >> 2) | (x << 30)) ^ (((x & 0xFFFFFFFF) >> 13) | (x << 19)) ^ (((x & 0xFFFFFFFF) >> 22) | (x << 10))
  }

  function S3(x: word): word {
    (((x & 0xFFFFFFFF) >> 6) | (x << 26)) ^ (((x & 0xFFFFFFFF) >> 11) | (x << 21)) ^ (((x & 0xFFFFFFFF) >> 25) | (x << 7))
  }

  function F0(x: word, y: word, z: word): word { (x & y) | (z & (x | y)) }
  function F1(x: word, y: word, z: word): word { z ^ (x & (y ^ z)) }

  // Each macro is the function of section 4.1.2 it stands for; the bit-vector identity is spelled out in the body.

  lemma F0IsMaj(x: word, y: word, z: word)
    ensures F0(x, y, z) == Spec.Maj(x, y, z)
  {
    assert ((x & y) | (z & (x | y))) == (x & y) ^ (x & z) ^ (y & z);
  }

  lemma F1IsCh(x: word, y: word, z: word)
    ensures F1(x, y, z) == Spec.Ch(x, y, z)
  {
    assert z ^ (x & (y ^ z)) == (x & y) ^ (!x & z);
  }

  lemma S0IsSigma(x: word)
    ensures S0(x) == Spec.SmallSigma0(x)
  {
  }

  lemma S1IsSigma(x: word)
    ensures S1(x) == Spec.SmallSigma1(x)
  {
  }

  lemma S2IsSigma(x: word)
    ensures S2(x) == Spec.BigSigma0(x)
  {
  }

  lemma S3IsSigma(x: word)
    ensures S3(x) == Spec.BigSigma1(x)
  {
  }

  // ----- one round -----

  /** The two sums of the macro P. */
  function Temp1(e: word, f: word, g: word, h: word, k: word, x: word): word {
    Add(Add(Add(Add(h, S3(e)), F1(e, f, g)), k), x)
  }

  function Temp2(a: word, b: word, c: word): word {
    Add(S2(a), F0(a, b, c))
  }

  lemma Temp1IsT1(e: word, f: word, g: word, h: word, k: word, x: word)
    ensures Temp1(e, f, g, h, k, x) == Spec.T1(e, f, g, h, k, x)
  {
    S3IsSigma(e);
    F1IsCh(e, f, g);
  }

  lemma Temp2IsT2(a: word, b: word, c: word)
    ensures Temp2(a, b, c) == Spec.T2(a, b, c)
  {
    S2IsSigma(a);
    F0IsMaj(a, b, c);
  }

  /** The assignments of the macro P. */
  method Mix(a: array<word>, temp1: word, temp2: word)
    requires a.Length == 8
    modifies a
    ensures a[..] == old(a[..])[3 := Add(old(a[3]), temp1)][7 := Add(temp1, temp2)]
  {
    a[3] := Add(a[3], temp1);
    a[7] := Add(temp1, temp2);
  }

  /** The rotation that ends a round. */
  method Rotate(a: array<word>)
    requires a.Length == 8
    modifies a
    ensures a[..] == [old(a[7])] + old(a[..7])
  {
    ghost var o := a[..];
    var temp1 := a[7];
    a[7] := a[6];
    a[6] := a[5];
    a[5] := a[4];
    a[4] := a[3];
    a[3] := a[2];
    a[2] := a[1];
    a[1] := a[0];
    a[0] := temp1;
    assert a[0] == o[7] && a[1] == o[0] && a[2] == o[1] && a[3] == o[2];
    assert a[4] == o[3] && a[5] == o[4] && a[6] == o[5] && a[7] == o[6];
  }

  lemma RoundIsMixAndRotate(v: seq<word>, k: word, x: word, t1: word, t2: word)
    requires |v| == 8
    requires t1 == Spec.T1(v[4], v[5], v[6], v[7], k, x) && t2 == Spec.T2(v[0], v[1], v[2])
    ensures Spec.Round(v, k, x) == var m := v[3 := Add(v[3], t1)][7 := Add(t1, t2)]; [m[7]] + m[..7]
  {
  }

  method RoundInPlace(a: array<word>, k: word, x: word)
    requires a.Length == 8
    modifies a
    ensures a[..] == Spec.Round(old(a[..]), k, x)
  {
    var temp1 := Temp1(a[4], a[5], a[6], a[7], k, x);
    var temp2 := Temp2(a[0], a[1], a[2]);
    Temp1IsT1(a[4], a[5], a[6], a[7], k, x);
    Temp2IsT2(a[0], a[1], a[2]);
    RoundIsMixAndRotate(a[..], k, x, temp1, temp2);
    Mix(a, temp1, temp2);
    Rotate(a);
  }

  /** The first statement of a round: W[i], from the block or by the macro R. */
  method ScheduleWord(w: array<word>, i: nat, data: array<byte>, from: nat)
    requires w.Length == 64 && i < 64 && from + 64 <= data.Length && w as object != data
    requires forall t :: 0 <= t < i ==> w[t] == Spec.W(data[from..from + 64], t)
    modifies w
    ensures forall t :: 0 <= t <= i ==> w[t] == Spec.W(data[from..from + 64], t)
  {
    ghost var block := data[from..from + 64];
    var x: word;
    if i < 16 {
      var k := from + 4 * i;
      assert data[k] == block[4 * i] && data[k + 1] == block[4 * i + 1];
      assert data[k + 2] == block[4 * i + 2] && data[k + 3] == block[4 * i + 3];
      x := GetBE(data[k], data[k + 1], data[k + 2], data[k + 3]);
    } else {
      S1IsSigma(w[i - 2]);
      S0IsSigma(w[i - 15]);
      x := Add(Add(Add(S1(w[i - 2]), w[i - 7]), S0(w[i - 15])), w[i - 16]);
    }
    assert x == Spec.W(block, i);
    w[i] := x;
  }

  /** The main loop of process. */
  method AllRounds(a: array<word>, data: array<byte>, from: nat)
    requires a.Length == 8 && from + 64 <= data.Length && a as object != data
    modifies a
    ensures a[..] == Spec.Rounds(old(a[..]), data[from..from + 64], 64)
  {
    ghost var h, block := a[..], data[from..from + 64];
    var w := new word[64];
    for i := 0 to 64
      invariant a[..] == Spec.Rounds(h, block, i)
      invariant forall t :: 0 <= t < i ==> w[t] == Spec.W(block, t)
      invariant data[from..from + 64] == block
    {
      ScheduleWord(w, i, data, from);
      RoundInPlace(a, Spec.K(i), w[i]);
    }
  }

  /** The last loop of process. */
  method AddInPlace(h: array<word>, a: array<word>)
    requires h.Length == a.Length && h != a
    modifies h
    ensures h[..] == Spec.AddWords(old(h[..]), a[..])
  {
    for i := 0 to h.Length
      invariant forall j :: 0 <= j < i ==> h[j] == Add(old(h[j]), a[j])
      invariant forall j :: i <= j < h.Length ==> h[j] == old(h[j])
    {
      h[i] := Add(h[i], a[i]);
    }
  }

  // ----- the context -----

  ghost predicate IsCompress(f: (Spec.State, Block) -> Spec.State) {
    forall h: Spec.State, block: Block {:trigger Spec.Compress(h, block)} :: f(h, block) == Spec.Compress(h, block)
  }

  /** `iot_sha256_context`. */
  class Context {
    /** The compression function.  `Valid` ties it to the standard's; only `Process` needs to know more than its name. */
    ghost const compress: (Spec.State, Block) -> Spec.State

    const total: array<uint32>
    const state: array<word>
    const buffer: array<byte>

    ghost predicate Valid()
      reads this
    {
      && total.Length == 2 && state.Length == 8 && buffer.Length == 64
      && total as object != state && total as object != buffer && state as object != buffer
      && IsCompress(compress)
    }

    /** The array is not one of the context's own fields. */
    ghost predicate Apart(a: array<byte>)
      reads this
    {
      a != buffer && a as object != total && a as object != state
    }

    /** The number of bytes absorbed so far, modulo 2^64. */
    ghost function Count(): nat
      requires Valid()
      reads this, total
    {
      TWO_32 * total[1] as nat + total[0] as nat
    }

    /** The meaning of the fields; the rest of the buffer is left over from earlier blocks. */
    ghost function Abs(): (c: Ctx<Spec.State>)
      requires Valid()
      reads this, total, state, buffer
      ensures WellFormed(c)
    {
      LowBits(total[0], total[1]);
      Ctx(Count(), state[..], buffer[..total[0] as nat % 64])
    }

    /** utils_sha256_init: a context whose fields are all zero. */
    constructor ()
      ensures Valid() && fresh(total) && fresh(state) && fresh(buffer)
      ensures Abs() == Start<Spec.State>(seq(8, _ => 0))
    {
      compress := Spec.Compress;
      total := new uint32[2](_ => 0);
      state := new word[8](_ => 0);
      buffer := new byte[64](_ => 0);
      new;
      assert state[..] == seq(8, _ => 0);
    }

    /** utils_sha256_starts */
    method Starts()
      requires Valid()
      modifies total, state
      ensures Abs() == Start<Spec.State>(Spec.H0)
    {
      total[0], total[1] := 0, 0;
      state[0] := 0x6A09E667;
      state[1] := 0xBB67AE85;
      state[2] := 0x3C6EF372;
      state[3] := 0xA54FF53A;
      state[4] := 0x510E527F;
      state[5] := 0x9B05688C;
      state[6] := 0x1F83D9AB;
      state[7] := 0x5BE0CD19;
      assert state[..] == Spec.H0;
    }

    /** utils_sha256_process: one pass over the rounds, with the schedule word computed in the round that uses it, the
        working variables updated in place and then rotated. */
    method Process(data: array<byte>, from: nat)
      requires Valid() && from + 64 <= data.Length && data as object != state
      modifies state
      ensures state[..] == compress(old(state[..]), data[from..from + 64])
    {
      ghost var block: Block := data[from..from + 64];
      ghost var h: Spec.State := state[..];
      var a := new word[8];
      Memcpy(a, 0, state, 0, 8);
      assert a[..] == h;
      AllRounds(a, data, from);
      AddInPlace(state, a);
      assert state[..] == Spec.Compress(h, block);
    }

    /** The 64-bit counter, kept in two words. */
    method CountBytes(ilen: uint32)
      requires Valid()
      modifies total
      ensures Count() == (old(Count()) + ilen as nat) % TWO_64
      ensures total[0] as nat % 64 == (old(total[0]) as nat % 64 + ilen as nat) % 64
    {
      CountUp(total[0], total[1], ilen);
      total[0] := ((total[0] as int + ilen as int) % 0x1_0000_0000) as uint32;
      if total[0] < ilen {
        total[1] := ((total[1] as int + 1) % 0x1_0000_0000) as uint32;
      }
    }

    /** The loop of update: whole blocks of input[from..from + ilen] are compressed where they lie; returns where the
        rest begins. */
    method WholeBlocks(input: array<byte>, from: nat, ilen: nat) returns (at: nat)
      requires Valid() && from + ilen <= input.Length && Apart(input)
      modifies state
      ensures from <= at <= from + ilen
      ensures input[at..from + ilen] == Rest(input[from..from + ilen])
      ensures state[..] == Fold<Spec.State>(compress, old(state[..]), input[from..from + ilen])
    {
      ghost var h: Spec.State, d := state[..], input[from..from + ilen];
      var n := ilen;
      at := from;
      while n >= 64
        invariant from <= at && at + n == from + ilen
        invariant Rest(input[at..at + n]) == Rest(d)
        invariant Fold<Spec.State>(compress, state[..], input[at..at + n]) == Fold<Spec.State>(compress, h, d)
      {
        ghost var e := input[at..at + n];
        assert e[..64] == input[at..at + 64] && e[64..] == input[at + 64..at + n];
        Process(input, at);
        at, n := at + 64, n - 64;
      }
    }

    /** The branch of update that completes the pending block and compresses it. */
    method CompleteBlock(input: array<byte>, from: nat, left: nat, fill: nat)
      requires Valid() && from + fill <= input.Length && Apart(input) && left + fill == 64
      modifies state, buffer
      ensures state[..] == compress(old(state[..]), old(buffer[..left]) + input[from..from + fill])
    {
      Memcpy(buffer, left, input, from, fill);
      assert buffer[0..64] == old(buffer[..left]) + input[from..from + fill];
      Process(buffer, 0);
    }

    /** The part of update that moves bytes: with s the `left` bytes in the buffer followed by the input, the whole
        blocks of s go into the state and the rest ends up in the buffer. */
    method AbsorbBytes(input: array<byte>, from: nat, ilen: nat, left: nat, ghost s: seq<byte>)
      requires Valid() && from + ilen <= input.Length && Apart(input) && left < 64
      requires s == buffer[..left] + input[from..from + ilen]
      modifies state, buffer
      ensures state[..] == Fold<Spec.State>(compress, old(state[..]), s)
      ensures buffer[..|Rest(s)|] == Rest(s)
    {
      var fill := 64 - left;
      var at, n, kept := from, ilen, left;
      ghost var t := s;
      if left != 0 && n >= fill {
        CutConcat(buffer[..left], input[at..at + n], fill);
        SliceOfSlice(input[..], at, n, 0, fill);
        SliceOfSlice(input[..], at, n, fill, n);
        CompleteBlock(input, at, left, fill);
        at, n, kept, t := at + fill, n - fill, 0, s[64..];
      }
      assert t == buffer[..kept] + input[at..at + n];
      AbsorbRest(input, at, n, kept, t);
    }

    /** The loop of update and what follows it: either nothing is pending, or the input is too short for a block. */
    method AbsorbRest(input: array<byte>, from: nat, ilen: nat, left: nat, ghost s: seq<byte>)
      requires Valid() && from + ilen <= input.Length && Apart(input) && left < 64
      requires left != 0 ==> left + ilen < 64
      requires s == buffer[..left] + input[from..from + ilen]
      modifies state, buffer
      ensures state[..] == Fold<Spec.State>(compress, old(state[..]), s)
      ensures buffer[..|Rest(s)|] == Rest(s)
    {
      ghost var b := buffer[..];
      var at := WholeBlocks(input, from, ilen);
      var n := from + ilen - at;
      if left == 0 {
        assert s == input[from..from + ilen];
      } else {
        assert |s| < 64 && Rest(s) == s;
        assert state[..] == old(state[..]) == Fold<Spec.State>(compress, old(state[..]), s);
      }
      assert Rest(s) == b[..left] + input[at..at + n];
      SplicePrefix(b, left, input[at..at + n]);
      if n > 0 {
        Memcpy(buffer, left, input, at, n);
      }
    }

    /** utils_sha256_update: absorb input[from..from + ilen]. */
    method Update(input: array<byte>, from: nat, ilen: uint32)
      requires Valid() && from + ilen as nat <= input.Length && Apart(input)
      modifies total, state, buffer
      ensures Abs() == Absorb(compress, old(Abs()), input[from..from + ilen as nat])
    {
      ghost var c := Abs();
      ghost var m := input[from..from + ilen as nat];
      if ilen == 0 {
        AbsorbNothing(compress, c);
        assert m == [];
        return;
      }
      var left := total[0] as nat % 64;
      CountBytes(ilen);
      AbsorbBytes(input, from, ilen as nat, left, c.tail + m);
    }

    /** The two updates inside finish. */
    method Close(padn: uint32, msglen: array<byte>)
      requires Valid() && Apart(msglen) && msglen.Length == 8
      requires padn as nat == PadCount(Count())
      requires msglen[..] == BeBytes(BitLength(Count()), 8)
      modifies total, state, buffer
      ensures Abs() == Finished(compress, old(Abs()))
    {
      ghost var c := Abs();
      var padding := PaddingArray();
      Update(padding, 0, padn);
      assert msglen[0..8] == msglen[..];
      Update(msglen, 0, 8);
      AbsorbConcat(compress, c, padding[0..padn], msglen[0..8]);
    }

    /** utils_sha256_finish: absorb the padding, then the length; write the state to output. */
    method Finish(output: array<byte>)
      requires Valid() && output.Length >= 32 && Apart(output)
      modifies total, state, buffer, output
      ensures Abs() == Finished(compress, old(Abs()))
      ensures output[..] == Splice(old(output[..]), 0, Spec.DigestBytes(Abs().state))
    {
      var msglen := EncodeLength(total[0], total[1]);
      LowBits(total[0], total[1]);
      var last := total[0] as nat % 64;
      var padn := if last < 56 then 56 - last else 120 - last;
      Close(padn as uint32, msglen);
      PutState(state, output);
    }
  }

  /** The first lines of finish: the message length in bits as eight bytes. */
  method EncodeLength(t0: uint32, t1: uint32) returns (msglen: array<byte>)
    ensures fresh(msglen) && msglen.Length == 8
    ensures msglen[..] == BeBytes(BitLength(TWO_32 * t1 as nat + t0 as nat), 8)
  {
    msglen := new byte[8];
    var high, low := PutNumberBE(HighLength(t0, t1)), PutNumberBE(LowLength(t0));
    Store(msglen, 0, high);
    Store(msglen, 4, low);
    LengthField(t0, t1);
    assert msglen[..] == high + low;
  }

  /** `sha256_padding` */
  method PaddingArray() returns (padding: array<byte>)
    ensures fresh(padding) && padding.Length == 64
    ensures forall n :: 1 <= n <= 64 ==> padding[0..n] == [0x80] + Zeros(n - 1)
  {
    padding := new byte[64](i => if i == 0 then 0x80 else 0);
    forall n | 1 <= n <= 64
      ensures padding[0..n] == [0x80] + Zeros(n - 1)
    {
    }
  }

  /** The eight bytes finish writes are the 64-bit length field. */
  lemma LengthField(t0: uint32, t1: uint32)
    ensures PutNumberBE(HighLength(t0, t1)) + PutNumberBE(LowLength(t0))
         == BeBytes(BitLength(TWO_32 * t1 as nat + t0 as nat), 8)
  {
    LengthBytes(t0, t1);
  }

  lemma LowBits(t0: uint32, t1: uint32)
    ensures (TWO_32 * t1 as nat + t0 as nat) % 64 == t0 as nat % 64
  {
    assert TWO_32 * t1 as nat == 64 * (0x400_0000 * t1 as nat);
  }

  /** The carry into total[1]. */
  lemma CountUp(t0: uint32, t1: uint32, n: uint32)
    ensures var t0' := (t0 as nat + n as nat) % TWO_32;
            var t1' := if t0' < n as nat then (t1 as nat + 1) % TWO_32 else t1 as nat;
            && TWO_32 * t1' + t0' == (TWO_32 * t1 as nat + t0 as nat + n as nat) % TWO_64
            && t0' % 64 == (t0 as nat % 64 + n as nat) % 64
  {
    var s := t0 as nat + n as nat;
    assert s % TWO_32 == if s < TWO_32 then s else s - TWO_32;
    assert TWO_32 * t1 as nat + TWO_32 == TWO_32 * (t1 as nat + 1);
    assert TWO_32 == 64 * 0x400_0000;
  }

  lemma PutStep(o: seq<byte>, h: seq<word>, i: nat)
    requires i < |h| && 4 * |h| <= |o|
    ensures Splice(Splice(o, 0, Spec.DigestBytes(h[..i])), 4 * i, PutBE(h[i]))
         == Splice(o, 0, Spec.DigestBytes(h[..i + 1]))
  {
    assert h[..i + 1][..i] == h[..i];
    SpliceAppend(o, 0, Spec.DigestBytes(h[..i]), PutBE(h[i]));
  }

  /** The PUT_UINT32_BE lines that end finish. */
  method PutState(state: array<word>, output: array<byte>)
    requires state.Length == 8 && output.Length >= 32 && state as object != output
    modifies output
    ensures output[..] == Splice(old(output[..]), 0, Spec.DigestBytes(state[..]))
  {
    ghost var h, o := state[..], output[..];
    var i := 0;
    while i < 8
      invariant 0 <= i <= 8 && state[..] == h
      invariant output[..] == Splice(o, 0, Spec.DigestBytes(h[..i]))
    {
      PutStep(o, h, i);
      Store(output, 4 * i, PutBE(state[i]));
      i := i + 1;
    }
    assert h[..8] == h;
  }

  lemma {:induction false} FoldIsSpec(f: (Spec.State, Block) -> Spec.State, h: Spec.State, m: seq<byte>)
    requires IsCompress(f)
    ensures Fold(f, h, m) == Fold<Spec.State>(Spec.Compress, h, m)
    decreases |m|
  {
    if |m| >= 64 {
      assert f(h, m[..64]) == Spec.Compress(h, m[..64]);
      FoldIsSpec(f, f(h, m[..64]), m[64..]);
    }
  }

  /** init, starts, one update for each chunk and finish give SHA-256 of the concatenation, however it is cut. */
  lemma {:induction false} ChunkedIsSha256(f: (Spec.State, Block) -> Spec.State, chunks: seq<seq<byte>>)
    requires IsCompress(f) && 8 * |Concat(chunks)| < TWO_64
    ensures Spec.DigestBytes(Finished<Spec.State>(f, AbsorbAll(f, Start(Spec.H0), chunks)).state)
         == Spec.Sha256(Concat(chunks))
  {
    StreamingIsOneShot<Spec.State>(f, Spec.H0, chunks);
    FoldIsSpec(f, Spec.H0, Pad(Concat(chunks)));
  }

  /** utils_sha256 */
  method Sha256(input: array<byte>, ilen: uint32, output: array<byte>)
    requires ilen as nat <= input.Length && output.Length >= 32
    modifies output
    ensures output[..] == Splice(old(output[..]), 0, Spec.Sha256(old(input[..ilen])))
  {
    ghost var m := input[..ilen];
    var ctx := new Context();
    ctx.Starts();
    ctx.Update(input, 0, ilen);
    assert input[0..ilen] == m;
    ctx.Finish(output);
    AbsorbThenFinish<Spec.State>(ctx.compress, Spec.H0, m);
    FoldIsSpec(ctx.compress, Spec.H0, Pad(m));
  }
}
