/** What a streaming context means, and why the way a message is cut into chunks does not matter. */
module Streaming {
  import opened Words
  import opened Padding

  type Block = b: seq<byte> | |b| == 64 witness seq(64, _ => 0)

  /** The chaining value after all the whole blocks of m: section 6.2 of FIPS 180-4, with the compression function as a
      parameter. */
  function Fold<S>(f: (S, Block) -> S, h: S, m: seq<byte>): S
    decreases |m|
  {
    if |m| < 64 then h else Fold(f, f(h, m[..64]), m[64..])
  }

  /** The bytes of m after its whole blocks. */
  function Rest(m: seq<byte>): (r: seq<byte>)
    ensures |r| == |m| % 64
    decreases |m|
  {
    if |m| < 64 then m else Rest(m[64..])
  }

  /** The meaning of an `iot_sha256_context`: the 64-bit byte counter, the chaining value and the bytes absorbed but not
      yet compressed. */
  datatype Ctx<S> = Ctx(count: nat, state: S, tail: seq<byte>)

  ghost predicate WellFormed<S>(c: Ctx<S>) {
    c.count < TWO_64 && |c.tail| == c.count % 64
  }

  function Start<S>(h: S): (c: Ctx<S>)
    ensures WellFormed(c)
  {
    Ctx(0, h, [])
  }

  /** Absorbing m: every whole block of the pending bytes followed by m is compressed, the rest stays pending. */
  function Absorb<S>(f: (S, Block) -> S, c: Ctx<S>, m: seq<byte>): (r: Ctx<S>)
    requires WellFormed(c)
    ensures WellFormed(r)
  {
    CountMod(c.count, |m|);
    Ctx((c.count + |m|) % TWO_64, Fold(f, c.state, c.tail + m), Rest(c.tail + m))
  }

  lemma CountMod(count: nat, n: nat)
    ensures (count + n) % TWO_64 % 64 == (count % 64 + n) % 64
  {
    Mod64(count + n);
  }

  lemma Mod64(n: nat)
    ensures n % TWO_64 % 64 == n % 64
    ensures (n + 0x2000_0000_0000_0000) % 64 == n % 64
  {
    assert n == 64 * (0x400_0000_0000_0000 * (n / TWO_64)) + n % TWO_64;
  }

  /** Absorbing a list of chunks, one update call each. */
  function AbsorbAll<S>(f: (S, Block) -> S, c: Ctx<S>, chunks: seq<seq<byte>>): (r: Ctx<S>)
    requires WellFormed(c)
    ensures WellFormed(r)
    decreases |chunks|
  {
    if chunks == [] then c else AbsorbAll(f, Absorb(f, c, chunks[0]), chunks[1..])
  }

  function Concat(chunks: seq<seq<byte>>): seq<byte> {
    if chunks == [] then [] else chunks[0] + Concat(chunks[1..])
  }

  /** Compressing a + b is compressing a, then what a left over followed by b. */
  lemma {:induction false} FoldSplit<S>(f: (S, Block) -> S, h: S, a: seq<byte>, b: seq<byte>)
    ensures Fold(f, h, a + b) == Fold(f, Fold(f, h, a), Rest(a) + b)
    ensures Rest(a + b) == Rest(Rest(a) + b)
    decreases |a|
  {
    if |a| >= 64 {
      assert (a + b)[..64] == a[..64];
      assert (a + b)[64..] == a[64..] + b;
      FoldSplit(f, f(h, a[..64]), a[64..], b);
    }
  }

  /** One block is one application of f, and a block in front of m is applied first. */
  lemma {:induction false} FoldOneBlock<S>(f: (S, Block) -> S, h: S, b: Block, m: seq<byte>)
    ensures Fold(f, h, b) == f(h, b)
    ensures Fold(f, h, b + m) == Fold(f, f(h, b), m)
    ensures |m| < 64 ==> Fold(f, h, m) == h
  {
    assert b[..64] == b && b[64..] == [];
    assert (b + m)[..64] == b && (b + m)[64..] == m;
  }

  lemma CountConcat(count: nat, a: nat, b: nat)
    ensures ((count + a) % TWO_64 + b) % TWO_64 == (count + (a + b)) % TWO_64
  {
  }

  /** Two updates in a row are one update with the concatenation, from any context. */
  lemma AbsorbConcat<S>(f: (S, Block) -> S, c: Ctx<S>, a: seq<byte>, b: seq<byte>)
    requires WellFormed(c)
    ensures Absorb(f, Absorb(f, c, a), b) == Absorb(f, c, a + b)
  {
    FoldSplit(f, c.state, c.tail + a, b);
    CountConcat(c.count, |a|, |b|);
    assert c.tail + a + b == c.tail + (a + b);
  }

  lemma AbsorbNothing<S>(f: (S, Block) -> S, c: Ctx<S>)
    requires WellFormed(c)
    ensures Absorb(f, c, []) == c
  {
    assert c.tail + [] == c.tail;
  }

  /** Only the concatenation of the chunks matters. */
  lemma {:induction false} ChunkingIrrelevant<S>(f: (S, Block) -> S, c: Ctx<S>, chunks: seq<seq<byte>>)
    requires WellFormed(c)
    ensures AbsorbAll(f, c, chunks) == Absorb(f, c, Concat(chunks))
    decreases |chunks|
  {
    if chunks == [] {
      AbsorbNothing(f, c);
    } else {
      ChunkingIrrelevant(f, Absorb(f, c, chunks[0]), chunks[1..]);
      AbsorbConcat(f, c, chunks[0], Concat(chunks[1..]));
    }
  }

  // ----- finish -----

  /** The number of padding bytes `utils_sha256_finish` asks for. */
  function PadCount(count: nat): (n: nat)
    ensures 1 <= n <= 64
    ensures (count + n) % 64 == 56
  {
    var last := count % 64;
    assert count == 64 * (count / 64) + last;
    if last < 56 then
      assert count + (56 - last) == 64 * (count / 64) + 56;
      56 - last
    else
      assert count + (120 - last) == 64 * (count / 64 + 1) + 56;
      120 - last
  }

  /** The message length in bits as far as the two counter words can hold it. */
  function BitLength(count: nat): nat {
    8 * count % TWO_64
  }

  /** What finish absorbs: the padding bytes, then eight times the counter as a 64-bit number. */
  function Closing(count: nat): seq<byte> {
    [0x80] + Zeros(PadCount(count) - 1) + BeBytes(BitLength(count), 8)
  }

  /** The context after finish's two internal updates. */
  function Finished<S>(f: (S, Block) -> S, c: Ctx<S>): (r: Ctx<S>)
    requires WellFormed(c)
    ensures WellFormed(r)
  {
    Absorb(f, c, Closing(c.count))
  }

  /** Finish leaves no byte unabsorbed. */
  lemma FinishedIsAligned<S>(f: (S, Block) -> S, c: Ctx<S>)
    requires WellFormed(c)
    ensures Finished(f, c).tail == []
  {
    ClosingLength(c.count, c.count % 64);
  }

  lemma ClosingLength(count: nat, k: nat)
    requires k == count % 64
    ensures (k + |Closing(count)|) % 64 == 0
  {
    assert |Closing(count)| == PadCount(count) + 8;
    assert count == 64 * (count / 64) + k;
    assert (k + PadCount(count)) % 64 == 56;
  }

  /** The bytes finish adds are the padding of section 5.1.1. */
  lemma ClosingIsPadding(m: seq<byte>)
    requires 8 * |m| < TWO_64
    ensures m + Closing(|m|) == Pad(m)
  {
    PadCountIsPadZeros(|m|);
    BitLengthExact(|m|);
  }

  lemma BitLengthExact(n: nat)
    requires 8 * n < TWO_64
    ensures BitLength(n) == 8 * n
  {
  }

  lemma PadCountIsPadZeros(n: nat)
    ensures PadCount(n) - 1 == PadZeros(n)
  {
  }

  /** Absorbing a message shorter than 2^61 bytes and finishing reaches the chaining value of the padded message. */
  lemma AbsorbThenFinish<S>(f: (S, Block) -> S, h: S, m: seq<byte>)
    requires 8 * |m| < TWO_64
    ensures Finished(f, Absorb(f, Start(h), m)).state == Fold(f, h, Pad(m))
  {
    assert (0 + |m|) % TWO_64 == |m|;
    ClosingIsPadding(m);
    AbsorbConcat(f, Start(h), m, Closing(|m|));
    assert [] + Pad(m) == Pad(m);
  }

  /** Starting, absorbing any chunks and finishing gives what one pass over the padded concatenation gives. */
  lemma {:induction false} StreamingIsOneShot<S>(f: (S, Block) -> S, h: S, chunks: seq<seq<byte>>)
    requires 8 * |Concat(chunks)| < TWO_64
    ensures Finished(f, AbsorbAll(f, Start(h), chunks)).state == Fold(f, h, Pad(Concat(chunks)))
  {
    ChunkingIrrelevant(f, Start(h), chunks);
    AbsorbThenFinish(f, h, Concat(chunks));
  }

  /** Where the counter ends: 2^61 bytes.  From there on finish writes the bit length modulo 2^64, and a message that is
      2^61 bytes longer is closed by the same bytes. */
  lemma ClosingWraps(count: nat)
    ensures Closing(count % TWO_64) == Closing(count)
    ensures Closing(count + 0x2000_0000_0000_0000) == Closing(count)
  {
    BitLengthMod(count);
    BitLengthPeriod(count);
    Mod64(count);
    PadCountMod(count % TWO_64, count);
    PadCountMod(count + 0x2000_0000_0000_0000, count);
  }

  lemma BitLengthMod(n: nat)
    ensures BitLength(n % TWO_64) == BitLength(n)
  {
    var q, r := n / TWO_64, n % TWO_64;
    assert n == TWO_64 * q + r;
    assert 8 * n == TWO_64 * (8 * q) + 8 * r;
  }

  lemma BitLengthPeriod(n: nat)
    ensures BitLength(n + 0x2000_0000_0000_0000) == BitLength(n)
  {
    assert 8 * (n + 0x2000_0000_0000_0000) == 8 * n + TWO_64;
  }

  lemma PadCountMod(a: nat, b: nat)
    requires a % 64 == b % 64
    ensures PadCount(a) == PadCount(b)
  {
  }
}
