/** The counters of the context as the source computes with them: `t0 << 3`, `(t0 >> 29) | (t1 << 3)` and `t0 & 0x3F` on
    bits do what the functions of `Words` do on numbers.

    A word and a number are compared byte by byte, since eight bits are the widest vector that is read as a number here. */
module WordNumbers {
  import opened Words

  /** A byte's bits as a number. */
  function ByteOf(b: bv8): byte {
    b as byte
  }

  /** x is the word whose number is n: they have the same bytes. */
  ghost predicate Stands(x: word, n: uint32) {
    exists b3: bv8, b2: bv8, b1: bv8, b0: bv8 ::
      x == Pack(b3, b2, b1, b0) && PutNumberBE(n) == [ByteOf(b3), ByteOf(b2), ByteOf(b1), ByteOf(b0)]
  }

  lemma Digits(x: word, n: uint32) returns (b3: bv8, b2: bv8, b1: bv8, b0: bv8)
    requires Stands(x, n)
    ensures x == Pack(b3, b2, b1, b0) && PutNumberBE(n) == [ByteOf(b3), ByteOf(b2), ByteOf(b1), ByteOf(b0)]
  {
    b3, b2, b1, b0 :| x == Pack(b3, b2, b1, b0) && PutNumberBE(n) == [ByteOf(b3), ByteOf(b2), ByteOf(b1), ByteOf(b0)];
  }

  /** `t0 << 3` */
  function LowWord(t0: word): word {
    t0 << 3
  }

  /** `(t0 >> 29) | (t1 << 3)` */
  function HighWord(t0: word, t1: word): word {
    (t0 >> 29) | (t1 << 3)
  }

  /** `t0 & 0x3F` */
  function LowSix(t0: word): word {
    t0 & 0x3F
  }

  /** A byte shifted left by three, with the top three bits of the byte below it coming in. */
  function ShiftIn(b: bv8, c: bv8): bv8 {
    (b << 3) | (c >> 5)
  }

  lemma ShiftInParts(b: bv8, c: bv8)
    ensures (b << 3) as int == 8 * (b as int) % 0x100
    ensures (c >> 5) as int == c as int / 0x20
  {
  }

  lemma OrNumber(x: bv8, y: bv8)
    requires x & 7 == 0 && y < 8
    ensures (x | y) as int == x as int + y as int
  {
  }

  /** A base-256 digit of eight times a number: the digit's own share, and the carry from the digit below. */
  function TimesEight(d: byte, below: byte): byte {
    (8 * d as int % 0x100 + below as int / 0x20) as byte
  }

  lemma ShiftInNumber(b: bv8, c: bv8)
    ensures ShiftIn(b, c) as byte == TimesEight(b as byte, c as byte)
  {
    ShiftInParts(b, c);
    assert (b << 3) & 7 == 0 && (c >> 5) < 8;
    OrNumber(b << 3, c >> 5);
  }

  lemma UnpackBits(b3: bv8, b2: bv8, b1: bv8, b0: bv8)
    ensures var x := Pack(b3, b2, b1, b0);
    && ((x >> 24) & 0xFF) as bv8 == b3
    && ((x >> 16) & 0xFF) as bv8 == b2
    && ((x >> 8) & 0xFF) as bv8 == b1
    && (x & 0xFF) as bv8 == b0
  {
  }

  lemma UnpackPack(b3: bv8, b2: bv8, b1: bv8, b0: bv8)
    ensures PutBE(Pack(b3, b2, b1, b0)) == [b3 as byte, b2 as byte, b1 as byte, b0 as byte]
  {
    UnpackBits(b3, b2, b1, b0);
  }

  lemma LowBits6(b: bv8)
    ensures ByteOf(b & 0x3F) as int == ByteOf(b) as int % 64
  {
  }

  /** The number with the given base-256 digits has them. */
  lemma PutDigits(n: uint32, d3: nat, d2: nat, d1: nat, d0: nat)
    requires d3 < 0x100 && d2 < 0x100 && d1 < 0x100 && d0 < 0x100
    requires n as int == 0x100_0000 * d3 + 0x1_0000 * d2 + 0x100 * d1 + d0
    ensures PutNumberBE(n) == [d3 as byte, d2 as byte, d1 as byte, d0 as byte]
  {
    var m := n as int;
    assert m / 0x100_0000 == d3;
    assert m / 0x1_0000 == 0x100 * d3 + d2;
    assert m / 0x100 == 0x1_0000 * d3 + 0x100 * d2 + d1;
  }

  lemma DigitsOf(n: uint32)
    ensures var b := PutNumberBE(n);
            n as int == 0x100_0000 * (b[0] as int) + 0x1_0000 * (b[1] as int) + 0x100 * (b[2] as int) + b[3] as int
  {
    var m := n as int;
    var q1 := m / 0x100;
    var q2 := q1 / 0x100;
    assert m / 0x1_0000 == q2 && m / 0x100_0000 == q2 / 0x100;
  }

  lemma Carry(d: nat)
    requires d < 0x100
    ensures 8 * d == 0x100 * (d / 0x20) + 8 * d % 0x100
    ensures 8 * d % 0x100 <= 0xF8 && d / 0x20 < 8
  {
  }

  lemma EightTimesSum(n: nat, d3: nat, d2: nat, d1: nat, d0: nat)
    requires d3 < 0x100 && d2 < 0x100 && d1 < 0x100 && d0 < 0x100
    requires n == 0x100_0000 * d3 + 0x1_0000 * d2 + 0x100 * d1 + d0
    ensures 8 * n == 0x1_0000_0000 * (d3 / 0x20)
                     + 0x100_0000 * (8 * d3 % 0x100 + d2 / 0x20) + 0x1_0000 * (8 * d2 % 0x100 + d1 / 0x20)
                     + 0x100 * (8 * d1 % 0x100 + d0 / 0x20) + 8 * d0 % 0x100
  {
    Carry(d3);
    Carry(d2);
    Carry(d1);
    Carry(d0);
  }

  lemma Remainder32(x: nat, q: nat, r: nat)
    requires x == 0x1_0000_0000 * q + r && r < 0x1_0000_0000
    ensures x % 0x1_0000_0000 == r
  {
  }

  /** Eight times a number, digit by digit, modulo 2^32. */
  lemma EightTimesDigits(n: nat, d3: byte, d2: byte, d1: byte, d0: byte, below: byte)
    requires n == 0x100_0000 * d3 as int + 0x1_0000 * d2 as int + 0x100 * d1 as int + d0 as int
    ensures 8 * n % 0x1_0000_0000 + below as int / 0x20
         == 0x100_0000 * TimesEight(d3, d2) as int + 0x1_0000 * TimesEight(d2, d1) as int + 0x100 * TimesEight(d1, d0) as int
            + TimesEight(d0, below) as int
  {
    EightTimesSum(n, d3 as int, d2 as int, d1 as int, d0 as int);
    var m := 0x100_0000 * TimesEight(d3, d2) as int + 0x1_0000 * TimesEight(d2, d1) as int + 0x100 * TimesEight(d1, d0) as int
             + 8 * d0 as int % 0x100;
    Remainder32(8 * n, d3 as int / 0x20, m);
  }

  /** One byte of a word shifted left by three. */
  lemma ShiftOne(b: bv8, c: bv8) returns (e: bv8)
    ensures e == ShiftIn(b, c)
    ensures ByteOf(e) == TimesEight(ByteOf(b), ByteOf(c))
  {
    e := ShiftIn(b, c);
    ShiftInNumber(b, c);
  }

  // The bits of the shifted word, byte by byte: each side is written out before the two are compared.

  lemma ShiftedBits(b3: bv8, b2: bv8, b1: bv8, b0: bv8, below: bv8)
    ensures ((below as word << 24) >> 29)
            | (((b3 as word << 24) | (b2 as word << 16) | (b1 as word << 8) | b0 as word) << 3)
         == (((b3 << 3) | (b2 >> 5)) as word << 24) | (((b2 << 3) | (b1 >> 5)) as word << 16)
            | (((b1 << 3) | (b0 >> 5)) as word << 8) | ((b0 << 3) | (below >> 5)) as word
  {
  }

  lemma LowWordBits(b3: bv8, b2: bv8, b1: bv8, b0: bv8)
    ensures LowWord(Pack(b3, b2, b1, b0))
         == ((b3 as word << 24) | (b2 as word << 16) | (b1 as word << 8) | b0 as word) << 3
  {
  }

  lemma TopBits(b: bv8)
    ensures Pack(b, 0, 0, 0) >> 29 == (b as word << 24) >> 29
  {
  }

  lemma HighWordIs(x: word, y: word)
    ensures HighWord(x, y) == (x >> 29) | LowWord(y)
  {
  }

  lemma ShiftInBits(b3: bv8, b2: bv8, b1: bv8, b0: bv8, below: bv8)
    ensures Pack(ShiftIn(b3, b2), ShiftIn(b2, b1), ShiftIn(b1, b0), ShiftIn(b0, below))
         == (((b3 << 3) | (b2 >> 5)) as word << 24) | (((b2 << 3) | (b1 >> 5)) as word << 16)
            | (((b1 << 3) | (b0 >> 5)) as word << 8) | ((b0 << 3) | (below >> 5)) as word
  {
  }

  lemma HighBytes(b3: bv8, b2: bv8, b1: bv8, b0: bv8, below: bv8)
    ensures HighWord(Pack(below, 0, 0, 0), Pack(b3, b2, b1, b0))
         == Pack(ShiftIn(b3, b2), ShiftIn(b2, b1), ShiftIn(b1, b0), ShiftIn(b0, below))
  {
    ShiftedBits(b3, b2, b1, b0, below);
    LowWordBits(b3, b2, b1, b0);
    TopBits(below);
    HighWordIs(Pack(below, 0, 0, 0), Pack(b3, b2, b1, b0));
    ShiftInBits(b3, b2, b1, b0, below);
  }

  /** The bytes of a word shifted left by three, with the top three bits of another byte coming in. */
  lemma ShiftWord(b3: bv8, b2: bv8, b1: bv8, b0: bv8, below: bv8) returns (e3: bv8, e2: bv8, e1: bv8, e0: bv8)
    ensures ByteOf(e3) == TimesEight(ByteOf(b3), ByteOf(b2)) && ByteOf(e2) == TimesEight(ByteOf(b2), ByteOf(b1))
    ensures ByteOf(e1) == TimesEight(ByteOf(b1), ByteOf(b0)) && ByteOf(e0) == TimesEight(ByteOf(b0), ByteOf(below))
    ensures Pack(e3, e2, e1, e0) == HighWord(Pack(below, 0, 0, 0), Pack(b3, b2, b1, b0))
  {
    e3 := ShiftOne(b3, b2);
    e2 := ShiftOne(b2, b1);
    e1 := ShiftOne(b1, b0);
    e0 := ShiftOne(b0, below);
    HighBytes(b3, b2, b1, b0, below);
  }

  lemma ShiftDigits(t: uint32, m: uint32, below: byte)
    requires m as int == 8 * t as int % 0x1_0000_0000 + below as int / 0x20
    ensures var b := PutNumberBE(t);
            PutNumberBE(m) == [TimesEight(b[0], b[1]), TimesEight(b[1], b[2]), TimesEight(b[2], b[3]), TimesEight(b[3], below)]
  {
    var b := PutNumberBE(t);
    DigitsOf(t);
    EightTimesDigits(t as int, b[0], b[1], b[2], b[3], below);
    PutDigits(m, TimesEight(b[0], b[1]) as int, TimesEight(b[1], b[2]) as int, TimesEight(b[2], b[3]) as int,
              TimesEight(b[3], below) as int);
  }

  /** A word of shifted bytes stands for the number times eight, plus what comes in. */
  lemma Shifted(t: uint32, m: uint32, b3: bv8, b2: bv8, b1: bv8, b0: bv8, below: bv8, x: word)
    requires PutNumberBE(t) == [ByteOf(b3), ByteOf(b2), ByteOf(b1), ByteOf(b0)]
    requires m as int == 8 * t as int % 0x1_0000_0000 + ByteOf(below) as int / 0x20
    requires x == HighWord(Pack(below, 0, 0, 0), Pack(b3, b2, b1, b0))
    ensures Stands(x, m)
  {
    var e3, e2, e1, e0 := ShiftWord(b3, b2, b1, b0, below);
    ShiftDigits(t, m, ByteOf(below));
    assert PutNumberBE(m) == [ByteOf(e3), ByteOf(e2), ByteOf(e1), ByteOf(e0)];
  }

  /** PUT_UINT32_BE puts the same four bytes into memory for both. */
  lemma StandsPutsSame(x: word, n: uint32)
    requires Stands(x, n)
    ensures PutBE(x) == PutNumberBE(n)
  {
    var b3, b2, b1, b0 := Digits(x, n);
    UnpackPack(b3, b2, b1, b0);
  }

  lemma OneMore(c: bv8)
    requires c != 0xFF
    ensures ByteOf(c + 1) as int == ByteOf(c) as int + 1
  {
  }

  /** Every byte has its bits. */
  lemma {:induction false} BitsOf(b: byte) returns (c: bv8)
    ensures ByteOf(c) == b
    decreases b as int
  {
    c := 0;
    ZeroByte();
    if b != 0 {
      c := BitsOf(b - 1);
      AllBits();
      OneMore(c);
      c := c + 1;
    }
  }

  lemma AllBits()
    ensures ByteOf(0xFF) == 0xFF
  {
  }

  lemma SameBytesSameNumber(n: uint32, m: uint32)
    requires PutNumberBE(n) == PutNumberBE(m)
    ensures n == m
  {
    DigitsOf(n);
    DigitsOf(m);
  }

  lemma SameBytesSameWord(x: word, y: word)
    requires PutBE(x) == PutBE(y)
    ensures x == y
  {
    GetOfPut(x);
    GetOfPut(y);
  }

  /** Equal words have equal numbers and the other way round. */
  lemma StandsIsOneToOne(x: word, y: word, n: uint32, m: uint32)
    requires Stands(x, n) && Stands(y, m)
    ensures x == y <==> n == m
  {
    StandsPutsSame(x, n);
    StandsPutsSame(y, m);
    if n == m {
      SameBytesSameWord(x, y);
    } else if x == y {
      SameBytesSameNumber(n, m);
    }
  }

  /** Every number has a word. */
  lemma EveryNumber(n: uint32) returns (x: word)
    ensures Stands(x, n)
  {
    var b := PutNumberBE(n);
    var b3 := BitsOf(b[0]);
    var b2 := BitsOf(b[1]);
    var b1 := BitsOf(b[2]);
    var b0 := BitsOf(b[3]);
    x := Pack(b3, b2, b1, b0);
  }

  lemma ShiftNothingIn(b3: bv8, b2: bv8, b1: bv8, b0: bv8)
    ensures LowWord(Pack(b3, b2, b1, b0)) == HighWord(Pack(0, 0, 0, 0), Pack(b3, b2, b1, b0))
  {
  }

  lemma LowNumber(t: uint32)
    ensures LowLength(t) as int == 8 * t as int % 0x1_0000_0000 + ByteOf(0) as int / 0x20
  {
    ZeroByte();
  }

  lemma ZeroByte()
    ensures ByteOf(0) == 0
  {
  }

  /** `t0 << 3` is LowLength, for every counter. */
  lemma LowLengthBits(x: word, t: uint32)
    requires Stands(x, t)
    ensures Stands(LowWord(x), LowLength(t))
  {
    var b3, b2, b1, b0 := Digits(x, t);
    ShiftNothingIn(b3, b2, b1, b0);
    LowNumber(t);
    Shifted(t, LowLength(t), b3, b2, b1, b0, 0, LowWord(x));
  }

  lemma ShiftTopIn(a3: bv8, a2: bv8, a1: bv8, a0: bv8, b3: bv8, b2: bv8, b1: bv8, b0: bv8)
    ensures HighWord(Pack(a3, a2, a1, a0), Pack(b3, b2, b1, b0)) == HighWord(Pack(a3, 0, 0, 0), Pack(b3, b2, b1, b0))
  {
  }

  lemma HighNumber(t0: uint32, t1: uint32, a3: bv8)
    requires PutNumberBE(t0)[0] == ByteOf(a3)
    ensures HighLength(t0, t1) as int == 8 * t1 as int % 0x1_0000_0000 + ByteOf(a3) as int / 0x20
  {
    TopDigit(t0);
  }

  /** `(t0 >> 29) | (t1 << 3)` is HighLength. */
  lemma HighLengthBits(x: word, y: word, t0: uint32, t1: uint32)
    requires Stands(x, t0) && Stands(y, t1)
    ensures Stands(HighWord(x, y), HighLength(t0, t1))
  {
    var a3, a2, a1, a0 := Digits(x, t0);
    var b3, b2, b1, b0 := Digits(y, t1);
    ShiftTopIn(a3, a2, a1, a0, b3, b2, b1, b0);
    HighNumber(t0, t1, a3);
    Shifted(t1, HighLength(t0, t1), b3, b2, b1, b0, a3, HighWord(x, y));
  }

  lemma TopDigit(n: uint32)
    ensures n as int / 0x2000_0000 == PutNumberBE(n)[0] as int / 0x20
  {
  }

  lemma LowBits(b3: bv8, b2: bv8, b1: bv8, b0: bv8)
    ensures LowSix(Pack(b3, b2, b1, b0)) == Pack(0, 0, 0, b0 & 0x3F)
  {
  }

  lemma LowDigit(n: uint32)
    ensures PutNumberBE(n % 64) == [0, 0, 0, (PutNumberBE(n)[3] as int % 64) as byte]
  {
    var b := PutNumberBE(n);
    DigitsOf(n);
    assert n as int == 64 * (0x4_0000 * b[0] as int + 0x400 * b[1] as int + 4 * b[2] as int) + b[3] as int;
    assert n as int % 64 == b[3] as int % 64;
    PutDigits(n % 64, 0, 0, 0, b[3] as int % 64);
  }

  /** `t & 0x3F` is the remainder by 64. */
  lemma RemainderBits(x: word, t: uint32)
    requires Stands(x, t)
    ensures Stands(LowSix(x), t % 64)
  {
    var b3, b2, b1, b0 := Digits(x, t);
    LowBits(b3, b2, b1, b0);
    LowDigit(t);
    LowBits6(b0);
    ZeroByte();
    assert PutNumberBE(t % 64) == [ByteOf(0), ByteOf(0), ByteOf(0), ByteOf(b0 & 0x3F)];
  }
}
