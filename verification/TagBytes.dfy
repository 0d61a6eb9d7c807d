/** The byte-order helpers of the protection-information writer and checker, on a little-endian host. */
module TagBytes {
  import opened Bits

  type Byte = x: nat | x < 256

  const U32: nat := 0x1_0000_0000

  /** The bytes of a 32-bit number, most significant first. */
  function BigEndian(v: nat): seq<Byte> {
    [v / 0x100_0000 % 256, v / 0x1_0000 % 256, v / 0x100 % 256, v % 256]
  }

  /** The number that four bytes stand for, most significant first. */
  function Big32(b3: Byte, b2: Byte, b1: Byte, b0: Byte): nat {
    0x100_0000 * (b3 as nat) + 0x1_0000 * (b2 as nat) + 0x100 * (b1 as nat) + (b0 as nat)
  }

  function Swap(v: nat): nat {
    Or(Or(Or(And(v / 0x100_0000, 0xff), And(v / 0x100, 0xff00)),
          And(Shl(v, 8, 32), 0xff_0000)),
       And(Shl(v, 24, 32), 0xff00_0000))
  }

  /** A 32-bit store and load of a little-endian machine. */
  function Store32(v: nat): seq<Byte> {
    [v % 256, v / 0x100 % 256, v / 0x1_0000 % 256, v / 0x100_0000 % 256]
  }

  function Load32(p0: Byte, p1: Byte, p2: Byte, p3: Byte): nat { Big32(p3, p2, p1, p0) }

  /** `__put_unaligned_be48` and `__get_unaligned_be48`. */
  function Put48(v: nat): seq<nat> {
    [And(v / 0x100_0000_0000, 0xff), And(v / 0x1_0000_0000, 0xff), And(v / 0x100_0000, 0xff),
     And(v / 0x1_0000, 0xff), And(v / 0x100, 0xff), And(v, 0xff)]
  }

  function Get48(p0: Byte, p1: Byte, p2: Byte, p3: Byte, p4: Byte, p5: Byte): nat {
    Or(Or(Or(Or(Or(Shl(p0, 40, 64), Shl(p1, 32, 64)), Shl(p2, 24, 64)), Shl(p3, 16, 32)), Shl(p4, 8, 32)), p5)
  }

  /** The bytes of a number are those of nothing else. */
  lemma DigitsOf(v: nat, b3: Byte, b2: Byte, b1: Byte, b0: Byte)
    requires v == Big32(b3, b2, b1, b0)
    ensures v < U32 && BigEndian(v) == [b3, b2, b1, b0]
  {
    var h2, h1 := 0x100 * (b3 as nat) + (b2 as nat), 0x1_0000 * (b3 as nat) + 0x100 * (b2 as nat) + (b1 as nat);
    ModUnique(v, 0x100, h1, b0);
    ModUnique(h1, 0x100, h2, b1);
    ModUnique(v, 0x1_0000, h2, 0x100 * (b1 as nat) + (b0 as nat));
    ModUnique(h2, 0x100, b3, b2);
    ModUnique(v, 0x100_0000, b3, 0x1_0000 * (b2 as nat) + 0x100 * (b1 as nat) + (b0 as nat));
  }

  lemma BigEndianBack(v: nat)
    requires v < U32
    ensures var b := BigEndian(v); Big32(b[0], b[1], b[2], b[3]) == v
  {
    var q1, r0 := v / 0x100, v % 0x100;
    var q2, r1 := q1 / 0x100, q1 % 0x100;
    var q3, r2 := q2 / 0x100, q2 % 0x100;
    assert q3 < 256 && v == Big32(q3, r2, r1, r0);
    DigitsOf(v, q3, r2, r1, r0);
  }

  /** Four bytes read as `v` exactly if they are its bytes. */
  lemma Big32Is(b3: Byte, b2: Byte, b1: Byte, b0: Byte, v: nat)
    requires v < U32
    ensures Big32(b3, b2, b1, b0) == v <==> [b3, b2, b1, b0] == BigEndian(v)
  {
    BigEndianBack(v);
    DigitsOf(Big32(b3, b2, b1, b0), b3, b2, b1, b0);
  }

  lemma SomePowers()
    ensures Pow2(8) == 0x100 && Pow2(16) == 0x1_0000 && Pow2(24) == 0x100_0000 && Pow2(32) == U32
    ensures Pow2(40) == 0x100_0000_0000 && Pow2(64) == 0x1_0000_0000_0000_0000
  {
    Pow2Values();
    Pow2Add(32, 8);
  }

  lemma ShiftedByOne(v: nat, b3: Byte, b2: Byte, b1: Byte, b0: Byte)
    requires v == Big32(b3, b2, b1, b0)
    ensures Shl(v, 8, 32) == 0x100_0000 * (b2 as nat) + 0x1_0000 * (b1 as nat) + 0x100 * (b0 as nat)
  {
    SomePowers();
    ModUnique(v * 0x100, U32, b3, 0x100_0000 * (b2 as nat) + 0x1_0000 * (b1 as nat) + 0x100 * (b0 as nat));
  }

  lemma ShiftedByThree(v: nat, b3: Byte, b2: Byte, b1: Byte, b0: Byte)
    requires v == Big32(b3, b2, b1, b0)
    ensures Shl(v, 24, 32) == 0x100_0000 * (b0 as nat)
  {
    SomePowers();
    var high := 0x1_0000 * (b3 as nat) + 0x100 * (b2 as nat) + (b1 as nat);
    ModUnique(v * 0x100_0000, U32, high, 0x100_0000 * (b0 as nat));
  }

  lemma SwapLowPart(v: nat, b3: Byte, b2: Byte, b1: Byte, b0: Byte)
    requires v == Big32(b3, b2, b1, b0)
    ensures And(v / 0x100_0000, 0xff) == b3
  {
    SomePowers();
    ModUnique(v, 0x100_0000, b3, 0x1_0000 * (b2 as nat) + 0x100 * (b1 as nat) + (b0 as nat));
    AndLowMask(b3, 8);
    ModUnique(b3, 0x100, 0, b3);
  }

  lemma SwapSecondPart(v: nat, b3: Byte, b2: Byte, b1: Byte, b0: Byte)
    requires v == Big32(b3, b2, b1, b0)
    ensures And(v / 0x100, 0xff00) == 0x100 * (b2 as nat)
  {
    SomePowers();
    var x := 0x1_0000 * (b3 as nat) + 0x100 * (b2 as nat) + (b1 as nat);
    ModUnique(v, 0x100, x, b0);
    AndField(x, 8, 16);
    ModUnique(x, 0x1_0000, b3, 0x100 * (b2 as nat) + (b1 as nat));
    ModUnique(x, 0x100, 0x100 * (b3 as nat) + (b2 as nat), b1);
  }

  lemma SwapThirdPart(v: nat, b3: Byte, b2: Byte, b1: Byte, b0: Byte)
    requires v == Big32(b3, b2, b1, b0)
    ensures And(Shl(v, 8, 32), 0xff_0000) == 0x1_0000 * (b1 as nat)
  {
    SomePowers();
    ShiftedByOne(v, b3, b2, b1, b0);
    var y := Shl(v, 8, 32);
    AndField(y, 16, 24);
    ModUnique(y, 0x100_0000, b2, 0x1_0000 * (b1 as nat) + 0x100 * (b0 as nat));
    ModUnique(y, 0x1_0000, 0x100 * (b2 as nat) + (b1 as nat), 0x100 * (b0 as nat));
  }

  lemma SwapHighPart(v: nat, b3: Byte, b2: Byte, b1: Byte, b0: Byte)
    requires v == Big32(b3, b2, b1, b0)
    ensures And(Shl(v, 24, 32), 0xff00_0000) == 0x100_0000 * (b0 as nat)
  {
    SomePowers();
    ShiftedByThree(v, b3, b2, b1, b0);
    var z := Shl(v, 24, 32);
    AndField(z, 24, 32);
    ModUnique(z, 0x100_0000, b0, 0);
    ModUnique(z, U32, 0, z);
  }

  lemma OrDigits(b3: Byte, b2: Byte, b1: Byte, b0: Byte)
    ensures Or(Or(Or(b3, 0x100 * (b2 as nat)), 0x1_0000 * (b1 as nat)), 0x100_0000 * (b0 as nat)) ==
      Big32(b0, b1, b2, b3)
  {
    SomePowers();
    OrShifted(b3, 0x100 * (b2 as nat), b2, 8, 0x100);
    var low := b3 + 0x100 * (b2 as nat);
    OrShifted(low, 0x1_0000 * (b1 as nat), b1, 16, 0x1_0000);
    OrShifted(low + 0x1_0000 * (b1 as nat), 0x100_0000 * (b0 as nat), b0, 24, 0x100_0000);
  }

  lemma SwapReverses(b3: Byte, b2: Byte, b1: Byte, b0: Byte)
    ensures Swap(Big32(b3, b2, b1, b0)) == Big32(b0, b1, b2, b3)
  {
    var v := Big32(b3, b2, b1, b0);
    SwapLowPart(v, b3, b2, b1, b0);
    SwapSecondPart(v, b3, b2, b1, b0);
    SwapThirdPart(v, b3, b2, b1, b0);
    SwapHighPart(v, b3, b2, b1, b0);
    OrDigits(b3, b2, b1, b0);
  }

  /** Storing a swapped tag puts its big-endian bytes in memory; swapping twice is the identity. */
  lemma SwapStoresBigEndian(v: nat)
    requires v < U32
    ensures Store32(Swap(v)) == BigEndian(v) && Swap(Swap(v)) == v
  {
    var b := BigEndian(v);
    BigEndianBack(v);
    SwapReverses(b[0], b[1], b[2], b[3]);
    SwapReverses(b[3], b[2], b[1], b[0]);
    DigitsOf(Swap(v), b[3], b[2], b[1], b[0]);
  }

  /** The checker's 32-bit comparison succeeds exactly on the big-endian bytes of the tag. */
  lemma SwapLoadChecks(p: seq<Byte>, v: nat)
    requires |p| == 4 && v < U32
    ensures Swap(Load32(p[0], p[1], p[2], p[3])) == v <==> p == BigEndian(v)
  {
    SwapReverses(p[3], p[2], p[1], p[0]);
    Big32Is(p[0], p[1], p[2], p[3], v);
    assert p == [p[0], p[1], p[2], p[3]];
  }

  lemma LowByte(x: nat)
    ensures And(x, 0xff) == x % 256
  {
    SomePowers();
    AndLowMask(x, 8);
  }

  /** A 32-bit tag stored in 48 bits has two zero bytes in front of its big-endian bytes. */
  lemma Put48Pads(v: nat)
    requires v < U32
    ensures Put48(v) == [0, 0] + BigEndian(v)
  {
    assert v / 0x100_0000_0000 == 0 && v / 0x1_0000_0000 == 0;
    LowByte(0);
    LowByte(v / 0x100_0000);
    LowByte(v / 0x1_0000);
    LowByte(v / 0x100);
    LowByte(v);
  }

  lemma {:induction false} OrCommutes(a: nat, b: nat)
    ensures Or(a, b) == Or(b, a)
    decreases a + b
  {
    if a == 0 && b == 0 {
    } else {
      OrCommutes(a / 2, b / 2);
    }
  }

  /** Bits put below a shifted number are added. */
  lemma OrBelow(b: nat, a: nat, k: nat, p: nat)
    requires p == Pow2(k) && a < p
    ensures Or(p * b, a) == p * b + a
  {
    OrCommutes(p * b, a);
    OrShifted(a, p * b, b, k, p);
  }

  lemma ShlFits(x: nat, k: nat, p: nat, width: nat)
    requires p == Pow2(k) && p * x < Pow2(width)
    ensures Shl(x, k, width) == p * x
  {
    ModUnique(p * x, Pow2(width), 0, p * x);
  }

  /** The 48-bit number that six bytes stand for. */
  lemma Get48Value(p0: Byte, p1: Byte, p2: Byte, p3: Byte, p4: Byte, p5: Byte)
    ensures Get48(p0, p1, p2, p3, p4, p5) ==
      0x100_0000_0000 * (p0 as nat) + 0x1_0000_0000 * (p1 as nat) + Big32(p2, p3, p4, p5)
  {
    SomePowers();
    ShlFits(p0, 40, 0x100_0000_0000, 64);
    ShlFits(p1, 32, 0x1_0000_0000, 64);
    ShlFits(p2, 24, 0x100_0000, 64);
    ShlFits(p3, 16, 0x1_0000, 32);
    ShlFits(p4, 8, 0x100, 32);
    OrHighBytes(p0, p1, p2);
    OrLowBytes(0x1_0000 * (p0 as nat) + 0x100 * (p1 as nat) + (p2 as nat), p3, p4, p5);
  }

  lemma OrHighBytes(p0: Byte, p1: Byte, p2: Byte)
    ensures Or(Or(0x100_0000_0000 * (p0 as nat), 0x1_0000_0000 * (p1 as nat)), 0x100_0000 * (p2 as nat)) ==
      0x100_0000 * (0x1_0000 * (p0 as nat) + 0x100 * (p1 as nat) + (p2 as nat))
  {
    SomePowers();
    var h := 0x100 * (p0 as nat) + (p1 as nat);
    OrBelow(p0, 0x1_0000_0000 * (p1 as nat), 40, 0x100_0000_0000);
    assert 0x100_0000_0000 * (p0 as nat) + 0x1_0000_0000 * (p1 as nat) == 0x1_0000_0000 * h;
    OrBelow(h, 0x100_0000 * (p2 as nat), 32, 0x1_0000_0000);
  }

  lemma OrLowBytes(h: nat, p3: Byte, p4: Byte, p5: Byte)
    ensures Or(Or(Or(0x100_0000 * h, 0x1_0000 * (p3 as nat)), 0x100 * (p4 as nat)), p5) ==
      0x100_0000 * h + 0x1_0000 * (p3 as nat) + 0x100 * (p4 as nat) + (p5 as nat)
  {
    SomePowers();
    var h3 := 0x100 * h + (p3 as nat);
    var h4 := 0x100 * h3 + (p4 as nat);
    assert Or(0x100_0000 * h, 0x1_0000 * (p3 as nat)) == 0x1_0000 * h3 by {
      OrBelow(h, 0x1_0000 * (p3 as nat), 24, 0x100_0000);
    }
    assert Or(0x1_0000 * h3, 0x100 * (p4 as nat)) == 0x100 * h4 by { OrBelow(h3, 0x100 * (p4 as nat), 16, 0x1_0000); }
    OrBelow(h4, p5, 8, 0x100);
  }

  /** The checker's 48-bit comparison succeeds exactly on what the writer stores. */
  lemma Get48Checks(p: seq<Byte>, v: nat)
    requires |p| == 6 && v < U32
    ensures Get48(p[0], p[1], p[2], p[3], p[4], p[5]) == v <==> p == [0, 0] + BigEndian(v)
  {
    var low := Big32(p[2], p[3], p[4], p[5]);
    assert Get48(p[0], p[1], p[2], p[3], p[4], p[5]) == v <==> p[0] == 0 && p[1] == 0 && low == v by {
      Get48Value(p[0], p[1], p[2], p[3], p[4], p[5]);
      HighBytesZero(p[0], p[1], low, v);
    }
    assert low == v <==> [p[2], p[3], p[4], p[5]] == BigEndian(v) by { Big32Is(p[2], p[3], p[4], p[5], v); }
    SixBytes(p, BigEndian(v));
  }

  lemma HighBytesZero(p0: Byte, p1: Byte, low: nat, v: nat)
    requires v < U32
    ensures 0x100_0000_0000 * (p0 as nat) + 0x1_0000_0000 * (p1 as nat) + low == v <==> p0 == 0 && p1 == 0 && low == v
  {
  }

  lemma SixBytes(p: seq<Byte>, low: seq<Byte>)
    requires |p| == 6 && |low| == 4
    ensures p == [0, 0] + low <==> p[0] == 0 && p[1] == 0 && [p[2], p[3], p[4], p[5]] == low
  {
    assert p == [p[0], p[1]] + [p[2], p[3], p[4], p[5]];
    if p == [0, 0] + low {
      assert [p[2], p[3], p[4], p[5]] == p[2..] == ([0, 0] + low)[2..] == low;
    }
  }
}
