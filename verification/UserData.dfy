/** The 64-bit `user_data` that routes a completion back to its tag and kind. */
module UserData {
  import opened Bits
  import opened UblkTypes

  function Build(tag: nat, op: nat, tgtData: nat, isTargetIo: nat): nat {
    Or(Or(Or(tag, Shl(op, 16, 32)), Shl(tgtData, 24, 32)), Shl(isTargetIo, 63, 64))
  }

  function TagOf(u: nat): nat { And(u, 0xffff) }

  function OpOf(u: nat): nat { And(u / 0x1_0000, 0xff) }

  predicate IsTargetIo(u: nat) { And(u, 0x8000_0000_0000_0000) != 0 }

  function Decode(u: nat): Key { Key(TagOf(u), OpOf(u), IsTargetIo(u)) }

  /** The ranges that build_user_data asserts. */
  predicate InRange(tag: nat, op: nat, tgtData: nat, isTargetIo: nat) {
    tag < 0x1_0000 && op < 0x100 && tgtData < 0x1_0000 && isTargetIo <= 1
  }

  lemma Shifts(op: nat, tgtData: nat, isTargetIo: nat)
    requires InRange(0, op, tgtData, isTargetIo)
    ensures Shl(op, 16, 32) == op * Pow2(16) == op * 0x1_0000
    ensures Shl(tgtData, 24, 32) == tgtData % 256 * Pow2(24) == tgtData % 256 * 0x100_0000
    ensures Shl(isTargetIo, 63, 64) == isTargetIo * Pow2(63) == isTargetIo * 0x8000_0000_0000_0000
  {
    Pow2Values();
    var q, r := tgtData / 256, tgtData % 256;
    assert tgtData * 0x100_0000 == q * 0x1_0000_0000 + r * 0x100_0000;
    assert tgtData * Pow2(24) % Pow2(32) == r * 0x100_0000;
  }

  lemma BuildSum(tag: nat, op: nat, tgtData: nat, isTargetIo: nat)
    requires InRange(tag, op, tgtData, isTargetIo)
    ensures Build(tag, op, tgtData, isTargetIo) ==
      tag + op * 0x1_0000 + tgtData % 256 * 0x100_0000 + isTargetIo * 0x8000_0000_0000_0000
  {
    Shifts(op, tgtData, isTargetIo);
    OrFields(tag, op, tgtData % 256, isTargetIo);
  }

  lemma OrOp(a: nat, b: nat)
    requires a < 0x1_0000
    ensures Or(a, b * 0x1_0000) == a + b * 0x1_0000
  {
    Pow2Values();
    OrShifted(a, b * 0x1_0000, b, 16, 0x1_0000);
  }

  lemma OrTgtData(a: nat, b: nat)
    requires a < 0x100_0000
    ensures Or(a, b * 0x100_0000) == a + b * 0x100_0000
  {
    Pow2Values();
    OrShifted(a, b * 0x100_0000, b, 24, 0x100_0000);
  }

  lemma OrTop(a: nat, b: nat)
    requires a < 0x8000_0000_0000_0000
    ensures Or(a, b * 0x8000_0000_0000_0000) == a + b * 0x8000_0000_0000_0000
  {
    Pow2Values();
    OrShifted(a, b * 0x8000_0000_0000_0000, b, 63, 0x8000_0000_0000_0000);
  }

  lemma OrFields(tag: nat, op: nat, td: nat, top: nat)
    requires tag < 0x1_0000 && op < 0x100 && td < 0x100
    ensures Or(Or(Or(tag, op * 0x1_0000), td * 0x100_0000), top * 0x8000_0000_0000_0000) ==
      tag + op * 0x1_0000 + td * 0x100_0000 + top * 0x8000_0000_0000_0000
  {
    var low := tag + op * 0x1_0000;
    OrOp(tag, op);
    OrTgtData(low, td);
    OrTop(low + td * 0x100_0000, top);
  }

  lemma DecodeArith(u: nat)
    ensures TagOf(u) == u % 0x1_0000
    ensures OpOf(u) == u / 0x1_0000 % 0x100
    ensures IsTargetIo(u) <==> u / 0x8000_0000_0000_0000 % 2 == 1
  {
    Pow2Values();
    AndLowMask(u, 16);
    AndLowMask(u / 0x1_0000, 8);
    AndBit(u, 63);
  }

  /** A completion is routed to the tag, operation and kind its entry was built with. */
  lemma DecodeBuild(tag: nat, op: nat, tgtData: nat, isTargetIo: nat)
    requires InRange(tag, op, tgtData, isTargetIo)
    ensures Build(tag, op, tgtData, isTargetIo) < 0x1_0000_0000_0000_0000
    ensures Decode(Build(tag, op, tgtData, isTargetIo)) == Key(tag, op, isTargetIo == 1)
  {
    var u := Build(tag, op, tgtData, isTargetIo);
    BuildSum(tag, op, tgtData, isTargetIo);
    SumFields(u, tag, op, tgtData % 256, isTargetIo);
    DecodeArith(u);
  }

  lemma SumFields(u: nat, tag: nat, op: nat, td: nat, top: nat)
    requires tag < 0x1_0000 && op < 0x100 && td < 0x100 && top <= 1
    requires u == tag + op * 0x1_0000 + td * 0x100_0000 + top * 0x8000_0000_0000_0000
    ensures u < 0x1_0000_0000_0000_0000
    ensures u % 0x1_0000 == tag && u / 0x1_0000 % 0x100 == op && u / 0x8000_0000_0000_0000 % 2 == top
  {
  }

  /** Only the low eight bits of the target data survive the 32-bit shift. */
  lemma TargetDataKeptModulo256(tag: nat, op: nat, td: nat, td': nat, isTargetIo: nat)
    requires InRange(tag, op, td, isTargetIo) && InRange(tag, op, td', isTargetIo)
    ensures Build(tag, op, td, isTargetIo) == Build(tag, op, td', isTargetIo) <==> td % 256 == td' % 256
  {
    BuildSum(tag, op, td, isTargetIo);
    BuildSum(tag, op, td', isTargetIo);
  }
}
