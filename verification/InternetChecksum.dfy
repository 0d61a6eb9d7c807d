/** The Internet checksum of RFC 1071, as an accumulator that is updated block by block. */
module InternetChecksum {

  type Byte = x: nat | x < 256

  const U32: nat := 0x1_0000_0000
  // with at most this many bytes a 32-bit accumulator that starts folded cannot wrap
  const MAX_BYTES: nat := 131072

  /** Two bytes loaded as a 16-bit word by a little-endian machine. */
  function Load16(lo: Byte, hi: Byte): (w: nat)
    ensures w <= 0xffff
  {
    (lo as int) + (hi as int) * 256
  }

  /** The 16-bit word at `i`; a byte at the end stands alone. */
  function WordAt(data: seq<Byte>, i: nat): nat
    requires i < |data|
  {
    if i + 1 < |data| then Load16(data[i], data[i + 1]) else data[i]
  }

  /** The exact sum of the words from `i` on. */
  function WordSum(data: seq<Byte>, i: nat): nat
    decreases |data| - i
  {
    if i >= |data| then 0 else WordAt(data, i) + WordSum(data, i + 2)
  }

  /** The one number in 0..0xffff that is congruent to `x` modulo 0xffff and zero only for zero. */
  function Canonical(x: nat): nat { if x == 0 then 0 else (x - 1) % 0xffff + 1 }

  /** One turn of the folding loop. */
  function FoldOnce(x: nat): nat { x % 0x1_0000 + x / 0x1_0000 }

  lemma FoldOnceKeeps(x: nat)
    requires x > 0xffff
    ensures FoldOnce(x) < x && Canonical(FoldOnce(x)) == Canonical(x)
  {
    var h, l := x / 0x1_0000, x % 0x1_0000;
    assert x - 1 == h * 0xffff + (h + l - 1);
    ModShift(h, h + l - 1);
  }

  lemma CanonicalSmall(x: nat)
    requires x <= 0xffff
    ensures Canonical(x) == x
  {
  }

  lemma ModShift(h: nat, y: nat)
    ensures (h * 0xffff + y) % 0xffff == y % 0xffff
  {
    var q, r := y / 0xffff, y % 0xffff;
    assert h * 0xffff + y == (h + q) * 0xffff + r;
  }

  lemma CanonicalAdd(x: nat, y: nat)
    ensures Canonical(Canonical(x) + y) == Canonical(x + y)
  {
    if x > 0 {
      var q, r := (x - 1) / 0xffff, (x - 1) % 0xffff;
      assert x + y - 1 == q * 0xffff + (r + y);
      ModShift(q, r + y);
    }
  }

  lemma {:induction false} WordSumBound(data: seq<Byte>, i: nat)
    ensures i > |data| ==> WordSum(data, i) == 0
    ensures i <= |data| ==> 2 * WordSum(data, i) <= (|data| - i + (|data| - i) % 2) * 0xffff
    decreases |data| - i
  {
    if i + 1 >= |data| {
    } else {
      WordSumBound(data, i + 2);
    }
  }

  /** `~acc` cut to 16 bits. */
  function DigestOf(acc: nat): (d: nat)
    requires acc < U32
    ensures d <= 0xffff && (acc <= 0xffff ==> d == 0xffff - acc)
  {
    (U32 - 1 - acc) % 0x1_0000
  }

  lemma WordSumPair(data: seq<Byte>, i: nat)
    requires i + 1 < |data|
    ensures WordSum(data, i) == Load16(data[i], data[i + 1]) + WordSum(data, i + 2)
  {
  }

  /** Up to MAX_BYTES the sum fits on top of a folded accumulator. */
  lemma SumFits(acc: nat, data: seq<Byte>)
    requires acc <= 0xffff && |data| <= MAX_BYTES
    ensures acc + WordSum(data, 0) < U32
  {
    var padded := |data| + |data| % 2;
    assert padded <= MAX_BYTES;
    assert 2 * WordSum(data, 0) <= padded * 0xffff by { WordSumBound(data, 0); }
  }

  lemma WordSumLast(data: seq<Byte>, i: nat)
    requires i + 1 == |data|
    ensures WordSum(data, i) == data[i]
  {
    assert WordSum(data, i + 2) == 0;
  }

  class CsumInet {
    var acc: nat

    constructor ()
      ensures acc == 0
    {
      acc := 0;
    }

    /** From a folded accumulator, up to 131072 bytes are summed without wrap-around in 32 bits, the
        folding loop ends, and the accumulator is the folded sum. */
    method Update(data: array<Byte>)
      requires acc <= 0xffff && data.Length <= MAX_BYTES
      modifies this
      ensures acc == Updated(old(acc), data[..]) <= 0xffff
    {
      if data.Length == 0 {
        CanonicalSmall(acc);
        return;
      }
      AddWords(data);
      Fold();
    }

    /** `acc += w` in an unsigned 32-bit accumulator; there is no wrap-around when the sum fits. */
    method Add(w: nat)
      requires acc + w < U32
      modifies this
      ensures acc == old(acc) + w
    {
      acc := (acc + w) % U32;
    }

    /** The summing loop: it stops at the end, or at the byte left over. */
    method AddPairs(data: array<Byte>) returns (i: nat)
      requires acc + WordSum(data[..], 0) < U32 && 0 < data.Length
      modifies this
      ensures i == data.Length || i == data.Length - 1
      ensures data.Length % 2 == data.Length - i
      ensures acc + WordSum(data[..], i) == old(acc) + WordSum(data[..], 0)
    {
      ghost var s := data[..];
      ghost var n := 0;
      i := 0;
      while i < data.Length - 1
        invariant 0 <= n && i == 2 * n <= data.Length
        invariant acc + WordSum(s, i) == old(acc) + WordSum(s, 0)
        decreases data.Length - i
      {
        var w := Load16(data[i], data[i + 1]);
        assert WordSum(s, i) == w + WordSum(s, i + 2) by { WordSumPair(s, i); }
        Add(w);
        i, n := i + 2, n + 1;
      }
    }

    /** The summing loop and the byte left over. */
    method AddWords(data: array<Byte>)
      requires acc <= 0xffff && 0 < data.Length <= MAX_BYTES
      modifies this
      ensures acc == old(acc) + WordSum(data[..], 0) < U32
    {
      SumFits(acc, data[..]);
      var i := AddPairs(data);
      if data.Length % 2 == 1 {
        WordSumLast(data[..], i);
        Add(data[data.Length - 1]);
      }
    }

    /** The folding loop. */
    method Fold()
      requires acc < U32
      modifies this
      ensures acc == Canonical(old(acc)) <= 0xffff
    {
      while acc > 0xffff
        invariant acc < U32 && Canonical(acc) == Canonical(old(acc))
        decreases acc
      {
        FoldOnceKeeps(acc);
        acc := FoldOnce(acc) % U32;
      }
      CanonicalSmall(acc);
    }

    function Digest(): (d: nat)
      requires acc < U32
      reads this
      ensures d == DigestOf(acc)
    {
      DigestOf(acc)
    }
  }

  /** The accumulator after one update of a folded accumulator. */
  function Updated(acc: nat, data: seq<Byte>): nat { Canonical(acc + WordSum(data, 0)) }

  /** The result is at most 0xffff and congruent to the word sum. */
  lemma UpdatedCongruent(acc: nat, data: seq<Byte>)
    ensures Updated(acc, data) <= 0xffff
    ensures Updated(acc, data) % 0xffff == (acc + WordSum(data, 0)) % 0xffff
    ensures Updated(acc, data) == 0 <==> acc + WordSum(data, 0) == 0
  {
    var x := acc + WordSum(data, 0);
    if x > 0 {
      var q, r := (x - 1) / 0xffff, (x - 1) % 0xffff;
      assert x == q * 0xffff + (r + 1);
      ModShift(q, r + 1);
    }
  }

  lemma {:induction false} WordSumConcat(a: seq<Byte>, b: seq<Byte>, i: nat)
    requires |a| % 2 == 0 && i % 2 == 0 && i <= |a|
    ensures WordSum(a + b, i) == WordSum(a, i) + WordSum(b, 0)
    decreases |a| - i
  {
    if i == |a| {
      WordSumShift(a, b, 0);
    } else {
      WordSumConcat(a, b, i + 2);
    }
  }

  lemma {:induction false} WordSumShift(a: seq<Byte>, b: seq<Byte>, i: nat)
    ensures WordSum(a + b, |a| + i) == WordSum(b, i)
    decreases |b| - i
  {
    if i >= |b| {
    } else {
      WordSumShift(a, b, i + 2);
    }
  }

  /** Updating with `a`, of even length, and then with `b` is updating with both at once. */
  lemma UpdateInPieces(acc: nat, a: seq<Byte>, b: seq<Byte>)
    requires |a| % 2 == 0
    ensures Updated(Updated(acc, a), b) == Updated(acc, a + b)
  {
    var x, y := acc + WordSum(a, 0), WordSum(b, 0);
    assert x + y == acc + WordSum(a + b, 0) by { WordSumConcat(a, b, 0); }
    assert Canonical(Canonical(x) + y) == Canonical(x + y) by { CanonicalAdd(x, y); }
  }

  /** Data of odd length counts as if padded with a zero byte. */
  lemma OddIsZeroPadded(acc: nat, data: seq<Byte>)
    requires |data| % 2 == 1
    ensures Updated(acc, data) == Updated(acc, data + [0])
  {
    PadSum(data, 0);
  }

  lemma {:induction false} PadSum(data: seq<Byte>, i: nat)
    requires |data| % 2 == 1 && i % 2 == 0 && i <= |data|
    ensures WordSum(data + [0], i) == WordSum(data, i)
    decreases |data| - i
  {
    var padded := data + [0];
    WordSumPair(padded, i);
    if i + 1 == |data| {
      assert padded[i] == data[i] && padded[i + 1] == 0 && WordSum(padded, i + 2) == 0;
      WordSumLast(data, i);
    } else {
      assert padded[i] == data[i] && padded[i + 1] == data[i + 1];
      WordSumPair(data, i);
      PadSum(data, i + 2);
    }
  }

  /** The two bytes of a word, as stored by a little-endian machine. */
  function WordBytes(w: nat): seq<Byte>
    requires w <= 0xffff
  {
    [w % 256, w / 256]
  }

  lemma OneWordSum(w: nat)
    requires w <= 0xffff
    ensures WordSum(WordBytes(w), 0) == w
  {
    var d := WordBytes(w);
    WordSumPair(d, 0);
    assert WordSum(d, 2) == 0;
  }

  /** Summing a digest after the data it belongs to gives 0xffff. */
  lemma DigestCompletes(acc: nat)
    requires acc <= 0xffff
    ensures Canonical(acc + DigestOf(acc)) == 0xffff
  {
  }

  /** A receiver that sums the data together with its digest ends with digest zero. */
  lemma DigestChecksOut(acc: nat, data: seq<Byte>)
    requires |data| % 2 == 0
    ensures Updated(acc, data) <= 0xffff && DigestOf(Updated(acc, data)) <= 0xffff
    ensures var whole := data + WordBytes(DigestOf(Updated(acc, data)));
      Updated(acc, whole) <= 0xffff && DigestOf(Updated(acc, whole)) == 0
  {
    UpdatedCongruent(acc, data);
    var a := Updated(acc, data);
    UpdateInPieces(acc, data, WordBytes(DigestOf(a)));
    OneWordSum(DigestOf(a));
    DigestCompletes(a);
  }

  /** The same of the object: updated with data of even length, and then with the digest of that, it
      has digest zero. */
  method ReceiveWithDigest(csum: CsumInet, data: array<Byte>) returns (d: nat)
    requires csum.acc <= 0xffff && data.Length <= MAX_BYTES && data.Length % 2 == 0
    modifies csum
    ensures csum.acc == 0xffff && d == 0
  {
    csum.Update(data);
    var w := csum.Digest();
    var word := new Byte[2];
    word[0], word[1] := w % 256, w / 256;
    ghost var a := csum.acc;
    csum.Update(word);
    assert word[..] == WordBytes(w);
    OneWordSum(w);
    DigestCompletes(a);
    d := csum.Digest();
  }

  /** The sum stays in 32 bits for all data of a given length exactly up to 131072 bytes. */
  lemma NoWrapIff(length: nat)
    ensures (forall data: seq<Byte> :: |data| == length ==> 0xffff + WordSum(data, 0) < U32) <==> length <= MAX_BYTES
  {
    if length <= MAX_BYTES {
      forall data: seq<Byte> | |data| == length ensures 0xffff + WordSum(data, 0) < U32 { WordSumBound(data, 0); }
    } else {
      var data := AllOnes(length);
      assert |data| == length && 0xffff + WordSum(data, 0) >= U32;
    }
  }

  lemma AllOnes(length: nat) returns (data: seq<Byte>)
    ensures |data| == length
    ensures length > MAX_BYTES ==> 0xffff + WordSum(data, 0) >= U32
  {
    data := seq(length, _ => 0xff);
    AllOnesSum(data, 0);
  }

  lemma {:induction false} AllOnesSum(data: seq<Byte>, i: nat)
    requires forall k :: 0 <= k < |data| ==> data[k] == 0xff
    ensures i <= |data| ==>
      2 * WordSum(data, i) >= (|data| - i - (|data| - i) % 2) * 0xffff + 2 * ((|data| - i) % 2) * 0xff
    decreases |data| - i
  {
    if i >= |data| {
    } else {
      AllOnesSum(data, i + 2);
    }
  }
}
