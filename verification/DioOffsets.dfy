/** Which buffer ranges the direct-I/O offset tests touch, and how large the buffers are. */
module DioOffsets {
  import opened Bits
  import opened Wrappers

  const PAGE: nat := 4096
  const U64: nat := 0x1_0000_0000_0000_0000

  datatype Params = Params(segments: nat, bytes: nat, dma: nat, virt: nat, lbs: nat)

  predicate PowerOfTwo(x: nat) { x > 0 && And(x, x - 1) == 0 }

  /** `init_args`: the limits given by the caller, checked and cut to size. */
  function InitArgs(segments: nat, kbytes: nat, dmaMask: nat, virtMask: nat, lbs: nat): Option<Params> {
    var dma, virt := dmaMask + 1, virtMask + 1;
    if !PowerOfTwo(virt) || !PowerOfTwo(dma) || !PowerOfTwo(lbs) then None
    else if virt > 1 && virt < lbs then None
    else if dma > lbs then None
    else
      var bytes := if kbytes * 1024 > 16384 * 1024 then 16384 * 1024 else kbytes * 1024;
      Some(Params(if segments > 4096 then 4096 else segments, bytes - And(bytes, lbs - 1), dma, virt, lbs))
  }

  /** `init_buffers` up to the query of the device: None when the block size is too big. */
  function ComputedSize(p: Params): Option<nat>
    requires 0 < p.lbs < U64
  {
    var half := p.bytes * p.segments / 2;
    var mask := p.lbs - 1;
    if half < p.lbs * p.segments then None
    else
      var size := if half < p.lbs * 1024 * 4 then p.lbs * 1024 * 4 else half;
      Some(if And(size, mask) != 0 then And(size + mask, U64 - 1 - mask) else size)
  }

  /** The buffers are no larger than the device. */
  function BufSize(computed: nat, device: nat): nat { if device < computed then device else computed }

  /** The powers of two that divide what they should, for block sizes from 512 to 4096. */
  ghost predicate Accepted(p: Params) {
    && (p.lbs == 512 || p.lbs == 1024 || p.lbs == 2048 || p.lbs == 4096)
    && p.dma > 0 && p.lbs % p.dma == 0
    && p.bytes % p.lbs == 0
  }

  lemma {:induction false} AndSelf(x: nat)
    ensures And(x, x) == x
  {
    if x == 0 {
    } else {
      AndSelf(x / 2);
    }
  }

  lemma {:induction false} PowerOfTwoIs(x: nat) returns (k: nat)
    requires PowerOfTwo(x)
    ensures x == Pow2(k)
  {
    if x % 2 == 1 {
      AndSelf(x / 2);
      assert (x - 1) / 2 == x / 2;
      k := 0;
    } else {
      assert (x - 1) / 2 == x / 2 - 1;
      k := PowerOfTwoIs(x / 2);
      k := k + 1;
    }
  }

  lemma PowersDivide(j: nat, k: nat)
    requires Pow2(j) <= Pow2(k)
    ensures Pow2(k) % Pow2(j) == 0
  {
    if k < j {
      Pow2Mono(k + 1, j);
    } else {
      var m, q := Pow2(j), Pow2(k - j);
      Pow2Add(k - j, j);
      ModUnique(q * m, m, q, 0);
    }
  }

  lemma BlockSizes(lbs: nat, k: nat)
    requires lbs == Pow2(k) && 512 <= lbs <= 4096
    ensures lbs == 512 || lbs == 1024 || lbs == 2048 || lbs == 4096
  {
    assert Pow2(9) == 512 && Pow2(10) == 1024 && Pow2(11) == 2048 && Pow2(12) == 4096;
    if k < 9 { Pow2Mono(k + 1, 9); }
    if k > 12 { Pow2Mono(13, k); }
  }

  /** What the checks of `init_args` leave. */
  lemma InitArgsAccepts(segments: nat, kbytes: nat, dmaMask: nat, virtMask: nat, lbs: nat)
    requires 512 <= lbs <= 4096
    ensures var r := InitArgs(segments, kbytes, dmaMask, virtMask, lbs);
      r.Some? ==> Accepted(r.value) && r.value.segments <= 4096 && r.value.bytes <= 16384 * 1024
  {
    var r := InitArgs(segments, kbytes, dmaMask, virtMask, lbs);
    if r.Some? {
      var p := r.value;
      var k := PowerOfTwoIs(lbs);
      var j := PowerOfTwoIs(p.dma);
      BlockSizes(lbs, k);
      PowersDivide(j, k);
      var bytes := if kbytes * 1024 > 16384 * 1024 then 16384 * 1024 else kbytes * 1024;
      AndLowMask(bytes, k);
      Whole(bytes, lbs);
    }
  }

  /** A number with exactly one bit set. */
  ghost predicate IsPower(x: nat) { exists k :: x == Pow2(k) }

  lemma PowerOfTwoIff(x: nat)
    ensures PowerOfTwo(x) <==> IsPower(x)
  {
    if PowerOfTwo(x) { var k := PowerOfTwoIs(x); }
    if k :| x == Pow2(k) {
      AndLowMask(x, k);
      ModUnique(x, x, 1, 0);
    }
  }

  /** Which arguments are accepted, and what becomes of them. */
  lemma InitArgsExact(segments: nat, kbytes: nat, dmaMask: nat, virtMask: nat, lbs: nat)
    ensures var r := InitArgs(segments, kbytes, dmaMask, virtMask, lbs);
      && (r.Some? <==>
            && IsPower(dmaMask + 1) && IsPower(virtMask + 1) && IsPower(lbs)
            && (virtMask == 0 || virtMask + 1 >= lbs) && dmaMask + 1 <= lbs)
      && (r.Some? ==>
            var p := r.value;
            && p.dma == dmaMask + 1 && p.virt == virtMask + 1 && p.lbs == lbs > 0
            && p.segments == (if segments <= 4096 then segments else 4096)
            && p.bytes == LargestMultiple(if kbytes <= 16384 then kbytes * 1024 else 16777216, lbs))
  {
    PowerOfTwoIff(dmaMask + 1);
    PowerOfTwoIff(virtMask + 1);
    PowerOfTwoIff(lbs);
    if k :| lbs == Pow2(k) { AndLowMask(if kbytes <= 16384 then kbytes * 1024 else 16777216, k); }
  }

  /** The largest multiple of `m` up to `x`. */
  function LargestMultiple(x: nat, m: nat): (r: nat)
    requires m > 0
    ensures r <= x < r + m
  {
    x - x % m
  }

  lemma Whole(x: nat, m: nat)
    requires m > 0
    ensures (x - x % m) % m == 0
  {
    assert x == x / m * m + x % m;
    ModUnique(x - x % m, m, x / m, 0);
  }

  // ----- the layouts

  datatype Range = Range(off: int, len: int)

  function Affine(n: nat, stride: nat, shift: int, len: int): seq<Range> {
    seq(n, i => Range(stride * i + shift, len))
  }

  function Mult(p: Params): nat
    requires p.lbs > 0
  {
    if PAGE / p.lbs < 2 then 2 else PAGE / p.lbs
  }

  /** The first offset of the unaligned page vectors. */
  function PageOffset(p: Params): int {
    var off := PAGE - p.lbs / 4;
    if off > 0 && p.dma > 0 && And(off, p.dma - 1) != 0 then PAGE - p.dma else off
  }

  function IovSize(p: Params): nat
    requires p.dma > 0
  {
    if p.lbs / p.dma == 0 then 0 else p.lbs / (p.lbs / p.dma)
  }

  // What each test reads, writes or compares, as offsets into the buffers, which all tests use alike.

  function FullSize(bufSize: nat): seq<Range> { [Range(0, bufSize)] }

  function DmaAligned(p: Params): seq<Range> { [Range(p.dma, p.bytes)] }

  function PageAlignedVectors(p: Params): seq<Range> { Affine(4, p.lbs * 4, 0, p.lbs * 2) }

  function DmaAlignedVectors(p: Params): seq<Range> { Affine(4, p.lbs * 8 + p.dma, p.dma, p.lbs * 2) }

  function UnalignedPageVectors(p: Params): seq<Range>
    requires p.lbs > 0
  {
    var whole := p.lbs * Mult(p);
    var head := PAGE - PageOffset(p);
    [Range(PageOffset(p), head)] + Affine(2, 8 * whole, 8 * whole, whole) + [Range(24 * whole, whole - head)]
  }

  function UnalignedVectors(p: Params): seq<Range> { Affine(4, p.lbs * 8, 0, p.lbs / 2) }

  /** The first vector is NULL. */
  function InvalidStartingAddr(p: Params): seq<Range> { Affine(3, p.lbs * 8, p.lbs * 8, p.lbs) }

  /** Vector 513 of 1024 is NULL. */
  function InvalidMiddleAddr(p: Params): seq<Range> {
    Affine(513, p.lbs * 2, 0, p.lbs) + Affine(510, p.lbs * 2, p.lbs * 2 * 514, p.lbs)
  }

  function InvalidDmaAlignment(p: Params): seq<Range> { [Range(2 * p.dma - 1, p.lbs * 256)] }

  function InvalidDmaVectorAlignment(p: Params): seq<Range> {
    var mb := p.bytes;
    [Range(0, mb), Range(2 * mb, mb), Range(4 * mb + 2 * p.dma - 1, mb), Range(6 * mb, mb), Range(8 * mb, mb)]
  }

  function MaxVectorLimits(p: Params): seq<Range>
    requires p.dma > 0
  {
    Affine(320, IovSize(p) * 2, 0, IovSize(p)) + Affine(320, IovSize(p) * 2, 0, p.lbs / 2)
  }

  function InvalidDmaVectorAlignmentLarge(p: Params): seq<Range> {
    var mb, lbs := p.bytes, p.lbs;
    [Range(0, mb - lbs), Range(mb + lbs, lbs), Range(mb + lbs + 2 * PAGE + p.dma - 1, lbs), Range(8 * mb, lbs)]
  }

  function InvalidDmaVectorLength(p: Params): seq<Range> {
    var mb, lbs := p.bytes, p.lbs;
    [Range(0, 2 * mb - mb / 2), Range(4 * mb, 2 * lbs - p.dma - 1), Range(8 * mb, 2 * lbs + p.dma + 1),
     Range(12 * mb, mb - mb / 2)]
  }

  /** Every range that some test uses, in the order of the tests. */
  function AllRanges(p: Params, bufSize: nat): seq<Range>
    requires Accepted(p)
  {
    FullSize(bufSize) + DmaAligned(p) + PageAlignedVectors(p) + DmaAlignedVectors(p) + UnalignedPageVectors(p)
    + UnalignedVectors(p) + InvalidStartingAddr(p) + InvalidMiddleAddr(p) + InvalidDmaAlignment(p)
    + InvalidDmaVectorAlignment(p) + MaxVectorLimits(p) + InvalidDmaVectorAlignmentLarge(p) + InvalidDmaVectorLength(p)
  }

  // ----- the tests that fill an iovec in a loop; the loops for the other buffer and for the comparison
  // ----- repeat the same offsets

  method TestPageAlignedVectors(p: Params) returns (iov: seq<Range>)
    ensures iov == PageAlignedVectors(p)
  {
    iov := [];
    for i := 0 to 4
      invariant iov == Affine(i, p.lbs * 4, 0, p.lbs * 2)
    {
      var offset := p.lbs * i * 4;
      iov := iov + [Range(offset, p.lbs * 2)];
    }
  }

  method TestDmaAlignedVectors(p: Params) returns (iov: seq<Range>)
    ensures iov == DmaAlignedVectors(p)
  {
    iov := [];
    for i := 0 to 4
      invariant iov == Affine(i, p.lbs * 8 + p.dma, p.dma, p.lbs * 2)
    {
      var offset := p.lbs * i * 8 + p.dma * (i + 1);
      assert offset == (p.lbs * 8 + p.dma) * i + p.dma;
      iov := iov + [Range(offset, p.lbs * 2)];
    }
  }

  method TestUnalignedPageVectors(p: Params) returns (iov: seq<Range>)
    requires p.lbs > 0 && p.dma > 0
    ensures iov == UnalignedPageVectors(p)
  {
    var mult := PAGE / p.lbs;
    if mult < 2 { mult := 2; }
    var offset: int := PAGE - p.lbs / 4;
    if offset > 0 && And(offset, p.dma - 1) != 0 { offset := PAGE - p.dma; }
    var head := Range(offset, PAGE - offset);
    var middle, i := MiddleVectors(p.lbs, mult);
    iov := [head] + middle;
    offset := p.lbs * i * 8 * mult;
    Reordered(p.lbs, i, mult);
    iov := iov + [Range(offset, p.lbs * mult - iov[0].len)];
  }

  /** The loop between head and tail. */
  method MiddleVectors(lbs: nat, mult: nat) returns (iov: seq<Range>, i: int)
    ensures iov == Affine(2, 8 * (lbs * mult), 8 * (lbs * mult), lbs * mult) && i == 3
  {
    iov := [];
    i := 1;
    while i < 3
      invariant 1 <= i <= 3 && iov == Affine(i - 1, 8 * (lbs * mult), 8 * (lbs * mult), lbs * mult)
    {
      var offset := lbs * i * 8 * mult;
      Reordered(lbs, i, mult);
      Spread(8 * (lbs * mult), i);
      iov := iov + [Range(offset, lbs * mult)];
      i := i + 1;
    }
  }

  lemma Reordered(lbs: nat, i: int, mult: nat)
    ensures lbs * i * 8 * mult == i * (8 * (lbs * mult))
  {
    assert lbs * i * 8 * mult == (lbs * i) * (8 * mult) == i * (lbs * (8 * mult));
  }

  lemma Spread(stride: nat, i: int)
    ensures i * stride == stride * (i - 1) + stride
  {
  }

  method TestUnalignedVectors(p: Params) returns (iov: seq<Range>)
    ensures iov == UnalignedVectors(p)
  {
    iov := [];
    for i := 0 to 4
      invariant iov == Affine(i, p.lbs * 8, 0, p.lbs / 2)
    {
      var offset := p.lbs * i * 8;
      iov := iov + [Range(offset, p.lbs / 2)];
    }
  }

  method TestInvalidStartingAddr(p: Params) returns (iov: seq<Range>)
    ensures iov == InvalidStartingAddr(p)
  {
    iov := [];
    for i := 1 to 4
      invariant iov == Affine(i - 1, p.lbs * 8, p.lbs * 8, p.lbs)
    {
      var offset := p.lbs * i * 8;
      assert offset == p.lbs * 8 * (i - 1) + p.lbs * 8;
      iov := iov + [Range(offset, p.lbs)];
    }
  }

  method TestInvalidMiddleAddr(p: Params) returns (iov: seq<Range>)
    ensures iov == InvalidMiddleAddr(p)
  {
    var vecs := 1024;
    var i := 0;
    iov := [];
    while i < vecs / 2 + 1
      invariant 0 <= i <= 513 && iov == Affine(i, p.lbs * 2, 0, p.lbs)
    {
      var offset := p.lbs * i * 2;
      Spaced(p.lbs, i, 0);
      iov := iov + [Range(offset, p.lbs)];
      i := i + 1;
    }
    ghost var first := iov;
    i := i + 1;  // past the NULL vector
    while i < vecs
      invariant 514 <= i <= 1024 && iov == first + Affine(i - 514, p.lbs * 2, p.lbs * 2 * 514, p.lbs)
    {
      var offset := p.lbs * i * 2;
      Spaced(p.lbs, i, 514);
      iov := iov + [Range(offset, p.lbs)];
      i := i + 1;
    }
  }

  lemma Spaced(lbs: nat, i: int, start: int)
    ensures lbs * i * 2 == lbs * 2 * (i - start) + lbs * 2 * start
  {
  }

  method EverySecond(vecs: nat, size: nat, len: nat) returns (iov: seq<Range>)
    ensures iov == Affine(vecs, size * 2, 0, len)
  {
    iov := [];
    for i := 0 to vecs
      invariant iov == Affine(i, size * 2, 0, len)
    {
      var offset := i * size * 2;
      assert offset == size * 2 * i;
      iov := iov + [Range(offset, len)];
    }
  }

  /** The comparison uses the offsets of the vectors, but half a block each. */
  method TestMaxVectorLimits(p: Params) returns (iov: seq<Range>)
    requires p.dma > 0 && p.dma <= p.lbs
    ensures iov == MaxVectorLimits(p)
  {
    var iovpb := p.lbs / p.dma;
    AtLeastOne(p.lbs, p.dma);
    var size := p.lbs / iovpb;
    iov := EverySecond(320, size, size);
    var compared := EverySecond(320, size, p.lbs / 2);
    iov := iov + compared;
  }

  lemma AtLeastOne(x: nat, m: nat)
    requires 0 < m <= x
    ensures x / m >= 1
  {
    assert x == x / m * m + x % m;
  }

  // ----- the tests that name each vector

  method TestInvalidDmaVectorAlignment(p: Params) returns (iov: seq<Range>)
    ensures iov == InvalidDmaVectorAlignment(p)
  {
    var maxBytes := p.bytes;
    var offset := p.dma * 2 - 1;
    iov := [Range(0, maxBytes)];
    iov := iov + [Range(maxBytes * 2, maxBytes)];
    iov := iov + [Range(maxBytes * 4 + offset, maxBytes)];
    iov := iov + [Range(maxBytes * 6, maxBytes)];
    iov := iov + [Range(maxBytes * 8, maxBytes)];
  }

  /** The third vector is placed behind the second. */
  method TestInvalidDmaVectorAlignmentLarge(p: Params) returns (iov: seq<Range>)
    ensures iov == InvalidDmaVectorAlignmentLarge(p)
  {
    iov := [Range(0, p.bytes - p.lbs)];
    iov := iov + [Range(p.bytes + p.lbs, p.lbs)];
    iov := iov + [Range(iov[1].off + PAGE * 2 + (p.dma - 1), p.lbs)];
    iov := iov + [Range(p.bytes * 8, p.lbs)];
  }

  method TestInvalidDmaVectorLength(p: Params) returns (iov: seq<Range>)
    ensures iov == InvalidDmaVectorLength(p)
  {
    var maxBytes := p.bytes;
    iov := [Range(0, maxBytes * 2 - maxBytes / 2)];
    iov := iov + [Range(maxBytes * 4, p.lbs * 2 - (p.dma + 1))];
    iov := iov + [Range(maxBytes * 8, p.lbs * 2 + (p.dma + 1))];
    iov := iov + [Range(maxBytes * 12, maxBytes - maxBytes / 2)];
  }

  /** `run_tests`, as far as it lays out buffers: all ranges lie inside the buffers exactly when there
      is a transfer of a block at least, and the buffers hold what is needed. */
  method RunTests(p: Params, bufSize: nat) returns (all: seq<Range>)
    requires Accepted(p)
    ensures all == AllRanges(p, bufSize)
    ensures Inside(all, bufSize) <==> p.lbs <= p.bytes && Need(p) <= bufSize
  {
    Sizes(p);
    all := [Range(0, bufSize)];
    all := all + [Range(p.dma, p.bytes)];
    var iov := TestPageAlignedVectors(p);
    all := all + iov;
    iov := TestDmaAlignedVectors(p);
    all := all + iov;
    iov := TestUnalignedPageVectors(p);
    all := all + iov;
    iov := TestUnalignedVectors(p);
    all := all + iov;
    iov := TestInvalidStartingAddr(p);
    all := all + iov;
    iov := TestInvalidMiddleAddr(p);
    all := all + iov;
    all := all + [Range(2 * p.dma - 1, p.lbs * 256)];
    iov := TestInvalidDmaVectorAlignment(p);
    all := all + iov;
    iov := TestMaxVectorLimits(p);
    all := all + iov;
    iov := TestInvalidDmaVectorAlignmentLarge(p);
    all := all + iov;
    iov := TestInvalidDmaVectorLength(p);
    all := all + iov;
    AllInsideIff(p, bufSize);
  }

  ghost predicate Inside(rs: seq<Range>, size: nat) {
    forall i :: 0 <= i < |rs| ==> 0 <= rs[i].off && 0 <= rs[i].len && rs[i].off + rs[i].len <= size
  }

  /** The furthest byte that any test needs. */
  function Need(p: Params): nat {
    var a, b := p.bytes * 12 + (p.bytes - p.bytes / 2), p.lbs * 2047;
    if a < b then b else a
  }

  lemma InsideConcat(a: seq<Range>, b: seq<Range>, size: nat)
    ensures Inside(a + b, size) <==> Inside(a, size) && Inside(b, size)
  {
    if Inside(a + b, size) {
      assert forall i :: 0 <= i < |a| ==> (a + b)[i] == a[i];
      assert forall i :: 0 <= i < |b| ==> (a + b)[|a| + i] == b[i];
    }
  }

  lemma AffineInside(n: nat, stride: nat, shift: int, len: int, size: nat)
    requires n > 0 && shift >= 0 && len >= 0
    ensures Inside(Affine(n, stride, shift, len), size) <==> stride * (n - 1) + shift + len <= size
  {
    var rs := Affine(n, stride, shift, len);
    forall i | 0 <= i < n ensures 0 <= rs[i].off <= stride * (n - 1) + shift {
      MulMono(i, n - 1, stride);
    }
    assert rs[n - 1] == Range(stride * (n - 1) + shift, len);
  }

  /** The divisions of the layouts, for the accepted block sizes. */
  lemma Sizes(p: Params)
    requires Accepted(p)
    ensures 4096 <= p.lbs * Mult(p) <= 8192 && p.lbs * Mult(p) <= 8 * p.lbs
    ensures p.dma <= p.lbs && IovSize(p) == p.dma
    ensures 0 < PAGE - PageOffset(p) <= p.lbs && 0 <= PageOffset(p) < PAGE
  {
    var q := p.lbs / p.dma;
    assert p.lbs == q * p.dma;
    assert q > 0;
    MulMono(1, q, p.dma);
    ModUnique(p.lbs, q, p.dma, 0) by { assert p.dma * q == q * p.dma; }
  }

  /** The tests without a loop, given the first offset and the whole length of the page vectors. */
  lemma NamedInside(p: Params, size: nat)
    requires Accepted(p) && p.lbs <= p.bytes && Need(p) <= size
    ensures Inside(FullSize(size), size) && Inside(DmaAligned(p), size) && Inside(InvalidDmaAlignment(p), size)
    ensures Inside(InvalidDmaVectorAlignment(p), size) && Inside(InvalidDmaVectorAlignmentLarge(p), size)
    ensures Inside(InvalidDmaVectorLength(p), size)
  {
    Sizes(p);
  }

  lemma PageVectorsInside(p: Params, size: nat)
    requires Accepted(p) && Need(p) <= size
    ensures Inside(UnalignedPageVectors(p), size)
  {
    Sizes(p);
    var whole := p.lbs * Mult(p);
    var head := PAGE - PageOffset(p);
    AffineInside(2, 8 * whole, 8 * whole, whole, size);
    var first, last := [Range(PageOffset(p), head)], [Range(24 * whole, whole - head)];
    assert Inside(first, size) && Inside(last, size);
    InsideConcat(first, Affine(2, 8 * whole, 8 * whole, whole), size);
    InsideConcat(first + Affine(2, 8 * whole, 8 * whole, whole), last, size);
  }

  lemma VectorsInside(p: Params, size: nat)
    requires Accepted(p) && Need(p) <= size
    ensures Inside(PageAlignedVectors(p), size) && Inside(DmaAlignedVectors(p), size)
    ensures Inside(UnalignedVectors(p), size) && Inside(InvalidStartingAddr(p), size)
  {
    Sizes(p);
    AffineInside(4, p.lbs * 4, 0, p.lbs * 2, size);
    AffineInside(4, p.lbs * 8 + p.dma, p.dma, p.lbs * 2, size);
    AffineInside(4, p.lbs * 8, 0, p.lbs / 2, size);
    AffineInside(3, p.lbs * 8, p.lbs * 8, p.lbs, size);
  }

  lemma ManyInside(dma: nat, lbs: nat, size: nat)
    requires dma <= lbs && lbs * 2047 <= size
    ensures Inside(Affine(320, dma * 2, 0, dma) + Affine(320, dma * 2, 0, lbs / 2), size)
  {
    var vectors, compared := Affine(320, dma * 2, 0, dma), Affine(320, dma * 2, 0, lbs / 2);
    assert Inside(vectors, size) by { AffineInside(320, dma * 2, 0, dma, size); }
    assert Inside(compared, size) by { AffineInside(320, dma * 2, 0, lbs / 2, size); }
    InsideConcat(vectors, compared, size);
  }

  lemma ManyVectorsInside(p: Params, size: nat)
    requires Accepted(p) && Need(p) <= size
    ensures Inside(MaxVectorLimits(p), size)
  {
    Sizes(p);
    ManyInside(IovSize(p), p.lbs, size);
  }

  lemma MiddleInsideIff(p: Params, size: nat)
    ensures Inside(InvalidMiddleAddr(p), size) <==> p.lbs * 2047 <= size
  {
    AffineInside(513, p.lbs * 2, 0, p.lbs, size);
    AffineInside(510, p.lbs * 2, p.lbs * 2 * 514, p.lbs, size);
    InsideConcat(Affine(513, p.lbs * 2, 0, p.lbs), Affine(510, p.lbs * 2, p.lbs * 2 * 514, p.lbs), size);
  }

  lemma TransferNeeded(p: Params, size: nat)
    ensures Inside(InvalidDmaVectorAlignmentLarge(p), size) ==> p.lbs <= p.bytes
    ensures Inside(InvalidDmaVectorLength(p), size) ==> p.bytes * 12 + (p.bytes - p.bytes / 2) <= size
  {
    assert InvalidDmaVectorAlignmentLarge(p)[0].len == p.bytes - p.lbs;
    assert InvalidDmaVectorLength(p)[3] == Range(12 * p.bytes, p.bytes - p.bytes / 2);
  }

  /** All ranges lie inside exactly when those of each test do. */
  lemma AllInsideSplit(p: Params, size: nat)
    requires Accepted(p)
    ensures Inside(AllRanges(p, size), size) <==>
      && Inside(FullSize(size), size) && Inside(DmaAligned(p), size) && Inside(PageAlignedVectors(p), size)
      && Inside(DmaAlignedVectors(p), size) && Inside(UnalignedPageVectors(p), size)
      && Inside(UnalignedVectors(p), size) && Inside(InvalidStartingAddr(p), size)
      && Inside(InvalidMiddleAddr(p), size) && Inside(InvalidDmaAlignment(p), size)
      && Inside(InvalidDmaVectorAlignment(p), size) && Inside(MaxVectorLimits(p), size)
      && Inside(InvalidDmaVectorAlignmentLarge(p), size) && Inside(InvalidDmaVectorLength(p), size)
  {
    var a1 := FullSize(size) + DmaAligned(p);
    InsideConcat(FullSize(size), DmaAligned(p), size);
    var a2 := a1 + PageAlignedVectors(p);
    InsideConcat(a1, PageAlignedVectors(p), size);
    var a3 := a2 + DmaAlignedVectors(p);
    InsideConcat(a2, DmaAlignedVectors(p), size);
    var a4 := a3 + UnalignedPageVectors(p);
    InsideConcat(a3, UnalignedPageVectors(p), size);
    var a5 := a4 + UnalignedVectors(p);
    InsideConcat(a4, UnalignedVectors(p), size);
    var a6 := a5 + InvalidStartingAddr(p);
    InsideConcat(a5, InvalidStartingAddr(p), size);
    var a7 := a6 + InvalidMiddleAddr(p);
    InsideConcat(a6, InvalidMiddleAddr(p), size);
    var a8 := a7 + InvalidDmaAlignment(p);
    InsideConcat(a7, InvalidDmaAlignment(p), size);
    var a9 := a8 + InvalidDmaVectorAlignment(p);
    InsideConcat(a8, InvalidDmaVectorAlignment(p), size);
    var a10 := a9 + MaxVectorLimits(p);
    InsideConcat(a9, MaxVectorLimits(p), size);
    var a11 := a10 + InvalidDmaVectorAlignmentLarge(p);
    InsideConcat(a10, InvalidDmaVectorAlignmentLarge(p), size);
    InsideConcat(a11, InvalidDmaVectorLength(p), size);
  }

  /** All ranges of all tests lie inside the buffers exactly when a transfer has a block at least and
      the buffers hold twelve and a half transfers and 2047 blocks. */
  lemma AllInsideIff(p: Params, size: nat)
    requires Accepted(p)
    ensures Inside(AllRanges(p, size), size) <==> p.lbs <= p.bytes && Need(p) <= size
  {
    AllInsideSplit(p, size);
    MiddleInsideIff(p, size);
    TransferNeeded(p, size);
    if p.lbs <= p.bytes && Need(p) <= size {
      NamedInside(p, size);
      PageVectorsInside(p, size);
      VectorsInside(p, size);
      ManyVectorsInside(p, size);
    }
  }

  lemma BlockExponent(lbs: nat) returns (k: nat)
    requires lbs == 512 || lbs == 1024 || lbs == 2048 || lbs == 4096
    ensures k <= 64 && lbs == Pow2(k)
  {
    assert Pow2(9) == 512 && Pow2(10) == 1024 && Pow2(11) == 2048 && Pow2(12) == 4096;
    k := if lbs == 512 then 9 else if lbs == 1024 then 10 else if lbs == 2048 then 11 else 12;
  }

  /** Half the product, or 4096 blocks if that is more. */
  function RawSize(p: Params): nat {
    var half := p.bytes * p.segments / 2;
    if half < p.lbs * 4096 then p.lbs * 4096 else half
  }

  function UpToBlock(size: nat, lbs: nat): nat
    requires lbs > 0
  {
    if size % lbs == 0 then size else size + (lbs - size % lbs)
  }

  lemma MaskRounds(size: nat, lbs: nat)
    requires lbs == 512 || lbs == 1024 || lbs == 2048 || lbs == 4096
    requires size + lbs <= U64
    ensures UpToBlock(size, lbs) == if And(size, lbs - 1) != 0 then And(size + (lbs - 1), U64 - 1 - (lbs - 1)) else size
  {
    var k := BlockExponent(lbs);
    AndLowMask(size, k);
    assert Pow2(64) == U64 by { Pow2Values(); }
    AndField(size + (lbs - 1), k, 64);
    RoundUpBlock(size, lbs);
    Remain(size + (lbs - 1), U64);
  }

  lemma Remain(x: nat, m: nat)
    requires x < m
    ensures x % m == x
  {
  }

  /** The computed size is that, rounded up to a block. */
  lemma ComputedSizeValue(p: Params)
    requires Accepted(p) && p.bytes * p.segments / 2 >= p.lbs * p.segments
    requires p.bytes <= 16384 * 1024 && p.segments <= 4096
    ensures ComputedSize(p) == Some(UpToBlock(RawSize(p), p.lbs))
  {
    MulMono(p.bytes, 16384 * 1024, p.segments);
    MaskRounds(RawSize(p), p.lbs);
  }

  lemma RoundUpBlock(size: nat, lbs: nat)
    requires lbs > 0
    ensures size % lbs != 0 ==> (size + (lbs - 1)) - (size + (lbs - 1)) % lbs == size + (lbs - size % lbs)
  {
    var q, r := size / lbs, size % lbs;
    if r != 0 {
      assert size + (lbs - 1) == (q + 1) * lbs + (r - 1);
      ModUnique(size + (lbs - 1), lbs, q + 1, r - 1);
    }
  }

  /** With accepted parameters, the size computed before the device is asked suffices exactly when
      there are at least 25 segments or twelve and a half transfers fit in 4096 blocks. */
  lemma ComputedSuffices(p: Params)
    requires Accepted(p) && p.bytes <= 16384 * 1024 && p.segments <= 4096
    requires ComputedSize(p).Some?
    ensures Need(p) <= ComputedSize(p).value <==>
      p.segments >= 25 || p.bytes * 12 + (p.bytes - p.bytes / 2) <= p.lbs * 4096
  {
    ComputedSizeValue(p);
    EvenBytes(p);
    HalfProduct25(p);
    RoundedStaysBelow(RawSize(p), 12 * p.bytes, p.lbs);
    RoundedStaysBelow(RawSize(p), 4096 * p.lbs, p.lbs);
    assert 4096 * p.lbs % p.lbs == 0 by { ModUnique(4096 * p.lbs, p.lbs, 4096, 0); }
  }

  /** From the caller's arguments: with block sizes from 512 to 4096 bytes, when the program gets as far
      as its tests, every range lies inside the buffers exactly when a transfer has a block at least,
      the device holds what is needed, and there are 25 segments or twelve and a half transfers fit in
      4096 blocks. */
  lemma InsideIffEnoughSegments(segments: nat, kbytes: nat, dmaMask: nat, virtMask: nat, lbs: nat, device: nat)
    requires 512 <= lbs <= 4096
    requires InitArgs(segments, kbytes, dmaMask, virtMask, lbs).Some?
    requires ComputedSize(InitArgs(segments, kbytes, dmaMask, virtMask, lbs).value).Some?
    ensures var p := InitArgs(segments, kbytes, dmaMask, virtMask, lbs).value;
      var size := BufSize(ComputedSize(p).value, device);
      Accepted(p) && (Inside(AllRanges(p, size), size) <==>
        && lbs <= p.bytes && Need(p) <= device
        && (segments >= 25 || p.bytes * 12 + (p.bytes - p.bytes / 2) <= lbs * 4096))
  {
    InitArgsAccepts(segments, kbytes, dmaMask, virtMask, lbs);
    var p := InitArgs(segments, kbytes, dmaMask, virtMask, lbs).value;
    ComputedSuffices(p);
    AllInsideIff(p, BufSize(ComputedSize(p).value, device));
  }

  /** A transfer of less than a block gets past the checks only when no segment is allowed. */
  lemma EmptyTransferOnlyWithoutSegments(p: Params)
    requires Accepted(p) && ComputedSize(p).Some? && p.bytes < p.lbs
    ensures p.segments == 0
  {
    if p.segments >= 1 { AtLeastTwoBlocks(p); }
  }

  lemma HalfProduct25(p: Params)
    requires p.bytes % 2 == 0
    ensures p.segments >= 25 ==> p.bytes * p.segments / 2 >= 25 * (p.bytes / 2)
    ensures p.segments <= 24 ==> p.bytes * p.segments / 2 <= 12 * p.bytes
  {
    var h := p.bytes / 2;
    assert p.bytes * p.segments == 2 * (p.segments * h);
    if p.segments >= 25 { MulMono(25, p.segments, h); } else { MulMono(p.segments, 24, h); }
  }

  lemma AtLeastTwoBlocks(p: Params)
    requires p.segments >= 1 && p.bytes * p.segments / 2 >= p.lbs * p.segments
    ensures p.bytes >= 2 * p.lbs
  {
    if p.bytes < 2 * p.lbs {
      assert p.bytes * p.segments >= (2 * p.lbs) * p.segments;
      assert (p.bytes + 1) * p.segments == p.bytes * p.segments + p.segments;
      MulMono(p.bytes + 1, 2 * p.lbs, p.segments);
    }
  }

  lemma EvenBytes(p: Params)
    requires Accepted(p)
    ensures p.bytes % 2 == 0 && 12 * p.bytes % p.lbs == 0
  {
    var q, h := p.bytes / p.lbs, p.lbs / 2;
    assert p.bytes == q * p.lbs;
    assert p.bytes % 2 == 0 by { EvenProduct(q, h); }
    assert 12 * p.bytes % p.lbs == 0 by { WholeProduct(q, p.lbs); }
  }

  lemma EvenProduct(q: nat, h: nat)
    ensures q * (2 * h) % 2 == 0
  {
    assert q * (2 * h) == (q * h) * 2;
  }

  lemma WholeProduct(q: nat, m: nat)
    requires m > 0
    ensures 12 * (q * m) % m == 0
  {
    assert 12 * (q * m) == (12 * q) * m;
    ModUnique(12 * (q * m), m, 12 * q, 0);
  }

  lemma RoundedStaysBelow(x: nat, m: nat, lbs: nat)
    requires lbs > 0
    ensures x <= m && m % lbs == 0 ==> UpToBlock(x, lbs) <= m
  {
    if x <= m && m % lbs == 0 && x % lbs != 0 {
      var q, n := x / lbs, m / lbs;
      assert x == q * lbs + x % lbs && m == n * lbs;
      QuotientBelow(q, n, lbs);
      MulMono(q + 1, n, lbs);
    }
  }

  lemma QuotientBelow(q: nat, n: nat, m: nat)
    requires q * m < n * m
    ensures q < n
  {
    if n <= q { MulMono(n, q, m); }
  }
}
