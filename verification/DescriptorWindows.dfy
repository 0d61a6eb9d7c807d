/** The page-rounded descriptor buffers that the queues of one device map. */
module DescriptorWindows {
  import opened Bits

  // sizeof(struct ublksrv_io_desc) and UBLK_MAX_QUEUE_DEPTH of linux/ublk_cmd.h, which is not part of this model
  const DESC_SIZE: nat := 24
  const MAX_QUEUE_DEPTH: nat := 4096
  // UBLK_MAX_QUEUES; a device with more queues is refused
  const MAX_QUEUES: nat := 4
  const U32: nat := 0x1_0000_0000

  /** The `round_up` macro in 32-bit unsigned arithmetic. */
  function RoundUp(val: nat, rnd: nat): nat
    requires 0 < rnd <= U32
  {
    And((val + (rnd - 1)) % U32, U32 - 1 - (rnd - 1))
  }

  function CmdBufSize(depth: nat, page: nat): nat
    requires 0 < page <= U32
  {
    RoundUp(depth * DESC_SIZE, page)
  }

  function MaxCmdBufSize(page: nat): nat
    requires 0 < page <= U32
  {
    CmdBufSize(MAX_QUEUE_DEPTH, page)
  }

  /** Where queue `q` maps its descriptors. */
  function WindowStart(base: nat, q: nat, page: nat): nat
    requires 0 < page <= U32
  {
    base + q * MaxCmdBufSize(page)
  }

  lemma LeastMultiple(val: nat, p: nat, r: nat)
    requires p > 0 && r == (val + (p - 1)) - (val + (p - 1)) % p
    ensures r % p == 0 && val <= r < val + p
    ensures forall m: nat :: m % p == 0 && m >= val ==> m >= r
  {
    var x := val + (p - 1);
    var q := x / p;
    assert r == q * p;
    ModUnique(r, p, q, 0);
    forall m: nat | m % p == 0 && m >= val ensures m >= r {
      var n := m / p;
      assert m == n * p;
      if n < q { MulMono(n + 1, q, p); } else { MulMono(q, n, p); }
    }
  }

  lemma Mask32(x: nat, k: nat, p: nat)
    requires k <= 32 && p == Pow2(k) && x < U32
    ensures p <= U32 && And(x, U32 - p) == x - x % p
  {
    assert Pow2(32) == U32 by { Pow2Values(); }
    AndField(x, k, 32);
    ModUnique(x, U32, 0, x);
  }

  lemma RoundUpValue(val: nat, k: nat, p: nat)
    requires k <= 32 && p == Pow2(k) && val + p <= U32
    ensures RoundUp(val, p) == (val + (p - 1)) - (val + (p - 1)) % p
  {
    var x := val + (p - 1);
    ModUnique(x, U32, 0, x);
    assert U32 - 1 - (p - 1) == U32 - p;
    Mask32(x, k, p);
  }

  /** For a power of two, `round_up` gives the least multiple that is not below its argument. */
  lemma RoundUpIsLeastMultiple(val: nat, k: nat)
    requires k <= 32 && val + Pow2(k) <= U32
    ensures var r := RoundUp(val, Pow2(k));
      && r % Pow2(k) == 0 && val <= r < val + Pow2(k)
      && forall m: nat :: m % Pow2(k) == 0 && m >= val ==> m >= r
  {
    var p := Pow2(k);
    RoundUpValue(val, k, p);
    LeastMultiple(val, p, RoundUp(val, p));
  }

  /** Windows of different queues are page-aligned and disjoint, and each holds every descriptor
      that a tag of its queue can address. */
  lemma WindowsDisjoint(base: nat, k: nat, q: nat, q': nat, depth: nat)
    requires k <= 32 && Pow2(k) <= 0x2000_0000 && base % Pow2(k) == 0 && q < q' < MAX_QUEUES
    requires depth <= MAX_QUEUE_DEPTH
    ensures var page := Pow2(k);
      && WindowStart(base, q, page) % page == 0 && WindowStart(base, q', page) % page == 0
      && WindowStart(base, q, page) + CmdBufSize(depth, page) <= WindowStart(base, q', page)
      && CmdBufSize(depth, page) <= MaxCmdBufSize(page)
      && forall tag: nat :: tag < depth ==> tag * DESC_SIZE + DESC_SIZE <= CmdBufSize(depth, page)
  {
    var page := Pow2(k);
    BuffersFit(depth, k);
    var size := MaxCmdBufSize(page);
    AlignedSum(base, q, size, page);
    AlignedSum(base, q', size, page);
    assert q * size + size <= q' * size by { MulMono(q + 1, q', size); }
  }

  /** Queue 0 maps its descriptors at the base offset, and the windows follow each other at the distance of
      the least number of whole pages that holds 4096 descriptors of 24 bytes. */
  lemma WindowsSpaced(base: nat, k: nat, q: nat)
    requires k <= 32 && Pow2(k) <= 0x2000_0000
    ensures WindowStart(base, 0, Pow2(k)) == base
    ensures var gap := WindowStart(base, q + 1, Pow2(k)) - WindowStart(base, q, Pow2(k));
      && gap % Pow2(k) == 0 && gap >= 98304
      && forall m: nat :: m % Pow2(k) == 0 && m >= 98304 ==> m >= gap
  {
    var size := MaxCmdBufSize(Pow2(k));
    RoundUpIsLeastMultiple(98304, k);
    assert (q + 1) * size == q * size + size;
  }

  /** The window of a queue is the least number of whole pages that holds its descriptors. */
  lemma WindowSize(depth: nat, k: nat)
    requires k <= 32 && Pow2(k) <= 0x2000_0000 && depth <= MAX_QUEUE_DEPTH
    ensures var size := CmdBufSize(depth, Pow2(k));
      && size % Pow2(k) == 0 && size >= depth * 24
      && forall m: nat :: m % Pow2(k) == 0 && m >= depth * 24 ==> m >= size
  {
    RoundUpIsLeastMultiple(depth * 24, k);
  }

  /** A buffer is page-aligned in size, at most the largest one, and holds all its descriptors. */
  lemma BuffersFit(depth: nat, k: nat)
    requires k <= 32 && Pow2(k) <= 0x2000_0000 && depth <= MAX_QUEUE_DEPTH
    ensures var page := Pow2(k);
      && MaxCmdBufSize(page) % page == 0
      && depth * DESC_SIZE <= CmdBufSize(depth, page) <= MaxCmdBufSize(page)
  {
    RoundUpIsLeastMultiple(depth * DESC_SIZE, k);
    RoundUpIsLeastMultiple(MAX_QUEUE_DEPTH * DESC_SIZE, k);
  }

  /** The `int` product of queue number and window size fits for every queue exactly up to a page
      size of 2^29. */
  lemma ProductFitsIff(k: nat)
    requires k <= 30 && Pow2(k) <= 0x4000_0000
    ensures (forall q: nat :: q < MAX_QUEUES ==> q * MaxCmdBufSize(Pow2(k)) < 0x8000_0000) <==> k <= 29
  {
    var page := Pow2(k);
    LargePages();
    RoundUpIsLeastMultiple(MAX_QUEUE_DEPTH * DESC_SIZE, k);
    var size := MaxCmdBufSize(page);
    if k <= 29 {
      Pow2Add(29 - k, k);
      ModUnique(Pow2(29), page, Pow2(29 - k), 0);
      assert size <= Pow2(29);
      forall q: nat | q < MAX_QUEUES ensures q * size < 0x8000_0000 { MulMono(q, 3, size); }
    } else {
      assert size >= page;
      assert 3 * size >= 0x8000_0000;
    }
  }

  lemma LargePages()
    ensures Pow2(29) == 0x2000_0000 && Pow2(30) == 0x4000_0000
  {
    Pow2Values();
    Pow2Add(24, 5);
    assert Pow2(5) == 32;
  }

  lemma AlignedSum(base: nat, q: nat, size: nat, page: nat)
    requires page > 0 && base % page == 0 && size % page == 0
    ensures (base + q * size) % page == 0
  {
    var a, b := base / page, size / page;
    assert base == a * page && size == b * page;
    assert q * (b * page) == (q * b) * page;
    assert base + q * size == (a + q * b) * page;
    ModUnique(base + q * size, page, a + q * b, 0);
  }
}
