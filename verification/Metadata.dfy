/** Writing and checking a buffer of per-block metadata. */
module Metadata {
  import opened Bits
  import opened TagBytes

  /** The parameters read from the device, all of them `unsigned char` or a flag. */
  datatype Layout = Layout(size: nat, piSize: nat, piOffset: nat, reftag: bool)

  ghost predicate LayoutOk(l: Layout) {
    l.size < 256 && l.piOffset + TupleLen(l) <= l.size
  }

  /** Bytes taken by the protection tuple; tuples of other sizes are filled like opaque bytes. */
  function TupleLen(l: Layout): nat {
    if l.reftag && (l.piSize == 8 || l.piSize == 16) then l.piSize else 0
  }

  /** No signed overflow in `ref + j + i`, so the tags stay nonnegative. */
  ghost predicate RefOk(ref: nat, intervals: nat) {
    ref + 2 * intervals + 256 < 0x8000_0000
  }

  /** From `p` on there is room for `count` intervals. */
  ghost predicate Fits(length: nat, p: nat, l: Layout, count: nat)
    decreases count
  {
    p <= length && (count == 0 || Fits(length, p + l.size, l, count - 1))
  }

  lemma {:induction false} FitsMeans(length: nat, p: nat, l: Layout, count: nat)
    ensures Fits(length, p, l, count) <==> p + count * l.size <= length
    decreases count
  {
    if count == 0 {
    } else {
      assert count * l.size == (count - 1) * l.size + l.size;
      assert (count - 1) * l.size >= 0;
      FitsMeans(length, p + l.size, l, count - 1);
    }
  }

  lemma FitsNext(length: nat, p: nat, l: Layout, count: nat)
    requires count > 0 && Fits(length, p, l, count)
    ensures p + l.size <= length && Fits(length, p + l.size, l, count - 1)
  {
  }

  function ToByte(x: int): Byte { x % 256 }

  /** The complement of a byte. */
  function Complemented(x: nat): Byte { 255 - x % 256 }

  lemma ComplementByte(x: nat)
    ensures ToByte(-(x as int) - 1) == Complemented(x)
  {
  }

  /** What the writer does to one byte of an interval. */
  datatype Cell = Free | Is(b: Byte)

  function Fill(c: Cell, b: Byte): Byte { if c.Free? then b else c.b }

  /** Byte `n` of a protection tuple of `t` bytes with reference tag `r`; guard, application and
      storage bytes are left alone. */
  function TupleCell(t: nat, r: nat, n: nat): Cell
    requires n < t && r < 0x8000_0000
  {
    if n + 4 >= t then Is(BigEndian(r)[n + 4 - t])
    else if t == 16 && n >= 10 then Is(0)
    else Free
  }

  /** Byte `j` of interval `i`, whose reference tag is `ref + i`. */
  function CellAt(l: Layout, ref: nat, i: nat, j: nat): Cell
    requires RefOk(ref, i)
  {
    var t := TupleLen(l);
    if j < l.piOffset then Is(ToByte(ref + 2 * i + j))
    else if j < l.piOffset + t then TupleCell(t, ref + i, j - l.piOffset)
    else Is(Complemented(ref + 2 * i + (j - l.piOffset - t)))
  }

  /** The buffer after one interval was written at `p`. */
  function SetInterval(s: seq<Byte>, p: nat, l: Layout, ref: nat, i: nat): (w: seq<Byte>)
    requires RefOk(ref, i)
    ensures |w| == |s|
  {
    seq(|s|, k requires 0 <= k < |s| => if p <= k < p + l.size then Fill(CellAt(l, ref, i, k - p), s[k]) else s[k])
  }

  /** The buffer after intervals `i` up to `n` were written from `p` on. */
  function Written(s: seq<Byte>, p: nat, l: Layout, ref: nat, i: nat, n: nat): (w: seq<Byte>)
    requires i <= n && RefOk(ref, n)
    ensures |w| == |s|
    decreases n - i
  {
    if i == n then s else Written(SetInterval(s, p, l, ref, i), p + l.size, l, ref, i + 1, n)
  }

  predicate CellOk(l: Layout, ref: nat, i: nat, j: nat, b: Byte)
    requires RefOk(ref, i)
  {
    Fill(CellAt(l, ref, i, j), b) == b
  }

  ghost predicate IntervalOk(s: seq<Byte>, p: nat, l: Layout, ref: nat, i: nat)
    requires RefOk(ref, i) && p + l.size <= |s|
  {
    forall k :: p <= k < p + l.size ==> CellOk(l, ref, i, k - p, s[k])
  }

  /** What the checker looks for. */
  ghost predicate ChecksOut(s: seq<Byte>, p: nat, l: Layout, ref: nat, i: nat, n: nat)
    requires i <= n && RefOk(ref, n) && Fits(|s|, p, l, n - i)
    decreases n - i
  {
    i == n || (FitsNext(|s|, p, l, n - i);
               IntervalOk(s, p, l, ref, i) && ChecksOut(s, p + l.size, l, ref, i + 1, n))
  }

  lemma {:induction false} WrittenBefore(s: seq<Byte>, p: nat, l: Layout, ref: nat, i: nat, n: nat, k: nat)
    requires i <= n && RefOk(ref, n) && k < p && k < |s|
    ensures Written(s, p, l, ref, i, n)[k] == s[k]
    decreases n - i
  {
    if i >= n {
    } else {
      WrittenBefore(SetInterval(s, p, l, ref, i), p + l.size, l, ref, i + 1, n, k);
    }
  }

  lemma IntervalOkIffKept(s: seq<Byte>, p: nat, l: Layout, ref: nat, i: nat)
    requires RefOk(ref, i) && p + l.size <= |s|
    ensures IntervalOk(s, p, l, ref, i) <==> SetInterval(s, p, l, ref, i) == s
  {
    var w := SetInterval(s, p, l, ref, i);
    if IntervalOk(s, p, l, ref, i) {
      forall k | 0 <= k < |s| ensures w[k] == s[k] {
        if p <= k < p + l.size { assert CellOk(l, ref, i, k - p, s[k]); }
      }
    } else {
      var k :| p <= k < p + l.size && !CellOk(l, ref, i, k - p, s[k]);
      assert w[k] != s[k];
    }
  }

  /** The checker accepts exactly the buffers that the writer would leave as they are. */
  lemma {:induction false} ChecksOutIffKept(s: seq<Byte>, p: nat, l: Layout, ref: nat, i: nat, n: nat)
    requires i <= n && RefOk(ref, n) && Fits(|s|, p, l, n - i)
    ensures ChecksOut(s, p, l, ref, i, n) <==> Written(s, p, l, ref, i, n) == s
    decreases n - i
  {
    if i >= n {
    } else {
      FitsNext(|s|, p, l, n - i);
      var w := SetInterval(s, p, l, ref, i);
      IntervalOkIffKept(s, p, l, ref, i);
      ChecksOutIffKept(s, p + l.size, l, ref, i + 1, n);
      if Written(s, p, l, ref, i, n) == s {
        forall k | 0 <= k < |s| ensures w[k] == s[k] {
          if k < p + l.size { WrittenBefore(w, p + l.size, l, ref, i + 1, n, k); }
        }
        assert w == s;
      }
    }
  }

  /** The bytes of an interval that the writer leaves and the checker skips. */
  predicate Skipped(l: Layout, j: nat) {
    l.piOffset <= j < l.piOffset + (if TupleLen(l) == 8 then 4 else if TupleLen(l) == 16 then 10 else 0)
  }

  /** Two buffers agree on all bytes of `n - i` intervals but the skipped ones. */
  ghost predicate SameUnskipped(s: seq<Byte>, w: seq<Byte>, p: nat, l: Layout, count: nat)
    requires |s| == |w| && Fits(|s|, p, l, count)
    decreases count
  {
    count == 0 || (FitsNext(|s|, p, l, count);
                   && (forall k :: p <= k < p + l.size && !Skipped(l, k - p) ==> s[k] == w[k])
                   && SameUnskipped(s, w, p + l.size, l, count - 1))
  }

  lemma SkippedIffFree(l: Layout, ref: nat, i: nat, j: nat)
    requires RefOk(ref, i) && j < l.size
    ensures Skipped(l, j) <==> CellAt(l, ref, i, j).Free?
  {
  }

  /** The checker accepts a buffer exactly when it agrees with what the writer makes of any other
      buffer, on every byte but the skipped guard, application and storage bytes. */
  lemma {:induction false} ChecksOutIffAgrees(
    s: seq<Byte>, other: seq<Byte>, p: nat, l: Layout, ref: nat, i: nat, n: nat)
    requires i <= n && RefOk(ref, n) && |s| == |other| && Fits(|s|, p, l, n - i)
    ensures ChecksOut(s, p, l, ref, i, n) <==> SameUnskipped(s, Written(other, p, l, ref, i, n), p, l, n - i)
    decreases n - i
  {
    if i >= n {
    } else {
      FitsNext(|s|, p, l, n - i);
      var o := SetInterval(other, p, l, ref, i);
      var w := Written(other, p, l, ref, i, n);
      ChecksOutIffAgrees(s, o, p + l.size, l, ref, i + 1, n);
      forall k | p <= k < p + l.size
        ensures CellOk(l, ref, i, k - p, s[k]) <==> (Skipped(l, k - p) || s[k] == w[k])
      {
        WrittenBefore(o, p + l.size, l, ref, i + 1, n, k);
        SkippedIffFree(l, ref, i, k - p);
      }
    }
  }

  /** What was written checks out. */
  lemma {:induction false} WrittenChecksOut(s: seq<Byte>, p: nat, l: Layout, ref: nat, i: nat, n: nat)
    requires i <= n && RefOk(ref, n) && Fits(|s|, p, l, n - i)
    ensures ChecksOut(Written(s, p, l, ref, i, n), p, l, ref, i, n)
    decreases n - i
  {
    var w := Written(s, p, l, ref, i, n);
    SameAsItself(w, p, l, n - i);
    ChecksOutIffAgrees(w, s, p, l, ref, i, n);
  }

  /** Bytes from position `k` on are untouched when the `n - i` intervals end at or before `k`. */
  lemma {:induction false} WrittenBehind(s: seq<Byte>, p: nat, l: Layout, ref: nat, i: nat, n: nat, k: nat)
    requires i <= n && RefOk(ref, n) && Fits(k, p, l, n - i) && k < |s|
    ensures Written(s, p, l, ref, i, n)[k] == s[k]
    decreases n - i
  {
    if i >= n {
    } else {
      FitsNext(k, p, l, n - i);
      WrittenBehind(SetInterval(s, p, l, ref, i), p + l.size, l, ref, i + 1, n, k);
    }
  }

  lemma {:induction false} SameAsItself(w: seq<Byte>, p: nat, l: Layout, count: nat)
    requires Fits(|w|, p, l, count)
    ensures SameUnskipped(w, w, p, l, count)
    decreases count
  {
    if count == 0 {
    } else {
      FitsNext(|w|, p, l, count);
      SameAsItself(w, p + l.size, l, count - 1);
    }
  }

  // ----- the content of a buffer, in plain terms

  /** The bytes of a protection tuple in the layout; tuples of other sizes do not count as such. */
  ghost predicate HasTuple(l: Layout, t: nat) {
    t == if !l.reftag then 0 else if l.piSize == 8 then 8 else if l.piSize == 16 then 16 else 0
  }

  /** From `p` to `e`, bytes counted up from `x`. */
  ghost predicate CountsUp(s: seq<Byte>, p: nat, e: nat, x: nat)
    requires e <= |s|
  {
    forall k :: p <= k < e ==> s[k] == ((x + (k - p)) % 256)
  }

  /** From `p` to `e`, the complements of bytes counted up from `x`. */
  ghost predicate CountsDown(s: seq<Byte>, p: nat, e: nat, x: nat)
    requires e <= |s|
  {
    forall k :: p <= k < e ==> s[k] == (255 - (x + (k - p)) % 256)
  }

  /** The tuple of `t` bytes that ends at `e` has its tag, most significant byte first, in the last four
      bytes, and the long tuple has two zero bytes before it. */
  ghost predicate Tagged(s: seq<Byte>, e: nat, t: nat, tag: nat)
    requires t <= e <= |s| && (t == 8 || t == 16)
  {
    Big32(s[e - 4], s[e - 3], s[e - 2], s[e - 1]) == tag && (t == 16 ==> s[e - 6] == 0 && s[e - 5] == 0)
  }

  /** The interval at `p`: head, tuple of `t` bytes with tag `tag`, and tail. */
  ghost predicate HoldsInterval(s: seq<Byte>, p: nat, l: Layout, t: nat, x: nat, tag: nat)
    requires tag < 0x8000_0000
  {
    var e := p + l.piOffset + t;
    && e <= p + l.size <= |s|
    && CountsUp(s, p, p + l.piOffset, x)
    && (t == 8 || t == 16 ==> Tagged(s, e, t, tag))
    && CountsDown(s, e, p + l.size, x)
  }

  /** Interval `k` is counted from `ref + 2 * k` and has the reference tag `ref + k`. */
  ghost predicate HoldsAt(s: seq<Byte>, l: Layout, t: nat, ref: nat, k: nat)
    requires RefOk(ref, k)
  {
    HoldsInterval(s, k * l.size, l, t, ref + 2 * k, ref + k)
  }

  ghost predicate Holds(s: seq<Byte>, l: Layout, t: nat, ref: nat, n: nat)
    requires RefOk(ref, n)
  {
    forall k :: 0 <= k < n ==> HoldsAt(s, l, t, ref, k)
  }

  /** The cells of a short tuple, all of them, against the tag. */
  lemma ShortTuple(tag: nat, b: seq<Byte>)
    requires |b| == 8 && tag < 0x8000_0000
    ensures (forall n :: 0 <= n < 8 ==> Fill(TupleCell(8, tag, n), b[n]) == b[n]) <==>
      [b[4], b[5], b[6], b[7]] == BigEndian(tag)
  {
    var big := BigEndian(tag);
    assert forall n :: 4 <= n < 8 ==> TupleCell(8, tag, n) == Is(big[n - 4]);
    assert forall n :: 0 <= n < 4 ==> TupleCell(8, tag, n) == Free;
  }

  /** The same of a long one. */
  lemma LongTuple(tag: nat, b: seq<Byte>)
    requires |b| == 16 && tag < 0x8000_0000
    ensures (forall n :: 0 <= n < 16 ==> Fill(TupleCell(16, tag, n), b[n]) == b[n]) <==>
      [b[12], b[13], b[14], b[15]] == BigEndian(tag) && b[10] == 0 && b[11] == 0
  {
    var big := BigEndian(tag);
    assert forall n :: 12 <= n < 16 ==> TupleCell(16, tag, n) == Is(big[n - 12]);
    assert TupleCell(16, tag, 10) == Is(0) && TupleCell(16, tag, 11) == Is(0);
    assert forall n :: 0 <= n < 10 ==> TupleCell(16, tag, n) == Free;
  }

  ghost predicate TupleOk(s: seq<Byte>, r: nat)
    requires r < 0x8000_0000
  {
    forall n :: 0 <= n < |s| ==> Fill(TupleCell(|s|, r, n), s[n]) == s[n]
  }

  lemma TupleCells(s: seq<Byte>, p: nat, l: Layout, ref: nat, i: nat)
    requires LayoutOk(l) && RefOk(ref, i) && p + l.size <= |s|
    ensures var q := p + l.piOffset; var e := q + TupleLen(l);
      TupleOk(s[q..e], ref + i) <==> forall k :: q <= k < e ==> CellOk(l, ref, i, k - p, s[k])
  {
    var q := p + l.piOffset;
    var e := q + TupleLen(l);
    var t := s[q..e];
    if TupleOk(t, ref + i) {
      forall k | q <= k < e ensures CellOk(l, ref, i, k - p, s[k]) {
        assert t[k - q] == s[k];
      }
    } else {
      var n :| 0 <= n < |t| && Fill(TupleCell(|t|, ref + i, n), t[n]) != t[n];
      assert s[q + n] == t[n] && !CellOk(l, ref, i, q + n - p, s[q + n]);
    }
  }

  lemma TaggedIff(s: seq<Byte>, q: nat, t: nat, tag: nat)
    requires (t == 8 || t == 16) && q + t <= |s| && tag < 0x8000_0000
    ensures TupleOk(s[q..q + t], tag) <==> Tagged(s, q + t, t, tag)
  {
    var b, e := s[q..q + t], q + t;
    if t == 8 { ShortTuple(tag, b); } else { LongTuple(tag, b); }
    assert [b[t - 4], b[t - 3], b[t - 2], b[t - 1]] == [s[e - 4], s[e - 3], s[e - 2], s[e - 1]];
    Big32Is(s[e - 4], s[e - 3], s[e - 2], s[e - 1], tag);
    assert t == 16 ==> b[10] == s[e - 6] && b[11] == s[e - 5];
  }

  /** The bytes from `from` to `to` of the interval at `p` check out. */
  ghost predicate CellsOk(s: seq<Byte>, p: nat, l: Layout, ref: nat, i: nat, from: nat, to: nat)
    requires RefOk(ref, i) && p <= from && to <= |s|
  {
    forall k :: from <= k < to ==> CellOk(l, ref, i, k - p, s[k])
  }

  lemma HeadIff(s: seq<Byte>, p: nat, l: Layout, ref: nat, i: nat)
    requires RefOk(ref, i) && p + l.piOffset <= |s|
    ensures CellsOk(s, p, l, ref, i, p, p + l.piOffset) <==> CountsUp(s, p, p + l.piOffset, ref + 2 * i)
  {
    forall k | p <= k < p + l.piOffset
      ensures CellOk(l, ref, i, k - p, s[k]) <==> s[k] == ((ref + 2 * i + (k - p)) % 256)
    {
    }
  }

  lemma TailIff(s: seq<Byte>, p: nat, l: Layout, ref: nat, i: nat)
    requires RefOk(ref, i) && LayoutOk(l) && p + l.size <= |s|
    ensures var e := p + l.piOffset + TupleLen(l);
      CellsOk(s, p, l, ref, i, e, p + l.size) <==> CountsDown(s, e, p + l.size, ref + 2 * i)
  {
    var e := p + l.piOffset + TupleLen(l);
    forall k | e <= k < p + l.size
      ensures CellOk(l, ref, i, k - p, s[k]) <==> s[k] == (255 - (ref + 2 * i + (k - e)) % 256)
    {
      assert k - p - l.piOffset - TupleLen(l) == k - e;
    }
  }

  lemma MiddleIff(s: seq<Byte>, p: nat, l: Layout, ref: nat, i: nat)
    requires RefOk(ref, i) && LayoutOk(l) && p + l.size <= |s|
    ensures var q, t := p + l.piOffset, TupleLen(l);
      CellsOk(s, p, l, ref, i, q, q + t) <==> (t == 8 || t == 16 ==> Tagged(s, q + t, t, ref + i))
  {
    var q, t := p + l.piOffset, TupleLen(l);
    if t > 0 {
      TupleCells(s, p, l, ref, i);
      TaggedIff(s, q, t, ref + i);
    }
  }

  lemma IntervalOkSplit(s: seq<Byte>, p: nat, l: Layout, ref: nat, i: nat, q: nat, e: nat)
    requires RefOk(ref, i) && p <= q <= e <= p + l.size <= |s|
    ensures IntervalOk(s, p, l, ref, i) <==>
      && CellsOk(s, p, l, ref, i, p, q) && CellsOk(s, p, l, ref, i, q, e) && CellsOk(s, p, l, ref, i, e, p + l.size)
  {
  }

  /** Head and tail of an interval, given its tuple. */
  lemma EndsIff(s: seq<Byte>, p: nat, l: Layout, ref: nat, i: nat)
    requires RefOk(ref, i) && LayoutOk(l) && p + l.size <= |s|
    ensures var q, e := p + l.piOffset, p + l.piOffset + TupleLen(l);
      IntervalOk(s, p, l, ref, i) <==>
        && CountsUp(s, p, q, ref + 2 * i) && CellsOk(s, p, l, ref, i, q, e)
        && CountsDown(s, e, p + l.size, ref + 2 * i)
  {
    IntervalOkSplit(s, p, l, ref, i, p + l.piOffset, p + l.piOffset + TupleLen(l));
    HeadIff(s, p, l, ref, i);
    TailIff(s, p, l, ref, i);
  }

  /** An interval checks out exactly when it holds what is described. */
  lemma IntervalOkIffHolds(s: seq<Byte>, p: nat, l: Layout, ref: nat, i: nat)
    requires RefOk(ref, i) && LayoutOk(l) && p + l.size <= |s|
    ensures IntervalOk(s, p, l, ref, i) <==> HoldsInterval(s, p, l, TupleLen(l), ref + 2 * i, ref + i)
  {
    EndsIff(s, p, l, ref, i);
    MiddleIff(s, p, l, ref, i);
  }

  lemma {:induction false} ChecksOutFromIff(s: seq<Byte>, p: nat, l: Layout, t: nat, ref: nat, i: nat, n: nat)
    requires i <= n && RefOk(ref, n) && LayoutOk(l) && HasTuple(l, t) && p == i * l.size && Fits(|s|, p, l, n - i)
    ensures ChecksOut(s, p, l, ref, i, n) <==> forall k :: i <= k < n ==> HoldsAt(s, l, t, ref, k)
    decreases n - i
  {
    if i == n {
    } else {
      FitsNext(|s|, p, l, n - i);
      assert (i + 1) * l.size == p + l.size;
      IntervalOkIffHolds(s, p, l, ref, i);
      assert IntervalOk(s, p, l, ref, i) <==> HoldsAt(s, l, t, ref, i);
      ChecksOutFromIff(s, p + l.size, l, t, ref, i + 1, n);
    }
  }

  /** A buffer checks out exactly when each interval holds what is described. */
  lemma ChecksOutIffHolds(s: seq<Byte>, l: Layout, t: nat, ref: nat, n: nat)
    requires RefOk(ref, n) && LayoutOk(l) && HasTuple(l, t) && Fits(|s|, 0, l, n)
    ensures ChecksOut(s, 0, l, ref, 0, n) <==> Holds(s, l, t, ref, n)
  {
    ChecksOutFromIff(s, 0, l, t, ref, 0, n);
  }

  /** The bytes in front of the written end of the tuple: guard and application tags, and the storage tag. */
  function Gap(t: nat): nat { if t == 8 then 4 else if t == 16 then 10 else 0 }

  /** Outside what the intervals describe, `w` is as `s`: in the gaps, and behind the last interval. */
  ghost predicate Untouched(s: seq<Byte>, w: seq<Byte>, l: Layout, t: nat, n: nat)
    requires |s| == |w|
  {
    && (forall k :: 0 <= k < n ==> SameGap(s, w, l, t, k))
    && SameFrom(s, w, n * l.size)
  }

  ghost predicate SameFrom(s: seq<Byte>, w: seq<Byte>, end: nat)
    requires |s| == |w|
  {
    forall m :: end <= m < |s| ==> w[m] == s[m]
  }

  ghost predicate SameGap(s: seq<Byte>, w: seq<Byte>, l: Layout, t: nat, k: nat)
    requires |s| == |w|
  {
    var q := k * l.size + l.piOffset;
    q + t <= |s| && forall m :: q <= m < q + Gap(t) && m < |s| ==> w[m] == s[m]
  }

  /** A byte in the gap of interval `k`, which begins at `b`. */
  lemma {:induction false} GapKept(
      s: seq<Byte>, p: nat, l: Layout, t: nat, ref: nat, i: nat, n: nat, k: nat, b: nat, m: nat)
    requires i <= k < n && RefOk(ref, n) && LayoutOk(l) && HasTuple(l, t)
    requires p == i * l.size && b == k * l.size && b + l.size <= |s|
    requires b + l.piOffset <= m < b + l.piOffset + Gap(t)
    ensures m < |s| && Written(s, p, l, ref, i, n)[m] == s[m]
    decreases n - i
  {
    var w := SetInterval(s, p, l, ref, i);
    assert (i + 1) * l.size == p + l.size;
    if i == k {
      assert CellAt(l, ref, i, m - p) == Free;
      WrittenBefore(w, p + l.size, l, ref, i + 1, n, m);
    } else {
      MulMono(i + 1, k, l.size);
      GapKept(w, p + l.size, l, t, ref, i + 1, n, k, b, m);
    }
  }

  lemma GapsKept(s: seq<Byte>, l: Layout, t: nat, ref: nat, n: nat, k: nat, b: nat)
    requires RefOk(ref, n) && LayoutOk(l) && HasTuple(l, t) && k < n && b == k * l.size && b + l.size <= |s|
    ensures SameGap(s, Written(s, 0, l, ref, 0, n), l, t, k)
  {
    forall m | b + l.piOffset <= m < b + l.piOffset + Gap(t) ensures m < |s| && Written(s, 0, l, ref, 0, n)[m] == s[m] {
      GapKept(s, 0, l, t, ref, 0, n, k, b, m);
    }
  }

  lemma IntervalFits(k: nat, n: nat, size: nat)
    requires k < n
    ensures k * size + size <= n * size
  {
    MulMono(k + 1, n, size);
    assert (k + 1) * size == k * size + size;
  }

  lemma RestKept(s: seq<Byte>, l: Layout, ref: nat, n: nat)
    requires RefOk(ref, n)
    ensures SameFrom(s, Written(s, 0, l, ref, 0, n), n * l.size)
  {
    var end := n * l.size;
    forall m | end <= m < |s| ensures Written(s, 0, l, ref, 0, n)[m] == s[m] {
      FitsMeans(m, 0, l, n);
      WrittenBehind(s, 0, l, ref, 0, n, m);
    }
  }

  lemma GapOfInterval(s: seq<Byte>, l: Layout, t: nat, ref: nat, n: nat, k: nat)
    requires RefOk(ref, n) && LayoutOk(l) && HasTuple(l, t) && n * l.size <= |s| && k < n
    ensures SameGap(s, Written(s, 0, l, ref, 0, n), l, t, k)
  {
    IntervalFits(k, n, l.size);
    GapsKept(s, l, t, ref, n, k, k * l.size);
  }

  lemma WrittenUntouched(s: seq<Byte>, l: Layout, t: nat, ref: nat, n: nat)
    requires RefOk(ref, n) && LayoutOk(l) && HasTuple(l, t) && n * l.size <= |s|
    ensures Untouched(s, Written(s, 0, l, ref, 0, n), l, t, n)
  {
    var w := Written(s, 0, l, ref, 0, n);
    forall k | 0 <= k < n ensures SameGap(s, w, l, t, k) { GapOfInterval(s, l, t, ref, n, k); }
    RestKept(s, l, ref, n);
  }

  lemma WrittenHolds(s: seq<Byte>, l: Layout, t: nat, ref: nat, n: nat)
    requires RefOk(ref, n) && LayoutOk(l) && HasTuple(l, t) && n * l.size <= |s|
    ensures Holds(Written(s, 0, l, ref, 0, n), l, t, ref, n)
  {
    FitsMeans(|s|, 0, l, n);
    WrittenChecksOut(s, 0, l, ref, 0, n);
    ChecksOutIffHolds(Written(s, 0, l, ref, 0, n), l, t, ref, n);
  }

  /** What the writer leaves: the described intervals, and everything else as it was. */
  lemma WrittenMeans(s: seq<Byte>, l: Layout, t: nat, ref: nat, n: nat)
    requires RefOk(ref, n) && LayoutOk(l) && HasTuple(l, t) && n * l.size <= |s|
    ensures var w := Written(s, 0, l, ref, 0, n);
      Holds(w, l, t, ref, n) && Untouched(s, w, l, t, n)
  {
    WrittenHolds(s, l, t, ref, n);
    WrittenUntouched(s, l, t, ref, n);
  }

  // ----- the writer

  method Put(buf: array<Byte>, at: nat, bytes: seq<Byte>)
    requires at + |bytes| <= buf.Length
    modifies buf
    ensures forall k :: 0 <= k < buf.Length ==>
      buf[k] == if at <= k < at + |bytes| then bytes[k - at] else old(buf[k])
  {
    for n := 0 to |bytes|
      invariant forall k :: 0 <= k < buf.Length ==> buf[k] == if at <= k < at + n then bytes[k - at] else old(buf[k])
    {
      buf[at + n] := bytes[n];
    }
  }

  /** The tag of a short tuple, as a swapped 32-bit store. */
  method PutShort(buf: array<Byte>, p: nat, r: nat)
    requires p + 8 <= buf.Length && r < 0x8000_0000
    modifies buf
    ensures forall k :: 0 <= k < buf.Length ==>
      buf[k] == if p <= k < p + 8 then Fill(TupleCell(8, r, k - p), old(buf[k])) else old(buf[k])
  {
    var tag := Store32(Swap(r));
    assert tag == BigEndian(r) by { SwapStoresBigEndian(r); }
    Put(buf, p + 4, tag);
  }

  /** The tag of a long tuple, in 48 bits. */
  method PutLong(buf: array<Byte>, p: nat, r: nat)
    requires p + 16 <= buf.Length && r < 0x8000_0000
    modifies buf
    ensures forall k :: 0 <= k < buf.Length ==>
      buf[k] == if p <= k < p + 16 then Fill(TupleCell(16, r, k - p), old(buf[k])) else old(buf[k])
  {
    assert Put48(r) == [0, 0] + BigEndian(r) by { Put48Pads(r); }
    Put(buf, p + 10, Put48(r));
  }

  /** The reference tag of one tuple, at `p`. */
  method PutTuple(buf: array<Byte>, p: nat, l: Layout, r: nat)
    requires p + TupleLen(l) <= buf.Length && r < 0x8000_0000
    modifies buf
    ensures forall k :: 0 <= k < buf.Length ==>
      buf[k] == if p <= k < p + TupleLen(l) then Fill(TupleCell(TupleLen(l), r, k - p), old(buf[k])) else old(buf[k])
  {
    if l.reftag && l.piSize == 8 {
      PutShort(buf, p, r);
    } else if l.reftag && l.piSize == 16 {
      PutLong(buf, p, r);
    }
  }

  /** The bytes in front of the tuple. */
  method PutHead(buf: array<Byte>, p: nat, n: nat, x: nat)
    requires p + n <= buf.Length
    modifies buf
    ensures forall k :: 0 <= k < buf.Length ==> buf[k] == if p <= k < p + n then ToByte(x + (k - p)) else old(buf[k])
  {
    for j := 0 to n
      invariant forall k :: 0 <= k < buf.Length ==>
        buf[k] == if p <= k < p + j then ToByte(x + (k - p)) else old(buf[k])
    {
      buf[p + j] := ToByte(x + j);
    }
  }

  /** The bytes behind the tuple, counted from its end and complemented. */
  method PutTail(buf: array<Byte>, p: nat, n: nat, x: nat)
    requires p + n <= buf.Length
    modifies buf
    ensures forall k :: 0 <= k < buf.Length ==>
      buf[k] == if p <= k < p + n then Complemented(x + (k - p)) else old(buf[k])
  {
    for j := 0 to n
      invariant forall k :: 0 <= k < buf.Length ==>
        buf[k] == if p <= k < p + j then Complemented(x + (k - p)) else old(buf[k])
    {
      ComplementByte(x + j);
      buf[p + j] := ToByte(-(x + j) - 1);
    }
  }

  /** One turn of the writer's loop. */
  method InitInterval(buf: array<Byte>, p: nat, l: Layout, ref: nat, i: nat)
    requires LayoutOk(l) && RefOk(ref, i) && p + l.size <= buf.Length
    modifies buf
    ensures buf[..] == SetInterval(old(buf[..]), p, l, ref, i)
  {
    PutHead(buf, p, l.piOffset, ref + i + i);
    var q := p + l.piOffset;
    PutTuple(buf, q, l, ref + i);
    var e := q + TupleLen(l);
    PutTail(buf, e, p + l.size - e, ref + i + i);
  }

  /** init_metadata: the buffer afterwards is the written one, and the walk covers `intervals * size` bytes. */
  method InitMetadata(buf: array<Byte>, l: Layout, intervals: nat, ref: nat) returns (p: nat)
    requires LayoutOk(l) && RefOk(ref, intervals) && intervals * l.size <= buf.Length
    modifies buf
    ensures buf[..] == Written(old(buf[..]), 0, l, ref, 0, intervals)
    ensures forall t :: HasTuple(l, t) ==>
      Holds(buf[..], l, t, ref, intervals) && Untouched(old(buf[..]), buf[..], l, t, intervals)
    ensures p == intervals * l.size <= buf.Length
  {
    FitsMeans(buf.Length, 0, l, intervals);
    forall t | HasTuple(l, t)
      ensures var w := Written(buf[..], 0, l, ref, 0, intervals);
        Holds(w, l, t, ref, intervals) && Untouched(buf[..], w, l, t, intervals)
    {
      WrittenMeans(buf[..], l, t, ref, intervals);
    }
    p := 0;
    for i := 0 to intervals
      invariant Fits(buf.Length, p, l, intervals - i) && p == i * l.size
      invariant Written(old(buf[..]), 0, l, ref, 0, intervals) == Written(buf[..], p, l, ref, i, intervals)
    {
      FitsNext(buf.Length, p, l, intervals - i);
      InitInterval(buf, p, l, ref, i);
      assert (i + 1) * l.size == i * l.size + l.size;
      p := p + l.size;
    }
  }

  // ----- the checker

  /** Only the last bytes of a tuple are looked at. */
  lemma TupleOkTail(s: seq<Byte>, r: nat, skip: nat, tag: seq<Byte>)
    requires r < 0x8000_0000
    requires (|s| == 8 && skip == 4 && tag == BigEndian(r))
          || (|s| == 16 && skip == 10 && tag == [0, 0] + BigEndian(r))
    ensures TupleOk(s, r) <==> s[skip..] == tag
  {
    forall n | skip <= n < |s| ensures TupleCell(|s|, r, n) == Is(tag[n - skip]) {}
    if s[skip..] == tag {
      forall n | 0 <= n < |s| ensures Fill(TupleCell(|s|, r, n), s[n]) == s[n] {
        if skip <= n { assert s[n] == s[skip..][n - skip]; }
      }
    } else {
      var k :| 0 <= k < |tag| && s[skip..][k] != tag[k];
      assert TupleCell(|s|, r, skip + k) == Is(tag[k]);
    }
  }

  method CheckTuple(buf: array<Byte>, p: nat, l: Layout, r: nat) returns (ok: bool)
    requires p + TupleLen(l) <= buf.Length && r < 0x8000_0000
    ensures ok <==> TupleOk(buf[p..p + TupleLen(l)], r)
  {
    if l.reftag && l.piSize == 8 {
      ok := Swap(Load32(buf[p + 4], buf[p + 5], buf[p + 6], buf[p + 7])) == r;
      ghost var s := buf[p..p + 8];
      SwapLoadChecks(s[4..], r);
      TupleOkTail(s, r, 4, BigEndian(r));
    } else if l.reftag && l.piSize == 16 {
      ok := Get48(buf[p + 10], buf[p + 11], buf[p + 12], buf[p + 13], buf[p + 14], buf[p + 15]) == r;
      ghost var s := buf[p..p + 16];
      Get48Checks(s[10..], r);
      TupleOkTail(s, r, 10, [0, 0] + BigEndian(r));
    } else {
      ok := true;
    }
  }

  /** The loop over the bytes in front of the tuple. */
  method CheckHead(buf: array<Byte>, p: nat, l: Layout, ref: nat, i: nat) returns (ok: bool)
    requires RefOk(ref, i) && p + l.piOffset <= buf.Length
    ensures ok <==> CellsOk(buf[..], p, l, ref, i, p, p + l.piOffset)
  {
    var r := ref + i;
    for j := 0 to l.piOffset
      invariant CellsOk(buf[..], p, l, ref, i, p, p + j)
    {
      assert r + j + i == ref + 2 * i + j;
      if buf[p + j] != ToByte(r + j + i) {
        assert !CellOk(l, ref, i, p + j - p, buf[..][p + j]);
        return false;
      }
    }
    return true;
  }

  /** The loop over the bytes behind it. */
  method CheckTail(buf: array<Byte>, p: nat, l: Layout, ref: nat, i: nat) returns (ok: bool)
    requires LayoutOk(l) && RefOk(ref, i) && p + l.size <= buf.Length
    ensures ok <==> CellsOk(buf[..], p, l, ref, i, p + l.piOffset + TupleLen(l), p + l.size)
  {
    var r, e := ref + i, p + l.piOffset + TupleLen(l);
    for j := 0 to p + l.size - e
      invariant CellsOk(buf[..], p, l, ref, i, e, e + j)
    {
      ComplementByte(r + j + i);
      assert CellAt(l, ref, i, e + j - p) == Is(Complemented(r + j + i));
      if buf[e + j] != ToByte(-(r + j + i) - 1) {
        assert !CellOk(l, ref, i, e + j - p, buf[..][e + j]);
        return false;
      }
    }
    return true;
  }

  /** One turn of the checker's loop. */
  method CheckInterval(buf: array<Byte>, p: nat, l: Layout, ref: nat, i: nat) returns (ok: bool)
    requires LayoutOk(l) && RefOk(ref, i) && p + l.size <= buf.Length
    ensures ok <==> IntervalOk(buf[..], p, l, ref, i)
  {
    var q, e := p + l.piOffset, p + l.piOffset + TupleLen(l);
    IntervalOkSplit(buf[..], p, l, ref, i, q, e);
    ok := CheckHead(buf, p, l, ref, i);
    if !ok { return; }
    ok := CheckTuple(buf, q, l, ref + i);
    TupleCells(buf[..], p, l, ref, i);
    assert buf[q..e] == buf[..][q..e];
    if !ok { return; }
    ok := CheckTail(buf, p, l, ref, i);
  }

  /** check_metadata: zero exactly for the buffers that hold what init_metadata writes. */
  method CheckMetadata(buf: array<Byte>, l: Layout, intervals: nat, ref: nat) returns (ret: int)
    requires LayoutOk(l) && RefOk(ref, intervals) && intervals * l.size <= buf.Length
    ensures ret == 0 || ret == -1
    ensures ret == 0 <==> (FitsMeans(buf.Length, 0, l, intervals); ChecksOut(buf[..], 0, l, ref, 0, intervals))
    ensures forall t :: HasTuple(l, t) ==> (ret == 0 <==> Holds(buf[..], l, t, ref, intervals))
  {
    FitsMeans(buf.Length, 0, l, intervals);
    forall t | HasTuple(l, t)
      ensures ChecksOut(buf[..], 0, l, ref, 0, intervals) <==> Holds(buf[..], l, t, ref, intervals)
    {
      ChecksOutIffHolds(buf[..], l, t, ref, intervals);
    }
    var p := 0;
    for i := 0 to intervals
      invariant 0 <= p && Fits(buf.Length, p, l, intervals - i)
      invariant ChecksOut(buf[..], 0, l, ref, 0, intervals) <==> ChecksOut(buf[..], p, l, ref, i, intervals)
    {
      FitsNext(buf.Length, p, l, intervals - i);
      var ok := CheckInterval(buf, p, l, ref, i);
      if !ok { return -1; }
      p := p + l.size;
    }
    return 0;
  }
}
