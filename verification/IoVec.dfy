/** A list of memory segments that is appended to, truncated in place and written out. */
module IoVec {

  /** `sg_iovec_t`, with addresses as indices into one memory. */
  datatype Seg = Seg(base: nat, len: nat)

  function Total(v: seq<Seg>): nat {
    if v == [] then 0 else Total(v[..|v| - 1]) + v[|v| - 1].len
  }

  ghost predicate InMemory(v: seq<Seg>, size: nat) {
    forall i :: 0 <= i < |v| ==> v[i].base + v[i].len <= size
  }

  function Bytes<T>(s: Seg, mem: seq<T>): (out: seq<T>)
    requires s.base + s.len <= |mem|
    ensures |out| == s.len
  {
    mem[s.base..s.base + s.len]
  }

  /** The bytes the list stands for, in order. */
  function Output<T>(v: seq<Seg>, mem: seq<T>): seq<T>
    requires InMemory(v, |mem|)
  {
    if v == [] then [] else Output(v[..|v| - 1], mem) + Bytes(v[|v| - 1], mem)
  }

  lemma {:induction false} OutputLength<T>(v: seq<Seg>, mem: seq<T>)
    requires InMemory(v, |mem|)
    ensures |Output(v, mem)| == Total(v)
  {
    if v == [] {
    } else {
      OutputLength(v[..|v| - 1], mem);
    }
  }

  lemma {:induction false} TotalMonotone(v: seq<Seg>, i: nat)
    requires i <= |v|
    ensures Total(v[..i]) <= Total(v)
  {
    if i == |v| {
      assert v[..i] == v;
    } else {
      TotalMonotone(v[..|v| - 1], i);
      assert v[..|v| - 1][..i] == v[..i];
    }
  }

  /** The output of the first segments is a prefix of the whole output. */
  lemma {:induction false} OutputPrefix<T>(v: seq<Seg>, i: nat, mem: seq<T>)
    requires i <= |v| && InMemory(v, |mem|)
    ensures Output(v[..i], mem) <= Output(v, mem)
  {
    if i == |v| {
      assert v[..i] == v;
    } else {
      OutputPrefix(v[..|v| - 1], i, mem);
      assert v[..|v| - 1][..i] == v[..i];
    }
  }

  lemma TotalStep(v: seq<Seg>, i: nat)
    requires i < |v|
    ensures Total(v[..i + 1]) == Total(v[..i]) + v[i].len
  {
    assert v[..i + 1][..i] == v[..i];
  }

  /** Cutting the list inside segment `i` cuts the output at the same place. */
  lemma CutOutput<T>(v: seq<Seg>, i: nat, n: nat, mem: seq<T>)
    requires i < |v| && n <= v[i].len && InMemory(v, |mem|)
    ensures var cut := v[..i] + [v[i].(len := n)];
      && InMemory(cut, |mem|)
      && Total(v[..i]) + n <= |Output(v, mem)|
      && Output(cut, mem) == Output(v, mem)[..Total(v[..i]) + n]
  {
    var cut := v[..i] + [v[i].(len := n)];
    assert cut[..|cut| - 1] == v[..i];
    assert v[..i + 1][..i] == v[..i];
    var front, whole := Output(v[..i], mem), Output(v[..i + 1], mem);
    OutputLength(v[..i], mem);
    assert whole == front + Bytes(v[i], mem);
    assert whole <= Output(v, mem) by { OutputPrefix(v, i + 1, mem); }
    CutEnd(front, Bytes(v[i], mem), n, Output(v, mem));
  }

  lemma CutEnd<T>(front: seq<T>, last: seq<T>, n: nat, all: seq<T>)
    requires n <= |last| && front + last <= all
    ensures |front| + n <= |all| && all[..|front| + n] == front + last[..n]
  {
    assert all[..|front| + n] == (front + last)[..|front| + n];
  }

  class Vector {
    var v: seq<Seg>

    constructor ()
      ensures v == []
    {
      v := [];
    }

    method Append(base: nat, len: nat)
      modifies this
      ensures v == old(v) + [Seg(base, len)]
    {
      v := v + [Seg(base, len)];
    }

    method DataLen() returns (len: nat)
      ensures len == Total(v)
    {
      len := 0;
      for i := 0 to |v|
        invariant len == Total(v[..i])
      {
        TotalStep(v, i);
        len := len + v[i].len;
      }
      assert v[..|v|] == v;
    }

    /** Segments before the one in which `len` bytes are reached stay, that one is shortened, and the
        rest goes; a list that is too short stays as it is.  The assertion of the code cannot fire. */
    method Trunc(len: nat)
      modifies this
      ensures v == Truncated(old(v), len)
    {
      var s := 0;
      var p := 0;
      while p < |v|
        invariant p <= |v| && v == old(v) && s == Total(v[..p])
        invariant s < len || p == 0
        invariant Truncated(v, len) == TruncatedFrom(v, p, len)
      {
        TotalStep(v, p);
        s := s + v[p].len;
        if s >= len {
          var cut := v[p].len - (s - len);
          assert cut > 0 || (cut == 0 && len == 0);
          v := v[..p] + [v[p].(len := cut)];
          break;
        }
        p := p + 1;
      }
    }

    method Write<T>(mem: seq<T>) returns (out: seq<T>)
      requires InMemory(v, |mem|)
      ensures out == Output(v, mem)
    {
      out := [];
      for i := 0 to |v|
        invariant out == Output(v[..i], mem)
      {
        assert v[..i + 1][..i] == v[..i];
        out := out + Bytes(v[i], mem);
      }
      assert v[..|v|] == v;
    }
  }

  /** Byte `k` of segment `i` comes from that place of the memory. */
  lemma {:induction false} OutputAt<T>(v: seq<Seg>, mem: seq<T>, i: nat, k: nat)
    requires InMemory(v, |mem|) && i < |v| && k < v[i].len
    ensures Total(v[..i]) + k < |Output(v, mem)|
    ensures Output(v, mem)[Total(v[..i]) + k] == mem[v[i].base + k]
  {
    var n := |v| - 1;
    OutputLength(v[..n], mem);
    if i == n {
    } else {
      OutputAt(v[..n], mem, i, k);
      assert v[..n][..i] == v[..i];
    }
  }

  /** The list after truncation, seen from segment `p` on. */
  function TruncatedFrom(v: seq<Seg>, p: nat, len: nat): seq<Seg>
    requires p <= |v| && (Total(v[..p]) < len || p == 0)
    decreases |v| - p
  {
    if p == |v| then v
    else
      TotalStep(v, p);
      if Total(v[..p + 1]) >= len then v[..p] + [v[p].(len := if p == 0 then len else len - Total(v[..p]))]
      else TruncatedFrom(v, p + 1, len)
  }

  lemma TruncatedHere(v: seq<Seg>, p: nat, len: nat)
    requires p < |v| && (Total(v[..p]) < len || p == 0) && Total(v[..p + 1]) >= len
    ensures Total(v[..p]) <= len
    ensures TruncatedFrom(v, p, len) == v[..p] + [v[p].(len := len - Total(v[..p]))]
  {
    TotalStep(v, p);
    assert p == 0 ==> v[..p] == [];
  }

  function Truncated(v: seq<Seg>, len: nat): seq<Seg> { TruncatedFrom(v, 0, len) }

  /** `t` holds min(len, data_len) bytes: the prefix of that length of what `v` stands for. */
  ghost predicate Prefixed<T>(t: seq<Seg>, v: seq<Seg>, len: nat, mem: seq<T>)
    requires InMemory(v, |mem|)
  {
    && InMemory(t, |mem|)
    && Total(t) == (if len <= Total(v) then len else Total(v)) <= |Output(v, mem)|
    && Output(t, mem) == Output(v, mem)[..Total(t)]
  }

  lemma WholePrefixed<T>(v: seq<Seg>, len: nat, mem: seq<T>)
    requires InMemory(v, |mem|) && Total(v) <= len
    ensures Prefixed(v, v, len, mem)
  {
    OutputLength(v, mem);
  }

  lemma CutPrefixed<T>(v: seq<Seg>, p: nat, len: nat, mem: seq<T>)
    requires p < |v| && InMemory(v, |mem|)
    requires Total(v[..p]) <= len <= Total(v[..p + 1])
    ensures Prefixed(v[..p] + [v[p].(len := len - Total(v[..p]))], v, len, mem)
  {
    TotalStep(v, p);
    TotalMonotone(v, p + 1);
    var n := len - Total(v[..p]);
    CutOutput(v, p, n, mem);
    var t := v[..p] + [v[p].(len := n)];
    assert t[..|t| - 1] == v[..p];
  }

  lemma {:induction false} TruncatedFromMeans<T>(v: seq<Seg>, p: nat, len: nat, mem: seq<T>)
    requires p <= |v| && (Total(v[..p]) < len || p == 0) && InMemory(v, |mem|)
    ensures Prefixed(TruncatedFrom(v, p, len), v, len, mem)
    decreases |v| - p
  {
    if p == |v| {
      assert v[..p] == v;
      WholePrefixed(v, len, mem);
    } else if Total(v[..p + 1]) >= len {
      TruncatedHere(v, p, len);
      CutPrefixed(v, p, len, mem);
    } else {
      TruncatedFromMeans(v, p + 1, len, mem);
    }
  }

  /** `trunc(len)` leaves min(len, data_len) bytes: the prefix of that length of the old output. */
  lemma TruncKeepsPrefix<T>(v: seq<Seg>, len: nat, mem: seq<T>)
    requires InMemory(v, |mem|)
    ensures var t := Truncated(v, len);
      && InMemory(t, |mem|)
      && Total(t) == (if len <= Total(v) then len else Total(v)) <= |Output(v, mem)|
      && Output(t, mem) == Output(v, mem)[..Total(t)]
  {
    TruncatedFromMeans(v, 0, len, mem);
  }

  /** The list `t` is `v` up to the first segment in which `len` bytes are reached, that one shortened in
      its place; a list that is too short stays as it is. */
  ghost predicate CutAt(t: seq<Seg>, v: seq<Seg>, len: nat) {
    if Total(v) < len then t == v
    else if v == [] then t == []
    else
      var n := |t| - 1;
      && 0 <= n < |v| && t[..n] == v[..n]
      && t[n].base == v[n].base && Total(t) == len
      && (n > 0 ==> Total(v[..n]) < len) && Total(v[..n + 1]) >= len
  }

  lemma CutHere(v: seq<Seg>, p: nat, len: nat)
    requires p < |v| && Total(v[..p]) <= len <= Total(v[..p + 1]) && (p > 0 ==> Total(v[..p]) < len)
    ensures CutAt(v[..p] + [v[p].(len := len - Total(v[..p]))], v, len)
  {
    TotalMonotone(v, p + 1);
    var t := v[..p] + [v[p].(len := len - Total(v[..p]))];
    assert t[..p] == v[..p] && |t| - 1 == p;
  }

  lemma {:induction false} TruncatedShape(v: seq<Seg>, p: nat, len: nat)
    requires p <= |v| && (Total(v[..p]) < len || p == 0)
    ensures CutAt(TruncatedFrom(v, p, len), v, len)
    decreases |v| - p
  {
    if p == |v| {
      assert v[..p] == v;
      assert TruncatedFrom(v, p, len) == v;
      assert v != [] ==> Total(v) < len;
    } else if Total(v[..p + 1]) >= len {
      TruncatedHere(v, p, len);
      CutHere(v, p, len);
    } else {
      TruncatedShape(v, p + 1, len);
    }
  }

  /** The list for scattered transfers: every other 4 bytes of a buffer of twice the length. */
  function Scattered(len: nat, n: nat): seq<Seg>
    requires n <= len / 4
  {
    seq(n, i requires 0 <= i < n => Seg(4 + i * 8, 4))
  }

  // `4 + i * 8` is computed in `int`
  const MAX_LEN: nat := 0x4000_0000

  method BuildScattered(len: nat) returns (iov: Vector)
    requires len <= MAX_LEN
    ensures fresh(iov) && iov.v == Scattered(len, len / 4)
  {
    iov := new Vector();
    var i := 0;
    while i < len / 4
      invariant i <= len / 4 && fresh(iov) && iov.v == Scattered(len, i)
    {
      iov.Append(4 + i * 8, if 4 <= len - i * 4 then 4 else len - i * 4);
      i := i + 1;
    }
  }

  /** The scattered segments are disjoint and lie in the doubled buffer, every one of them behind four
      free bytes, and they hold the length rounded down to a multiple of four. */
  lemma ScatteredLayout(len: nat)
    ensures var v := Scattered(len, len / 4);
      && InMemory(v, 2 * len)
      && |v| == len / 4 && (forall i :: 0 <= i < |v| ==> v[i].len == 4 && v[i].base >= 4)
      && (forall i :: 1 <= i < |v| ==> v[i].base == v[i - 1].base + v[i - 1].len + 4)
      && (v != [] ==> v[0].base == 4)
      && (forall i, j :: 0 <= i < j < |v| ==> v[i].base + v[i].len < v[j].base)
      && Total(v) == 4 * (len / 4)
  {
    ScatteredTotal(len, len / 4);
  }

  lemma {:induction false} ScatteredTotal(len: nat, n: nat)
    requires n <= len / 4
    ensures Total(Scattered(len, n)) == 4 * n
  {
    if n == 0 {
    } else {
      ScatteredTotal(len, n - 1);
      assert Scattered(len, n)[..n - 1] == Scattered(len, n - 1);
    }
  }
}
