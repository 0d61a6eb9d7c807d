/** What a tag's event word says: requests, results and commits in order. */
module UblkWords {
  import opened UblkTypes
  import opened UblkInvariant

  predicate IsCommit(e: Event) { e.Issue? && e.sqe.data.Commit? }

  predicate IsFetch(e: Event) { e.Issue? && e.sqe.data.Fetch? }

  function Occurrences(w: seq<Event>, p: Event -> bool): nat {
    if w == [] then 0 else Occurrences(w[..|w| - 1], p) + (if p(w[|w| - 1]) then 1 else 0)
  }

  /** A request has been delivered and its commit is still to come. */
  predicate Outstanding(e: Event) { e.Deliver? || e.Done? || (e.Issue? && e.sqe.data.FileIo?) }

  lemma WordPrefix(target: Target, t: nat, w: seq<Event>, n: nat)
    requires WordOk(target, t, w) && n <= |w|
    ensures WordOk(target, t, w[..n])
  {
    forall i | 0 < i < n ensures Follows(target, t, w[..n][i - 1], w[..n][i]) {
      assert Follows(target, t, w[i - 1], w[i]);
    }
  }

  /** Entries in a word carry the tag, and user data that tells file operations from commands. */
  lemma {:induction false} WordEntries(target: Target, t: nat, w: seq<Event>, i: nat)
    requires WordOk(target, t, w) && i < |w|
    ensures w[i].Issue? ==> w[i].sqe.key.tag == t && !w[i].sqe.data.Unprepared?
    ensures w[i].Issue? ==> (w[i].sqe.key.tgt <==> w[i].sqe.data.FileIo?)
    ensures w[i].Done? || (w[i].Issue? && w[i].sqe.key.tgt) ==> target.Loop?
    ensures IsFetch(w[i]) <==> i == 0
  {
    if i == 0 {
    } else {
      WordEntries(target, t, w, i - 1);
      assert Follows(target, t, w[i - 1], w[i]);
    }
  }

  /** The result of a null request is its byte count cut to a signed 32-bit number. */
  ghost predicate NullResult(d: Iod, result: int) {
    && Int32(result) && (result - d.nrSectors * 512) % TWO_32 == 0
    && (d.nrSectors < 0x40_0000 ==> result == d.nrSectors * 512)
  }

  /** The file operation of a request: its own operation on its own byte range, the length cut to 32
      bits and the offset to 64. */
  ghost predicate FileRange(d: Iod, b: Body) {
    && b.FileIo? && b.op == d.op
    && b.len < TWO_32 && (b.len - d.nrSectors * 512) % TWO_32 == 0
    && (d.nrSectors < 0x80_0000 ==> b.len == d.nrSectors * 512)
    && b.offset < TWO_64 && (b.offset - d.startSector * 512) % TWO_64 == 0
    && (d.startSector < 0x80_0000_0000_0000 ==> b.offset == d.startSector * 512)
  }

  lemma NullResultOf(d: Iod)
    ensures NullResult(d, ToS32(ByteLen(d)))
  {
    CutMultiple(d.nrSectors * 512, TWO_32);
  }

  lemma FileRangeOf(t: nat, d: Iod)
    ensures FileRange(d, FileSqe(t, d).data)
  {
    CutMultiple(d.nrSectors * 512, TWO_32);
    CutMultiple(d.startSector * 512, TWO_64);
  }

  lemma CutMultiple(x: nat, m: nat)
    requires m == TWO_32 || m == TWO_64
    ensures x % m < m && (x % m - x) % m == 0 && (x < m ==> x % m == x)
  {
  }

  /** Each commit answers the request just delivered, with that request's own result. */
  lemma CommitCarriesOwnResult(target: Target, t: nat, w: seq<Event>, i: nat)
    requires WordOk(target, t, w) && i < |w| && IsCommit(w[i])
    ensures target.Null? ==>
      && i >= 2 && w[i - 1].Deliver?
      && w[i] == Issue(CommitSqe(t, w[i].sqe.data.result)) && NullResult(w[i - 1].iod, w[i].sqe.data.result)
    ensures target.Loop? ==>
      && i >= 4 && w[i - 3].Deliver? && w[i - 2].Issue?
      && w[i - 2].sqe.key == Key(t, w[i - 3].iod.op, true) && FileRange(w[i - 3].iod, w[i - 2].sqe.data)
      && w[i - 1].Done? && w[i] == Issue(CommitSqe(t, w[i - 1].res))
  {
    WordEntries(target, t, w, i);
    assert Follows(target, t, w[i - 1], w[i]);
    WordEntries(target, t, w, i - 1);
    if target.Null? {
      WordEntries(target, t, w, i - 2);
      NullResultOf(w[i - 1].iod);
    } else {
      assert Follows(target, t, w[i - 2], w[i - 1]);
      WordEntries(target, t, w, i - 2);
      assert Follows(target, t, w[i - 3], w[i - 2]);
      WordEntries(target, t, w, i - 3);
      FileRangeOf(t, w[i - 3].iod);
    }
  }

  /** Distance from a delivery to its commit. */
  function Span(target: Target): nat { if target.Null? then 1 else 3 }

  /** Each delivered request is committed, unless the word ends on it. */
  lemma DeliveryIsCommitted(target: Target, t: nat, w: seq<Event>, i: nat)
    requires WordOk(target, t, w) && i < |w| && w[i].Deliver?
    ensures if i + Span(target) < |w| then IsCommit(w[i + Span(target)])
            else Outstanding(Last(w)) && (Last(w).Deliver? ==> i == |w| - 1)
  {
    if i + 1 < |w| { assert Follows(target, t, w[i], w[i + 1]); }
    if i + 2 < |w| { assert Follows(target, t, w[i + 1], w[i + 2]); }
    if i + 3 < |w| { assert Follows(target, t, w[i + 2], w[i + 3]); }
  }

  /** FETCH is issued once, commits match deliveries one for one, and nothing follows a refusal. */
  lemma {:induction false} WordCounts(target: Target, t: nat, w: seq<Event>)
    requires WordOk(target, t, w)
    ensures Occurrences(w, IsFetch) == if w == [] then 0 else 1
    ensures Occurrences(w, (e: Event) => e.Deliver?) ==
      Occurrences(w, IsCommit) + (if w != [] && Outstanding(Last(w)) then 1 else 0)
    ensures Occurrences(w, (e: Event) => e.Refuse?) == if w != [] && Last(w).Refuse? then 1 else 0
  {
    if w == [] {
    } else {
      var n := |w| - 1;
      WordPrefix(target, t, w, n);
      WordCounts(target, t, w[..n]);
      WordEntries(target, t, w, n);
      if n > 0 {
        assert Follows(target, t, w[n - 1], w[n]);
        assert Last(w[..n]) == w[n - 1];
        WordEntries(target, t, w, n - 1);
      }
    }
  }
}
