/** Counting the ring slots and kernel-held entries that belong to a tag or a kind. */
module UblkCounting {
  import opened UblkTypes
  import opened UblkSystem

  datatype Query = OfTag(tag: nat) | Under(bound: nat) | Commands | FileIos | All

  predicate Match(q: Query, key: Key) {
    match q
    case OfTag(t) => key.tag == t
    case Under(b) => key.tag < b
    case Commands => !key.tgt
    case FileIos => key.tgt
    case All => true
  }

  function One(q: Query, key: Key): nat { if Match(q, key) then 1 else 0 }

  function Count<T>(q: Query, s: seq<Entry<T>>): nat {
    if s == [] then 0 else Count(q, s[..|s| - 1]) + One(q, s[|s| - 1].key)
  }

  /** Everything in flight: prepared, held by the kernel, or completed and not yet looked at. */
  function Held(q: Query, s: Sys): nat
    requires Head(s) <= |s.cq|
  {
    Count(q, s.srv.sq) + Count(q, s.kern) + Count(q, s.cq[Head(s)..])
  }

  lemma {:induction false} CountConcat<T>(q: Query, a: seq<Entry<T>>, b: seq<Entry<T>>)
    ensures Count(q, a + b) == Count(q, a) + Count(q, b)
  {
    if b == [] {
      assert a + b == a;
    } else {
      CountConcat(q, a, b[..|b| - 1]);
      assert (a + b)[..|a + b| - 1] == a + b[..|b| - 1];
    }
  }

  lemma CountAppend<T>(q: Query, a: seq<Entry<T>>, e: Entry<T>)
    ensures Count(q, a + [e]) == Count(q, a) + One(q, e.key)
  {
    assert (a + [e])[..|a|] == a;
  }

  lemma SplitAt<T>(s: seq<T>, k: nat)
    requires k < |s|
    ensures s == s[..k] + ([s[k]] + s[k + 1..])
  {
    assert s[k..] == [s[k]] + s[k + 1..];
  }

  lemma CountRemove<T>(q: Query, s: seq<Entry<T>>, k: nat)
    requires k < |s|
    ensures Count(q, s) == Count(q, s[..k] + s[k + 1..]) + One(q, s[k].key)
  {
    SplitAt(s, k);
    CountConcat(q, s[..k], [s[k]] + s[k + 1..]);
    CountConcat(q, [s[k]], s[k + 1..]);
    CountAppend(q, [], s[k]);
    assert [] + [s[k]] == [s[k]];
    CountConcat(q, s[..k], s[k + 1..]);
  }

  lemma {:induction false} CountZero<T>(t: nat, s: seq<Entry<T>>)
    ensures Count(OfTag(t), s) == 0 <==> forall i :: 0 <= i < |s| ==> s[i].key.tag != t
  {
    if s == [] {
    } else {
      var r := s[..|s| - 1];
      CountZero(t, r);
      assert forall i :: 0 <= i < |r| ==> r[i] == s[i];
      if forall i :: 0 <= i < |r| ==> r[i].key.tag != t {
        assert s[|s| - 1].key.tag != t <==> forall i :: 0 <= i < |s| ==> s[i].key.tag != t;
      }
    }
  }

  lemma CountNext<T>(q: Query, s: seq<Entry<T>>, head: nat)
    requires head < |s|
    ensures Count(q, s[head..]) == One(q, s[head].key) + Count(q, s[head + 1..])
  {
    CountRemove(q, s[head..], 0);
    assert s[head..][..0] + s[head..][1..] == s[head + 1..];
  }

  /** An entry whose tag is counted once is the only one with that tag. */
  lemma OnlyOne<T>(s: seq<Entry<T>>, k: nat)
    requires k < |s|
    ensures Count(OfTag(s[k].key.tag), s) >= 1
    ensures Count(OfTag(s[k].key.tag), s) == 1 ==>
      forall i :: 0 <= i < |s| && i != k ==> s[i].key.tag != s[k].key.tag
  {
    var t := s[k].key.tag;
    var rest := s[..k] + s[k + 1..];
    CountRemove(OfTag(t), s, k);
    CountZero(t, rest);
    forall i | 0 <= i < |s| && i != k && Count(OfTag(t), s) == 1 ensures s[i].key.tag != t {
      assert s[i] == rest[if i < k then i else i - 1];
    }
  }

  lemma {:induction false} CountKinds<T>(s: seq<Entry<T>>)
    ensures Count(All, s) == |s| == Count(Commands, s) + Count(FileIos, s)
  {
    if s == [] {
    } else {
      CountKinds(s[..|s| - 1]);
    }
  }

  lemma {:induction false} CountUnder<T>(n: nat, s: seq<Entry<T>>)
    ensures Count(Under(0), s) == 0
    ensures Count(Under(n + 1), s) == Count(Under(n), s) + Count(OfTag(n), s)
    ensures (forall i :: 0 <= i < |s| ==> s[i].key.tag < n) ==> Count(Under(n), s) == |s|
  {
    if s == [] {
    } else {
      CountUnder(n, s[..|s| - 1]);
    }
  }

  /** The number of tags below `n` with nothing in flight. */
  function Dead(s: Sys, n: nat): nat
    requires Head(s) <= |s.cq|
  {
    if n == 0 then 0 else Dead(s, n - 1) + (if Held(OfTag(n - 1), s) == 0 then 1 else 0)
  }

  ghost predicate AtMostOne(s: Sys, n: nat)
    requires Head(s) <= |s.cq|
  {
    forall t :: 0 <= t < n ==> Held(OfTag(t), s) <= 1
  }

  lemma HeldUnder(s: Sys, n: nat)
    requires Head(s) <= |s.cq|
    ensures Held(Under(n + 1), s) == Held(Under(n), s) + Held(OfTag(n), s)
  {
    var rest := s.cq[Head(s)..];
    CountUnder(n, s.srv.sq);
    CountUnder(n, s.kern);
    CountUnder(n, rest);
  }

  lemma {:induction false} HeldPlusDead(s: Sys, n: nat)
    requires Head(s) <= |s.cq| && AtMostOne(s, n)
    ensures Held(Under(n), s) + Dead(s, n) == n
  {
    if n == 0 {
      CountUnder(0, s.srv.sq);
      CountUnder(0, s.kern);
      CountUnder(0, s.cq[Head(s)..]);
    } else {
      HeldPlusDead(s, n - 1);
      HeldUnder(s, n - 1);
      assert Held(OfTag(n - 1), s) <= 1;
    }
  }

  /** Pigeonhole: tags below `n`, each at most once, fill at most `n` places. */
  lemma HeldTotal(s: Sys, n: nat)
    requires Head(s) <= |s.cq| && AtMostOne(s, n)
    requires forall i :: 0 <= i < |s.srv.sq| ==> s.srv.sq[i].key.tag < n
    requires forall i :: 0 <= i < |s.kern| ==> s.kern[i].key.tag < n
    requires forall i :: Head(s) <= i < |s.cq| ==> s.cq[i].key.tag < n
    ensures |s.srv.sq| + |s.kern| + (|s.cq| - Head(s)) + Dead(s, n) == n
    ensures Held(Commands, s) + Held(FileIos, s) + Dead(s, n) == n
  {
    HeldPlusDead(s, n);
    var rest := s.cq[Head(s)..];
    CountUnder(n, s.srv.sq);
    CountUnder(n, s.kern);
    CountUnder(n, rest);
    CountKinds(s.srv.sq);
    CountKinds(s.kern);
    CountKinds(rest);
  }
}
