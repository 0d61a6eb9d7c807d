/** How a sorted list of test names is cut into one run per test group. */
module Batching {

  /** The shell expansion for the group: everything before the last slash, or the whole name without one. */
  function Group(name: string): string {
    if '/' !in name then name
    else if name[|name| - 1] == '/' then name[..|name| - 1]
    else Group(name[..|name| - 1])
  }

  function Flatten<T>(runs: seq<seq<T>>): seq<T> {
    if runs == [] then [] else Flatten(runs[..|runs| - 1]) + runs[|runs| - 1]
  }

  lemma FlattenAppend<T>(runs: seq<seq<T>>, r: seq<T>)
    ensures Flatten(runs + [r]) == Flatten(runs) + r
  {
    assert (runs + [r])[..|runs|] == runs;
  }

  ghost predicate OneGroup(r: seq<string>, g: string) {
    r != [] && forall i :: 0 <= i < |r| ==> Group(r[i]) == g
  }

  /** Each run is of one group, and neighbours are of different groups. */
  ghost predicate CutAtGroups(runs: seq<seq<string>>) {
    && (forall i :: 0 <= i < |runs| ==> runs[i] != [] && OneGroup(runs[i], Group(runs[i][0])))
    && (forall i :: 0 <= i < |runs| - 1 ==> Group(runs[i][0]) != Group(runs[i + 1][0]))
  }

  ghost predicate AnyFails(runs: seq<seq<string>>, succeeds: seq<string> -> bool) {
    exists i :: 0 <= i < |runs| && !succeeds(runs[i])
  }

  ghost predicate Covers(runs: seq<seq<string>>, ret: int, succeeds: seq<string> -> bool, names: seq<string>) {
    Flatten(runs) == names && CutAtGroups(runs) && ret == if AnyFails(runs, succeeds) then 1 else 0
  }

  ghost predicate LastDiffers(runs: seq<seq<string>>, g: string) {
    runs != [] ==> runs[|runs| - 1] != [] && Group(runs[|runs| - 1][0]) != g
  }

  lemma LastGroup(runs: seq<seq<string>>, r: seq<string>, g: string, next: string)
    requires OneGroup(r, g) && next != g
    ensures LastDiffers(runs + [r], next)
  {
  }

  lemma OneGroupGrows(r: seq<string>, name: string)
    requires r == [] || OneGroup(r, Group(name))
    ensures OneGroup(r + [name], Group(name))
  {
  }

  lemma CutAppend(runs: seq<seq<string>>, r: seq<string>, g: string)
    requires CutAtGroups(runs) && OneGroup(r, g)
    requires LastDiffers(runs, g)
    ensures CutAtGroups(runs + [r])
  {
    var all := runs + [r];
    forall i | 0 <= i < |all| ensures all[i] != [] && OneGroup(all[i], Group(all[i][0])) {
      if i < |runs| { assert all[i] == runs[i]; }
    }
  }

  /** `( _run_group "${tests[@]}" )` and its exit status. */
  method RunGroup(runs: seq<seq<string>>, ret: int, tests: seq<string>, succeeds: seq<string> -> bool, ghost g: string,
                  ghost names: seq<string>)
      returns (runs': seq<seq<string>>, ret': int)
    requires Covers(runs, ret, succeeds, names) && OneGroup(tests, g)
    requires LastDiffers(runs, g)
    ensures Covers(runs', ret', succeeds, names + tests) && runs' == runs + [tests]
  {
    runs', ret' := runs + [tests], ret;
    if !succeeds(tests) { ret' := 1; }
    FlattenAppend(runs, tests);
    FailsAppend(runs, tests, succeeds);
    CutAppend(runs, tests, g);
  }

  lemma Snoc<T>(names: seq<T>, i: nat, done: seq<T>, tests: seq<T>)
    requires i < |names| && done + tests == names[..i]
    ensures done + (tests + [names[i]]) == names[..i + 1]
  {
  }

  /** The loop of `_check`: the runs cover the list in order, are cut where the group changes, and
      the result is 1 exactly when a run failed. */
  method RunGroups(names: seq<string>, succeeds: seq<string> -> bool) returns (runs: seq<seq<string>>, ret: int)
    ensures Flatten(runs) == names && CutAtGroups(runs)
    ensures ret == if AnyFails(runs, succeeds) then 1 else 0
  {
    runs, ret := [], 0;
    var tests: seq<string>, prev := [], "";
    ghost var done: seq<string> := [];
    for i := 0 to |names|
      invariant Covers(runs, ret, succeeds, done) && done + tests == names[..i]
      invariant tests != [] ==> OneGroup(tests, prev)
      invariant tests == [] ==> runs == []
      invariant LastDiffers(runs, prev)
    {
      var group := Group(names[i]);
      if group != prev {
        if |tests| > 0 {
          LastGroup(runs, tests, prev, group);
          runs, ret := RunGroup(runs, ret, tests, succeeds, prev, done);
          done := done + tests;
          tests := [];
        }
        prev := group;
      }
      Snoc(names, i, done, tests);
      OneGroupGrows(tests, names[i]);
      tests := tests + [names[i]];
    }
    assert names[..|names|] == names;
    if |tests| > 0 {
      runs, ret := RunGroup(runs, ret, tests, succeeds, prev, done);
    }
  }

  lemma FailsAppend(runs: seq<seq<string>>, r: seq<string>, succeeds: seq<string> -> bool)
    ensures AnyFails(runs + [r], succeeds) <==> AnyFails(runs, succeeds) || !succeeds(r)
  {
    var all := runs + [r];
    if AnyFails(runs, succeeds) {
      var i :| 0 <= i < |runs| && !succeeds(runs[i]);
      assert all[i] == runs[i];
    }
    if !succeeds(r) { assert !succeeds(all[|runs|]); }
  }

  // ----- sorted lists of names group/NNN

  predicate LexLess(a: string, b: string) {
    b != "" && (a == "" || a[0] < b[0] || (a[0] == b[0] && LexLess(a[1..], b[1..])))
  }

  ghost predicate Sorted(names: seq<string>) {
    forall i, j :: 0 <= i < j < |names| ==> LexLess(names[i], names[j])
  }

  /** One slash, with a slash-free group before it and a slash-free test behind it. */
  ghost predicate WellFormed(name: string) {
    exists i :: SlashAt(name, i)
  }

  predicate SlashAt(name: string, i: int) {
    0 <= i < |name| && name[i] == '/' && '/' !in name[..i] && '/' !in name[i + 1..]
  }

  lemma {:induction false} GroupIsBeforeSlash(name: string, i: nat)
    requires SlashAt(name, i)
    ensures Group(name) == name[..i]
    decreases |name|
  {
    assert name[i] in name;
    var n := |name| - 1;
    if i == n {
    } else {
      assert name[n] == name[i + 1..][n - i - 1];
      var s := name[..n];
      assert s[..i] == name[..i] && s[i + 1..] == name[i + 1..][..n - i - 1];
      GroupIsBeforeSlash(s, i);
    }
  }

  /** The expansion cuts a name at its last slash, and leaves a name without one as it is. */
  lemma {:induction false} GroupIsBeforeLastSlash(name: string)
    ensures '/' !in name ==> Group(name) == name
    ensures '/' in name ==>
      var n := |Group(name)|;
      n < |name| && Group(name) == name[..n] && name[n] == '/' && forall k :: n < k < |name| ==> name[k] != '/'
    decreases |name|
  {
    if '/' !in name || name[|name| - 1] == '/' {
    } else {
      var front := name[..|name| - 1];
      assert name == front + [name[|name| - 1]];
      GroupIsBeforeLastSlash(front);
      var n := |Group(name)|;
      assert front[..n] == name[..n];
      forall k | n < k < |name| ensures name[k] != '/' {
        if k < |name| - 1 { assert front[k] == name[k]; }
      }
    }
  }

  /** What lies between two strings with a common prefix has that prefix. */
  lemma {:induction false} PrefixBetween(p: string, x: string, y: string, z: string)
    requires p <= x && p <= z && LexLess(x, y) && LexLess(y, z)
    ensures p <= y
  {
    if p == "" {
    } else {
      assert x[0] == p[0] == z[0] && y != "";
      assert y[0] == p[0];
      PrefixBetween(p[1..], x[1..], y[1..], z[1..]);
      assert p == [p[0]] + p[1..] && y == [y[0]] + y[1..];
    }
  }

  lemma GroupPrefix(name: string) returns (i: nat)
    requires WellFormed(name)
    ensures SlashAt(name, i) && Group(name) == name[..i] && Group(name) + ['/'] <= name && '/' !in Group(name)
  {
    i :| SlashAt(name, i);
    GroupIsBeforeSlash(name, i);
    assert name[..i + 1] == name[..i] + ['/'];
  }

  /** Names of one group are contiguous in a sorted list. */
  lemma GroupContiguous(x: string, y: string, z: string)
    requires WellFormed(x) && WellFormed(y) && WellFormed(z)
    requires LexLess(x, y) && LexLess(y, z) && Group(x) == Group(z)
    ensures Group(y) == Group(x)
  {
    var a := GroupPrefix(x);
    var b := GroupPrefix(y);
    var c := GroupPrefix(z);
    var g := Group(x);
    PrefixBetween(g + ['/'], x, y, z);
    assert y[..|g| + 1] == g + ['/'];
    assert y[|g|] == '/' && y[..|g|] == g;
    OneSlash(y, b);
  }

  lemma OneSlash(y: string, b: nat)
    requires SlashAt(y, b)
    ensures forall k :: 0 <= k < |y| && k != b ==> y[k] != '/'
  {
    forall k | 0 <= k < |y| && k != b ensures y[k] != '/' {
      if k < b { assert y[..b][k] == y[k]; } else { assert y[b + 1..][k - b - 1] == y[k]; }
    }
  }

  lemma {:induction false} InFlatten<T>(runs: seq<seq<T>>, a: nat, x: T)
    requires a < |runs| && x in runs[a]
    ensures x in Flatten(runs)
  {
    var n := |runs| - 1;
    if a == n {
    } else {
      InFlatten(runs[..n], a, x);
    }
  }

  lemma {:induction false} RunsInOrder(runs: seq<seq<string>>, a: nat, b: nat, x: string, y: string)
    requires a < b < |runs| && x in runs[a] && y in runs[b] && Sorted(Flatten(runs))
    ensures LexLess(x, y)
  {
    var n := |runs| - 1;
    var front, last := Flatten(runs[..n]), runs[n];
    var all := Flatten(runs);
    assert all == front + last;
    assert Sorted(front) by {
      forall i, j | 0 <= i < j < |front| ensures LexLess(front[i], front[j]) {
        assert all[i] == front[i] && all[j] == front[j];
      }
    }
    if b == n {
      InFlatten(runs[..n], a, x);
      var i :| 0 <= i < |front| && front[i] == x;
      var j :| 0 <= j < |last| && last[j] == y;
      assert all[i] == x && all[|front| + j] == y;
    } else {
      RunsInOrder(runs[..n], a, b, x, y);
    }
  }

  ghost predicate AllWellFormed(names: seq<string>) {
    forall name :: name in names ==> WellFormed(name)
  }

  lemma HeadWellFormed(runs: seq<seq<string>>, a: nat)
    requires a < |runs| && runs[a] != [] && AllWellFormed(Flatten(runs))
    ensures WellFormed(runs[a][0])
  {
    InFlatten(runs, a, runs[a][0]);
  }

  /** Heads of a group, and of no group in between, when the list is sorted. */
  lemma HeadsContiguous(runs: seq<seq<string>>, a: nat, m: nat, b: nat)
    requires Sorted(Flatten(runs)) && AllWellFormed(Flatten(runs))
    requires a < m < b < |runs| && runs[a] != [] && runs[m] != [] && runs[b] != []
    requires Group(runs[a][0]) == Group(runs[b][0])
    ensures Group(runs[m][0]) == Group(runs[a][0])
  {
    var x, y, z := runs[a][0], runs[m][0], runs[b][0];
    assert LexLess(x, y) by { RunsInOrder(runs, a, m, x, y); }
    assert LexLess(y, z) by { RunsInOrder(runs, m, b, y, z); }
    HeadWellFormed(runs, a);
    HeadWellFormed(runs, m);
    HeadWellFormed(runs, b);
    GroupContiguous(x, y, z);
  }

  /** On a sorted list of names group/NNN each group gets exactly one run. */
  lemma EachGroupOnce(runs: seq<seq<string>>, a: nat, b: nat)
    requires CutAtGroups(runs) && Sorted(Flatten(runs)) && AllWellFormed(Flatten(runs))
    requires a < b < |runs|
    ensures Group(runs[a][0]) != Group(runs[b][0])
  {
    if Group(runs[a][0]) == Group(runs[b][0]) {
      assert Group(runs[a][0]) != Group(runs[a + 1][0]);
      if a + 1 < b { HeadsContiguous(runs, a, a + 1, b); }
    }
  }
}
