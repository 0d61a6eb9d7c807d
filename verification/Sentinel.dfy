/** The result line that the guest prints after its iterations, and the host's verdict from it. */
module Sentinel {
  import opened Wrappers

  // ----- decimal numbers

  function DigitChar(d: nat): char
    requires d < 10
  {
    "0123456789"[d]
  }

  function Decimal(n: nat): (s: string)
    ensures s != ""
  {
    if n < 10 then [DigitChar(n)] else Decimal(n / 10) + [DigitChar(n % 10)]
  }

  /** The value of a digit string in shell arithmetic; strings without a leading zero are decimal. */
  function Value(s: string): int {
    if s == "" then 0 else Value(s[..|s| - 1]) * 10 + (s[|s| - 1] as int - '0' as int)
  }

  lemma {:induction false} DecimalValue(n: nat)
    ensures Value(Decimal(n)) == n
    ensures forall i :: 0 <= i < |Decimal(n)| ==> '0' <= Decimal(n)[i] <= '9'
    ensures n > 0 ==> Decimal(n)[0] != '0'
    ensures n == 0 ==> Decimal(n) == "0"
  {
    if n < 10 {
      assert Decimal(n)[..0] == "";
    } else {
      DecimalValue(n / 10);
      var s := Decimal(n);
      assert s[..|s| - 1] == Decimal(n / 10);
    }
  }

  // ----- the guest

  /** What the status line of one results directory says; None is a directory without the test. */
  type Results = seq<Option<string>>

  predicate Passes(s: string) { s == "pass" }
  predicate Skips(s: string) { s == "not run" || s == "skipped" || s == "" }
  predicate Fails(s: string) { !Passes(s) && !Skips(s) }

  /** An iteration counts as passed when some directory passed and none failed. */
  predicate AnyFail(r: Results) { exists d :: 0 <= d < |r| && r[d].Some? && Fails(r[d].value) }
  predicate AnyPass(r: Results) { exists d :: 0 <= d < |r| && r[d].Some? && Passes(r[d].value) }
  predicate AnySkip(r: Results) { exists d :: 0 <= d < |r| && r[d].Some? && Skips(r[d].value) }
  predicate Clean(r: Results) { AnyPass(r) && !AnyFail(r) }

  /** The loop over the results directories of one iteration. */
  method Aggregate(r: Results) returns (anyPass: bool, anyFail: bool, anySkip: bool)
    ensures anyPass == AnyPass(r) && anyFail == AnyFail(r) && anySkip == AnySkip(r)
  {
    anyPass, anyFail, anySkip := false, false, false;
    for d := 0 to |r|
      invariant anyPass == AnyPass(r[..d]) && anyFail == AnyFail(r[..d]) && anySkip == AnySkip(r[..d])
    {
      GrowFlags(r, d);
      if r[d].Some? {
        var s := r[d].value;
        if s == "pass" { anyPass := true; }
        else if s == "not run" || s == "skipped" || s == "" { anySkip := true; }
        else { anyFail := true; }
      }
    }
    assert r[..|r|] == r;
  }

  lemma GrowFlags(r: Results, d: nat)
    requires d < |r|
    ensures AnyPass(r[..d + 1]) <==> AnyPass(r[..d]) || (r[d].Some? && Passes(r[d].value))
    ensures AnyFail(r[..d + 1]) <==> AnyFail(r[..d]) || (r[d].Some? && Fails(r[d].value))
    ensures AnySkip(r[..d + 1]) <==> AnySkip(r[..d]) || (r[d].Some? && Skips(r[d].value))
  {
    assert forall i :: 0 <= i < d ==> r[..d][i] == r[..d + 1][i];
    assert r[..d + 1][d] == r[d];
  }

  function CountClean(rs: seq<Results>): nat {
    if rs == [] then 0 else CountClean(rs[..|rs| - 1]) + (if Clean(rs[|rs| - 1]) then 1 else 0)
  }

  function CountFailed(rs: seq<Results>): nat {
    if rs == [] then 0 else CountFailed(rs[..|rs| - 1]) + (if AnyFail(rs[|rs| - 1]) then 1 else 0)
  }

  /** The iteration loop: each iteration is counted once, under fail, pass or skip. */
  method Iterate(rs: seq<Results>) returns (pass: nat, fail: nat, skip: nat)
    ensures pass + fail + skip == |rs|
    ensures pass == CountClean(rs) && fail == CountFailed(rs)
  {
    pass, fail, skip := 0, 0, 0;
    for i := 0 to |rs|
      invariant pass + fail + skip == i
      invariant pass == CountClean(rs[..i]) && fail == CountFailed(rs[..i])
    {
      assert rs[..i + 1][..i] == rs[..i];
      var anyPass, anyFail, anySkip := Aggregate(rs[i]);
      if anyFail { fail := fail + 1; }
      else if anyPass { pass := pass + 1; }
      else { skip := skip + 1; }
    }
    assert rs[..|rs|] == rs;
  }

  lemma {:induction false} AllCleanIff(rs: seq<Results>)
    ensures CountClean(rs) <= |rs|
    ensures CountClean(rs) == |rs| <==> forall i :: 0 <= i < |rs| ==> Clean(rs[i])
  {
    if rs == [] {
    } else {
      var n := |rs| - 1;
      AllCleanIff(rs[..n]);
      assert forall i :: 0 <= i < n ==> rs[..n][i] == rs[i];
      if forall i :: 0 <= i < n ==> Clean(rs[..n][i]) {
        assert Clean(rs[n]) ==> forall i :: 0 <= i < |rs| ==> Clean(rs[i]);
      }
    }
  }

  // ----- the line

  const PREFIX: string := "=== NDT_RESULT "
  const SUFFIX: string := " ==="

  /** `ndt_emit`; the serial console may put a carriage return behind the line. */
  function Emit(payload: string, cr: bool): string { PREFIX + (payload + SUFFIX + (if cr then "\r" else "")) }

  function Fields(pass: nat, fail: nat, skip: nat, iter: nat, test: string): seq<string> {
    ["pass=" + Decimal(pass), "fail=" + Decimal(fail), "skip=" + Decimal(skip), "iter=" + Decimal(iter), "test=" + test]
  }

  function Join(ws: seq<string>): string {
    if ws == [] then "" else if |ws| == 1 then ws[0] else ws[0] + " " + Join(ws[1..])
  }

  // ----- the host

  function StripPrefix(s: string, p: string): string { if p <= s then s[|p|..] else s }

  function StripSuffix(s: string, p: string): string {
    if |p| <= |s| && s[|s| - |p|..] == p then s[..|s| - |p|] else s
  }

  predicate Blank(c: char) { c == ' ' || c == '\t' || c == '\n' }

  /** Splitting an unquoted expansion into words. */
  function Words(s: string, soFar: string): seq<string> {
    if s == "" then (if soFar == "" then [] else [soFar])
    else if Blank(s[0]) then (if soFar == "" then [] else [soFar]) + Words(s[1..], "")
    else Words(s[1..], soFar + [s[0]])
  }

  function Payload(line: string): string { StripSuffix(StripPrefix(line, PREFIX), SUFFIX) }

  /** The last word with the given prefix wins; without one the initial "0" stays. */
  function Assigned(ws: seq<string>, key: string): string {
    if ws == [] then "0"
    else if key <= ws[|ws| - 1] then ws[|ws| - 1][|key|..]
    else Assigned(ws[..|ws| - 1], key)
  }

  /** The loop over the words of the payload. */
  method ParseCounts(line: string) returns (pass: string, fail: string, skip: string)
    ensures var ws := Words(Payload(line), "");
      pass == Assigned(ws, "pass=") && fail == Assigned(ws, "fail=") && skip == Assigned(ws, "skip=")
  {
    pass, fail, skip := "0", "0", "0";
    var ws := Words(Payload(line), "");
    for i := 0 to |ws|
      invariant pass == Assigned(ws[..i], "pass=") && fail == Assigned(ws[..i], "fail=")
      invariant skip == Assigned(ws[..i], "skip=")
    {
      var kv := ws[i];
      assert ws[..i + 1][..i] == ws[..i];
      OneKey(kv);
      if "pass=" <= kv { pass := kv[5..]; }
      else if "fail=" <= kv { fail := kv[5..]; }
      else if "skip=" <= kv { skip := kv[5..]; }
    }
    assert ws[..|ws|] == ws;
  }

  lemma OneKey(kv: string)
    ensures "pass=" <= kv ==> !("fail=" <= kv) && !("skip=" <= kv)
    ensures "fail=" <= kv ==> !("skip=" <= kv)
  {
    if |kv| >= 1 { assert "pass="[0] == 'p' && "fail="[0] == 'f' && "skip="[0] == 's'; }
  }

  /** The verdict of a run of a blktests case. */
  predicate HostPasses(line: string, iters: nat) {
    var payload := Payload(line);
    var ws := Words(payload, "");
    && !("error=" <= payload)
    && Value(Assigned(ws, "pass=")) == iters
    && Value(Assigned(ws, "fail=")) == 0 && Value(Assigned(ws, "skip=")) == 0
  }

  predicate NoBlank(s: string) { forall i :: 0 <= i < |s| ==> !Blank(s[i]) }

  lemma {:induction false} WordsOfWord(w: string, soFar: string, rest: string)
    requires NoBlank(w)
    ensures Words(w + rest, soFar) == Words(rest, soFar + w)
    decreases |w|
  {
    if w == "" {
      assert w + rest == rest && soFar + w == soFar;
    } else {
      assert (w + rest)[1..] == w[1..] + rest;
      assert soFar + [w[0]] + w[1..] == soFar + w;
      WordsOfWord(w[1..], soFar + [w[0]], rest);
    }
  }

  lemma FirstWordOf(w: string, more: string)
    requires w != "" && NoBlank(w)
    ensures Words(w + ([' '] + more), "") == [w] + Words(more, "")
  {
    WordsOfWord(w, "", [' '] + more);
    assert "" + w == w && ([' '] + more)[1..] == more;
  }

  lemma {:induction false} WordsOfJoin(ws: seq<string>)
    requires forall i :: 0 <= i < |ws| ==> ws[i] != "" && NoBlank(ws[i])
    ensures Words(Join(ws), "") == ws
    decreases |ws|
  {
    if ws == [] {
    } else if |ws| == 1 {
      WordsOfWord(ws[0], "", "");
      assert ws[0] + "" == "" + ws[0] == ws[0];
    } else {
      WordsOfJoin(ws[1..]);
      assert Join(ws) == ws[0] + ([' '] + Join(ws[1..]));
      FirstWordOf(ws[0], Join(ws[1..]));
      assert [ws[0]] + ws[1..] == ws;
    }
  }

  lemma {:induction false} JoinAppend(ws: seq<string>, w: string)
    requires ws != []
    ensures Join(ws + [w]) == Join(ws) + " " + w
    decreases |ws|
  {
    assert (ws + [w])[1..] == ws[1..] + [w];
    if |ws| > 1 {
      JoinAppend(ws[1..], w);
      assert ws[0] + " " + (Join(ws[1..]) + " " + w) == ws[0] + " " + Join(ws[1..]) + " " + w;
    } else {
      assert ws[1..] + [w] == [w];
    }
  }

  lemma Glued(p: string, s: string)
    ensures p <= p + s && (p + s)[|p|..] == s && StripPrefix(p + s, p) == s
  {
  }

  lemma SuffixGlued(s: string, p: string)
    ensures StripSuffix(s + p, p) == s
  {
    assert (s + p)[|s|..] == p && (s + p)[..|s|] == s;
  }

  lemma NoSuffix(s: string, p: string)
    requires s != "" && p != "" && s[|s| - 1] != p[|p| - 1]
    ensures StripSuffix(s, p) == s
  {
    if |p| <= |s| { assert s[|s| - |p|..][|p| - 1] == s[|s| - 1]; }
  }

  /** Both strips undo the frame; a carriage return keeps the second from matching. */
  lemma PayloadOfEmit(payload: string, cr: bool)
    ensures Payload(Emit(payload, cr)) == if cr then payload + " ===\r" else payload
  {
    if cr {
      Glued(PREFIX, payload + SUFFIX + "\r");
      NoSuffix(payload + SUFFIX + "\r", SUFFIX);
      assert payload + SUFFIX + "\r" == payload + " ===\r";
    } else {
      assert payload + SUFFIX + "" == payload + SUFFIX;
      Glued(PREFIX, payload + SUFFIX);
      SuffixGlued(payload, SUFFIX);
    }
  }

  lemma DecimalHasNoBlank(n: nat)
    ensures NoBlank(Decimal(n))
  {
    DecimalValue(n);
  }

  ghost predicate AllWords(ws: seq<string>) {
    forall i :: 0 <= i < |ws| ==> ws[i] != "" && NoBlank(ws[i])
  }

  lemma JoinWithTail(ws: seq<string>)
    requires ws != [] && AllWords(ws)
    ensures Words(Join(ws) + " ===\r", "") == ws + ["===\r"]
  {
    JoinAppend(ws, "===\r");
    var j := Join(ws);
    assert j + " " + "===\r" == j + " ===\r";
    WordsOfJoin(ws + ["===\r"]);
  }

  /** The words of an emitted line, and what a carriage return adds to them. */
  lemma EmitWords(ws: seq<string>, cr: bool)
    requires ws != [] && AllWords(ws)
    ensures Words(Payload(Emit(Join(ws), cr)), "") == ws + (if cr then ["===\r"] else [])
  {
    assert Payload(Emit(Join(ws), cr)) == (if cr then Join(ws) + " ===\r" else Join(ws)) by {
      PayloadOfEmit(Join(ws), cr);
    }
    if cr {
      JoinWithTail(ws);
    } else {
      WordsOfJoin(ws);
      assert ws + [] == ws;
    }
  }

  lemma FieldsAreWords(pass: nat, fail: nat, skip: nat, iter: nat, test: string)
    requires NoBlank(test)
    ensures AllWords(Fields(pass, fail, skip, iter, test))
  {
    DecimalHasNoBlank(pass);
    DecimalHasNoBlank(fail);
    DecimalHasNoBlank(skip);
    DecimalHasNoBlank(iter);
  }

  lemma PayloadWords(pass: nat, fail: nat, skip: nat, iter: nat, test: string, cr: bool)
    requires NoBlank(test)
    ensures Words(Payload(Emit(Join(Fields(pass, fail, skip, iter, test)), cr)), "") ==
      Fields(pass, fail, skip, iter, test) + (if cr then ["===\r"] else [])
  {
    FieldsAreWords(pass, fail, skip, iter, test);
    EmitWords(Fields(pass, fail, skip, iter, test), cr);
  }

  lemma AssignedSkips(ws: seq<string>, w: string, key: string)
    requires !(key <= w)
    ensures Assigned(ws + [w], key) == Assigned(ws, key)
  {
    assert (ws + [w])[..|ws|] == ws;
  }

  lemma AssignedTakes(ws: seq<string>, key: string, v: string)
    ensures Assigned(ws + [key + v], key) == v
  {
  }

  /** The host's counts are the guest's, with or without a carriage return. */
  lemma CountsRoundTrip(pass: nat, fail: nat, skip: nat, iter: nat, test: string, cr: bool)
    requires NoBlank(test)
    ensures var ws := Words(Payload(Emit(Join(Fields(pass, fail, skip, iter, test)), cr)), "");
      && Assigned(ws, "pass=") == Decimal(pass)
      && Assigned(ws, "fail=") == Decimal(fail)
      && Assigned(ws, "skip=") == Decimal(skip)
  {
    PayloadWords(pass, fail, skip, iter, test, cr);
    var f := Fields(pass, fail, skip, iter, test);
    var ws := f + (if cr then ["===\r"] else []);
    forall key | key == "pass=" || key == "fail=" || key == "skip="
      ensures Assigned(ws, key) == Assigned(f[..3], key)
    {
      OtherKeys(key, iter, test);
      assert f[..4] == f[..3] + [f[3]] && f == f[..4] + [f[4]];
      AssignedSkips(f[..3], f[3], key);
      AssignedSkips(f[..4], f[4], key);
      if cr { AssignedSkips(f, "===\r", key); } else { assert ws == f; }
    }
    assert f[..3] == f[..2] + [f[2]] && f[..2] == f[..1] + [f[1]] && f[..1] == [] + [f[0]];
    AssignedTakes(f[..2], "skip=", Decimal(skip));
    OneKey(f[2]);
    OneKey(f[1]);
    AssignedSkips(f[..2], f[2], "fail=");
    AssignedSkips(f[..2], f[2], "pass=");
    AssignedTakes(f[..1], "fail=", Decimal(fail));
    AssignedSkips(f[..1], f[1], "pass=");
    AssignedTakes([], "pass=", Decimal(pass));
  }

  lemma OtherKeys(key: string, iter: nat, test: string)
    requires key == "pass=" || key == "fail=" || key == "skip="
    ensures !(key <= "iter=" + Decimal(iter)) && !(key <= "test=" + test) && !(key <= "===\r")
  {
    assert key[0] != 'i' && key[0] != 't' && key[0] != '=';
  }

  /** On any printed counts, whether they add up or not, the verdict is PASS exactly when all iterations
      passed and none failed or was skipped. */
  lemma CountsDecide(pass: nat, fail: nat, skip: nat, iter: nat, test: string, cr: bool, iters: nat)
    requires NoBlank(test)
    ensures HostPasses(Emit(Join(Fields(pass, fail, skip, iter, test)), cr), iters) <==>
      pass == iters && fail == 0 && skip == 0
  {
    var p := Join(Fields(pass, fail, skip, iter, test));
    CountsRoundTrip(pass, fail, skip, iter, test, cr);
    DecimalValue(pass);
    DecimalValue(fail);
    DecimalValue(skip);
    PayloadOfEmit(p, cr);
    assert p[0] == 'p' && Payload(Emit(p, cr))[0] == 'p';
    assert "error="[0] == 'e';
  }

  /** The verdict is PASS exactly when every iteration had a passing result and no failing one. */
  lemma VerdictIsExact(rs: seq<Results>, pass: nat, fail: nat, skip: nat, test: string, cr: bool)
    requires NoBlank(test)
    requires Counted(rs, pass, fail, skip)
    ensures HostPasses(Emit(Join(Fields(pass, fail, skip, |rs|, test)), cr), |rs|) <==>
      forall i :: 0 <= i < |rs| ==> Clean(rs[i])
  {
    CountsDecide(pass, fail, skip, |rs|, test, cr, |rs|);
    AllCleanIff(rs);
  }

  // ----- the error line

  function ErrorPayload(reason: string): string { "error=" + ("'" + (reason + "'")) }

  /** What the host shows as the reason. */
  function ErrorReason(line: string): Option<string> {
    var payload := Payload(line);
    if "error=" <= payload then Some(StripSuffix(StripPrefix(payload[6..], "'"), "'")) else None
  }

  lemma Nested(a: string, b: string, c: string, d: string, e: string)
    ensures (a + (b + (c + d))) + e == a + (b + (c + (d + e)))
  {
  }

  /** The payload of an error line, taken apart. */
  lemma ErrorParts(reason: string, cr: bool)
    ensures var tail := if cr then "' ===\r" else "'";
      var payload := Payload(Emit(ErrorPayload(reason), cr));
      "error=" <= payload && StripPrefix(payload[6..], "'") == reason + tail
  {
    var tail := if cr then "' ===\r" else "'";
    var body := "'" + (reason + tail);
    assert Payload(Emit(ErrorPayload(reason), cr)) == "error=" + body by {
      PayloadOfEmit(ErrorPayload(reason), cr);
      Nested("error=", "'", reason, "'", " ===\r");
      assert "'" + " ===\r" == "' ===\r";
    }
    Glued("error=", body);
    Glued("'", reason + tail);
  }

  lemma QuoteStripped(reason: string)
    ensures StripSuffix(reason + "'", "'") == reason
    ensures StripSuffix(reason + "' ===\r", "'") == reason + "' ===\r" != reason
  {
    assert (reason + "'")[|reason|..] == "'";
    var s := reason + "' ===\r";
    assert s[|s| - 1..][0] == '\r';
  }

  /** A failure of the guest is never taken for a pass, and its reason comes through exactly when no
      carriage return follows the line. */
  lemma ErrorRoundTripIff(reason: string, cr: bool, iters: nat)
    ensures !HostPasses(Emit(ErrorPayload(reason), cr), iters)
    ensures ErrorReason(Emit(ErrorPayload(reason), cr)) == Some(reason) <==> !cr
  {
    ErrorParts(reason, cr);
    QuoteStripped(reason);
  }

  // ----- the console

  /** The text up to the first newline. */
  function FirstLine(text: string): (line: string)
    ensures line <= text && '\n' !in line
    ensures |line| < |text| ==> text[|line|] == '\n'
  {
    if text == "" || text[0] == '\n' then "" else [text[0]] + FirstLine(text[1..])
  }

  /** `grep -m1` for the prefix at the start of a line; an unterminated last line counts as one. */
  function FirstResult(text: string): Option<string> {
    if text == "" then None
    else
      var line := FirstLine(text);
      if PREFIX <= line then Some(line)
      else if |line| == |text| then None
      else FirstResult(text[|line| + 1..])
  }

  /** Complete lines, each with its newline. */
  function Glue(lines: seq<string>): string {
    if lines == [] then "" else lines[0] + "\n" + Glue(lines[1..])
  }

  ghost predicate AllLines(lines: seq<string>) {
    forall i :: 0 <= i < |lines| ==> '\n' !in lines[i]
  }

  /** No line has the prefix of a result line. */
  ghost predicate NoResult(lines: seq<string>) {
    forall i :: 0 <= i < |lines| ==> !(PREFIX <= lines[i])
  }

  lemma {:induction false} FirstLineOf(line: string, rest: string)
    requires '\n' !in line && (rest == "" || rest[0] == '\n')
    ensures FirstLine(line + rest) == line
  {
    if line == "" {
      assert line + rest == rest;
    } else {
      assert (line + rest)[1..] == line[1..] + rest;
      FirstLineOf(line[1..], rest);
    }
  }

  lemma FirstResultOf(line: string, rest: string)
    requires '\n' !in line
    ensures FirstResult(line + ("\n" + rest)) == if PREFIX <= line then Some(line) else FirstResult(rest)
  {
    FirstLineOf(line, "\n" + rest);
    assert (line + ("\n" + rest))[|line| + 1..] == rest;
  }

  lemma NoResultRest(lines: seq<string>, i: nat)
    requires 0 < i <= |lines| && NoResult(lines[..i])
    ensures !(PREFIX <= lines[0]) && NoResult(lines[1..][..i - 1])
  {
    assert lines[..i][0] == lines[0];
    var rest := lines[1..][..i - 1];
    forall j | 0 <= j < |rest| ensures !(PREFIX <= rest[j]) {
      assert rest[j] == lines[..i][j + 1];
    }
  }

  /** What the host picks is the first line with the prefix. */
  lemma {:induction false} FirstResultAfter(before: seq<string>, rest: string)
    requires AllLines(before)
    ensures NoResult(before) ==> FirstResult(Glue(before) + rest) == FirstResult(rest)
    ensures forall i :: 0 <= i < |before| && NoResult(before[..i]) && PREFIX <= before[i] ==>
      FirstResult(Glue(before) + rest) == Some(before[i])
    decreases |before|
  {
    if before == [] {
      assert Glue(before) + rest == rest;
    } else {
      var more := before[1..];
      assert Glue(before) + rest == before[0] + ("\n" + (Glue(more) + rest));
      FirstResultOf(before[0], Glue(more) + rest);
      FirstResultAfter(more, rest);
      assert NoResult(before) ==> NoResult(more) by {
        assert forall i :: 0 <= i < |more| ==> more[i] == before[i + 1];
      }
      forall i | 0 <= i < |before| && NoResult(before[..i]) && PREFIX <= before[i]
        ensures FirstResult(Glue(before) + rest) == Some(before[i])
      {
        if i > 0 {
          NoResultRest(before, i);
          assert more[i - 1] == before[i];
        }
      }
    }
  }

  /** The host's verdict on a console text. */
  predicate ConsolePasses(text: string, iters: nat) {
    FirstResult(text).Some? && HostPasses(FirstResult(text).value, iters)
  }

  /** The line of the guest decides exactly when no line before it has the prefix, or the first that
      has it is the same. */
  lemma ResultLineDecidesIff(before: seq<string>, line: string, after: string)
    requires AllLines(before) && '\n' !in line && PREFIX <= line
    ensures FirstResult(Glue(before) + (line + ("\n" + after))) == Some(line) <==>
      NoResult(before) || exists i :: 0 <= i < |before| && NoResult(before[..i]) && before[i] == line
  {
    var rest := line + ("\n" + after);
    FirstResultOf(line, after);
    FirstResultAfter(before, rest);
    if !NoResult(before) {
      var i := FirstWithPrefix(before);
      assert FirstResult(Glue(before) + rest) == Some(before[i]);
    }
  }

  lemma FirstWithPrefix(lines: seq<string>) returns (i: nat)
    requires !NoResult(lines)
    ensures i < |lines| && NoResult(lines[..i]) && PREFIX <= lines[i]
  {
    var k :| 0 <= k < |lines| && PREFIX <= lines[k];
    i := 0;
    while !(PREFIX <= lines[i])
      invariant i <= k && NoResult(lines[..i])
      decreases k - i
    {
      assert lines[..i + 1] == lines[..i] + [lines[i]];
      i := i + 1;
    }
  }

  lemma EmitIsLine(payload: string, cr: bool)
    requires '\n' !in payload
    ensures '\n' !in Emit(payload, cr) && PREFIX <= Emit(payload, cr)
  {
    Glued(PREFIX, payload + SUFFIX + (if cr then "\r" else ""));
    assert '\n' !in PREFIX && '\n' !in SUFFIX;
  }

  // ----- a console that is still being written

  /** Words of a text that was cut off: the words in order, the last of them possibly cut. */
  ghost predicate CutWords(r: seq<string>, ws: seq<string>) {
    |r| <= |ws| && forall i :: 0 <= i < |r| ==> r[i] <= ws[i] && (i < |r| - 1 ==> r[i] == ws[i])
  }

  /** The words of a cut text, and whether the first of them is whole. */
  lemma {:induction false} WordsOfPrefix(ws: seq<string>, j: nat)
    requires AllWords(ws) && j <= |Join(ws)|
    ensures var r := Words(Join(ws)[..j], "");
      CutWords(r, ws) && (ws != [] ==> (j >= |ws[0]| <==> r != [] && r[0] == ws[0]))
    decreases |ws|
  {
    if ws == [] {
    } else {
      var w := ws[0];
      var rest := if |ws| == 1 then "" else " " + Join(ws[1..]);
      assert Join(ws) == w + rest;
      var cut := Join(ws)[..j];
      if j <= |w| {
        assert cut == w[..j] + "";
        assert NoBlank(w[..j]);
        WordsOfWord(w[..j], "", "");
        assert "" + w[..j] == w[..j];
        assert |w[..j]| == j;
      } else {
        var more := Join(ws[1..])[..j - |w| - 1];
        assert cut == w + ([' '] + more);
        FirstWordOf(w, more);
        WordsOfPrefix(ws[1..], j - |w| - 1);
        CutWordsCons(w, Words(more, ""), ws[1..]);
        assert [w] + ws[1..] == ws;
      }
    }
  }

  lemma CutWordsCons(w: string, r: seq<string>, ws: seq<string>)
    requires CutWords(r, ws)
    ensures CutWords([w] + r, [w] + ws)
  {
    forall i | 0 <= i < |r| + 1
      ensures ([w] + r)[i] <= ([w] + ws)[i] && (i < |r| ==> ([w] + r)[i] == ([w] + ws)[i])
    {
      if i > 0 { assert ([w] + r)[i] == r[i - 1] && ([w] + ws)[i] == ws[i - 1]; }
    }
  }

  /** A number that was cut off is smaller, unless it was zero. */
  lemma {:induction false} CutNumber(s: string, k: nat)
    requires k < |s| && forall i :: 0 <= i < |s| ==> '0' <= s[i] <= '9'
    ensures 0 <= Value(s[..k]) <= Value(s) && (Value(s) > 0 ==> Value(s[..k]) < Value(s))
  {
    var p := s[..|s| - 1];
    NotNegative(p);
    if k == |s| - 1 {
      assert s[..k] == p;
    } else {
      CutNumber(p, k);
      assert p[..k] == s[..k];
    }
  }

  lemma {:induction false} NotNegative(s: string)
    requires forall i :: 0 <= i < |s| ==> '0' <= s[i] <= '9'
    ensures Value(s) >= 0
  {
    if s == "" {
    } else {
      NotNegative(s[..|s| - 1]);
    }
  }

  /** The word with that key is the only one that begins like it. */
  ghost predicate OnlyKey(ws: seq<string>, key: string, m: nat) {
    && key != "" && m < |ws| && key <= ws[m]
    && forall i :: 0 <= i < |ws| && i != m ==> ws[i] != "" && ws[i][0] != key[0]
  }

  lemma {:induction false} AssignedOfCut(r: seq<string>, ws: seq<string>, key: string, m: nat)
    requires CutWords(r, ws) && OnlyKey(ws, key, m)
    ensures Assigned(r, key) == if m < |r| && key <= r[m] then r[m][|key|..] else "0"
  {
    if r == [] {
    } else {
      var n := |r| - 1;
      assert CutWords(r[..n], ws) by { assert forall i :: 0 <= i < n ==> r[..n][i] == r[i]; }
      AssignedOfCut(r[..n], ws, key, m);
      if n != m { assert !(key <= r[n]) by { assert r[n] <= ws[n]; } }
    }
  }

  /** The number read from a cut line is right exactly when it is zero or whole. */
  lemma CutCount(count: nat, r: seq<string>, ws: seq<string>, key: string, m: nat)
    requires CutWords(r, ws) && OnlyKey(ws, key, m) && ws[m] == key + Decimal(count)
    ensures var v := Value(Assigned(r, key));
      0 <= v <= count && (v == count <==> count == 0 || (m < |r| && r[m] == ws[m]))
  {
    AssignedOfCut(r, ws, key, m);
    DecimalValue(count);
    assert "0"[..0] == "" && Value("0") == 0;
    if m < |r| && key <= r[m] {
      var k := |r[m]| - |key|;
      assert r[m] <= ws[m] && r[m][|key|..] == Decimal(count)[..k];
      if k < |Decimal(count)| { CutNumber(Decimal(count), k); } else { assert Decimal(count)[..k] == Decimal(count); }
    }
  }

  /** The words that the guest printed, the frame and a carriage return included. */
  function Printed(pass: nat, fail: nat, skip: nat, iter: nat, test: string, cr: bool): seq<string> {
    Fields(pass, fail, skip, iter, test) + [if cr then "===\r" else "==="]
  }

  lemma PrintedWords(pass: nat, fail: nat, skip: nat, iter: nat, test: string, cr: bool) returns (ws: seq<string>)
    requires NoBlank(test)
    ensures AllWords(ws) && Emit(Join(Fields(pass, fail, skip, iter, test)), cr) == PREFIX + Join(ws)
    ensures OnlyKey(ws, "pass=", 0) && OnlyKey(ws, "fail=", 1) && OnlyKey(ws, "skip=", 2)
    ensures ws[0] == "pass=" + Decimal(pass) && ws[1] == "fail=" + Decimal(fail) && ws[2] == "skip=" + Decimal(skip)
  {
    ws := Printed(pass, fail, skip, iter, test, cr);
    var f := Fields(pass, fail, skip, iter, test);
    FieldsAreWords(pass, fail, skip, iter, test);
    JoinAppend(f, if cr then "===\r" else "===");
    if cr { assert SUFFIX + "\r" == " " + "===\r"; } else { assert SUFFIX + "" == " " + "==="; }
    var e := if cr then "\r" else "";
    assert Join(f) + SUFFIX + e == Join(f) + (SUFFIX + e);
  }

  /** A line cut behind its prefix has a payload that is the text cut somewhere; the first word is whole
      in the one exactly when it is in the other. */
  lemma CutPayload(ws: seq<string>, n: nat)
    requires AllWords(ws) && ws != [] && |PREFIX| <= n <= |PREFIX + Join(ws)|
    ensures var payload := Payload((PREFIX + Join(ws))[..n]);
      && |payload| <= |Join(ws)| && payload == Join(ws)[..|payload|]
      && (|payload| >= |ws[0]| <==> n - |PREFIX| >= |ws[0]|)
  {
    var text := Join(ws)[..n - |PREFIX|];
    assert (PREFIX + Join(ws))[..n] == PREFIX + text;
    Glued(PREFIX, text);
    var payload := StripSuffix(text, SUFFIX);
    assert NoBlank(ws[0]);
    forall i | 0 <= i < |ws[0]| ensures !Blank(Join(ws)[i]) { assert Join(ws)[i] == ws[0][i]; }
    if |payload| < |text| {
      assert text[|payload|..] == SUFFIX;
      assert Join(ws)[|payload|] == ' ';
    }
  }

  /** The verdict on a line whose words are cut. */
  lemma CutVerdict(line: string, ws: seq<string>, pass: nat, fail: nat, skip: nat)
    requires CutWords(Words(Payload(line), ""), ws) && !("error=" <= Payload(line))
    requires OnlyKey(ws, "pass=", 0) && OnlyKey(ws, "fail=", 1) && OnlyKey(ws, "skip=", 2)
    requires ws[0] == "pass=" + Decimal(pass) && ws[1] == "fail=" + Decimal(fail) && ws[2] == "skip=" + Decimal(skip)
    ensures var iters := pass + fail + skip;
      var r := Words(Payload(line), "");
      HostPasses(line, iters) <==> pass == iters && (pass == 0 || (r != [] && r[0] == ws[0]))
  {
    var r := Words(Payload(line), "");
    CutCount(pass, r, ws, "pass=", 0);
    CutCount(fail, r, ws, "fail=", 1);
    CutCount(skip, r, ws, "skip=", 2);
  }

  lemma VerdictOfWords(ws: seq<string>, n: nat, pass: nat, fail: nat, skip: nat)
    requires AllWords(ws) && |PREFIX| <= n <= |PREFIX + Join(ws)|
    requires OnlyKey(ws, "pass=", 0) && OnlyKey(ws, "fail=", 1) && OnlyKey(ws, "skip=", 2)
    requires ws[0] == "pass=" + Decimal(pass) && ws[1] == "fail=" + Decimal(fail) && ws[2] == "skip=" + Decimal(skip)
    ensures var iters := pass + fail + skip;
      HostPasses((PREFIX + Join(ws))[..n], iters) <==> pass == iters && (pass == 0 || n >= |PREFIX| + |ws[0]|)
  {
    var line := (PREFIX + Join(ws))[..n];
    CutPayload(ws, n);
    WordsOfPrefix(ws, |Payload(line)|);
    NotAnError(ws, Payload(line));
    CutVerdict(line, ws, pass, fail, skip);
  }

  lemma NotAnError(ws: seq<string>, payload: string)
    requires ws != [] && "pass=" <= ws[0] && payload <= Join(ws)
    ensures !("error=" <= payload)
  {
    assert Join(ws)[0] == 'p';
    assert "error="[0] == 'e';
  }

  // ----- from iterations to the verdict

  /** The counts that the iteration loop leaves. */
  ghost predicate Counted(rs: seq<Results>, pass: nat, fail: nat, skip: nat) {
    pass + fail + skip == |rs| && pass == CountClean(rs) && fail == CountFailed(rs)
  }

  lemma ResultLineIsLine(rs: seq<Results>, pass: nat, fail: nat, skip: nat, test: string, cr: bool)
    requires NoBlank(test)
    ensures var line := Emit(Join(Fields(pass, fail, skip, |rs|, test)), cr);
      '\n' !in line && PREFIX <= line
  {
    var f := Fields(pass, fail, skip, |rs|, test);
    FieldsAreWords(pass, fail, skip, |rs|, test);
    JoinIsLine(f);
    EmitIsLine(Join(f), cr);
  }

  lemma {:induction false} JoinIsLine(ws: seq<string>)
    requires AllWords(ws)
    ensures '\n' !in Join(ws)
    decreases |ws|
  {
    if |ws| == 0 {
    } else {
      assert NoBlank(ws[0]);
      JoinIsLine(ws[1..]);
    }
  }

  /** Over a whole console: with no earlier line of that prefix, the verdict is PASS exactly when every
      iteration had a passing result and no failing one. */
  lemma ConsoleVerdictIsExact(rs: seq<Results>, pass: nat, fail: nat, skip: nat, test: string, cr: bool,
                              before: seq<string>, after: string)
    requires NoBlank(test) && Counted(rs, pass, fail, skip) && AllLines(before) && NoResult(before)
    ensures var line := Emit(Join(Fields(pass, fail, skip, |rs|, test)), cr);
      ConsolePasses(Glue(before) + (line + ("\n" + after)), |rs|) <==> forall i :: 0 <= i < |rs| ==> Clean(rs[i])
  {
    var line := Emit(Join(Fields(pass, fail, skip, |rs|, test)), cr);
    ResultLineIsLine(rs, pass, fail, skip, test, cr);
    ResultLineDecidesIff(before, line, after);
    VerdictIsExact(rs, pass, fail, skip, test, cr);
  }

  /** The last line counts even without its newline. */
  lemma LastLineCounts(before: seq<string>, line: string)
    requires AllLines(before) && NoResult(before) && '\n' !in line
    ensures FirstResult(Glue(before) + line) == if PREFIX <= line then Some(line) else None
  {
    FirstResultAfter(before, line);
    FirstLineOf(line, "");
    assert line + "" == line;
  }

  /** A console that the host reads while the result line is being written: it sees a PASS exactly when
      every iteration is clean and the number of passes is there, so an early PASS is never wrong and
      an early FAIL can be. */
  lemma SnapshotVerdictIff(rs: seq<Results>, pass: nat, fail: nat, skip: nat, test: string, cr: bool,
                           before: seq<string>, n: nat)
    requires NoBlank(test) && Counted(rs, pass, fail, skip) && AllLines(before) && NoResult(before)
    requires n <= |Emit(Join(Fields(pass, fail, skip, |rs|, test)), cr)|
    ensures ConsolePasses(Glue(before) + Emit(Join(Fields(pass, fail, skip, |rs|, test)), cr)[..n], |rs|) <==>
      && (forall i :: 0 <= i < |rs| ==> Clean(rs[i]))
      && n >= |PREFIX| && (rs == [] || n >= |PREFIX| + |"pass=" + Decimal(pass)|)
  {
    var line := Emit(Join(Fields(pass, fail, skip, |rs|, test)), cr);
    ResultLineIsLine(rs, pass, fail, skip, test, cr);
    LastLineCounts(before, line[..n]);
    AllCleanIff(rs);
    var ws := PrintedWords(pass, fail, skip, |rs|, test, cr);
    if n >= |PREFIX| {
      assert PREFIX <= line[..n];
      VerdictOfWords(ws, n, pass, fail, skip);
    }
  }
}
