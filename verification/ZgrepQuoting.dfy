/** How zgrep builds a command line by quoting, and what the shell reads back from it. */
module ZgrepQuoting {
  import opened Wrappers

  const QUOTE: char := '\''

  function Prepend<T>(x: T, o: Option<seq<T>>): Option<seq<T>> {
    if o.None? then None else Some([x] + o.value)
  }

  function PrependAll<T>(xs: seq<T>, o: Option<seq<T>>): Option<seq<T>> {
    if o.None? then None else Some(xs + o.value)
  }

  // ----- sed "$escape", fed by printf '%s\n' and read through $( )

  /** `s/'/'\''/g` on one character. */
  function EscapeChar(c: char): string { if c == QUOTE then ['\'', '\\', '\'', '\''] else [c] }

  function Escape(s: string): string {
    if s == "" then "" else EscapeChar(s[0]) + Escape(s[1..])
  }

  /** The lines of `s` followed by a newline. */
  function Lines(s: string): (lines: seq<string>)
    ensures lines != []
  {
    if s == "" then [""]
    else
      var rest := Lines(s[1..]);
      if s[0] == '\n' then [""] + rest else [[s[0]] + rest[0]] + rest[1..]
  }

  /** The script on each line: escape, and put a quote after the last line; every line ends in a newline. */
  function Sed(lines: seq<string>): string
    requires lines != []
    decreases |lines|, 1
  {
    Escape(lines[0]) + SedRest(lines[1..])
  }

  function SedRest(lines: seq<string>): string
    decreases |lines| + 1, 0
  {
    if lines == [] then ['\'', '\n'] else ['\n'] + Sed(lines)
  }

  /** Command substitution drops trailing newlines. */
  function Substituted(s: string): string {
    if s != "" && s[|s| - 1] == '\n' then Substituted(s[..|s| - 1]) else s
  }

  function EscapeBySed(s: string): string { Substituted(Sed(Lines(s))) }

  lemma EscapeFirst(c: char, s: string)
    ensures Escape([c] + s) == EscapeChar(c) + Escape(s)
  {
    assert ([c] + s)[1..] == s;
  }

  lemma Regroup(a: string, b: string, c: string)
    ensures (a + b) + c == a + (b + c)
  {
  }

  lemma SedSplit(line: string, more: seq<string>)
    ensures Sed([line] + more) == Escape(line) + SedRest(more)
  {
    assert ([line] + more)[1..] == more;
  }

  /** A character in front of the first line goes through, escaped. */
  lemma SedFirst(c: char, line: string, more: seq<string>)
    ensures Sed([[c] + line] + more) == EscapeChar(c) + Sed([line] + more)
  {
    SedSplit([c] + line, more);
    SedSplit(line, more);
    EscapeFirst(c, line);
    Regroup(EscapeChar(c), Escape(line), SedRest(more));
  }

  lemma {:induction false} SedIsEscape(s: string)
    ensures Sed(Lines(s)) == Escape(s) + ['\'', '\n']
  {
    if s == "" {
    } else {
      SedIsEscape(s[1..]);
      var rest := Lines(s[1..]);
      assert rest == [rest[0]] + rest[1..];
      if s[0] == '\n' {
        SedSplit("", rest);
        assert Escape("") == "";
      } else {
        SedFirst(s[0], rest[0], rest[1..]);
      }
      Regroup(EscapeChar(s[0]), Escape(s[1..]), ['\'', '\n']);
    }
  }

  lemma DropOneNewline(s: string)
    requires s != "" && s[|s| - 1] != '\n'
    ensures Substituted(s + ['\n']) == s
  {
    assert (s + ['\n'])[..|s|] == s;
  }

  /** Newlines anywhere, trailing ones included, survive the detour through sed. */
  lemma EscapeBySedValue(s: string)
    ensures EscapeBySed(s) == Escape(s) + ['\'']
  {
    SedIsEscape(s);
    DropOneNewline(Escape(s) + ['\'']);
    assert Escape(s) + ['\''] + ['\n'] == Escape(s) + ['\'', '\n'];
  }

  lemma {:induction false} EscapeOfPlain(s: string)
    requires QUOTE !in s
    ensures Escape(s) == s
  {
    if s == "" {
    } else {
      EscapeOfPlain(s[1..]);
      assert s == [s[0]] + s[1..];
    }
  }

  /** One operand, or the pattern, as it is appended to the command line. */
  function QuoteOperand(s: string): string {
    if QUOTE in s then [' ', '\''] + EscapeBySed(s) else [' ', '\''] + s + ['\'']
  }

  lemma QuoteOperandValue(s: string)
    ensures QuoteOperand(s) == [' ', '\''] + Escape(s) + ['\'']
  {
    EscapeBySedValue(s);
    if QUOTE !in s { EscapeOfPlain(s); }
  }

  // ----- the shell's quoting rules (sections 2.2.1 and 2.2.2 of the POSIX.1-2017 Shell Command Language)

  datatype Mode = Between | Word(soFar: string) | Quoted(soFar: string)

  predicate Blank(c: char) { c == ' ' || c == '\t' }

  /** Characters that mean something else to the shell outside quotes; a command line with one of
      them unquoted is not a plain list of words. */
  predicate Special(c: char) { c in "\n$`\"|&;<>()*?[#~" }

  function Tokens(s: string, mode: Mode): Option<seq<string>>
    decreases |s|
  {
    match mode
    case Between =>
      if s == "" then Some([])
      else if Blank(s[0]) then Tokens(s[1..], Between)
      else if s[0] == QUOTE then Tokens(s[1..], Quoted(""))
      else if s[0] == '\\' then (if |s| < 2 || s[1] == '\n' then None else Tokens(s[2..], Word([s[1]])))
      else if Special(s[0]) then None
      else Tokens(s[1..], Word([s[0]]))
    case Word(w) =>
      if s == "" then Some([w])
      else if Blank(s[0]) then Prepend(w, Tokens(s[1..], Between))
      else if s[0] == QUOTE then Tokens(s[1..], Quoted(w))
      else if s[0] == '\\' then (if |s| < 2 || s[1] == '\n' then None else Tokens(s[2..], Word(w + [s[1]])))
      else if Special(s[0]) then None
      else Tokens(s[1..], Word(w + [s[0]]))
    case Quoted(w) =>
      if s == "" then None
      else if s[0] == QUOTE then Tokens(s[1..], Word(w))
      else Tokens(s[1..], Quoted(w + [s[0]]))
  }

  lemma ReadBlank(t: string)
    ensures Tokens([' '] + t, Between) == Tokens(t, Between)
  {
    assert ([' '] + t)[1..] == t;
  }

  lemma ReadOpening(t: string, w: string)
    ensures Tokens(['\''] + t, Between) == Tokens(t, Quoted(""))
    ensures Tokens(['\''] + t, Word(w)) == Tokens(t, Quoted(w))
  {
    assert (['\''] + t)[1..] == t;
  }

  lemma ReadClosing(t: string, w: string)
    ensures Tokens(['\''] + t, Quoted(w)) == Tokens(t, Word(w))
  {
    assert (['\''] + t)[1..] == t;
  }

  lemma ReadQuotedChar(c: char, t: string, w: string)
    requires c != QUOTE
    ensures Tokens([c] + t, Quoted(w)) == Tokens(t, Quoted(w + [c]))
  {
    assert ([c] + t)[1..] == t;
  }

  lemma ReadBackslash(c: char, t: string, w: string)
    requires c != '\n'
    ensures Tokens(['\\'] + ([c] + t), Word(w)) == Tokens(t, Word(w + [c]))
  {
    var s := ['\\'] + ([c] + t);
    assert s[1] == c && s[2..] == t;
  }

  predicate StartsBlank(rest: string) { rest == "" || Blank(rest[0]) }

  lemma ReadWordEnd(rest: string, w: string)
    requires StartsBlank(rest)
    ensures Tokens(rest, Word(w)) == Prepend(w, Tokens(rest, Between))
  {
    assert [w] + [] == [w];
  }

  /** The four characters that stand for a quote. */
  lemma ReadEscapedQuote(t: string, w: string)
    ensures Tokens(['\'', '\\', '\'', '\''] + t, Quoted(w)) == Tokens(t, Quoted(w + [QUOTE]))
  {
    var t1 := ['\''] + t;
    var t2 := ['\\'] + ([QUOTE] + t1);
    assert ['\'', '\\', '\'', '\''] + t == ['\''] + t2;
    ReadClosing(t2, w);
    ReadBackslash(QUOTE, t1, w);
    ReadOpening(t, w + [QUOTE]);
  }

  /** Inside quotes, an escaped string and the closing quote read back as the string. */
  lemma {:induction false} ReadEscaped(x: string, w: string, rest: string)
    ensures Tokens(Escape(x) + (['\''] + rest), Quoted(w)) == Tokens(rest, Word(w + x))
    decreases |x|
  {
    if x == "" {
      assert Escape(x) + (['\''] + rest) == ['\''] + rest;
      ReadClosing(rest, w);
      assert w + x == w;
    } else {
      var tail := Escape(x[1..]) + (['\''] + rest);
      assert Escape(x) + (['\''] + rest) == EscapeChar(x[0]) + tail;
      if x[0] == QUOTE { ReadEscapedQuote(tail, w); } else { ReadQuotedChar(x[0], tail, w); }
      ReadEscaped(x[1..], w + [x[0]], rest);
      assert w + [x[0]] + x[1..] == w + x;
    }
  }

  /** A quoted operand reads back as one word, whatever follows after a blank. */
  lemma ReadOperand(x: string, rest: string)
    requires StartsBlank(rest)
    ensures Tokens(QuoteOperand(x) + rest, Between) == Prepend(x, Tokens(rest, Between))
  {
    var tail := Escape(x) + (['\''] + rest);
    OperandText(x, rest);
    ReadBlank(['\''] + tail);
    ReadOpening(tail, "");
    assert Tokens(tail, Quoted("")) == Tokens(rest, Word(x)) by {
      ReadEscaped(x, "", rest);
      assert "" + x == x;
    }
    ReadWordEnd(rest, x);
  }

  lemma OperandText(x: string, rest: string)
    ensures QuoteOperand(x) + rest == [' '] + (['\''] + (Escape(x) + (['\''] + rest)))
  {
    QuoteOperandValue(x);
    Framed(Escape(x), rest);
  }

  lemma Framed(e: string, rest: string)
    ensures ([' ', '\''] + e + ['\'']) + rest == [' '] + (['\''] + (e + (['\''] + rest)))
  {
  }

  function QuoteAll(xs: seq<string>): string {
    if xs == [] then "" else QuoteOperand(xs[0]) + QuoteAll(xs[1..])
  }

  lemma {:induction false} QuoteAllAppend(xs: seq<string>, x: string)
    ensures QuoteAll(xs + [x]) == QuoteAll(xs) + QuoteOperand(x)
  {
    if xs == [] {
      assert ([] + [x])[1..] == [];
      assert QuoteAll([]) + QuoteOperand(x) == QuoteOperand(x) + QuoteAll([]) == QuoteOperand(x);
    } else {
      QuoteAllAppend(xs[1..], x);
      assert (xs + [x])[1..] == xs[1..] + [x];
      var a, b, c := QuoteOperand(xs[0]), QuoteAll(xs[1..]), QuoteOperand(x);
      assert a + (b + c) == (a + b) + c;
    }
  }

  lemma PrependAllStep<T>(x: T, xs: seq<T>, o: Option<seq<T>>)
    ensures Prepend(x, PrependAll(xs, o)) == PrependAll([x] + xs, o)
  {
    if o.Some? { assert [x] + (xs + o.value) == [x] + xs + o.value; }
  }

  lemma PrependNone<T>(o: Option<seq<T>>)
    ensures PrependAll([], o) == o
  {
    if o.Some? { assert [] + o.value == o.value; }
  }

  /** Quoting a list and letting the shell split the result gives the list back, before whatever
      words follow. */
  lemma {:induction false} ReadAll(xs: seq<string>, rest: string)
    requires StartsBlank(rest)
    ensures Tokens(QuoteAll(xs) + rest, Between) == PrependAll(xs, Tokens(rest, Between))
  {
    if xs == [] {
      assert QuoteAll(xs) + rest == rest;
      PrependNone(Tokens(rest, Between));
    } else {
      var a, b := QuoteOperand(xs[0]), QuoteAll(xs[1..]);
      assert a + b + rest == a + (b + rest);
      QuotedStartsBlank(xs[1..]);
      assert StartsBlank(b + rest);
      ReadAll(xs[1..], rest);
      ReadOperand(xs[0], b + rest);
      PrependAllStep(xs[0], xs[1..], Tokens(rest, Between));
      assert [xs[0]] + xs[1..] == xs;
    }
  }

  lemma QuotedStartsBlank(xs: seq<string>)
    ensures if xs == [] then QuoteAll(xs) == "" else QuoteAll(xs) != "" && Blank(QuoteAll(xs)[0])
  {
    if xs != [] { QuoteOperandValue(xs[0]); }
  }

  /** The loop over the operands: the accumulated string is what `set --` reads the operands from,
      followed by the words that the shell appends for the arguments after `--`. */
  method AccumulateOperands(args: seq<string>) returns (operands: string)
    ensures Tokens(operands, Between) == Some(args)
    ensures forall rest :: StartsBlank(rest) ==>
      Tokens(operands + rest, Between) == PrependAll(args, Tokens(rest, Between))
  {
    operands := "";
    for i := 0 to |args|
      invariant operands == QuoteAll(args[..i])
    {
      QuoteAllAppend(args[..i], args[i]);
      assert args[..i + 1] == args[..i] + [args[i]];
      operands := operands + QuoteOperand(args[i]);
    }
    assert args[..|args|] == args;
    forall rest | StartsBlank(rest)
      ensures Tokens(operands + rest, Between) == PrependAll(args, Tokens(rest, Between))
    {
      ReadAll(args, rest);
    }
    assert operands + "" == operands && args + [] == args;
    assert Tokens(operands + "", Between) == PrependAll(args, Tokens("", Between));
  }

  // ----- options

  /** The pattern `*\'?*`: a quote with a character behind it. */
  predicate InnerQuote(s: string) { exists i :: 0 <= i < |s| - 1 && s[i] == QUOTE }

  /** An option word as it is appended to the grep arguments, after a blank. */
  function QuoteOption(s: string): string {
    if InnerQuote(s) then [' ', '\''] + EscapeBySed(s) else [' ', '\''] + s + ['\'']
  }

  /** One turn of the option loop: the option, and its argument if it takes one. */
  datatype Arg = Arg(option: string, value: Option<string>)

  function QuoteArg(a: Arg): string {
    QuoteOption(a.option) + (if a.value.None? then "" else QuoteOperand(a.value.value))
  }

  function WordsOf(a: Arg): seq<string> { [a.option] + (if a.value.None? then [] else [a.value.value]) }

  function QuoteArgs(args: seq<Arg>): string {
    if args == [] then "" else QuoteArg(args[0]) + QuoteArgs(args[1..])
  }

  function AllWords(args: seq<Arg>): seq<string> {
    if args == [] then [] else WordsOf(args[0]) + AllWords(args[1..])
  }

  /** Options that the quoting gets right: without a quote, or with one before the last character. */
  predicate Safe(option: string) {
    QUOTE !in option || exists i :: 0 <= i < |option| && option[i] == QUOTE && i + 1 < |option|
  }

  predicate AllSafe(args: seq<Arg>) { forall i :: 0 <= i < |args| ==> Safe(args[i].option) }

  lemma {:induction false} QuoteArgsAppend(args: seq<Arg>, a: Arg)
    ensures QuoteArgs(args + [a]) == QuoteArgs(args) + QuoteArg(a)
  {
    if args == [] {
      assert ([] + [a])[1..] == [];
      assert QuoteArgs([]) + QuoteArg(a) == QuoteArg(a) + QuoteArgs([]) == QuoteArg(a);
    } else {
      QuoteArgsAppend(args[1..], a);
      assert (args + [a])[1..] == args[1..] + [a];
      Regroup(QuoteArg(args[0]), QuoteArgs(args[1..]), QuoteArg(a));
    }
  }

  /** Before any words that the shell appends, the line reads back as the options and their arguments
      exactly when all options are safe. */
  ghost predicate ReadsBackIffSafe(args: seq<Arg>, line: string) {
    forall rest :: StartsBlank(rest) && Tokens(rest, Between).Some? ==>
      (Tokens(line + rest, Between) == PrependAll(AllWords(args), Tokens(rest, Between)) <==> AllSafe(args))
  }

  /** The loop over the options. */
  method AccumulateArgs(given: seq<Arg>) returns (args: string)
    ensures args == QuoteArgs(given) && ReadsBackIffSafe(given, args)
  {
    args := "";
    for i := 0 to |given|
      invariant args == QuoteArgs(given[..i])
    {
      OneMoreArg(given, i);
      var quoted := QuoteOption(given[i].option);
      var optarg := if given[i].value.None? then "" else QuoteOperand(given[i].value.value);
      args := args + (quoted + optarg);
    }
    assert given[..|given|] == given;
    ArgsReadBack(given);
  }

  lemma OneMoreArg(args: seq<Arg>, i: nat)
    requires i < |args|
    ensures QuoteArgs(args[..i + 1]) == QuoteArgs(args[..i]) + QuoteArg(args[i])
  {
    assert args[..i + 1] == args[..i] + [args[i]];
    QuoteArgsAppend(args[..i], args[i]);
  }

  lemma ArgsReadBack(args: seq<Arg>)
    ensures ReadsBackIffSafe(args, QuoteArgs(args))
  {
    forall rest | StartsBlank(rest) && Tokens(rest, Between).Some?
      ensures Tokens(QuoteArgs(args) + rest, Between) == PrependAll(AllWords(args), Tokens(rest, Between))
        <==> AllSafe(args)
    {
      OptionsReadBackIff(args, rest);
    }
  }

  /** What is read in quotes, or after them, only grows the word. */
  lemma {:induction false} WordGrows(s: string, w: string)
    ensures Tokens(s, Word(w)).Some? ==>
      Tokens(s, Word(w)).value != [] && w <= Tokens(s, Word(w)).value[0]
    ensures Tokens(s, Quoted(w)).Some? ==>
      Tokens(s, Quoted(w)).value != [] && w <= Tokens(s, Quoted(w)).value[0]
    decreases |s|
  {
    if s == "" {
    } else {
      WordGrows(s[1..], w);
      WordGrows(s[1..], w + [s[0]]);
      if |s| >= 2 { WordGrows(s[2..], w + [s[1]]); }
    }
  }

  lemma ReadSafeOption(option: string, rest: string)
    requires Safe(option) && StartsBlank(rest)
    ensures Tokens(QuoteOption(option) + rest, Between) == Prepend(option, Tokens(rest, Between))
  {
    assert QuoteOption(option) == QuoteOperand(option);
    ReadOperand(option, rest);
  }

  lemma ReadValue(value: Option<string>, rest: string)
    requires StartsBlank(rest)
    ensures var text := if value.None? then "" else QuoteOperand(value.value);
      && StartsBlank(text + rest)
      && Tokens(text + rest, Between) ==
           PrependAll(if value.None? then [] else [value.value], Tokens(rest, Between))
  {
    if value.None? {
      assert "" + rest == rest;
      PrependNone(Tokens(rest, Between));
    } else {
      QuoteOperandValue(value.value);
      ReadOperand(value.value, rest);
    }
  }

  /** The closing quote of an option with its only quote at the end opens a new quotation. */
  lemma ReadTrailingQuote(p: string, rest: string)
    requires QUOTE !in p
    ensures Tokens([' ', '\''] + (p + ['\'']) + ['\''] + rest, Between) == Tokens(rest, Quoted(p))
  {
    EscapeOfPlain(p);
    var tail := Escape(p) + (['\''] + (['\''] + rest));
    assert [' ', '\''] + (p + ['\'']) + ['\''] + rest == [' '] + (['\''] + tail);
    ReadBlank(['\''] + tail);
    ReadOpening(tail, "");
    ReadEscaped(p, "", ['\''] + rest);
    assert "" + p == p;
    ReadOpening(rest, p);
  }

  /** Whatever follows such an option, the line does not begin with it. */
  lemma ReadUnsafeOption(option: string, rest: string)
    requires !Safe(option) && StartsBlank(rest)
    ensures var r := Tokens(QuoteOption(option) + rest, Between);
      r.None? || (r.value != [] && r.value[0] != option)
  {
    var p := option[..|option| - 1];
    assert option == p + ['\''];
    ReadTrailingQuote(p, rest);
    if rest != "" {
      ReadQuotedChar(rest[0], rest[1..], p);
      assert [rest[0]] + rest[1..] == rest;
      WordGrows(rest[1..], p + [rest[0]]);
    }
  }

  lemma PrependAllFirst<T>(a: seq<T>, b: seq<T>, o: Option<seq<T>>)
    ensures PrependAll(a, PrependAll(b, o)) == PrependAll(a + b, o)
  {
    if o.Some? { assert a + (b + o.value) == a + b + o.value; }
  }

  lemma ArgsStartBlank(args: seq<Arg>, rest: string)
    requires StartsBlank(rest)
    ensures StartsBlank(QuoteArgs(args) + rest)
  {
    if args != [] { assert QuoteArgs(args)[0] == ' '; }
  }

  lemma FirstWord(a: Arg, more: seq<string>, o: Option<seq<string>>)
    requires o.Some?
    ensures PrependAll(WordsOf(a) + more, o).Some? && PrependAll(WordsOf(a) + more, o).value[0] == a.option
  {
  }

  lemma SameTail<T>(a: seq<T>, o: Option<seq<T>>, o': Option<seq<T>>)
    ensures PrependAll(a, o) == PrependAll(a, o') <==> o == o'
  {
    if o.Some? && o'.Some? && a + o.value == a + o'.value {
      assert (a + o.value)[|a|..] == o.value && (a + o'.value)[|a|..] == o'.value;
    }
  }

  lemma ReadWords(a: Arg, o: Option<seq<string>>)
    ensures Prepend(a.option, PrependAll(if a.value.None? then [] else [a.value.value], o)) == PrependAll(WordsOf(a), o)
  {
    PrependAllStep(a.option, if a.value.None? then [] else [a.value.value], o);
  }

  /** The first option and its argument are read, or the line does not begin with that option. */
  lemma ReadFirstArg(a: Arg, tail: string)
    requires StartsBlank(tail)
    ensures var r := Tokens(QuoteArg(a) + tail, Between);
      if Safe(a.option) then r == PrependAll(WordsOf(a), Tokens(tail, Between))
      else r.None? || (r.value != [] && r.value[0] != a.option)
  {
    var value := if a.value.None? then "" else QuoteOperand(a.value.value);
    assert QuoteArg(a) + tail == QuoteOption(a.option) + (value + tail) by {
      Regroup(QuoteOption(a.option), value, tail);
    }
    ReadValue(a.value, tail);
    if Safe(a.option) {
      ReadSafeOption(a.option, value + tail);
      ReadWords(a, Tokens(tail, Between));
    } else {
      ReadUnsafeOption(a.option, value + tail);
    }
  }

  /** The accumulated options read back as the options and their arguments, before whatever words
      follow, exactly when no option has its only quote as the last character. */
  lemma {:induction false} OptionsReadBackIff(args: seq<Arg>, rest: string)
    requires StartsBlank(rest) && Tokens(rest, Between).Some?
    ensures Tokens(QuoteArgs(args) + rest, Between) == PrependAll(AllWords(args), Tokens(rest, Between))
      <==> AllSafe(args)
    decreases |args|
  {
    var end := Tokens(rest, Between);
    if args == [] {
      assert QuoteArgs(args) + rest == rest;
      PrependNone(end);
    } else {
      var a, more := args[0], args[1..];
      var tail := QuoteArgs(more) + rest;
      assert QuoteArgs(args) + rest == QuoteArg(a) + tail by { Regroup(QuoteArg(a), QuoteArgs(more), rest); }
      ArgsStartBlank(more, rest);
      ReadFirstArg(a, tail);
      if Safe(a.option) {
        OptionsReadBackIff(more, rest);
        PrependAllFirst(WordsOf(a), AllWords(more), end);
        SameTail(WordsOf(a), Tokens(tail, Between), PrependAll(AllWords(more), end));
      } else {
        FirstWord(a, AllWords(more), end);
      }
    }
  }

  lemma ReadPlain(c: char, t: string, w: string)
    requires !Blank(c) && c != QUOTE && c != '\\' && !Special(c)
    ensures Tokens([c] + t, Between) == Tokens(t, Word([c]))
    ensures Tokens([c] + t, Word(w)) == Tokens(t, Word(w + [c]))
  {
    assert ([c] + t)[1..] == t;
  }

  /** The end of the options and the pattern behind it. */
  lemma ReadPattern(pattern: string)
    ensures Tokens([' ', '-', '-'] + QuoteOperand(pattern), Between) == Some(["--", pattern])
  {
    var q := QuoteOperand(pattern);
    QuoteOperandValue(pattern);
    assert [' ', '-', '-'] + q == [' '] + (['-'] + (['-'] + q));
    ReadBlank(['-'] + (['-'] + q));
    ReadPlain('-', ['-'] + q, "");
    ReadPlain('-', q, ['-']);
    assert ['-'] + ['-'] == "--";
    ReadWordEnd(q, "--");
    ReadOperand(pattern, "");
    assert q + "" == q && Tokens("", Between) == Some([]);
    assert [pattern] + [] == [pattern] && ["--"] + [pattern] == ["--", pattern];
  }

  /** The whole command line of grep: the options and the pattern, read by the shell. */
  lemma CommandLineIff(args: seq<Arg>, pattern: string)
    ensures var line := QuoteArgs(args) + ([' ', '-', '-'] + QuoteOperand(pattern));
      Tokens(line, Between) == Some(AllWords(args) + ["--", pattern]) <==> AllSafe(args)
  {
    ReadPattern(pattern);
    OptionsReadBackIff(args, [' ', '-', '-'] + QuoteOperand(pattern));
  }

  /** Two unsafe options balance each other: the line is accepted, as one word that is neither of them. */
  lemma UnsafeOptionsCanBalance(p: string)
    requires QUOTE !in p
    ensures var line := QuoteArgs([Arg(p + ['\''], None), Arg(['-', '\''], None)]);
      Tokens(line, Between) == Some([p + [' ', '-']])
  {
    var a, b := Arg(p + ['\''], None), Arg(['-', '\''], None);
    var rest := [' '] + (['\''] + (['-'] + (['\''] + (['\''] + []))));
    assert [a, b][1..] == [b] && [b][1..] == [];
    assert QuoteArgs([b]) == QuoteArg(b) + QuoteArgs([]);
    assert QuoteArg(b) + "" == QuoteOption(b.option) == rest;
    assert QuoteArg(a) == QuoteOption(a.option) == [' ', '\''] + (p + ['\'']) + ['\''];
    assert QuoteArgs([a, b]) == QuoteOption(a.option) + rest;
    ReadTrailingQuote(p, rest);
    ReadBalance(p);
  }

  lemma ReadBalance(p: string)
    ensures Tokens([' '] + (['\''] + (['-'] + (['\''] + (['\''] + [])))), Quoted(p)) == Some([p + [' ', '-']])
  {
    var w := p + [' '] + ['-'];
    ReadQuotedChar(' ', ['\''] + (['-'] + (['\''] + (['\''] + []))), p);
    ReadClosing(['-'] + (['\''] + (['\''] + [])), p + [' ']);
    ReadPlain('-', ['\''] + (['\''] + []), p + [' ']);
    ReadOpening(['\''] + [], w);
    ReadClosing([], w);
    assert w == p + [' ', '-'];
  }

  // ----- the exit status

  /** What one file contributes: the more serious of the grep and gzip statuses, where gzip's 2 and
      141 are ignored and its 1 counts as 2. */
  function FileStatus(r: nat, gzip: nat): nat {
    var g := if gzip == 2 || gzip == 141 then 0 else if gzip == 1 then 2 else gzip;
    if r < g then g else r
  }

  /** Seriousness of a status: 1 (no match) below 0 (match) below 2 and up (errors). */
  function Rank(status: nat): nat { if status == 0 then 1 else if status == 1 then 0 else status }

  /** No error: grep found lines or none, and gzip succeeded, warned, or lost its reader. */
  predicate NoError(grep: nat, gzip: nat) { grep <= 1 && (gzip == 0 || gzip == 2 || gzip == 141) }

  /** What one file contributes, in terms of its two statuses. */
  lemma FileStatusMeans(r: nat, gzip: nat)
    ensures FileStatus(r, gzip) <= 1 <==> NoError(r, gzip)
    ensures NoError(r, gzip) ==> FileStatus(r, gzip) == r
    ensures r <= FileStatus(r, gzip) && (gzip != 2 && gzip != 141 ==> gzip <= FileStatus(r, gzip))
    ensures var f := FileStatus(r, gzip);
      f == r || (gzip != 2 && gzip != 141 && f == (if gzip == 1 then 2 else gzip))
  {
  }

  /** The result comes from one of the two statuses of a file; a gzip status of 1 counts as 2. */
  predicate Causes(grep: nat, gzip: nat, res: nat) {
    res == grep || (gzip != 2 && gzip != 141 && res == (if gzip == 1 then 2 else gzip))
  }

  /** What the two statuses of a file have to do with the result. */
  predicate Bounds(grep: nat, gzip: nat, res: nat) {
    if res <= 1 then NoError(grep, gzip) && (grep == 0 ==> res == 0)
    else grep <= res && (gzip != 2 && gzip != 141 ==> gzip <= res)
  }

  lemma BoundsOf(grep: nat, gzip: nat, res: nat)
    requires Rank(FileStatus(grep, gzip)) <= Rank(res)
    ensures Bounds(grep, gzip, res)
  {
    FileStatusMeans(grep, gzip);
  }

  /** The loop over the files.  The result is the most serious status of the files looked at, which are
      all of them unless a status of 126 or more ends the loop: 0 or 1 exactly without an error, then 0
      exactly when some grep found a line; an error is at least every grep status and every gzip status
      that is not a warning, and one of them causes it. */
  method ExitStatus(statuses: seq<(nat, nat)>) returns (res: nat, looked: nat)
    ensures looked <= |statuses|
    ensures looked < |statuses| ==> looked > 0 && FileStatus(statuses[looked - 1].0, statuses[looked - 1].1) >= 126
    ensures forall i :: 0 <= i < looked - 1 ==> FileStatus(statuses[i].0, statuses[i].1) < 126
    ensures forall i :: 0 <= i < looked ==> Rank(FileStatus(statuses[i].0, statuses[i].1)) <= Rank(res)
    ensures res == 1 || exists i :: 0 <= i < looked && res == FileStatus(statuses[i].0, statuses[i].1)
    ensures res <= 1 <==> forall i :: 0 <= i < looked ==> NoError(statuses[i].0, statuses[i].1)
    ensures res <= 1 ==> (res == 0 <==> exists i :: 0 <= i < looked && statuses[i].0 == 0)
    ensures forall i :: 0 <= i < looked ==> Bounds(statuses[i].0, statuses[i].1, res)
    ensures res >= 2 ==> exists i :: 0 <= i < looked && Causes(statuses[i].0, statuses[i].1, res)
    ensures looked < |statuses| ==> res >= 126
  {
    res := 1;
    looked := 0;
    while looked < |statuses|
      invariant looked <= |statuses| && res < 126
      invariant forall i :: 0 <= i < looked ==> FileStatus(statuses[i].0, statuses[i].1) < 126
      invariant forall i :: 0 <= i < looked ==> Rank(FileStatus(statuses[i].0, statuses[i].1)) <= Rank(res)
      invariant res == 1 || exists i :: 0 <= i < looked && res == FileStatus(statuses[i].0, statuses[i].1)
    {
      var (r, gzip) := statuses[looked];
      if gzip == 2 || gzip == 141 { gzip := 0; }
      if gzip == 1 { gzip := 2; }
      if r < gzip { r := gzip; }
      if (if r <= 1 && res <= 1 then r < res else res < r) { res := r; }
      looked := looked + 1;
      if 126 <= res { break; }
    }
    forall i | 0 <= i < looked ensures Bounds(statuses[i].0, statuses[i].1, res) {
      BoundsOf(statuses[i].0, statuses[i].1, res);
    }
    if res != 1 {
      ghost var i :| 0 <= i < looked && res == FileStatus(statuses[i].0, statuses[i].1);
      FileStatusMeans(statuses[i].0, statuses[i].1);
      assert Causes(statuses[i].0, statuses[i].1, res);
    }
  }
}
