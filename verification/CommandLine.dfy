/** Quoting command-line arguments so that the Microsoft argument rules give them back. */
module CommandLine {

  type Chars = seq<char>

  predicate IsBlank(c: char) {
    c == ' ' || c == '\t'
  }

  function Backslashes(n: nat): (s: Chars)
    ensures |s| == n && forall i :: 0 <= i < n ==> s[i] == '\\'
  {
    seq(n, _ => '\\')
  }

  // ---------------------------------------------------------------------------------------------
  // The rules for splitting
  // ---------------------------------------------------------------------------------------------

  function Leading(s: Chars): (n: nat)
    ensures n <= |s| && (n < |s| ==> s[n] != '\\') && forall i :: 0 <= i < n ==> s[i] == '\\'
  {
    if s == [] || s[0] != '\\' then 0 else 1 + Leading(s[1..])
  }

  /**
   The rest of an argument that is being read, and what follows it. Backslashes are literal unless a quote follows;
   then each pair stands for one, and an odd one makes the quote literal. Inside quotes two quotes are one.
   */
  function Argument(s: Chars, quoted: bool): (r: (Chars, Chars))
    ensures |r.1| <= |s| && (s != [] && !IsBlank(s[0]) ==> |r.1| < |s|)
    decreases |s|, 1
  {
    var n := Leading(s);
    After(n, s[n..], quoted)
  }

  /** The same after n backslashes, which `t` does not continue. */
  function After(n: nat, t: Chars, quoted: bool): (r: (Chars, Chars))
    ensures |r.1| <= |t| && (t != [] && !IsBlank(t[0]) ==> |r.1| < |t|)
    decreases |t|, 0
  {
    if t == [] || (IsBlank(t[0]) && !quoted) then (Backslashes(n), t)
    else if t[0] != '"' then Put(Backslashes(n) + [t[0]], Argument(t[1..], quoted))
    else if n % 2 == 1 then Put(Backslashes(n / 2) + ['"'], Argument(t[1..], quoted))
    else if quoted && |t| > 1 && t[1] == '"' then Put(Backslashes(n / 2) + ['"'], Argument(t[2..], true))
    else Put(Backslashes(n / 2), Argument(t[1..], !quoted))
  }

  function Put(a: Chars, r: (Chars, Chars)): (Chars, Chars) {
    (a + r.0, r.1)
  }

  /** The arguments of a command line. */
  function Split(line: Chars): seq<Chars>
    decreases |line|
  {
    if line == [] then []
    else if IsBlank(line[0]) then Split(line[1..])
    else
      var (a, rest) := Argument(line, false);
      [a] + Split(rest)
  }

  // ---------------------------------------------------------------------------------------------
  // Quoting
  // ---------------------------------------------------------------------------------------------

  predicate NeedsQuotes(value: Chars) {
    exists i :: 0 <= i < |value| && (IsBlank(value[i]) || value[i] == '"')
  }

  /** The rest of a value, with `pending` backslashes read but not yet written. */
  function Escape(value: Chars, pending: nat): Chars
    decreases |value|
  {
    if value == [] then Backslashes(2 * pending)
    else if value[0] == '\\' then Escape(value[1..], pending + 1)
    else if value[0] == '"' then Backslashes(2 * pending + 1) + ['"'] + Escape(value[1..], 0)
    else Backslashes(pending) + [value[0]] + Escape(value[1..], 0)
  }

  function Quote(value: Chars): Chars {
    if value == [] then ['"', '"']
    else if !NeedsQuotes(value) then value
    else ['"'] + Escape(value, 0) + ['"']
  }

  method QuoteCommandLineArg(value: Chars) returns (result: Chars)
    ensures result == Quote(value)
  {
    if value == [] {
      return ['"', '"'];
    }
    var needsQuotes := false;
    var i := 0;
    while i < |value| && !needsQuotes
      invariant 0 <= i <= |value|
      invariant needsQuotes <==> exists j :: 0 <= j < i && (IsBlank(value[j]) || value[j] == '"')
    {
      needsQuotes := IsBlank(value[i]) || value[i] == '"';
      i := i + 1;
    }
    if !needsQuotes {
      return value;
    }
    var quoted := ['"'];
    var backslashCount := 0;
    i := 0;
    while i < |value|
      invariant 0 <= i <= |value|
      invariant quoted + Escape(value[i..], backslashCount) == ['"'] + Escape(value, 0)
    {
      var ch := value[i];
      assert value[i..][1..] == value[i + 1..] && value[i..][0] == ch;
      if ch == '\\' {
        backslashCount := backslashCount + 1;
      } else if ch == '"' {
        quoted := quoted + Backslashes(backslashCount * 2 + 1) + ['"'];
        backslashCount := 0;
      } else {
        quoted := quoted + Backslashes(backslashCount) + [ch];
        backslashCount := 0;
      }
      i := i + 1;
    }
    quoted := quoted + Backslashes(backslashCount * 2);
    return quoted + ['"'];
  }

  // ---------------------------------------------------------------------------------------------
  // Splitting undoes quoting
  // ---------------------------------------------------------------------------------------------

  predicate Stops(rest: Chars) {
    rest == [] || IsBlank(rest[0])
  }

  lemma {:induction false} LeadingOf(n: nat, t: Chars)
    requires t == [] || t[0] != '\\'
    ensures Leading(Backslashes(n) + t) == n && (Backslashes(n) + t)[n..] == t
  {
    if n == 0 {
      assert Backslashes(0) + t == t;
    } else {
      LeadingOf(n - 1, t);
      assert (Backslashes(n) + t)[1..] == Backslashes(n - 1) + t;
    }
  }

  lemma ArgumentAt(n: nat, t: Chars, quoted: bool)
    requires t == [] || t[0] != '\\'
    ensures Argument(Backslashes(n) + t, quoted) == After(n, t, quoted)
  {
    LeadingOf(n, t);
  }

  lemma EscapedEnd(pending: nat, rest: Chars)
    requires Stops(rest)
    ensures Argument(Backslashes(2 * pending) + ['"'] + rest, true) == (Backslashes(pending), rest)
  {
    hide Argument;
    assert Backslashes(2 * pending) + ['"'] + rest == Backslashes(2 * pending) + (['"'] + rest);
    ArgumentAt(2 * pending, ['"'] + rest, true);
    StopsReading(rest);
    assert (['"'] + rest)[1..] == rest && Backslashes(pending) + [] == Backslashes(pending);
  }

  lemma EscapedQuote(pending: nat, tail: Chars)
    ensures Argument(Backslashes(2 * pending + 1) + ['"'] + tail, true)
            == Put(Backslashes(pending) + ['"'], Argument(tail, true))
  {
    hide Argument;
    assert Backslashes(2 * pending + 1) + ['"'] + tail == Backslashes(2 * pending + 1) + (['"'] + tail);
    ArgumentAt(2 * pending + 1, ['"'] + tail, true);
    assert (['"'] + tail)[1..] == tail;
  }

  lemma EscapedOther(pending: nat, c: char, tail: Chars)
    requires c != '\\' && c != '"'
    ensures Argument(Backslashes(pending) + [c] + tail, true) == Put(Backslashes(pending) + [c], Argument(tail, true))
  {
    hide Argument;
    assert Backslashes(pending) + [c] + tail == Backslashes(pending) + ([c] + tail);
    ArgumentAt(pending, [c] + tail, true);
    assert ([c] + tail)[1..] == tail;
  }

  lemma Reassemble(pending: nat, value: Chars)
    requires value != []
    ensures Backslashes(pending) + [value[0]] + (Backslashes(0) + value[1..]) == Backslashes(pending) + value
    ensures value[0] == '\\' ==> Backslashes(pending + 1) + value[1..] == Backslashes(pending) + value
  {
  }

  /** Inside quotes, the escaped rest of a value and the closing quote read back as the value. */
  lemma {:induction false} EscapedReadsBack(value: Chars, pending: nat, rest: Chars)
    requires Stops(rest)
    ensures Argument(Escape(value, pending) + ['"'] + rest, true) == (Backslashes(pending) + value, rest)
    decreases |value|
  {
    hide Argument, After, Backslashes;
    if value == [] {
      EscapedEnd(pending, rest);
      assert Backslashes(pending) + value == Backslashes(pending);
      return;
    }
    var tail := Escape(value[1..], 0) + ['"'] + rest;
    Reassemble(pending, value);
    if value[0] == '\\' {
      EscapedReadsBack(value[1..], pending + 1, rest);
      return;
    }
    EscapedReadsBack(value[1..], 0, rest);
    if value[0] == '"' {
      EscapedQuote(pending, tail);
      assert Escape(value, pending) + ['"'] + rest == Backslashes(2 * pending + 1) + ['"'] + tail;
    } else {
      EscapedOther(pending, value[0], tail);
      assert Escape(value, pending) + ['"'] + rest == Backslashes(pending) + [value[0]] + tail;
    }
  }

  lemma StopsReading(rest: Chars)
    requires Stops(rest)
    ensures Argument(rest, false) == ([], rest)
  {
    ArgumentAt(0, rest, false);
    assert Backslashes(0) + rest == rest;
  }

  /** Backslashes before an ordinary character are themselves. */
  lemma PlainOther(n: nat, c: char, tail: Chars)
    requires c != '\\' && c != '"' && !IsBlank(c)
    ensures Argument(Backslashes(n) + ([c] + tail), false) == Put(Backslashes(n) + [c], Argument(tail, false))
  {
    hide Argument;
    ArgumentAt(n, [c] + tail, false);
    assert ([c] + tail)[1..] == tail;
  }

  lemma PlainEnd(n: nat, rest: Chars)
    requires Stops(rest)
    ensures Argument(Backslashes(n) + rest, false) == (Backslashes(n), rest)
  {
    hide Argument;
    ArgumentAt(n, rest, false);
  }

  lemma LeadingAre(value: Chars)
    ensures value[..Leading(value)] == Backslashes(Leading(value))
  {
    var n := Leading(value);
    forall i | 0 <= i < n
      ensures value[..n][i] == Backslashes(n)[i]
    {
    }
  }

  lemma LeadingSplit(value: Chars)
    ensures var n := Leading(value);
            && (n == |value| ==> value == Backslashes(n))
            && (n < |value| ==> value == Backslashes(n) + ([value[n]] + value[n + 1..]))
  {
    hide Leading, Backslashes;
    LeadingAre(value);
    var n := Leading(value);
    if n < |value| {
      CutAt(value, n);
    } else {
      assert value[..n] == value;
    }
  }

  lemma CutAt(s: Chars, n: nat)
    requires n < |s|
    ensures s == s[..n] + ([s[n]] + s[n + 1..])
  {
  }

  /** A value that needs no quotes reads back as it is, its backslashes literal. */
  lemma {:induction false} PlainReadsBack(value: Chars, rest: Chars)
    requires !NeedsQuotes(value) && Stops(rest)
    ensures Argument(value + rest, false) == (value, rest)
    decreases |value|
  {
    var n := Leading(value);
    LeadingSplit(value);
    hide Argument, Backslashes, Leading;
    if n == |value| {
      PlainEnd(n, rest);
      return;
    }
    var c, tail := value[n], value[n + 1..];
    assert !IsBlank(value[n]) && value[n] != '"';
    assert forall i :: 0 <= i < |tail| ==> tail[i] == value[n + 1 + i];
    PlainReadsBack(tail, rest);
    PlainOther(n, c, tail + rest);
    Regroup2(Backslashes(n), [c], tail, rest);
  }

  lemma Regroup2(a: Chars, b: Chars, c: Chars, d: Chars)
    ensures a + (b + (c + d)) == a + (b + c) + d && a + b + c == a + (b + c)
  {
  }

  lemma QuotedReadsBack(value: Chars, rest: Chars)
    requires Stops(rest)
    ensures Argument(Quote(value) + rest, false) == (value, rest)
  {
    hide Argument, After, Escape;
    QuoteMeans(value);
    if value != [] && !NeedsQuotes(value) {
      PlainReadsBack(value, rest);
      return;
    }
    EscapedReadsBack(value, 0, rest);
    assert Backslashes(0) + value == value;
    hide Quote, NeedsQuotes;
    assert Quote(value) + rest == ['"'] + (Escape(value, 0) + ['"'] + rest);
    OpenQuote(Escape(value, 0) + ['"'] + rest);
  }

  lemma QuoteMeans(value: Chars)
    ensures value != [] && !NeedsQuotes(value) ==> Quote(value) == value
    ensures !(value != [] && !NeedsQuotes(value)) ==> Quote(value) == ['"'] + Escape(value, 0) + ['"']
  {
    assert Escape([], 0) == [];
  }

  lemma OpenQuote(s: Chars)
    ensures Argument(['"'] + s, false) == Argument(s, true)
  {
    hide Argument;
    ArgumentAt(0, ['"'] + s, false);
    assert Backslashes(0) + (['"'] + s) == ['"'] + s && (['"'] + s)[1..] == s;
    assert Backslashes(0) + Argument(s, true).0 == Argument(s, true).0;
  }

  function JoinQuoted(args: seq<Chars>): Chars {
    if args == [] then []
    else if |args| == 1 then Quote(args[0])
    else Quote(args[0]) + [' '] + JoinQuoted(args[1..])
  }

  lemma QuoteStarts(value: Chars)
    ensures Quote(value) != [] && !IsBlank(Quote(value)[0])
  {
  }

  lemma JoinStep(args: seq<Chars>)
    requires |args| > 1
    ensures JoinQuoted(args) == Quote(args[0]) + ([' '] + JoinQuoted(args[1..]))
    ensures args == [args[0]] + args[1..]
  {
    hide Quote;
    OneSpace(Quote(args[0]), JoinQuoted(args[1..]));
  }

  lemma OneSpace(a: Chars, b: Chars)
    ensures a + [' '] + b == a + ([' '] + b)
  {
  }

  lemma SplitFirst(value: Chars, rest: Chars)
    requires Stops(rest)
    ensures Split(Quote(value) + rest) == [value] + Split(rest)
  {
    hide Quote, Argument;
    QuoteStarts(value);
    QuotedReadsBack(value, rest);
  }

  /** Splitting the quoted arguments, joined by spaces, gives back every list of arguments. */
  lemma {:induction false} SplitUndoesQuoting(args: seq<Chars>)
    ensures Split(JoinQuoted(args)) == args
    decreases |args|
  {
    hide Quote;
    if args == [] {
      return;
    }
    if |args| == 1 {
      SplitFirst(args[0], []);
      assert Quote(args[0]) + [] == Quote(args[0]) && args == [args[0]];
      return;
    }
    var tail := JoinQuoted(args[1..]);
    JoinStep(args);
    SplitFirst(args[0], [' '] + tail);
    SplitUndoesQuoting(args[1..]);
    assert ([' '] + tail)[1..] == tail;
  }

  lemma {:induction false} EscapeGrows(value: Chars, pending: nat)
    ensures |Escape(value, pending)| >= |value| + pending
    decreases |value|
  {
    if value != [] {
      EscapeGrows(value[1..], if value[0] == '\\' then pending + 1 else 0);
    }
  }

  /** Exactly what is not empty and has neither blanks nor quotes is left as it is. */
  lemma QuotedWhenNeeded(value: Chars)
    ensures Quote(value) == value <==> value != "" && forall i :: 0 <= i < |value| ==> value[i] !in " \t\""
  {
    QuoteMeans(value);
    EscapeGrows(value, 0);
  }

  // ---------------------------------------------------------------------------------------------
  // The program name
  // ---------------------------------------------------------------------------------------------

  /** The first argument has a rule of its own: quotes only switch quoting, and backslashes are always literal. */
  function ProgramName(s: Chars, quoted: bool): (r: (Chars, Chars))
    ensures '"' !in r.0
  {
    if s == [] || (IsBlank(s[0]) && !quoted) then ([], s)
    else if s[0] == '"' then ProgramName(s[1..], !quoted)
    else Put([s[0]], ProgramName(s[1..], quoted))
  }

  /** The arguments of a command line that starts with a program name. */
  function SplitProgram(line: Chars): (args: seq<Chars>)
    ensures args != []
  {
    var (name, rest) := ProgramName(line, false);
    [name] + Split(rest)
  }

  /** A name without quotes that does not end in a backslash before its closing quote. */
  predicate NameSurvives(name: Chars) {
    '"' !in name && (NeedsQuotes(name) ==> name[|name| - 1] != '\\')
  }

  lemma {:induction false} PlainName(value: Chars, rest: Chars)
    requires !NeedsQuotes(value) && Stops(rest)
    ensures ProgramName(value + rest, false) == (value, rest)
  {
    if value == [] {
      assert value + rest == rest;
    } else {
      assert (value + rest)[1..] == value[1..] + rest;
      assert forall i :: 0 <= i < |value| - 1 ==> value[1..][i] == value[i + 1];
      PlainName(value[1..], rest);
      assert [value[0]] + value[1..] == value;
    }
  }

  lemma {:induction false} LiteralRun(a: Chars, t: Chars)
    requires '"' !in a
    ensures ProgramName(a + t, true) == Put(a, ProgramName(t, true))
  {
    if a == [] {
      assert a + t == t && a + ProgramName(t, true).0 == ProgramName(t, true).0;
    } else {
      assert (a + t)[1..] == a[1..] + t && a == [a[0]] + a[1..];
      LiteralRun(a[1..], t);
      assert a[0] != '"' && (a + t)[0] == a[0];
      assert [a[0]] + (a[1..] + ProgramName(t, true).0) == a + ProgramName(t, true).0;
    }
  }

  lemma ClosedName(rest: Chars)
    requires Stops(rest)
    ensures ProgramName(['"'] + rest, true) == ([], rest)
  {
    assert (['"'] + rest)[1..] == rest;
  }

  predicate EndsPlain(value: Chars, pending: nat) {
    if value == [] then pending == 0 else value[|value| - 1] != '\\'
  }

  /** Backslashes doubled before the closing quote stay doubled in a program name. */
  lemma {:induction false} EscapedName(value: Chars, pending: nat, rest: Chars)
    requires '"' !in value && Stops(rest)
    ensures var r := ProgramName(Escape(value, pending) + ['"'] + rest, true);
            r.1 == rest && (r.0 == Backslashes(pending) + value <==> EndsPlain(value, pending))
    decreases |value|
  {
    hide ProgramName, Backslashes;
    ClosedName(rest);
    if value == [] {
      assert Escape(value, pending) + ['"'] + rest == Backslashes(2 * pending) + (['"'] + rest);
      LiteralRun(Backslashes(2 * pending), ['"'] + rest);
      assert |Backslashes(2 * pending) + []| == 2 * pending && |Backslashes(pending) + []| == pending;
      assert pending == 0 ==> Backslashes(2 * pending) + [] == Backslashes(pending) + [];
      return;
    }
    Reassemble(pending, value);
    if value[0] == '\\' {
      EscapedName(value[1..], pending + 1, rest);
      return;
    }
    var head, tail := Backslashes(pending) + [value[0]], Escape(value[1..], 0) + ['"'] + rest;
    EscapedName(value[1..], 0, rest);
    assert Escape(value, pending) + ['"'] + rest == head + tail;
    LiteralRun(head, tail);
    SameAfter(head, ProgramName(tail, true).0, Backslashes(0) + value[1..]);
  }

  lemma SameAfter(head: Chars, a: Chars, b: Chars)
    ensures head + a == head + b <==> a == b
  {
    if head + a == head + b {
      assert a == (head + a)[|head|..] == b;
    }
  }

  /** A quoted name is read back exactly if it survives. */
  lemma NameReadsBack(value: Chars, rest: Chars)
    requires Stops(rest)
    ensures ProgramName(Quote(value) + rest, false).0 == value <==> NameSurvives(value)
    ensures NameSurvives(value) ==> ProgramName(Quote(value) + rest, false).1 == rest
  {
    hide ProgramName, Escape;
    if '"' in value {
      assert '"' !in ProgramName(Quote(value) + rest, false).0;
      return;
    }
    QuoteMeans(value);
    if value != [] && !NeedsQuotes(value) {
      PlainName(value, rest);
      return;
    }
    EscapedName(value, 0, rest);
    assert Backslashes(0) + value == value;
    hide Quote, NeedsQuotes;
    assert Quote(value) + rest == ['"'] + (Escape(value, 0) + ['"'] + rest);
    OpenName(Escape(value, 0) + ['"'] + rest);
  }

  lemma OpenName(s: Chars)
    ensures ProgramName(['"'] + s, false) == ProgramName(s, true)
  {
    assert (['"'] + s)[1..] == s;
  }

  /** Under the program-name rule the command line splits back exactly if its first argument survives. */
  lemma SplitProgramUndoesQuoting(args: seq<Chars>)
    requires args != []
    ensures SplitProgram(JoinQuoted(args)) == args <==> NameSurvives(args[0])
  {
    hide Quote, ProgramName, NameSurvives;
    var rest := if |args| == 1 then [] else [' '] + JoinQuoted(args[1..]);
    assert JoinQuoted(args) == Quote(args[0]) + rest by {
      if |args| > 1 {
        JoinStep(args);
      } else {
        assert Quote(args[0]) + [] == Quote(args[0]);
      }
    }
    NameReadsBack(args[0], rest);
    SplitUndoesQuoting(args[1..]);
    assert Split(rest) == args[1..] by {
      assert |args| > 1 ==> rest[1..] == JoinQuoted(args[1..]);
    }
    assert args == [args[0]] + args[1..];
  }

  /** The command line for a child process: every argument quoted, joined by spaces. */
  method BuildCommandLine(args: seq<Chars>) returns (line: Chars)
    requires args != []
    ensures Split(line) == args
    ensures SplitProgram(line) == args <==> NameSurvives(args[0])
  {
    hide Quote, JoinQuoted, Split, SplitProgram, NameSurvives;
    line := QuoteCommandLineArg(args[0]);
    assert args[..1] == [args[0]];
    JoinOne(args[0]);
    var i := 1;
    while i < |args|
      invariant 1 <= i <= |args|
      invariant line == JoinQuoted(args[..i])
    {
      var quoted := QuoteCommandLineArg(args[i]);
      JoinLast(args[..i], args[i]);
      assert args[..i] + [args[i]] == args[..i + 1];
      line := line + [' '] + quoted;
      i := i + 1;
    }
    assert args[..i] == args;
    SplitUndoesQuoting(args);
    SplitProgramUndoesQuoting(args);
  }

  lemma JoinOne(arg: Chars)
    ensures JoinQuoted([arg]) == Quote(arg)
  {
    hide Quote;
  }

  lemma {:induction false} JoinLast(args: seq<Chars>, last: Chars)
    requires args != []
    ensures JoinQuoted(args + [last]) == JoinQuoted(args) + [' '] + Quote(last)
    decreases |args|
  {
    hide Quote;
    assert (args + [last])[1..] == args[1..] + [last] && (args + [last])[0] == args[0];
    if |args| == 1 {
      assert args[1..] + [last] == [last];
      return;
    }
    JoinLast(args[1..], last);
    Regroup(Quote(args[0]), JoinQuoted(args[1..]), Quote(last));
  }

  lemma Regroup(a: Chars, b: Chars, c: Chars)
    ensures a + [' '] + (b + [' '] + c) == a + [' '] + b + [' '] + c
  {
  }
}
