/** Windows command-line quoting, and the splitting rules it has to survive. */
module CommandLine {
  import opened Sequences

  // ---- quoting ----

  function Backslashes(n: nat): (s: string)
    ensures |s| == n
  {
    if n == 0 then "" else Backslashes(n - 1) + ['\\']
  }

  predicate Special(c: char) {
    c == ' ' || c == '\t' || c == '\n' || c == '\U{000B}' || c == '"'
  }

  predicate NeedsQuotes(arg: string) {
    arg == "" || exists i :: 0 <= i < |arg| && Special(arg[i])
  }

  /** The text between the quotes, with `n` backslashes already read: backslashes double where a
      quote follows them. */
  function Escape(arg: string, n: nat): string {
    if arg == "" then Backslashes(2 * n)
    else if arg[0] == '\\' then Escape(arg[1..], n + 1)
    else if arg[0] == '"' then Backslashes(2 * n + 1) + (['"'] + Escape(arg[1..], 0))
    else Backslashes(n) + ([arg[0]] + Escape(arg[1..], 0))
  }

  function Quote(arg: string): string {
    if NeedsQuotes(arg) then ['"'] + Escape(arg, 0) + ['"'] else arg
  }

  function Build(argv: seq<string>): string {
    if argv == [] then ""
    else if |argv| == 1 then Quote(argv[0])
    else Quote(argv[0]) + ([' '] + Build(argv[1..]))
  }

  lemma {:induction false} EscapeIsLonger(arg: string, n: nat)
    ensures |Escape(arg, n)| >= |arg| + n
    decreases |arg|
  {
    if arg != "" {
      EscapeIsLonger(arg[1..], if arg[0] == '\\' then n + 1 else 0);
    }
  }

  /** An argument stands as it is exactly when there is something of it and it has no blank, line break,
      vertical tab or quote in it; otherwise it is between quotes. */
  lemma UnquotedExactly(arg: string)
    ensures Quote(arg) == arg <==>
            arg != "" && ' ' !in arg && '\t' !in arg && '\n' !in arg && '\U{000B}' !in arg && '"' !in arg
    ensures Quote(arg) != arg ==> |Quote(arg)| >= |arg| + 2 && Quote(arg)[0] == Quote(arg)[|Quote(arg)| - 1] == '"'
  {
    EscapeIsLonger(arg, 0);
  }

  method QuoteArgument(arg: string) returns (out: string)
    ensures out == Quote(arg)
  {
    var special := FindSpecial(arg);
    if arg != "" && special == |arg| {
      return arg;
    }
    out := AppendEscaped(['"'], arg);
    out := out + ['"'];
  }

  method AppendEscaped(before: string, arg: string) returns (out: string)
    ensures out == before + Escape(arg, 0)
  {
    out := before;
    var it := 0;
    while true
      invariant 0 <= it <= |arg|
      invariant out + Escape(arg[it..], 0) == before + Escape(arg, 0)
      decreases |arg| - it
    {
      var backslashes := CountBackslashes(arg, it);
      it := it + backslashes;
      if it == |arg| {
        out := out + Backslashes(backslashes * 2);
        break;
      }
      EscapeOneMore(out, arg, it, backslashes);
      if arg[it] == '"' {
        out := out + Backslashes(backslashes * 2 + 1) + ['"'];
      } else {
        out := out + Backslashes(backslashes) + [arg[it]];
      }
      it := it + 1;
    }
  }

  lemma EscapeOneMore(out: string, arg: string, it: nat, n: nat)
    requires it < |arg| && arg[it] != '\\'
    ensures var run := Backslashes(if arg[it] == '"' then n * 2 + 1 else n);
            out + Escape(arg[it..], n) == out + run + [arg[it]] + Escape(arg[it + 1..], 0)
  {
    DropOneMore(arg, it);
    Nested(out, Backslashes(if arg[it] == '"' then n * 2 + 1 else n), [arg[it]], Escape(arg[it + 1..], 0));
  }

  method CountBackslashes(arg: string, from: nat) returns (n: nat)
    requires from <= |arg|
    ensures from + n <= |arg| && (from + n < |arg| ==> arg[from + n] != '\\')
    ensures Escape(arg[from..], 0) == Escape(arg[from + n..], n)
  {
    n := 0;
    while from + n != |arg| && arg[from + n] == '\\'
      invariant from + n <= |arg| && Escape(arg[from..], 0) == Escape(arg[from + n..], n)
      decreases |arg| - n
    {
      DropOneMore(arg, from + n);
      n := n + 1;
    }
  }

  method FindSpecial(arg: string) returns (i: nat)
    ensures i <= |arg|
    ensures i == |arg| <==> forall j | 0 <= j < |arg| :: !Special(arg[j])
  {
    i := 0;
    while i < |arg|
      invariant 0 <= i <= |arg| && forall j | 0 <= j < i :: !Special(arg[j])
    {
      if Special(arg[i]) {
        return;
      }
      i := i + 1;
    }
  }

  method BuildCommandLine(argv: seq<string>) returns (cmd: string)
    ensures cmd == Build(argv)
  {
    cmd := "";
    for i := 0 to |argv|
      invariant cmd == Build(argv[..i])
    {
      BuildSnoc(argv[..i], argv[i]);
      assert argv[..i] + [argv[i]] == argv[..i + 1];
      var quoted := QuoteArgument(argv[i]);
      if i != 0 {
        cmd := cmd + [' '] + quoted;
      } else {
        cmd := quoted;
      }
    }
    assert argv[..|argv|] == argv;
  }

  lemma Joined(a: string, space: string, b: string, c: string)
    ensures a + (space + (b + space + c)) == a + (space + b) + space + c
  {
  }

  lemma {:induction false} BuildSnoc(argv: seq<string>, arg: string)
    ensures Build(argv + [arg]) == if argv == [] then Quote(arg) else Build(argv) + [' '] + Quote(arg)
  {
    if |argv| > 0 {
      assert (argv + [arg])[1..] == argv[1..] + [arg];
      BuildSnoc(argv[1..], arg);
      if |argv| > 1 {
        Joined(Quote(argv[0]), [' '], Build(argv[1..]), Quote(arg));
      }
    }
  }

  // ---- splitting ----

  /** Both readings of two quotes in a row inside a quoted part are in use: closing and reopening,
      or a literal quote. */
  datatype Dialect = Plain | DoubledQuote

  predicate Blank(c: char) {
    c == ' ' || c == '\t'
  }

  /** The command line ends at its terminator. */
  predicate AtEnd(s: string) {
    s == "" || s[0] == '\0'
  }

  /** One argument off the front of the line, with `n` backslashes pending. A run of 2n or 2n+1
      backslashes before a quote stands for n backslashes, and an odd run makes the quote literal;
      other backslashes stand for themselves; an unquoted blank ends the argument. */
  function ParseArg(d: Dialect, s: string, quoted: bool, n: nat, acc: string): (r: (string, string))
    ensures |r.1| <= |s|
    ensures !AtEnd(s) && (quoted || !Blank(s[0])) ==> |r.1| < |s|
    decreases |s|
  {
    if AtEnd(s) then (acc + Backslashes(n), "")
    else if s[0] == '\\' then ParseArg(d, s[1..], quoted, n + 1, acc)
    else if s[0] == '"' then
      if n % 2 == 1 then ParseArg(d, s[1..], quoted, 0, acc + Backslashes(n / 2) + ['"'])
      else if d == DoubledQuote && quoted && |s| > 1 && s[1] == '"'
      then ParseArg(d, s[2..], true, 0, acc + Backslashes(n / 2) + ['"'])
      else ParseArg(d, s[1..], !quoted, 0, acc + Backslashes(n / 2))
    else if Blank(s[0]) && !quoted then (acc + Backslashes(n), s)
    else ParseArg(d, s[1..], quoted, 0, acc + Backslashes(n) + [s[0]])
  }

  function Split(d: Dialect, s: string): seq<string>
    decreases |s|
  {
    if AtEnd(s) then []
    else if Blank(s[0]) then Split(d, s[1..])
    else
      var (arg, rest) := ParseArg(d, s, false, 0, "");
      [arg] + Split(d, rest)
  }

  // ---- the round trip ----

  /** What may follow an argument on the line: nothing, or the separating space. */
  predicate Separated(rest: string) {
    rest == "" || rest[0] == ' '
  }

  predicate NulFree(arg: string) {
    forall i | 0 <= i < |arg| :: arg[i] != '\0'
  }

  lemma {:induction false} BackslashesFirst(n: nat)
    requires n > 0
    ensures Backslashes(n) == ['\\'] + Backslashes(n - 1)
  {
    if n > 1 {
      BackslashesFirst(n - 1);
    }
  }

  /** A run of backslashes is only counted. */
  lemma {:induction false} RunIsCounted(d: Dialect, k: nat, s: string, quoted: bool, n: nat, acc: string)
    ensures ParseArg(d, Backslashes(k) + s, quoted, n, acc) == ParseArg(d, s, quoted, n + k, acc)
    decreases k
  {
    if k == 0 {
      assert Backslashes(0) + s == s;
    } else {
      BackslashesFirst(k);
      assert (Backslashes(k) + s)[1..] == Backslashes(k - 1) + s;
      RunIsCounted(d, k - 1, s, quoted, n + 1, acc);
    }
  }

  /** At a separator an unquoted argument is complete. */
  lemma SeparatorEnds(d: Dialect, rest: string, n: nat, acc: string)
    requires Separated(rest)
    ensures ParseArg(d, rest, false, n, acc) == (acc + Backslashes(n), rest)
  {
  }

  lemma EscapedCharReads(d: Dialect, n: nat, c: char, inner: string, acc: string)
    requires c != '\\' && c != '\0'
    ensures ParseArg(d, Backslashes(if c == '"' then 2 * n + 1 else n) + ([c] + inner), true, 0, acc) ==
            ParseArg(d, inner, true, 0, acc + Backslashes(n) + [c])
  {
    RunIsCounted(d, if c == '"' then 2 * n + 1 else n, [c] + inner, true, 0, acc);
    assert ([c] + inner)[1..] == inner;
  }

  /** Inside quotes, the escaped text and the closing quote read back as the argument. */
  lemma {:induction false} QuotedReadsBack(d: Dialect, arg: string, n: nat, rest: string, acc: string)
    requires NulFree(arg) && Separated(rest)
    ensures ParseArg(d, Escape(arg, n) + (['"'] + rest), true, 0, acc) == (acc + Backslashes(n) + arg, rest)
    decreases |arg|
  {
    var close := ['"'] + rest;
    if arg == "" {
      RunIsCounted(d, 2 * n, close, true, 0, acc);
      assert close[1..] == rest;
      SeparatorEnds(d, rest, 0, acc + Backslashes(n));
      assert acc + Backslashes(n) + Backslashes(0) == acc + Backslashes(n) + arg;
    } else if arg[0] == '\\' {
      QuotedReadsBack(d, arg[1..], n + 1, rest, acc);
      ShiftFirst(acc, Backslashes(n), arg);
    } else {
      var inner := Escape(arg[1..], 0) + close;
      Nested(Backslashes(if arg[0] == '"' then 2 * n + 1 else n), [arg[0]], Escape(arg[1..], 0), close);
      EscapedCharReads(d, n, arg[0], inner, acc);
      var read := acc + Backslashes(n) + [arg[0]];
      QuotedReadsBack(d, arg[1..], 0, rest, read);
      assert read + Backslashes(0) == read;
      ShiftFirst(acc, Backslashes(n), arg);
    }
  }

  /** An argument written without quotes reads back as it stands. */
  lemma {:induction false} BareReadsBack(d: Dialect, arg: string, n: nat, rest: string, acc: string)
    requires NulFree(arg) && Separated(rest)
    requires forall i | 0 <= i < |arg| :: !Special(arg[i])
    ensures ParseArg(d, arg + rest, false, n, acc) == (acc + Backslashes(n) + arg, rest)
    decreases |arg|
  {
    if arg == "" {
      assert arg + rest == rest && acc + Backslashes(n) + arg == acc + Backslashes(n);
      SeparatorEnds(d, rest, n, acc);
    } else {
      assert (arg + rest)[1..] == arg[1..] + rest;
      if arg[0] == '\\' {
        BareReadsBack(d, arg[1..], n + 1, rest, acc);
        assert acc + Backslashes(n + 1) + arg[1..] == acc + Backslashes(n) + arg;
      } else {
        BareReadsBack(d, arg[1..], 0, rest, acc + Backslashes(n) + [arg[0]]);
        assert acc + Backslashes(n) + [arg[0]] + Backslashes(0) + arg[1..] == acc + Backslashes(n) + arg;
      }
    }
  }

  lemma QuoteReadsBack(d: Dialect, arg: string, rest: string)
    requires NulFree(arg) && Separated(rest)
    ensures !AtEnd(Quote(arg) + rest) && !Blank((Quote(arg) + rest)[0])
    ensures ParseArg(d, Quote(arg) + rest, false, 0, "") == (arg, rest)
  {
    assert "" + Backslashes(0) + arg == arg;
    if NeedsQuotes(arg) {
      var inner := Escape(arg, 0) + (['"'] + rest);
      assert Quote(arg) + rest == ['"'] + inner && (['"'] + inner)[1..] == inner;
      assert "" + Backslashes(0) == "";
      QuotedReadsBack(d, arg, 0, rest, "");
    } else {
      BareReadsBack(d, arg, 0, rest, "");
    }
  }

  lemma {:induction false} SplitUndoesBuild(d: Dialect, args: seq<string>)
    requires forall arg | arg in args :: NulFree(arg)
    ensures Split(d, Build(args)) == args
  {
    if args != [] {
      var arg := args[0];
      assert arg in args;
      if |args| == 1 {
        QuoteReadsBack(d, arg, "");
        assert Quote(arg) + "" == Quote(arg);
        assert args == [arg];
      } else {
        var more := Build(args[1..]);
        QuoteReadsBack(d, arg, [' '] + more);
        assert ([' '] + more)[1..] == more;
        SplitUndoesBuild(d, args[1..]);
      }
    }
  }

  lemma {:induction false} BackslashesNulFree(n: nat)
    ensures NulFree(Backslashes(n))
  {
    if n > 0 {
      BackslashesNulFree(n - 1);
    }
  }

  lemma {:induction false} ParseNeverYieldsNul(d: Dialect, s: string, quoted: bool, n: nat, acc: string)
    requires NulFree(acc)
    ensures NulFree(ParseArg(d, s, quoted, n, acc).0)
    decreases |s|
  {
    BackslashesNulFree(n);
    BackslashesNulFree(n / 2);
    if AtEnd(s) {
    } else if s[0] == '\\' {
      ParseNeverYieldsNul(d, s[1..], quoted, n + 1, acc);
    } else if s[0] == '"' {
      if n % 2 == 1 {
        ParseNeverYieldsNul(d, s[1..], quoted, 0, acc + Backslashes(n / 2) + ['"']);
      } else if d == DoubledQuote && quoted && |s| > 1 && s[1] == '"' {
        ParseNeverYieldsNul(d, s[2..], true, 0, acc + Backslashes(n / 2) + ['"']);
      } else {
        ParseNeverYieldsNul(d, s[1..], !quoted, 0, acc + Backslashes(n / 2));
      }
    } else if quoted || !Blank(s[0]) {
      ParseNeverYieldsNul(d, s[1..], quoted, 0, acc + Backslashes(n) + [s[0]]);
    }
  }

  lemma {:induction false} SplitNeverYieldsNul(d: Dialect, s: string)
    ensures forall arg | arg in Split(d, s) :: NulFree(arg)
    decreases |s|
  {
    if !AtEnd(s) {
      if Blank(s[0]) {
        SplitNeverYieldsNul(d, s[1..]);
      } else {
        ParseNeverYieldsNul(d, s, false, 0, "");
        SplitNeverYieldsNul(d, ParseArg(d, s, false, 0, "").1);
      }
    }
  }

  /** Quoting round-trips: in either dialect, splitting the arguments written after the program name
      returns exactly the list, if and only if no argument contains a NUL. */
  lemma RoundTripExactlyWithoutNul(d: Dialect, program: string, args: seq<string>)
    ensures Split(d, Build(args)) == args <==> forall arg | arg in args :: NulFree(arg)
    ensures args != [] ==> Build([program] + args) == Quote(program) + ([' '] + Build(args))
  {
    SplitNeverYieldsNul(d, Build(args));
    if forall arg | arg in args :: NulFree(arg) {
      SplitUndoesBuild(d, args);
    }
    assert ([program] + args)[1..] == args;
  }
}
