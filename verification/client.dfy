/** The console client of wdm_client/main.c: the command tokenizer ParseCmd,
    the command loop of ProcessInput and the thread-count bound of InitComm.

    Input lines are parameters instead of fgetws reads; what the loop sends
    to the driver is returned as a list of requests instead of
    DeviceIoControl calls. Console output is not modelled. */
module Client {
  import opened Common
  import PidParse

  /** wdm_client/cmd_opts.h */
  const CMD_MAX_ARGS: nat := 5
  const CMD_OPT_EXIT: string := "exit"
  const CMD_OPT_HELP: string := "help"
  const CMD_OPT_DUMP: string := "dump"

  /** WDM_MAX_THREAD_NO is MAXIMUM_WAIT_OBJECTS, which Windows defines as 64. */
  const WDM_MAX_THREAD_NO: nat := 64

  /** Public.h: the control buffers hold IOC_BUFFER_MAX_SIZE wide
      characters, the terminating NUL included. */
  const IOC_BUFFER_MAX_SIZE: nat := 64

  /** CMD_DELIMITER is L" \n": a space or a newline. */
  predicate IsDelimiter(c: char)
  {
    c == ' ' || c == '\n'
  }

  predicate NoDelimiter(s: string)
  {
    forall i :: 0 <= i < |s| ==> !IsDelimiter(s[i])
  }

  /** The length of the leading run of non-delimiters. */
  function RunLength(s: string): (n: nat)
    ensures n <= |s|
  {
    if |s| == 0 || IsDelimiter(s[0]) then 0 else 1 + RunLength(s[1..])
  }

  /** The run is maximal: free of delimiters, and ended by one unless it
      reaches the end of the string. */
  lemma {:induction false} RunLengthMaximal(s: string)
    ensures NoDelimiter(s[..RunLength(s)])
    ensures RunLength(s) < |s| ==> IsDelimiter(s[RunLength(s)])
    decreases |s|
  {
    if |s| > 0 && !IsDelimiter(s[0]) {
      RunLengthMaximal(s[1..]);
      assert s[..RunLength(s)] == [s[0]] + s[1..][..RunLength(s[1..])];
    }
  }

  /** One wcstok_s call: skip delimiters, take the run of non-delimiters
      that follows, and continue after the delimiter that ends it (which
      wcstok_s overwrites with a terminator). None when only delimiters
      remain. */
  function NextToken(s: string): (r: Option<(string, string)>)
    ensures r.Some? ==> |r.value.0| > 0 && |r.value.1| < |s|
    decreases |s|
  {
    if |s| == 0 then None
    else if IsDelimiter(s[0]) then NextToken(s[1..])
    else
      var n := RunLength(s);
      Some((s[..n], if n < |s| then s[n + 1..] else []))
  }

  /** All tokens of a line, in order: the maximal runs of non-delimiters. */
  function Tokenize(line: string): (tokens: seq<string>)
    ensures |tokens| <= |line|
    decreases |line|
  {
    match NextToken(line)
    case None => []
    case Some((token, rest)) => [token] + Tokenize(rest)
  }

  /** wcstok_s finds no token exactly when only delimiters are left. */
  lemma {:induction false} NextTokenNone(s: string)
    ensures NextToken(s).None? <==> forall i :: 0 <= i < |s| ==> IsDelimiter(s[i])
    decreases |s|
  {
    if |s| > 0 && IsDelimiter(s[0]) {
      NextTokenNone(s[1..]);
      assert forall i :: 1 <= i < |s| ==> s[i] == s[1..][i - 1];
    }
  }

  /** The token wcstok_s returns is a non-empty run of non-delimiters. */
  lemma {:induction false} NextTokenWord(s: string)
    requires NextToken(s).Some?
    ensures NoDelimiter(NextToken(s).value.0)
    decreases |s|
  {
    if IsDelimiter(s[0]) {
      NextTokenWord(s[1..]);
    } else {
      RunLengthMaximal(s);
    }
  }

  /** Every token is a non-empty run of non-delimiters. */
  lemma {:induction false} TokensAreWords(line: string)
    ensures forall k :: 0 <= k < |Tokenize(line)| ==> |Tokenize(line)[k]| > 0 && NoDelimiter(Tokenize(line)[k])
    decreases |line|
  {
    var next := NextToken(line);
    if next.Some? {
      NextTokenWord(line);
      TokensAreWords(next.value.1);
    }
  }

  /** A run of non-delimiters ends where the string does or at a delimiter,
      whatever follows. */
  lemma {:induction false} RunLengthAppend(a: string, t: string)
    requires RunLength(a) < |a| || (|t| > 0 && IsDelimiter(t[0]))
    ensures RunLength(a + t) == RunLength(a)
    decreases |a|
  {
    if |a| > 0 && !IsDelimiter(a[0]) {
      assert (a + t)[1..] == a[1..] + t;
      RunLengthAppend(a[1..], t);
    } else if |a| == 0 {
      assert a + t == t;
    }
  }

  /** A leading delimiter contributes no token. */
  lemma TokenizeSkip(s: string)
    requires |s| > 0 && IsDelimiter(s[0])
    ensures Tokenize(s) == Tokenize(s[1..])
  {
    assert NextToken(s) == NextToken(s[1..]);
  }

  /** A run ended by a delimiter is the first token; tokenizing goes on
      after that delimiter. */
  lemma TokenizeTake(s: string)
    requires |s| > 0 && !IsDelimiter(s[0]) && RunLength(s) < |s|
    ensures Tokenize(s) == [s[..RunLength(s)]] + Tokenize(s[RunLength(s) + 1..])
  {
    var n := RunLength(s);
    var next := NextToken(s);
    assert next == Some((s[..n], s[n + 1..]));
  }

  /** A run that reaches the end of the line is its only token. */
  lemma TokenizeWhole(s: string)
    requires |s| > 0 && RunLength(s) == |s|
    ensures Tokenize(s) == [s]
  {
    assert s[..|s|] == s;
    assert NextToken(s) == Some((s, []));
  }

  /** A delimiter splits a line into two independently tokenized halves:
      `a` and what follows the delimiter that starts `t`. */
  lemma {:induction false} TokenizeSplit(a: string, t: string)
    requires |t| > 0 && IsDelimiter(t[0])
    ensures Tokenize(a + t) == Tokenize(a) + Tokenize(t[1..])
    decreases |a|, 1
  {
    if |a| == 0 {
      assert a + t == t;
      TokenizeSkip(t);
    } else if IsDelimiter(a[0]) {
      SplitAfterDelimiter(a, t);
    } else {
      RunLengthAppend(a, t);
      if RunLength(a) < |a| {
        SplitAfterRun(a, t);
      } else {
        SplitAtRunEnd(a, t);
      }
    }
  }

  lemma {:induction false} SplitAfterDelimiter(a: string, t: string)
    requires |t| > 0 && IsDelimiter(t[0]) && |a| > 0 && IsDelimiter(a[0])
    ensures Tokenize(a + t) == Tokenize(a) + Tokenize(t[1..])
    decreases |a|, 0
  {
    TokenizeSkip(a + t);
    TokenizeSkip(a);
    assert (a + t)[1..] == a[1..] + t;
    TokenizeSplit(a[1..], t);
  }

  lemma {:induction false} SplitAfterRun(a: string, t: string)
    requires |t| > 0 && IsDelimiter(t[0]) && |a| > 0 && !IsDelimiter(a[0])
    requires RunLength(a) < |a| && RunLength(a + t) == RunLength(a)
    ensures Tokenize(a + t) == Tokenize(a) + Tokenize(t[1..])
    decreases |a|, 0
  {
    var n := RunLength(a);
    var r := a[n + 1..];
    assert Tokenize(a + t) == [a[..n]] + Tokenize(r + t) by {
      SplitInsideRun(a, t);
    }
    assert Tokenize(a) == [a[..n]] + Tokenize(r) by {
      TokenizeTake(a);
    }
    assert Tokenize(r + t) == Tokenize(r) + Tokenize(t[1..]) by {
      TokenizeSplit(r, t);
    }
    ConsAppend(Tokenize(a + t), Tokenize(a), a[..n], Tokenize(r + t), Tokenize(r), Tokenize(t[1..]));
  }

  lemma ConsAppend<T>(whole: seq<T>, front: seq<T>, x: T, wholeRest: seq<T>, frontRest: seq<T>, back: seq<T>)
    requires whole == [x] + wholeRest && front == [x] + frontRest
    requires wholeRest == frontRest + back
    ensures whole == front + back
  {
  }

  /** The first step of TokenizeSplit when the leading run ends inside `a`. */
  lemma SplitInsideRun(a: string, t: string)
    requires |a| > 0 && !IsDelimiter(a[0])
    requires RunLength(a) < |a| && RunLength(a + t) == RunLength(a)
    ensures Tokenize(a + t) == [a[..RunLength(a)]] + Tokenize(a[RunLength(a) + 1..] + t)
  {
    var n := RunLength(a);
    SlicesOfAppend(a, t, n);
    TokenizeTakeAt(a + t, n, a[..n], a[n + 1..] + t);
  }

  /** TokenizeTake with the run length, token and remainder named by the
      caller. */
  lemma TokenizeTakeAt(s: string, n: nat, token: string, rest: string)
    requires |s| > 0 && !IsDelimiter(s[0]) && RunLength(s) == n && n < |s|
    requires s[..n] == token && s[n + 1..] == rest
    ensures Tokenize(s) == [token] + Tokenize(rest)
  {
    assert NextToken(s) == Some((token, rest));
  }

  /** TokenizeSplit when `a` is a single run. */
  lemma SplitAtRunEnd(a: string, t: string)
    requires |t| > 0 && |a| > 0 && !IsDelimiter(a[0])
    requires RunLength(a) == |a| && RunLength(a + t) == |a|
    ensures Tokenize(a + t) == Tokenize(a) + Tokenize(t[1..])
  {
    TokenizeTake(a + t);
    TokenizeWhole(a);
    assert (a + t)[..|a|] == a;
    assert (a + t)[|a| + 1..] == t[1..];
  }

  lemma SlicesOfAppend(a: string, t: string, n: nat)
    requires n < |a|
    ensures (a + t)[..n] == a[..n]
    ensures (a + t)[n + 1..] == a[n + 1..] + t
  {
  }

  /** A single run of non-delimiters is one token. */
  lemma TokenizeRun(w: string)
    requires |w| > 0 && NoDelimiter(w)
    ensures Tokenize(w) == [w]
  {
    RunOfNoDelimiter(w);
    TokenizeWhole(w);
  }

  lemma {:induction false} RunOfNoDelimiter(w: string)
    requires NoDelimiter(w)
    ensures RunLength(w) == |w|
    decreases |w|
  {
    if |w| > 0 {
      RunOfNoDelimiter(w[1..]);
    }
  }

  /** The words joined by single spaces. */
  function Join(words: seq<string>): string
  {
    if |words| == 0 then ""
    else if |words| == 1 then words[0]
    else words[0] + " " + Join(words[1..])
  }

  /** Tokenizing words joined by spaces gives the words back. */
  lemma {:induction false} TokenizeJoin(words: seq<string>)
    requires forall k :: 0 <= k < |words| ==> |words[k]| > 0 && NoDelimiter(words[k])
    ensures Tokenize(Join(words)) == words
    decreases |words|
  {
    if |words| == 1 {
      TokenizeRun(words[0]);
    } else if |words| > 1 {
      TokenizeRun(words[0]);
      var t := " " + Join(words[1..]);
      TokenizeSplit(words[0], t);
      assert t[1..] == Join(words[1..]);
      TokenizeJoin(words[1..]);
      assert words[0] + " " + Join(words[1..]) == words[0] + t;
    }
  }

  /** The tokens of a line: the token wcstok_s returns, then the rest's. */
  lemma TokenizeStep(s: string, token: string, rest: string)
    requires NextToken(s) == Some((token, rest))
    ensures Tokenize(s) == [token] + Tokenize(rest)
  {
  }

  lemma PrefixOfAppend<T>(a: seq<T>, b: seq<T>, whole: seq<T>)
    requires a + b == whole
    ensures whole[..|a|] == a
  {
    assert (a + b)[..|a|] == a;
  }

  /** fgetws stores the line as a NUL-terminated wide string, and wcstok_s
      never reads past that NUL: what the client sees of a line is the
      prefix before its first NUL character. */
  function CString(line: string): (c: string)
    ensures c <= line && '\0' !in c
    ensures |c| < |line| ==> line[|c|] == '\0'
  {
    if |line| == 0 || line[0] == '\0' then [] else [line[0]] + CString(line[1..])
  }

  /** A line without NUL is seen whole, and whatever follows a NUL is
      never read. */
  lemma {:induction false} CStringStops(s: string, rest: string)
    requires '\0' !in s
    ensures CString(s) == s
    ensures CString(s + ['\0'] + rest) == s
  {
    if |s| > 0 {
      assert (s + ['\0'] + rest)[1..] == s[1..] + ['\0'] + rest;
      CStringStops(s[1..], rest);
    }
  }

  /** ParseCmd on a line already read. It copies the tokens one by one and
      fails on meeting a sixth; the first five are then already copied.
      ArgumentsNr (`priorArgsNr` coming in) is written only on success. */
  method ParseCmd(line: string, priorArgsNr: nat) returns (ok: bool, arguments: seq<string>, argumentsNr: nat)
    ensures ok <==> |Tokenize(CString(line))| <= CMD_MAX_ARGS
    ensures ok ==> arguments == Tokenize(CString(line)) && argumentsNr == |arguments|
    ensures !ok ==> arguments == Tokenize(CString(line))[..CMD_MAX_ARGS] && argumentsNr == priorArgsNr
  {
    arguments := [];
    var remaining := CString(line);
    var next := NextToken(remaining);
    while next.Some?
      invariant |arguments| <= CMD_MAX_ARGS
      invariant next == NextToken(remaining)
      invariant arguments + Tokenize(remaining) == Tokenize(CString(line))
      decreases |remaining|
    {
      TokenizeStep(remaining, next.value.0, next.value.1);
      if |arguments| >= CMD_MAX_ARGS {
        PrefixOfAppend(arguments, Tokenize(remaining), Tokenize(CString(line)));
        return false, arguments, priorArgsNr;
      }
      AppendAssociates(arguments, [next.value.0], Tokenize(next.value.1));
      arguments := arguments + [next.value.0];
      remaining := next.value.1;
      next := NextToken(remaining);
    }
    assert Tokenize(remaining) == [];
    return true, arguments, |arguments|;
  }

  /** What ProcessInput does with a parsed line. */
  datatype Command = Quit | ShowHelp | SendDump(pidText: string) | WrongArgCount(found: nat) | Unrecognised(name: string)

  /** The wcscmp chain of ProcessInput. The argument array is zeroed before
      each line, so the first argument of a blank line is the empty string,
      which matches no command. */
  function Classify(arguments: seq<string>): (c: Command)
    ensures c.Quit? <==> |arguments| > 0 && arguments[0] == CMD_OPT_EXIT
    ensures c.ShowHelp? <==> |arguments| > 0 && arguments[0] == CMD_OPT_HELP
    ensures c.SendDump? <==> |arguments| == 2 && arguments[0] == CMD_OPT_DUMP
    ensures c.SendDump? ==> c.pidText == arguments[1]
    ensures c.WrongArgCount? <==> |arguments| != 2 && |arguments| > 0 && arguments[0] == CMD_OPT_DUMP
    ensures c.Unrecognised? <==>
              |arguments| == 0 || (arguments[0] != CMD_OPT_EXIT && arguments[0] != CMD_OPT_HELP && arguments[0] != CMD_OPT_DUMP)
  {
    var first := if |arguments| == 0 then "" else arguments[0];
    if first == CMD_OPT_EXIT then Quit
    else if first == CMD_OPT_HELP then ShowHelp
    else if first == CMD_OPT_DUMP then
      (if |arguments| == 2 then SendDump(arguments[1]) else WrongArgCount(|arguments| - 1))
    else Unrecognised(first)
  }

  /** What the client sends to the driver: SendExitToDrv or SendDumpToDrv. */
  datatype Request = ExitRequest | DumpRequest(pidText: string)

  /** The command a line leads to; None when ParseCmd rejects it. */
  function LineCommand(line: string): Option<Command>
  {
    var tokens := Tokenize(CString(line));
    if |tokens| <= CMD_MAX_ARGS then Some(Classify(tokens)) else None
  }

  predicate Quits(line: string)
  {
    LineCommand(line) == Some(Quit)
  }

  /** SendDumpToDrv copies the argument into inBuf with swprintf_s, which
      needs room for the text and its NUL. */
  predicate FitsBuffer(text: string)
  {
    |text| < IOC_BUFFER_MAX_SIZE
  }

  /** A dump whose argument does not fit inBuf: swprintf_s calls the CRT
      invalid-parameter handler, whose default terminates the client before
      DeviceIoControl is reached. */
  predicate Aborts(line: string)
  {
    match LineCommand(line)
    case Some(SendDump(text)) => !FitsBuffer(text)
    case _ => false
  }

  /** The lines after which ProcessInput runs no further pass. */
  predicate Ends(line: string)
  {
    Quits(line) || Aborts(line)
  }

  /** The requests one line makes the client send. */
  function LineRequests(line: string): seq<Request>
  {
    match LineCommand(line)
    case Some(Quit) => [ExitRequest]
    case Some(SendDump(text)) => if FitsBuffer(text) then [DumpRequest(text)] else []
    case _ => []
  }

  function Requests(lines: seq<string>): seq<Request>
  {
    if |lines| == 0 then [] else Requests(lines[..|lines| - 1]) + LineRequests(lines[|lines| - 1])
  }

  /** ProcessInput over the lines the user types. The loop ends right after
      the first line whose first token is "exit" (having sent the exit
      request), right after a dump whose argument overflows SendDumpToDrv's
      buffer (`aborted`: the client is terminated), or when the input runs
      out; no other line ends it. */
  method ProcessInput(lines: seq<string>) returns (requests: seq<Request>, consumed: nat, aborted: bool)
    ensures consumed <= |lines|
    ensures forall k :: 0 <= k < consumed - 1 ==> !Ends(lines[k])
    ensures consumed < |lines| ==> consumed > 0 && Ends(lines[consumed - 1])
    ensures (exists k :: 0 <= k < |lines| && Ends(lines[k])) ==> consumed > 0 && Ends(lines[consumed - 1])
    ensures aborted <==> consumed > 0 && Aborts(lines[consumed - 1])
    ensures requests == Requests(lines[..consumed])
  {
    requests := [];
    consumed := 0;
    aborted := false;
    var exit := false;
    var argumentsNr := 0;
    while !exit && !aborted && consumed < |lines|
      invariant consumed <= |lines|
      invariant forall k :: 0 <= k < consumed - 1 ==> !Ends(lines[k])
      invariant exit || aborted ==> consumed > 0
      invariant consumed > 0 ==> (exit <==> Quits(lines[consumed - 1]))
      invariant consumed > 0 ==> (aborted <==> Aborts(lines[consumed - 1]))
      invariant consumed == 0 ==> !aborted
      invariant !exit && !aborted ==> forall k :: 0 <= k < consumed ==> !Ends(lines[k])
      invariant requests == Requests(lines[..consumed])
      decreases |lines| - consumed, if exit || aborted then 0 else 1
    {
      var sent;
      sent, exit, aborted, argumentsNr := HandleLine(lines[consumed], argumentsNr);
      RequestsStep(lines, consumed);
      requests := requests + sent;
      consumed := consumed + 1;
    }
  }

  /** One pass of ProcessInput's loop: parse the line, then act on the
      first argument. `argumentsNr` is the count that survives from earlier
      passes when ParseCmd fails. */
  method HandleLine(line: string, argumentsNr: nat) returns (sent: seq<Request>, exit: bool, aborted: bool, argumentsNr': nat)
    ensures sent == LineRequests(line)
    ensures exit <==> Quits(line)
    ensures aborted <==> Aborts(line)
    ensures !(exit && aborted)
  {
    var ok, arguments;
    ok, arguments, argumentsNr' := ParseCmd(line, argumentsNr);
    sent, exit, aborted := [], false, false;
    if !ok {
      return;
    }
    match Classify(arguments)
    case Quit =>
      exit := true;
      sent := [ExitRequest];
    case SendDump(text) =>
      if FitsBuffer(text) {
        sent := [DumpRequest(text)];
      } else {
        aborted := true;
      }
    case _ =>
  }

  lemma RequestsStep(lines: seq<string>, k: nat)
    requires k < |lines|
    ensures Requests(lines[..k + 1]) == Requests(lines[..k]) + LineRequests(lines[k])
  {
    assert lines[..k + 1][..k] == lines[..k];
  }

  /** Typing "dump" and the decimal id of a process sends that text, and the
      driver's wcstoul reads the id back from the NUL-terminated buffer. */
  lemma DumpLineReachesDriver(pid: nat)
    requires pid <= PidParse.ULONG_MAX
    ensures LineCommand("dump " + PidParse.Decimal(pid) + "\n") == Some(SendDump(PidParse.Decimal(pid)))
    ensures LineRequests("dump " + PidParse.Decimal(pid) + "\n") == [DumpRequest(PidParse.Decimal(pid))]
    ensures PidParse.Wcstoul(PidParse.Decimal(pid) + ['\0']) == pid
  {
    var digits := PidParse.Decimal(pid);
    assert NoDelimiter(digits) && '\0' !in digits by {
      forall i | 0 <= i < |digits| ensures !IsDelimiter(digits[i]) && digits[i] != '\0' {
        assert PidParse.IsDigit(digits[i]);
      }
    }
    var line := "dump " + digits + "\n";
    assert CString(line) == line && Tokenize(line) == [CMD_OPT_DUMP, digits] by {
      DumpLineWhole(digits);
      DumpLineTokens(digits);
    }
    assert FitsBuffer(digits) by {
      PidParse.DecimalOfUlong(pid);
    }
    PidParse.WcstoulOfDecimal(pid, ['\0']);
  }

  /** A NUL ends the line for the client: the command, the requests and
      whether the loop stops are those of the text before it. */
  lemma NulCutsLine(s: string, rest: string)
    requires '\0' !in s
    ensures LineCommand(s + ['\0'] + rest) == LineCommand(s)
    ensures LineRequests(s + ['\0'] + rest) == LineRequests(s)
    ensures Ends(s + ['\0'] + rest) <==> Ends(s)
  {
    CStringStops(s, rest);
  }

  /** "exit", a NUL and more text: the client quits, never reading "x". */
  lemma ExitBeforeNul()
    ensures Quits("exit" + ['\0'] + "x\n")
  {
    assert LineCommand("exit" + ['\0'] + "x\n") == LineCommand(CMD_OPT_EXIT) by {
      NulCutsLine(CMD_OPT_EXIT, "x\n");
    }
    ExitCommand();
  }

  lemma ExitCommand()
    ensures LineCommand(CMD_OPT_EXIT) == Some(Quit)
  {
    assert CString(CMD_OPT_EXIT) == CMD_OPT_EXIT by {
      CStringStops(CMD_OPT_EXIT, []);
    }
    assert Tokenize(CMD_OPT_EXIT) == [CMD_OPT_EXIT] by {
      TokenizeRun(CMD_OPT_EXIT);
    }
  }

  /** A dump argument too long for SendDumpToDrv's buffer ends the client
      without a request, and the user is never asked for another line. */
  lemma LongDumpAborts(w: string)
    requires |w| >= IOC_BUFFER_MAX_SIZE && NoDelimiter(w) && '\0' !in w
    ensures Aborts("dump " + w + "\n") && Ends("dump " + w + "\n")
    ensures LineRequests("dump " + w + "\n") == []
  {
    DumpLineWhole(w);
    DumpLineTokens(w);
  }

  /** "dump", a space, a word and a newline are two tokens. */
  lemma DumpLineTokens(w: string)
    requires |w| > 0 && NoDelimiter(w)
    ensures Tokenize("dump " + w + "\n") == [CMD_OPT_DUMP, w]
  {
    DumpThenRest(w);
    WordThenNewline(w);
  }

  /** "dump" and a space, then the rest of the line's tokens. */
  lemma DumpThenRest(w: string)
    ensures Tokenize("dump " + w + "\n") == [CMD_OPT_DUMP] + Tokenize(w + "\n")
  {
    DumpIsWord();
    WordThenSpace(CMD_OPT_DUMP, w + "\n");
    DumpLineShape(w);
  }

  lemma DumpIsWord()
    ensures |CMD_OPT_DUMP| > 0 && NoDelimiter(CMD_OPT_DUMP)
  {
  }

  lemma DumpLineShape(w: string)
    ensures "dump" + (" " + (w + "\n")) == "dump " + w + "\n"
  {
  }

  lemma DumpLineWhole(w: string)
    requires '\0' !in w
    ensures CString("dump " + w + "\n") == "dump " + w + "\n"
  {
    assert '\0' !in "dump " && '\0' !in "\n";
    CStringStops("dump " + w + "\n", []);
  }

  /** A word followed by a newline is that one token. */
  lemma WordThenNewline(w: string)
    requires |w| > 0 && NoDelimiter(w)
    ensures Tokenize(w + "\n") == [w]
  {
    TokenizeSplit(w, "\n");
    assert "\n"[1..] == [];
    TokenizeRun(w);
    assert Tokenize([]) == [];
  }

  /** A word, a space and more text: the word, then the text's tokens. */
  lemma WordThenSpace(w: string, rest: string)
    requires |w| > 0 && NoDelimiter(w)
    ensures Tokenize(w + (" " + rest)) == [w] + Tokenize(rest)
  {
    TokenizeSplit(w, " " + rest);
    assert (" " + rest)[1..] == rest;
    TokenizeRun(w);
  }

  /** InitComm's first check: more threads than WDM_MAX_THREAD_NO are
      refused before any handle is created. */
  datatype CommStart = TooManyThreads | StartThreads(count: nat)

  function InitCommGuard(numberOfThreads: nat): (r: CommStart)
    ensures r.TooManyThreads? <==> numberOfThreads > WDM_MAX_THREAD_NO
    ensures r.StartThreads? ==> r.count == numberOfThreads
  {
    if WDM_MAX_THREAD_NO < numberOfThreads then TooManyThreads else StartThreads(numberOfThreads)
  }

}
