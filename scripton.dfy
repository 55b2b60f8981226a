/** The message handler of the ScriptOn Telegram bot: how one inbound text is
    routed to the exit reply, the code interpreter or the host shell, and how
    each executor's outcome becomes the single reply sent back.

    The executors themselves are parameters: the shell is a function from a
    command to what the run ended with, the interpreter a function from a
    cell to the parts of its execution result that the bot reads. */
module Scripton {
  import opened PyStr

  datatype Option<T> = None | Some(value: T)

  // ---------------------------------------------------------------------------
  // execute_command: wrapping a shell run into a result record
  // ---------------------------------------------------------------------------

  /** How `subprocess.run(command, shell=True, check=True, ...)` ended: with
      exit status 0 and its captured standard output, or with the raised
      `CalledProcessError`, represented by its string form. */
  datatype RunOutcome = Completed(stdout: string) | Failed(description: string)

  /** The `{"success": ..., "output" | "error": ...}` record. */
  datatype CmdResult = Ok(output: string) | Err(error: string)

  /** Stands in for a successful command that printed nothing. */
  const NoOutput := "done"

  /** The success record for a run that exited with status 0: its standard
      output without surrounding whitespace, or `NoOutput` when nothing but
      whitespace was printed. */
  function WrapStdout(stdout: string): (r: CmdResult)
    ensures r.Ok? && r.output != [] && Trimmed(r.output)
    ensures !AllSpace(stdout) ==> r.output == Strip(stdout)
    ensures AllSpace(stdout) ==> r.output == NoOutput
  {
    StripEmpty(stdout);
    assert Trimmed(NoOutput) by { NoOutputIsTrimmed(); }
    var out := Strip(stdout);
    Ok(if out == [] then NoOutput else out)
  }

  lemma NoOutputIsTrimmed()
    ensures NoOutput != [] && Trimmed(NoOutput)
  {
    assert NoOutput[0] == 'd' && NoOutput[|NoOutput| - 1] == 'e';
  }

  /** `execute_command` once the run itself is done. */
  function ExecuteCommand(outcome: RunOutcome): (r: CmdResult)
    ensures r.Ok? <==> outcome.Completed?
    ensures r.Ok? ==> r.output != [] && Trimmed(r.output)
    ensures outcome.Completed? && !AllSpace(outcome.stdout) ==> r.output == Strip(outcome.stdout)
    ensures outcome.Completed? && AllSpace(outcome.stdout) ==> r.output == NoOutput
    ensures r.Err? ==> r.error == outcome.description
  {
    match outcome
    case Completed(stdout) => WrapStdout(stdout)
    case Failed(description) => Err(description)
  }

  /** Output framed by whitespace (a trailing newline, typically) is reported
      without it, and exactly as printed otherwise. */
  lemma WrapStdoutDropsSurroundingSpace(a: string, m: string, b: string)
    requires AllSpace(a) && AllSpace(b) && Trimmed(m) && m != []
    ensures WrapStdout(a + m + b) == Ok(m)
  {
    StripUnique(a, m, b);
  }

  /** A success output is a fixed point of the wrapping: printing it again and
      wrapping that reproduces it. */
  lemma WrapStdoutStable(stdout: string)
    ensures WrapStdout(WrapStdout(stdout).output) == WrapStdout(stdout)
  {
    var out := WrapStdout(stdout).output;
    assert out == [] + out + [];
    StripUnique([], out, []);
  }

  // ---------------------------------------------------------------------------
  // handle_command: the reply for a shell command
  // ---------------------------------------------------------------------------

  const ResultPrefix := "Command execution result: "
  const ErrorPrefix := "Error: "

  /** The reply text built from a result record: the success prefix and the
      output, or the error prefix and the error. */
  function CmdReply(r: CmdResult): (reply: string)
    ensures r.Ok? ==> StartsWith(reply, ResultPrefix) && reply[|ResultPrefix|..] == r.output
    ensures r.Err? ==> StartsWith(reply, ErrorPrefix) && reply[|ErrorPrefix|..] == r.error
  {
    match r
    case Ok(output) => ResultPrefix + output
    case Err(error) => ErrorPrefix + error
  }

  /** Reads a reply back into the record it was built from, if it is one. */
  function ParseCmdReply(reply: string): Option<CmdResult>
  {
    if StartsWith(reply, ResultPrefix) then Some(Ok(reply[|ResultPrefix|..]))
    else if StartsWith(reply, ErrorPrefix) then Some(Err(reply[|ErrorPrefix|..]))
    else None
  }

  /** Every reply is one of the two forms, and the record can be read back
      from it. */
  lemma CmdReplyRoundTrip(r: CmdResult)
    ensures ParseCmdReply(CmdReply(r)) == Some(r)
  {
    var reply := CmdReply(r);
    match r
    case Ok(output) =>
      assert reply[..|ResultPrefix|] == ResultPrefix;
      assert reply[|ResultPrefix|..] == output;
    case Err(error) =>
      assert reply[0] == 'E';
      assert !StartsWith(reply, ResultPrefix) by {
        if |ResultPrefix| <= |reply| { assert reply[..|ResultPrefix|][0] == 'E'; }
      }
      assert reply[..|ErrorPrefix|] == ErrorPrefix;
      assert reply[|ErrorPrefix|..] == error;
  }

  /** Different results never produce the same reply: a success can never be
      mistaken for a failure, nor one output for another. */
  lemma CmdReplyInjective(r1: CmdResult, r2: CmdResult)
    requires CmdReply(r1) == CmdReply(r2)
    ensures r1 == r2
  {
    CmdReplyRoundTrip(r1);
    CmdReplyRoundTrip(r2);
  }

  // ---------------------------------------------------------------------------
  // exec_python: composing and truncating the interpreter's output
  // ---------------------------------------------------------------------------

  /** The parts of an IPython `ExecutionResult` that the bot reads: the string
      form of `result` when it is not `None`, and the string forms of
      `error_before_exec` and `error_in_exec` when they are set. An exception
      object is truthy unless its class overrides `__bool__` or `__len__`, so
      a set error is appended even when its text is empty; an error whose
      object is falsy is given here as `None`. */
  datatype CellRun = CellRun(result: Option<string>, errorBeforeExec: Option<string>, errorInExec: Option<string>)

  /** `str(result.result)`: Python prints `None` for a missing value. */
  function ResultText(v: Option<string>): (text: string)
    ensures v.None? ==> text == "None"
    ensures v.Some? ==> text == v.value
  {
    match v
    case None => "None"
    case Some(text) => text
  }

  function Present(e: Option<string>): seq<string>
  {
    match e
    case None => []
    case Some(text) => [text]
  }

  /** The parts of the composed output, in order: the result, then the error
      raised before execution, then the error raised during it. Each part is
      put on a new line, and may itself span several lines. */
  function CellLines(run: CellRun): (lines: seq<string>)
    ensures 1 <= |lines| <= 3 && lines[0] == ResultText(run.result)
  {
    [ResultText(run.result)] + Present(run.errorBeforeExec) + Present(run.errorInExec)
  }

  /** `"\n".join(lines)`. */
  function JoinLines(lines: seq<string>): string
  {
    if |lines| == 0 then []
    else if |lines| == 1 then lines[0]
    else lines[0] + "\n" + JoinLines(lines[1..])
  }

  lemma {:induction false} JoinLinesAppend(lines: seq<string>, last: string)
    requires lines != []
    ensures JoinLines(lines + [last]) == JoinLines(lines) + "\n" + last
  {
    if |lines| > 1 {
      assert (lines + [last])[1..] == lines[1..] + [last];
      JoinLinesAppend(lines[1..], last);
    }
  }

  /** The joined text starts with the first line. */
  lemma {:induction false} JoinLinesStartsWithFirst(lines: seq<string>)
    requires lines != []
    ensures StartsWith(JoinLines(lines), lines[0])
  {
    if |lines| > 1 {
      var j := JoinLines(lines);
      assert j == lines[0] + ("\n" + JoinLines(lines[1..]));
      assert j[..|lines[0]|] == lines[0];
    }
  }

  /** Only a single empty line, or no line at all, joins to the empty text. */
  lemma {:induction false} JoinLinesEmpty(lines: seq<string>)
    ensures JoinLines(lines) == [] <==> |lines| == 0 || (|lines| == 1 && lines[0] == [])
  {
    if |lines| > 1 {
      assert |JoinLines(lines)| >= 1;
    }
  }

  const MaxOutput := 1000
  const TruncationMarker := "\n\n... truncated"

  /** Texts longer than `MaxOutput` characters are cut to their first
      `MaxOutput` characters and marked as truncated. */
  function Truncate(s: string): (r: string)
    ensures |r| <= MaxOutput + |TruncationMarker|
    ensures |s| <= MaxOutput ==> r == s
    ensures |s| > MaxOutput ==> |r| == MaxOutput + |TruncationMarker| && r[..MaxOutput] == s[..MaxOutput] && r[MaxOutput..] == TruncationMarker
  {
    if |s| > MaxOutput then s[..MaxOutput] + TruncationMarker else s
  }

  /** Truncating an already truncated text changes nothing more. */
  lemma TruncateIdempotent(s: string)
    ensures Truncate(Truncate(s)) == Truncate(s)
  {
    if |s| > MaxOutput {
      var t := Truncate(s);
      assert t[..MaxOutput] == s[..MaxOutput];
      assert Truncate(t) == t[..MaxOutput] + TruncationMarker;
      assert t == t[..MaxOutput] + t[MaxOutput..];
    }
  }

  /** The texts truncation leaves alone: the short ones, and the ones that
      already end, at the cut-off, in the marker. */
  lemma TruncateFixpoint(s: string)
    ensures Truncate(s) == s <==>
              |s| <= MaxOutput ||
              (|s| == MaxOutput + |TruncationMarker| && s[MaxOutput..] == TruncationMarker)
  {
    if |s| == MaxOutput + |TruncationMarker| && s[MaxOutput..] == TruncationMarker {
      assert s == s[..MaxOutput] + s[MaxOutput..];
    }
  }

  /** The text `exec_python` sends back for one run: the composed parts,
      unchanged when they fit, otherwise cut to size and marked. */
  function CellReply(run: CellRun): (reply: string)
    ensures |reply| <= MaxOutput + |TruncationMarker|
    ensures |JoinLines(CellLines(run))| <= MaxOutput ==> reply == JoinLines(CellLines(run))
    ensures |JoinLines(CellLines(run))| > MaxOutput ==>
              reply == JoinLines(CellLines(run))[..MaxOutput] + TruncationMarker
  {
    Truncate(JoinLines(CellLines(run)))
  }

  /** `exec_python` from the run result on: the output is built up by
      appending each present error on a new line, then cut to size. */
  method ExecPython(run: CellRun) returns (output: string)
    ensures output == CellReply(run)
  {
    ghost var lines := [ResultText(run.result)];
    output := ResultText(run.result);
    if run.errorBeforeExec.Some? {
      JoinLinesAppend(lines, run.errorBeforeExec.value);
      lines := lines + [run.errorBeforeExec.value];
      output := output + "\n" + run.errorBeforeExec.value;
    }
    assert lines == [ResultText(run.result)] + Present(run.errorBeforeExec);
    assert output == JoinLines(lines);
    if run.errorInExec.Some? {
      JoinLinesAppend(lines, run.errorInExec.value);
      lines := lines + [run.errorInExec.value];
      output := output + "\n" + run.errorInExec.value;
    }
    assert lines == CellLines(run);
    if |output| > MaxOutput {
      output := output[..MaxOutput] + TruncationMarker;
    }
  }

  /** What a reader of the reply sees: never more than 1015 characters, and it
      opens with the result's text, cut at 1000 characters. */
  lemma CellReplyShape(run: CellRun)
    ensures |CellReply(run)| <= MaxOutput + |TruncationMarker|
    ensures var text := ResultText(run.result);
            var n := if |text| <= MaxOutput then |text| else MaxOutput;
            StartsWith(CellReply(run), text[..n])
  {
    var lines := CellLines(run);
    var joined := JoinLines(lines);
    JoinLinesStartsWithFirst(lines);
    var text := lines[0];
    var n := if |text| <= MaxOutput then |text| else MaxOutput;
    assert joined[..n] == text[..n];
    if |joined| > MaxOutput {
      assert CellReply(run)[..n] == joined[..MaxOutput][..n];
    }
  }

  /** The reply is empty exactly when the cell evaluated to an empty string
      and raised nothing. */
  lemma CellReplyEmpty(run: CellRun)
    ensures CellReply(run) == [] <==>
              run.result == Some([]) && run.errorBeforeExec.None? && run.errorInExec.None?
  {
    JoinLinesEmpty(CellLines(run));
  }

  // ---------------------------------------------------------------------------
  // handle_command: routing one inbound text
  // ---------------------------------------------------------------------------

  const ExitReply := "Exiting."
  const ExecPrefix := "/exec"
  /** The interpreter receives the text from this index on: one character
      more than the prefix is cut. */
  const ExecCut := 6

  datatype Route = Exit | Code(cell: string) | Shell(command: string)

  /** Which way `handle_command` sends a text, given the configured exit
      phrase. Only the text is lower-cased, not the phrase. */
  function RouteMessage(text: string, exitCommand: string): (r: Route)
    ensures r.Exit? <==> Lower(text) == exitCommand
    ensures r.Code? <==> Lower(text) != exitCommand && StartsWith(text, ExecPrefix)
    ensures r.Code? ==> r.cell == DropFirst(text, ExecCut)
    ensures r.Shell? ==> r.command == text
  {
    if Lower(text) == exitCommand then Exit
    else if StartsWith(text, ExecPrefix) then Code(DropFirst(text, ExecCut))
    else Shell(text)
  }

  /** A phrase without ASCII capitals gets the exit reply whichever of its
      ASCII letters the user capitalises. */
  lemma ExitIgnoresCase(text: string, exitCommand: string)
    requires forall i :: 0 <= i < |exitCommand| ==> !IsAsciiUpper(exitCommand[i])
    requires Lower(text) == Lower(exitCommand)
    ensures RouteMessage(text, exitCommand) == Exit
  {
    LowerFixpoint(exitCommand);
  }

  /** A configured phrase holding an ASCII capital letter never matches: the
      text is lower-cased before the comparison and the phrase is not. */
  lemma CapitalizedExitNeverMatches(text: string, exitCommand: string, i: nat)
    requires i < |exitCommand| && IsAsciiUpper(exitCommand[i])
    ensures !RouteMessage(text, exitCommand).Exit?
  {
    if Lower(text) == exitCommand {
      LowerHasNoUpper(text, i);
    }
  }

  /** `/exec <code>` hands exactly `<code>` to the interpreter. The character
      after `/exec` is always cut, so `/exec2+2` runs `+2`. */
  lemma ExecPayload(sep: char, code: string, exitCommand: string)
    requires Lower(ExecPrefix + [sep] + code) != exitCommand
    ensures RouteMessage(ExecPrefix + [sep] + code, exitCommand) == Code(code)
  {
    var text := ExecPrefix + [sep] + code;
    assert text[..|ExecPrefix|] == ExecPrefix;
    assert text[ExecCut..] == code;
  }

  /** A bare `/exec` runs the empty cell. */
  lemma BareExec(exitCommand: string)
    requires Lower(ExecPrefix) != exitCommand
    ensures RouteMessage(ExecPrefix, exitCommand) == Code([])
  {
  }

  // ---------------------------------------------------------------------------
  // handle_command: the whole exchange for one message
  // ---------------------------------------------------------------------------

  /** An executor invocation, with the argument it received. */
  datatype Call = ShellCall(command: string) | CodeCall(cell: string)

  /** What handling one message did: the replies sent, in order, and the
      executors called, in order. */
  datatype Handled = Handled(replies: seq<string>, calls: seq<Call>)

  /** `handle_command` for one text, with the shell and the interpreter as
      parameters. */
  function HandleMessage(text: string, exitCommand: string,
                         shell: string -> RunOutcome, interp: string -> CellRun): (h: Handled)
    ensures |h.replies| == 1
    ensures |h.calls| <= 1
    ensures h.calls == [] <==> Lower(text) == exitCommand
    ensures h.calls == [] ==> h.replies == [ExitReply]
    ensures |h.calls| == 1 && h.calls[0].CodeCall? ==>
              StartsWith(text, ExecPrefix) &&
              h.calls[0].cell == DropFirst(text, ExecCut) &&
              h.replies == [CellReply(interp(h.calls[0].cell))]
    ensures |h.calls| == 1 && h.calls[0].ShellCall? ==>
              !StartsWith(text, ExecPrefix) &&
              h.calls[0].command == text &&
              h.replies == [CmdReply(ExecuteCommand(shell(text)))]
  {
    match RouteMessage(text, exitCommand)
    case Exit => Handled([ExitReply], [])
    case Code(cell) => Handled([CellReply(interp(cell))], [CodeCall(cell)])
    case Shell(command) => Handled([CmdReply(ExecuteCommand(shell(command)))], [ShellCall(command)])
  }

  /** The reply depends on no executor but the one that was called, and on
      that one only through its outcome for the argument it was given. */
  lemma ReplyDependsOnlyOnCalledExecutor(text: string, exitCommand: string,
                                         shell1: string -> RunOutcome, interp1: string -> CellRun,
                                         shell2: string -> RunOutcome, interp2: string -> CellRun)
    requires var h := HandleMessage(text, exitCommand, shell1, interp1);
             forall c :: c in h.calls ==>
               match c
               case ShellCall(command) => shell1(command) == shell2(command)
               case CodeCall(cell) => interp1(cell) == interp2(cell)
    ensures HandleMessage(text, exitCommand, shell1, interp1) ==
            HandleMessage(text, exitCommand, shell2, interp2)
  {
    var h := HandleMessage(text, exitCommand, shell1, interp1);
    if h.calls != [] {
      assert h.calls[0] in h.calls;
    }
  }

  /** The exit phrase typed in capitals gets the exit reply. */
  lemma ExampleExit(shell: string -> RunOutcome, interp: string -> CellRun)
    ensures HandleMessage("QUIT", "quit", shell, interp) == Handled(["Exiting."], [])
  {
    ExitIgnoresCase("QUIT", "quit");
  }

  /** A listing whose output ends in a newline is reported without it. */
  lemma ExampleListing(shell: string -> RunOutcome, interp: string -> CellRun)
    requires shell("ls") == Completed("a.txt\nb.txt\n")
    ensures HandleMessage("ls", "quit", shell, interp) ==
            Handled([ResultPrefix + "a.txt\nb.txt"], [ShellCall("ls")])
  {
    var out := "a.txt\nb.txt";
    assert out[0] == 'a' && out[|out| - 1] == 't';
    assert AllSpace("\n") by { assert "\n"[0] == '\n'; }
    assert "a.txt\nb.txt\n" == [] + out + "\n";
    WrapStdoutDropsSurroundingSpace([], out, "\n");
    assert ExecuteCommand(shell("ls")) == Ok(out);
    assert RouteMessage("ls", "quit") == Shell("ls");
  }

  /** A command that exits with a non-zero status is reported with the
      exception's description, which names the command and the status. */
  lemma ExampleFailure(shell: string -> RunOutcome, interp: string -> CellRun)
    requires shell("ls -z") == Failed("Command 'ls -z' returned non-zero exit status 2.")
    ensures HandleMessage("ls -z", "quit", shell, interp) ==
            Handled([ErrorPrefix + "Command 'ls -z' returned non-zero exit status 2."], [ShellCall("ls -z")])
  {
    assert "ls -z"[..|ExecPrefix|] != ExecPrefix by { assert "ls -z"[0] != ExecPrefix[0]; }
    assert RouteMessage("ls -z", "quit") == Shell("ls -z");
  }

  /** A cell is run without the command word and its value is sent back. */
  lemma ExampleCell(shell: string -> RunOutcome, interp: string -> CellRun)
    requires interp("2+2") == CellRun(Some("4"), None, None)
    ensures HandleMessage("/exec 2+2", "quit", shell, interp) == Handled(["4"], [CodeCall("2+2")])
  {
    assert ExecPrefix + [' '] + "2+2" == "/exec 2+2";
    ExecPayload(' ', "2+2", "quit");
  }
}
