# ScriptOn message handler, modelled in Dafny

ScriptOn is a Telegram bot that runs what it is sent on its host. Each
text message is handled on its own:

- a text whose lower-case form equals the configured exit phrase gets the
  reply `Exiting.` and nothing runs;
- a text starting with `/exec` has its first six characters cut off, and the
  rest runs as a cell in an IPython session; the reply is the cell's value,
  then any error raised before execution, then any error raised during it,
  each on its own line, cut to 1000 characters plus a `... truncated` marker;
- any other text runs as a shell command; the reply is
  `Command execution result: ` and the stripped standard output (`done` when
  that is empty), or `Error: ` and the description of the failed run.

The project has two modules:

- `PyStr` (`py_str.dfy`): the Python `str` operations the handler uses:
  `lower()`, `strip()` with Python's exact `isspace()` character set,
  `startswith()`, and the slice `s[n:]`.
- `Scripton` (`scripton.dfy`): the routing (`RouteMessage`), the result record
  of a shell run (`WrapStdout`, `ExecuteCommand`), the shell reply
  (`CmdReply`), the interpreter's output (`ExecPython` and the function
  `CellReply` it is proved against), truncation (`Truncate`) and the whole
  exchange for one message (`HandleMessage`).

The shell and the interpreter are parameters of `HandleMessage`: `shell`
maps a command to the run's outcome (`Completed(stdout)` for exit status 0,
`Failed(description)` for a `CalledProcessError`), and `interp` maps a cell
to the parts of the IPython execution result that the bot reads. The
result records which executor was called and with what argument, and the
list of replies sent.

Some consequences of the code as written:

- `strip()` removes whitespace on both sides of the standard output.
- The interpreter gets `text[6:]`: `/exec` and the one character after it
  are cut, whatever that character is, so `/exec2+2` runs `+2`.
- The exit check lower-cases only the message, so a configured phrase
  containing an ASCII capital letter never matches.
- A failed command is reported with `str(e)` of the `CalledProcessError`,
  which names the command and its exit status, or the signal that killed it.
- The exit reply is only a reply: the handler returns, and the bot goes on
  handling later messages as usual.

## Model

| member | source | states |
|---|---|---|
| `Scripton.RouteMessage` | scripton_v_0.py:42-49 | exit exactly when the lower-cased text equals the phrase; otherwise code exactly when the text starts with `/exec`, and then the cell is the text without its first six characters; a shell route carries the text unchanged |
| `Scripton.HandleMessage` | scripton_v_0.py:40-51 | exactly one reply per message; at most one executor call, and none exactly on the exit route, whose reply is `Exiting.`; a code call gets the text after its sixth character and the reply is that cell's output; a shell call gets the unchanged text and the reply is built from that run's result |
| `Scripton.ReplyDependsOnlyOnCalledExecutor` | scripton_v_0.py:42-51 | two executors that agree on the argument actually passed give the same exchange; on the exit route neither executor matters at all |
| `Scripton.ExitIgnoresCase` | scripton_v_0.py:42-44 | a phrase without ASCII capitals gets the exit reply whichever of its ASCII letters the user capitalises |
| `Scripton.CapitalizedExitNeverMatches` | scripton_v_0.py:42 | a phrase containing an ASCII capital is never matched, since only the message is lower-cased |
| `Scripton.ExecPayload` | scripton_v_0.py:46-47 | `/exec`, any one character, then `code` runs exactly `code` |
| `Scripton.BareExec` | scripton_v_0.py:46-47 | a bare `/exec` runs the empty cell |
| `Scripton.WrapStdout` | scripton_v_0.py:21 | a success output is never empty and has no surrounding whitespace; it is the stripped output when anything but whitespace was printed, and `done` otherwise |
| `Scripton.ExecuteCommand` | scripton_v_0.py:18-23 | a run succeeds exactly when it completed with status 0; a success output is the stripped standard output when anything but whitespace was printed and `done` otherwise, so it is never empty; a failure carries the exception's description |
| `Scripton.WrapStdoutDropsSurroundingSpace` | scripton_v_0.py:21 | output framed by whitespace is reported as the text between |
| `Scripton.WrapStdoutStable` | scripton_v_0.py:21 | wrapping a success output again reproduces it |
| `Scripton.CmdReply` | scripton_v_0.py:50 | a success reply is `Command execution result: ` followed by the output; a failure reply is `Error: ` followed by the error |
| `Scripton.CmdReplyRoundTrip` | scripton_v_0.py:50 | each reply is `Command execution result: ` plus the output or `Error: ` plus the error, and the record can be read back from it |
| `Scripton.CmdReplyInjective` | scripton_v_0.py:50 | different result records never give the same reply |
| `Scripton.ResultText` | scripton_v_0.py:31 | the string form of the result: `None` when there is no value, the value's own string form otherwise |
| `Scripton.CellLines` | scripton_v_0.py:31-35 | the composed output has one to three parts and begins with the result's string form |
| `Scripton.JoinLinesAppend` | scripton_v_0.py:33-35 | appending a newline and an error text is adding one more part |
| `Scripton.JoinLinesStartsWithFirst` | scripton_v_0.py:31-35 | the composed output starts with the result's string form |
| `Scripton.JoinLinesEmpty` | scripton_v_0.py:31-35 | parts join to the empty text only when there is at most one, empty, part |
| `Scripton.ExecPython` | scripton_v_0.py:31-37 | building the output step by step gives the result text, then the error before execution, then the error during execution, each present one on a new line, truncated |
| `Scripton.Truncate` | scripton_v_0.py:36-37 | at most 1015 characters; a text of at most 1000 characters is unchanged; a longer one keeps its first 1000 characters followed by the marker |
| `Scripton.TruncateIdempotent` | scripton_v_0.py:36-37 | truncating twice is truncating once |
| `Scripton.TruncateFixpoint` | scripton_v_0.py:36-37 | truncation leaves a text alone exactly when it is at most 1000 characters long or is 1015 long and ends in the marker at the cut |
| `Scripton.CellReply` | scripton_v_0.py:31-37 | the cell reply is at most 1015 characters; it is the composed output when that fits in 1000 characters, and otherwise its first 1000 characters followed by the marker |
| `Scripton.CellReplyShape` | scripton_v_0.py:31-37 | the cell reply is at most 1015 characters and opens with the result text, cut at 1000 characters |
| `Scripton.CellReplyEmpty` | scripton_v_0.py:31-37 | the cell reply is empty exactly when the value's string form is empty and no error was raised |
| `Scripton.ExampleExit` | scripton_v_0.py:42-44 | `QUIT` with the phrase `quit` gets `Exiting.` and calls nothing |
| `Scripton.ExampleListing` | scripton_v_0.py:48-51 | a listing printed with a trailing newline is reported without it |
| `Scripton.ExampleFailure` | scripton_v_0.py:48-51 | a command exiting with status 2 is reported as `Error: ` and the exception's description |
| `Scripton.ExampleCell` | scripton_v_0.py:46-47 | `/exec 2+2` runs `2+2` and replies with its value |
| `PyStr.Lower` | scripton_v_0.py:42 | the lower-case form has the same length as the text |
| `PyStr.LowerChar` | scripton_v_0.py:42 | the lower-case form of a character is never an ASCII capital; capitals move by 32 code points, everything else is kept |
| `PyStr.LowerAt` | scripton_v_0.py:42 | `lower()` keeps the length and maps each character on its own |
| `PyStr.LowerHasNoUpper` | scripton_v_0.py:42 | a lower-cased text holds no ASCII capital |
| `PyStr.LowerIdempotent` | scripton_v_0.py:42 | lower-casing twice is lower-casing once |
| `PyStr.LowerFixpoint` | scripton_v_0.py:42 | a text is its own lower-case form exactly when it holds no ASCII capital |
| `PyStr.IsSpace` | scripton_v_0.py:21 | the whitespace `strip()` removes is exactly the 29 characters for which Python's `isspace()` holds |
| `PyStr.LeadingSpaces` | scripton_v_0.py:21 | the length of the longest all-whitespace prefix |
| `PyStr.TrailingSpaces` | scripton_v_0.py:21 | the length of the longest all-whitespace suffix |
| `PyStr.Strip` | scripton_v_0.py:21 | the stripped text has no whitespace at either end and is no longer than the input |
| `PyStr.StripIsInfix` | scripton_v_0.py:21 | the stripped text is the part of the input right after its leading whitespace |
| `PyStr.StripRemovesSpace` | scripton_v_0.py:21 | what is removed on either side is whitespace |
| `PyStr.StripUnique` | scripton_v_0.py:21 | whitespace, a trimmed middle and whitespace strip to that middle |
| `PyStr.StripIdempotent` | scripton_v_0.py:21 | stripping twice is stripping once |
| `PyStr.StripEmpty` | scripton_v_0.py:21 | the stripped text is empty exactly when the input is all whitespace |
| `PyStr.StartsWith` | scripton_v_0.py:46 | a text starts with a prefix exactly when it is at least as long and agrees with it character by character |
| `PyStr.DropFirst` | scripton_v_0.py:47 | `s[n:]` has `len(s) - n` characters, none past the end, and is what follows the first `n` |

## Left out

- `PyStr.Lower`: maps only the ASCII capitals; Python's `str.lower()` applies the full Unicode case mapping, under which some characters change and a few become two characters, so the length is not always kept.
- `PyStr.LowerChar`: maps only `A` to `Z`; Python also lower-cases other capitals such as `Ä`.
- `PyStr.LowerAt`: the one-character-to-one-character mapping holds for the ASCII-only model, not for Python's `lower()` (`'İ'.lower()` has two characters).
- `PyStr.LowerFixpoint`: "no ASCII capital" characterises the texts that `lower()` leaves unchanged only in the ASCII-only model; in Python `Ä` is not its own lower-case form.
- `Scripton.RouteMessage`: the exit test uses the ASCII-only `Lower`, so routing differs from Python on texts with other cased letters: phrase `Äb` with text `Äb` is routed to the exit reply here, while Python runs it as a shell command; phrase `äb` with text `Äb` is a shell command here, while Python replies `Exiting.`.
- Falsy errors: an error object whose class makes it falsy (by overriding `__bool__` or `__len__`) is skipped at lines 32-35; the model has no such object, and such an error is given in `CellRun` as `None`.
- Lengths are counted in Unicode scalar values; Python counts code points, which may include lone surrogates that a Dafny `char` cannot hold.
- The Telegram transport: the bot setup, `start` (lines 53-54), the handler registration (lines 56-63) and every `reply_text` call. Replies are return values. The line 61 filter, which keeps texts that look like commands away from the handler, is not modelled; the handler is modelled as a function of any text.
- Telegram's own limits on a reply (it refuses an empty text, which `CellReplyEmpty` shows can arise, and very long ones) are not modelled.
- Running the command (line 20): the shell run is the parameter `shell`, so process spawning, standard error capture and the exact text of a `CalledProcessError` are not modelled; exceptions other than `CalledProcessError` are not modelled, nor is the absence of a timeout.
- The IPython session (lines 26-30): finding or creating the shell and `run_cell` are the parameter `interp`; the string form of the result value and of the two exceptions are inputs.
- `Scripton.HandleMessage`: assumes the session lookup at line 26 succeeds. `get_ipython` is never imported in scripton_v_0.py (lines 1-7), so in a process not started under IPython every code route raises `NameError` at line 26 and sends no reply; the one-reply guarantee on the code route holds only when the bot runs inside IPython.
- Loading the `.env` file and `config.json` (lines 9-16): the exit phrase is a parameter.
- This file has no conversation history, language-model call or tool dispatch, so none is modelled.
