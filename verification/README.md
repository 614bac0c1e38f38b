# A mini-shell with redirection, verified

The program modelled here is the mini-shell at the end of `BasicIO/BasicIO/test.cpp` (lines 106-211),
together with the small redirecting program before it (lines 82-94). The shell reads a line into one
fixed buffer, parses it in place, forks, redirects one standard descriptor, executes and waits.

Three layers are connected:

1. **Parsing in place.** `LineParser.Parser` is the shell's memory: the 1024-byte buffer `cmd`, the 32
   pointers `myargv`, the code in `type` and the pointer `strtok` keeps. Pointers are offsets into the one
   buffer, and nothing is cleared between commands. The methods are the passes of the program, loop by loop.
   They are proved against `CommandLine.Parse`, a function of the line alone, and against the word
   positions of `WordPositions`. `Printing` shows that `Parse` inverts writing a command down, and
   `Requests` which commands an input makes the shell run, past its end included.
2. **Descriptors and files.** `Posix.Kernel` and `Posix.Process` hold what `open`, `close`, `dup2`, `fork`,
   `read` and `write` of POSIX.1-2017 change: file contents, open file descriptions with shared
   offsets, and a descriptor table per process.
3. **Whole sessions.** `Session.Run` gives the state after any number of commands; `MiniShell.Loop` is the
   imperative loop proved equal to it. `Outcomes.Transition` says what one command must do without any
   system call, flag or table: when its file can be opened, what the program is given, where its output
   goes, the exit code, and every part of the state afterwards; the sessions are proved to be exactly the
   chains of such transitions. `Delivery` derives what sessions leave in files, `Streams` what programs
   read and what reaches the terminal. `MiniShell.RunShell` puts the results together: what the running
   program does with any input, command by command, and what it leaves behind.

| file | content |
|---|---|
| `Bytes.dfy` | bytes and C-strings in a buffer |
| `CommandLine.dfy` | the meaning of a command line |
| `WordPositions.dfy` | word positions and word counts |
| `Printing.dfy` | writing commands and reading them back |
| `InputLines.dfy` | how `fgets` cuts the input |
| `LineParser.dfy` | the three in-place passes |
| `Requests.dfy` | the commands an input asks for |
| `Literals.dfy` | lines written out byte by byte |
| `Posix.dfy` | descriptors, open files, file contents |
| `Session.dfy` | sessions as a transition system |
| `Delivery.dfy` | file contents over whole sessions |
| `Outcomes.dfy` | what each command must do, and sessions as chains of that |
| `Streams.dfy` | standard input and terminal output |
| `MiniShell.dfy` | child, turn, loop and the whole program |
| `PlainRedirect.dfy` | redirection without truncation |
| `Prompt.dfy` | the directory name in the prompt |

## Results that depend on a condition

- `Printing.RoundTrip`: text without a space behind the operator is misread exactly when the kind is `>` and
  the file name begins with `>`, or when there is no file name.
- `Delivery.FileContents`: output is lost exactly when the shell was started with descriptor 0 open and 1
  closed (then `open` returns 1, `close(1)` closes it, `dup2(1, 1)` fails), unless there was nothing to
  write; `Delivery.LostOutput` shows such a session. Where the shell's own standard output is the file
  and was not opened for appending, outputs overwrite each other at the shared offset, and `>` empties
  the file without moving that offset; the contents are then those of `Delivery.ReplayAt`, and
  `Delivery.OverwrittenOutput` shows a session that breaks the law. `Delivery.FileLawForAll` draws the
  line: every session keeps the law for every file exactly when 0 is closed or 1 is open, and standard
  output, if it is a file, was opened for appending.
- `Streams.InputRedirect`: a program behind `<` reads the file exactly when descriptor 0 was open, or the
  file is empty; `Streams.LostInput` and `Streams.InputLawForAll` are the failing case and the tables.
- `LineParser.Parser.Tokenize`: the vector is overrun exactly by 32 words or more, as 63 typed bytes can
  ask for (`Requests.OverrunInput`). The comment at line 107 calls 32 the largest number of pieces, but
  the terminating null needs a slot, so 31 is.
- `Requests.TypedLineSurvives`: a typed line is parsed as typed exactly when it is shorter than 1023 bytes
  and holds no NUL. A longer line loses its last read byte in place of the newline; in one with a NUL,
  line 130 strips the byte before the NUL (`Requests.NulLine`).
- `Requests.EndOfInput`: the end of the input does not end the shell. `fgets` then leaves the buffer as it
  is, and line 130 strips another byte in each turn: k bytes left in the buffer are k more commands. After
  them the buffer shows an empty string, and line 130 writes in front of it. A line beginning with a NUL
  leads there at once. So every run on a non-empty input ends with a write out of bounds, which `Fault` names; from there on the
  program's behaviour is undefined.

## Conventions

- `error("open")` at line 174 is read as `perror`, as in the two sibling branches: it prints and returns.
- `isspace` is that of the C locale: bytes 9 to 13 and 32, and no byte above 127.
- For a command without words line 200 calls `execvp` with a null pointer, for which POSIX fixes nothing.
  The model takes it that the child then ends without doing anything further, and leaves its exit code to
  the surroundings (`Env.nullCode`).
- A program is any function of its arguments, its standard input and the files. It reads descriptor 0 to
  the end and then writes only descriptor 1, in any number of pieces.
- `Env.permitted` stands for all reasons outside the model why `open` may fail; `Env.typed` for what is
  typed to a program that reads the terminal.

## Model

| member | source | states |
|---|---|---|
| `Bytes.StringAt` | BasicIO/BasicIO/test.cpp:130 | what a C function reads at an address is the bytes up to the first NUL, inside the buffer |
| `Bytes.StringIsUnique` | BasicIO/BasicIO/test.cpp:130-162 | a buffer holds one string per address, so reading it back gives what was proved to lie there |
| `CommandLine.OperatorIndex` | BasicIO/BasicIO/test.cpp:133-152 | the place of the first `<` or `>`, or the end |
| `WordPositions.WordStartsAreAll` | BasicIO/BasicIO/test.cpp:162-166 | the token pointers are strictly increasing and are all the places where a space-free run begins, and no others |
| `WordPositions.WordsAreMaximalRuns` | BasicIO/BasicIO/test.cpp:162-166 | the words of a command are its maximal space-free runs, in order |
| `WordPositions.WordsAreDisjoint` | BasicIO/BasicIO/test.cpp:162-166 | tokens, with the byte behind each, do not overlap |
| `WordPositions.WordCountBound` | BasicIO/BasicIO/test.cpp:107-112 | n bytes make at most (n + 1) / 2 words |
| `WordPositions.WordCountBoundIsTight` | BasicIO/BasicIO/test.cpp:107-112 | for every n some line of n typable bytes reaches that bound |
| `LineParser.SafeLengths` | BasicIO/BasicIO/test.cpp:106-112 | all commands of n bytes fit the vector if and only if n is below 63 |
| `Printing.WordsOfJoin` | BasicIO/BasicIO/test.cpp:162-166 | words joined by single spaces are split into the same words |
| `Printing.RedirectRoundTrip` | BasicIO/BasicIO/test.cpp:134-159 | a written redirection is read back unchanged if and only if something follows the operator and `>` does not meet a `>` |
| `Printing.RoundTrip` | BasicIO/BasicIO/test.cpp:129-166 | a written command is parsed back unchanged if and only if its text is unambiguous |
| `Printing.ParseIsWellFormed` | BasicIO/BasicIO/test.cpp:129-166 | every line parses to words without separators or operators and a file name without leading white space |
| `Printing.NormalForm` | BasicIO/BasicIO/test.cpp:129-166 | rewriting any line in normal form keeps its meaning |
| `Printing.ExpressibleCommands` | BasicIO/BasicIO/test.cpp:129-166 | byte strings, of whatever length, parse to exactly the well-formed commands |
| `Printing.ShortestSpelling` | BasicIO/BasicIO/test.cpp:129-166 | no line means a command in fewer bytes than its tightest spelling, which means it too |
| `Printing.ParseAvoids` | BasicIO/BasicIO/test.cpp:129-166 | parsing adds no byte of its own to any part of a command |
| `InputLines.FirstLine` | BasicIO/BasicIO/test.cpp:129 | one read takes a beginning of the input up to a newline, a full buffer or the end |
| `InputLines.LinesAreBounded` | BasicIO/BasicIO/test.cpp:106-129 | each line read is non-empty and fits the buffer with its NUL |
| `InputLines.LinesConserveInput` | BasicIO/BasicIO/test.cpp:115-129 | the lines read, end to end, are the input |
| `InputLines.SessionRoundTrip` | BasicIO/BasicIO/test.cpp:115-130 | typed lines are read back one for one if and only if all are shorter than 1023 bytes |
| `InputLines.LinesCompose` | BasicIO/BasicIO/test.cpp:115-130 | input behind a newline is cut into lines as if nothing had come before |
| `LineParser.Parser.constructor` | BasicIO/BasicIO/test.cpp:110-112 | only `type` starts with a defined value; the buffers are garbage |
| `LineParser.Parser.Fgets` | BasicIO/BasicIO/test.cpp:129 | the line and a NUL are stored, and the bytes behind keep what earlier commands left; at the end of the input all bytes do; what shows is the line up to its first NUL |
| `LineParser.Parser.StripLastByte` | BasicIO/BasicIO/test.cpp:130 | one byte changes, and the buffer then holds the line without its last byte |
| `LineParser.Parser.CutAtOperator` | BasicIO/BasicIO/test.cpp:133-152 | the scan stops at the first operator, overwrites that byte only, sets `type` to its code and ends behind it, never past the NUL |
| `LineParser.Parser.SkipToTarget` | BasicIO/BasicIO/test.cpp:153-159 | null when nothing follows the operator, else the address of the operand without leading white space, never past the NUL |
| `LineParser.Parser.ScanRedirect` | BasicIO/BasicIO/test.cpp:132-159 | after the scan the buffer holds the command, and `start` with `type` is the redirection `ParseRedirect` gives |
| `LineParser.Parser.Strtok` | BasicIO/BasicIO/test.cpp:162-164 | `strtok` as section 7.24.5.8 of ISO C11 has it: the token found, the one byte overwritten, the pointer saved |
| `LineParser.SkippedSpaces` | BasicIO/BasicIO/test.cpp:162-166 | passing over separators overwrites nothing |
| `LineParser.SkippedToken` | BasicIO/BasicIO/test.cpp:162-166 | passing over a token overwrites exactly the space behind it |
| `LineParser.WordFound` | BasicIO/BasicIO/test.cpp:162-166 | the token a call finds is the next word start, and the scan may go on behind it |
| `LineParser.FoundWordsStay` | BasicIO/BasicIO/test.cpp:162-166 | at every stage the tokens found so far are intact C-strings, so no later call damages an earlier one |
| `LineParser.Parser.NextToken` | BasicIO/BasicIO/test.cpp:162-164 | one call yields the next word start, or null when none is left |
| `LineParser.Parser.FillVector` | BasicIO/BasicIO/test.cpp:161-166 | slot j gets word start j and a null follows (slots 0 and 1 are null for no words), later slots are untouched; the overrun happens exactly for 32 word starts or more |
| `LineParser.Parser.Tokenize` | BasicIO/BasicIO/test.cpp:161-166 | the vector holds exactly the words; only spaces directly behind words are overwritten |
| `LineParser.TargetStays` | BasicIO/BasicIO/test.cpp:133-172 | the file name lies behind the cut and is not touched by tokenizing |
| `LineParser.PassesOverwrite` | BasicIO/BasicIO/test.cpp:130-166 | the three passes overwrite the last byte, the operator byte and the spaces directly behind words, and nothing else |
| `LineParser.ResidueLeft` | BasicIO/BasicIO/test.cpp:130-166 | afterwards the buffer shows the command up to the end of its first word |
| `LineParser.PassesParse` | BasicIO/BasicIO/test.cpp:130-166 | strip, cut and split in a row amount to the parse |
| `LineParser.Parser.ParseText` | BasicIO/BasicIO/test.cpp:130-166 | the three passes leave in memory what `Parse` says, and change just those bytes |
| `LineParser.Parser.ReadCommand` | BasicIO/BasicIO/test.cpp:110-166 | for any input and any former contents of buffer, vector and `type`, the command found is the parse of the string that shows: the line, or at the end of the input what was left; out of bounds exactly for an empty string or 32 words |
| `LineParser.ArgvIsUnique` | BasicIO/BasicIO/test.cpp:200 | `execvp` sees exactly the words, never a slot left over from an earlier command |
| `Posix.LowestFree` | BasicIO/BasicIO/test.cpp:172 | `open` takes the lowest descriptor not in use |
| `Posix.RedirectSteps` | BasicIO/BasicIO/test.cpp:172-178 | `open; close(k); dup2(fd, k)` leaves k on the new file if and only if the lowest free descriptor differs from k; else the table is unchanged; with k open, `close` is superfluous |
| `Posix.StandardDescriptors` | BasicIO/BasicIO/test.cpp:177-196 | which tables make the steps fail for descriptors 1 and 0 |
| `Posix.WriteAtBytes` | BasicIO/BasicIO/test.cpp:84-92 | a write replaces exactly the bytes in its range and fills a gap with NULs |
| `Posix.WriteAtSplit` | BasicIO/BasicIO/test.cpp:91-92 | two writes in succession amount to one |
| `Posix.WriteTwice` | BasicIO/BasicIO/test.cpp:91-92 | two writes to a descriptor, whatever it refers to, leave the state that one write of both leaves |
| `Posix.WriteAllOnce` | BasicIO/BasicIO/test.cpp:200 | however a program cuts its output into writes, files, terminal and offsets end up as after one write |
| `Posix.WriteAllAt` | BasicIO/BasicIO/test.cpp:91-92 | however the output is cut, the file ends up as after one write |
| `Posix.WriteAllMoves` | BasicIO/BasicIO/test.cpp:91-92 | the offset moves by the length of the output, and no other open file is affected |
| `Posix.WriteAllAppends` | BasicIO/BasicIO/test.cpp:172-187 | a file opened truncated or with O_APPEND grows by the output, however it is cut into writes, and no other file changes |
| `Posix.WriteAllElsewhere` | BasicIO/BasicIO/test.cpp:200 | writes to one place leave every other file alone |
| `Posix.WriteAllConsole` | BasicIO/BasicIO/test.cpp:200 | writes to the terminal appear there in order |
| `Posix.Kernel.Fork` | BasicIO/BasicIO/test.cpp:167 | the child has a copy of the table, onto the same open files |
| `Posix.Kernel.Open` | BasicIO/BasicIO/test.cpp:172-194 | success uses the lowest free descriptor and a new open file; failure changes nothing |
| `Posix.Kernel.WritePieces` | BasicIO/BasicIO/test.cpp:200 | piecewise output amounts to the writes in order |
| `Session.RunKeepsFiles` | BasicIO/BasicIO/test.cpp:115-208 | throughout a session the open files keep their identity and the shell's table stays valid |
| `Session.LogEntry` | BasicIO/BasicIO/test.cpp:115-208 | entry i of a log is the step of command i in the state its predecessors left |
| `Session.LogsCommands` | BasicIO/BasicIO/test.cpp:115-208 | command i of a session is run as given, whatever ran before or after |
| `Session.LogOnlyGrows` | BasicIO/BasicIO/test.cpp:115-208 | what has been run stays as it was when more commands follow |
| `Delivery.StepContents` | BasicIO/BasicIO/test.cpp:167-208 | what one command does to any file: emptied by an opened `>`, extended by delivered output, else unchanged; if it is the shell's own standard output without O_APPEND, overwritten at the shared offset |
| `Delivery.RunContents` | BasicIO/BasicIO/test.cpp:170-208 | any file's contents at any point of a session are a replay of the log |
| `Delivery.RunCreates` | BasicIO/BasicIO/test.cpp:170-208 | a file exists exactly if it did before or was opened for output; the shell's own standard output exists from the start |
| `Delivery.ReplayClosedForm` | BasicIO/BasicIO/test.cpp:170-208 | the replay is what was kept and the outputs since the last successful `>` |
| `Delivery.FileContents` | BasicIO/BasicIO/test.cpp:170-208 | a file holds its first contents, unless truncated, and all programs' outputs for it since its last successful `>`, if and only if descriptor 0 was closed, 1 was open or there was no output; for the shell's own standard output the unredirected outputs count too, and without O_APPEND the contents are the replay at the shared offset |
| `Delivery.LostOutput` | BasicIO/BasicIO/test.cpp:172-178 | with 0 open and 1 closed, `x > f` leaves any `f` empty though the program wrote a byte |
| `Delivery.OverwrittenOutput` | BasicIO/BasicIO/test.cpp:170-200 | with `f` as standard output, not opened for appending, `x; x; x > f; x` leaves three bytes or more where the law allows two |
| `Delivery.FileLawForAll` | BasicIO/BasicIO/test.cpp:170-208 | from a given start every session keeps the law of `FileContents` for every file if and only if 0 is closed or 1 is open, and standard output, if a file, was opened for appending |
| `Outcomes.StepReports` | BasicIO/BasicIO/test.cpp:168-206 | each command does what `Transition` says: its file is opened exactly when it may be, is named and, for `<`, exists; the program gets the whole vector and the bytes of its source; output, exit code and every part of the state are as stated |
| `Outcomes.ReportIsUnique` | BasicIO/BasicIO/test.cpp:168-206 | what `Transition` asks of a command's entry leaves one possibility |
| `Outcomes.LeavesOneState` | BasicIO/BasicIO/test.cpp:168-206 | what it asks of the files, the terminal and the open files leaves one state |
| `Outcomes.TransitionIsStep` | BasicIO/BasicIO/test.cpp:168-206 | the step of a command is the one outcome `Transition` allows |
| `Outcomes.RunIsChain` | BasicIO/BasicIO/test.cpp:115-208 | every session is a chain of transitions |
| `Outcomes.ChainIsRun` | BasicIO/BasicIO/test.cpp:115-208 | every chain of transitions, and every beginning of one, is a session |
| `Outcomes.SessionIsChain` | BasicIO/BasicIO/test.cpp:115-208 | a log and a final state are those of a session if and only if a chain of transitions leads there |
| `Outcomes.OpenSucceeds` | BasicIO/BasicIO/test.cpp:170-198 | a redirection succeeds if and only if opening is permitted, the name is not empty and, for `<`, the file exists; a failed one ends the command with code 2 and nothing changed; behind `>` and `>>` the file then exists |
| `Outcomes.SessionOpens` | BasicIO/BasicIO/test.cpp:170-198 | the same for command i of any session, in the state its predecessors left |
| `Outcomes.SessionProgram` | BasicIO/BasicIO/test.cpp:200-206 | a program in a session gets the whole vector, the logged input and the files as redirected, and its output and exit code are logged; it runs exactly when no open failed, there is a name and the search finds it; else the code is 1 |
| `Streams.InputRedirect` | BasicIO/BasicIO/test.cpp:189-200 | a program behind `<` reads exactly the file if and only if descriptor 0 was open or the file is empty |
| `Streams.LostInput` | BasicIO/BasicIO/test.cpp:189-200 | with 0 closed, `x < f` reads nothing of a non-empty `f` |
| `Streams.InputLawForAll` | BasicIO/BasicIO/test.cpp:189-200 | a table gives every program behind `<` its file if and only if 0 is open |
| `Streams.SessionInput` | BasicIO/BasicIO/test.cpp:170-208 | with 0 and 1 open, a program behind `<` anywhere in a session reads the file as the commands before it left it |
| `Streams.InheritedInput` | BasicIO/BasicIO/test.cpp:167-200 | a program not behind `<` reads what is typed if descriptor 0 is a terminal, the file from the shared offset on if it is a file, unless its own `>` has just emptied that file, and nothing if it is closed or for writing only |
| `Streams.ConsoleContents` | BasicIO/BasicIO/test.cpp:167-208 | if descriptor 1 is a terminal open for writing, all output of programs for which no file was opened reaches it, in order; otherwise nothing does |
| `Requests.LineCommandsAre` | BasicIO/BasicIO/test.cpp:129-166 | command i is that of line i up to its first NUL, one for each line if none begins with a NUL |
| `Requests.AskedByLines` | BasicIO/BasicIO/test.cpp:115-166 | an input asks for the commands of its lines, then for those of the text left in the buffer |
| `Requests.SurvivesUnlessNul` | BasicIO/BasicIO/test.cpp:129-130 | only a line that begins with a NUL makes line 130 write in front of the buffer while input is left |
| `Requests.ResidueIsStump` | BasicIO/BasicIO/test.cpp:130-166 | what a parsed line leaves in the buffer is one unbroken word behind spaces |
| `Requests.AskedByStump` | BasicIO/BasicIO/test.cpp:129-166 | after the end of the input, k bytes left ask for exactly k commands, given one by one |
| `Requests.EndOfInput` | BasicIO/BasicIO/test.cpp:115-166 | all that a non-empty input, none of whose lines begins with a NUL, asks for: its lines' commands and then one for each byte left in the buffer |
| `Requests.TypedLineSurvives` | BasicIO/BasicIO/test.cpp:129-130 | a typed line is what gets parsed if and only if it is shorter than 1023 bytes and holds no NUL |
| `Requests.NulLine` | BasicIO/BasicIO/test.cpp:129-130 | `a`, NUL, `b` is parsed as an empty line |
| `Requests.CommandsCompose` | BasicIO/BasicIO/test.cpp:110-166 | the commands asked for by later lines depend neither on earlier lines nor on the buffer |
| `Requests.AskedHaveBodies` | BasicIO/BasicIO/test.cpp:115-166 | every command asked for is the parse of fewer than 1023 bytes without NUL and newline |
| `Requests.RunnableCommands` | BasicIO/BasicIO/test.cpp:106-166 | the commands of at most 31 words that some input asks for are exactly the well-formed ones without NUL and newline, whose tightest spelling is shorter than 1023 bytes |
| `Requests.SpelledSession` | BasicIO/BasicIO/test.cpp:115-166 | commands typed one per line are the first commands asked for if and only if every one is spelled unambiguously and holds no NUL |
| `Requests.OperatorWithoutTarget` | BasicIO/BasicIO/test.cpp:153-159 | an operator at the end of the line is ignored; only white space behind it gives the empty file name |
| `Requests.CrowdedInput` | BasicIO/BasicIO/test.cpp:106-166 | for every n below 1023 a typed line of n bytes asks for a command of (n + 1) / 2 words |
| `Requests.OverrunInput` | BasicIO/BasicIO/test.cpp:106-166 | 63 bytes and a newline ask for a command of 32 words |
| `Literals.BetweenLetters` | BasicIO/BasicIO/test.cpp:133-166 | of the 256 bytes between two letters, `>` and `<` redirect, the space separates, and every other is part of a word |
| `Literals.AppendLine` | BasicIO/BasicIO/test.cpp:134-142 | `a>>b` appends to `b` |
| `Literals.BehindOperator` | BasicIO/BasicIO/test.cpp:153-156 | behind `<` the bytes tab, newline, 11, 12, carriage return and space are passed over, and no other byte is |
| `Literals.ReadBetween` | BasicIO/BasicIO/test.cpp:129-130 | of the 256 bytes between two letters, only a newline ends the line read, and only a NUL hides what follows |
| `MiniShell.Execute` | BasicIO/BasicIO/test.cpp:200-201 | the program, run on descriptors 0 and 1 by reads and piecewise writes, has the outcome `Exec` gives, which `Outcomes.StepReports` pins down; exit code 1 when the search finds none |
| `MiniShell.TableIsRedirected` | BasicIO/BasicIO/test.cpp:167-198 | the redirected table differs from the inherited one only at k and the new descriptor, which share the new open file; if k was the lowest free one, not at all |
| `MiniShell.Child` | BasicIO/BasicIO/test.cpp:168-202 | the child, reading argv, `type` and `start` from memory, performs the step of the parsed command, failing with code 2 when its file cannot be opened, and its table differs from the shell's only as a redirection does |
| `MiniShell.Turn` | BasicIO/BasicIO/test.cpp:115-208 | one turn of the loop, with input or without, is one step for the command the buffer shows; the shell's own table does not change |
| `MiniShell.RunningStep` | BasicIO/BasicIO/test.cpp:115-208 | the loop's invariant: what has been run and what is still asked for make up the session |
| `MiniShell.Loop` | BasicIO/BasicIO/test.cpp:115-209 | the loop runs the session its input, or the text in the buffer, asks for; it ends out of bounds, in front of the buffer when all has been run, behind the vector at the first command of 32 words |
| `MiniShell.RunShell` | BasicIO/BasicIO/test.cpp:108-211 | the whole program, from garbage buffers on: a chain of transitions leads from the first state over the commands its input asks for to its log and final state, every file is as `FileContents` says and the terminal as `ConsoleContents` says, its table is unchanged, and the way it leaves what is defined is exact |
| `MiniShell.EmptyTargetFails` | BasicIO/BasicIO/test.cpp:153-194 | a command with an empty file name exits with code 2 and changes nothing |
| `MiniShell.BareRedirection` | BasicIO/BasicIO/test.cpp:161-201 | `>` with a file and no command empties or creates the file and runs nothing |
| `PlainRedirect.LogOutput` | BasicIO/BasicIO/test.cpp:82-94 | the program's steps, and exit code 1 with nothing changed when `open` fails |
| `PlainRedirect.PlainContents` | BasicIO/BasicIO/test.cpp:84-92 | without O_TRUNC the output stands in `log.txt` before what is left of the old contents, or is lost when 0 was open and 1 closed; no other file changes, nor does the terminal |
| `PlainRedirect.TruncatingContents` | BasicIO/BasicIO/test.cpp:84-172 | with O_TRUNC only the output is there, or nothing when 0 was open and 1 closed |
| `PlainRedirect.PlainVersusTruncating` | BasicIO/BasicIO/test.cpp:84-172 | opening with and without truncation agree if and only if the output covers the old contents or, when it is lost, there were none |
| `Prompt.LastPart` | BasicIO/BasicIO/test.cpp:120-125 | the backward walk stays in the buffer and ends behind the last slash, the only such place |

## Left out

- Streams.ConsoleContents: leaves out the prompt (line 127) and the exit-code line (line 206), which the shell prints on the same descriptor; likewise `Delivery.FileContents` when the file is the shell's own standard output.
- MiniShell.RunShell: for an empty input it says only that line 130 takes the length of a buffer nothing has been stored in (`Fault.Unset`), which leaves everything open.
- The repository's other directories (BlockingQueue, ThreadPool, Reactor, epoll, http and so on): separate programs that share nothing with the shell.
- `getpwuid`, `gethostname`, `getcwd`: system calls; the path is an input of `Prompt.LastPart`.
- The `fgets` reads of the shell are not tied to the offset of its descriptor 0, nor is stdio buffering modelled; streams count as flushed at `fork`.
- The insides of `execvp`: a search function and a program function stand for it; signals, and programs that change files other than through descriptor 1, are not modelled.
- Files are identified by the path as spelled: links, directories and different spellings of one path are not modelled.
- Open file descriptions are never reclaimed; nothing can observe that.
- `fork` and `waitpid` failing.
- The print-only program at lines 62-71 and the commented-out passages: nothing to prove.
