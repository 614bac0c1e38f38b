/** What a whole shell session does to files and terminal: each command in turn is forked off,
    redirected, run and waited for. */
module Session {
  import opened Bytes
  import opened CommandLine
  import opened Posix

  /** What a program writes to its standard output, piece by piece, and its exit code. */
  datatype Exit = Exit(writes: seq<bytes>, code: byte)

  /** The programs there are. `found` is the outcome of the search `execvp` makes; `run` is any
      function of the arguments, the standard input and the files. */
  datatype Programs = Programs(
    found: (bytes, map<bytes, bytes>) -> bool,
    run: (seq<bytes>, bytes, map<bytes, bytes>) -> Exit)

  /** What the surroundings contribute to one command: whether `open` may succeed, what is typed should
      the program read the terminal, and the exit code seen when `execvp` is called with a null
      pointer, for which POSIX fixes nothing. */
  datatype Env = Env(permitted: bool, typed: bytes, nullCode: byte)

  /** One executed command: whether its file was opened, whether a program ran, what the
      program read and wrote, and the exit code the shell reports. */
  datatype Entry = Entry(command: Command, redirected: bool, ran: bool, stdin: bytes, output: bytes, code: nat)

  datatype Outcome = Outcome(sys: System, entry: Entry)

  /** The descriptor a redirection replaces. */
  function StandardFd(kind: Kind): nat {
    if kind == Input then 0 else 1
  }

  function FlagsOf(kind: Kind): Flags {
    match kind
    case Truncate => Flags(WriteOnly, true, true, false)
    case Append => Flags(WriteOnly, true, false, true)
    case Input => Flags(ReadOnly, false, false, false)
  }

  /** `execvp` and the program behind it; when the search finds none the exit code is 1. */
  function Exec(sys: System, fds: FdTable, c: Command, redirected: bool, env: Env, programs: Programs): Outcome {
    if c.argv == [] then
      Outcome(sys, Entry(c, redirected, false, [], [], env.nullCode as nat))
    else if !programs.found(c.argv[0], sys.files) then
      Outcome(sys, Entry(c, redirected, false, [], [], 1))
    else
      var stdin := Remaining(sys, fds, 0, env.typed);
      var exit := programs.run(c.argv, stdin, sys.files);
      Outcome(WriteAll(AfterReading(sys, fds, 0), fds, 1, exit.writes),
              Entry(c, redirected, true, stdin, Concat(exit.writes), exit.code as nat))
  }

  /** The child's table after a successful redirection. */
  function RedirectedTable(fds: FdTable, id: nat, k: nat): FdTable {
    var fd := LowestFree(fds);
    Dup2(Close(fds[fd := id], k), fd, k)
  }

  /** One command, run in a child that starts from the table `fds`. */
  function Step(sys: System, fds: FdTable, c: Command, env: Env, programs: Programs): Outcome {
    match c.redirect
    case None => Exec(sys, fds, c, false, env, programs)
    case Some(r) =>
      if !CanOpen(sys, r.target, FlagsOf(r.kind), env.permitted) then
        Outcome(sys, Entry(c, false, false, [], [], 2))
      else
        Exec(OpenFiles(sys, r.target, FlagsOf(r.kind)),
             RedirectedTable(fds, |sys.opens|, StandardFd(r.kind)), c, true, env, programs)
  }

  datatype History = History(sys: System, log: seq<Entry>)

  /** A session after its first `n` commands. Every child starts from the same table, for the shell's
      own never changes. */
  function Run(sys: System, fds: FdTable, commands: seq<Command>, envs: seq<Env>, programs: Programs, n: nat)
    : (h: History)
    requires n <= |commands| == |envs|
    ensures |h.log| == n
  {
    if n == 0 then History(sys, []) else
      var h := Run(sys, fds, commands, envs, programs, n - 1);
      var o := Step(h.sys, fds, commands[n - 1], envs[n - 1], programs);
      History(o.sys, h.log + [o.entry])
  }

  lemma RunOnce(sys: System, fds: FdTable, c: Command, env: Env, programs: Programs)
    ensures var o := Step(sys, fds, c, env, programs);
            Run(sys, fds, [c], [env], programs, 1) == History(o.sys, [o.entry])
  {
    assert Run(sys, fds, [c], [env], programs, 0) == History(sys, []);
  }

  /** Entry `i` of the log is that of command `i`, run in the state its predecessors have left. */
  lemma {:induction false} LogEntry(sys: System, fds: FdTable, commands: seq<Command>, envs: seq<Env>,
                                    programs: Programs, n: nat, i: nat)
    requires i < n <= |commands| == |envs|
    ensures var h := Run(sys, fds, commands, envs, programs, i);
            Run(sys, fds, commands, envs, programs, n).log[i] == Step(h.sys, fds, commands[i], envs[i], programs).entry
    decreases n
  {
    if i < n - 1 {
      LogEntry(sys, fds, commands, envs, programs, n - 1, i);
    }
  }

  /** The log names the commands themselves. */
  lemma LogsCommands(sys: System, fds: FdTable, commands: seq<Command>, envs: seq<Env>, programs: Programs,
                     n: nat, i: nat)
    requires i < n <= |commands| == |envs|
    ensures Run(sys, fds, commands, envs, programs, n).log[i].command == commands[i]
  {
    LogEntry(sys, fds, commands, envs, programs, n, i);
  }

  /** What has been logged stays: a session's log begins with the log of every earlier moment. */
  lemma {:induction false} LogOnlyGrows(sys: System, fds: FdTable, commands: seq<Command>, envs: seq<Env>,
                                        programs: Programs, n: nat, m: nat)
    requires m <= n <= |commands| == |envs|
    ensures Run(sys, fds, commands, envs, programs, m).log == Run(sys, fds, commands, envs, programs, n).log[..m]
    decreases n
  {
    if m < n {
      LogOnlyGrows(sys, fds, commands, envs, programs, n - 1, m);
    }
  }

  /** Reading leaves files and terminal as they are. */
  lemma ReadingIsHarmless(sys: System, fds: FdTable, fd: nat)
    ensures var after := AfterReading(sys, fds, fd);
            && after.files == sys.files && after.console == sys.console
            && |after.opens| == |sys.opens| && SameFiles(sys.opens, after.opens)
            && forall i :: 0 <= i < |sys.opens| && sys.opens[i].access == WriteOnly ==> after.opens[i] == sys.opens[i]
  {
  }

  lemma ExecKeepsFiles(sys: System, fds: FdTable, c: Command, redirected: bool, env: Env, programs: Programs)
    ensures SameFiles(sys.opens, Exec(sys, fds, c, redirected, env, programs).sys.opens)
  {
    ReadingIsHarmless(sys, fds, 0);
    if c.argv != [] && programs.found(c.argv[0], sys.files) {
      var exit := programs.run(c.argv, Remaining(sys, fds, 0, env.typed), sys.files);
      WriteAllSameFiles(AfterReading(sys, fds, 0), fds, 1, exit.writes);
    }
  }

  lemma StepKeepsFiles(sys: System, fds: FdTable, c: Command, env: Env, programs: Programs)
    ensures SameFiles(sys.opens, Step(sys, fds, c, env, programs).sys.opens)
  {
    if c.redirect == None {
      ExecKeepsFiles(sys, fds, c, false, env, programs);
    } else {
      var r := c.redirect.value;
      ExecKeepsFiles(OpenFiles(sys, r.target, FlagsOf(r.kind)),
                     RedirectedTable(fds, |sys.opens|, StandardFd(r.kind)), c, true, env, programs);
    }
  }

  /** Throughout a session the open files keep their identity, and the shell's table stays valid. */
  lemma {:induction false} RunKeepsFiles(sys: System, fds: FdTable, commands: seq<Command>, envs: seq<Env>,
                                         programs: Programs, n: nat)
    requires n <= |commands| == |envs|
    ensures var h := Run(sys, fds, commands, envs, programs, n);
            && SameFiles(sys.opens, h.sys.opens)
            && (ValidTable(fds, sys.opens) ==> ValidTable(fds, h.sys.opens))
    decreases n
  {
    if n > 0 {
      RunKeepsFiles(sys, fds, commands, envs, programs, n - 1);
      var h := Run(sys, fds, commands, envs, programs, n - 1);
      StepKeepsFiles(h.sys, fds, commands[n - 1], envs[n - 1], programs);
    }
  }
}
