/** What programs read from their standard input, and what of their output reaches the terminal. */
module Streams {
  import opened Bytes
  import opened CommandLine
  import opened Delivery
  import opened Posix
  import opened Session

  /** `x < f` */
  const READER := Command([[120]], Some(Redirect(Input, [102])))

  /** Every table is valid for enough open files, all of them the terminal. */
  lemma {:induction false} Terminals(fds: FdTable) returns (opens: seq<OpenFile>)
    ensures ValidTable(fds, opens)
    decreases |fds|
  {
    opens := [];
    if fds != map[] {
      var fd :| fd in fds;
      var rest := fds - {fd};
      assert |rest.Keys| < |fds.Keys| by {
        assert rest.Keys == fds.Keys - {fd};
      }
      var fewer := Terminals(rest);
      opens := fewer + seq(fds[fd] + 1, _ => OpenFile(Device, ReadWrite, false, 0));
      forall d | d in fds
        ensures fds[d] < |opens|
      {
        assert d != fd ==> d in rest;
      }
    }
  }

  /** A program that ran behind `<` read exactly the file. */
  ghost predicate InputLaw(sys: System, o: Outcome) {
    o.entry.ran && o.entry.command.redirect.Some? && o.entry.command.redirect.value.kind == Input ==>
      o.entry.stdin == Contents(sys, o.entry.command.redirect.value.target)
  }

  /** The law holds exactly when the shell was started with descriptor 0 open, or the file is empty. */
  lemma InputRedirect(sys: System, fds: FdTable, c: Command, env: Env, programs: Programs)
    requires ValidTable(fds, sys.opens)
    requires c.redirect.Some? && c.redirect.value.kind == Input
    ensures var o := Step(sys, fds, c, env, programs);
            o.entry.ran ==> (InputLaw(sys, o) <==> 0 in fds || Contents(sys, c.redirect.value.target) == [])
  {
    RedirectSteps(fds, |sys.opens|, 0);
    StandardDescriptors(fds);
  }

  /** With 0 closed, `x < f` reads nothing of a non-empty `f`. */
  lemma LostInput(fds: FdTable, opens: seq<OpenFile>)
    requires 0 !in fds && ValidTable(fds, opens)
    ensures var sys := System(map[[102] := [120]], opens, []);
            var o := Step(sys, fds, READER, QUIET, ONE_BYTE);
            o.entry.ran && o.entry.stdin == [] && !InputLaw(sys, o)
  {
    RedirectSteps(fds, |opens|, 0);
    StandardDescriptors(fds);
  }

  /** For a given table the law holds of every command if and only if descriptor 0 was open. */
  lemma InputLawForAll(fds: FdTable)
    ensures (forall sys: System, c: Command, env: Env, programs: Programs
               | ValidTable(fds, sys.opens) :: InputLaw(sys, Step(sys, fds, c, env, programs)))
       <==> 0 in fds
  {
    if 0 in fds {
      forall sys: System, c: Command, env: Env, programs: Programs | ValidTable(fds, sys.opens)
        ensures InputLaw(sys, Step(sys, fds, c, env, programs))
      {
        if c.redirect.Some? && c.redirect.value.kind == Input {
          InputRedirect(sys, fds, c, env, programs);
        }
      }
    } else {
      var opens := Terminals(fds);
      LostInput(fds, opens);
    }
  }

  /** At command number `n` of a session, with 0 and 1 open, a program behind `< f` read the file as the
      commands before it had left it. */
  lemma SessionInput(sys: System, fds: FdTable, commands: seq<Command>, envs: seq<Env>, programs: Programs,
                     n: nat, f: bytes)
    requires n < |commands| == |envs| && ValidTable(fds, sys.opens)
    requires 0 in fds && 1 in fds
    requires commands[n].redirect == Some(Redirect(Input, f))
    ensures var before := Run(sys, fds, commands, envs, programs, n).log;
            var e := Run(sys, fds, commands, envs, programs, n + 1).log[n];
            e.ran ==>
              e.stdin
              == if AppendsIfOwn(sys, fds, f)
                 then Kept(before, f, Contents(sys, f)) + RecentOutput(before, f, IsOwn(sys, fds, f))
                 else ReplayAt(before, f, ReadsOwn(sys, fds), PositionOf(sys, f, fds[1])).content
  {
    var h := Run(sys, fds, commands, envs, programs, n);
    FileContents(sys, fds, commands, envs, programs, n, f);
    RunKeepsFiles(sys, fds, commands, envs, programs, n);
    InputRedirect(h.sys, fds, commands[n], envs[n], programs);
  }

  /** A program not behind `<` reads what the shell's own standard input has left, whatever happens to
      its output: what is typed at a terminal, a file from the offset on, unless its own `>` has just
      emptied that file; nothing when descriptor 0 is closed or for writing only. */
  lemma InheritedInput(sys: System, fds: FdTable, c: Command, env: Env, programs: Programs)
    requires ValidTable(fds, sys.opens)
    requires c.redirect.Some? ==> c.redirect.value.kind != Input
    ensures var e := Step(sys, fds, c, env, programs).entry;
            e.ran ==>
              if 0 !in fds || sys.opens[fds[0]].access == WriteOnly then e.stdin == [] else
                match sys.opens[fds[0]].target
                case Device => e.stdin == env.typed
                case File(g) =>
                  var content := if Truncates(e, g) then [] else Contents(sys, g);
                  var offset := sys.opens[fds[0]].offset;
                  && |e.stdin| == (if offset <= |content| then |content| - offset else 0)
                  && forall k :: 0 <= k < |e.stdin| ==> e.stdin[k] == content[offset + k]
  {
    RedirectSteps(fds, |sys.opens|, 1);
    StandardDescriptors(fds);
  }

  /** What of a command's output belongs on the terminal: all, unless a file was opened for it. */
  function ConsoleOutput(e: Entry): bytes {
    if IsDiverted(e) then [] else e.output
  }

  function ConsoleOutputs(log: seq<Entry>): bytes {
    if log == [] then [] else ConsoleOutputs(log[..|log| - 1]) + ConsoleOutput(log[|log| - 1])
  }

  /** The shell's standard output is the terminal. */
  predicate IsOnTerminal(sys: System, fds: FdTable) {
    && 1 in fds && fds[1] < |sys.opens|
    && (sys.opens[fds[1]].access == WriteOnly || sys.opens[fds[1]].access == ReadWrite)
    && sys.opens[fds[1]].target == Device
  }

  /** A program writes to the terminal everything or nothing, as its descriptor 1 has it. */
  lemma ExecConsole(sys: System, fds: FdTable, c: Command, redirected: bool, env: Env, programs: Programs)
    ensures var o := Exec(sys, fds, c, redirected, env, programs);
            o.sys.console == sys.console + if IsOnTerminal(sys, fds) then o.entry.output else []
  {
    ReadingIsHarmless(sys, fds, 0);
    if c.argv != [] && programs.found(c.argv[0], sys.files) {
      var exit := programs.run(c.argv, Remaining(sys, fds, 0, env.typed), sys.files);
      var next := AfterReading(sys, fds, 0);
      if IsOnTerminal(sys, fds) {
        WriteAllConsole(next, fds, 1, exit.writes);
      } else if IsWritable(next, fds, 1) {
        WriteAllFile(next, fds, 1, exit.writes);
      } else {
        WriteAllNowhere(next, fds, 1, exit.writes);
      }
    }
  }

  lemma StepConsole(sys: System, fds: FdTable, c: Command, env: Env, programs: Programs)
    requires ValidTable(fds, sys.opens)
    ensures var o := Step(sys, fds, c, env, programs);
            o.sys.console == sys.console + if IsOnTerminal(sys, fds) then ConsoleOutput(o.entry) else []
  {
    if c.redirect == None {
      ExecConsole(sys, fds, c, false, env, programs);
    } else {
      var r := c.redirect.value;
      var k := StandardFd(r.kind);
      if CanOpen(sys, r.target, FlagsOf(r.kind), env.permitted) {
        RedirectSteps(fds, |sys.opens|, k);
        ExecConsole(OpenFiles(sys, r.target, FlagsOf(r.kind)), RedirectedTable(fds, |sys.opens|, k),
                    c, true, env, programs);
      }
    }
  }

  /** One command more. */
  lemma StepConsoleOutputs(sys: System, fds: FdTable, h: History, c: Command, env: Env, programs: Programs)
    requires ValidTable(fds, sys.opens) && SameFiles(sys.opens, h.sys.opens)
    requires h.sys.console == sys.console + if IsOnTerminal(sys, fds) then ConsoleOutputs(h.log) else []
    ensures var o := Step(h.sys, fds, c, env, programs);
            o.sys.console
            == sys.console + if IsOnTerminal(sys, fds) then ConsoleOutputs(h.log + [o.entry]) else []
  {
    var e := Step(h.sys, fds, c, env, programs).entry;
    StepConsole(h.sys, fds, c, env, programs);
    assert IsOnTerminal(h.sys, fds) <==> IsOnTerminal(sys, fds);
    assert (h.log + [e])[..|h.log|] == h.log;
    Associate(sys.console, ConsoleOutputs(h.log), ConsoleOutput(e));
  }

  /** What reaches the terminal in a session: if it is the shell's standard output, all output of
      programs for which no file was opened, in order; otherwise, be it a file, closed or opened for
      reading only, nothing. */
  lemma {:induction false} ConsoleContents(sys: System, fds: FdTable, commands: seq<Command>, envs: seq<Env>,
                                           programs: Programs, n: nat)
    requires n <= |commands| == |envs| && ValidTable(fds, sys.opens)
    ensures var h := Run(sys, fds, commands, envs, programs, n);
            h.sys.console == sys.console + if IsOnTerminal(sys, fds) then ConsoleOutputs(h.log) else []
    decreases n
  {
    if n > 0 {
      ConsoleContents(sys, fds, commands, envs, programs, n - 1);
      RunKeepsFiles(sys, fds, commands, envs, programs, n - 1);
      var h := Run(sys, fds, commands, envs, programs, n - 1);
      StepConsoleOutputs(sys, fds, h, commands[n - 1], envs[n - 1], programs);
    }
  }
}
