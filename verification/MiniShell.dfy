/** The shell loop itself: read, parse, fork, redirect, run, wait. */
module MiniShell {
  import opened Bytes
  import opened CommandLine
  import opened Delivery
  import opened InputLines
  import opened LineParser
  import opened Outcomes
  import opened Posix
  import opened Printing
  import opened Requests
  import opened Session
  import opened Streams
  import opened WordPositions

  /** The operator a code in `type` stands for, as the child's branches take it. */
  function KindOfCode(code: int): Kind {
    if code == 0 then Truncate else if code == 1 then Append else Input
  }

  /** `execvp`, and the program that takes over the child. */
  method Execute(kernel: Kernel, child: Process, c: Command, redirected: bool, env: Env, programs: Programs)
    returns (entry: Entry)
    modifies kernel
    ensures Outcome(kernel.View(), entry) == Exec(old(kernel.View()), child.fds, c, redirected, env, programs)
  {
    if c.argv == [] {
      return Entry(c, redirected, false, [], [], env.nullCode as nat);
    }
    if !programs.found(c.argv[0], kernel.files) {
      return Entry(c, redirected, false, [], [], 1);
    }
    var stdin := kernel.ReadToEnd(child, 0, env.typed);
    var exit := programs.run(c.argv, stdin, kernel.files);
    kernel.WritePieces(child, 1, exit.writes);
    entry := Entry(c, redirected, true, stdin, Concat(exit.writes), exit.code as nat);
  }

  /** The table `after` differs from `before` only at `k` and the lowest free descriptor, which share
      the open file `id`; had `k` been the lowest free one, it would not differ at all. */
  ghost predicate IsRedirected(before: FdTable, after: FdTable, id: nat, k: nat) {
    var fd := LowestFree(before);
    if fd == k then after == before else
      && k in after && fd in after && after[k] == after[fd] == id
      && forall d: nat :: d != k && d != fd ==>
           (d in after <==> d in before) && (d in before ==> after[d] == before[d])
  }

  lemma TableIsRedirected(fds: FdTable, id: nat, k: nat)
    ensures IsRedirected(fds, RedirectedTable(fds, id, k), id, k)
  {
    RedirectSteps(fds, id, k);
  }

  /** The forked child: it reads the parsed command out of its copy of the shell's memory, redirects
      and executes. */
  method Child(parser: Parser, kernel: Kernel, child: Process, start: Pointer, env: Env, programs: Programs,
               ghost c: Command)
    returns (entry: Entry)
    requires parser.Valid()
    requires Denotes(parser.cmd[..], parser.myargv[..], parser.redirectType, start, c)
    modifies kernel, child
    ensures Outcome(kernel.View(), entry) == Step(old(kernel.View()), old(child.fds), c, env, programs)
    ensures if entry.redirected
            then IsRedirected(old(child.fds), child.fds, |old(kernel.opens)|, StandardFd(c.redirect.value.kind))
            else child.fds == old(child.fds)
  {
    ArgvIsUnique(parser.cmd[..], parser.myargv[..], c.argv);
    var argv := ArgvAt(parser.cmd[..], parser.myargv[..], 0);
    if start == Null {
      entry := Execute(kernel, child, Command(argv, None), false, env, programs);
      return;
    }
    StringIsUnique(parser.cmd[..], start.offset, c.redirect.value.target);
    var path := StringAt(parser.cmd[..], start.offset);
    var kind := KindOfCode(parser.redirectType);
    var command := Command(argv, Some(Redirect(kind, path)));
    assert command == c;
    var fd := kernel.Open(child, path, FlagsOf(kind), env.permitted);
    if fd < 0 {
      return Entry(command, false, false, [], [], 2);
    }
    if kind == Input {
      kernel.CloseFd(child, 0);
      kernel.DuplicateFd(child, fd, 0);
    } else {
      kernel.CloseFd(child, 1);
      kernel.DuplicateFd(child, fd, 1);
    }
    assert child.fds == RedirectedTable(old(child.fds), |old(kernel.opens)|, StandardFd(kind));
    TableIsRedirected(old(child.fds), |old(kernel.opens)|, StandardFd(kind));
    entry := Execute(kernel, child, command, true, env, programs);
  }

  /** One turn of the loop, for command number `n` if there is one. The shell's own descriptor table is
      not among the things that change. */
  method Turn(parser: Parser, kernel: Kernel, shell: Process, input: bytes, envs: seq<Env>, n: nat,
              programs: Programs)
    returns (rest: bytes, fault: Fault, entry: Entry)
    requires parser.Valid() && (input == [] ==> Terminated(parser.cmd[..], 0))
    requires Found(input, if input == [] then parser.Text() else []) != [] ==> n < |envs|
    modifies parser, parser.cmd, parser.myargv, kernel
    ensures var text := Found(input, if input == [] then old(parser.Text()) else []);
            && rest == Rest(input)
            && fault != Unset && (fault == Underrun <==> text == [])
            && (fault == Overrun <==> text != [] && |Parse(Body(text)).argv| >= 32)
            && (fault == NoFault ==>
                  && HoldsString(parser.cmd[..], 0, Residue(Body(text)))
                  && Outcome(kernel.View(), entry)
                     == Step(old(kernel.View()), shell.fds, Parse(Body(text)), envs[n], programs))
            && (fault != NoFault ==> kernel.View() == old(kernel.View()))
    ensures shell.fds == old(shell.fds)
  {
    ghost var text := Found(input, if input == [] then parser.Text() else []);
    var start;
    rest, start, fault := parser.ReadCommand(input);
    assert rest == Rest(input);
    if fault != NoFault {
      entry := Entry(Command([], None), false, false, [], [], 0);
      return;
    }
    var child := kernel.Fork(shell);
    entry := Child(parser, kernel, child, start, envs[n], programs, Parse(Body(text)));
  }

  /** The loop between two turns: the commands in the log have been run, the others are still asked
      for by what is left of the input and the text in the buffer. */
  ghost predicate Running(start: System, fds: FdTable, commands: seq<Command>, envs: seq<Env>, programs: Programs,
                          rest: bytes, text: bytes, sys: System, log: seq<Entry>) {
    && |log| <= |commands| == |envs|
    && commands[|log|..] == Asked(rest, text)
    && History(sys, log) == Run(start, fds, commands, envs, programs, |log|)
    && forall i :: 0 <= i < |log| ==> |commands[i].argv| < NUM
  }

  /** What the next turn finds is the next command, if there is one. */
  lemma NextCommand(start: System, fds: FdTable, commands: seq<Command>, envs: seq<Env>, programs: Programs,
                    rest: bytes, text: bytes, sys: System, log: seq<Entry>)
    requires Running(start, fds, commands, envs, programs, rest, text, sys, log)
    ensures var t := Found(rest, text);
            if t == [] then |log| == |commands| else
              && |log| < |commands| && commands[|log|] == Parse(Body(t))
              && commands[|log| + 1..] == Asked(Rest(rest), Residue(Body(t)))
  {
    var t := Found(rest, text);
    if t != [] {
      assert commands[|log|] == commands[|log|..][0];
      assert commands[|log| + 1..] == commands[|log|..][1..];
    }
  }

  /** A turn that runs its command. */
  lemma RunningStep(start: System, fds: FdTable, commands: seq<Command>, envs: seq<Env>, programs: Programs,
                    rest: bytes, text: bytes, sys: System, log: seq<Entry>, o: Outcome)
    requires Running(start, fds, commands, envs, programs, rest, text, sys, log)
    requires |log| < |envs| && Found(rest, text) != []
    requires var c := Parse(Body(Found(rest, text)));
             |c.argv| < NUM && o == Step(sys, fds, c, envs[|log|], programs)
    ensures Running(start, fds, commands, envs, programs,
                    Rest(rest), Residue(Body(Found(rest, text))), o.sys, log + [o.entry])
  {
    NextCommand(start, fds, commands, envs, programs, rest, text, sys, log);
    assert Run(start, fds, commands, envs, programs, |log| + 1) == History(o.sys, log + [o.entry]);
  }

  /** The loop, which only leaving the bounds of an array ends: in front of the buffer when everything
      asked for has been run, behind the vector at the first command of too many words. Each command
      is what its own line says, whatever the parser's memory held before. */
  method Loop(parser: Parser, kernel: Kernel, shell: Process, input: bytes, envs: seq<Env>, programs: Programs)
    returns (log: seq<Entry>, fault: Fault)
    requires parser.Valid() && (input == [] ==> Terminated(parser.cmd[..], 0))
    requires |envs| == |Asked(input, if input == [] then parser.Text() else [])|
    modifies parser, parser.cmd, parser.myargv, kernel
    ensures var commands := Asked(input, if input == [] then old(parser.Text()) else []);
            && |log| <= |commands| == |envs|
            && History(kernel.View(), log) == Run(old(kernel.View()), shell.fds, commands, envs, programs, |log|)
            && (forall i :: 0 <= i < |log| ==> |commands[i].argv| < 32)
            && (fault == if |log| == |commands| then Underrun else Overrun)
            && (fault == Overrun ==> |commands[|log|].argv| >= 32)
    ensures shell.fds == old(shell.fds)
  {
    ghost var start, sys, text := kernel.View(), kernel.View(), if input == [] then parser.Text() else [];
    ghost var commands := Asked(input, text);
    var rest := input;
    log := [];
    while true
      invariant rest == [] ==> HoldsString(parser.cmd[..], 0, text)
      invariant kernel.View() == sys
      invariant Running(start, shell.fds, commands, envs, programs, rest, text, sys, log)
      decreases |commands| - |log|
    {
      NextCommand(start, shell.fds, commands, envs, programs, rest, text, sys, log);
      if rest == [] {
        StringIsUnique(parser.cmd[..], 0, text);
      }
      var more, stop, entry := Turn(parser, kernel, shell, rest, envs, |log|, programs);
      if stop != NoFault {
        return log, stop;
      }
      RunningStep(start, shell.fds, commands, envs, programs, rest, text, sys, log, Outcome(kernel.View(), entry));
      rest, text, sys := more, Residue(Body(Found(rest, text))), kernel.View();
      log := log + [entry];
    }
  }

  /** The whole program, from garbage buffers until it leaves what is defined: that it did, command by
      command, what the lines say, and what it has done to files and terminal. */
  method RunShell(kernel: Kernel, shell: Process, input: bytes, envs: seq<Env>, programs: Programs)
    returns (log: seq<Entry>, fault: Fault)
    requires |envs| == |Asked(input, [])|
    requires ValidTable(shell.fds, kernel.opens)
    modifies kernel
    ensures shell.fds == old(shell.fds)
    ensures var commands := Asked(input, []);
            && |log| <= |commands| == |envs|
            && History(kernel.View(), log) == Run(old(kernel.View()), shell.fds, commands, envs, programs, |log|)
            && (forall i :: 0 <= i < |log| ==> log[i].command == commands[i] && |commands[i].argv| < 32)
            && (fault == if input == [] then Unset else if |log| == |commands| then Underrun else Overrun)
            && (fault == Overrun ==> |commands[|log|].argv| >= 32)
    ensures exists states ::
              IsChain(states, old(kernel.View()), shell.fds, Asked(input, []), envs, programs, log, kernel.View())
    ensures forall f :: AppendsIfOwn(old(kernel.View()), shell.fds, f) ==>
              (FileLaw(old(kernel.View()), shell.fds, History(kernel.View(), log), f)
               <==> 0 !in shell.fds || 1 in shell.fds
                    || RecentOutput(log, f, IsOwn(old(kernel.View()), shell.fds, f)) == [])
    ensures forall f :: !AppendsIfOwn(old(kernel.View()), shell.fds, f) ==>
              Contents(kernel.View(), f)
              == ReplayAt(log, f, ReadsOwn(old(kernel.View()), shell.fds),
                          PositionOf(old(kernel.View()), f, shell.fds[1])).content
    ensures kernel.console
         == old(kernel.console) + if IsOnTerminal(old(kernel.View()), shell.fds) then ConsoleOutputs(log) else []
  {
    var parser := new Parser();
    ghost var sys, commands := kernel.View(), Asked(input, []);
    if input == [] {
      log, fault := [], Unset;
    } else {
      log, fault := Loop(parser, kernel, shell, input, envs, programs);
    }
    ghost var n := |log|;
    forall i | 0 <= i < n
      ensures log[i].command == commands[i]
    {
      LogsCommands(sys, shell.fds, commands, envs, programs, n, i);
    }
    forall f
      ensures if AppendsIfOwn(sys, shell.fds, f) then
                FileLaw(sys, shell.fds, History(kernel.View(), log), f)
                <==> 0 !in shell.fds || 1 in shell.fds || RecentOutput(log, f, IsOwn(sys, shell.fds, f)) == []
              else
                Contents(kernel.View(), f)
                == ReplayAt(log, f, ReadsOwn(sys, shell.fds), PositionOf(sys, f, shell.fds[1])).content
    {
      FileContents(sys, shell.fds, commands, envs, programs, n, f);
    }
    ConsoleContents(sys, shell.fds, commands, envs, programs, n);
    SessionIsChain(sys, shell.fds, commands, envs, programs, History(kernel.View(), log));
  }

  /** The empty file name cannot be opened: the command fails with code 2 and changes nothing. */
  lemma EmptyTargetFails(front: bytes, kind: Kind, sep: bytes,
                         sys: System, fds: FdTable, env: Env, programs: Programs)
    requires forall k :: 0 <= k < |front| ==> !IsOperator(front[k])
    requires AllSpace(sep) && sep != []
    ensures var c := Parse(front + (Operator(kind) + sep));
            Step(sys, fds, c, env, programs) == Outcome(sys, Entry(c, false, false, [], [], 2))
  {
    OperatorWithoutTarget(front, kind, sep);
  }

  /** A redirection without any command still empties or creates its file. */
  lemma BareRedirection(sys: System, fds: FdTable, target: bytes, env: Env, programs: Programs)
    requires target != [] && env.permitted
    ensures var c := Command([], Some(Redirect(Truncate, target)));
            var o := Step(sys, fds, c, env, programs);
            !o.entry.ran && target in o.sys.files && Contents(o.sys, target) == []
  {
  }
}
