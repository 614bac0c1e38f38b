/** What one command does, told without system calls: which file is opened, what the program is given,
    what it leaves behind, and the exit code. A session is a chain of such outcomes. */
module Outcomes {
  import opened Bytes
  import opened CommandLine
  import opened Delivery
  import opened Posix
  import opened Session

  /** The command's file can be opened: `>` and `>>` create it, `<` needs it to exist. */
  predicate Openable(sys: System, c: Command, env: Env) {
    && c.redirect.Some? && env.permitted && c.redirect.value.target != []
    && (c.redirect.value.kind == Input ==> c.redirect.value.target in sys.files)
  }

  /** A file was opened for the command to read. */
  predicate IsFed(e: Entry) {
    e.redirected && e.command.redirect.Some? && e.command.redirect.value.kind == Input
  }

  /** The state with the command's file open, and before anything has run. */
  function Opened(sys: System, e: Entry): System {
    if !e.redirected || e.command.redirect.None? then sys else
      var r := e.command.redirect.value;
      System(
        if r.kind == Truncate || (r.kind == Append && r.target !in sys.files)
        then sys.files[r.target := []] else sys.files,
        sys.opens + [OpenFile(File(r.target), if r.kind == Input then ReadOnly else WriteOnly, r.kind == Append, 0)],
        sys.console)
  }

  /** The open file a program reads, if there is one: the one just opened behind `<`, lost when
      descriptor 0 was closed, or else the shell's own, if it can be read. */
  function Source(sys: System, fds: FdTable, e: Entry): Option<nat> {
    if !e.ran || 0 !in fds then None
    else if IsFed(e) then Some(|sys.opens|)
    else if fds[0] < |sys.opens| && sys.opens[fds[0]].access != WriteOnly then Some(fds[0])
    else None
  }

  /** The open file that takes the output, if there is one: the one just opened behind `>` or `>>`,
      lost when descriptor 0 was open and 1 closed, or else the shell's own, if it can be written. */
  function Sink(sys: System, fds: FdTable, e: Entry): Option<nat> {
    if e.output == [] then None
    else if IsDiverted(e) then if 0 in fds && 1 !in fds then None else Some(|sys.opens|)
    else if 1 in fds && fds[1] < |sys.opens| && sys.opens[fds[1]].access != ReadOnly then Some(fds[1])
    else None
  }

  /** What the source yields when it is read to the end. */
  function Yield(ready: System, source: Option<nat>, typed: bytes): bytes {
    if source.None? || source.value >= |ready.opens| then [] else
      var file := ready.opens[source.value];
      match file.target
      case Device => typed
      case File(f) =>
        var content := Contents(ready, f);
        if file.offset <= |content| then content[file.offset..] else []
  }

  /** The entry is what the command must report: a file that cannot be opened ends it with code 2, a
      search that finds nothing with code 1; else the program gets the whole vector, what its input
      yields and the files as the redirection left them, and its output and code are reported. */
  ghost predicate Reports(sys: System, fds: FdTable, c: Command, env: Env, programs: Programs, e: Entry) {
    var ready := Opened(sys, e);
    && e.command == c
    && (e.redirected <==> Openable(sys, c, env))
    && (e.ran <==> (c.redirect.Some? ==> e.redirected) && c.argv != [] && programs.found(c.argv[0], ready.files))
    && e.stdin == Yield(ready, Source(sys, fds, e), env.typed)
    && if e.ran then
         var exit := programs.run(c.argv, e.stdin, ready.files);
         e.output == Concat(exit.writes) && e.code == exit.code as nat
       else
         && e.output == []
         && e.code == if c.redirect.Some? && !e.redirected then 2 else if c.argv == [] then env.nullCode as nat else 1
  }

  /** The offset of open file `i` once the source has been read to the end. */
  function OffsetAfterReading(ready: System, source: Option<nat>, i: nat): nat
    requires i < |ready.opens|
  {
    var file := ready.opens[i];
    if source == Some(i) && file.target.File? && file.offset < |Contents(ready, file.target.path)|
    then |Contents(ready, file.target.path)| else file.offset
  }

  /** Where in the file `f` the output begins, when `sink` is open on it. */
  function WrittenAt(ready: System, source: Option<nat>, sink: nat, f: bytes): nat
    requires sink < |ready.opens|
  {
    if ready.opens[sink].append then |Contents(ready, f)| else OffsetAfterReading(ready, source, sink)
  }

  /** The offset of open file `i` once the output has been written too. */
  function OffsetAfter(ready: System, source: Option<nat>, sink: Option<nat>, output: bytes, i: nat): nat
    requires i < |ready.opens|
  {
    var file := ready.opens[i];
    if sink == Some(i) && file.target.File?
    then WrittenAt(ready, source, i, file.target.path) + |output| else OffsetAfterReading(ready, source, i)
  }

  /** `after` is `before` with `data` laid over it at `at`; a gap is filled with NULs. */
  ghost predicate IsLaidOver(before: bytes, at: nat, data: bytes, after: bytes) {
    && |after| == (if at + |data| > |before| then at + |data| else |before|)
    && forall k :: 0 <= k < |after| ==>
         after[k] == if at <= k < at + |data| then data[k - at] else if k < |before| then before[k] else NUL
  }

  /** The sink is a file, and this one. */
  predicate SinksInto(ready: System, sink: Option<nat>, f: bytes) {
    sink.Some? && sink.value < |ready.opens| && ready.opens[sink.value].target == File(f)
  }

  /** `after` is what comes of `ready` when the source has been read to the end and `output` has gone to
      the sink: a file so written has it in the right place, every other file is as it was, the terminal
      has it if it is the sink, and of the open files only the source and the sink have moved. */
  ghost predicate Leaves(ready: System, source: Option<nat>, sink: Option<nat>, output: bytes, after: System) {
    && (forall f :: f in after.files <==> f in ready.files || SinksInto(ready, sink, f))
    && (forall f :: f in after.files ==>
          if SinksInto(ready, sink, f)
          then IsLaidOver(Contents(ready, f), WrittenAt(ready, source, sink.value, f), output, after.files[f])
          else after.files[f] == ready.files[f])
    && after.console
       == (if sink.Some? && sink.value < |ready.opens| && ready.opens[sink.value].target == Device
           then ready.console + output else ready.console)
    && |after.opens| == |ready.opens|
    && forall i :: 0 <= i < |ready.opens| ==>
         after.opens[i] == ready.opens[i].(offset := OffsetAfter(ready, source, sink, output, i))
  }

  /** One command of a shell whose descriptor table is `fds`. */
  ghost predicate Transition(sys: System, fds: FdTable, c: Command, env: Env, programs: Programs,
                             e: Entry, after: System) {
    && Reports(sys, fds, c, env, programs, e)
    && Leaves(Opened(sys, e), Source(sys, fds, e), Sink(sys, fds, e), e.output, after)
  }

  /** `next` is `ready` once the source has been read to the end. */
  ghost predicate HasRead(ready: System, source: Option<nat>, next: System) {
    && next.files == ready.files && next.console == ready.console && |next.opens| == |ready.opens|
    && forall i :: 0 <= i < |ready.opens| ==>
         next.opens[i] == ready.opens[i].(offset := OffsetAfterReading(ready, source, i))
  }

  /** Reading descriptor 0 of a table to its end. */
  lemma ReadingYields(ready: System, table: FdTable, source: Option<nat>, typed: bytes)
    requires source == if IsReadable(ready, table, 0) then Some(table[0]) else None
    ensures Remaining(ready, table, 0, typed) == Yield(ready, source, typed)
    ensures HasRead(ready, source, AfterReading(ready, table, 0))
  {
  }

  lemma LaidOver(before: bytes, at: nat, data: bytes)
    requires data != []
    ensures IsLaidOver(before, at, data, WriteAt(before, at, data))
  {
    var after := WriteAt(before, at, data);
    forall k: nat
      ensures k < |after| <==> k < |before| || k < at + |data|
      ensures k < |after| ==>
                after[k] == if at <= k < at + |data| then data[k - at] else if k < |before| then before[k] else NUL
    {
      WriteAtBytes(before, at, data, k);
    }
    var n := if at + |data| > |before| then at + |data| else |before|;
    assert |after| == n;
  }

  /** Writing to a file, when the source has been read. */
  lemma FileLeaves(ready: System, source: Option<nat>, next: System, table: FdTable, output: bytes)
    requires HasRead(ready, source, next) && output != []
    requires IsWritable(ready, table, 1) && ready.opens[table[1]].target.File?
    ensures Leaves(ready, source, Some(table[1]), output, Write(next, table, 1, output))
  {
    var id := table[1];
    var f := ready.opens[id].target.path;
    var at := WrittenAt(ready, source, id, f);
    var content := WriteAt(Contents(ready, f), at, output);
    var after := Write(next, table, 1, output);
    WriteToFile(next, table, 1, output);
    assert after == next.(files := ready.files[f := content],
                          opens := next.opens[id := next.opens[id].(offset := at + |output|)]);
    LaidOver(Contents(ready, f), at, output);
    forall i | 0 <= i < |ready.opens|
      ensures after.opens[i] == ready.opens[i].(offset := OffsetAfter(ready, source, Some(id), output, i))
    {
    }
  }

  /** Writing to descriptor 1 of a table, when the source has been read. */
  lemma WritingLeaves(ready: System, source: Option<nat>, next: System, table: FdTable, sink: Option<nat>, output: bytes)
    requires HasRead(ready, source, next)
    requires sink == if output != [] && IsWritable(ready, table, 1) then Some(table[1]) else None
    ensures Leaves(ready, source, sink, output, Write(next, table, 1, output))
  {
    if sink.Some? && ready.opens[sink.value].target.File? {
      FileLeaves(ready, source, next, table, output);
    }
  }

  /** A program, or none, in a child with the table `table`. */
  lemma ExecLeaves(ready: System, table: FdTable, c: Command, redirected: bool, env: Env, programs: Programs,
                   source: Option<nat>, sink: Option<nat>)
    requires var o := Exec(ready, table, c, redirected, env, programs);
             && source == (if o.entry.ran && IsReadable(ready, table, 0) then Some(table[0]) else None)
             && sink == (if o.entry.output != [] && IsWritable(ready, table, 1) then Some(table[1]) else None)
    ensures var o := Exec(ready, table, c, redirected, env, programs);
            && o.entry.stdin == Yield(ready, source, env.typed)
            && Leaves(ready, source, sink, o.entry.output, o.sys)
  {
    var o := Exec(ready, table, c, redirected, env, programs);
    if o.entry.ran {
      var next := AfterReading(ready, table, 0);
      var exit := programs.run(c.argv, Remaining(ready, table, 0, env.typed), ready.files);
      ReadingYields(ready, table, source, env.typed);
      WriteAllOnce(next, table, 1, exit.writes);
      WritingLeaves(ready, source, next, table, sink, o.entry.output);
    }
  }

  /** With a redirection that could be opened, source and sink are what the child's descriptors 0 and 1
      have become. */
  lemma RedirectedEnds(sys: System, fds: FdTable, e: Entry)
    requires ValidTable(fds, sys.opens) && e.redirected && e.command.redirect.Some?
    ensures var table := RedirectedTable(fds, |sys.opens|, StandardFd(e.command.redirect.value.kind));
            var ready := Opened(sys, e);
            && Source(sys, fds, e) == (if e.ran && IsReadable(ready, table, 0) then Some(table[0]) else None)
            && Sink(sys, fds, e) == (if e.output != [] && IsWritable(ready, table, 1) then Some(table[1]) else None)
  {
    RedirectSteps(fds, |sys.opens|, StandardFd(e.command.redirect.value.kind));
    StandardDescriptors(fds);
  }

  /** Each command does what it must. */
  lemma StepReports(sys: System, fds: FdTable, c: Command, env: Env, programs: Programs)
    requires ValidTable(fds, sys.opens)
    ensures var o := Step(sys, fds, c, env, programs);
            Transition(sys, fds, c, env, programs, o.entry, o.sys)
  {
    var o := Step(sys, fds, c, env, programs);
    var e := o.entry;
    var ready, source, sink := Opened(sys, e), Source(sys, fds, e), Sink(sys, fds, e);
    if !e.redirected {
      if c.redirect.None? {
        ExecLeaves(sys, fds, c, false, env, programs, source, sink);
      }
    } else {
      var r := c.redirect.value;
      RedirectedEnds(sys, fds, e);
      assert ready == OpenFiles(sys, r.target, FlagsOf(r.kind));
      ExecLeaves(ready, RedirectedTable(fds, |sys.opens|, StandardFd(r.kind)), c, true, env, programs, source, sink);
    }
  }

  /** Nothing else would do: the surroundings and the programs fix the entry... */
  lemma ReportIsUnique(sys: System, fds: FdTable, c: Command, env: Env, programs: Programs, a: Entry, b: Entry)
    requires Reports(sys, fds, c, env, programs, a) && Reports(sys, fds, c, env, programs, b)
    ensures a == b
  {
  }

  lemma LaidOverIsUnique(before: bytes, at: nat, data: bytes, a: bytes, b: bytes)
    requires IsLaidOver(before, at, data, a) && IsLaidOver(before, at, data, b)
    ensures a == b
  {
  }

  /** ... and the entry the state. */
  lemma LeavesOneState(ready: System, source: Option<nat>, sink: Option<nat>, output: bytes, a: System, b: System)
    requires Leaves(ready, source, sink, output, a) && Leaves(ready, source, sink, output, b)
    ensures a == b
  {
    forall f | f in a.files
      ensures f in b.files && a.files[f] == b.files[f]
    {
      if SinksInto(ready, sink, f) {
        LaidOverIsUnique(Contents(ready, f), WrittenAt(ready, source, sink.value, f), output, a.files[f], b.files[f]);
      }
    }
    assert forall f :: f in b.files ==> f in a.files;
    assert a.files == b.files;
    assert a.opens == b.opens;
  }

  /** The steps of a session are exactly the outcomes so described. */
  lemma TransitionIsStep(sys: System, fds: FdTable, c: Command, env: Env, programs: Programs, e: Entry, after: System)
    requires ValidTable(fds, sys.opens)
    ensures Transition(sys, fds, c, env, programs, e, after) <==> Step(sys, fds, c, env, programs) == Outcome(after, e)
  {
    var o := Step(sys, fds, c, env, programs);
    StepReports(sys, fds, c, env, programs);
    if Transition(sys, fds, c, env, programs, e, after) {
      ReportIsUnique(sys, fds, c, env, programs, e, o.entry);
      LeavesOneState(Opened(sys, e), Source(sys, fds, e), Sink(sys, fds, e), e.output, after, o.sys);
    }
  }

  /** `states` are the moments of a session between its commands, from `sys` to `after`. */
  ghost predicate IsChain(states: seq<System>, sys: System, fds: FdTable, commands: seq<Command>, envs: seq<Env>,
                          programs: Programs, log: seq<Entry>, after: System)
    requires |log| <= |commands| == |envs|
  {
    && |states| == |log| + 1 && states[0] == sys && states[|log|] == after
    && forall i :: 0 <= i < |log| ==>
         Transition(states[i], fds, commands[i], envs[i], programs, log[i], states[i + 1])
  }

  lemma ChainExtends(states: seq<System>, sys: System, fds: FdTable, commands: seq<Command>, envs: seq<Env>,
                     programs: Programs, log: seq<Entry>, last: System, e: Entry, next: System)
    requires |log| < |commands| == |envs|
    requires IsChain(states, sys, fds, commands, envs, programs, log, last)
    requires Transition(last, fds, commands[|log|], envs[|log|], programs, e, next)
    ensures IsChain(states + [next], sys, fds, commands, envs, programs, log + [e], next)
  {
    var longer, all := log + [e], states + [next];
    forall i | 0 <= i < |longer|
      ensures Transition(all[i], fds, commands[i], envs[i], programs, longer[i], all[i + 1])
    {
      if i < |log| {
        assert longer[i] == log[i] && all[i] == states[i] && all[i + 1] == states[i + 1];
      }
    }
  }

  /** Every session is such a chain. */
  lemma {:induction false} RunIsChain(sys: System, fds: FdTable, commands: seq<Command>, envs: seq<Env>,
                                      programs: Programs, n: nat)
    returns (states: seq<System>)
    requires n <= |commands| == |envs| && ValidTable(fds, sys.opens)
    ensures var h := Run(sys, fds, commands, envs, programs, n);
            IsChain(states, sys, fds, commands, envs, programs, h.log, h.sys)
    decreases n
  {
    var h := Run(sys, fds, commands, envs, programs, n);
    if n == 0 {
      return [sys];
    }
    var before := Run(sys, fds, commands, envs, programs, n - 1);
    var earlier := RunIsChain(sys, fds, commands, envs, programs, n - 1);
    RunKeepsFiles(sys, fds, commands, envs, programs, n - 1);
    StepReports(before.sys, fds, commands[n - 1], envs[n - 1], programs);
    var o := Step(before.sys, fds, commands[n - 1], envs[n - 1], programs);
    ChainExtends(earlier, sys, fds, commands, envs, programs, before.log, before.sys, o.entry, o.sys);
    states := earlier + [h.sys];
  }

  lemma RunExtends(sys: System, fds: FdTable, commands: seq<Command>, envs: seq<Env>, programs: Programs,
                   log: seq<Entry>, last: System, e: Entry, next: System)
    requires |log| < |commands| == |envs| && ValidTable(fds, sys.opens)
    requires History(last, log) == Run(sys, fds, commands, envs, programs, |log|)
    requires Transition(last, fds, commands[|log|], envs[|log|], programs, e, next)
    ensures History(next, log + [e]) == Run(sys, fds, commands, envs, programs, |log| + 1)
  {
    RunKeepsFiles(sys, fds, commands, envs, programs, |log|);
    TransitionIsStep(last, fds, commands[|log|], envs[|log|], programs, e, next);
  }

  /** Every such chain is a session, and so is every beginning of it. */
  lemma {:induction false} ChainIsRun(states: seq<System>, sys: System, fds: FdTable, commands: seq<Command>,
                                      envs: seq<Env>, programs: Programs, log: seq<Entry>, after: System, n: nat)
    requires n <= |log| <= |commands| == |envs| && ValidTable(fds, sys.opens)
    requires IsChain(states, sys, fds, commands, envs, programs, log, after)
    ensures History(states[n], log[..n]) == Run(sys, fds, commands, envs, programs, n)
    decreases n
  {
    if n > 0 {
      var i := n - 1;
      ChainIsRun(states, sys, fds, commands, envs, programs, log, after, i);
      assert log[..n] == log[..i] + [log[i]];
      RunExtends(sys, fds, commands, envs, programs, log[..i], states[i], log[i], states[n]);
    }
  }

  /** The sessions are exactly the chains. */
  lemma SessionIsChain(sys: System, fds: FdTable, commands: seq<Command>, envs: seq<Env>, programs: Programs, h: History)
    requires |h.log| <= |commands| == |envs| && ValidTable(fds, sys.opens)
    ensures h == Run(sys, fds, commands, envs, programs, |h.log|)
       <==> exists states :: IsChain(states, sys, fds, commands, envs, programs, h.log, h.sys)
  {
    if h == Run(sys, fds, commands, envs, programs, |h.log|) {
      var states := RunIsChain(sys, fds, commands, envs, programs, |h.log|);
      assert IsChain(states, sys, fds, commands, envs, programs, h.log, h.sys);
    }
    forall states | IsChain(states, sys, fds, commands, envs, programs, h.log, h.sys)
      ensures h == Run(sys, fds, commands, envs, programs, |h.log|)
    {
      ChainIsRun(states, sys, fds, commands, envs, programs, h.log, h.sys, |h.log|);
      assert h.log[..|h.log|] == h.log;
    }
  }

  /** When a redirection succeeds, and what it does in either case: one that fails ends the command with
      code 2 and nothing changed, one to a file leaves the file in place. */
  lemma OpenSucceeds(sys: System, fds: FdTable, c: Command, env: Env, programs: Programs)
    requires c.redirect.Some?
    ensures var r, o := c.redirect.value, Step(sys, fds, c, env, programs);
            && (o.entry.redirected
                <==> env.permitted && r.target != [] && (r.kind == Input ==> r.target in sys.files))
            && (!o.entry.redirected ==> o == Outcome(sys, Entry(c, false, false, [], [], 2)))
            && (o.entry.redirected ==> r.target in o.sys.files)
  {
    var r := c.redirect.value;
    var flags := FlagsOf(r.kind);
    if CanOpen(sys, r.target, flags, env.permitted) {
      ExecNames(OpenFiles(sys, r.target, flags), RedirectedTable(fds, |sys.opens|, StandardFd(r.kind)),
                c, true, env, programs, r.target);
    }
  }

  /** The same in a session, of the state the commands before have left; a failed redirection is passed
      over with code 2. */
  lemma SessionOpens(sys: System, fds: FdTable, commands: seq<Command>, envs: seq<Env>, programs: Programs,
                     n: nat, i: nat)
    requires i < n <= |commands| == |envs|
    requires commands[i].redirect.Some?
    ensures var r, e := commands[i].redirect.value, Run(sys, fds, commands, envs, programs, n).log[i];
            var before := Run(sys, fds, commands, envs, programs, i).sys;
            var after := Run(sys, fds, commands, envs, programs, i + 1).sys;
            && (e.redirected
                <==> envs[i].permitted && r.target != [] && (r.kind == Input ==> r.target in before.files))
            && (!e.redirected ==> e == Entry(commands[i], false, false, [], [], 2) && after == before)
            && (e.redirected ==> r.target in after.files)
  {
    var h := Run(sys, fds, commands, envs, programs, i);
    LogEntry(sys, fds, commands, envs, programs, n, i);
    OpenSucceeds(h.sys, fds, commands[i], envs[i], programs);
  }

  /** A program in a session gets the whole vector, the input the log names and the files as its
      predecessors and its own redirection left them; its output and its code are what is logged. It
      runs exactly when no open has failed, there is a name and the search finds it. */
  lemma SessionProgram(sys: System, fds: FdTable, commands: seq<Command>, envs: seq<Env>, programs: Programs,
                       n: nat, i: nat)
    requires i < n <= |commands| == |envs| && ValidTable(fds, sys.opens)
    ensures var e := Run(sys, fds, commands, envs, programs, n).log[i];
            var argv, before := commands[i].argv, Run(sys, fds, commands, envs, programs, i).sys.files;
            var files := match commands[i].redirect
                         case Some(Redirect(Truncate, f)) => before[f := []]
                         case Some(Redirect(Append, f)) => if f in before then before else before[f := []]
                         case _ => before;
            && (e.ran <==> (commands[i].redirect.Some? ==> e.redirected) && argv != [] && programs.found(argv[0], files))
            && (e.ran ==>
                  var exit := programs.run(argv, e.stdin, files);
                  e.output == Concat(exit.writes) && e.code == exit.code as nat)
            && (!e.ran && e.redirected && argv != [] ==> e.code == 1)
            && (!e.ran && commands[i].redirect.None? && argv != [] ==> e.code == 1)
  {
    var h := Run(sys, fds, commands, envs, programs, i);
    LogEntry(sys, fds, commands, envs, programs, n, i);
    RunKeepsFiles(sys, fds, commands, envs, programs, i);
    StepReports(h.sys, fds, commands[i], envs[i], programs);
  }
}
