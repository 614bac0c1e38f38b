/** Where the programs' outputs go and their inputs come from, over whole sessions. */
module Delivery {
  import opened Bytes
  import opened CommandLine
  import opened Posix
  import opened Session

  /** A file was opened to take the command's output. */
  predicate IsDiverted(e: Entry) {
    e.redirected && e.command.redirect.Some? && e.command.redirect.value.kind != Input
  }

  /** The command was to write to `f`, and `f` was opened for it. */
  predicate WritesTo(e: Entry, f: bytes) {
    IsDiverted(e) && e.command.redirect.value.target == f
  }

  predicate Truncates(e: Entry, f: bytes) {
    WritesTo(e, f) && e.command.redirect.value.kind == Truncate
  }

  /** What of the command's output belongs into `f`; `own` says that `f` is where the shell's own
      standard output goes. */
  function OutputTo(e: Entry, f: bytes, own: bool): bytes {
    if WritesTo(e, f) || (own && !IsDiverted(e)) then e.output else []
  }

  /** The last successful `>` to `f` in the log, or its beginning. */
  function LastTruncation(log: seq<Entry>, f: bytes): (i: nat)
    ensures i <= |log| && (log != [] ==> i < |log|)
    ensures forall k :: i < k < |log| ==> !Truncates(log[k], f)
    ensures i > 0 ==> Truncates(log[i], f)
  {
    if log == [] then 0
    else if Truncates(log[|log| - 1], f) then |log| - 1
    else LastTruncation(log[..|log| - 1], f)
  }

  /** The outputs that belong into `f`, from command number `from` on, end to end. */
  function OutputsSince(log: seq<Entry>, from: nat, f: bytes, own: bool): bytes {
    if |log| <= from then [] else
      OutputsSince(log[..|log| - 1], from, f, own) + OutputTo(log[|log| - 1], f, own)
  }

  function RecentOutput(log: seq<Entry>, f: bytes, own: bool): bytes {
    OutputsSince(log, LastTruncation(log, f), f, own)
  }

  /** What stays of the file's first contents: nothing once it has been truncated. */
  function Kept(log: seq<Entry>, f: bytes, initial: bytes): bytes {
    if log != [] && Truncates(log[LastTruncation(log, f)], f) then [] else initial
  }

  /** The shell's own standard output is `f`. */
  predicate IsOwn(sys: System, fds: FdTable, f: bytes) {
    && 1 in fds && fds[1] < |sys.opens|
    && (sys.opens[fds[1]].access == WriteOnly || sys.opens[fds[1]].access == ReadWrite)
    && sys.opens[fds[1]].target == File(f)
  }

  /** If the shell's own standard output is `f`, it was opened for appending. */
  predicate AppendsIfOwn(sys: System, fds: FdTable, f: bytes) {
    IsOwn(sys, fds, f) ==> sys.opens[fds[1]].append
  }

  /** A program whose standard output is not `f` leaves `f` alone. */
  lemma ExecElsewhere(sys: System, fds: FdTable, c: Command, redirected: bool, env: Env, programs: Programs, f: bytes)
    requires !IsOwn(sys, fds, f)
    ensures var o := Exec(sys, fds, c, redirected, env, programs);
            && (f in o.sys.files <==> f in sys.files)
            && Contents(o.sys, f) == Contents(sys, f)
  {
    ReadingIsHarmless(sys, fds, 0);
    if c.argv != [] && programs.found(c.argv[0], sys.files) {
      var exit := programs.run(c.argv, Remaining(sys, fds, 0, env.typed), sys.files);
      WriteAllElsewhere(AfterReading(sys, fds, 0), fds, 1, exit.writes, f);
    }
  }

  /** A program whose standard output is at the end of `f` appends its output to `f`. */
  lemma ExecAppends(sys: System, fds: FdTable, c: Command, redirected: bool, env: Env, programs: Programs, f: bytes)
    requires IsOwn(sys, fds, f)
    requires var file := sys.opens[fds[1]];
             file.append || (file.access == WriteOnly && file.offset == |Contents(sys, f)|)
    ensures var o := Exec(sys, fds, c, redirected, env, programs);
            Contents(o.sys, f) == Contents(sys, f) + o.entry.output
  {
    ReadingIsHarmless(sys, fds, 0);
    if c.argv != [] && programs.found(c.argv[0], sys.files) {
      var exit := programs.run(c.argv, Remaining(sys, fds, 0, env.typed), sys.files);
      WriteAllAppends(AfterReading(sys, fds, 0), fds, 1, exit.writes);
    }
  }

  /** What a program in a child with an opened redirection does to `f`. */
  lemma RedirectedContents(sys: System, fds: FdTable, c: Command, r: Redirect, env: Env, programs: Programs, f: bytes)
    requires ValidTable(fds, sys.opens) && AppendsIfOwn(sys, fds, f)
    requires c.redirect == Some(r) && (FlagsOf(r.kind).create || r.target in sys.files)
    ensures var next := OpenFiles(sys, r.target, FlagsOf(r.kind));
            var o := Exec(next, RedirectedTable(fds, |sys.opens|, StandardFd(r.kind)), c, true, env, programs);
            Contents(o.sys, f)
            == Contents(next, f)
               + (if LowestFree(fds) != 1 then OutputTo(o.entry, f, IsOwn(sys, fds, f)) else [])
  {
    var id, k := |sys.opens|, StandardFd(r.kind);
    var next, table := OpenFiles(sys, r.target, FlagsOf(r.kind)), RedirectedTable(fds, id, k);
    RedirectSteps(fds, id, k);
    if IsOwn(next, table, f) {
      ExecAppends(next, table, c, true, env, programs, f);
    } else {
      ExecElsewhere(next, table, c, true, env, programs, f);
    }
  }

  /** What one command does to `f` when nothing overwrites. Output is lost when descriptor 1 was the
      lowest free one. */
  lemma StepAppends(sys: System, fds: FdTable, c: Command, env: Env, programs: Programs, f: bytes)
    requires ValidTable(fds, sys.opens) && AppendsIfOwn(sys, fds, f)
    ensures var o := Step(sys, fds, c, env, programs);
            Contents(o.sys, f)
            == (if Truncates(o.entry, f) then [] else Contents(sys, f))
               + (if LowestFree(fds) != 1 then OutputTo(o.entry, f, IsOwn(sys, fds, f)) else [])
  {
    if c.redirect == None {
      if IsOwn(sys, fds, f) {
        ExecAppends(sys, fds, c, false, env, programs, f);
      } else {
        ExecElsewhere(sys, fds, c, false, env, programs, f);
      }
    } else {
      var r := c.redirect.value;
      if CanOpen(sys, r.target, FlagsOf(r.kind), env.permitted) {
        RedirectedContents(sys, fds, c, r, env, programs, f);
      }
    }
  }

  /** The shell's standard output and its standard input are one open file. */
  predicate ReadsOwn(sys: System, fds: FdTable) {
    && 0 in fds && 1 in fds && fds[0] == fds[1] < |sys.opens|
    && (sys.opens[fds[0]].access == ReadOnly || sys.opens[fds[0]].access == ReadWrite)
  }

  /** A file and the offset of the shell's own standard output in it. */
  datatype Position = Position(content: bytes, offset: nat)

  /** How the shell's standard output, when it is the file itself and not opened for appending, fares
      with one command: a redirection to the file changes the contents but not this offset; reading
      through it moves it to the end; inherited output overwrites what it meets. */
  function Advance(s: Position, e: Entry, f: bytes, readsOwn: bool): Position {
    var content := if Truncates(e, f) then [] else s.content;
    var isFed := e.redirected && !IsDiverted(e);
    var offset := if readsOwn && e.ran && !isFed && s.offset < |content| then |content| else s.offset;
    if WritesTo(e, f) then Position(content + e.output, offset)
    else if IsDiverted(e) then Position(content, offset)
    else Position(WriteAt(content, offset, e.output), offset + |e.output|)
  }

  /** The position of the open file `id` on `f`. */
  function PositionOf(sys: System, f: bytes, id: nat): Position
    requires id < |sys.opens|
  {
    Position(Contents(sys, f), sys.opens[id].offset)
  }

  /** The offset of the open file `id` on `f` after a program with the table `fds` has read its input. */
  function OffsetRead(sys: System, fds: FdTable, f: bytes, id: nat, ran: bool): nat
    requires id < |sys.opens|
  {
    var s := PositionOf(sys, f, id);
    if ran && IsReadable(sys, fds, 0) && fds[0] == id && s.offset < |s.content| then |s.content| else s.offset
  }

  lemma ReadingMoves(sys: System, fds: FdTable, f: bytes, id: nat)
    requires id < |sys.opens| && sys.opens[id].target == File(f)
    ensures PositionOf(AfterReading(sys, fds, 0), f, id)
         == Position(Contents(sys, f), OffsetRead(sys, fds, f, id, true))
  {
  }

  /** A program that writes through the open file `id` on `f`. */
  lemma ExecOverwrites(sys: System, fds: FdTable, c: Command, redirected: bool, env: Env, programs: Programs,
                       f: bytes, id: nat)
    requires id < |sys.opens| && !sys.opens[id].append && sys.opens[id].target == File(f)
    requires IsWritable(sys, fds, 1) && fds[1] == id
    ensures var o := Exec(sys, fds, c, redirected, env, programs);
            var offset := OffsetRead(sys, fds, f, id, o.entry.ran);
            && id < |o.sys.opens|
            && PositionOf(o.sys, f, id)
               == Position(WriteAt(Contents(sys, f), offset, o.entry.output), offset + |o.entry.output|)
  {
    if c.argv != [] && programs.found(c.argv[0], sys.files) {
      var exit := programs.run(c.argv, Remaining(sys, fds, 0, env.typed), sys.files);
      var next := AfterReading(sys, fds, 0);
      ReadingIsHarmless(sys, fds, 0);
      ReadingMoves(sys, fds, f, id);
      WriteAllAt(next, fds, 1, exit.writes);
      WriteAllMoves(next, fds, 1, exit.writes);
    }
  }

  /** A program that does not: it can only move the offset, by reading. */
  lemma ExecBeside(sys: System, fds: FdTable, c: Command, redirected: bool, env: Env, programs: Programs,
                   f: bytes, id: nat)
    requires id < |sys.opens| && sys.opens[id].target == File(f)
    requires !(IsWritable(sys, fds, 1) && fds[1] == id)
    ensures var o := Exec(sys, fds, c, redirected, env, programs);
            && id < |o.sys.opens|
            && o.sys.opens[id].offset == OffsetRead(sys, fds, f, id, o.entry.ran)
  {
    if c.argv != [] && programs.found(c.argv[0], sys.files) {
      var exit := programs.run(c.argv, Remaining(sys, fds, 0, env.typed), sys.files);
      var next := AfterReading(sys, fds, 0);
      ReadingIsHarmless(sys, fds, 0);
      ReadingMoves(sys, fds, f, id);
      if IsWritable(next, fds, 1) {
        WriteAllOthers(next, fds, 1, exit.writes, id);
      } else {
        WriteAllNowhere(next, fds, 1, exit.writes);
      }
    }
  }

  /** What a child's table after a redirection has to do with the shell's own standard output. */
  lemma RedirectedOwn(sys: System, fds: FdTable, r: Redirect, f: bytes)
    requires ValidTable(fds, sys.opens) && IsOwn(sys, fds, f)
    ensures var k := StandardFd(r.kind);
            var next, table := OpenFiles(sys, r.target, FlagsOf(r.kind)), RedirectedTable(fds, |sys.opens|, k);
            && IsWritable(next, table, 1)
            && table[1] == (if k == 0 then fds[1] else |sys.opens|)
            && (IsReadable(next, table, 0) && table[0] == fds[1] <==> ReadsOwn(sys, fds) && k == 1)
  {
    RedirectSteps(fds, |sys.opens|, StandardFd(r.kind));
    StandardDescriptors(fds);
  }

  /** The same for a child with an opened redirection. */
  lemma RedirectedAdvances(sys: System, fds: FdTable, c: Command, r: Redirect, env: Env, programs: Programs, f: bytes)
    requires ValidTable(fds, sys.opens) && !AppendsIfOwn(sys, fds, f)
    requires c.redirect == Some(r) && (FlagsOf(r.kind).create || r.target in sys.files)
    ensures var next := OpenFiles(sys, r.target, FlagsOf(r.kind));
            var o := Exec(next, RedirectedTable(fds, |sys.opens|, StandardFd(r.kind)), c, true, env, programs);
            && fds[1] < |o.sys.opens|
            && PositionOf(o.sys, f, fds[1])
               == Advance(PositionOf(sys, f, fds[1]), o.entry, f, ReadsOwn(sys, fds))
  {
    var k := StandardFd(r.kind);
    var next, table := OpenFiles(sys, r.target, FlagsOf(r.kind)), RedirectedTable(fds, |sys.opens|, k);
    RedirectedOwn(sys, fds, r, f);
    if k == 0 {
      ExecOverwrites(next, table, c, true, env, programs, f, fds[1]);
    } else {
      ExecBeside(next, table, c, true, env, programs, f, fds[1]);
      if r.target == f {
        ExecAppends(next, table, c, true, env, programs, f);
      } else {
        ExecElsewhere(next, table, c, true, env, programs, f);
      }
    }
  }

  /** What one command does to the file that is the shell's own standard output, not opened for
      appending. */
  lemma StepAdvances(sys: System, fds: FdTable, c: Command, env: Env, programs: Programs, f: bytes)
    requires ValidTable(fds, sys.opens) && !AppendsIfOwn(sys, fds, f)
    ensures var o := Step(sys, fds, c, env, programs);
            && fds[1] < |o.sys.opens|
            && PositionOf(o.sys, f, fds[1])
               == Advance(PositionOf(sys, f, fds[1]), o.entry, f, ReadsOwn(sys, fds))
  {
    if c.redirect == None {
      ExecOverwrites(sys, fds, c, false, env, programs, f, fds[1]);
    } else if CanOpen(sys, c.redirect.value.target, FlagsOf(c.redirect.value.kind), env.permitted) {
      RedirectedAdvances(sys, fds, c, c.redirect.value, env, programs, f);
    }
  }

  /** What one command does to any file. */
  lemma StepContents(sys: System, fds: FdTable, c: Command, env: Env, programs: Programs, f: bytes)
    requires ValidTable(fds, sys.opens)
    ensures var o := Step(sys, fds, c, env, programs);
            if AppendsIfOwn(sys, fds, f) then
              Contents(o.sys, f)
              == (if Truncates(o.entry, f) then [] else Contents(sys, f))
                 + (if LowestFree(fds) != 1 then OutputTo(o.entry, f, IsOwn(sys, fds, f)) else [])
            else
              && fds[1] < |o.sys.opens|
              && PositionOf(o.sys, f, fds[1])
                 == Advance(PositionOf(sys, f, fds[1]), o.entry, f, ReadsOwn(sys, fds))
  {
    if AppendsIfOwn(sys, fds, f) {
      StepAppends(sys, fds, c, env, programs, f);
    } else {
      StepAdvances(sys, fds, c, env, programs, f);
    }
  }

  /** A file's contents as its log entries are replayed one by one; undelivered output is lost. */
  function Replay(log: seq<Entry>, f: bytes, own: bool, initial: bytes, delivered: bool): bytes {
    if log == [] then initial else
      var e := log[|log| - 1];
      (if Truncates(e, f) then [] else Replay(log[..|log| - 1], f, own, initial, delivered))
      + (if delivered then OutputTo(e, f, own) else [])
  }

  /** Replaying a log leaves what was kept and, if delivered, the outputs since the last truncation. */
  lemma {:induction false} ReplayClosedForm(log: seq<Entry>, f: bytes, own: bool, initial: bytes, delivered: bool)
    ensures Replay(log, f, own, initial, delivered)
         == Kept(log, f, initial) + if delivered then RecentOutput(log, f, own) else []
    decreases |log|
  {
    if log != [] {
      var last := |log| - 1;
      var earlier, e := log[..last], log[last];
      var more := OutputTo(e, f, own);
      if Truncates(e, f) {
        assert LastTruncation(log, f) == last;
        assert OutputsSince(log, last, f, own) == [] + more;
      } else {
        var from := LastTruncation(earlier, f);
        var kept, outputs := Kept(earlier, f, initial), RecentOutput(earlier, f, own);
        ReplayClosedForm(earlier, f, own, initial, delivered);
        assert LastTruncation(log, f) == from;
        assert Kept(log, f, initial) == kept;
        assert OutputsSince(log, from, f, own) == outputs + more;
        Associate(kept, outputs, more);
        assert kept + [] == kept && kept + [] + [] == kept;
        assert Replay(log, f, own, initial, delivered)
            == kept + (if delivered then outputs else []) + (if delivered then more else []);
      }
    }
  }

  /** The shell's standard output stays the file it is. */
  lemma OwnStays(sys: System, fds: FdTable, after: System, f: bytes)
    requires ValidTable(fds, sys.opens) && SameFiles(sys.opens, after.opens)
    ensures IsOwn(after, fds, f) <==> IsOwn(sys, fds, f)
    ensures AppendsIfOwn(after, fds, f) <==> AppendsIfOwn(sys, fds, f)
    ensures ReadsOwn(after, fds) <==> ReadsOwn(sys, fds)
  {
  }

  /** The replay of a log on a file that is the shell's own standard output, not opened for appending. */
  function ReplayAt(log: seq<Entry>, f: bytes, readsOwn: bool, initial: Position): Position {
    if log == [] then initial
    else Advance(ReplayAt(log[..|log| - 1], f, readsOwn, initial), log[|log| - 1], f, readsOwn)
  }

  /** One entry more in a replay. */
  lemma ReplayExtends(log: seq<Entry>, e: Entry, f: bytes, own: bool, initial: bytes, delivered: bool)
    ensures Replay(log + [e], f, own, initial, delivered)
         == (if Truncates(e, f) then [] else Replay(log, f, own, initial, delivered))
            + (if delivered then OutputTo(e, f, own) else [])
  {
    assert (log + [e])[..|log|] == log;
  }

  /** One command more, when nothing overwrites. */
  lemma StepReplays(sys: System, fds: FdTable, h: History, c: Command, env: Env, programs: Programs, f: bytes)
    requires ValidTable(fds, sys.opens) && AppendsIfOwn(sys, fds, f) && SameFiles(sys.opens, h.sys.opens)
    requires Contents(h.sys, f)
          == Replay(h.log, f, IsOwn(sys, fds, f), Contents(sys, f), LowestFree(fds) != 1)
    ensures var o := Step(h.sys, fds, c, env, programs);
            Contents(o.sys, f)
            == Replay(h.log + [o.entry], f, IsOwn(sys, fds, f), Contents(sys, f), LowestFree(fds) != 1)
  {
    var e := Step(h.sys, fds, c, env, programs).entry;
    OwnStays(sys, fds, h.sys, f);
    StepAppends(h.sys, fds, c, env, programs, f);
    ReplayExtends(h.log, e, f, IsOwn(sys, fds, f), Contents(sys, f), LowestFree(fds) != 1);
  }

  /** One command more, when the shell's own standard output may be overwritten. */
  lemma StepReplaysAt(sys: System, fds: FdTable, h: History, c: Command, env: Env, programs: Programs, f: bytes)
    requires ValidTable(fds, sys.opens) && !AppendsIfOwn(sys, fds, f) && SameFiles(sys.opens, h.sys.opens)
    requires PositionOf(h.sys, f, fds[1]) == ReplayAt(h.log, f, ReadsOwn(sys, fds), PositionOf(sys, f, fds[1]))
    ensures var o := Step(h.sys, fds, c, env, programs);
            && fds[1] < |o.sys.opens|
            && PositionOf(o.sys, f, fds[1])
               == ReplayAt(h.log + [o.entry], f, ReadsOwn(sys, fds), PositionOf(sys, f, fds[1]))
  {
    var e := Step(h.sys, fds, c, env, programs).entry;
    OwnStays(sys, fds, h.sys, f);
    StepAdvances(h.sys, fds, c, env, programs, f);
    assert (h.log + [e])[..|h.log|] == h.log;
  }

  lemma {:induction false} RunAppends(sys: System, fds: FdTable, commands: seq<Command>, envs: seq<Env>,
                                      programs: Programs, n: nat, f: bytes)
    requires n <= |commands| == |envs| && ValidTable(fds, sys.opens) && AppendsIfOwn(sys, fds, f)
    ensures var h := Run(sys, fds, commands, envs, programs, n);
            Contents(h.sys, f) == Replay(h.log, f, IsOwn(sys, fds, f), Contents(sys, f), LowestFree(fds) != 1)
    decreases n
  {
    if n > 0 {
      RunAppends(sys, fds, commands, envs, programs, n - 1, f);
      RunKeepsFiles(sys, fds, commands, envs, programs, n - 1);
      var h := Run(sys, fds, commands, envs, programs, n - 1);
      StepReplays(sys, fds, h, commands[n - 1], envs[n - 1], programs, f);
    }
  }

  lemma {:induction false} RunAdvances(sys: System, fds: FdTable, commands: seq<Command>, envs: seq<Env>,
                                       programs: Programs, n: nat, f: bytes)
    requires n <= |commands| == |envs| && ValidTable(fds, sys.opens) && !AppendsIfOwn(sys, fds, f)
    ensures var h := Run(sys, fds, commands, envs, programs, n);
            && fds[1] < |h.sys.opens|
            && PositionOf(h.sys, f, fds[1]) == ReplayAt(h.log, f, ReadsOwn(sys, fds), PositionOf(sys, f, fds[1]))
    decreases n
  {
    if n > 0 {
      RunAdvances(sys, fds, commands, envs, programs, n - 1, f);
      RunKeepsFiles(sys, fds, commands, envs, programs, n - 1);
      var h := Run(sys, fds, commands, envs, programs, n - 1);
      StepReplaysAt(sys, fds, h, commands[n - 1], envs[n - 1], programs, f);
    }
  }

  /** The file's contents after any session: a replay of the log. */
  lemma RunContents(sys: System, fds: FdTable, commands: seq<Command>, envs: seq<Env>, programs: Programs,
                    n: nat, f: bytes)
    requires n <= |commands| == |envs| && ValidTable(fds, sys.opens)
    ensures var h := Run(sys, fds, commands, envs, programs, n);
            if AppendsIfOwn(sys, fds, f) then
              Contents(h.sys, f) == Replay(h.log, f, IsOwn(sys, fds, f), Contents(sys, f), LowestFree(fds) != 1)
            else
              && fds[1] < |h.sys.opens|
              && PositionOf(h.sys, f, fds[1])
                 == ReplayAt(h.log, f, ReadsOwn(sys, fds), PositionOf(sys, f, fds[1]))
  {
    if AppendsIfOwn(sys, fds, f) {
      RunAppends(sys, fds, commands, envs, programs, n, f);
    } else {
      RunAdvances(sys, fds, commands, envs, programs, n, f);
    }
  }

  lemma ExecNames(sys: System, fds: FdTable, c: Command, redirected: bool, env: Env, programs: Programs, f: bytes)
    ensures var o := Exec(sys, fds, c, redirected, env, programs);
            && (f in sys.files ==> f in o.sys.files)
            && (!IsOwn(sys, fds, f) && f in o.sys.files ==> f in sys.files)
  {
    if !IsOwn(sys, fds, f) {
      ExecElsewhere(sys, fds, c, redirected, env, programs, f);
    } else if f in sys.files && c.argv != [] && programs.found(c.argv[0], sys.files) {
      ReadingIsHarmless(sys, fds, 0);
      var exit := programs.run(c.argv, Remaining(sys, fds, 0, env.typed), sys.files);
      WriteAllKeepsNames(AfterReading(sys, fds, 0), fds, 1, exit.writes, f);
    }
  }

  /** One command creates `f` exactly by opening it for writing. */
  lemma StepCreates(sys: System, fds: FdTable, c: Command, env: Env, programs: Programs, f: bytes)
    requires ValidTable(fds, sys.opens) && (IsOwn(sys, fds, f) ==> f in sys.files)
    ensures var o := Step(sys, fds, c, env, programs);
            f in o.sys.files <==> f in sys.files || WritesTo(o.entry, f)
  {
    if c.redirect == None {
      ExecNames(sys, fds, c, false, env, programs, f);
    } else {
      var r := c.redirect.value;
      var flags, k := FlagsOf(r.kind), StandardFd(r.kind);
      if CanOpen(sys, r.target, flags, env.permitted) {
        RedirectSteps(fds, |sys.opens|, k);
        ExecNames(OpenFiles(sys, r.target, flags), RedirectedTable(fds, |sys.opens|, k), c, true, env, programs, f);
      }
    }
  }

  /** A file exists after a session exactly if it did before or was opened for writing; the shell's own
      standard output, being open, exists from the start. */
  lemma {:induction false} RunCreates(sys: System, fds: FdTable, commands: seq<Command>, envs: seq<Env>,
                                      programs: Programs, n: nat, f: bytes)
    requires n <= |commands| == |envs|
    requires ValidTable(fds, sys.opens) && (IsOwn(sys, fds, f) ==> f in sys.files)
    ensures var h := Run(sys, fds, commands, envs, programs, n);
            f in h.sys.files <==> f in sys.files || exists i :: 0 <= i < |h.log| && WritesTo(h.log[i], f)
    decreases n
  {
    if n > 0 {
      var h := Run(sys, fds, commands, envs, programs, n - 1);
      var full := Run(sys, fds, commands, envs, programs, n);
      RunCreates(sys, fds, commands, envs, programs, n - 1, f);
      RunKeepsFiles(sys, fds, commands, envs, programs, n - 1);
      OwnStays(sys, fds, h.sys, f);
      StepCreates(h.sys, fds, commands[n - 1], envs[n - 1], programs, f);
      assert forall i :: 0 <= i < n - 1 ==> full.log[i] == h.log[i];
      assert WritesTo(full.log[n - 1], f) ==> f in full.sys.files;
    }
  }

  /** At this point of this session, `f` holds its first contents, unless truncated, and behind them
      the outputs that belong into it since the last successful `>`. */
  ghost predicate FileLaw(sys: System, fds: FdTable, h: History, f: bytes) {
    Contents(h.sys, f) == Kept(h.log, f, Contents(sys, f)) + RecentOutput(h.log, f, IsOwn(sys, fds, f))
  }

  /** What any file holds at any point of any session. Unless `f` is the shell's own standard output,
      not opened for appending, the law holds exactly when the shell was not started with 0 open and 1
      closed, or there was nothing to write; in that other case the contents are those of the replay
      at the shared offset. */
  lemma FileContents(sys: System, fds: FdTable, commands: seq<Command>, envs: seq<Env>, programs: Programs,
                     n: nat, f: bytes)
    requires n <= |commands| == |envs| && ValidTable(fds, sys.opens)
    ensures var h := Run(sys, fds, commands, envs, programs, n);
            if AppendsIfOwn(sys, fds, f) then
              FileLaw(sys, fds, h, f)
              <==> (0 !in fds || 1 in fds || RecentOutput(h.log, f, IsOwn(sys, fds, f)) == [])
            else
              Contents(h.sys, f) == ReplayAt(h.log, f, ReadsOwn(sys, fds), PositionOf(sys, f, fds[1])).content
  {
    RunContents(sys, fds, commands, envs, programs, n, f);
    StandardDescriptors(fds);
    if AppendsIfOwn(sys, fds, f) {
      var h, own := Run(sys, fds, commands, envs, programs, n), IsOwn(sys, fds, f);
      ReplayClosedForm(h.log, f, own, Contents(sys, f), LowestFree(fds) != 1);
      var kept, outputs := Kept(h.log, f, Contents(sys, f)), RecentOutput(h.log, f, own);
      assert |kept + outputs| == |kept| + |outputs|;
    }
  }

  /** `x > f` */
  function Writer(f: bytes): Command {
    Command([[120]], Some(Redirect(Truncate, f)))
  }

  /** `x` */
  const PLAIN_X := Command([[120]], None)

  /** Some program, which writes one byte. */
  const ONE_BYTE := Programs((name, files) => true, (argv, stdin, files) => Exit([[120]], 0))

  const QUIET := Env(true, [], 0)

  lemma OneByteWritten()
    ensures Concat([[120]]) == [120]
  {
    assert Concat([[120]]) == [120] + Concat([[120]][1..]);
  }

  /** With 0 open and 1 closed, `x > f` leaves `f` empty although one byte was written. */
  lemma LostOutput(sys: System, fds: FdTable, f: bytes)
    requires 0 in fds && 1 !in fds && ValidTable(fds, sys.opens) && f != []
    ensures var h := Run(sys, fds, [Writer(f)], [QUIET], ONE_BYTE, 1);
            && Contents(h.sys, f) == []
            && RecentOutput(h.log, f, false) == [120]
            && !FileLaw(sys, fds, h, f)
  {
    var h := Run(sys, fds, [Writer(f)], [QUIET], ONE_BYTE, 1);
    var e := Step(sys, fds, Writer(f), QUIET, ONE_BYTE).entry;
    RunOnce(sys, fds, Writer(f), QUIET, ONE_BYTE);
    OneByteWritten();
    assert e.command == Writer(f) && e.redirected && e.output == [120];
    assert Truncates(e, f);
    assert LastTruncation([e], f) == 0;
    assert OutputsSince([e], 0, f, false) == [120] by {
      assert [e][..0] == [];
    }
    StandardDescriptors(fds);
    StepAppends(sys, fds, Writer(f), QUIET, ONE_BYTE, f);
    assert Kept(h.log, f, Contents(sys, f)) == [];
  }

  /** `x; x; x > f; x` */
  function Overwriters(f: bytes): seq<Command> {
    [PLAIN_X, PLAIN_X, Writer(f), PLAIN_X]
  }

  const QUIET_FOUR := [QUIET, QUIET, QUIET, QUIET]

  /** What each of these commands logs. */
  lemma OneByteStep(sys: System, fds: FdTable, c: Command, f: bytes)
    requires f != [] && (c == PLAIN_X || c == Writer(f))
    ensures var e := Step(sys, fds, c, QUIET, ONE_BYTE).entry;
            e == Entry(c, c != PLAIN_X, true, e.stdin, [120], 0)
  {
    OneByteWritten();
  }

  /** Its log. */
  ghost predicate IsOverwritersLog(log: seq<Entry>, f: bytes) {
    && |log| == 4
    && forall i :: 0 <= i < 4 ==>
         log[i] == Entry(Overwriters(f)[i], i == 2, true, log[i].stdin, [120], 0)
  }

  lemma OverwritersLog(sys: System, fds: FdTable, f: bytes)
    requires f != []
    ensures IsOverwritersLog(Run(sys, fds, Overwriters(f), QUIET_FOUR, ONE_BYTE, 4).log, f)
  {
    var commands := Overwriters(f);
    var log := Run(sys, fds, commands, QUIET_FOUR, ONE_BYTE, 4).log;
    forall i | 0 <= i < 4
      ensures log[i] == Entry(commands[i], i == 2, true, log[i].stdin, [120], 0)
    {
      LogEntry(sys, fds, commands, QUIET_FOUR, ONE_BYTE, 4, i);
      OneByteStep(Run(sys, fds, commands, QUIET_FOUR, ONE_BYTE, i).sys, fds, commands[i], f);
    }
  }

  /** Four such entries leave at least three bytes: the `>` empties the file but leaves the shell's own
      offset where it was, two bytes or more from the start. */
  lemma OverwritersReplay(log: seq<Entry>, f: bytes, readsOwn: bool, initial: Position)
    requires IsOverwritersLog(log, f)
    ensures |ReplayAt(log, f, readsOwn, initial).content| >= 3
  {
    var s1 := Advance(initial, log[0], f, readsOwn);
    var s2 := Advance(s1, log[1], f, readsOwn);
    var s3 := Advance(s2, log[2], f, readsOwn);
    assert log[..3][..2] == log[..2] && log[..2][..1] == log[..1] && log[..1][..0] == [];
    assert ReplayAt(log[..1], f, readsOwn, initial) == s1;
    assert ReplayAt(log[..2], f, readsOwn, initial) == s2;
    assert ReplayAt(log[..3], f, readsOwn, initial) == s3;
    assert s2.offset >= 2 && s3.offset >= 2;
    WriteAtBytes(s3.content, s3.offset, [120], s3.offset);
  }

  /** The law allows two of them. */
  lemma OverwritersExpected(log: seq<Entry>, f: bytes, initial: bytes)
    requires IsOverwritersLog(log, f)
    ensures Kept(log, f, initial) == [] && |RecentOutput(log, f, true)| == 2
  {
    assert log[..3][..2] == log[..2];
    assert LastTruncation(log, f) == LastTruncation(log[..3], f) == 2;
    assert OutputsSince(log[..2], 2, f, true) == [];
    assert OutputsSince(log[..3], 2, f, true) == [] + [120];
    assert OutputsSince(log, 2, f, true) == [] + [120] + [120];
  }

  /** When `f` is the shell's own standard output, not opened for appending, the session
      `x; x; x > f; x` breaks the law, whatever `f` held and wherever the offset was. */
  lemma OverwrittenOutput(sys: System, fds: FdTable, f: bytes)
    requires ValidTable(fds, sys.opens) && f != [] && !AppendsIfOwn(sys, fds, f)
    ensures var h := Run(sys, fds, Overwriters(f), QUIET_FOUR, ONE_BYTE, 4);
            |Contents(h.sys, f)| >= 3 && !FileLaw(sys, fds, h, f)
  {
    var log := Run(sys, fds, Overwriters(f), QUIET_FOUR, ONE_BYTE, 4).log;
    OverwritersLog(sys, fds, f);
    FileContents(sys, fds, Overwriters(f), QUIET_FOUR, ONE_BYTE, 4, f);
    OverwritersReplay(log, f, ReadsOwn(sys, fds), PositionOf(sys, f, fds[1]));
    OverwritersExpected(log, f, Contents(sys, f));
  }

  /** A start of the shell from which every session keeps the law for every file. */
  ghost predicate KeepsFileLaw(sys: System, fds: FdTable) {
    forall commands: seq<Command>, envs: seq<Env>, programs: Programs, n: nat, f: bytes
      | n <= |commands| == |envs| && f != [] ::
      FileLaw(sys, fds, Run(sys, fds, commands, envs, programs, n), f)
  }

  /** These are exactly the starts with 0 closed or 1 open, and with standard output, if it is a file,
      opened for appending. */
  lemma FileLawForAll(sys: System, fds: FdTable)
    requires ValidTable(fds, sys.opens)
    ensures KeepsFileLaw(sys, fds)
       <==> (0 !in fds || 1 in fds) && forall f :: f != [] ==> AppendsIfOwn(sys, fds, f)
  {
    if 0 in fds && 1 !in fds {
      LostOutput(sys, fds, [102]);
    } else if f: bytes :| f != [] && !AppendsIfOwn(sys, fds, f) {
      OverwrittenOutput(sys, fds, f);
    } else {
      forall commands: seq<Command>, envs: seq<Env>, programs: Programs, n: nat, f: bytes
        | n <= |commands| == |envs| && f != []
        ensures FileLaw(sys, fds, Run(sys, fds, commands, envs, programs, n), f)
      {
        FileContents(sys, fds, commands, envs, programs, n, f);
      }
    }
  }
}
