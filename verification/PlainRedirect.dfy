/** The small program that sends its own output to a log file, opened without truncation. */
module PlainRedirect {
  import opened Bytes
  import opened Posix
  import opened Session
  import CommandLine

  /** "log.txt" */
  const LOG: bytes := [108, 111, 103, 46, 116, 120, 116]

  const PLAIN := Flags(WriteOnly, true, false, false)

  /** What is on the file after `output` has been written over the old contents. */
  function Overwritten(before: bytes, output: bytes): bytes {
    output + if |output| < |before| then before[|output|..] else []
  }

  /** The state after `open`, `close(1)`, `dup2` and the program's output. */
  function After(sys: System, fds: FdTable, flags: Flags, pieces: seq<bytes>): System {
    WriteAll(OpenFiles(sys, LOG, flags), RedirectedTable(fds, |sys.opens|, 1), 1, pieces)
  }

  /** The program; `pieces` is its output as the stream buffer hands it on. */
  method LogOutput(kernel: Kernel, self: Process, permitted: bool, pieces: seq<bytes>) returns (code: int)
    modifies kernel, self
    ensures if permitted then
              && code == 0
              && kernel.View() == After(old(kernel.View()), old(self.fds), PLAIN, pieces)
              && self.fds == RedirectedTable(old(self.fds), |old(kernel.opens)|, 1)
            else
              code == 1 && kernel.View() == old(kernel.View()) && self.fds == old(self.fds)
  {
    var fd := kernel.Open(self, LOG, PLAIN, permitted);
    if fd < 0 {
      return 1;
    }
    kernel.CloseFd(self, 1);
    kernel.DuplicateFd(self, fd, 1);
    kernel.WritePieces(self, 1, pieces);
    code := 0;
  }

  lemma LogName()
    ensures Ascii("log.txt") == LOG
  {
  }

  lemma OneWrite(before: bytes, output: bytes)
    requires output != []
    ensures WriteAt(before, 0, output) == Overwritten(before, output)
  {
    assert WriteAt(before, 0, output) == [] + output + if |output| < |before| then before[|output|..] else [];
  }

  /** Output through a log file just opened. */
  lemma LogWritten(next: System, table: FdTable, before: bytes, output: bytes)
    requires 1 in table && table[1] < |next.opens|
    requires next.opens[table[1]] == OpenFile(File(LOG), WriteOnly, false, 0)
    requires LOG in next.files && next.files[LOG] == before
    ensures var after := Write(next, table, 1, output);
            && after.console == next.console
            && after.files == next.files[LOG := Overwritten(before, output)]
  {
    if output == [] {
      assert Overwritten(before, output) == before;
    } else {
      WriteToFile(next, table, 1, output);
      OneWrite(before, output);
    }
  }

  /** What either way of opening leaves. */
  lemma WrittenToLog(sys: System, fds: FdTable, flags: Flags, pieces: seq<bytes>)
    requires flags.access == WriteOnly && flags.create && !flags.append
    ensures var after := After(sys, fds, flags, pieces);
            var before := if flags.truncate then [] else Contents(sys, LOG);
            && after.console == sys.console
            && after.files
               == sys.files[LOG := if 0 in fds && 1 !in fds then before else Overwritten(before, Concat(pieces))]
  {
    var next, table := OpenFiles(sys, LOG, flags), RedirectedTable(fds, |sys.opens|, 1);
    var before, output := if flags.truncate then [] else Contents(sys, LOG), Concat(pieces);
    RedirectSteps(fds, |sys.opens|, 1);
    StandardDescriptors(fds);
    WriteAllOnce(next, table, 1, pieces);
    assert next.files == sys.files[LOG := before];
    if 0 in fds && 1 !in fds {
      assert !IsWritable(next, table, 1);
    } else {
      LogWritten(next, table, before, output);
      assert next.files[LOG := Overwritten(before, output)] == sys.files[LOG := Overwritten(before, output)];
    }
  }

  /** Without truncation the new output stands in front of what is left of the old contents; if
      descriptor 0 was open and 1 closed, nothing is written at all. Nothing else changes. */
  lemma PlainContents(sys: System, fds: FdTable, pieces: seq<bytes>)
    ensures var log, after := Ascii("log.txt"), After(sys, fds, PLAIN, pieces);
            && after.console == sys.console
            && after.files
               == sys.files[log := if 0 in fds && 1 !in fds then Contents(sys, log)
                                   else Overwritten(Contents(sys, log), Concat(pieces))]
  {
    LogName();
    WrittenToLog(sys, fds, PLAIN, pieces);
  }

  /** With truncation, as the shell's `>` has it, only the new output is there, or nothing at all. */
  lemma TruncatingContents(sys: System, fds: FdTable, pieces: seq<bytes>)
    ensures var log, after := Ascii("log.txt"), After(sys, fds, FlagsOf(CommandLine.Truncate), pieces);
            && after.console == sys.console
            && after.files == sys.files[log := if 0 in fds && 1 !in fds then [] else Concat(pieces)]
  {
    LogName();
    WrittenToLog(sys, fds, FlagsOf(CommandLine.Truncate), pieces);
    assert Overwritten([], Concat(pieces)) == Concat(pieces);
  }

  /** The two ways of opening agree exactly when the output covers the old contents or, if it is lost,
      when there were none. */
  lemma PlainVersusTruncating(sys: System, fds: FdTable, pieces: seq<bytes>)
    ensures var log := Ascii("log.txt");
            var plain := After(sys, fds, PLAIN, pieces);
            var truncating := After(sys, fds, FlagsOf(CommandLine.Truncate), pieces);
            Contents(plain, log) == Contents(truncating, log)
            <==> if 0 in fds && 1 !in fds then Contents(sys, log) == [] else |Concat(pieces)| >= |Contents(sys, log)|
  {
    PlainContents(sys, fds, pieces);
    TruncatingContents(sys, fds, pieces);
  }
}
