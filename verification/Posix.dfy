/** Descriptor tables, open files and file contents, as far as `open`, `close`, `dup2`, `fork`,
    `read` and `write` of POSIX.1-2017 fix them. */
module Posix {
  import opened Bytes

  datatype Access = ReadOnly | WriteOnly | ReadWrite

  datatype Target = File(path: bytes) | Device

  /** An open file description; descriptors of several processes may share it, offset included. */
  datatype OpenFile = OpenFile(target: Target, access: Access, append: bool, offset: nat)

  /** From descriptors to open file descriptions, by index. */
  type FdTable = map<nat, nat>

  /** Everything processes share. `console` is what has been written to the terminal. */
  datatype System = System(files: map<bytes, bytes>, opens: seq<OpenFile>, console: bytes)

  datatype Flags = Flags(access: Access, create: bool, truncate: bool, append: bool)

  /** Every descriptor refers to an open file. */
  ghost predicate ValidTable(fds: FdTable, opens: seq<OpenFile>) {
    forall fd :: fd in fds ==> fds[fd] < |opens|
  }

  /** The lowest descriptor from `i` on that is not in use. */
  function LowestFreeFrom(fds: FdTable, i: nat): (fd: nat)
    ensures i <= fd && fd !in fds
    ensures forall d :: i <= d < fd ==> d in fds
    decreases |fds|
  {
    if i !in fds then i else
      var rest := fds - {i};
      assert rest.Keys == fds.Keys - {i};
      assert |rest.Keys| < |fds.Keys|;
      var fd := LowestFreeFrom(rest, i + 1);
      assert forall d :: i <= d < fd ==> d in fds by {
        forall d | i < d < fd ensures d in fds {
          assert d in rest;
        }
      }
      fd
  }

  function LowestFree(fds: FdTable): (fd: nat)
    ensures fd !in fds
    ensures forall d :: 0 <= d < fd ==> d in fds
  {
    LowestFreeFrom(fds, 0)
  }

  function Close(fds: FdTable, fd: nat): FdTable {
    fds - {fd}
  }

  /** Without an open `oldfd`, `dup2` fails and changes nothing. */
  function Dup2(fds: FdTable, oldfd: nat, newfd: nat): FdTable {
    if oldfd in fds then fds[newfd := fds[oldfd]] else fds
  }

  /** `permitted` is the environment's say: permissions, limits, the kind of file. */
  predicate CanOpen(sys: System, path: bytes, flags: Flags, permitted: bool) {
    permitted && path != [] && (flags.create || path in sys.files)
  }

  function OpenFiles(sys: System, path: bytes, flags: Flags): System {
    sys.(
      files := if flags.truncate || path !in sys.files then sys.files[path := []] else sys.files,
      opens := sys.opens + [OpenFile(File(path), flags.access, flags.append, 0)])
  }

  /** File contents after writing `data` at `offset`; a gap is filled with NULs. */
  function WriteAt(content: bytes, offset: nat, data: bytes): bytes {
    if data == [] then content else
      var end := offset + |data|;
      (if offset <= |content| then content[..offset] else content + seq(offset - |content|, _ => NUL))
      + data
      + (if end <= |content| then content[end..] else [])
  }

  /** Byte for byte: the data where it was written, the old contents elsewhere, NULs in a gap. */
  lemma WriteAtBytes(content: bytes, offset: nat, data: bytes, k: nat)
    requires data != []
    ensures var after := WriteAt(content, offset, data);
            && (k < |after| <==> k < |content| || k < offset + |data|)
            && (k < |after| ==>
                  after[k] == if offset <= k < offset + |data| then data[k - offset]
                              else if k < |content| then content[k]
                              else NUL)
  {
    var end := offset + |data|;
    var front := if offset <= |content| then content[..offset] else content + seq(offset - |content|, _ => NUL);
    var tail := if end <= |content| then content[end..] else [];
    assert WriteAt(content, offset, data) == front + data + tail;
    assert |front| == offset;
  }

  function Contents(sys: System, path: bytes): bytes {
    if path in sys.files then sys.files[path] else []
  }

  predicate IsOpen(sys: System, fds: FdTable, fd: nat) {
    fd in fds && fds[fd] < |sys.opens|
  }

  predicate IsWritable(sys: System, fds: FdTable, fd: nat) {
    IsOpen(sys, fds, fd) && sys.opens[fds[fd]].access != ReadOnly
  }

  predicate IsReadable(sys: System, fds: FdTable, fd: nat) {
    IsOpen(sys, fds, fd) && sys.opens[fds[fd]].access != WriteOnly
  }

  /** One `write`; of no bytes, or on a descriptor that cannot be written, it changes nothing. */
  function Write(sys: System, fds: FdTable, fd: nat, data: bytes): System {
    if data == [] || !IsWritable(sys, fds, fd) then sys else
      var id := fds[fd];
      var file := sys.opens[id];
      match file.target
      case Device => sys.(console := sys.console + data)
      case File(path) =>
        var content := Contents(sys, path);
        var at := if file.append then |content| else file.offset;
        sys.(
          files := sys.files[path := WriteAt(content, at, data)],
          opens := sys.opens[id := file.(offset := at + |data|)])
  }

  /** A program's writes to one descriptor, in order. */
  function WriteAll(sys: System, fds: FdTable, fd: nat, writes: seq<bytes>): System
    decreases |writes|
  {
    if writes == [] then sys else WriteAll(Write(sys, fds, fd, writes[0]), fds, fd, writes[1..])
  }

  /** What reading a descriptor to its end yields; `typed` is what the terminal would deliver. */
  function Remaining(sys: System, fds: FdTable, fd: nat, typed: bytes): bytes {
    if !IsReadable(sys, fds, fd) then [] else
      var file := sys.opens[fds[fd]];
      match file.target
      case Device => typed
      case File(path) =>
        if file.offset <= |Contents(sys, path)| then Contents(sys, path)[file.offset..] else []
  }

  /** Reading to the end moves the shared offset there. */
  function AfterReading(sys: System, fds: FdTable, fd: nat): System {
    if !IsReadable(sys, fds, fd) || sys.opens[fds[fd]].target == Device then sys else
      var id := fds[fd];
      var file := sys.opens[id];
      var rest := |Remaining(sys, fds, fd, [])|;
      sys.(opens := sys.opens[id := file.(offset := file.offset + rest)])
  }

  /** `open; close(k); dup2(fd, k)` leaves `k` on the new file if and only if the lowest free
      descriptor was not `k` itself; otherwise all three steps together change nothing. When `k` was
      open to begin with, the `close` is superfluous. */
  lemma RedirectSteps(fds: FdTable, id: nat, k: nat)
    ensures var fd := LowestFree(fds);
            var table := fds[fd := id];
            var after := Dup2(Close(table, k), fd, k);
            && ((k in after && after[k] == id) <==> fd != k)
            && after == (if fd != k then table[k := id] else fds)
            && (k in fds ==> fd != k && after == Dup2(table, fd, k))
  {
    var fd := LowestFree(fds);
    if fd == k {
      assert Close(fds[fd := id], k) == fds;
    }
  }

  /** For the standard descriptors the failing case can be told from the table: output fails when 0
      is open and 1 is not, input when 0 is not open. */
  lemma StandardDescriptors(fds: FdTable)
    ensures LowestFree(fds) == 1 <==> 0 in fds && 1 !in fds
    ensures LowestFree(fds) == 0 <==> 0 !in fds
  {
    var fd := LowestFree(fds);
    assert fd > 0 ==> 0 in fds;
    assert fd > 1 ==> 1 in fds;
  }

  /** Reading and writing change nothing about the open files but their offsets. */
  ghost predicate SameFiles(before: seq<OpenFile>, after: seq<OpenFile>) {
    && |before| <= |after|
    && forall i :: 0 <= i < |before| ==> after[i] == before[i].(offset := after[i].offset)
  }

  /** Where `WriteAt` puts data behind a beginning of the file that is kept or filled up. */
  function Padded(content: bytes, at: nat): (front: bytes)
    ensures |front| == at
  {
    if at <= |content| then content[..at] else content + seq(at - |content|, _ => NUL)
  }

  lemma WriteAtShape(content: bytes, at: nat, data: bytes)
    requires data != []
    ensures WriteAt(content, at, data)
         == Padded(content, at) + data + if at + |data| <= |content| then content[at + |data|..] else []
  {
  }

  /** Two writes in a row amount to one. */
  lemma WriteAtSplit(content: bytes, at: nat, a: bytes, b: bytes)
    ensures WriteAt(WriteAt(content, at, a), at + |a|, b) == WriteAt(content, at, a + b)
  {
    if a == [] {
      assert a + b == b;
    } else if b == [] {
      assert a + b == a;
    } else {
      var once := WriteAt(content, at, a);
      WriteAtShape(content, at, a);
      WriteAtShape(once, at + |a|, b);
      WriteAtShape(content, at, a + b);
      assert Padded(once, at + |a|) == Padded(content, at) + a;
    }
  }

  /** Writing at the end appends. */
  lemma WriteAtEnd(content: bytes, data: bytes)
    ensures WriteAt(content, |content|, data) == content + data
  {
  }

  /** One write to a file, by its parts. */
  lemma WriteToFile(sys: System, fds: FdTable, fd: nat, data: bytes)
    requires data != [] && IsWritable(sys, fds, fd) && sys.opens[fds[fd]].target.File?
    ensures var file := sys.opens[fds[fd]];
            var content := Contents(sys, file.target.path);
            var at := if file.append then |content| else file.offset;
            Write(sys, fds, fd, data)
            == sys.(files := sys.files[file.target.path := WriteAt(content, at, data)],
                    opens := sys.opens[fds[fd] := file.(offset := at + |data|)])
  {
  }

  lemma WriteTwiceToFile(sys: System, fds: FdTable, fd: nat, a: bytes, b: bytes)
    requires a != [] && b != [] && IsWritable(sys, fds, fd) && sys.opens[fds[fd]].target.File?
    ensures Write(Write(sys, fds, fd, a), fds, fd, b) == Write(sys, fds, fd, a + b)
  {
    var file := sys.opens[fds[fd]];
    var path := file.target.path;
    var content := Contents(sys, path);
    var at := if file.append then |content| else file.offset;
    var once := Write(sys, fds, fd, a);
    WriteToFile(sys, fds, fd, a);
    WriteToFile(once, fds, fd, b);
    WriteToFile(sys, fds, fd, a + b);
    WriteAtEnd(content, a);
    WriteAtSplit(content, at, a, b);
    assert Contents(once, path) == WriteAt(content, at, a);
    var more := WriteAt(content, at, a + b);
    assert once.files[path := more] == sys.files[path := more];
    var moved := file.(offset := at + |a + b|);
    assert once.opens[fds[fd] := moved] == sys.opens[fds[fd] := moved];
  }

  /** Two writes to a descriptor amount to one. */
  lemma WriteTwice(sys: System, fds: FdTable, fd: nat, a: bytes, b: bytes)
    ensures Write(Write(sys, fds, fd, a), fds, fd, b) == Write(sys, fds, fd, a + b)
  {
    if a == [] {
      assert a + b == b;
    } else if b == [] {
      assert a + b == a;
    } else if IsWritable(sys, fds, fd) {
      if sys.opens[fds[fd]].target.File? {
        WriteTwiceToFile(sys, fds, fd, a, b);
      } else {
        Associate(sys.console, a, b);
      }
    }
  }

  /** However a program cuts its output into writes, all of the state ends up as after one write. */
  lemma {:induction false} WriteAllOnce(sys: System, fds: FdTable, fd: nat, writes: seq<bytes>)
    ensures WriteAll(sys, fds, fd, writes) == Write(sys, fds, fd, Concat(writes))
    decreases |writes|
  {
    if writes != [] {
      WriteAllOnce(Write(sys, fds, fd, writes[0]), fds, fd, writes[1..]);
      WriteTwice(sys, fds, fd, writes[0], Concat(writes[1..]));
    }
  }

  lemma WriteAllSameFiles(sys: System, fds: FdTable, fd: nat, writes: seq<bytes>)
    ensures SameFiles(sys.opens, WriteAll(sys, fds, fd, writes).opens)
    ensures |WriteAll(sys, fds, fd, writes).opens| == |sys.opens|
  {
    WriteAllOnce(sys, fds, fd, writes);
  }

  /** Writing at the end of a file, by offset or by O_APPEND, in however many pieces, appends. */
  lemma WriteAllAppends(sys: System, fds: FdTable, fd: nat, writes: seq<bytes>)
    requires IsWritable(sys, fds, fd)
    requires var file := sys.opens[fds[fd]];
             && file.target.File?
             && (file.append || file.offset == |Contents(sys, file.target.path)|)
    ensures var file := sys.opens[fds[fd]];
            var path := file.target.path;
            var after := WriteAll(sys, fds, fd, writes);
            && Contents(after, path) == Contents(sys, path) + Concat(writes)
            && (forall p :: p != path ==> (p in after.files <==> p in sys.files))
            && (forall p :: p != path && p in sys.files ==> after.files[p] == sys.files[p])
            && (path in sys.files ==> path in after.files)
            && after.console == sys.console
  {
    WriteAllOnce(sys, fds, fd, writes);
  }

  /** Writing by offset moves the offset by what has been written. */
  lemma WriteAllMoves(sys: System, fds: FdTable, fd: nat, writes: seq<bytes>)
    requires IsWritable(sys, fds, fd)
    requires sys.opens[fds[fd]].target.File? && !sys.opens[fds[fd]].append
    ensures var file := sys.opens[fds[fd]];
            WriteAll(sys, fds, fd, writes).opens
            == sys.opens[fds[fd] := file.(offset := file.offset + |Concat(writes)|)]
  {
    WriteAllOnce(sys, fds, fd, writes);
  }

  /** However a program cuts its output into writes, the file ends up as after one write. */
  lemma WriteAllAt(sys: System, fds: FdTable, fd: nat, writes: seq<bytes>)
    requires IsWritable(sys, fds, fd)
    requires sys.opens[fds[fd]].target.File? && !sys.opens[fds[fd]].append
    ensures var file := sys.opens[fds[fd]];
            Contents(WriteAll(sys, fds, fd, writes), file.target.path)
            == WriteAt(Contents(sys, file.target.path), file.offset, Concat(writes))
  {
    WriteAllOnce(sys, fds, fd, writes);
  }

  /** Writing through one open file leaves all others as they are. */
  lemma WriteAllOthers(sys: System, fds: FdTable, fd: nat, writes: seq<bytes>, i: nat)
    requires i < |sys.opens| && (IsOpen(sys, fds, fd) ==> fds[fd] != i)
    ensures var after := WriteAll(sys, fds, fd, writes);
            i < |after.opens| && after.opens[i] == sys.opens[i]
  {
    WriteAllOnce(sys, fds, fd, writes);
  }

  /** Without a writable descriptor nothing happens. */
  lemma WriteAllNowhere(sys: System, fds: FdTable, fd: nat, writes: seq<bytes>)
    requires !IsWritable(sys, fds, fd)
    ensures WriteAll(sys, fds, fd, writes) == sys
  {
    WriteAllOnce(sys, fds, fd, writes);
  }

  /** No write removes a file. */
  lemma WriteAllKeepsNames(sys: System, fds: FdTable, fd: nat, writes: seq<bytes>, path: bytes)
    requires path in sys.files
    ensures path in WriteAll(sys, fds, fd, writes).files
  {
    WriteAllOnce(sys, fds, fd, writes);
  }

  /** Writes to a terminal, or to no place at all, leave every file alone. */
  lemma WriteAllElsewhere(sys: System, fds: FdTable, fd: nat, writes: seq<bytes>, path: bytes)
    requires IsWritable(sys, fds, fd) ==> sys.opens[fds[fd]].target != File(path)
    ensures var after := WriteAll(sys, fds, fd, writes);
            && (path in after.files <==> path in sys.files)
            && Contents(after, path) == Contents(sys, path)
  {
    WriteAllOnce(sys, fds, fd, writes);
  }

  /** Writes to a file never reach the terminal. */
  lemma WriteAllFile(sys: System, fds: FdTable, fd: nat, writes: seq<bytes>)
    requires IsWritable(sys, fds, fd) && sys.opens[fds[fd]].target.File?
    ensures WriteAll(sys, fds, fd, writes).console == sys.console
  {
    WriteAllOnce(sys, fds, fd, writes);
  }

  /** Writes to a terminal appear there, all and in order. */
  lemma WriteAllConsole(sys: System, fds: FdTable, fd: nat, writes: seq<bytes>)
    requires IsWritable(sys, fds, fd) && sys.opens[fds[fd]].target == Device
    ensures WriteAll(sys, fds, fd, writes) == sys.(console := sys.console + Concat(writes))
  {
    WriteAllOnce(sys, fds, fd, writes);
  }

  /** One process's descriptors. */
  class Process {
    var fds: FdTable

    constructor (fds: FdTable)
      ensures this.fds == fds
    {
      this.fds := fds;
    }
  }

  /** The state behind the system calls. */
  class Kernel {
    var files: map<bytes, bytes>
    var opens: seq<OpenFile>
    var console: bytes

    function View(): System
      reads this
    {
      System(files, opens, console)
    }

    /** The child starts with a copy of the parent's table, onto the same open files. */
    method Fork(parent: Process) returns (child: Process)
      ensures fresh(child) && child.fds == parent.fds
    {
      child := new Process(parent.fds);
    }

    method Open(p: Process, path: bytes, flags: Flags, permitted: bool) returns (fd: int)
      modifies this, p
      ensures if CanOpen(old(View()), path, flags, permitted) then
                && fd == LowestFree(old(p.fds))
                && View() == OpenFiles(old(View()), path, flags)
                && p.fds == old(p.fds)[LowestFree(old(p.fds)) := |old(opens)|]
              else
                fd == -1 && View() == old(View()) && p.fds == old(p.fds)
    {
      if !CanOpen(View(), path, flags, permitted) {
        return -1;
      }
      fd := LowestFree(p.fds);
      if flags.truncate || path !in files {
        files := files[path := []];
      }
      p.fds := p.fds[fd as nat := |opens|];
      opens := opens + [OpenFile(File(path), flags.access, flags.append, 0)];
    }

    method CloseFd(p: Process, fd: nat)
      modifies p
      ensures p.fds == Close(old(p.fds), fd)
    {
      p.fds := p.fds - {fd};
    }

    method DuplicateFd(p: Process, oldfd: nat, newfd: nat)
      modifies p
      ensures p.fds == Dup2(old(p.fds), oldfd, newfd)
    {
      if oldfd in p.fds {
        p.fds := p.fds[newfd := p.fds[oldfd]];
      }
    }

    /** A program reads its standard input to the end. */
    method ReadToEnd(p: Process, fd: nat, typed: bytes) returns (data: bytes)
      modifies this
      ensures data == Remaining(old(View()), p.fds, fd, typed)
      ensures View() == AfterReading(old(View()), p.fds, fd)
    {
      data := Remaining(View(), p.fds, fd, typed);
      if IsReadable(View(), p.fds, fd) && opens[p.fds[fd]].target.File? {
        var id := p.fds[fd];
        opens := opens[id := opens[id].(offset := opens[id].offset + |data|)];
      }
    }

    method WriteFd(p: Process, fd: nat, data: bytes)
      modifies this
      ensures View() == Write(old(View()), p.fds, fd, data)
    {
      if data != [] && IsWritable(View(), p.fds, fd) {
        var id := p.fds[fd];
        match opens[id].target
        case Device =>
          console := console + data;
        case File(path) =>
          var content := Contents(View(), path);
          var at := if opens[id].append then |content| else opens[id].offset;
          files := files[path := WriteAt(content, at, data)];
          opens := opens[id := opens[id].(offset := at + |data|)];
      }
    }

    /** A program writes its output piece by piece. */
    method WritePieces(p: Process, fd: nat, writes: seq<bytes>)
      modifies this
      ensures View() == WriteAll(old(View()), p.fds, fd, writes)
    {
      var i := 0;
      while i < |writes|
        invariant 0 <= i <= |writes|
        invariant WriteAll(View(), p.fds, fd, writes[i..]) == WriteAll(old(View()), p.fds, fd, writes)
      {
        assert writes[i..][0] == writes[i] && writes[i..][1..] == writes[i + 1..];
        WriteFd(p, fd, writes[i]);
        i := i + 1;
      }
    }
  }
}
