/** The kernel's programs in place: the task table, and for every task its control block and its memory. Each method
    is a call of the machine in `Programs`. */
module Processes {
  import opened Bytes
  import opened KernelStrings
  import opened FileSystem
  import opened FileReads
  import opened Directory
  import opened Descriptors
  import opened Commands
  import opened Programs
  import Stacks
  import TaskTable

  /** What a caller of execute sees: a code, or the slot of a program that runs in its place. */
  datatype Launch = Returned(code: int) | Started(slot: int)

  /** The part of a task's control block that does not link it to other tasks. */
  datatype Control = Control(fds: seq<Fd>, fileName: seq<Byte>, argumentBuf: seq<Byte>, oldEip: int)

  ghost function ProgramOf(c: Control): Program {
    Program(CString(c.fileName), CString(c.argumentBuf), c.fds, c.oldEip)
  }

  ghost function ProgramsOf(controls: seq<Control>): (r: seq<Program>)
    ensures |r| == |controls|
  {
    seq(|controls|, s requires 0 <= s < |controls| => ProgramOf(controls[s]))
  }

  /** A task that runs has its descriptors and its argument. */
  ghost predicate Ready(c: Control) {
    TableInv(c.fds) && |c.argumentBuf| == ARGUMENT_SIZE && NUL in c.argumentBuf
  }

  ghost predicate Stored(controls: seq<Control>, st: seq<seq<int>>) {
    && |controls| == Stacks.TASK_SLOTS
    && (forall s :: 0 <= s < |controls| ==> |controls[s].fds| == FD_COUNT)
    && (forall s :: 0 <= s < |controls| && Stacks.OnStack(st, s) ==> Ready(controls[s]))
  }

  ghost function WithFds(controls: seq<Control>, s: int, fds: seq<Fd>): seq<Control>
    requires 0 <= s < |controls|
  {
    controls[s := controls[s].(fds := fds)]
  }

  class System {
    const img: Image
    const tasks: TaskTable.Kernel
    const controls: array<Control>
    const memory: array<seq<Byte>>
    var exceptionDeath: bool

    ghost const Repr: set<object> := {this, controls, memory} + tasks.Repr

    ghost predicate Separate() {
      && this !in tasks.Repr && controls !in tasks.Repr && memory !in tasks.Repr
      && controls.Length == Stacks.TASK_SLOTS && memory.Length == FRAMES
    }

    ghost predicate Valid()
      reads Repr
    {
      && WellFormed(img) && Kinds(img) && Separate() && tasks.Valid() && Stored(controls[..], tasks.stacks)
      && Stacks.NO_TASK <= tasks.tasksRunning < Stacks.TASK_SLOTS
    }

    ghost function Abs(): Whole
      requires Separate()
      reads Repr
    {
      Whole(tasks.Abs(), ProgramsOf(controls[..]), memory[..], exceptionDeath)
    }

    constructor (image: Image)
      requires WellFormed(image) && Kinds(image)
      ensures Valid() && img == image && Abs().tasks == Stacks.PowerOn() && !Abs().died
    {
      img := image;
      tasks := new TaskTable.Kernel();
      controls := new Control[Stacks.TASK_SLOTS](_ => Control(seq(FD_COUNT, i => CLOSED), [], [], 0));
      memory := new seq<Byte>[FRAMES](_ => []);
      exceptionDeath := false;
      new;
      assert forall s :: !Stacks.OnStack(tasks.stacks, s);
    }

    /** The task whose control block a call uses. */
    lemma RunningTask()
      requires Valid() && tasks.tasksRunning != Stacks.NO_TASK
      ensures tasks.activeTerminal != Stacks.NO_TASK && tasks.tasksRunning == Stacks.Running(tasks.Abs())
      ensures 0 <= tasks.tasksRunning < Stacks.TASK_SLOTS && Ready(controls[tasks.tasksRunning])
    {
      Stacks.RunningOnStack(tasks.Abs());
      assert Ready(controls[..][tasks.tasksRunning]);
    }

    lemma AbsSized()
      requires Valid()
      ensures Sized(Abs())
    {
      assert forall s :: 0 <= s < Stacks.TASK_SLOTS ==> Abs().programs[s].fds == controls[..][s].fds;
    }

    // ----- descriptors -----

    method SetFd(task: int, i: int, f: Fd)
      requires 0 <= task < controls.Length && 0 <= i < |controls[task].fds|
      modifies controls
      ensures controls[..] == WithFds(old(controls[..]), task, old(controls[task].fds)[i := f])
    {
      controls[task] := controls[task].(fds := controls[task].fds[i := f]);
    }

    /** Opens the console descriptors of a new task and closes the others. */
    method FdaInit(task: int)
      requires 0 <= task < controls.Length && |controls[task].fds| == FD_COUNT
      modifies controls
      ensures controls[..] == WithFds(old(controls[..]), task, FreshTable())
    {
      ghost var before := controls[..];
      var i := 0;
      while i < FD_COUNT
        invariant 0 <= i <= FD_COUNT && |controls[task].fds| == FD_COUNT
        invariant controls[..] == WithFds(before, task, controls[task].fds)
        invariant forall j :: 0 <= j < i ==> controls[task].fds[j] == CLOSED
      {
        SetFd(task, i, Fd(NoOps, 0, 0, 0));
        i := i + 1;
      }
      SetFd(task, 0, controls[task].fds[0].(ops := StdinOps));
      SetFd(task, 1, controls[task].fds[1].(ops := StdoutOps));
      SetFd(task, 0, controls[task].fds[0].(flags := 1));
      SetFd(task, 1, controls[task].fds[1].(flags := 1));
      assert controls[task].fds == FreshTable();
    }

    /** A call that only changes the running task's descriptors. */
    lemma Used(before: seq<Control>, e: Descriptors.Event)
      requires Separate() && WellFormed(img) && Kinds(img) && tasks.Valid() && Stored(before, tasks.stacks)
      requires tasks.tasksRunning < Stacks.TASK_SLOTS
      requires tasks.tasksRunning != Stacks.NO_TASK && 0 <= tasks.tasksRunning < |before|
      requires Ready(before[tasks.tasksRunning])
      requires controls[..] == WithFds(before, tasks.tasksRunning, Step(img, before[tasks.tasksRunning].fds, e))
      ensures Valid()
      ensures var w := Whole(tasks.Abs(), ProgramsOf(before), memory[..], exceptionDeath);
        Sized(w) && Abs() == Do(img, w, Use(e))
    {
      StepKeepsInv(img, before[tasks.tasksRunning].fds, e);
      UsedValue(img, tasks.Abs(), before, controls[..], memory[..], exceptionDeath, e);
    }

    method SyscallOpen(filename: seq<Byte>) returns (r: int)
      requires Valid() && tasks.tasksRunning != Stacks.NO_TASK && NUL in filename
      modifies controls
      ensures Valid() && Sized(old(Abs())) && Abs() == Do(img, old(Abs()), Use(Open(CString(filename))))
      ensures r == OpenTable(img, old(controls[tasks.tasksRunning].fds), CString(filename)).result
    {
      RunningTask();
      ghost var before := controls[..];
      r := OpenRunning(filename);
      Used(before, Open(CString(filename)));
    }

    method OpenRunning(filename: seq<Byte>) returns (r: int)
      requires Valid() && NUL in filename
      requires tasks.tasksRunning != Stacks.NO_TASK
      requires 0 <= tasks.tasksRunning < Stacks.TASK_SLOTS && TableInv(controls[tasks.tasksRunning].fds)
      modifies controls
      ensures var o := OpenTable(img, old(controls[tasks.tasksRunning].fds), CString(filename));
        r == o.result && controls[..] == WithFds(old(controls[..]), tasks.tasksRunning, o.table)
    {
      var task := tasks.tasksRunning;
      ghost var t := controls[task].fds;
      if filename[0] == NUL {
        return -1;
      }
      var fdIndex := 2;
      while fdIndex < FD_COUNT
        invariant 2 <= fdIndex <= FD_COUNT && LowestFree(t, FIRST_FILE) == LowestFree(t, fdIndex)
      {
        if controls[task].fds[fdIndex].flags == 0 {
          break;
        }
        fdIndex := fdIndex + 1;
      }
      if fdIndex > 7 {
        return -1;
      }
      r := OpenAt(task, fdIndex, filename);
    }

    /** The rest of an open, on a closed descriptor. */
    method OpenAt(task: int, fdIndex: int, filename: seq<Byte>) returns (r: int)
      requires WellFormed(img) && 0 <= task < controls.Length && |controls[task].fds| == FD_COUNT
      requires FIRST_FILE <= fdIndex == LowestFree(controls[task].fds, FIRST_FILE) < FD_COUNT
      requires NUL in filename && CString(filename) != []
      modifies controls
      ensures var o := OpenTable(img, old(controls[task].fds), CString(filename));
        r == o.result && controls[..] == WithFds(old(controls[..]), task, o.table)
    {
      hide WellFormed, CString, ConsoleOps, LowestFree, Lookup;
      ghost var before, t := controls[..], controls[task].fds;
      SetConsoleOps(task, fdIndex, filename);
      var found, dentry := ReadDentryByName(img, filename);
      if found != 0 {
        return -1;
      }
      SetFd(task, fdIndex, controls[task].fds[fdIndex].(ops := OpsFor(dentry.kind)));
      if dentry.kind != 0 {
        SetFd(task, fdIndex, controls[task].fds[fdIndex].(inode := dentry.inode));
      }
      SetFd(task, fdIndex, controls[task].fds[fdIndex].(flags := 1));
      assert controls[task].fds == OpenTable(img, t, CString(filename)).table by {
        ConsoleOpsOnly(t[fdIndex], CString(filename));
      }
      return fdIndex;
    }

    /** The console names set the operations before the directory is searched. */
    method SetConsoleOps(task: int, fdIndex: int, filename: seq<Byte>)
      requires 0 <= task < controls.Length && 0 <= fdIndex < |controls[task].fds| && NUL in filename
      modifies controls
      ensures var t := old(controls[task].fds);
        controls[..] == WithFds(old(controls[..]), task, t[fdIndex := ConsoleOps(t[fdIndex], CString(filename))])
    {
      ghost var t := controls[task].fds;
      assert t[fdIndex := t[fdIndex]] == t;
      var isStdin := IsName(STDIN_NAME, filename);
      var isStdout := IsName(STDOUT_NAME, filename);
      if isStdin {
        SetFd(task, fdIndex, controls[task].fds[fdIndex].(ops := StdinOps));
      } else if isStdout {
        SetFd(task, fdIndex, controls[task].fds[fdIndex].(ops := StdoutOps));
      }
    }

    /** The bounded comparison with a console name includes its terminator. */
    method IsName(consoleName: string, filename: seq<Byte>) returns (same: bool)
      requires consoleName in {STDIN_NAME, STDOUT_NAME} && NUL in filename
      ensures same <==> CString(filename) == Ascii(consoleName)
    {
      var name := Ascii(consoleName);
      assert (name + [NUL])[|name|] == NUL;
      CStringUnique(name + [NUL], name);
      var c := Strncmp(name + [NUL], filename, |name| + 1);
      LongPrefix(name, CString(filename));
      return c == 0;
    }

    method SyscallClose(fd: int) returns (r: int)
      requires Valid() && tasks.tasksRunning != Stacks.NO_TASK
      modifies controls
      ensures Valid() && Sized(old(Abs())) && Abs() == Do(img, old(Abs()), Use(Event.Close(fd)))
      ensures r == CloseTable(old(controls[tasks.tasksRunning].fds), fd).result
    {
      RunningTask();
      ghost var before := controls[..];
      r := CloseAt(tasks.tasksRunning, fd);
      Used(before, Event.Close(fd));
    }

    method CloseAt(task: int, fd: int) returns (r: int)
      requires 0 <= task < controls.Length && |controls[task].fds| == FD_COUNT
      modifies controls
      ensures var o := CloseTable(old(controls[task].fds), fd);
        r == o.result && controls[..] == WithFds(old(controls[..]), task, o.table)
    {
      ghost var t := controls[task].fds;
      assert WithFds(controls[..], task, t) == controls[..];
      if fd > 7 || fd < 2 {
        return -1;
      }
      if controls[task].fds[fd].flags == 0 {
        return -1;
      }
      if controls[task].fds[fd].ops != RtcOps {
        SetFd(task, fd, controls[task].fds[fd].(inode := 0));
      }
      SetFd(task, fd, controls[task].fds[fd].(position := 0));
      SetFd(task, fd, controls[task].fds[fd].(flags := 0));
      assert controls[task].fds == CloseTable(t, fd).table;
      return 0;
    }

    /** `console` is what the keyboard read returns; it leaves the position of its descriptor alone. */
    method SyscallRead(fd: nat, buf: array<Byte>, nbytes: nat, console: int) returns (r: int)
      requires Valid() && tasks.tasksRunning != Stacks.NO_TASK && nbytes < TWO_32 && buf !in Repr
      requires fd < FD_COUNT ==> FdReadable(controls[tasks.tasksRunning].fds[fd], buf.Length, nbytes)
      modifies controls, buf
      ensures Valid() && Sized(old(Abs())) && Abs() == Do(img, old(Abs()), Use(Event.Read(fd, nbytes)))
      ensures fd >= FD_COUNT || fd == 1 || old(controls[tasks.tasksRunning].fds[fd]).flags == 0 ==>
        r == -1 && buf[..] == old(buf[..])
      ensures fd < FD_COUNT && fd != 1 && old(controls[tasks.tasksRunning].fds[fd]).flags == 1 ==>
        DeliveredBy(old(controls[tasks.tasksRunning].fds[fd]), nbytes, console, r, old(buf[..]), buf[..])
    {
      RunningTask();
      ghost var before := controls[..];
      r := ReadAt(tasks.tasksRunning, fd, buf, nbytes, console);
      Used(before, Event.Read(fd, nbytes));
    }

    method ReadAt(task: int, fd: nat, buf: array<Byte>, nbytes: nat, console: int) returns (r: int)
      requires WellFormed(img) && 0 <= task < controls.Length && TableInv(controls[task].fds) && nbytes < TWO_32
      requires fd < FD_COUNT ==> FdReadable(controls[task].fds[fd], buf.Length, nbytes)
      modifies controls, buf
      ensures controls[..] == WithFds(old(controls[..]), task, ReadTable(img, old(controls[task].fds), fd, nbytes))
      ensures fd >= FD_COUNT || fd == 1 || old(controls[task].fds[fd]).flags == 0 ==> r == -1 && buf[..] == old(buf[..])
      ensures fd < FD_COUNT && fd != 1 && old(controls[task].fds[fd]).flags == 1 ==>
        DeliveredBy(old(controls[task].fds[fd]), nbytes, console, r, old(buf[..]), buf[..])
    {
      hide Moved, DeliveredBy, FdReadable, WellFormed;
      assert WithFds(controls[..], task, controls[task].fds) == controls[..];
      if fd > 7 || fd == 1 {
        return -1;
      }
      var f := controls[task].fds[fd];
      if f.flags == 0 {
        ClosedStays(img, controls[task].fds, fd, nbytes);
        return -1;
      }
      var position;
      r, position := Dispatch(f, buf, nbytes, console);
      SetFd(task, fd, controls[task].fds[fd].(position := position));
    }

    /** The read operation of an open descriptor. */
    method Dispatch(f: Fd, buf: array<Byte>, nbytes: nat, console: int) returns (r: int, position: nat)
      requires WellFormed(img) && f.flags == 1 && f.inode >= 0 && nbytes < TWO_32 && FdReadable(f, buf.Length, nbytes)
      modifies buf
      ensures position == Moved(img, f, nbytes)
      ensures DeliveredBy(f, nbytes, console, r, old(buf[..]), buf[..])
    {
      position := f.position;
      if f.ops == FileOps {
        r, position := FileRead(img, f.inode, f.position, buf, nbytes);
      } else if f.ops == DirOps {
        r, position := DirRead(img, f.position, buf, nbytes);
      } else if f.ops == RtcOps {
        r := 0;
      } else {
        r := console;
      }
    }

    /** What a read needs of memory. */
    ghost predicate FdReadable(f: Fd, room: nat, nbytes: nat)
      requires WellFormed(img)
    {
      && (f.ops == FileOps ==> f.position < TWO_32)
      && (f.ops == FileOps && 0 <= f.inode < |img.inodes| ==>
            ReadAllowed(img, img.inodes[f.inode], f.position, nbytes, room))
      && (f.ops == DirOps && f.position < MAX_FILECOUNT ==> |Prefix(Name(img, f.position), nbytes)| <= room)
    }

    /** What a read of an open descriptor puts into the buffer and returns: a piece of the file, or the name of an
        entry. */
    ghost predicate DeliveredBy(f: Fd, nbytes: nat, console: int, r: int, before: seq<Byte>, after: seq<Byte>)
      requires WellFormed(img)
    {
      match f.ops
      case FileOps =>
        if 0 <= f.inode < |img.inodes| then
          var ino := img.inodes[f.inode];
          var next := Advance(ino.length, f.position, nbytes);
          r == next - f.position <= |before| && after == Stream(img, ino, f.position, next) + before[r..]
        else r == -1 && after == before
      case DirOps =>
        if f.position < MAX_FILECOUNT then
          var name := Prefix(Name(img, f.position), nbytes);
          r == |name| <= |before| && after == name + before[r..]
        else r == -1 && after == before
      case RtcOps => r == 0 && after == before
      case _ => r == console && after == before
    }

    /** The running program's argument. */
    method SyscallGetargs(buf: array?<Byte>, nbytes: nat) returns (r: int)
      requires Valid() && tasks.tasksRunning != Stacks.NO_TASK
      requires buf != null ==> nbytes <= buf.Length && buf !in Repr
      modifies buf
      ensures Valid() && Abs() == old(Abs())
      ensures 0 <= tasks.tasksRunning < Stacks.TASK_SLOTS
      ensures var s := Abs().programs[tasks.tasksRunning].argument;
        && r == (if buf == null || |s| > nbytes || s == [] then -1 else 0)
        && (r == 0 && nbytes > |s| ==> CString(buf[..nbytes]) == s)
    {
      RunningTask();
      r := Commands.SyscallGetargs(controls[tasks.tasksRunning].argumentBuf, buf, nbytes);
    }

    // ----- executing and halting -----

    /** The first four bytes of the entry's file are read and compared. */
    method IsExecutable(e: Dentry) returns (valid: bool)
      requires WellFormed(img) && e.inode >= 0 && Loadable(e)
      ensures valid <==> Executable(img, e)
    {
      hide WellFormed, Spans;
      var buf := new Byte[4];
      if e.inode < |img.inodes| {
        HeaderAllowed(img, img.inodes[e.inode]);
      }
      var r := ReadData(img, e.inode, 0, buf, 4);
      if r != 4 {
        return false;
      }
      assert buf[..] == Stream(img, img.inodes[e.inode], 0, 4);
      if buf[0] != ELF_MAGIC[0] || buf[1] != ELF_MAGIC[1] || buf[2] != ELF_MAGIC[2] || buf[3] != ELF_MAGIC[3] {
        assert buf[..] != ELF_MAGIC;
        return false;
      }
      assert buf[..] == ELF_MAGIC;
      return true;
    }

    /** What checking and loading a file need: its first block, and the blocks of two megabytes for an executable. */
    ghost predicate Loadable(e: Dentry)
      requires WellFormed(img)
    {
      && (0 <= e.inode < |img.inodes| && img.inodes[e.inode].length > 0 ==> Spans(img, img.inodes[e.inode], 0, 4))
      && (Executable(img, e) ==> Spans(img, img.inodes[e.inode], 0, TWO_MB))
    }

    ghost predicate AllLoadable(stale: Dentry)
      requires WellFormed(img)
    {
      stale.inode >= 0 && Loadable(stale) && forall i :: 0 <= i < MAX_FILECOUNT ==> Loadable(img.entries[i])
    }

    /** The command line has been parsed into the two buffers, and the entry of its file has been checked. */
    ghost predicate Checked(command: seq<Byte>, stale: Dentry, taskName: seq<Byte>, argument: seq<Byte>, valid: bool,
                            e: Dentry)
      requires WellFormed(img)
    {
      && NUL in taskName && NUL in argument && |argument| == ARGUMENT_SIZE
      && Parse(command) == Command(CString(taskName), CString(argument))
      && e == LaunchEntry(img, CString(taskName), stale) && Loadable(e)
      && (valid <==> Executable(img, e))
    }

    /** The part of an execute that cannot change anything: the command is parsed, and its file is checked. */
    method CheckCommand(command: seq<Byte>, stale: Dentry, taskName: array<Byte>, argument: array<Byte>)
      returns (code: int, valid: bool, e: Dentry)
      requires WellFormed(img) && Kinds(img) && NUL in command && AllLoadable(stale)
      requires taskName.Length == TASKNAME_SIZE && argument.Length == ARGUMENT_SIZE && taskName != argument
      modifies taskName, argument
      ensures code == match Parse(CString(command)) case TooLong => -1 case Blank => 0 case Command(_, _) => 1
      ensures code == 1 ==> Checked(CString(command), stale, taskName[..], argument[..], valid, e)
    {
      hide Parse, CString, Executable, Loadable;
      code := ParseCommand(command, taskName, argument);
      valid, e := false, stale;
      if code == 1 {
        var r, dentry := ReadDentryByName(img, taskName[..]);
        if r == 0 {
          e := dentry;
        }
        valid := IsExecutable(e);
      }
    }

    /** Loads the program to the frame that is mapped, and fills the control block of its slot. */
    method InstallTask(slot: int, e: Dentry, taskName: array<Byte>, argument: array<Byte>)
      requires Separate() && tasks.Sized() && 0 <= slot < Stacks.TASK_SLOTS && |controls[slot].fds| == FD_COUNT
      requires 0 <= FrameNumber(tasks.pageDirectory[TaskTable.PROGRAM_ENTRY]) < FRAMES
      requires WellFormed(img) && Executable(img, e) && Loadable(e) && NUL in argument[..]
      requires argument.Length == ARGUMENT_SIZE
      modifies controls, memory
      ensures controls[..] == old(controls[..])[slot := controls[slot]] && Ready(controls[slot])
      ensures var image := LoadedImage(img, e);
        && memory[..] == old(memory[..])[FrameNumber(tasks.pageDirectory[TaskTable.PROGRAM_ENTRY]) := image]
        && ProgramOf(controls[slot]) == Program(CString(old(taskName[..])), CString(old(argument[..])), FreshTable(),
                                                WordAt(image, EIP_OFFSET))
    {
      hide WellFormed, Spans, CString, Executable;
      var buf := new Byte[TWO_MB];
      LoadAllowed(img, e);
      var r := ReadData(img, e.inode, 0, buf, TWO_MB);
      assert buf[..] == LoadedImage(img, e);
      hide LoadedImage;
      var frame := FrameNumber(tasks.pageDirectory[TaskTable.PROGRAM_ENTRY]);
      memory[frame] := buf[..];
      var entry := WordAt(memory[frame], EIP_OFFSET);
      controls[slot] := controls[slot].(oldEip := entry, fileName := taskName[..], argumentBuf := argument[..]);
      FdaInit(slot);
    }

    /** Launches a program from a command line. `stale` is what the uninitialized directory entry holds when the name
        is not found. */
    method SyscallExecute(command: seq<Byte>, stale: Dentry) returns (launch: Launch)
      requires Valid() && NUL in command && AllLoadable(stale)
      modifies Repr
      ensures Valid() && Sized(old(Abs())) && Abs() == Start(img, old(Abs()), CString(command), stale)
      ensures launch == match Parse(CString(command))
        case TooLong => Returned(-1)
        case Blank => Returned(0)
        case Command(_, _) =>
          if Launchable(img, CString(command), stale) && Stacks.FirstFree(old(tasks.stacks)) != Stacks.NO_TASK
          then Started(Stacks.FirstFree(old(tasks.stacks))) else Returned(-1)
      ensures launch.Started? ==> tasks.tasksRunning == launch.slot
    {
      hide Parse, CString, Executable, WellFormed, Kinds, Loadable, AllLoadable, Start, Checked, Stored;
      hide Stacks.WellFormed, Stacks.OnStack, TaskTable.Linked, TaskTable.Marked, Launchable;
      AbsSized();
      var taskName := new Byte[TASKNAME_SIZE];
      var argument := new Byte[ARGUMENT_SIZE];
      var code, valid, e := CheckCommand(command, stale, taskName, argument);
      if code != 1 {
        NotLaunchable(img, Abs(), CString(command), stale);
        return Returned(code);
      }
      var slot := LaunchTask(valid, e, taskName, argument, CString(command), stale);
      return if slot == -1 then Returned(-1) else Started(slot);
    }

    /** The part of an execute behind the checks. */
    method LaunchTask(valid: bool, e: Dentry, taskName: array<Byte>, argument: array<Byte>, ghost command: seq<Byte>,
                      ghost stale: Dentry)
      returns (slot: int)
      requires Valid() && taskName !in Repr && argument !in Repr && argument.Length == ARGUMENT_SIZE
      requires Checked(command, stale, taskName[..], argument[..], valid, e)
      modifies Repr
      ensures Valid() && Sized(old(Abs())) && Abs() == Start(img, old(Abs()), command, stale)
      ensures valid <==> Launchable(img, command, stale)
      ensures Parse(command).Command?
      ensures slot == if valid then Stacks.FirstFree(old(tasks.stacks)) else -1
      ensures slot != -1 ==> tasks.tasksRunning == slot
    {
      hide Parse, CString, Executable, WellFormed, Kinds, Loadable, LoadedImage, LaunchEntry, Ready;
      hide Stacks.WellFormed, Stacks.OnStack, TaskTable.Linked, TaskTable.Marked;
      AbsSized();
      ghost var w, before, frames := Abs(), controls[..], memory[..];
      Stacks.FirstFreeMeaning(tasks.stacks, 0);
      slot := tasks.SyscallExecute(valid);
      if slot == -1 {
        return;
      }
      ExecuteMaps(w.tasks);
      InstallTask(slot, e, taskName, argument);
      StartStored(img, w, before, frames, controls[..], memory[..], command, stale);
    }

    /** Ends the running program: its files are closed and its parent runs again, with the code of the halt or 256
        after an exception. A base shell keeps everything and starts over, and the result is -1. */
    method SyscallHalt(status: Byte) returns (parent: int, returnStatus: int)
      requires Valid() && tasks.tasksRunning != Stacks.NO_TASK
      modifies Repr
      ensures Valid() && Sized(old(Abs())) && Abs() == Quit(old(Abs()))
      ensures parent == if |old(tasks.stacks[tasks.activeTerminal])| == 1 then -1 else tasks.tasksRunning
      ensures parent != -1 ==> returnStatus == HaltCode(old(Abs()), status)
    {
      hide Stored, CloseFrom, WellFormed, Kinds, Stacks.WellFormed, Stacks.OnStack, TaskTable.Linked, TaskTable.Marked;
      AbsSized();
      RunningTask();
      ghost var w := Abs();
      var task := tasks.tasksRunning;
      returnStatus := 0;
      var last := tasks.IsBaseShell();
      if last {
        return -1, 0;
      }
      CloseFiles(task);
      QuitStored(w, old(controls[..]), controls[..], memory[..]);
      parent := tasks.SyscallHalt();
      if exceptionDeath {
        returnStatus := 256;
        exceptionDeath := false;
      } else {
        returnStatus := status;
      }
      hide Stacks.Return;
      TopIsTask();
    }

    method CloseFiles(task: int)
      requires 0 <= task < controls.Length && |controls[task].fds| == FD_COUNT
      modifies controls
      ensures controls[..] == WithFds(old(controls[..]), task, CloseFrom(old(controls[task].fds), 0))
    {
      ghost var before := controls[..];
      var i := 0;
      while i < 8
        invariant 0 <= i <= 8 && |controls[task].fds| == FD_COUNT
        invariant controls[..] == WithFds(before, task, controls[task].fds)
        invariant CloseFrom(before[task].fds, 0) == CloseFrom(controls[task].fds, i)
      {
        if controls[task].fds[i].flags != 0 {
          var _ := CloseAt(task, i);
        }
        i := i + 1;
      }
    }

    /** An exception ends the program like a halt. In task 0 the handler loops forever instead. */
    method HandleException() returns (parent: int, returnStatus: int)
      requires Valid() && tasks.tasksRunning !in {Stacks.NO_TASK, 0}
      modifies Repr
      ensures Valid() && Sized(old(Abs())) && Abs() == Do(img, old(Abs()), Exception)
      ensures parent != -1 ==> returnStatus == 256
    {
      hide Quit, WellFormed, Kinds, Stored;
      AbsSized();
      RunningTask();
      exceptionDeath := true;
      AbsSized();
      parent, returnStatus := SyscallHalt(0);
    }

    // ----- terminals and ticks -----

    method SwitchDisplayTerminal(tid: int)
      requires Valid()
      modifies Repr
      ensures Valid() && Sized(old(Abs())) && Abs() == Do(img, old(Abs()), Switch(tid))
    {
      hide WellFormed, Kinds;
      AbsSized();
      tasks.SwitchDisplayTerminal(tid);
      TopIsTask();
    }

    /** The slot of the running task follows from the task table. */
    lemma TopIsTask()
      requires tasks.Valid()
      ensures Stacks.NO_TASK <= tasks.tasksRunning < Stacks.TASK_SLOTS
    {
      if tasks.activeTerminal != Stacks.NO_TASK {
        Stacks.RunningOnStack(tasks.Abs());
      }
    }

    method SyscallVidmap(screenStart: bool) returns (r: int)
      requires Valid() && tasks.tasksRunning != Stacks.NO_TASK
      modifies tasks.Repr
      ensures Valid() && Sized(old(Abs()))
      ensures Abs() == if screenStart then Do(img, old(Abs()), Vidmap) else old(Abs())
      ensures r == if screenStart then 0 else -1
    {
      hide WellFormed, Kinds;
      AbsSized();
      RunningTask();
      r := tasks.SyscallVidmap(screenStart);
      TopIsTask();
    }

    /** `spawned` says that a shell was started, in which case control does not come back to the caller. */
    method Scheduler(tNum: nat, stale: Dentry) returns (spawned: bool)
      requires Valid() && AllLoadable(stale) && tNum == tasks.pitCounter
      modifies Repr
      ensures Valid() && Sized(old(Abs()))
      ensures spawned <==> ShellMissing(old(tasks.Abs())) && Launchable(img, Ascii(SHELL), stale)
      ensures var m := old(tasks.Abs());
        var shown := old(Abs()).(tasks := if ShellMissing(m) then ShowMissing(m) else Stacks.EndBoot(m));
        Abs() == if spawned then Start(img, shown, Ascii(SHELL), stale) else shown
    {
      hide WellFormed, Kinds, AllLoadable, Start, Launchable, Stacks.Display, Stacks.FirstFree;
      AbsSized();
      ghost var m := tasks.Abs();
      spawned := tasks.SelectTerminal(tNum);
      TopIsTask();
      if spawned {
        ShellCommand(img, stale);
        MissingShellStarts(m);
        NotLaunchable(img, Abs(), Ascii(SHELL), stale);
        var launch := SyscallExecute(Ascii(SHELL) + [NUL], stale);
        spawned := launch.Started?;
      }
    }

    /** A timer tick. The turn passes on unless a shell was started. */
    method PitHandler(stale: Dentry)
      requires Valid() && AllLoadable(stale)
      modifies Repr
      ensures Valid() && Sized(old(Abs())) && Abs() == Do(img, old(Abs()), Tick(stale))
    {
      hide WellFormed, Kinds, AllLoadable, Start, Launchable, ShellMissing, ShowMissing, Stacks.EndBoot;
      AbsSized();
      var spawned := Scheduler(tasks.pitCounter, stale);
      if spawned {
        return;
      }
      tasks.PassTurn();
    }
  }

  lemma NotLaunchable(img: Image, w: Whole, command: seq<Byte>, stale: Dentry)
    requires WellFormed(img) && Sized(w)
    ensures !Launchable(img, command, stale) ==> Start(img, w, command, stale) == w
    ensures !Parse(command).Command? ==> !Launchable(img, command, stale)
  {
  }

  lemma HeaderAllowed(img: Image, ino: Inode)
    requires ino.length > 0 ==> Spans(img, ino, 0, 4)
    ensures ReadAllowed(img, ino, 0, 4, 4)
    ensures Advance(ino.length, 0, 4) == if ino.length < 4 then ino.length else 4
  {
  }

  lemma LoadAllowed(img: Image, e: Dentry)
    requires WellFormed(img) && Executable(img, e) && Spans(img, img.inodes[e.inode], 0, TWO_MB)
    ensures 0 <= e.inode < |img.inodes|
    ensures var ino := img.inodes[e.inode];
      ReadAllowed(img, ino, 0, TWO_MB, TWO_MB) && Advance(ino.length, 0, TWO_MB) == TWO_MB
  {
  }

  /** The command line of a missing shell. */
  lemma ShellCommand(img: Image, stale: Dentry)
    requires WellFormed(img)
    ensures var line := Ascii(SHELL) + [NUL];
      NUL in line && CString(line) == Ascii(SHELL) && Parse(Ascii(SHELL)) == Command(Ascii(SHELL), [])
  {
    var name := Ascii(SHELL);
    assert (name + [NUL])[|name|] == NUL;
    CStringUnique(name + [NUL], name);
    WrittenLineParses(0, name, 0, [], []);
    assert Line(0, name, 0, [], []) == name;
  }

  lemma StartStored(img: Image, w: Whole, controls: seq<Control>, memory: seq<seq<Byte>>, controls': seq<Control>,
                    memory': seq<seq<Byte>>, command: seq<Byte>, stale: Dentry)
    requires WellFormed(img) && Sized(w) && |controls| == |controls'| == Stacks.TASK_SLOTS && |memory| == FRAMES
    requires w.programs == ProgramsOf(controls) && w.memory == memory && Stored(controls, w.tasks.stacks)
    requires Launchable(img, command, stale) && Stacks.FirstFree(w.tasks.stacks) != Stacks.NO_TASK
    requires var s := Stacks.FirstFree(w.tasks.stacks);
      && 0 <= s < Stacks.TASK_SLOTS && controls' == controls[s := controls'[s]] && Ready(controls'[s])
      && ProgramOf(controls'[s]) == Launched(img, command, stale)
      && memory' == memory[s + 2 := LaunchedImage(img, command, stale)]
    ensures var r := Start(img, w, command, stale);
      && Stored(controls', r.tasks.stacks)
      && r == Whole(Stacks.Execute(w.tasks, true), ProgramsOf(controls'), memory', w.died)
  {
    hide Launched, Launchable, WellFormed, ProgramOf;
    LaunchedStacks(w.tasks);
    ExecuteMaps(w.tasks);
    hide Stacks.OnStack, Stacks.WellFormed, Ready;
    assert ProgramsOf(controls') == Start(img, w, command, stale).programs;
  }

  lemma QuitStored(w: Whole, controls: seq<Control>, controls': seq<Control>, memory: seq<seq<Byte>>)
    requires Sized(w) && |controls| == Stacks.TASK_SLOTS
    requires w.programs == ProgramsOf(controls) && w.memory == memory && Stored(controls, w.tasks.stacks)
    requires w.tasks.active != Stacks.NO_TASK && |w.tasks.stacks[w.tasks.active]| != 1
    requires 0 <= Stacks.Running(w.tasks) < Stacks.TASK_SLOTS
    requires var s := Stacks.Running(w.tasks); controls' == WithFds(controls, s, CloseFrom(controls[s].fds, 0))
    ensures Stored(controls', Stacks.Return(w.tasks).stacks)
    ensures Quit(w) == Whole(Stacks.Return(w.tasks), ProgramsOf(controls'), memory, false)
  {
    Stacks.PopShape(w.tasks.stacks, w.tasks.active);
    hide Stacks.OnStack, Stacks.WellFormed, CloseFrom, Ready, CString;
    assert ProgramsOf(controls') == Quit(w).programs;
  }

  lemma ConsoleOpsOnly(f: Fd, name: seq<Byte>)
    ensures ConsoleOps(f, name) == f.(ops := ConsoleOps(f, name).ops)
  {
  }

  lemma ClosedStays(img: Image, t: seq<Fd>, fd: int, nbytes: nat)
    requires WellFormed(img) && TableInv(t) && 0 <= fd < FD_COUNT && t[fd].flags == 0
    ensures ReadTable(img, t, fd, nbytes) == t
  {
  }

  lemma LongPrefix(name: seq<Byte>, other: seq<Byte>)
    ensures Prefix(name, |name| + 1) == Prefix(other, |name| + 1) <==> name == other
  {
  }

  lemma UsedValue(img: Image, m: Stacks.Machine, before: seq<Control>, after: seq<Control>, memory: seq<seq<Byte>>,
                  died: bool, e: Descriptors.Event)
    requires WellFormed(img) && Stacks.WellFormed(m) && m.active != Stacks.NO_TASK
    requires |memory| == FRAMES && Stored(before, m.stacks) && 0 <= Stacks.Running(m) < |before|
    requires Ready(before[Stacks.Running(m)])
    requires after == WithFds(before, Stacks.Running(m), Step(img, before[Stacks.Running(m)].fds, e))
    requires TableInv(Step(img, before[Stacks.Running(m)].fds, e))
    ensures Stored(after, m.stacks)
    ensures var w := Whole(m, ProgramsOf(before), memory, died);
      Programs.Sized(w) && Whole(m, ProgramsOf(after), memory, died) == Do(img, w, Use(e))
  {
    hide WellFormed, Stacks.WellFormed, Stacks.OnStack, Step, CString;
    var w := Whole(m, ProgramsOf(before), memory, died);
    assert ProgramsOf(after) == Do(img, w, Use(e)).programs;
  }
}
