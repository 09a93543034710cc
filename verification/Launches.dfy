/** What an execute promises, in terms of the command line, the directory and the blocks of the file alone; and that a
    program keeps what it was started with for as long as it lives. */
module Launches {
  import opened Bytes
  import opened Commands
  import opened Directory
  import opened FileSystem
  import opened Programs
  import Descriptors
  import Processes
  import Stacks
  import TaskRuns

  /** The letters of the shell's name. */
  const SHELL_NAME: seq<Byte> := [115, 104, 101, 108, 108]

  /** Entry `i` is the first with a name; `i` is 63 if no entry has it. */
  ghost predicate FirstNamed(img: Image, name: seq<Byte>, i: nat)
    requires WellFormed(img)
  {
    && i <= MAX_FILECOUNT
    && (i < MAX_FILECOUNT ==> Name(img, i) == name)
    && forall j :: 0 <= j < i ==> Name(img, j) != name
  }

  /** The entry behind index `i`. A name that is not found is not noticed, and leaves the entry `stale`. */
  ghost function EntryAt(img: Image, i: nat, stale: Dentry): Dentry
    requires WellFormed(img) && i <= MAX_FILECOUNT
  {
    if i == MAX_FILECOUNT then stale else img.entries[i]
  }

  /** The entry's file starts with 0x7F and the letters ELF. */
  ghost predicate StartsWithMagic(img: Image, e: Dentry)
    requires WellFormed(img)
  {
    && 0 <= e.inode < |img.inodes|
    && [0x7F, 0x45, 0x4C, 0x46] <= Contents(img, img.inodes[e.inode])
  }

  lemma MagicIsExecutable(img: Image, e: Dentry)
    requires WellFormed(img)
    ensures StartsWithMagic(img, e) <==> Executable(img, e)
  {
    if 0 <= e.inode < |img.inodes| && img.inodes[e.inode].length >= 4 {
      var ino := img.inodes[e.inode];
      assert Contents(img, ino)[..4] == Stream(img, ino, 0, 4);
      assert ELF_MAGIC <= Contents(img, ino) <==> Contents(img, ino)[..4] == ELF_MAGIC;
    }
  }

  lemma EntryIsFound(img: Image, name: seq<Byte>, i: nat, stale: Dentry)
    requires WellFormed(img) && |name| <= MAX_FILENAME && FirstNamed(img, name, i)
    ensures EntryAt(img, i, stale) == LaunchEntry(img, name, stale)
  {
  }

  /** The descriptors a program starts with: keyboard and screen, and six closed ones. */
  ghost predicate OnlyConsole(fds: seq<Descriptors.Fd>) {
    && |fds| == 8
    && fds[0].ops == Descriptors.StdinOps && fds[0].flags == 1
    && fds[1].ops == Descriptors.StdoutOps && fds[1].flags == 1
    && forall i :: 2 <= i < 8 ==> fds[i].flags == 0 && fds[i].position == 0
  }

  /** The value of four bytes, the first counting least. */
  ghost function ValueOf(bytes: seq<Byte>): int {
    if bytes == [] then 0 else bytes[0] + 0x100 * ValueOf(bytes[1..])
  }

  lemma WordIsValue(memory: seq<Byte>, i: nat)
    requires 4 * i + 4 <= |memory|
    ensures WordAt(memory, i) == ValueOf(memory[4 * i..4 * i + 4])
  {
    ValueOfFour(memory[4 * i], memory[4 * i + 1], memory[4 * i + 2], memory[4 * i + 3]);
    assert memory[4 * i..4 * i + 4] == [memory[4 * i], memory[4 * i + 1], memory[4 * i + 2], memory[4 * i + 3]];
  }

  lemma ValueOfFour(b0: Byte, b1: Byte, b2: Byte, b3: Byte)
    ensures ValueOf([b0, b1, b2, b3]) == b0 as int + 0x100 * b1 as int + 0x1_0000 * b2 as int + 0x100_0000 * b3 as int
  {
    assert [b0, b1, b2, b3][1..] == [b1, b2, b3] && [b1, b2, b3][1..] == [b2, b3] && [b2, b3][1..] == [b3];
    assert ValueOf([b3]) == b3 && ValueOf([b2, b3]) == b2 + 0x100 * ValueOf([b3]);
  }

  /** Slot `s` holds the program with this name and argument, started from the file of entry `e`. */
  ghost predicate Holds(img: Image, w: Whole, s: int, name: seq<Byte>, argument: seq<Byte>, e: Dentry)
    requires WellFormed(img) && Sized(w) && 0 <= s < Stacks.TASK_SLOTS
  {
    && w.programs[s].name == name && w.programs[s].argument == argument
    && 0 <= e.inode < |img.inodes|
    && var ino := img.inodes[e.inode]; var image := w.memory[s + 2];
       && image == Stream(img, ino, 0, 0x200000)
       && w.programs[s].entry == ValueOf(image[24..28])
  }

  /** A kernel in which a program was started in slot `s`, and nothing else has changed. */
  ghost predicate Started(img: Image, w: Whole, r: Whole, s: int)
    requires WellFormed(img) && Sized(w) && Sized(r)
  {
    && 0 <= s < Stacks.TASK_SLOTS
    && !Stacks.OnStack(w.tasks.stacks, s) && Stacks.OnStack(r.tasks.stacks, s) && Stacks.Running(r.tasks) == s
    && OnlyConsole(r.programs[s].fds)
    && (forall k :: 0 <= k < Stacks.TASK_SLOTS && k != s ==> r.programs[k] == w.programs[k])
    && (forall k :: 0 <= k < FRAMES && k != s + 2 ==> r.memory[k] == w.memory[k])
    && r.died == w.died
  }

  /** The program that runs then is the one that was started. */
  ghost predicate Starts(img: Image, w: Whole, r: Whole, name: seq<Byte>, argument: seq<Byte>, e: Dentry)
    requires WellFormed(img) && Sized(w) && Sized(r)
  {
    Started(img, w, r, Stacks.Running(r.tasks)) && Holds(img, r, Stacks.Running(r.tasks), name, argument, e)
  }

  lemma LaunchedProgram(img: Image, command: seq<Byte>, stale: Dentry, name: seq<Byte>, argument: seq<Byte>, e: Dentry)
    requires WellFormed(img) && Parse(command) == Command(name, argument)
    requires e == LaunchEntry(img, name, stale) && Executable(img, e)
    ensures Launchable(img, command, stale)
    ensures LaunchedImage(img, command, stale) == Stream(img, img.inodes[e.inode], 0, 0x200000)
    ensures var p := Launched(img, command, stale);
      && p.name == name && p.argument == argument && OnlyConsole(p.fds)
      && p.entry == ValueOf(LaunchedImage(img, command, stale)[24..28])
  {
    hide Parse, WellFormed, Executable, LaunchEntry, Stream;
    WordIsValue(LaunchedImage(img, command, stale), EIP_OFFSET);
  }

  lemma InstalledStarts(img: Image, w: Whole, m: Stacks.Machine, p: Program, image: seq<Byte>, e: Dentry)
    requires WellFormed(img) && Sized(w) && Stacks.WellFormed(m) && 0 <= Stacks.Running(m) < Stacks.TASK_SLOTS
    requires !Stacks.OnStack(w.tasks.stacks, Stacks.Running(m)) && Stacks.OnStack(m.stacks, Stacks.Running(m))
    requires 0 <= e.inode < |img.inodes| && image == Stream(img, img.inodes[e.inode], 0, 0x200000)
    requires OnlyConsole(p.fds) && p.entry == ValueOf(image[24..28])
    ensures var s := Stacks.Running(m); var r := Whole(m, w.programs[s := p], w.memory[s + 2 := image], w.died);
      Sized(r) && Starts(img, w, r, p.name, p.argument, e)
  {
    hide WellFormed, Stacks.WellFormed, Stacks.OnStack, Stacks.Running, Stream, ValueOf;
  }

  /** With fewer than six tasks, the task that a launch adds takes a free slot and runs in its frame. */
  lemma NewSlot(m: Stacks.Machine)
    requires Stacks.WellFormed(m) && Stacks.Depth(m.stacks) < Stacks.TASK_SLOTS
    ensures var r := Stacks.Execute(m, true); var s := Stacks.Running(r);
      && s == Stacks.FirstFree(m.stacks) && 0 <= s < Stacks.TASK_SLOTS && FrameNumber(r.program) == s + 2
      && !Stacks.OnStack(m.stacks, s) && Stacks.OnStack(r.stacks, s)
  {
    hide Stacks.Shape, Stacks.OnStack;
    TaskRuns.FullAtSix(m);
    TaskRuns.ExecuteRefusedAtSix(m, true);
    LaunchedStacks(m);
    ExecuteMaps(m);
    hide Stacks.FirstFree, Stacks.Execute;
  }

  lemma StartStarts(img: Image, w: Whole, command: seq<Byte>, stale: Dentry, name: seq<Byte>, argument: seq<Byte>,
                    e: Dentry)
    requires WellFormed(img) && Sized(w) && Parse(command) == Command(name, argument)
    requires e == LaunchEntry(img, name, stale) && Executable(img, e)
    requires Stacks.Depth(w.tasks.stacks) < Stacks.TASK_SLOTS
    ensures Starts(img, w, Start(img, w, command, stale), name, argument, e)
  {
    hide Stacks.OnStack, Stacks.WellFormed, Stacks.FirstFree, Stacks.Execute, Stacks.Running, Stacks.Depth, Starts;
    hide Parse, WellFormed, LaunchEntry, Stream, Launched, LaunchedImage, Launchable, OnlyConsole, ValueOf;
    assert 0 <= e.inode < |img.inodes|;
    hide Executable;
    LaunchedProgram(img, command, stale, name, argument, e);
    NewSlot(w.tasks);
    InstalledStarts(img, w, Stacks.Execute(w.tasks, true), Launched(img, command, stale),
                    LaunchedImage(img, command, stale), e);
  }

  /** A command line is spaces, a name, spaces, an argument and a rest. If the first entry with that name is that of
      an executable and fewer than six tasks exist, the program runs in a slot that was free, with exactly that name
      and argument, with closed descriptors, and with its file in memory; no other program, and no other memory,
      changes. In every other case nothing changes. */
  lemma ExecuteOutcome(img: Image, w: Whole, lead: nat, name: seq<Byte>, gap: nat, argument: seq<Byte>, rest: seq<Byte>,
                       i: nat, stale: Dentry)
    requires WellFormed(img) && Sized(w) && w.tasks.active != Stacks.NO_TASK
    requires IsWord(name) && IsArgument(argument) && IsRest(argument, rest) && (gap > 0 || argument == [])
    requires FirstNamed(img, name, i)
    ensures var e := EntryAt(img, i, stale); var r := Do(img, w, Execute(Line(lead, name, gap, argument, rest), stale));
      if |name| <= MAX_FILENAME && StartsWithMagic(img, e) && Stacks.Depth(w.tasks.stacks) < Stacks.TASK_SLOTS
      then Starts(img, w, r, name, argument, e) else r == w
  {
    var command, e := Line(lead, name, gap, argument, rest), EntryAt(img, i, stale);
    WrittenLineParses(lead, name, gap, argument, rest);
    MagicIsExecutable(img, e);
    TaskRuns.FullAtSix(w.tasks);
    if |name| <= MAX_FILENAME {
      EntryIsFound(img, name, i, stale);
      if StartsWithMagic(img, e) && Stacks.Depth(w.tasks.stacks) < Stacks.TASK_SLOTS {
        StartStarts(img, w, command, stale, name, argument, e);
      }
    }
    hide Line, FirstNamed, WellFormed, Stacks.OnStack, Stacks.WellFormed, Stacks.Depth;
    hide Stacks.FirstFree, Stacks.Execute, StartsWithMagic, Executable, LaunchEntry, OnlyConsole;
    hide Holds, IsArgument, Parse, Launched, LaunchedImage;
  }

  /** A line of spaces starts nothing. */
  lemma BlankStartsNothing(img: Image, w: Whole, n: nat, rest: seq<Byte>, stale: Dentry)
    requires WellFormed(img) && Sized(w) && NUL !in rest && (rest == [] || rest[0] == NEWLINE)
    ensures Do(img, w, Execute(Spaces(n) + rest, stale)) == w
  {
    var c := Spaces(n) + rest;
    SpacesEndIs(c, 0, n);
    BlankLine(c);
    hide Parse, Stacks.FirstFree, Stacks.Execute;
  }

  /** A shell that is missing is started by the tick that serves its terminal, under its own name and without an
      argument. */
  lemma TickStartsShell(img: Image, w: Whole, i: nat, stale: Dentry)
    requires WellFormed(img) && Sized(w) && ShellMissing(w.tasks)
    requires FirstNamed(img, SHELL_NAME, i) && StartsWithMagic(img, EntryAt(img, i, stale))
    ensures Starts(img, w, Do(img, w, Tick(stale)), SHELL_NAME, [], EntryAt(img, i, stale))
  {
    ShellLine(img, i, stale);
    LaunchableShellStarts(img, w, EntryAt(img, i, stale), stale);
    hide *;
  }

  lemma LaunchableShellStarts(img: Image, w: Whole, e: Dentry, stale: Dentry)
    requires WellFormed(img) && Sized(w) && ShellMissing(w.tasks) && Launchable(img, Ascii(SHELL), stale)
    requires Parse(Ascii(SHELL)) == Command(Ascii(SHELL), [])
    requires e == LaunchEntry(img, Ascii(SHELL), stale) && Executable(img, e)
    ensures Starts(img, w, Do(img, w, Tick(stale)), Ascii(SHELL), [], e)
  {
    hide WellFormed, Start, Starts, Executable, LaunchEntry, Parse, Launchable, Do;
    hide Stacks.WellFormed, ShellMissing, ShowMissing;
    var m := ShowMissing(w.tasks);
    TickIsStart(img, w, stale);
    RoomForShell(w.tasks);
    StartStarts(img, w.(tasks := m), Ascii(SHELL), stale, Ascii(SHELL), [], e);
    StartsFromShown(img, w, m, Start(img, w.(tasks := m), Ascii(SHELL), stale), Ascii(SHELL), [], e);
  }

  lemma RoomForShell(m: Stacks.Machine)
    requires Stacks.WellFormed(m) && ShellMissing(m)
    ensures Stacks.Depth(m.stacks) < Stacks.TASK_SLOTS
  {
    MissingShellStarts(m);
    TaskRuns.FullAtSix(m);
  }

  lemma TickIsStart(img: Image, w: Whole, stale: Dentry)
    requires WellFormed(img) && Sized(w) && ShellMissing(w.tasks) && Launchable(img, Ascii(SHELL), stale)
    ensures Do(img, w, Tick(stale)) == Start(img, w.(tasks := ShowMissing(w.tasks)), Ascii(SHELL), stale)
  {
    hide WellFormed, Launchable, Start, ShowMissing, ShellMissing, Stacks.WellFormed;
  }

  lemma StartsFromShown(img: Image, w: Whole, m: Stacks.Machine, r: Whole, name: seq<Byte>, argument: seq<Byte>,
                        e: Dentry)
    requires WellFormed(img) && Sized(w) && Stacks.WellFormed(m) && m.stacks == w.tasks.stacks && Sized(r)
    requires Sized(w.(tasks := m)) && Starts(img, w.(tasks := m), r, name, argument, e)
    ensures Starts(img, w, r, name, argument, e)
  {
    hide WellFormed, Stacks.WellFormed, Stacks.OnStack, Stacks.Running, Holds, OnlyConsole;
  }

  lemma ShellLine(img: Image, i: nat, stale: Dentry)
    requires WellFormed(img)
    requires FirstNamed(img, SHELL_NAME, i) && StartsWithMagic(img, EntryAt(img, i, stale))
    ensures Ascii(SHELL) == SHELL_NAME
    ensures Parse(Ascii(SHELL)) == Command(Ascii(SHELL), []) && Launchable(img, Ascii(SHELL), stale)
    ensures EntryAt(img, i, stale) == LaunchEntry(img, Ascii(SHELL), stale) && Executable(img, EntryAt(img, i, stale))
  {
    var name := Ascii(SHELL);
    assert name == SHELL_NAME;
    assert Line(0, name, 0, [], []) == name;
    WrittenLineParses(0, name, 0, [], []);
    EntryIsFound(img, name, i, stale);
    MagicIsExecutable(img, EntryAt(img, i, stale));
    hide Parse, FirstNamed, WellFormed;
  }

  // ----- a program keeps what it was started with -----

  /** A program is started only in a slot that no task has. */
  lemma StartsFree(img: Image, w: Whole, c: Call)
    requires WellFormed(img) && Sized(w)
    ensures !Stacks.OnStack(w.tasks.stacks, StartsIn(img, w, c))
  {
    Stacks.FirstFreeMeaning(w.tasks.stacks, 0);
    hide Launchable, WellFormed, ShellMissing;
  }

  /** A call changes the program of a living task only if the task itself uses its descriptors, and then in the way
      that the table's open, close or read does. */
  lemma CallKeeps(img: Image, w: Whole, c: Call, s: int)
    requires WellFormed(img) && Sized(w) && 0 <= s < Stacks.TASK_SLOTS
    requires Stacks.OnStack(w.tasks.stacks, s) && Stacks.OnStack(Do(img, w, c).tasks.stacks, s)
    ensures var p := w.programs[s]; var r := Do(img, w, c);
      && r.memory[s + 2] == w.memory[s + 2]
      && r.programs[s]
           == if c.Use? && Stacks.Running(w.tasks) == s then p.(fds := Descriptors.Step(img, p.fds, c.e)) else p
  {
    StartsFree(img, w, c);
    DoKeeps(img, w, c, s);
    hide Do, Stacks.OnStack, WellFormed, StartsIn, Launched, LaunchedImage, Descriptors.Step;
  }

  /** The task of slot `s` exists throughout the run. */
  ghost predicate Lives(img: Image, w: Whole, cs: seq<Call>, s: int)
    requires WellFormed(img) && Sized(w)
  {
    forall n :: 0 <= n <= |cs| ==> Stacks.OnStack(Run(img, w, cs[..n]).tasks.stacks, s)
  }

  /** Whatever is executed, halted, opened, read and switched in the meantime, a task that lives keeps its name, its
      argument, its entry point and its memory. */
  lemma {:induction false} LiveProgramStays(img: Image, w: Whole, cs: seq<Call>, s: int)
    requires WellFormed(img) && Sized(w) && 0 <= s < Stacks.TASK_SLOTS && Lives(img, w, cs, s)
    ensures var r := Run(img, w, cs);
      && r.programs[s].(fds := w.programs[s].fds) == w.programs[s]
      && r.memory[s + 2] == w.memory[s + 2]
  {
    if cs != [] {
      hide Do, Stacks.OnStack, WellFormed, Descriptors.Step, Lives, Stacks.WellFormed;
      var n := |cs| - 1;
      LivesBefore(img, w, cs, s);
      LiveProgramStays(img, w, cs[..n], s);
      CallKeeps(img, Run(img, w, cs[..n]), cs[n], s);
    }
  }

  lemma LivesBefore(img: Image, w: Whole, cs: seq<Call>, s: int)
    requires WellFormed(img) && Sized(w) && Lives(img, w, cs, s) && cs != []
    ensures var n := |cs| - 1; var before := Run(img, w, cs[..n]);
      && Lives(img, w, cs[..n], s) && Stacks.OnStack(before.tasks.stacks, s)
      && Stacks.OnStack(Do(img, before, cs[n]).tasks.stacks, s)
  {
    hide Do, Stacks.OnStack, WellFormed, Stacks.WellFormed;
    var n := |cs| - 1;
    assert cs[..|cs|] == cs;
    assert forall k :: 0 <= k <= n ==> cs[..n][..k] == cs[..k];
  }

  /** The running program of kernel `now` was started from a command line with this argument, lives since, and
      whatever else happened is the run of calls `cs`. */
  ghost predicate StartedWith(img: Image, w: Whole, lead: nat, name: seq<Byte>, gap: nat, argument: seq<Byte>,
                              rest: seq<Byte>, i: nat, stale: Dentry, cs: seq<Call>, now: Whole)
    requires WellFormed(img)
  {
    && Sized(w) && w.tasks.active != Stacks.NO_TASK && Stacks.Depth(w.tasks.stacks) < Stacks.TASK_SLOTS
    && IsWord(name) && IsArgument(argument) && IsRest(argument, rest) && (gap > 0 || argument == [])
    && FirstNamed(img, name, i) && |name| <= MAX_FILENAME && StartsWithMagic(img, EntryAt(img, i, stale))
    && var w1 := Do(img, w, Execute(Line(lead, name, gap, argument, rest), stale));
       Lives(img, w1, cs, Stacks.Running(w1.tasks))
       && now == Run(img, w1, cs) && Stacks.Running(now.tasks) == Stacks.Running(w1.tasks)
  }

  /** So the argument that a program finds whenever it runs is the one on its command line. */
  lemma ArgumentStays(img: Image, w: Whole, lead: nat, name: seq<Byte>, gap: nat, argument: seq<Byte>, rest: seq<Byte>,
                      i: nat, stale: Dentry, cs: seq<Call>, now: Whole)
    requires WellFormed(img) && StartedWith(img, w, lead, name, gap, argument, rest, i, stale, cs, now)
    ensures Sized(now) && 0 <= Stacks.Running(now.tasks) < Stacks.TASK_SLOTS
    ensures Holds(img, now, Stacks.Running(now.tasks), name, argument, EntryAt(img, i, stale))
  {
    hide Do, Run, Lives, WellFormed, Line, FirstNamed, StartsWithMagic, Stacks.OnStack, OnlyConsole, Stacks.WellFormed;
    hide IsArgument, IsRest, IsWord;
    ExecuteOutcome(img, w, lead, name, gap, argument, rest, i, stale);
    var w1 := Do(img, w, Execute(Line(lead, name, gap, argument, rest), stale));
    LiveProgramStays(img, w1, cs, Stacks.Running(w1.tasks));
  }

  /** How a program fetches its argument: it gets what stands on its command line, whatever ran in between. */
  method FetchArgument(kernel: Processes.System, buf: array<Byte>, ghost w: Whole, ghost lead: nat,
                       ghost name: seq<Byte>, ghost gap: nat, ghost argument: seq<Byte>, ghost rest: seq<Byte>,
                       ghost i: nat, ghost stale: Dentry, ghost cs: seq<Call>)
    returns (found: bool)
    requires kernel.Valid() && buf !in kernel.Repr && kernel.tasks.tasksRunning != Stacks.NO_TASK
    requires StartedWith(kernel.img, w, lead, name, gap, argument, rest, i, stale, cs, kernel.Abs())
    modifies buf
    ensures kernel.Valid() && kernel.Abs() == old(kernel.Abs())
    ensures found <==> argument != [] && |argument| <= buf.Length
    ensures found && |argument| < buf.Length ==> NUL in buf[..] && CString(buf[..]) == argument
  {
    ArgumentStays(kernel.img, w, lead, name, gap, argument, rest, i, stale, cs, kernel.Abs());
    hide StartedWith, WellFormed, Stacks.WellFormed, Stacks.OnStack;
    var r := kernel.SyscallGetargs(buf, buf.Length);
    found := r == 0;
    assert buf[..buf.Length] == buf[..];
  }

  // ----- the end of a program -----

  /** A program that halts or has an exception leaves its slot with its files closed, clears the exception flag, and
      changes nothing else of any program. A base shell starts over as it was. */
  lemma HaltEnds(img: Image, w: Whole, c: Call)
    requires WellFormed(img) && Sized(w) && w.tasks.active != Stacks.NO_TASK
    requires c.Halt? || (c.Exception? && Stacks.Running(w.tasks) != 0)
    requires 0 <= Stacks.Running(w.tasks) < Stacks.TASK_SLOTS
    requires Descriptors.TableInv(w.programs[Stacks.Running(w.tasks)].fds)
    ensures var s := Stacks.Running(w.tasks); var r := Do(img, w, c);
      && r.memory == w.memory
      && (forall k :: 0 <= k < Stacks.TASK_SLOTS && k != s ==> r.programs[k] == w.programs[k])
      && r.programs[s].(fds := w.programs[s].fds) == w.programs[s]
      && if |w.tasks.stacks[w.tasks.active]| > 1
         then OnlyConsole(r.programs[s].fds) && !Stacks.OnStack(r.tasks.stacks, s) && !r.died
         else r.tasks == w.tasks && r.programs == w.programs && r.died == (w.died || c.Exception?)
  {
    var s := Stacks.Running(w.tasks);
    Descriptors.CloseAllMeaning(w.programs[s].fds, 0);
    Stacks.PopShape(w.tasks.stacks, w.tasks.active);
    hide Stacks.OnStack, Stacks.Shape, WellFormed, Descriptors.CloseFrom, Launchable, Stacks.FirstFree;
  }

  /** Over every run, the launcher of a halting program gets the status of the halt, or 256 if and only if a base
      shell had an exception after the last program returned. */
  lemma ReportedStatus(img: Image, w: Whole, cs: seq<Call>, status: Byte)
    requires WellFormed(img) && Sized(w) && !w.died
    ensures HaltCode(Run(img, w, cs), status)
      == if exists i :: 0 <= i < |cs| && LeftAt(img, w, cs, i) then 256 else status as int
  {
    ExceptionPendingIff(img, w, cs);
    hide Run, LeftAt, WellFormed;
  }
}
