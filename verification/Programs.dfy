/** What the whole kernel is meant to be: the three call stacks, and for every task slot the program in it, with its
    name, argument, descriptors and memory. The theorems are about every run of executes, halts, exceptions, terminal
    switches, timer ticks, opens, closes and reads. */
module Programs {
  import opened Bytes
  import opened FileSystem
  import opened Directory
  import Commands
  import Descriptors
  import FileReads
  import Stacks
  import TaskRuns
  import TaskTable

  const ELF_MAGIC: seq<Byte> := [0x7F, 0x45, 0x4C, 0x46]
  const TWO_MB := 0x200000
  const EIP_OFFSET := 6
  const SHELL := "shell"
  const FRAMES := Stacks.TASK_SLOTS + 2

  /** A program as its control block describes it. `entry` is the address where it starts. */
  datatype Program = Program(name: seq<Byte>, argument: seq<Byte>, fds: seq<Descriptors.Fd>, entry: int)

  /** The kernel: its tasks, the program of every slot, what was loaded to every 4MB frame of memory, and whether the
      next halt reports an exception. */
  datatype Whole = Whole(tasks: Stacks.Machine, programs: seq<Program>, memory: seq<seq<Byte>>, died: bool)

  /** `stale` is the directory entry that an execute uses if it does not find its file. */
  datatype Call =
    | Execute(command: seq<Byte>, stale: Dentry)
    | Tick(stale: Dentry)
    | Switch(terminal: int)
    | Vidmap
    | Halt
    | Exception
    | Use(e: Descriptors.Event)

  ghost predicate Sized(w: Whole) {
    && Stacks.WellFormed(w.tasks) && |w.programs| == Stacks.TASK_SLOTS && |w.memory| == FRAMES
    && forall s :: 0 <= s < Stacks.TASK_SLOTS ==> |w.programs[s].fds| == Descriptors.FD_COUNT
  }

  // ----- starting a program -----

  /** The directory entry an execute works with. A failed lookup is not noticed, and leaves the entry `stale`. */
  ghost function LaunchEntry(img: Image, name: seq<Byte>, stale: Dentry): Dentry
    requires WellFormed(img)
  {
    if Descriptors.Found(img, name) then img.entries[Lookup(img, name)] else stale
  }

  /** The entry's file starts with the four bytes of an executable. */
  ghost predicate Executable(img: Image, e: Dentry)
    requires WellFormed(img)
  {
    && 0 <= e.inode < |img.inodes|
    && img.inodes[e.inode].length >= 4
    && Stream(img, img.inodes[e.inode], 0, 4) == ELF_MAGIC
  }

  /** A word of memory, lowest byte first. */
  function WordAt(memory: seq<Byte>, i: nat): int
    requires 4 * i + 4 <= |memory|
  {
    var b0: int, b1: int, b2: int, b3: int := memory[4 * i], memory[4 * i + 1], memory[4 * i + 2], memory[4 * i + 3];
    b0 + 0x100 * b1 + 0x1_0000 * b2 + 0x100_0000 * b3
  }

  /** A load copies two megabytes of the file's blocks, whatever the length of the file. */
  ghost function LoadedImage(img: Image, e: Dentry): (image: seq<Byte>)
    requires WellFormed(img) && Executable(img, e)
    ensures |image| == TWO_MB
  {
    Stream(img, img.inodes[e.inode], 0, TWO_MB)
  }

  /** The number of the 4MB frame that a page directory entry maps. */
  function FrameNumber(p: Stacks.PageEntry): int {
    if p.Page? then p.base / Stacks.FOUR_MB else 0
  }

  /** The frames of different tasks are different ones. */
  lemma OwnFrame(s: int)
    requires 0 <= s < Stacks.TASK_SLOTS
    ensures FrameNumber(Stacks.Frame(s)) == s + 2 < FRAMES
  {
  }

  /** The command line names an executable. */
  ghost predicate Launchable(img: Image, command: seq<Byte>, stale: Dentry)
    requires WellFormed(img)
  {
    var c := Commands.Parse(command);
    c.Command? && Executable(img, LaunchEntry(img, c.name, stale))
  }

  /** What a command line loads. */
  ghost function LaunchedImage(img: Image, command: seq<Byte>, stale: Dentry): (image: seq<Byte>)
    requires WellFormed(img) && Launchable(img, command, stale)
    ensures |image| == TWO_MB
  {
    LoadedImage(img, LaunchEntry(img, Commands.Parse(command).name, stale))
  }

  /** The program that a command line starts. */
  ghost function Launched(img: Image, command: seq<Byte>, stale: Dentry): (p: Program)
    requires WellFormed(img) && Launchable(img, command, stale)
    ensures |p.fds| == Descriptors.FD_COUNT
  {
    var c := Commands.Parse(command);
    var image := LaunchedImage(img, command, stale);
    Program(c.name, c.argument, Descriptors.FreshTable(), WordAt(image, EIP_OFFSET))
  }

  // ----- the meaning of the calls -----

  /** The program goes to the lowest free slot, and its image to the frame that is mapped then. */
  ghost function Start(img: Image, w: Whole, command: seq<Byte>, stale: Dentry): (r: Whole)
    requires WellFormed(img) && Sized(w)
    ensures Sized(r)
  {
    var s := Stacks.FirstFree(w.tasks.stacks);
    if s == Stacks.NO_TASK || !Launchable(img, command, stale) then w
    else
      var m := Stacks.Execute(w.tasks, true);
      ExecuteMaps(w.tasks);
      Whole(m, w.programs[s := Launched(img, command, stale)],
            w.memory[FrameNumber(m.program) := LaunchedImage(img, command, stale)], w.died)
  }

  lemma ExecuteMaps(m: Stacks.Machine)
    requires Stacks.WellFormed(m) && Stacks.FirstFree(m.stacks) != Stacks.NO_TASK
    ensures var s := Stacks.FirstFree(m.stacks);
      && 0 <= s < Stacks.TASK_SLOTS && Stacks.Execute(m, true).program == Stacks.Frame(s)
      && FrameNumber(Stacks.Execute(m, true).program) == s + 2
  {
    Stacks.FirstFreeMeaning(m.stacks, 0);
    OwnFrame(Stacks.FirstFree(m.stacks));
  }

  /** The terminal that a tick serves, and whether it has no shell. */
  ghost predicate ShellMissing(m: Stacks.Machine)
    requires Stacks.WellFormed(m)
  {
    m.stacks[if m.bootup then 0 else m.next] == []
  }

  ghost function PassTurn(m: Stacks.Machine): Stacks.Machine {
    m.(next := (m.next + 1) % Stacks.TERMINALS)
  }

  /** The boot ends, and the terminal that has no shell is displayed. */
  ghost function ShowMissing(m: Stacks.Machine): (r: Stacks.Machine)
    requires Stacks.WellFormed(m)
    ensures Stacks.WellFormed(r) && r.stacks == m.stacks
  {
    var m1 := Stacks.EndBoot(m);
    var t := if m.bootup then 0 else m.next;
    Stacks.Display(m1.(bootup := m1.bootup || t == 2), t)
  }

  /** A missing shell is started from its file, like any other program. */
  ghost function TickWhole(img: Image, w: Whole, stale: Dentry): (r: Whole)
    requires WellFormed(img) && Sized(w)
    ensures Sized(r)
  {
    if !ShellMissing(w.tasks) then w.(tasks := PassTurn(Stacks.EndBoot(w.tasks)))
    else
      var shown := w.(tasks := ShowMissing(w.tasks));
      if Launchable(img, Ascii(SHELL), stale) then Start(img, shown, Ascii(SHELL), stale)
      else shown.(tasks := PassTurn(shown.tasks))
  }

  /** A halting program closes its files. A base shell starts over, keeps them, and leaves a pending exception
      pending. */
  ghost function Quit(w: Whole): (r: Whole)
    requires Sized(w)
    ensures Sized(r)
  {
    if w.tasks.active == Stacks.NO_TASK || |w.tasks.stacks[w.tasks.active]| == 1 then w
    else
      Stacks.RunningOnStack(w.tasks);
      var s := Stacks.Running(w.tasks);
      var p := w.programs[s];
      Whole(Stacks.Return(w.tasks), w.programs[s := p.(fds := Descriptors.CloseFrom(p.fds, 0))], w.memory, false)
  }

  /** What the execute that launched the halting program returns. */
  ghost function HaltCode(w: Whole, status: Byte): int {
    if w.died then 256 else status
  }

  ghost function UseFds(img: Image, w: Whole, e: Descriptors.Event): (r: Whole)
    requires WellFormed(img) && Sized(w)
    ensures Sized(r)
  {
    if w.tasks.active == Stacks.NO_TASK then w
    else
      Stacks.RunningOnStack(w.tasks);
      var s := Stacks.Running(w.tasks);
      var p := w.programs[s];
      w.(programs := w.programs[s := p.(fds := Descriptors.Step(img, p.fds, e))])
  }

  /** An exception of task 0 stops the kernel; it has no event. Nothing else is called before the first shell runs. */
  ghost function Do(img: Image, w: Whole, c: Call): (r: Whole)
    requires WellFormed(img) && Sized(w)
    ensures Sized(r)
  {
    match c
    case Execute(command, stale) => if w.tasks.active == Stacks.NO_TASK then w else Start(img, w, command, stale)
    case Tick(stale) => TickWhole(img, w, stale)
    case Switch(t) => w.(tasks := Stacks.Display(w.tasks, t))
    case Vidmap => if w.tasks.active == Stacks.NO_TASK then w else w.(tasks := w.tasks.(video := true))
    case Halt => Quit(w)
    case Exception => if Stacks.Running(w.tasks) in {Stacks.NO_TASK, 0} then w else Quit(w.(died := true))
    case Use(e) => UseFds(img, w, e)
  }

  ghost function Run(img: Image, w: Whole, cs: seq<Call>): (r: Whole)
    requires WellFormed(img) && Sized(w)
    ensures Sized(r)
  {
    if cs == [] then w else Do(img, Run(img, w, cs[..|cs| - 1]), cs[|cs| - 1])
  }

  // ----- the tasks of the whole kernel are those of the task machine -----

  /** The event of the task machine that a call is, if it is one. */
  ghost function TaskEvents(img: Image, w: Whole, c: Call): seq<Stacks.Event>
    requires WellFormed(img) && Sized(w)
  {
    match c
    case Execute(command, stale) => [Stacks.UserExecute(Launchable(img, command, stale))]
    case Tick(stale) => [Stacks.Tick(Launchable(img, Ascii(SHELL), stale))]
    case Switch(t) => [Stacks.Switch(t)]
    case Vidmap => [Stacks.Vidmap]
    case Halt => [Stacks.Halt]
    case Exception => if Stacks.Running(w.tasks) == 0 then [] else [Stacks.Halt]
    case Use(_) => []
  }

  /** A missing shell always finds a free slot. */
  lemma MissingShellStarts(m: Stacks.Machine)
    requires Stacks.WellFormed(m) && ShellMissing(m)
    ensures 0 <= Stacks.FirstFree(m.stacks) < Stacks.TASK_SLOTS
  {
    hide Stacks.Shape;
    Stacks.FreeSlot(m);
  }

  lemma TickOfMachine(m: Stacks.Machine, shell: bool)
    requires Stacks.WellFormed(m)
    ensures Stacks.TickStep(m, shell) ==
      if !ShellMissing(m) then PassTurn(Stacks.EndBoot(m))
      else if shell then Stacks.Execute(ShowMissing(m), true)
      else PassTurn(ShowMissing(m))
  {
    hide Stacks.Shape, Stacks.FirstFree, Stacks.Display;
    if ShellMissing(m) {
      MissingShellStarts(m);
      var shown := ShowMissing(m);
      TaskTable.ExecuteGrows(shown, true);
      assert shown.next == m.next && Stacks.Execute(shown, false) == shown;
      var t := if m.bootup then 0 else m.next;
      assert Stacks.StartShell(Stacks.EndBoot(m), t, shell) == Stacks.Execute(shown, shell);
    }
  }

  lemma TickTasks(img: Image, w: Whole, stale: Dentry)
    requires WellFormed(img) && Sized(w)
    ensures TickWhole(img, w, stale).tasks == Stacks.TickStep(w.tasks, Launchable(img, Ascii(SHELL), stale))
  {
    hide Stacks.Shape, Launchable, WellFormed, Launched, Stacks.FirstFree, Stacks.TickStep, ShowMissing, Stacks.EndBoot;
    TickOfMachine(w.tasks, Launchable(img, Ascii(SHELL), stale));
    if ShellMissing(w.tasks) {
      MissingShellStarts(w.tasks);
    }
  }

  lemma DoTasks(img: Image, w: Whole, c: Call)
    requires WellFormed(img) && Sized(w)
    ensures Do(img, w, c).tasks == TaskRuns.Run(w.tasks, TaskEvents(img, w, c))
  {
    hide Stacks.Shape, Launchable, WellFormed, TickWhole, Stacks.TickStep, Stacks.FirstFree;
    if c.Tick? {
      TickTasks(img, w, c.stale);
    }
    if w.tasks.active != Stacks.NO_TASK {
      Stacks.RunningOnStack(w.tasks);
    }
    var es := TaskEvents(img, w, c);
    if es != [] {
      TaskRuns.RunOne(w.tasks, es[0]);
    }
  }

  ghost function EventsOf(img: Image, w: Whole, cs: seq<Call>): seq<Stacks.Event>
    requires WellFormed(img) && Sized(w)
  {
    if cs == [] then []
    else
      var n := |cs| - 1;
      EventsOf(img, w, cs[..n]) + TaskEvents(img, Run(img, w, cs[..n]), cs[n])
  }

  /** Every run of the whole kernel is the run of the task machine over the events that its calls are, so what is
      proved about those runs holds for it. */
  lemma {:induction false} RunTasks(img: Image, w: Whole, cs: seq<Call>)
    requires WellFormed(img) && Sized(w)
    ensures Run(img, w, cs).tasks == TaskRuns.Run(w.tasks, EventsOf(img, w, cs))
  {
    if cs != [] {
      hide Do, TaskRuns.Run, TaskEvents, WellFormed;
      var n := |cs| - 1;
      RunTasks(img, w, cs[..n]);
      var last := TaskEvents(img, Run(img, w, cs[..n]), cs[n]);
      DoTasks(img, Run(img, w, cs[..n]), cs[n]);
      TaskRuns.RunSplit(w.tasks, EventsOf(img, w, cs[..n]), last);
    }
  }

  // ----- every task keeps its own program -----

  /** The slot in which a call starts a program, or NO_TASK. */
  ghost function StartsIn(img: Image, w: Whole, c: Call): int
    requires WellFormed(img) && Sized(w)
  {
    match c
    case Execute(command, stale) =>
      if w.tasks.active != Stacks.NO_TASK && Launchable(img, command, stale) then Stacks.FirstFree(w.tasks.stacks)
      else Stacks.NO_TASK
    case Tick(stale) =>
      if ShellMissing(w.tasks) && Launchable(img, Ascii(SHELL), stale) then Stacks.FirstFree(w.tasks.stacks)
      else Stacks.NO_TASK
    case _ => Stacks.NO_TASK
  }

  ghost function CommandOf(c: Call): seq<Byte>
    requires c.Execute? || c.Tick?
  {
    if c.Execute? then c.command else Ascii(SHELL)
  }

  /** The program of slot `s` after one call. */
  ghost predicate Keeps(img: Image, w: Whole, c: Call, w': Whole, s: int)
    requires WellFormed(img) && Sized(w) && Sized(w') && 0 <= s < Stacks.TASK_SLOTS
  {
    Stacks.OnStack(w'.tasks.stacks, s) ==>
      if StartsIn(img, w, c) == s then
        && w'.programs[s] == Launched(img, CommandOf(c), c.stale)
        && w'.memory[s + 2] == LaunchedImage(img, CommandOf(c), c.stale)
      else
        && Stacks.OnStack(w.tasks.stacks, s)
        && w'.programs[s] == AfterUse(img, w, c, s) && w'.memory[s + 2] == w.memory[s + 2]
  }

  /** Only a call of its own changes the descriptors of a task. */
  ghost function AfterUse(img: Image, w: Whole, c: Call, s: int): Program
    requires WellFormed(img) && Sized(w) && 0 <= s < Stacks.TASK_SLOTS
  {
    var p := w.programs[s];
    if c.Use? && Stacks.Running(w.tasks) == s then p.(fds := Descriptors.Step(img, p.fds, c.e)) else p
  }

  /** A new task takes the lowest free slot and leaves the others as they are. */
  lemma LaunchedStacks(m: Stacks.Machine)
    requires Stacks.WellFormed(m) && Stacks.FirstFree(m.stacks) != Stacks.NO_TASK
    ensures var s := Stacks.FirstFree(m.stacks); var r := Stacks.Execute(m, true);
      && 0 <= s < Stacks.TASK_SLOTS && !Stacks.OnStack(m.stacks, s)
      && forall k :: Stacks.OnStack(r.stacks, k) <==> Stacks.OnStack(m.stacks, k) || k == s
  {
    Stacks.FirstFreeMeaning(m.stacks, 0);
    Stacks.ActiveUnlessEmpty(m);
    var s := Stacks.FirstFree(m.stacks);
    if s < Stacks.TERMINALS {
      Stacks.BaseStackEmpty(m.stacks, s);
    }
    Stacks.PushShape(m.stacks, if s < Stacks.TERMINALS then s else m.active, s);
  }

  lemma StartKeeps(img: Image, w: Whole, command: seq<Byte>, stale: Dentry, s: int)
    requires WellFormed(img) && Sized(w) && 0 <= s < Stacks.TASK_SLOTS
    ensures var r := Start(img, w, command, stale); var slot := Stacks.FirstFree(w.tasks.stacks);
      Stacks.OnStack(r.tasks.stacks, s) ==>
        if Launchable(img, command, stale) && slot == s then
          r.programs[s] == Launched(img, command, stale) && r.memory[s + 2] == LaunchedImage(img, command, stale)
        else
          && Stacks.OnStack(w.tasks.stacks, s)
          && r.programs[s] == w.programs[s] && r.memory[s + 2] == w.memory[s + 2]
  {
    hide Launchable, WellFormed, Launched, LaunchedImage;
    if Stacks.FirstFree(w.tasks.stacks) != Stacks.NO_TASK {
      LaunchedStacks(w.tasks);
      ExecuteMaps(w.tasks);
    }
    hide Stacks.OnStack, Stacks.Shape, Stacks.Execute;
  }

  lemma QuitKeeps(w: Whole, s: int)
    requires Sized(w) && 0 <= s < Stacks.TASK_SLOTS
    ensures Stacks.OnStack(Quit(w).tasks.stacks, s) ==>
      Stacks.OnStack(w.tasks.stacks, s) && Quit(w).programs[s] == w.programs[s] && Quit(w).memory == w.memory
  {
    if w.tasks.active != Stacks.NO_TASK {
      Stacks.PopShape(w.tasks.stacks, w.tasks.active);
    }
    hide Stacks.OnStack, Stacks.Shape;
  }

  lemma DoKeeps(img: Image, w: Whole, c: Call, s: int)
    requires WellFormed(img) && Sized(w) && 0 <= s < Stacks.TASK_SLOTS
    ensures Keeps(img, w, c, Do(img, w, c), s)
  {
    hide Stacks.OnStack, Stacks.Shape, Launchable, Launched, LaunchedImage, WellFormed, Start, Quit, Stacks.FirstFree;
    hide ShowMissing;
    match c
    case Execute(command, stale) => StartKeeps(img, w, command, stale, s);
    case Tick(stale) =>
      if ShellMissing(w.tasks) {
        StartKeeps(img, w.(tasks := ShowMissing(w.tasks)), Ascii(SHELL), stale, s);
      }
    case Switch(t) =>
    case Vidmap =>
    case Halt => QuitKeeps(w, s);
    case Exception => QuitKeeps(w.(died := true), s);
    case Use(e) =>
  }

  /** What has become of a slot: nothing yet, or the program that was last started in it and what it did since. */
  datatype Life = Unused | Life(start: Program, image: seq<Byte>, calls: seq<Descriptors.Event>)

  ghost function LifeOf(img: Image, w: Whole, cs: seq<Call>, s: int): Life
    requires WellFormed(img) && Sized(w)
  {
    if cs == [] then Unused
    else
      var n := |cs| - 1;
      var before, c, life := Run(img, w, cs[..n]), cs[n], LifeOf(img, w, cs[..n], s);
      if s != Stacks.NO_TASK && StartsIn(img, before, c) == s then
        Life(Launched(img, CommandOf(c), c.stale), LaunchedImage(img, CommandOf(c), c.stale), [])
      else if life.Life? && c.Use? && Stacks.Running(before.tasks) == s then life.(calls := life.calls + [c.e])
      else life
  }

  /** From power on, over every run, a live task is the program that was started in its slot, with its own name,
      argument, entry and memory, and with the descriptors that its own calls alone have made of fresh ones. */
  lemma {:induction false} TasksLiveTheirOwnLives(img: Image, w: Whole, cs: seq<Call>, s: int)
    requires WellFormed(img) && Sized(w) && w.tasks == Stacks.PowerOn() && 0 <= s < Stacks.TASK_SLOTS
    requires Stacks.OnStack(Run(img, w, cs).tasks.stacks, s)
    ensures var life := LifeOf(img, w, cs, s);
      && life.Life?
      && Run(img, w, cs).programs[s] == life.start.(fds := Descriptors.Run(img, Descriptors.FreshTable(), life.calls))
      && life.start.fds == Descriptors.FreshTable()
      && Run(img, w, cs).memory[FrameNumber(Stacks.Frame(s))] == life.image
  {
    if cs == [] {
      NobodyRuns(s);
    } else {
      hide Do, Stacks.OnStack, Launchable, Launched, LaunchedImage, WellFormed, Descriptors.Run, Descriptors.Step;
      OwnFrame(s);
      var n := |cs| - 1;
      var before := Run(img, w, cs[..n]);
      DoKeeps(img, before, cs[n], s);
      if StartsIn(img, before, cs[n]) != s {
        TasksLiveTheirOwnLives(img, w, cs[..n], s);
        var life := LifeOf(img, w, cs[..n], s);
        if cs[n].Use? {
          Descriptors.RunSnoc(img, Descriptors.FreshTable(), life.calls, cs[n].e);
        }
      } else {
        assert Descriptors.Run(img, Descriptors.FreshTable(), []) == Descriptors.FreshTable() by {
          Descriptors.RunNothing(img, Descriptors.FreshTable());
        }
      }
    }
  }

  lemma NobodyRuns(s: int)
    ensures !Stacks.OnStack(Stacks.PowerOn().stacks, s)
  {
  }

  /** So a file that a task has opened and read delivers its block stream from the start, and the bytes of the file
      where its reads qualify, whatever the other tasks and terminals do in between. */
  lemma TaskReadsItsFiles(img: Image, w: Whole, cs: seq<Call>, s: int)
    requires WellFormed(img) && Descriptors.Kinds(img) && Sized(w) && w.tasks == Stacks.PowerOn()
    requires 0 <= s < Stacks.TASK_SLOTS && Stacks.OnStack(Run(img, w, cs).tasks.stacks, s)
    ensures LifeOf(img, w, cs, s).Life? && |Run(img, w, cs).programs[s].fds| == Descriptors.FD_COUNT
    ensures forall before, name, es, k, ino |
      && LifeOf(img, w, cs, s).calls == before + [Descriptors.Open(name)] + es
      && Descriptors.Opens(img, before, name, k, ino) && 0 <= k < Descriptors.FD_COUNT && Descriptors.Close(k) !in es ::
      Descriptors.Delivers(img, ino, Descriptors.Lengths(es, k), Run(img, w, cs).programs[s].fds[k].position)
  {
    var r := Run(img, w, cs);
    assert |r.programs| == Stacks.TASK_SLOTS && |r.programs[s].fds| == Descriptors.FD_COUNT;
    hide *;
    TasksLiveTheirOwnLives(img, w, cs, s);
    forall before, name, es, k, ino |
      && LifeOf(img, w, cs, s).calls == before + [Descriptors.Open(name)] + es
      && Descriptors.Opens(img, before, name, k, ino) && 0 <= k < Descriptors.FD_COUNT && Descriptors.Close(k) !in es
      ensures Descriptors.Delivers(img, ino, Descriptors.Lengths(es, k), r.programs[s].fds[k].position)
    {
      Descriptors.FreshTableDelivers(img, before, name, es, k, ino);
    }
  }

  // ----- what a load brings into memory -----

  /** A file of up to two megabytes is in memory as it is, whatever follows it there; the program starts at the word
      at its bytes 24 to 27. */
  lemma LoadedHoldsFile(img: Image, e: Dentry)
    requires WellFormed(img) && Executable(img, e)
    ensures var image := LoadedImage(img, e); var ino := img.inodes[e.inode];
      && image[..4] == ELF_MAGIC
      && (ino.length <= TWO_MB ==> Contents(img, ino) <= image)
      && (28 <= ino.length ==> WordAt(image, EIP_OFFSET) == WordAt(Contents(img, ino), EIP_OFFSET))
  {
  }

  // ----- the code that a halting program returns -----

  ghost predicate Returns(w: Whole, c: Call)
    requires Sized(w)
  {
    && (c.Halt? || (c.Exception? && Stacks.Running(w.tasks) != 0))
    && w.tasks.active != Stacks.NO_TASK && |w.tasks.stacks[w.tasks.active]| > 1
  }

  /** An exception of a base shell: the shell starts over, and the flag stays set. */
  ghost predicate Leaves(w: Whole, c: Call)
    requires Sized(w)
  {
    c.Exception? && w.tasks.active != Stacks.NO_TASK && Stacks.Running(w.tasks) != 0
    && |w.tasks.stacks[w.tasks.active]| == 1
  }

  /** The flag was set by a base shell's exception at call `i` of the run, and no program has returned since. */
  ghost predicate LeftAt(img: Image, w: Whole, cs: seq<Call>, i: int)
    requires WellFormed(img) && Sized(w) && 0 <= i < |cs|
  {
    && Leaves(Run(img, w, cs[..i]), cs[i])
    && forall j :: i < j < |cs| ==> !Returns(Run(img, w, cs[..j]), cs[j])
  }

  lemma {:induction false} PendingWasLeft(img: Image, w: Whole, cs: seq<Call>) returns (i: nat)
    requires WellFormed(img) && Sized(w) && !w.died && Run(img, w, cs).died
    ensures i < |cs| && LeftAt(img, w, cs, i)
  {
    hide Do, Returns, Leaves, WellFormed, Sized, Run;
    if cs == [] {
      EmptyRun(img, w);
    }
    var n := |cs| - 1;
    LastOfRun(img, w, cs);
    DoDied(img, Run(img, w, cs[..n]), cs[n]);
    if Leaves(Run(img, w, cs[..n]), cs[n]) {
      return n;
    }
    i := PendingWasLeft(img, w, cs[..n]);
    LeftAtPrefix(img, w, cs, i);
  }

  lemma {:induction false} LeftIsPending(img: Image, w: Whole, cs: seq<Call>, i: nat)
    requires WellFormed(img) && Sized(w) && i < |cs| && LeftAt(img, w, cs, i)
    ensures Run(img, w, cs).died
  {
    hide Do, Returns, Leaves, WellFormed, Sized, Run;
    var n := |cs| - 1;
    LastOfRun(img, w, cs);
    DoDied(img, Run(img, w, cs[..n]), cs[n]);
    if i < n {
      LeftAtPrefix(img, w, cs, i);
      LeftIsPending(img, w, cs[..n], i);
    }
  }

  /** Over every run the flag is set if and only if a base shell had an exception after the last program returned. The
      next program that halts then reports 256 to the one that launched it, although it halted normally. */
  lemma ExceptionPendingIff(img: Image, w: Whole, cs: seq<Call>)
    requires WellFormed(img) && Sized(w) && !w.died
    ensures Run(img, w, cs).died <==> exists i :: 0 <= i < |cs| && LeftAt(img, w, cs, i)
  {
    hide *;
    if Run(img, w, cs).died {
      var i := PendingWasLeft(img, w, cs);
    }
    forall i | 0 <= i < |cs| && LeftAt(img, w, cs, i) ensures Run(img, w, cs).died {
      LeftIsPending(img, w, cs, i);
    }
  }

  lemma EmptyRun(img: Image, w: Whole)
    requires WellFormed(img) && Sized(w)
    ensures Run(img, w, []) == w
  {
  }

  lemma LastOfRun(img: Image, w: Whole, cs: seq<Call>)
    requires WellFormed(img) && Sized(w) && cs != []
    ensures var n := |cs| - 1; Run(img, w, cs) == Do(img, Run(img, w, cs[..n]), cs[n])
  {
  }

  lemma LeftAtPrefix(img: Image, w: Whole, cs: seq<Call>, i: int)
    requires WellFormed(img) && Sized(w) && 0 <= i < |cs| - 1
    ensures var n := |cs| - 1;
      LeftAt(img, w, cs, i) <==> LeftAt(img, w, cs[..n], i) && !Returns(Run(img, w, cs[..n]), cs[n])
  {
    hide Run, Returns, Leaves, WellFormed, Sized;
    var n := |cs| - 1;
    assert forall j :: 0 <= j < n ==> cs[..n][..j] == cs[..j] && cs[..n][j] == cs[j];
  }

  lemma DoDied(img: Image, w: Whole, c: Call)
    requires WellFormed(img) && Sized(w)
    ensures Do(img, w, c).died <==> Leaves(w, c) || (w.died && !Returns(w, c))
  {
    if w.tasks.active != Stacks.NO_TASK {
      Stacks.RunningOnStack(w.tasks);
    }
    hide Stacks.Shape, Stacks.OnStack, WellFormed, Launchable, Stacks.FirstFree;
  }
}
