/** The task table: six slots of process control blocks linked by parent and child ids,
    the running and displayed ids, and the two page directory entries they remap. */
module TaskTable {
  import opened Stacks

  const PROGRAM_ENTRY := 0x8000000 / FOUR_MB
  const VIDEO_ENTRY := 0x9400000 / FOUR_MB
  const PAGE_ENTRIES := 1024
  const VIDEO_MEMORY := 0xB8000

  datatype Pcb = Pcb(taskId: int, parent: int, child: int)

  /** The block of the `i`-th task on a stack links it to its two neighbours. */
  ghost predicate LinkedAt(pcbs: seq<Pcb>, s: seq<int>, i: int)
    requires 0 <= i < |s|
  {
    && 0 <= s[i] < |pcbs|
    && pcbs[s[i]] == Pcb(s[i], if i == 0 then NO_TASK else s[i - 1], if i == |s| - 1 then NO_TASK else s[i + 1])
  }

  ghost predicate Linked(pcbs: seq<Pcb>, st: seq<seq<int>>) {
    forall t, i :: 0 <= t < |st| && 0 <= i < |st[t]| ==> LinkedAt(pcbs, st[t], i)
  }

  ghost predicate Marked(slots: seq<int>, st: seq<seq<int>>) {
    forall s :: 0 <= s < |slots| ==> (slots[s] != 0 <==> OnStack(st, s))
  }

  class Kernel {
    const taskSlots: array<int>
    const pcbs: array<Pcb>
    const pageDirectory: array<PageEntry>
    const videoPage: array<PageEntry>
    var tasksRunning: int
    var displayTerminalId: int
    var bootupFlag: bool
    var activeProcess: int
    var pitCounter: int
    ghost var stacks: seq<seq<int>>
    ghost var activeTerminal: int

    ghost const Repr: set<object> := {this, taskSlots, pcbs, pageDirectory, videoPage}

    /** The abstract machine this table stands for. */
    ghost function Abs(): Machine
      reads Repr
    {
      Machine(stacks, activeTerminal, displayTerminalId,
              if pageDirectory.Length == PAGE_ENTRIES then pageDirectory[PROGRAM_ENTRY] else NotPresent,
              pageDirectory.Length == PAGE_ENTRIES && pageDirectory[VIDEO_ENTRY] != NotPresent,
              bootupFlag, pitCounter)
    }

    ghost predicate Sized() {
      && taskSlots.Length == pcbs.Length == TASK_SLOTS
      && pageDirectory.Length == videoPage.Length == PAGE_ENTRIES
      && pageDirectory != videoPage
    }

    ghost predicate Valid()
      reads Repr
    {
      && Sized()
      && WellFormed(Abs())
      && Linked(pcbs[..], stacks)
      && Marked(taskSlots[..], stacks)
      && tasksRunning == Running(Abs())
      && (forall j :: 0 < j < PAGE_ENTRIES ==> videoPage[j] == NotPresent)
      && (videoPage[0] == if Abs().video then Page(VIDEO_MEMORY) else NotPresent)
    }

    constructor ()
      ensures Valid() && fresh(Repr)
      ensures Abs() == PowerOn()
    {
      taskSlots := new int[TASK_SLOTS](_ => 0);
      pcbs := new Pcb[TASK_SLOTS](_ => Pcb(0, 0, 0));
      pageDirectory := new PageEntry[PAGE_ENTRIES](_ => NotPresent);
      videoPage := new PageEntry[PAGE_ENTRIES](_ => NotPresent);
      tasksRunning := NO_TASK;
      displayTerminalId := 0;
      bootupFlag := false;
      activeProcess := 0;
      pitCounter := 0;
      stacks := [[], [], []];
      activeTerminal := NO_TASK;
    }

    method FindOpenTask() returns (r: int)
      requires Valid()
      ensures r == FirstFree(stacks)
    {
      var i := 0;
      while i < TASK_SLOTS
        invariant 0 <= i <= TASK_SLOTS
        invariant FirstFree(stacks) == FirstFreeFrom(stacks, i)
      {
        if taskSlots[..][i] == 0 {
          return i;
        }
        i := i + 1;
      }
      return -1;
    }

    /** The walk down the child links ends at the top of the terminal's stack. */
    method FindBottomTask(taskNum: int) returns (r: int)
      requires Valid()
      ensures r == if 0 <= taskNum < TERMINALS then Top(stacks[taskNum]) else NO_TASK
    {
      if taskNum < 0 || taskNum > 2 {
        return -1;
      }
      BaseStackEmpty(stacks, taskNum);
      if taskSlots[..][taskNum] == 0 {
        return -1;
      }
      ghost var s := stacks[taskNum];
      ghost var i := 0;
      assert At(stacks, taskNum, 0, s[0]);
      var block := taskNum;
      while pcbs[block].child != -1
        invariant 0 <= i < |s| && LinkedAt(pcbs[..], s, i)
        invariant block == s[i]
        decreases |s| - i
      {
        block := pcbs[block].child;
        i := i + 1;
        assert LinkedAt(pcbs[..], s, i);
      }
      assert i < |s| - 1 ==> LinkedAt(pcbs[..], s, i + 1);
      return pcbs[block].taskId;
    }

    method SwitchRunningTask(taskNum: int) returns (r: int)
      requires Valid()
      modifies this`tasksRunning, this`activeTerminal
      ensures Valid()
      ensures r == if 0 <= taskNum < TERMINALS && stacks[taskNum] != [] then 0 else -1
      ensures Abs() == old(Abs()).(active := if r == 0 then taskNum else old(activeTerminal))
    {
      if 0 <= taskNum < TERMINALS {
        TopOnStack(stacks, taskNum);
      }
      var newTask := FindBottomTask(taskNum);
      if newTask == -1 {
        return -1;
      }
      tasksRunning := newTask;
      activeTerminal := taskNum;
      return 0;
    }

    method SyscallPagingSetup(address: int)
      requires Sized()
      modifies pageDirectory
      ensures pageDirectory[..] == old(pageDirectory[..])[PROGRAM_ENTRY := Page(address)]
    {
      pageDirectory[PROGRAM_ENTRY] := Page(address);
    }

    method VideomemMap()
      requires Sized()
      modifies pageDirectory, videoPage
      ensures pageDirectory[..] == old(pageDirectory[..])[VIDEO_ENTRY := Table]
      ensures videoPage[0] == Page(VIDEO_MEMORY)
      ensures forall k :: 0 < k < PAGE_ENTRIES ==> videoPage[k] == NotPresent
    {
      pageDirectory[VIDEO_ENTRY] := Table;
      var j := 0;
      while j < PAGE_ENTRIES
        invariant 0 <= j <= PAGE_ENTRIES
        invariant pageDirectory[..] == old(pageDirectory[..])[VIDEO_ENTRY := Table]
        invariant j > 0 ==> videoPage[0] == Page(VIDEO_MEMORY)
        invariant forall k :: 0 < k < j ==> videoPage[k] == NotPresent
      {
        videoPage[j] := if j == 0 then Page(VIDEO_MEMORY) else NotPresent;
        j := j + 1;
      }
    }

    method VideomemUnmap()
      requires Sized()
      modifies pageDirectory, videoPage
      ensures pageDirectory[..] == old(pageDirectory[..])[VIDEO_ENTRY := NotPresent]
      ensures videoPage[..] == old(videoPage[..])[0 := NotPresent]
    {
      videoPage[0] := NotPresent;
      pageDirectory[VIDEO_ENTRY] := NotPresent;
    }

    /** Only a running program can ask for the video page; `screenStart` is whether its pointer is acceptable. */
    method SyscallVidmap(screenStart: bool) returns (r: int)
      requires Valid() && tasksRunning != NO_TASK
      modifies pageDirectory, videoPage
      ensures Valid()
      ensures Abs() == if screenStart then Step(old(Abs()), Vidmap) else old(Abs())
      ensures r == if screenStart then 0 else -1
    {
      if !screenStart {
        return -1;
      }
      VideomemMap();
      assert pageDirectory[..][PROGRAM_ENTRY] == old(pageDirectory[..])[PROGRAM_ENTRY];
      return 0;
    }

    method FillPcb(slot: int, launcher: int)
      requires Sized() && 0 <= slot < TASK_SLOTS
      requires slot >= TERMINALS ==> 0 <= launcher < TASK_SLOTS && launcher != slot
      modifies pcbs
      ensures pcbs[..] == Pushed(old(pcbs[..]), if slot < TERMINALS then [] else [launcher], slot)
    {
      pcbs[slot] := pcbs[slot].(taskId := slot);
      if slot >= 3 {
        pcbs[slot] := pcbs[slot].(parent := launcher);
        pcbs[launcher] := pcbs[launcher].(child := slot);
      } else {
        pcbs[slot] := pcbs[slot].(parent := -1);
      }
      pcbs[slot] := pcbs[slot].(child := -1);
    }

    /** `valid` is the outcome of the file checks. The result is -1, or the slot of the program that now runs. */
    method SyscallExecute(valid: bool) returns (r: int)
      requires Valid()
      modifies Repr
      ensures Valid()
      ensures Abs() == Execute(old(Abs()), valid)
      ensures r == if valid then FirstFree(old(stacks)) else -1
      ensures r != -1 ==> tasksRunning == r
      ensures r == -1 ==> pcbs[..] == old(pcbs[..]) && taskSlots[..] == old(taskSlots[..])
    {
      hide Shape, Linked, Marked, FirstFree;
      if !valid {
        return -1;
      }
      var newSlot := FindOpenTask();
      if newSlot == -1 {
        return -1;
      }
      ghost var m := Abs();
      ghost var launchStack := ExecuteKeepsLinks(m, taskSlots[..], pcbs[..]);
      var oldSlot := tasksRunning;
      tasksRunning := newSlot;
      taskSlots[tasksRunning] := 1;
      SyscallPagingSetup(EIGHT_MB + tasksRunning * FOUR_MB);
      FillPcb(newSlot, oldSlot);
      stacks := Execute(m, true).stacks;
      activeTerminal := Execute(m, true).active;
      assert taskSlots[..] == old(taskSlots[..])[newSlot := 1];
      assert pageDirectory[..][VIDEO_ENTRY] == old(pageDirectory[..])[VIDEO_ENTRY];
      assert Abs() == Execute(m, true);
      return newSlot;
    }

    /** Whether the running task has no parent to return to. */
    method IsBaseShell() returns (r: bool)
      requires Valid() && tasksRunning != NO_TASK
      ensures r <==> |stacks[activeTerminal]| == 1
    {
      ghost var _ := ReturnKeepsLinks(Abs(), taskSlots[..], pcbs[..]);
      return pcbs[..][tasksRunning].parent == -1;
    }

    /** The result is -1 when a base shell starts over, and otherwise the parent that runs again. */
    method SyscallHalt() returns (r: int)
      requires Valid() && tasksRunning != NO_TASK
      modifies Repr
      ensures Valid()
      ensures Abs() == Return(old(Abs()))
      ensures r == -1 <==> |old(stacks[activeTerminal])| == 1
      ensures r == if |old(stacks[activeTerminal])| == 1 then -1 else tasksRunning
    {
      hide Shape, Linked, Marked;
      ghost var m := Abs();
      ghost var parent := ReturnKeepsLinks(m, taskSlots[..], pcbs[..]);
      var block := pcbs[..][tasksRunning];
      if block.parent == -1 {
        return -1;
      }
      pcbs[block.parent] := pcbs[block.parent].(child := -1);
      SyscallPagingSetup(EIGHT_MB + block.parent * FOUR_MB);
      if pageDirectory[VIDEO_ENTRY] != NotPresent {
        VideomemUnmap();
      }
      taskSlots[tasksRunning] := 0;
      tasksRunning := block.parent;
      stacks := Return(m).stacks;
      assert pcbs[..] == old(pcbs[..])[parent := old(pcbs[..])[parent].(child := NO_TASK)];
      assert taskSlots[..] == old(taskSlots[..])[Running(m) := 0];
      assert pageDirectory[..][PROGRAM_ENTRY] == Frame(parent) && pageDirectory[..][VIDEO_ENTRY] == NotPresent;
      return tasksRunning;
    }

    method SwitchDisplayTerminal(tid: int)
      requires Valid()
      modifies Repr
      ensures Valid()
      ensures Abs() == Display(old(Abs()), tid)
      ensures taskSlots[..] == old(taskSlots[..]) && pcbs[..] == old(pcbs[..])
    {
      if displayTerminalId == tid || tid < 0 || tid > 2 {
        return;
      }
      var bottom := FindBottomTask(tid);
      SyscallPagingSetup(EIGHT_MB + FOUR_MB * bottom);
      displayTerminalId := tid;
      assert pageDirectory[..][VIDEO_ENTRY] == old(pageDirectory[..])[VIDEO_ENTRY];
      var _ := SwitchRunningTask(tid);
    }

    /** The scheduler up to the point where it starts a shell: the boot ends, and a terminal whose shell is missing is
        displayed. */
    method SelectTerminal(tNum: int) returns (missing: bool)
      requires Valid()
      modifies Repr
      ensures Valid()
      ensures var t := if old(bootupFlag) then 0 else tNum; var m := EndBoot(old(Abs()));
        if tNum < 0 || tNum >= TERMINALS then !missing && Abs() == old(Abs())
        else
          && (missing <==> m.stacks[t] == [])
          && Abs() == if missing then Display(m.(bootup := m.bootup || t == 2), t) else m
    {
      hide Shape, Linked, Marked, FirstFree, Display;
      var t := tNum;
      if t >= TERMINALS || t < 0 {
        return false;
      }
      ghost var start := Abs();
      if bootupFlag {
        t := 0;
        SwitchDisplayTerminal(t);
        bootupFlag := false;
      }
      assert Abs() == EndBoot(start);
      TopOnStack(stacks, t);
      activeProcess := FindBottomTask(t);
      if activeProcess == -1 {
        if t == 2 {
          bootupFlag := true;
        }
        SwitchDisplayTerminal(t);
        return true;
      }
      return false;
    }

    /** The end of a tick: the turn passes to the next terminal. */
    method PassTurn()
      requires Valid()
      modifies this`pitCounter
      ensures Valid()
      ensures Abs() == old(Abs()).(next := (old(pitCounter) + 1) % TERMINALS)
    {
      pitCounter := pitCounter + 1;
      if pitCounter > 2 {
        pitCounter := 0;
      }
    }
  }

  // ----- links under push and pop -----

  ghost function Pushed(pcbs: seq<Pcb>, s: seq<int>, slot: int): seq<Pcb>
    requires 0 <= slot < |pcbs| && (s != [] ==> 0 <= Top(s) < |pcbs|)
  {
    if s == [] then pcbs[slot := Pcb(slot, NO_TASK, NO_TASK)]
    else pcbs[Top(s) := pcbs[Top(s)].(child := slot)][slot := Pcb(slot, Top(s), NO_TASK)]
  }

  lemma TopOnStack(st: seq<seq<int>>, t: nat)
    requires Shape(st) && t < TERMINALS
    ensures st[t] != [] ==> 0 <= Top(st[t]) < TASK_SLOTS && At(st, t, |st[t]| - 1, Top(st[t]))
    ensures st[t] == [] <==> Top(st[t]) == NO_TASK
  {
    if st[t] != [] {
      assert At(st, t, |st[t]| - 1, Top(st[t]));
    }
  }

  lemma PushLinks(pcbs: seq<Pcb>, st: seq<seq<int>>, t: nat, slot: int)
    requires Shape(st) && Linked(pcbs, st) && |pcbs| == TASK_SLOTS
    requires t < TERMINALS && 0 <= slot < TASK_SLOTS && !OnStack(st, slot)
    ensures st[t] != [] ==> 0 <= Top(st[t]) < TASK_SLOTS && Top(st[t]) != slot
    ensures Linked(Pushed(pcbs, st[t], slot), Push(st, t, slot))
  {
    TopOnStack(st, t);
    var st' := Push(st, t, slot);
    var pcbs' := Pushed(pcbs, st[t], slot);
    forall u, i | 0 <= u < |st'| && 0 <= i < |st'[u]| ensures LinkedAt(pcbs', st'[u], i) {
      if u != t || i < |st[t]| {
        assert LinkedAt(pcbs, st[u], i) && At(st, u, i, st[u][i]);
      }
    }
  }

  /** Everything the table says about the new task, in terms of the stack it lands on. */
  lemma ExecuteKeepsLinks(m: Machine, slots: seq<int>, pcbs: seq<Pcb>) returns (launchStack: seq<int>)
    requires WellFormed(m) && FirstFree(m.stacks) != NO_TASK
    requires |slots| == |pcbs| == TASK_SLOTS && Marked(slots, m.stacks) && Linked(pcbs, m.stacks)
    ensures var s := FirstFree(m.stacks); var m' := Execute(m, true);
      && 0 <= s < TASK_SLOTS
      && launchStack == (if s < TERMINALS then [] else [Running(m)])
      && (s >= TERMINALS ==> 0 <= Running(m) < TASK_SLOTS && Running(m) != s)
      && WellFormed(m') && Running(m') == s
      && Marked(slots[s := 1], m'.stacks)
      && Linked(Pushed(pcbs, launchStack, s), m'.stacks)
  {
    var s := FirstFree(m.stacks);
    FirstFreeMeaning(m.stacks, 0);
    ActiveUnlessEmpty(m);
    var t := if s < TERMINALS then s else m.active;
    if s < TERMINALS {
      BaseStackEmpty(m.stacks, s);
    }
    PushShape(m.stacks, t, s);
    PushLinks(pcbs, m.stacks, t, s);
    launchStack := if s < TERMINALS then [] else [Running(m)];
  }

  lemma ExecuteGrows(m: Machine, valid: bool)
    requires WellFormed(m)
    ensures Execute(m, valid).stacks != m.stacks <==> (if valid then FirstFree(m.stacks) else -1) != -1
  {
    var s := FirstFree(m.stacks);
    FirstFreeMeaning(m.stacks, 0);
    ActiveUnlessEmpty(m);
    if s != NO_TASK {
      var t := if s < TERMINALS then s else m.active;
      assert Execute(m, true).stacks[t] != m.stacks[t] by {
        if s < TERMINALS {
          BaseStackEmpty(m.stacks, s);
        }
      }
    }
  }

  /** Everything the table says when the running task returns: only its parent's child link and its own slot
      change. */
  lemma ReturnKeepsLinks(m: Machine, slots: seq<int>, pcbs: seq<Pcb>) returns (parent: int)
    requires WellFormed(m) && m.active != NO_TASK
    requires |slots| == |pcbs| == TASK_SLOTS && Marked(slots, m.stacks) && Linked(pcbs, m.stacks)
    ensures var s := m.stacks[m.active];
      && 0 <= Running(m) < TASK_SLOTS
      && pcbs[Running(m)].parent == parent
      && (|s| == 1 <==> parent == NO_TASK)
      && (|s| > 1 ==>
            && 0 <= parent < TASK_SLOTS && parent == Running(Return(m)) && Return(m).program == Frame(parent)
            && Return(m).active == m.active && !Return(m).video
            && Marked(slots[Running(m) := 0], Return(m).stacks)
            && Linked(pcbs[parent := pcbs[parent].(child := NO_TASK)], Return(m).stacks))
  {
    var s := m.stacks[m.active];
    var n := |s| - 1;
    assert LinkedAt(pcbs, s, n);
    parent := pcbs[s[n]].parent;
    if n > 0 {
      assert LinkedAt(pcbs, s, n - 1);
      PopShape(m.stacks, m.active);
      PopLinks(pcbs, m.stacks, m.active);
    }
  }

  lemma PopLinks(pcbs: seq<Pcb>, st: seq<seq<int>>, t: nat)
    requires Shape(st) && Linked(pcbs, st) && |pcbs| == TASK_SLOTS
    requires t < TERMINALS && |st[t]| >= 2
    ensures var n := |st[t]| - 1; var p := st[t][n - 1];
      0 <= p < |pcbs| && Linked(pcbs[p := pcbs[p].(child := NO_TASK)], Pop(st, t))
  {
    var n := |st[t]| - 1;
    var p := st[t][n - 1];
    var st' := Pop(st, t);
    assert LinkedAt(pcbs, st[t], n - 1) && At(st, t, n - 1, p);
    var pcbs' := pcbs[p := pcbs[p].(child := NO_TASK)];
    forall u, i | 0 <= u < |st'| && 0 <= i < |st'[u]| ensures LinkedAt(pcbs', st'[u], i) {
      assert LinkedAt(pcbs, st[u], i) && At(st, u, i, st[u][i]);
    }
  }
}
