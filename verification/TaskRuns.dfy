/** What holds over whole runs of ticks, terminal switches, executes and halts. */
module TaskRuns {
  import opened Stacks

  ghost function Run(m: Machine, es: seq<Event>): (r: Machine)
    requires WellFormed(m)
    ensures WellFormed(r)
    decreases |es|
  {
    if es == [] then m else Run(Step(m, es[0]), es[1..])
  }

  lemma {:induction false} RunSplit(m: Machine, es: seq<Event>, fs: seq<Event>)
    requires WellFormed(m)
    ensures Run(m, es + fs) == Run(Run(m, es), fs)
    decreases |es|
  {
    if es == [] {
      assert es + fs == fs;
    } else {
      assert (es + fs)[1..] == es[1..] + fs;
      RunSplit(Step(m, es[0]), es[1..], fs);
    }
  }

  // ----- at most six tasks, and refusal exactly at six -----

  ghost function Elements(s: seq<int>): set<int> {
    set x | x in s
  }

  lemma {:induction false} DistinctCount(s: seq<int>)
    requires forall i, j :: 0 <= i < j < |s| ==> s[i] != s[j]
    ensures |Elements(s)| == |s|
  {
    if s != [] {
      var n := |s| - 1;
      DistinctCount(s[..n]);
      assert Elements(s) == Elements(s[..n]) + {s[n]};
    }
  }

  lemma SubsetCount(a: set<int>, b: set<int>)
    requires a <= b
    ensures |a| <= |b| && (|a| == |b| <==> a == b)
  {
    assert b == a + (b - a);
  }

  ghost function AllTasks(st: seq<seq<int>>): seq<int>
    requires |st| == TERMINALS
  {
    st[0] + st[1] + st[2]
  }

  lemma AllTasksDistinct(st: seq<seq<int>>)
    requires Shape(st)
    ensures forall s :: OnStack(st, s) <==> s in AllTasks(st)
    ensures |Elements(AllTasks(st))| == Depth(st)
  {
    var all := AllTasks(st);
    forall i, j | 0 <= i < j < |all| ensures all[i] != all[j] {
      InAllTasks(st, i);
      InAllTasks(st, j);
    }
    DistinctCount(all);
    forall s ensures OnStack(st, s) <==> s in all {
      if OnStack(st, s) {
        var t, i :| At(st, t, i, s);
        assert all[if t == 0 then i else if t == 1 then |st[0]| + i else |st[0]| + |st[1]| + i] == s;
      }
      if s in all {
        var i :| 0 <= i < |all| && all[i] == s;
        InAllTasks(st, i);
      }
    }
  }

  ghost function Place(st: seq<seq<int>>, i: int): (int, int)
    requires |st| == TERMINALS
  {
    if i < |st[0]| then (0, i) else if i < |st[0]| + |st[1]| then (1, i - |st[0]|) else (2, i - |st[0]| - |st[1]|)
  }

  lemma InAllTasks(st: seq<seq<int>>, i: int)
    requires |st| == TERMINALS && 0 <= i < |AllTasks(st)|
    ensures At(st, Place(st, i).0, Place(st, i).1, AllTasks(st)[i])
  {
  }

  /** The stacks hold at most six tasks, and no slot is free exactly when they hold six. */
  lemma FullAtSix(m: Machine)
    requires WellFormed(m)
    ensures Depth(m.stacks) <= TASK_SLOTS
    ensures FirstFree(m.stacks) == NO_TASK <==> Depth(m.stacks) == TASK_SLOTS
  {
    var st := m.stacks;
    var slots := {0, 1, 2, 3, 4, 5};
    AllTasksDistinct(st);
    forall s | s in AllTasks(st) ensures s in slots {
      assert OnStack(st, s);
    }
    SubsetCount(Elements(AllTasks(st)), slots);
    FirstFreeMeaning(st, 0);
    if Elements(AllTasks(st)) == slots {
      forall s | 0 <= s < TASK_SLOTS ensures OnStack(st, s) {
        assert s in slots;
      }
    }
    if FirstFree(st) == NO_TASK {
      forall s | s in slots ensures s in Elements(AllTasks(st)) {
        assert OnStack(st, s);
      }
    }
  }

  /** A valid program is refused exactly when six tasks exist; otherwise the depth grows by one and it runs.
      Refusal, of a valid or an invalid program, changes nothing. */
  lemma ExecuteRefusedAtSix(m: Machine, valid: bool)
    requires WellFormed(m)
    ensures valid && Depth(m.stacks) < TASK_SLOTS ==>
      && Depth(Execute(m, valid).stacks) == Depth(m.stacks) + 1
      && Running(Execute(m, valid)) == FirstFree(m.stacks)
    ensures !valid || Depth(m.stacks) == TASK_SLOTS ==> Execute(m, valid) == m
  {
    hide Shape, FirstFree;
    FullAtSix(m);
    FreeSlot(m);
  }

  // ----- boot -----

  ghost predicate AllShells(m: Machine)
    requires WellFormed(m)
  {
    m.stacks[0] != [] && m.stacks[1] != [] && m.stacks[2] != []
  }

  /** The displayed terminal's top task runs in its own frame. Before that terminal has a shell,
      no frame of a task is mapped. */
  ghost predicate Agrees(m: Machine)
    requires WellFormed(m)
  {
    if m.stacks[m.displayed] != [] then m.active == m.displayed && m.program == Frame(Running(m))
    else m.program in {NotPresent, Frame(NO_TASK)}
  }

  ghost predicate BootEvent(e: Event) {
    e == Tick(true) || e.Switch?
  }

  ghost function Ticks(es: seq<Event>): nat {
    if es == [] then 0 else (if es[|es| - 1].Tick? then 1 else 0) + Ticks(es[..|es| - 1])
  }

  /** The machine after `k` ticks: shells start at the first, third and fifth. */
  ghost predicate AfterBootTicks(m: Machine, k: nat)
    requires WellFormed(m)
  {
    && m.stacks == [if k >= 1 then [0] else [], if k >= 3 then [1] else [], if k >= 5 then [2] else []]
    && m.next == (if k <= 5 then k / 2 else k % 3)
    && (m.bootup <==> k == 5)
    && Agrees(m)
  }

  lemma DisplayAgrees(m: Machine, t: int)
    requires WellFormed(m) && Agrees(m)
    ensures Agrees(Display(m, t))
  {
    hide Shape;
  }

  lemma BootSwitch(m: Machine, t: int, k: nat)
    requires WellFormed(m) && AfterBootTicks(m, k)
    ensures AfterBootTicks(Display(m, t), k)
  {
    hide Shape, Agrees;
    DisplayAgrees(m, t);
  }

  /** A shell that is started on the displayed terminal, in the slot of that number. */
  lemma ShellStarts(m: Machine)
    requires WellFormed(m) && m.stacks[m.displayed] == []
    requires forall t :: 0 <= t < m.displayed ==> m.stacks[t] != []
    ensures var s := m.displayed; var r := Execute(m, true);
      r == m.(stacks := m.stacks[s := [s]], active := s, program := Frame(s)) && Agrees(r)
  {
    hide Shape, FirstFree;
    FreeSlot(m);
    assert FirstFree(m.stacks) == m.displayed;
    assert [] + [m.displayed] == [m.displayed];
  }

  /** What such a tick does, before the boot has ended. */
  lemma SpawningTick(m: Machine)
    requires WellFormed(m) && !m.bootup && m.stacks[m.next] == []
    requires forall t :: 0 <= t < m.next ==> m.stacks[t] != []
    ensures var s := m.next; var shown := Display(m.(bootup := s == 2), s);
      && TickStep(m, true) == shown.(stacks := m.stacks[s := [s]], active := s, program := Frame(s))
      && Agrees(TickStep(m, true))
  {
    hide Shape, Execute, Agrees;
    var shown := Display(m.(bootup := m.next == 2), m.next);
    assert shown.displayed == m.next;
    ShellStarts(shown);
    assert shown.stacks[m.next := [m.next]][m.next] == [m.next];
  }

  /** A tick that finds its terminal without a shell starts it in the slot of that number. */
  lemma BootSpawn(m: Machine, s: nat)
    requires WellFormed(m) && s < TERMINALS && AfterBootTicks(m, 2 * s)
    ensures AfterBootTicks(TickStep(m, true), 2 * s + 1)
  {
    assert m.next == s && m.stacks[s] == [] && forall t :: 0 <= t < s ==> m.stacks[t] == [t];
    hide Shape, Agrees, TickStep;
    SpawningTick(m);
    hide WellFormed;
  }

  /** The other ticks find a shell and pass the turn on. */
  lemma BootPass(m: Machine, k: nat)
    requires WellFormed(m) && AfterBootTicks(m, k) && !(k < 5 && k % 2 == 0)
    ensures AfterBootTicks(TickStep(m, true), k + 1)
  {
    hide Shape, FirstFree, Execute, Display;
    assert m.stacks[0] == [0];
    assert m.stacks[if m.bootup then 0 else m.next] != [] by {
      assert k == 1 || k == 3 || k >= 5;
    }
    assert TickStep(m, true) == EndBoot(m).(next := (m.next + 1) % TERMINALS);
    hide TickStep;
    assert (m.next + 1) % TERMINALS == if k + 1 <= 5 then (k + 1) / 2 else (k + 1) % 3;
    if k == 5 {
      DisplayAgrees(m, 0);
    }
  }

  lemma BootTick(m: Machine, k: nat)
    requires WellFormed(m) && AfterBootTicks(m, k)
    ensures AfterBootTicks(TickStep(m, true), k + 1)
  {
    hide Shape, AfterBootTicks, TickStep;
    if k < 5 && k % 2 == 0 {
      BootSpawn(m, k / 2);
    } else {
      BootPass(m, k);
    }
  }

  lemma BootStep(m: Machine, e: Event, k: nat)
    requires WellFormed(m) && AfterBootTicks(m, k) && BootEvent(e)
    ensures AfterBootTicks(Step(m, e), if e.Tick? then k + 1 else k)
  {
    hide Shape, TickStep, Display, AfterBootTicks;
    if e.Tick? {
      BootTick(m, k);
    } else {
      BootSwitch(m, e.terminal, k);
    }
  }

  /** Under any interleaving of timer ticks and terminal switches, shell `t` lands in slot `t` at tick `2t + 1`. */
  lemma {:induction false} Boot(es: seq<Event>)
    requires forall i :: 0 <= i < |es| ==> BootEvent(es[i])
    ensures AfterBootTicks(Run(PowerOn(), es), Ticks(es))
  {
    hide Shape, Step;
    if es != [] {
      var n := |es| - 1;
      Boot(es[..n]);
      RunSplit(PowerOn(), es[..n], [es[n]]);
      assert es[..n] + [es[n]] == es;
      BootStep(Run(PowerOn(), es[..n]), es[n], Ticks(es[..n]));
    }
  }

  /** After six ticks the boot is over: three shells, the displayed one running, and further ticks only pass the turn
      on. */
  lemma BootDone(es: seq<Event>, shell: bool)
    requires forall i :: 0 <= i < |es| ==> BootEvent(es[i])
    requires Ticks(es) >= 6
    ensures var m := Run(PowerOn(), es);
      && m.stacks == [[0], [1], [2]]
      && !m.bootup
      && Running(m) == m.displayed
      && m.program == Frame(m.displayed)
      && Step(m, Tick(shell)) == m.(next := (m.next + 1) % TERMINALS)
  {
    hide Shape, Run, Ticks, Step, AfterBootTicks;
    Boot(es);
    BootedState(Run(PowerOn(), es), Ticks(es));
    BootedTick(Run(PowerOn(), es), shell);
  }

  lemma BootedState(m: Machine, k: nat)
    requires WellFormed(m) && AfterBootTicks(m, k) && k >= 6
    ensures m.stacks == [[0], [1], [2]] && !m.bootup && AllShells(m)
    ensures Running(m) == m.displayed && m.program == Frame(m.displayed)
  {
    hide Shape;
  }

  /** Once all shells exist and the first terminal was displayed again, a tick only passes the turn on. */
  lemma BootedTick(m: Machine, shell: bool)
    requires WellFormed(m) && AllShells(m) && !m.bootup
    ensures Step(m, Tick(shell)) == m.(next := (m.next + 1) % TERMINALS)
  {
    hide Shape;
  }

  /** The terminal that is shown after a boot run: the last one that was switched to, or whose shell was started, by
      tick 1, 3 or 5; tick 6 shows the first terminal again. */
  ghost function ShownInBoot(es: seq<Event>): int {
    if es == [] then 0
    else
      var n := |es| - 1;
      match es[n]
      case Switch(t) => if 0 <= t < TERMINALS then t else ShownInBoot(es[..n])
      case Tick(_) =>
        var k := Ticks(es);
        if k == 1 || k == 6 then 0 else if k == 3 then 1 else if k == 5 then 2 else ShownInBoot(es[..n])
      case _ => ShownInBoot(es[..n])
  }

  lemma BootTickShows(m: Machine, k: nat)
    requires WellFormed(m) && AfterBootTicks(m, k)
    ensures TickStep(m, true).displayed
      == if k == 0 || k == 5 then 0 else if k == 2 then 1 else if k == 4 then 2 else m.displayed
  {
    assert m.stacks[if m.bootup then 0 else m.next] == [] <==> k < 5 && k % 2 == 0;
    hide Shape, Agrees;
    if k < 5 && k % 2 == 0 {
      SpawningTick(m);
      hide TickStep;
    } else {
      hide Execute;
      assert TickStep(m, true) == EndBoot(m).(next := (m.next + 1) % TERMINALS);
    }
  }

  /** Under any interleaving of ticks and switches, the terminal shown is the one that was asked for last. */
  lemma {:induction false} BootShows(es: seq<Event>)
    requires forall i :: 0 <= i < |es| ==> BootEvent(es[i])
    ensures Run(PowerOn(), es).displayed == ShownInBoot(es)
  {
    hide Shape, TickStep, Agrees;
    if es != [] {
      var n := |es| - 1;
      var m := Run(PowerOn(), es[..n]);
      BootShows(es[..n]);
      Boot(es[..n]);
      RunSplit(PowerOn(), es[..n], [es[n]]);
      RunOne(m, es[n]);
      assert es[..n] + [es[n]] == es;
      if es[n].Tick? {
        BootTickShows(m, Ticks(es[..n]));
      }
      hide AfterBootTicks, Run;
    }
  }

  /** A boot without switches ends at the first terminal, whose shell runs. */
  lemma BootEndsAtFirst(es: seq<Event>)
    requires |es| >= 6 && forall i :: 0 <= i < |es| ==> es[i] == Tick(true)
    ensures Run(PowerOn(), es).displayed == 0 && Running(Run(PowerOn(), es)) == 0
  {
    hide Run, Shape;
    AllTicks(es);
    BootShows(es);
    BootDone(es, true);
  }

  lemma {:induction false} AllTicks(es: seq<Event>)
    requires forall i :: 0 <= i < |es| ==> es[i] == Tick(true)
    ensures Ticks(es) == |es|
    ensures |es| >= 6 ==> ShownInBoot(es) == 0
  {
    if es != [] {
      AllTicks(es[..|es| - 1]);
    }
  }

  // ----- what each event does and leaves alone -----

  /** A switch shows the terminal it names; if that has a shell, its top task runs in its own frame. Every other
      number changes nothing. */
  lemma SwitchShows(m: Machine, t: int)
    requires WellFormed(m) && (t == m.displayed ==> Agrees(m))
    ensures var r := Step(m, Switch(t));
      && (t < 0 || t >= TERMINALS ==> r == m)
      && (0 <= t < TERMINALS ==> r.displayed == t && r.stacks == m.stacks)
      && (0 <= t < TERMINALS && m.stacks[t] != [] ==>
            r.active == t && Running(r) == Top(m.stacks[t]) && r.program == Frame(Top(m.stacks[t])))
      && (0 <= t < TERMINALS && t != m.displayed && m.stacks[t] == [] ==> r.active == m.active)
  {
    hide Shape;
  }

  /** Only ticks change the turn and the boot flag, only ticks and switches the display; the user video page is mapped
      by vidmap and unmapped by a halt that returns, and nothing else changes it. */
  lemma EventLeaves(m: Machine, e: Event)
    requires WellFormed(m)
    ensures var r := Step(m, e);
      && (!e.Tick? ==> r.next == m.next && r.bootup == m.bootup)
      && (!e.Tick? && !e.Switch? ==> r.displayed == m.displayed)
      && (!e.Vidmap? && !e.Halt? ==> r.video == m.video)
      && (e.Vidmap? ==> r == m.(video := m.video || m.active != NO_TASK))
      && (e.Halt? ==> if m.active != NO_TASK && |m.stacks[m.active]| > 1 then !r.video else r == m)
  {
    hide Shape, FirstFree;
  }

  /** The last terminal that a run switches to, or the one shown before it. */
  ghost function LastSwitch(es: seq<Event>, shown: int): int
    decreases |es|
  {
    if es == [] then shown
    else LastSwitch(es[1..], if es[0].Switch? && 0 <= es[0].terminal < TERMINALS then es[0].terminal else shown)
  }

  /** Over every run after the boot, the terminal shown is the last one that was switched to. */
  lemma {:induction false} LastSwitchShown(m: Machine, es: seq<Event>)
    requires WellFormed(m) && AllShells(m) && Agrees(m) && !m.bootup
    ensures Run(m, es).displayed == LastSwitch(es, m.displayed)
    decreases |es|
  {
    if es != [] {
      hide Shape, Step, Agrees;
      StepAgrees(m, es[0]);
      EventLeaves(m, es[0]);
      if es[0].Tick? {
        BootedTick(m, es[0].shell);
      } else if es[0].Switch? {
        SwitchShows(m, es[0].terminal);
      }
      LastSwitchShown(Step(m, es[0]), es[1..]);
    }
  }

  // ----- the displayed terminal's top task runs -----

  lemma ExecuteAgrees(m: Machine, valid: bool)
    requires WellFormed(m) && AllShells(m) && Agrees(m)
    ensures AllShells(Execute(m, valid)) && Agrees(Execute(m, valid))
  {
    hide Shape, FirstFree;
    FreeSlot(m);
  }

  lemma ReturnAgrees(m: Machine)
    requires WellFormed(m) && AllShells(m) && Agrees(m)
    ensures AllShells(Return(m)) && Agrees(Return(m))
  {
    hide Shape;
  }

  /** Once the three shells exist, every event keeps the displayed terminal's top task running in its own frame. */
  lemma StepAgrees(m: Machine, e: Event)
    requires WellFormed(m) && AllShells(m) && Agrees(m)
    ensures AllShells(Step(m, e)) && Agrees(Step(m, e))
  {
    hide Shape, Execute, Return;
    match e
    case UserExecute(valid) => ExecuteAgrees(m, valid);
    case Halt => ReturnAgrees(m);
    case Tick(_) =>
    case Switch(_) =>
    case Vidmap =>
  }

  lemma {:induction false} RunAgrees(m: Machine, es: seq<Event>)
    requires WellFormed(m) && AllShells(m) && Agrees(m)
    ensures var r := Run(m, es);
      && AllShells(r) && r.active == r.displayed
      && Running(r) == Top(r.stacks[r.displayed]) && r.program == Frame(Running(r))
    decreases |es|
  {
    if es != [] {
      StepAgrees(m, es[0]);
      RunAgrees(Step(m, es[0]), es[1..]);
    }
  }

  /** A program started while a base slot is still free lands in that slot and becomes a base itself,
      so the display disagrees with it unless the slot is the displayed terminal's. */
  lemma EarlyExecute(m: Machine)
    requires WellFormed(m) && Agrees(m) && m.active != NO_TASK && FirstFree(m.stacks) != NO_TASK
    ensures var s := FirstFree(m.stacks);
      Agrees(Step(m, UserExecute(true))) <==> s >= TERMINALS || s == m.displayed
  {
    hide Shape, FirstFree;
    FreeSlot(m);
  }

  /** Such a run: the first user program is started right after the first shell, lands in slot 1 and takes terminal 1,
      which is not displayed. */
  lemma EarlyExecuteHappens()
    ensures var m := Run(PowerOn(), [Tick(true), UserExecute(true)]);
      m.displayed == 0 && m.active == 1 && !Agrees(m)
  {
    hide Shape, AfterBootTicks, Run, Step, Agrees;
    var boot := [Tick(true)];
    assert Ticks(boot[..0]) == 0 && Ticks(boot) == 1;
    Boot(boot);
    BootShows(boot);
    assert ShownInBoot(boot) == 0;
    RunSplit(PowerOn(), boot, [UserExecute(true)]);
    RunOne(Run(PowerOn(), boot), UserExecute(true));
    assert boot + [UserExecute(true)] == [Tick(true), UserExecute(true)];
    FirstShellOnly(Run(PowerOn(), boot));
  }

  lemma FirstShellOnly(m: Machine)
    requires WellFormed(m) && AfterBootTicks(m, 1) && m.displayed == 0
    ensures var r := Step(m, UserExecute(true)); r.displayed == 0 && r.active == 1 && !Agrees(r)
  {
    hide Shape;
    FreeSlot(m);
    hide FirstFree;
    EarlyExecute(m);
  }

  // ----- stack discipline -----

  /** Terminal `t` keeps at least `k` tasks throughout the run. */
  ghost predicate NeverBelow(m: Machine, es: seq<Event>, t: nat, k: nat)
    requires WellFormed(m) && t < TERMINALS
    decreases |es|
  {
    |m.stacks[t]| >= k && (es != [] ==> NeverBelow(Step(m, es[0]), es[1..], t, k))
  }

  lemma StepKeepsPrefix(m: Machine, e: Event, t: nat, k: nat)
    requires WellFormed(m) && t < TERMINALS
    requires |m.stacks[t]| >= k && |Step(m, e).stacks[t]| >= k
    ensures Step(m, e).stacks[t][..k] == m.stacks[t][..k]
  {
    hide Shape, FirstFree;
    FreeSlot(m);
  }

  /** However the run interleaves the terminals, the tasks it never halts stay where they are. */
  lemma {:induction false} RunKeepsPrefix(m: Machine, es: seq<Event>, t: nat, k: nat)
    requires WellFormed(m) && t < TERMINALS && NeverBelow(m, es, t, k)
    ensures |Run(m, es).stacks[t]| >= k && Run(m, es).stacks[t][..k] == m.stacks[t][..k]
    decreases |es|
  {
    if es != [] {
      StepKeepsPrefix(m, es[0], t, k);
      RunKeepsPrefix(Step(m, es[0]), es[1..], t, k);
    }
  }

  /** A halt gives the terminal back to the very task that executed the halting program, whatever happened in between.
      */
  lemma HaltResumesLauncher(m: Machine, body: seq<Event>)
    requires WellFormed(m) && AllShells(m) && Agrees(m) && Depth(m.stacks) < TASK_SLOTS
    requires var m1 := Step(m, UserExecute(true));
      && NeverBelow(m1, body, m.active, |m.stacks[m.active]| + 1)
      && Run(m1, body).active == m.active
      && |Run(m1, body).stacks[m.active]| == |m.stacks[m.active]| + 1
    ensures var r := Run(m, [UserExecute(true)] + body + [Halt]);
      && r.stacks[m.active] == m.stacks[m.active]
      && Running(r) == Running(m)
      && r.displayed == m.active
      && r.program == Frame(Running(m))
      && !r.video
  {
    hide Shape, Run, Step, NeverBelow;
    var t := m.active;
    var k := |m.stacks[t]|;
    var m1 := Step(m, UserExecute(true));
    var m2 := Run(m1, body);
    LaunchPushes(m);
    StepAgrees(m, UserExecute(true));
    RunKeepsPrefix(m1, body, t, k + 1);
    RunAgrees(m1, body);
    assert m2.stacks[t] == m2.stacks[t][..k + 1];
    ReturnPops(m2, m.stacks[t]);
    RunSplit(m, [UserExecute(true)] + body, [Halt]);
    RunSplit(m, [UserExecute(true)], body);
    RunOne(m, UserExecute(true));
    RunOne(m2, Halt);
  }

  lemma RunOne(m: Machine, e: Event)
    requires WellFormed(m)
    ensures Run(m, [e]) == Step(m, e)
  {
    assert Run(Step(m, e), [e][1..]) == Step(m, e);
  }

  lemma LaunchPushes(m: Machine)
    requires WellFormed(m) && AllShells(m) && Depth(m.stacks) < TASK_SLOTS
    ensures m.active != NO_TASK
    ensures Step(m, UserExecute(true)).stacks[m.active] == m.stacks[m.active] + [FirstFree(m.stacks)]
  {
    hide Shape, FirstFree;
    FreeSlot(m);
    FullAtSix(m);
  }

  lemma ReturnPops(m: Machine, below: seq<int>)
    requires WellFormed(m) && AllShells(m) && Agrees(m) && below != []
    requires |m.stacks[m.displayed]| == |below| + 1 && m.stacks[m.displayed][..|below|] == below
    ensures var r := Step(m, Halt);
      && r.stacks[r.active] == below
      && r.active == r.displayed == m.displayed
      && Running(r) == Top(below)
      && r.program == Frame(Top(below))
      && !r.video
  {
    hide Shape;
  }

  /** An event changes no stack but the running terminal's, once all shells exist; base shells never leave. */
  lemma OtherTerminalsUntouched(m: Machine, e: Event, t: nat)
    requires WellFormed(m) && AllShells(m) && t < TERMINALS
    ensures t != m.active ==> Step(m, e).stacks[t] == m.stacks[t]
    ensures Step(m, e).stacks[t] != [] && Step(m, e).stacks[t][0] == t
  {
    hide Shape, FirstFree;
    FreeSlot(m);
    BaseOfStack(m.stacks, t);
  }

  lemma BaseOfStack(st: seq<seq<int>>, t: nat)
    requires Shape(st) && t < TERMINALS && st[t] != []
    ensures st[t][0] == t
  {
    assert At(st, t, 0, st[t][0]);
  }

  // ----- address spaces -----

  ghost predicate Apart(a: int, b: int, size: int) {
    a + size <= b || b + size <= a
  }

  ghost function ControlBlock(task: int): int {
    EIGHT_MB - EIGHT_KB * (task + 1)
  }

  /** In every reachable state, two tasks have disjoint program frames above 8MB and disjoint control block and
      kernel stack regions between 4MB and 8MB. */
  lemma TasksApart(es: seq<Event>, t: int, i: int, u: int, j: int)
    requires var st := Run(PowerOn(), es).stacks;
      0 <= t < |st| && 0 <= i < |st[t]| && 0 <= u < |st| && 0 <= j < |st[u]| && (t != u || i != j)
    ensures var st := Run(PowerOn(), es).stacks; var a := st[t][i]; var b := st[u][j];
      && Frame(a).base >= EIGHT_MB
      && Apart(Frame(a).base, Frame(b).base, FOUR_MB)
      && FOUR_MB <= ControlBlock(a) && ControlBlock(a) + EIGHT_KB <= EIGHT_MB
      && Apart(ControlBlock(a), ControlBlock(b), EIGHT_KB)
  {
    hide Run;
    DistinctSlots(Run(PowerOn(), es).stacks, t, i, u, j);
  }

  lemma DistinctSlots(st: seq<seq<int>>, t: int, i: int, u: int, j: int)
    requires Shape(st)
    requires 0 <= t < |st| && 0 <= i < |st[t]| && 0 <= u < |st| && 0 <= j < |st[u]| && (t != u || i != j)
    ensures 0 <= st[t][i] < TASK_SLOTS && 0 <= st[u][j] < TASK_SLOTS && st[t][i] != st[u][j]
  {
    assert At(st, t, i, st[t][i]) && At(st, u, j, st[u][j]);
  }
}
