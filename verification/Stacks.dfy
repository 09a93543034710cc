/** What the task table is meant to be: three call stacks, one for each terminal.
    Each stack lists task slots from its base shell to the task on top. */
module Stacks {

  const TASK_SLOTS := 6
  const TERMINALS := 3
  const NO_TASK := -1
  const FOUR_MB := 0x400000
  const EIGHT_MB := 0x800000
  const EIGHT_KB := 8192

  /** A page directory entry: absent, a 4MB page with its base address, or a page table. */
  datatype PageEntry = NotPresent | Page(base: int) | Table

  datatype Machine = Machine(
    stacks: seq<seq<int>>,  // the task slots of each terminal, base shell first
    active: int,            // the terminal whose top task is running, NO_TASK before the first shell
    displayed: int,
    program: PageEntry,     // page directory entry of the program image
    video: bool,            // whether the user video page is mapped
    bootup: bool,
    next: int)              // the terminal the next timer tick looks at

  /** What the outside world may do to the machine. `Tick(false)` is a tick that finds no usable shell program. */
  datatype Event =
    | Tick(shell: bool)
    | Switch(terminal: int)
    | UserExecute(valid: bool)
    | Halt
    | Vidmap

  /** Slot `s` is the `i`-th task of terminal `t`. */
  ghost predicate At(st: seq<seq<int>>, t: int, i: int, s: int) {
    0 <= t < |st| && 0 <= i < |st[t]| && st[t][i] == s
  }

  ghost predicate OnStack(st: seq<seq<int>>, s: int) {
    exists t, i :: At(st, t, i, s)
  }

  /** The slots of the three stacks are distinct; a base slot belongs to its own terminal. */
  ghost predicate Shape(st: seq<seq<int>>) {
    && |st| == TERMINALS
    && (forall t, i, s :: At(st, t, i, s) ==> if i == 0 then s == t else TERMINALS <= s < TASK_SLOTS)
    && (forall t, i, u, j, s :: At(st, t, i, s) && At(st, u, j, s) ==> t == u && i == j)
  }

  ghost function Push(st: seq<seq<int>>, t: int, s: int): seq<seq<int>>
    requires 0 <= t < |st|
  {
    st[t := st[t] + [s]]
  }

  ghost function Pop(st: seq<seq<int>>, t: int): seq<seq<int>>
    requires 0 <= t < |st| && st[t] != []
  {
    st[t := st[t][..|st[t]| - 1]]
  }

  ghost predicate WellFormed(m: Machine) {
    && |m.stacks| == TERMINALS && Shape(m.stacks)
    && NO_TASK <= m.active < TERMINALS
    && (if m.active == NO_TASK then forall t :: 0 <= t < TERMINALS ==> m.stacks[t] == [] else m.stacks[m.active] != [])
    && 0 <= m.displayed < TERMINALS
    && 0 <= m.next < TERMINALS
  }

  ghost function Top(s: seq<int>): int {
    if s == [] then NO_TASK else s[|s| - 1]
  }

  /** The slot of the running task. */
  ghost function Running(m: Machine): int
    requires WellFormed(m)
  {
    if m.active == NO_TASK then NO_TASK else Top(m.stacks[m.active])
  }

  lemma RunningOnStack(m: Machine)
    requires WellFormed(m) && m.active != NO_TASK
    ensures 0 <= Running(m) < TASK_SLOTS && OnStack(m.stacks, Running(m))
  {
    assert At(m.stacks, m.active, |m.stacks[m.active]| - 1, Running(m));
  }

  ghost function Frame(task: int): PageEntry {
    Page(EIGHT_MB + task * FOUR_MB)
  }

  ghost function Depth(st: seq<seq<int>>): nat
    requires |st| == TERMINALS
  {
    |st[0]| + |st[1]| + |st[2]|
  }

  ghost function FirstFreeFrom(st: seq<seq<int>>, s: nat): int
    decreases TASK_SLOTS - s
  {
    if s >= TASK_SLOTS then NO_TASK else if OnStack(st, s) then FirstFreeFrom(st, s + 1) else s
  }

  /** The lowest slot on no stack, or NO_TASK. */
  ghost function FirstFree(st: seq<seq<int>>): int {
    FirstFreeFrom(st, 0)
  }

  ghost function PowerOn(): (r: Machine)
    ensures WellFormed(r)
  {
    Machine([[], [], []], NO_TASK, 0, NotPresent, false, false, 0)
  }

  // ----- the meaning of the events -----

  /** A valid program is pushed on the stack of the task that launched it; the first three slots start stacks. */
  ghost function Execute(m: Machine, valid: bool): (r: Machine)
    requires WellFormed(m)
    ensures WellFormed(r) && r.next == m.next
  {
    var s := FirstFree(m.stacks);
    FirstFreeMeaning(m.stacks, 0);
    ActiveUnlessEmpty(m);
    if !valid || s == NO_TASK then m
    else if s < TERMINALS then
      BaseStackEmpty(m.stacks, s);
      PushShape(m.stacks, s, s);
      m.(stacks := Push(m.stacks, s, s), active := s, program := Frame(s))
    else
      PushShape(m.stacks, m.active, s);
      m.(stacks := Push(m.stacks, m.active, s), program := Frame(s))
  }

  /** The running task is popped, unless it is a base shell, which starts over. */
  ghost function Return(m: Machine): (r: Machine)
    requires WellFormed(m)
    ensures WellFormed(r)
  {
    if m.active == NO_TASK || |m.stacks[m.active]| == 1 then m
    else
      PopShape(m.stacks, m.active);
      var st := Pop(m.stacks, m.active);
      m.(stacks := st, program := Frame(Top(st[m.active])), video := false)
  }

  ghost function Display(m: Machine, t: int): (r: Machine)
    requires WellFormed(m)
    ensures WellFormed(r) && r.next == m.next && r.stacks == m.stacks
  {
    if t == m.displayed || t < 0 || t >= TERMINALS then m
    else m.(displayed := t,
            program := Frame(Top(m.stacks[t])),
            active := if m.stacks[t] == [] then m.active else t)
  }

  /** Once the last shell was started, the first terminal is displayed again. */
  ghost function EndBoot(m: Machine): (r: Machine)
    requires WellFormed(m)
    ensures WellFormed(r) && r.next == m.next && r.stacks == m.stacks
  {
    if m.bootup then Display(m, 0).(bootup := false) else m
  }

  /** A terminal without a shell is displayed and gets one; the last one ends the boot. */
  ghost function StartShell(m: Machine, t: nat, shell: bool): (r: Machine)
    requires WellFormed(m) && t < TERMINALS
    ensures WellFormed(r) && r.next == m.next
  {
    if m.stacks[t] == [] then Execute(Display(m.(bootup := m.bootup || t == 2), t), shell) else m
  }

  /** A tick serves the terminal whose turn it is, and passes the turn on unless it started a shell. */
  ghost function TickStep(m: Machine, shell: bool): (r: Machine)
    requires WellFormed(m)
    ensures WellFormed(r)
  {
    var m1 := StartShell(EndBoot(m), if m.bootup then 0 else m.next, shell);
    if m1.stacks == m.stacks then m1.(next := (m.next + 1) % TERMINALS) else m1
  }

  ghost function Step(m: Machine, e: Event): (r: Machine)
    requires WellFormed(m)
    ensures WellFormed(r)
  {
    match e
    case Tick(shell) => TickStep(m, shell)
    case Switch(t) => Display(m, t)
    case UserExecute(valid) => if m.active == NO_TASK then m else Execute(m, valid)
    case Halt => Return(m)
    case Vidmap => if m.active == NO_TASK then m else m.(video := true)
  }

  // ----- slots -----

  lemma {:induction false} FirstFreeMeaning(st: seq<seq<int>>, s: nat)
    requires s <= TASK_SLOTS
    ensures var r := FirstFreeFrom(st, s);
      if r == NO_TASK then forall k :: s <= k < TASK_SLOTS ==> OnStack(st, k)
      else s <= r < TASK_SLOTS && !OnStack(st, r) && forall k :: s <= k < r ==> OnStack(st, k)
    decreases TASK_SLOTS - s
  {
    if s < TASK_SLOTS && OnStack(st, s) {
      FirstFreeMeaning(st, s + 1);
    }
  }

  lemma ActiveUnlessEmpty(m: Machine)
    requires WellFormed(m)
    ensures m.active == NO_TASK ==> FirstFree(m.stacks) == 0
  {
  }

  /** Pushing a slot that is on no stack keeps the slots distinct. */
  lemma PushShape(st: seq<seq<int>>, t: nat, s: int)
    requires Shape(st) && t < TERMINALS && 0 <= s < TASK_SLOTS && !OnStack(st, s)
    requires if st[t] == [] then s == t else s >= TERMINALS
    ensures Shape(Push(st, t, s))
    ensures forall k :: OnStack(Push(st, t, s), k) <==> OnStack(st, k) || k == s
  {
    var st' := Push(st, t, s);
    assert forall u, i, k :: At(st', u, i, k) <==> At(st, u, i, k) || (u == t && i == |st[t]| && k == s);
    assert At(st', t, |st[t]|, s);
  }

  /** Popping a task frees its slot and no other. */
  lemma PopShape(st: seq<seq<int>>, t: nat)
    requires Shape(st) && t < TERMINALS && |st[t]| >= 1
    ensures Shape(Pop(st, t))
    ensures forall k :: OnStack(Pop(st, t), k) <==> OnStack(st, k) && k != Top(st[t])
  {
    var n := |st[t]| - 1;
    var st' := Pop(st, t);
    assert At(st, t, n, Top(st[t]));
    assert forall u, i, k :: At(st', u, i, k) <==> At(st, u, i, k) && !(u == t && i == n);
    forall k ensures OnStack(st', k) <==> OnStack(st, k) && k != Top(st[t]) {
      if OnStack(st, k) && k != Top(st[t]) {
        var u, i :| At(st, u, i, k);
        assert At(st', u, i, k);
      }
    }
  }

  lemma BaseStackEmpty(st: seq<seq<int>>, t: nat)
    requires Shape(st) && t < TERMINALS
    ensures !OnStack(st, t) <==> st[t] == []
  {
    if st[t] != [] {
      assert At(st, t, 0, st[t][0]);
    }
  }

  /** The free slot a program gets: a base slot only when its terminal has no shell yet. */
  lemma FreeSlot(m: Machine)
    requires WellFormed(m)
    ensures var s := FirstFree(m.stacks);
      && (s == NO_TASK || 0 <= s < TASK_SLOTS)
      && (0 <= s < TERMINALS ==> m.stacks[s] == [])
      && (forall t :: 0 <= t < TERMINALS && (s == NO_TASK || t < s) ==> m.stacks[t] != [])
      && (s == NO_TASK || s >= TERMINALS ==> m.active != NO_TASK)
  {
    FirstFreeMeaning(m.stacks, 0);
    forall t | 0 <= t < TERMINALS ensures OnStack(m.stacks, t) <==> m.stacks[t] != [] {
      BaseStackEmpty(m.stacks, t);
    }
  }
}
