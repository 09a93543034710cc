/** The three terminals that share one screen: the displayed one lives in video memory and in the cursor variables,
    the other two in their saved buffers. */
module Terminals {
  import opened Bytes
  import opened Console
  import opened LineDiscipline

  const TERMINAL_COUNT := 3

  const LAST_ROW := 2 * COLS * (ROWS - 1)

  /** A saved cursor is stored unsigned in 32 bits. */
  function ToUnsigned(x: int): int {
    x % TWO_32
  }

  function ToSigned(x: int): int {
    if x >= TWO_31 then x - TWO_32 else x
  }

  datatype Terminal = Terminal(keys: Keys, cursorX: int, cursorY: int, saved: seq<Byte>)

  /** The events of the keyboard and of the programs, and the Alt-Fn switches. */
  datatype GlobalEvent = At(e: Event) | SwitchTo(tid: int)

  /** Three terminals side by side, one of which receives the events. */
  datatype Group = Group(locals: seq<Local>, displayed: int)

  /** The cursor is inside video memory. Its column may be negative. */
  ghost predicate Sound(l: Local) {
    Sized(l) && Fits(l.screen) && 0 <= Pos(l.screen)
  }

  /** Every event but an erasure at the first cell keeps the cursor inside. */
  lemma StepSound(l: Local, e: Event)
    requires Sound(l)
    ensures Sound(Step(l, e)) <==> (e.Backspace? ==> EraseInside(l))
  {
    match e
    case Out(c) => PutcMoves(l.screen, c);
    case Key(c) => PutcMoves(l.screen, c);
    case Backspace => EraseMoves(l.screen);
    case Clear =>
    case Read(_) =>
  }

  ghost predicate WellFormed(g: Group) {
    && |g.locals| == TERMINAL_COUNT && 0 <= g.displayed < TERMINAL_COUNT
    && forall k :: 0 <= k < TERMINAL_COUNT ==> Sized(g.locals[k])
  }

  ghost function GroupStep(g: Group, e: GlobalEvent): (r: Group)
    requires WellFormed(g)
    ensures WellFormed(r)
  {
    match e
    case At(ev) => g.(locals := g.locals[g.displayed := Step(g.locals[g.displayed], ev)])
    case SwitchTo(t) => if 0 <= t < TERMINAL_COUNT then g.(displayed := t) else g
  }

  ghost function GroupRun(g: Group, es: seq<GlobalEvent>): (r: Group)
    requires WellFormed(g)
    ensures WellFormed(r)
  {
    if es == [] then g else GroupStep(GroupRun(g, es[..|es| - 1]), es[|es| - 1])
  }

  /** The characters of a text that are not newlines, counted. */
  ghost function Printed(buf: seq<Byte>): nat {
    if buf == [] then 0 else Printed(buf[..|buf| - 1]) + if buf[|buf| - 1] != NEWLINE then 1 else 0
  }

  lemma CursorRoundTrip(x: int)
    requires -TWO_31 <= x < TWO_31
    ensures ToSigned(ToUnsigned(x)) == x
  {
  }

  /** A read, told by where it stopped and what it left. */
  lemma AfterReadIs(k: Keys, nbytes: nat, n: nat, left: seq<Byte>)
    requires |k.buffer| == |left| == KEYBOARD_MAX_BUFFER && n <= nbytes && n <= KEYBOARD_MAX_BUFFER
    requires n < nbytes ==> n < KEYBOARD_MAX_BUFFER && k.buffer[n] == NUL
    requires forall j :: 0 <= j < n ==> k.buffer[j] != NUL && left[j] == NUL
    requires forall j :: n <= j < KEYBOARD_MAX_BUFFER ==> left[j] == k.buffer[j]
    ensures Taken(k, nbytes) == n && AfterRead(k, nbytes) == Keys(left, 0, false)
  {
    assert left == AfterRead(k, nbytes).buffer;
  }

  class Display {
    const video: array<Byte>
    const terminal: array<Terminal>
    var screenX: int
    var screenY: int
    var displayTerminalId: int

    ghost const Repr: set<object> := {this, video, terminal}

    /** What is on the screen. */
    ghost function Live(): Screen
      reads this, video
    {
      Screen(video[..], screenX, screenY)
    }

    /** Terminal `k` as its user sees it, displayed or not. */
    ghost function Abs(k: int): Local
      requires 0 <= k < terminal.Length
      reads Repr
    {
      var t := terminal[k];
      var s := if k == displayTerminalId then Live() else Screen(t.saved, ToSigned(t.cursorX), ToSigned(t.cursorY));
      Local(s, t.keys)
    }

    ghost function All(): Group
      requires terminal.Length == TERMINAL_COUNT
      reads Repr
    {
      Group([Abs(0), Abs(1), Abs(2)], displayTerminalId)
    }

    ghost predicate Valid()
      reads Repr
    {
      && video.Length == VIDEO_SIZE && terminal.Length == TERMINAL_COUNT
      && 0 <= displayTerminalId < TERMINAL_COUNT
      && Sound(Abs(0)) && Sound(Abs(1)) && Sound(Abs(2))
      && (forall k :: 0 <= k < TERMINAL_COUNT ==> |terminal[k].saved| == VIDEO_SIZE)
    }

    constructor ()
      ensures Valid() && fresh(Repr)
      ensures displayTerminalId == 0 && InRange(Live())
      ensures forall k :: 0 <= k < TERMINAL_COUNT ==>
        Safe(Abs(k)) && Holds(Abs(k).keys, []) && Abs(k).keys.buffer[0] == NUL
    {
      var keys := Keys(seq(KEYBOARD_MAX_BUFFER, i => NUL), 0, false);
      var blank := Terminal(keys, 0, 0, seq(VIDEO_SIZE, i => NUL));
      video := new Byte[VIDEO_SIZE](i => NUL);
      terminal := new Terminal[TERMINAL_COUNT](i => blank);
      screenX := 0;
      screenY := 0;
      displayTerminalId := 0;
    }

    method ScrollUp()
      requires video.Length == VIDEO_SIZE
      modifies video, this`screenX, this`screenY
      ensures Live() == Console.ScrollUp(old(Live()))
    {
      forall i | 0 <= i < LAST_ROW {
        video[i] := video[i + 2 * COLS];
      }
      var i := 0;
      while i < COLS
        invariant 0 <= i <= COLS
        invariant forall j :: 0 <= j < LAST_ROW ==> video[j] == old(video[j + 2 * COLS])
        invariant forall j :: LAST_ROW <= j < VIDEO_SIZE ==>
          video[j] == if j < LAST_ROW + 2 * i && j % 2 == 0 then SPACE else old(video[j])
      {
        var cell := (COLS * (ROWS - 1) + i) * 2;
        assert cell == LAST_ROW + 2 * i && cell % 2 == 0 && (cell + 1) % 2 == 1;
        video[cell] := SPACE;
        i := i + 1;
      }
      screenX := 0;
      screenY := ROWS - 1;
    }

    /** Puts a character on the screen. The page in front of video memory is not present, so an ordinary character
        faults where the cursor stands in front of it, before it changes anything. */
    method Putc(c: Byte) returns (fault: bool)
      requires video.Length == VIDEO_SIZE && Fits(Live())
      modifies video, this`screenX, this`screenY
      ensures fault <==> !IsNewline(c) && old(Pos(Live())) < 0
      ensures Live() == if fault then old(Live()) else Console.Putc(old(Live()), c)
    {
      if c == NEWLINE || c == CARRIAGE_RETURN {
        if screenY == ROWS - 1 {
          ScrollUp();
        } else {
          screenY := screenY + 1;
          screenX := 0;
        }
      } else {
        var cell := (COLS * screenY + screenX) * 2;
        if cell < 0 {
          return true;
        }
        video[cell] := c;
        video[cell + 1] := ATTRIB;
        assert video[..] == SetCell(old(video[..]), Pos(Live()), c);
        if screenX == COLS - 1 {
          if screenY == ROWS - 1 {
            ScrollUp();
          } else {
            screenX := 0;
            screenY := screenY + 1;
          }
        } else {
          screenX := screenX + 1;
        }
      }
      return false;
    }

    method BackSpace()
      modifies this`screenX
      ensures screenX == old(screenX) - 1
    {
      screenX := screenX - 1;
    }

    method CpyScreenPos()
      requires terminal.Length == TERMINAL_COUNT && 0 <= displayTerminalId < TERMINAL_COUNT
      modifies terminal
      ensures terminal[..] == old(terminal[..])[displayTerminalId :=
        old(terminal[displayTerminalId]).(cursorX := ToUnsigned(screenX), cursorY := ToUnsigned(screenY))]
    {
      var d := displayTerminalId;
      terminal[d] := terminal[d].(cursorX := ToUnsigned(screenX));
      terminal[d] := terminal[d].(cursorY := ToUnsigned(screenY));
    }

    /** Shows another terminal. No terminal changes as its user sees it. */
    method SwitchDisplayTerminal(tid: int)
      requires Valid()
      modifies this, video, terminal
      ensures Valid()
      ensures All() == GroupStep(old(All()), SwitchTo(tid))
    {
      if displayTerminalId == tid || tid < 0 || tid > 2 {
        return;
      }
      hide ToSigned, ToUnsigned, Sized;
      CursorRoundTrip(screenX);
      CursorRoundTrip(screenY);
      CpyScreenPos();
      terminal[displayTerminalId] := terminal[displayTerminalId].(saved := video[..]);
      displayTerminalId := tid;
      var next := terminal[displayTerminalId];
      forall i | 0 <= i < VIDEO_SIZE {
        video[i] := next.saved[i];
      }
      screenX := ToSigned(next.cursorX);
      screenY := ToSigned(next.cursorY);
      assert video[..] == next.saved;
      assert Abs(0) == old(Abs(0)) && Abs(1) == old(Abs(1)) && Abs(2) == old(Abs(2));
    }

    method Clear()
      requires video.Length == VIDEO_SIZE
      modifies video
      ensures video[..] == Cleared().video
    {
      var i := 0;
      while i < ROWS * COLS
        invariant 0 <= i <= CELLS
        invariant forall j :: 0 <= j < 2 * i ==> video[j] == if j % 2 == 0 then SPACE else ATTRIB
      {
        video[i * 2] := SPACE;
        video[i * 2 + 1] := ATTRIB;
        i := i + 1;
      }
    }

    method ClearScreen()
      requires Valid()
      modifies video, this`screenX, this`screenY
      ensures Valid()
      ensures All() == GroupStep(old(All()), At(Event.Clear))
    {
      Clear();
      screenX := 0;
      screenY := 0;
      assert forall k :: 0 <= k < TERMINAL_COUNT && k != displayTerminalId ==> Abs(k) == old(Abs(k));
    }

    /** Only the displayed terminal's keys change. */
    twostate predicate OnlyKeys(d: int, keys: Keys)
      requires 0 <= d < terminal.Length
      reads terminal
    {
      terminal[..] == old(terminal[..])[d := old(terminal[d]).(keys := keys)]
    }

    method DropFromBuffer()
      requires terminal.Length == TERMINAL_COUNT && 0 <= displayTerminalId < TERMINAL_COUNT
      requires |terminal[displayTerminalId].keys.buffer| == KEYBOARD_MAX_BUFFER
      requires 0 < terminal[displayTerminalId].keys.size <= LINE_LIMIT
      modifies terminal
      ensures OnlyKeys(displayTerminalId, DropKey(old(terminal[displayTerminalId].keys)))
    {
      var d := displayTerminalId;
      var keys := terminal[d].keys;
      terminal[d] := terminal[d].(keys := keys.(buffer := keys.buffer[keys.size := NUL]));
      terminal[d] := terminal[d].(keys := terminal[d].keys.(size := keys.size - 1));
    }

    method AddToBuffer(c: Byte)
      requires terminal.Length == TERMINAL_COUNT && 0 <= displayTerminalId < TERMINAL_COUNT
      requires |terminal[displayTerminalId].keys.buffer| == KEYBOARD_MAX_BUFFER
      requires 0 <= terminal[displayTerminalId].keys.size < LINE_LIMIT
      modifies terminal
      ensures OnlyKeys(displayTerminalId, AddKey(old(terminal[displayTerminalId].keys), c))
    {
      var d := displayTerminalId;
      var keys := terminal[d].keys;
      terminal[d] := terminal[d].(keys := keys.(buffer := keys.buffer[keys.size := c]));
      terminal[d] := terminal[d].(keys := terminal[d].keys.(size := keys.size + 1));
      if c == NEWLINE {
        terminal[d] := terminal[d].(keys := terminal[d].keys.(allow := true));
      }
    }

    method TakeFromBuffer(buf: array<Byte>, nbytes: nat) returns (numbytes: int)
      requires terminal.Length == TERMINAL_COUNT && 0 <= displayTerminalId < TERMINAL_COUNT
      requires |terminal[displayTerminalId].keys.buffer| == KEYBOARD_MAX_BUFFER && nbytes <= buf.Length
      requires NUL in terminal[displayTerminalId].keys.buffer || nbytes <= KEYBOARD_MAX_BUFFER
      modifies terminal, buf
      ensures OnlyKeys(displayTerminalId, AfterRead(old(terminal[displayTerminalId].keys), nbytes))
      ensures numbytes == Taken(old(terminal[displayTerminalId].keys), nbytes)
      ensures buf[..numbytes] == ReadBytes(old(terminal[displayTerminalId].keys), nbytes)
    {
      hide Taken, AfterRead;
      var d := displayTerminalId;
      ghost var before := terminal[d].keys;
      numbytes := 0;
      var i := 0;
      while i < nbytes
        invariant 0 <= i <= nbytes && i <= KEYBOARD_MAX_BUFFER && numbytes == i
        invariant |terminal[d].keys.buffer| == KEYBOARD_MAX_BUFFER
        invariant forall j :: 0 <= j < i ==> terminal[d].keys.buffer[j] == NUL && buf[j] == before.buffer[j] != NUL
        invariant forall j :: i <= j < KEYBOARD_MAX_BUFFER ==> terminal[d].keys.buffer[j] == before.buffer[j]
        invariant terminal[..] == old(terminal[..])[d := old(terminal[d]).(keys := terminal[d].keys)]
        invariant terminal[d].keys == before.(buffer := terminal[d].keys.buffer)
      {
        assert i < KEYBOARD_MAX_BUFFER;
        buf[i] := terminal[d].keys.buffer[i];
        terminal[d] := terminal[d].(keys := terminal[d].keys.(buffer := terminal[d].keys.buffer[i := NUL]));
        if buf[i] == NUL {
          break;
        }
        numbytes := numbytes + 1;
        i := i + 1;
      }
      AfterReadIs(before, nbytes, i, terminal[d].keys.buffer);
      terminal[d] := terminal[d].(keys := terminal[d].keys.(size := 0, allow := false));
      assert buf[..numbytes] == before.buffer[..numbytes];
    }

    /** An erasure. It faults exactly where it is accepted while the cursor is at the first cell, as after Ctrl-L. The
        key has left the buffer then and the cursor has moved, but nothing is drawn, and neither is any ordinary
        character that the fault's handler prints: it faults at the same place. */
    method TerminalBackspace() returns (fault: bool)
      requires Valid()
      modifies video, terminal, this`screenX, this`screenY
      ensures fault <==> !EraseInside(old(Abs(displayTerminalId)))
      ensures !fault ==> Valid()
      ensures video.Length == VIDEO_SIZE && terminal.Length == TERMINAL_COUNT
      ensures All() == GroupStep(old(All()), At(Event.Backspace))
      ensures fault ==> video[..] == old(video[..]) && Fits(Live()) && Pos(Live()) == old(Pos(Live())) - 1 < 0
    {
      hide Erase, DropKey;
      ghost var d := displayTerminalId;
      if terminal[displayTerminalId].keys.size == 0 {
        return false;
      }
      fault := EraseShown();
      EraseMoves(old(Live()));
      assert Abs(d) == Step(old(Abs(d)), Event.Backspace);
      StepSound(old(Abs(d)), Event.Backspace);
      assert forall k :: 0 <= k < TERMINAL_COUNT && k != d ==> terminal[..][k] == old(terminal[..])[k];
    }

    /** The accepted case: the last key leaves the buffer and the screen. */
    method EraseShown() returns (fault: bool)
      requires Valid() && terminal[displayTerminalId].keys.size > 0
      modifies video, terminal, this`screenX, this`screenY
      ensures Live() == Erase(old(Live()))
      ensures OnlyKeys(displayTerminalId, DropKey(old(terminal[displayTerminalId].keys)))
      ensures fault <==> old(Pos(Live())) <= 0
      ensures fault ==> video[..] == old(video[..])
    {
      hide Console.Putc, DropKey;
      EraseOutside(Live());
      BackSpace();
      DropFromBuffer();
      fault := Putc(SPACE);
      if fault {
        return;
      }
      BackSpace();
    }

    method TerminalBufAdd(c: Byte)
      requires Valid()
      modifies video, terminal, this`screenX, this`screenY
      ensures Valid()
      ensures All() == GroupStep(old(All()), At(Key(c)))
    {
      hide Console.Putc, AddKey;
      ghost var d := displayTerminalId;
      if terminal[displayTerminalId].keys.size >= KEYBOARD_MAX_BUFFER - 2 {
        return;
      }
      var _ := Putc(c);
      AddToBuffer(c);
      assert Abs(d) == Step(old(Abs(d)), Key(c));
      StepSound(old(Abs(d)), Key(c));
      assert forall k :: 0 <= k < TERMINAL_COUNT && k != d ==> terminal[..][k] == old(terminal[..])[k];
    }

    /** Reads the line of the displayed terminal, once Enter has enabled it. */
    method TerminalRead(buf: array<Byte>, nbytes: nat) returns (numbytes: int)
      requires Valid() && buf != video && nbytes <= buf.Length
      requires terminal[displayTerminalId].keys.allow
      requires NUL in terminal[displayTerminalId].keys.buffer || nbytes <= KEYBOARD_MAX_BUFFER
      modifies terminal, buf
      ensures Valid()
      ensures All() == GroupStep(old(All()), At(Read(nbytes)))
      ensures numbytes == Taken(old(terminal[displayTerminalId].keys), nbytes)
      ensures buf[..numbytes] == ReadBytes(old(terminal[displayTerminalId].keys), nbytes)
    {
      hide AfterRead, Taken, ReadBytes;
      ghost var d := displayTerminalId;
      numbytes := TakeFromBuffer(buf, nbytes);
      assert Abs(d) == Step(old(Abs(d)), Read(nbytes));
      assert forall k :: 0 <= k < TERMINAL_COUNT && k != d ==> terminal[..][k] == old(terminal[..])[k];
    }

    /** What programs print goes to the displayed terminal; newlines are not counted. */
    method TerminalWrite(buf: seq<Byte>) returns (numbytes: int)
      requires Valid()
      modifies video, this`screenX, this`screenY
      ensures Valid()
      ensures All() == GroupRun(old(All()), seq(|buf|, i requires 0 <= i < |buf| => At(Out(buf[i]))))
      ensures Live() == PutAll(old(Live()), buf)
      ensures InRange(old(Live())) ==> IsWindow(Live(), TypeAll(PageOf(old(Live())), buf))
      ensures numbytes == Printed(buf)
    {
      hide GroupStep, Console.Putc;
      var i := 0;
      numbytes := 0;
      ghost var es := seq(|buf|, i requires 0 <= i < |buf| => At(Out(buf[i])));
      while i < |buf|
        invariant 0 <= i <= |buf| && Valid()
        invariant All() == GroupRun(old(All()), es[..i])
        invariant numbytes == Printed(buf[..i])
        invariant Live() == PutAll(old(Live()), buf[..i])
      {
        assert es[..i + 1][..i] == es[..i] && buf[..i + 1][..i] == buf[..i];
        PutcShown(buf[i]);
        if buf[i] != NEWLINE {
          numbytes := numbytes + 1;
        }
        i := i + 1;
      }
      assert es[..|buf|] == es && buf[..|buf|] == buf;
      if InRange(old(Live())) {
        ScreenIsPage(old(Live()), buf);
      }
    }

    /** A character put on the screen changes the displayed terminal only. */
    method PutcShown(c: Byte)
      requires Valid()
      modifies video, this`screenX, this`screenY
      ensures Valid()
      ensures All() == GroupStep(old(All()), At(Out(c)))
      ensures Live() == Console.Putc(old(Live()), c)
    {
      hide Console.Putc;
      var _ := Putc(c);
      assert Abs(displayTerminalId) == Step(old(Abs(displayTerminalId)), Out(c));
      StepSound(old(Abs(displayTerminalId)), Out(c));
    }
  }

  /** The result of a write is the number of its bytes that are no newlines. */
  lemma {:induction false} PrintedCounts(buf: seq<Byte>)
    ensures Printed(buf) + multiset(buf)[NEWLINE] == |buf|
  {
    if buf != [] {
      var n := |buf| - 1;
      PrintedCounts(buf[..n]);
      assert buf == buf[..n] + [buf[n]];
    }
  }

  // ----- three terminals are three machines -----

  /** A switch shows the terminal it names, and what is typed or printed next reaches that one. */
  lemma SwitchReaches(g: Group, t: int, e: Event)
    requires WellFormed(g)
    ensures var r := GroupStep(GroupStep(g, SwitchTo(t)), At(e));
      var shown := if 0 <= t < TERMINAL_COUNT then t else g.displayed;
      && r.displayed == shown
      && r.locals[shown] == Step(g.locals[shown], e)
      && forall k :: 0 <= k < TERMINAL_COUNT && k != shown ==> r.locals[k] == g.locals[k]
  {
  }

  /** The events that reach terminal `k` when `displayed` is shown first. */
  ghost function Received(es: seq<GlobalEvent>, displayed: int, k: int): seq<Event> {
    if es == [] then []
    else
      var n := |es| - 1;
      var before := Received(es[..n], displayed, k);
      if es[n].At? && Shown(es[..n], displayed) == k then before + [es[n].e] else before
  }

  ghost function Shown(es: seq<GlobalEvent>, displayed: int): int {
    if es == [] then displayed
    else
      var n := |es| - 1;
      if es[n].SwitchTo? && 0 <= es[n].tid < TERMINAL_COUNT then es[n].tid else Shown(es[..n], displayed)
  }

  /** Over every run, each terminal is what it would be alone with the events it was shown for: the switches in
      between, and whatever happened on the other terminals, leave it as it was. */
  lemma {:induction false} TerminalsAreIndependent(g: Group, es: seq<GlobalEvent>, k: int)
    requires WellFormed(g) && 0 <= k < TERMINAL_COUNT
    ensures GroupRun(g, es).locals[k] == Run(g.locals[k], Received(es, g.displayed, k))
    ensures GroupRun(g, es).displayed == Shown(es, g.displayed)
  {
    if es != [] {
      var n := |es| - 1;
      TerminalsAreIndependent(g, es[..n], k);
      var before := Received(es[..n], g.displayed, k);
      if es[n].At? {
        assert (before + [es[n].e])[..|before|] == before;
      }
    }
  }

  /** A terminal that is not shown during a run is the same after it. */
  lemma HiddenTerminalWaits(g: Group, es: seq<GlobalEvent>, k: int)
    requires WellFormed(g) && 0 <= k < TERMINAL_COUNT
    requires forall n :: 0 <= n < |es| && es[n].At? ==> Shown(es[..n], g.displayed) != k
    ensures GroupRun(g, es).locals[k] == g.locals[k]
  {
    TerminalsAreIndependent(g, es, k);
    NothingReceived(es, g.displayed, k);
  }

  lemma {:induction false} NothingReceived(es: seq<GlobalEvent>, displayed: int, k: int)
    requires forall n :: 0 <= n < |es| && es[n].At? ==> Shown(es[..n], displayed) != k
    ensures Received(es, displayed, k) == []
  {
    if es != [] {
      var n := |es| - 1;
      forall m | 0 <= m < n && es[..n][m].At? ensures Shown(es[..n][..m], displayed) != k {
        assert es[..n][..m] == es[..m];
      }
      NothingReceived(es[..n], displayed, k);
    }
  }

  /** Over every run of the three terminals in which Ctrl-L meets empty lines only, on each of them every erasure
      writes inside video memory, so `TerminalBackspace` does not fault. */
  lemma GroupErasuresStayInside(g: Group, es: seq<GlobalEvent>, k: int)
    requires WellFormed(g) && 0 <= k < TERMINAL_COUNT && Safe(g.locals[k])
    requires ClearsEmptyLines(g.locals[k], Received(es, g.displayed, k))
    ensures EraseInside(GroupRun(g, es).locals[k]) && ErasesInside(g.locals[k], Received(es, g.displayed, k))
  {
    TerminalsAreIndependent(g, es, k);
    ErasuresStayInside(g.locals[k], Received(es, g.displayed, k));
  }
}
