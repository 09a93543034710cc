/** One terminal by itself: its screen, its line buffer, and what typing, erasing and reading do to them. */
module LineDiscipline {
  import opened Bytes
  import opened Console

  const KEYBOARD_MAX_BUFFER := 128
  const LINE_LIMIT := KEYBOARD_MAX_BUFFER - 2

  datatype Keys = Keys(buffer: seq<Byte>, size: int, allow: bool)

  datatype Local = Local(screen: Screen, keys: Keys)

  /** What reaches the displayed terminal: program output, keys, Ctrl-L, and a read by its program. */
  datatype Event = Out(c: Byte) | Key(c: Byte) | Backspace | Clear | Read(nbytes: nat)

  ghost predicate Sized(l: Local) {
    |l.screen.video| == VIDEO_SIZE && |l.keys.buffer| == KEYBOARD_MAX_BUFFER && 0 <= l.keys.size <= LINE_LIMIT
  }

  ghost function AddKey(k: Keys, c: Byte): Keys
    requires |k.buffer| == KEYBOARD_MAX_BUFFER && 0 <= k.size < LINE_LIMIT
  {
    Keys(k.buffer[k.size := c], k.size + 1, k.allow || c == NEWLINE)
  }

  /** The slot that is cleared is the one behind the erased key. */
  ghost function DropKey(k: Keys): Keys
    requires |k.buffer| == KEYBOARD_MAX_BUFFER && 0 < k.size <= LINE_LIMIT
  {
    k.(buffer := k.buffer[k.size := NUL], size := k.size - 1)
  }

  /** How many bytes a read takes: up to the first NUL. */
  ghost function Taken(k: Keys, nbytes: nat): (n: nat)
    requires |k.buffer| == KEYBOARD_MAX_BUFFER
    ensures n <= nbytes && n <= KEYBOARD_MAX_BUFFER
  {
    var n := IndexOf(k.buffer, NUL, 0);
    if n < nbytes then n else nbytes
  }

  ghost function ReadBytes(k: Keys, nbytes: nat): seq<Byte>
    requires |k.buffer| == KEYBOARD_MAX_BUFFER
  {
    k.buffer[..Taken(k, nbytes)]
  }

  /** A read clears what it takes and the NUL that stopped it. */
  ghost function AfterRead(k: Keys, nbytes: nat): (r: Keys)
    requires |k.buffer| == KEYBOARD_MAX_BUFFER
    ensures |r.buffer| == KEYBOARD_MAX_BUFFER && r.size == 0
  {
    var n := Taken(k, nbytes);
    Keys(seq(KEYBOARD_MAX_BUFFER, i requires 0 <= i < KEYBOARD_MAX_BUFFER =>
           if i < n || (i == n && n < nbytes) then NUL else k.buffer[i]), 0, false)
  }

  ghost function Step(l: Local, e: Event): (r: Local)
    requires Sized(l)
    ensures Sized(r)
  {
    match e
    case Out(c) => l.(screen := Putc(l.screen, c))
    case Key(c) => if l.keys.size >= LINE_LIMIT then l else Local(Putc(l.screen, c), AddKey(l.keys, c))
    case Backspace => if l.keys.size == 0 then l else Local(Erase(l.screen), DropKey(l.keys))
    case Clear => l.(screen := Cleared())
    case Read(n) => if l.keys.allow then l.(keys := AfterRead(l.keys, n)) else l
  }

  ghost function Run(l: Local, es: seq<Event>): (r: Local)
    requires Sized(l)
    ensures Sized(r)
  {
    if es == [] then l else Step(Run(l, es[..|es| - 1]), es[|es| - 1])
  }

  // ----- the edited line -----

  /** What the user thinks the line is. A read that is allowed starts a new line. */
  ghost function Edit(line: seq<Byte>, allow: bool, e: Event): seq<Byte> {
    match e
    case Key(c) => if |line| < LINE_LIMIT then line + [c] else line
    case Backspace => if line == [] then line else line[..|line| - 1]
    case Read(_) => if allow then [] else line
    case _ => line
  }

  /** The buffer holds the line; behind it, only the next slot may hold a stale byte. */
  ghost predicate Holds(k: Keys, line: seq<Byte>) {
    && |k.buffer| == KEYBOARD_MAX_BUFFER
    && k.size == |line| <= LINE_LIMIT
    && (forall i :: 0 <= i < |line| ==> k.buffer[i] == line[i] && line[i] != NUL)
    && (forall i :: |line| < i < KEYBOARD_MAX_BUFFER ==> k.buffer[i] == NUL)
  }

  /** Keys are never NUL. */
  ghost predicate Proper(e: Event) {
    e.Key? ==> e.c != NUL
  }

  ghost function Max(a: nat, b: nat): nat {
    if a > b then a else b
  }

  /** How many bytes there are to read. */
  ghost function Filled(k: Keys): nat
    requires |k.buffer| == KEYBOARD_MAX_BUFFER
  {
    IndexOf(k.buffer, NUL, 0)
  }

  /** A read leaves nothing that a later line would not cover. */
  ghost predicate ReadsWhole(filled: nat, allow: bool, e: Event) {
    e.Read? && allow ==> filled <= Max(e.nbytes, 1)
  }

  lemma FilledByLine(k: Keys, line: seq<Byte>)
    requires Holds(k, line)
    ensures Filled(k) == if k.buffer[|line|] == NUL then |line| else |line| + 1
  {
    IndexOfUnique(k.buffer, NUL, 0, if k.buffer[|line|] == NUL then |line| else |line| + 1);
  }

  lemma StepHolds(l: Local, line: seq<Byte>, e: Event)
    requires Sized(l) && Holds(l.keys, line) && Proper(e) && ReadsWhole(Filled(l.keys), l.keys.allow, e)
    ensures Holds(Step(l, e).keys, Edit(line, l.keys.allow, e))
  {
    FilledByLine(l.keys, line);
  }

  ghost function EditRun(l: Local, line: seq<Byte>, es: seq<Event>): seq<Byte>
    requires Sized(l)
  {
    if es == [] then line
    else
      var n := |es| - 1;
      Edit(EditRun(l, line, es[..n]), Run(l, es[..n]).keys.allow, es[n])
  }

  /** What the last accepted edit since the last enabled read has erased: a key, or nothing if it was not an
      erasure. */
  ghost function Erased(line: seq<Byte>, erased: seq<Byte>, allow: bool, e: Event): seq<Byte> {
    match e
    case Key(_) => if |line| < LINE_LIMIT then [] else erased
    case Backspace => if line == [] then erased else line[|line| - 1..]
    case Read(_) => if allow then [] else erased
    case _ => erased
  }

  ghost function LastErased(l: Local, line: seq<Byte>, erased: seq<Byte>, es: seq<Event>): seq<Byte>
    requires Sized(l)
  {
    if es == [] then erased
    else
      var n := |es| - 1;
      Erased(EditRun(l, line, es[..n]), LastErased(l, line, erased, es[..n]), Run(l, es[..n]).keys.allow, es[n])
  }

  /** Every read of the run that is enabled asks for all bytes there are, the line and the last erased key. One that
      asks for nothing may leave a single byte, which the next line covers. */
  ghost predicate WholeReads(l: Local, line: seq<Byte>, erased: seq<Byte>, es: seq<Event>)
    requires Sized(l)
  {
    es == [] ||
    var n := |es| - 1;
    && WholeReads(l, line, erased, es[..n]) && Proper(es[n])
    && ReadsWhole(|EditRun(l, line, es[..n])| + |LastErased(l, line, erased, es[..n])|,
                  Run(l, es[..n]).keys.allow, es[n])
  }

  lemma {:induction false} NoReads(l: Local, line: seq<Byte>, erased: seq<Byte>, es: seq<Event>)
    requires Sized(l) && forall i :: 0 <= i < |es| ==> Proper(es[i]) && !es[i].Read?
    ensures WholeReads(l, line, erased, es)
  {
    if es != [] {
      NoReads(l, line, erased, es[..|es| - 1]);
    }
  }

  /** The buffer holds the line and behind it the last erased key. After a read of nothing the line is empty, and the
      first slot may hold any byte until the next key. */
  ghost predicate InStep(k: Keys, line: seq<Byte>, erased: seq<Byte>) {
    && Holds(k, line)
    && (erased == (if k.buffer[|line|] == NUL then [] else [k.buffer[|line|]])
        || (erased == [] && line == [] && !k.allow))
  }

  lemma StepInStep(l: Local, line: seq<Byte>, erased: seq<Byte>, e: Event)
    requires Sized(l) && InStep(l.keys, line, erased) && Proper(e) && ReadsWhole(|line| + |erased|, l.keys.allow, e)
    ensures InStep(Step(l, e).keys, Edit(line, l.keys.allow, e), Erased(line, erased, l.keys.allow, e))
  {
    FilledByLine(l.keys, line);
    StepHolds(l, line, e);
    if e.Read? && l.keys.allow {
      ReadFrom(l.keys, e.nbytes);
    }
  }

  lemma ReadFrom(k: Keys, nbytes: nat)
    requires |k.buffer| == KEYBOARD_MAX_BUFFER
    ensures nbytes > 0 || Filled(k) == 0 ==> AfterRead(k, nbytes).buffer[0] == NUL
    ensures nbytes == 0 ==> AfterRead(k, nbytes).buffer == k.buffer
  {
  }

  /** Over every run of output, keys, erasures, clears and whole reads, the buffer holds exactly the edited line and
      behind it the key that the last edit erased, although every erasure clears the wrong slot. */
  lemma {:induction false} BufferHoldsLine(l: Local, line: seq<Byte>, erased: seq<Byte>, es: seq<Event>)
    requires Sized(l) && InStep(l.keys, line, erased) && WholeReads(l, line, erased, es)
    ensures InStep(Run(l, es).keys, EditRun(l, line, es), LastErased(l, line, erased, es))
  {
    if es != [] {
      hide Step, InStep, Edit, Erased, Proper, ReadsWhole;
      var n := |es| - 1;
      BufferHoldsLine(l, line, erased, es[..n]);
      StepInStep(Run(l, es[..n]), EditRun(l, line, es[..n]), LastErased(l, line, erased, es[..n]), es[n]);
    }
  }

  /** Over every such run, a read that is enabled returns the line and behind it what the last edit erased, as far as
      it asks for them. So it returns exactly the line, if it asks for more, if and only if the last accepted edit
      since the last enabled read was no erasure. It leaves the buffer all NUL if and only if it asks for all of it.
      */
  lemma ReadReturnsLine(l: Local, line: seq<Byte>, erased: seq<Byte>, es: seq<Event>, nbytes: nat)
    requires Sized(l) && InStep(l.keys, line, erased) && WholeReads(l, line, erased, es) && Run(l, es).keys.allow
    ensures var k := Run(l, es).keys; var all := EditRun(l, line, es) + LastErased(l, line, erased, es);
      && ReadBytes(k, nbytes) == Prefix(all, nbytes)
      && (nbytes > |EditRun(l, line, es)| ==>
            (ReadBytes(k, nbytes) == EditRun(l, line, es) <==> LastErased(l, line, erased, es) == []))
      && (AllNul(AfterRead(k, nbytes)) <==> |all| <= nbytes)
  {
    BufferHoldsLine(l, line, erased, es);
    ReadInStep(Run(l, es).keys, EditRun(l, line, es), LastErased(l, line, erased, es), nbytes);
  }

  ghost predicate AllNul(k: Keys) {
    forall i :: 0 <= i < |k.buffer| ==> k.buffer[i] == NUL
  }

  lemma ReadInStep(k: Keys, line: seq<Byte>, erased: seq<Byte>, nbytes: nat)
    requires InStep(k, line, erased) && k.allow
    ensures ReadBytes(k, nbytes) == Prefix(line + erased, nbytes)
    ensures AllNul(AfterRead(k, nbytes)) <==> |line + erased| <= nbytes
    ensures nbytes > |line| ==> (ReadBytes(k, nbytes) == line <==> erased == [])
  {
    FilledByLine(k, line);
    var all := line + erased;
    assert forall i :: 0 <= i < |all| ==> all[i] == k.buffer[i] != NUL;
    if |all| > nbytes {
      assert AfterRead(k, nbytes).buffer[nbytes] == all[nbytes];
    }
  }

  lemma RunOne(l: Local, e: Event)
    requires Sized(l)
    ensures Run(l, [e]) == Step(l, e)
  {
    assert [e][..0] == [];
  }

  lemma {:induction false} RunCons(l: Local, e: Event, es: seq<Event>)
    requires Sized(l)
    ensures Run(l, [e] + es) == Run(Step(l, e), es)
  {
    RunOne(l, e);
    if es == [] {
      assert [e] + es == [e];
    } else {
      var n := |es| - 1;
      RunCons(l, e, es[..n]);
      assert ([e] + es)[..n + 1] == [e] + es[..n];
    }
  }

  /** A run that fails: Enter is typed and erased before the program reads, and the read returns the newline as
      well. */
  lemma EnterErased(l: Local, c: Byte, nbytes: nat)
    requires Sized(l) && InStep(l.keys, [], []) && l.keys.buffer[0] == NUL && c != NUL && nbytes >= 2
    ensures var es := [Key(c), Key(NEWLINE), Backspace]; var k := Run(l, es).keys;
      k.allow && EditRun(l, [], es) == [c] && ReadBytes(k, nbytes) == [c, NEWLINE]
  {
    var es := [Key(c), Key(NEWLINE), Backspace];
    assert es[..2] == [Key(c), Key(NEWLINE)] && es[..2][..1] == [Key(c)] && [Key(c)][..0] == [];
    assert EditRun(l, [], [Key(c)]) == [c];
    assert EditRun(l, [], es[..2]) == [c, NEWLINE];
    assert EditRun(l, [], es) == [c] && LastErased(l, [], [], es) == [NEWLINE];
    NoReads(l, [], [], es);
    RunOne(l, Key(c));
    assert Run(l, es[..2]) == Step(Step(l, Key(c)), Key(NEWLINE));
    ReadReturnsLine(l, [], [], es, nbytes);
  }

  /** The read that Enter enables returns the line that was typed and the newline, as far as it asks for them. */
  lemma EnterThenRead(l: Local, line: seq<Byte>, erased: seq<Byte>, es: seq<Event>, nbytes: nat)
    requires Sized(l) && InStep(l.keys, line, erased) && WholeReads(l, line, erased, es)
    requires |EditRun(l, line, es)| < LINE_LIMIT
    ensures var r := Run(l, es + [Key(NEWLINE)]); var typed := EditRun(l, line, es) + [NEWLINE];
      && r.keys.allow && ReadBytes(r.keys, nbytes) == Prefix(typed, nbytes)
      && (AllNul(AfterRead(r.keys, nbytes)) <==> |typed| <= nbytes)
  {
    BufferHoldsLine(l, line, erased, es);
    var before, typed := Run(l, es), EditRun(l, line, es);
    assert (es + [Key(NEWLINE)])[..|es|] == es;
    StepInStep(before, typed, LastErased(l, line, erased, es), Key(NEWLINE));
    ReadInStep(Step(before, Key(NEWLINE)).keys, typed + [NEWLINE], [], nbytes);
    assert typed + [NEWLINE] + [] == typed + [NEWLINE];
  }

  // ----- reads that take less than the line -----

  /** A line of `m` keys, the last of which is Enter. */
  ghost function TypedLine(m: nat): seq<Event>
    requires m > 0
  {
    seq(m - 1, i => Key(SPACE)) + [Key(NEWLINE)]
  }

  lemma {:induction false} KeysTyped(l: Local, j: nat)
    requires Sized(l) && l.keys.size == 0 && j < LINE_LIMIT
    ensures var es := seq(j, i => Key(SPACE)); var k := Run(l, es).keys;
      && k.size == |EditRun(l, [], es)| == j
      && (forall i :: j <= i < KEYBOARD_MAX_BUFFER ==> k.buffer[i] == l.keys.buffer[i])
      && (forall i :: 0 <= i < j ==> k.buffer[i] == SPACE)
  {
    if j > 0 {
      hide Putc;
      var es := seq(j, i => Key(SPACE));
      assert es[..j - 1] == seq(j - 1, i => Key(SPACE));
      KeysTyped(l, j - 1);
    }
  }

  lemma LastStep(l: Local, line: seq<Byte>, erased: seq<Byte>, es: seq<Event>)
    requires Sized(l) && es != []
    ensures var n := |es| - 1; var q := Run(l, es[..n]); var before := EditRun(l, line, es[..n]);
      && Run(l, es) == Step(q, es[n]) && EditRun(l, line, es) == Edit(before, q.keys.allow, es[n])
      && LastErased(l, line, erased, es) == Erased(before, LastErased(l, line, erased, es[..n]), q.keys.allow, es[n])
  {
  }

  lemma EnterTyped(q: Local)
    requires Sized(q) && q.keys.size < LINE_LIMIT && forall i :: 0 <= i < q.keys.size ==> q.keys.buffer[i] == SPACE
    ensures var k := Step(q, Key(NEWLINE)).keys; var m := q.keys.size + 1;
      && k.allow && k.buffer[m] == q.keys.buffer[m] && forall i :: 0 <= i < m ==> k.buffer[i] != NUL
  {
    hide Putc;
  }

  lemma TypedLineKeys(m: nat)
    requires m > 0
    ensures var es := TypedLine(m);
      && |es| == m && es[..m - 1] == seq(m - 1, i => Key(SPACE)) && es[m - 1] == Key(NEWLINE)
      && forall i :: 0 <= i < m ==> Proper(es[i]) && !es[i].Read?
  {
  }

  lemma LineTyped(l: Local, m: nat)
    requires Sized(l) && l.keys.size == 0 && 0 < m <= LINE_LIMIT
    ensures var es := TypedLine(m); var k := Run(l, es).keys;
      && k.allow && |EditRun(l, [], es)| == m && WholeReads(l, [], [], es) && LastErased(l, [], [], es) == []
      && (forall i :: 0 <= i < m ==> k.buffer[i] != NUL) && k.buffer[m] == l.keys.buffer[m]
  {
    hide Run, EditRun, LastErased, WholeReads, Step, TypedLine, Proper;
    TypedLineKeys(m);
    KeysTyped(l, m - 1);
    NoReads(l, [], [], TypedLine(m));
    LastStep(l, [], [], TypedLine(m));
    EnterTyped(Run(l, TypedLine(m)[..m - 1]));
  }

  /** The next enabled reads after a run return what they should. */
  ghost predicate ReadsRight(l: Local, es: seq<Event>)
    requires Sized(l)
  {
    WholeReads(l, [], [], es) && Run(l, es).keys.allow ==>
      ReadBytes(Run(l, es).keys, KEYBOARD_MAX_BUFFER) == EditRun(l, [], es) + LastErased(l, [], [], es)
  }

  /** Bytes that a short read leaves behind are read with the next line that is not long enough to cover them. */
  lemma LeftoverIsRead(l: Local, m: nat)
    requires Sized(l) && l.keys.size == 0 && 0 < m <= LINE_LIMIT && l.keys.buffer[m] != NUL
    ensures !ReadsRight(l, TypedLine(m))
  {
    hide TypedLine, WholeReads, LastErased, EditRun, Run;
    LineTyped(l, m);
    var k := Run(l, TypedLine(m)).keys;
    assert k.buffer[m] != NUL;
    assert Taken(k, KEYBOARD_MAX_BUFFER) > m;
  }

  /** After an enabled read all later reads are right, whatever follows with whole reads, if and only if this one asks
      for all bytes there are, or for none of a single one. */
  lemma ShortReadHarmlessIff(l: Local, line: seq<Byte>, nbytes: nat)
    requires Sized(l) && Holds(l.keys, line) && l.keys.allow
    ensures var r := Step(l, Read(nbytes));
      (forall es :: ReadsRight(r, es)) <==> Filled(l.keys) <= Max(nbytes, 1)
  {
    var r := Step(l, Read(nbytes));
    FilledByLine(l.keys, line);
    if Filled(l.keys) <= Max(nbytes, 1) {
      StepHolds(l, line, Read(nbytes));
      ReadFrom(l.keys, nbytes);
      assert InStep(r.keys, [], []);
      forall es ensures ReadsRight(r, es) {
        if WholeReads(r, [], [], es) && Run(r, es).keys.allow {
          ReadReturnsLine(r, [], [], es, KEYBOARD_MAX_BUFFER);
          BufferHoldsLine(r, [], [], es);
        }
      }
    } else {
      var m := Max(nbytes, 1);
      assert r.keys.buffer[m] == l.keys.buffer[m] != NUL;
      LeftoverIsRead(r, m);
    }
  }

  /** The shortest such run: a read of one byte leaves the rest of a line, which the next line does not cover. */
  lemma ShortReadLeaves(l: Local, c: Byte)
    requires Sized(l) && InStep(l.keys, [c, NEWLINE], []) && l.keys.allow
    ensures var k := Run(l, [Read(1), Key(NEWLINE)]).keys;
      k.allow && k.size == 1 && ReadBytes(k, KEYBOARD_MAX_BUFFER) == [NEWLINE, NEWLINE]
  {
    FilledByLine(l.keys, [c, NEWLINE]);
    var es := [Read(1), Key(NEWLINE)];
    assert es[..1] == [Read(1)];
    RunOne(l, Read(1));
    var k := Run(l, es).keys;
    assert k.buffer[0] == NEWLINE && k.buffer[1] == [c, NEWLINE][1] && k.buffer[2] == NUL;
    IndexOfUnique(k.buffer, NUL, 0, 2);
  }

  // ----- what is typed and printed -----

  ghost function Output(text: seq<Byte>): seq<Event> {
    seq(|text|, i requires 0 <= i < |text| => Out(text[i]))
  }

  ghost function Typing(text: seq<Byte>): seq<Event> {
    seq(|text|, i requires 0 <= i < |text| => Key(text[i]))
  }

  /** What a program writes appears on the screen: the screen becomes the window of the page with the text typed on
      it, and the line that is being edited stays as it is. */
  lemma {:induction false} OutputOnPage(l: Local, text: seq<Byte>)
    requires Sized(l)
    ensures Run(l, Output(text)) == l.(screen := PutAll(l.screen, text))
    ensures InRange(l.screen) ==> IsWindow(Run(l, Output(text)).screen, TypeAll(PageOf(l.screen), text))
  {
    if text != [] {
      hide Putc;
      var n := |text| - 1;
      OutputOnPage(l, text[..n]);
      assert Output(text)[..n] == Output(text[..n]);
    }
    if InRange(l.screen) {
      ScreenIsPage(l.screen, text);
    }
  }

  lemma OneKey(q: Local, line: seq<Byte>, c: Byte)
    requires Sized(q) && q.keys.size == |line| < LINE_LIMIT
    ensures var r := Step(q, Key(c));
      && r.screen == Putc(q.screen, c) && Edit(line, q.keys.allow, Key(c)) == line + [c]
      && r.keys.size == |line| + 1 && (r.keys.allow <==> q.keys.allow || c == NEWLINE)
  {
    hide Putc;
  }

  lemma TypingLast(line: seq<Byte>, text: seq<Byte>)
    requires text != []
    ensures var n := |text| - 1;
      && |Typing(text)| == n + 1 && Typing(text)[..n] == Typing(text[..n]) && Typing(text)[n] == Key(text[n])
      && line + text == line + text[..n] + [text[n]]
      && (NEWLINE in text <==> NEWLINE in text[..n] || text[n] == NEWLINE)
  {
  }

  lemma {:induction false} KeysTypedInOrder(l: Local, line: seq<Byte>, text: seq<Byte>)
    requires Sized(l) && l.keys.size == |line| && |line| + |text| <= LINE_LIMIT
    ensures var r := Run(l, Typing(text));
      && r.screen == PutAll(l.screen, text) && EditRun(l, line, Typing(text)) == line + text
      && r.keys.size == |line| + |text| && (r.keys.allow <==> l.keys.allow || NEWLINE in text)
  {
    if text == [] {
      assert line + text == line;
    } else {
      hide Run, EditRun, LastErased, Step, Edit, Typing, Putc, Sized;
      var n := |text| - 1;
      TypingLast(line, text);
      KeysTypedInOrder(l, line, text[..n]);
      LastStep(l, line, [], Typing(text));
      OneKey(Run(l, Typing(text[..n])), line + text[..n], text[n]);
    }
  }

  /** What is typed appears in the same way, newlines included, as long as the keyboard buffer takes it, and is added
      to the line. */
  lemma TypedOnPage(l: Local, line: seq<Byte>, text: seq<Byte>)
    requires Sized(l) && l.keys.size == |line| && |line| + |text| <= LINE_LIMIT
    ensures Run(l, Typing(text)).screen == PutAll(l.screen, text)
    ensures InRange(l.screen) ==> IsWindow(Run(l, Typing(text)).screen, TypeAll(PageOf(l.screen), text))
    ensures EditRun(l, line, Typing(text)) == line + text && Run(l, Typing(text)).keys.size == |line| + |text|
    ensures Run(l, Typing(text)).keys.allow <==> l.keys.allow || NEWLINE in text
  {
    hide Run, EditRun, Typing, PutAll, TypeAll, IsWindow;
    KeysTypedInOrder(l, line, text);
    if InRange(l.screen) {
      ScreenIsPage(l.screen, text);
    }
  }

  /** An erasure takes back the last key of the line, and does nothing to an empty one. */
  lemma EraseTakesBack(line: seq<Byte>, c: Byte, allow: bool)
    ensures |line| < LINE_LIMIT ==> Edit(Edit(line, allow, Key(c)), allow, Backspace) == line
    ensures |line| >= LINE_LIMIT ==> Edit(line, allow, Key(c)) == line
    ensures Edit([], allow, Backspace) == []
  {
    assert (line + [c])[..|line|] == line;
  }

  /** Call `i` of the run is an accepted Enter. */
  ghost predicate EnterAt(l: Local, es: seq<Event>, i: int)
    requires Sized(l) && 0 <= i < |es|
  {
    es[i] == Key(NEWLINE) && Run(l, es[..i]).keys.size < LINE_LIMIT
  }

  /** Since call `i`, an accepted Enter, no read has come. */
  ghost predicate EnabledBy(l: Local, es: seq<Event>, i: int)
    requires Sized(l) && 0 <= i < |es|
  {
    EnterAt(l, es, i) && forall j :: i < j < |es| ==> !es[j].Read?
  }

  lemma EnabledByPrefix(l: Local, es: seq<Event>, i: nat)
    requires Sized(l) && i < |es| - 1
    ensures EnabledBy(l, es, i) <==> EnabledBy(l, es[..|es| - 1], i) && !es[|es| - 1].Read?
  {
    hide Run;
    var n := |es| - 1;
    assert es[..n][..i] == es[..i] && forall j :: 0 <= j < n ==> es[..n][j] == es[j];
  }

  lemma {:induction false} EnabledHasEnter(l: Local, es: seq<Event>) returns (i: nat)
    requires Sized(l) && !l.keys.allow && Run(l, es).keys.allow
    ensures i < |es| && EnabledBy(l, es, i)
  {
    hide Step;
    var n := |es| - 1;
    StepEnables(Run(l, es[..n]), es[n]);
    if es[n] == Key(NEWLINE) && Run(l, es[..n]).keys.size < LINE_LIMIT {
      return n;
    }
    i := EnabledHasEnter(l, es[..n]);
    EnabledByPrefix(l, es, i);
  }

  lemma {:induction false} EnterEnables(l: Local, es: seq<Event>, i: nat)
    requires Sized(l) && i < |es| && EnabledBy(l, es, i)
    ensures Run(l, es).keys.allow
  {
    hide Step;
    var n := |es| - 1;
    StepEnables(Run(l, es[..n]), es[n]);
    if i < n {
      EnabledByPrefix(l, es, i);
      EnterEnables(l, es[..n], i);
    }
  }

  /** A read is enabled exactly by an accepted Enter behind which no read has come. */
  lemma EnabledIff(l: Local, es: seq<Event>)
    requires Sized(l) && !l.keys.allow
    ensures Run(l, es).keys.allow <==> exists i :: 0 <= i < |es| && EnabledBy(l, es, i)
  {
    hide *;
    if Run(l, es).keys.allow {
      var i := EnabledHasEnter(l, es);
    }
    forall i | 0 <= i < |es| && EnabledBy(l, es, i) ensures Run(l, es).keys.allow {
      EnterEnables(l, es, i);
    }
  }

  lemma StepEnables(l: Local, e: Event)
    requires Sized(l)
    ensures Step(l, e).keys.allow <==>
      (l.keys.allow && !e.Read?) || (e == Key(NEWLINE) && l.keys.size < LINE_LIMIT)
  {
  }

  /** Ctrl-L blanks the screen, starts at its first cell and leaves the line alone; a read leaves the screen alone; a
      key that the full buffer refuses, and an erasure of an empty line, change nothing. */
  lemma EventsLeave(l: Local, e: Event)
    requires Sized(l)
    ensures var r := Step(l, e);
      && (e.Clear? ==> r.keys == l.keys && Pos(r.screen) == 0)
      && (e.Clear? ==> forall k :: 0 <= k < CELLS ==>
            Char(r.screen.video, k) == SPACE && Attribute(r.screen.video, k) == ATTRIB)
      && (e.Out? ==> r.keys == l.keys)
      && (e.Read? ==> r.screen == l.screen && (!l.keys.allow ==> r == l))
      && (e.Key? && l.keys.size >= LINE_LIMIT ==> r == l)
      && (e.Backspace? && l.keys.size == 0 ==> r == l)
  {
    ClearedIsBlank();
  }

  // ----- the line on the screen -----

  /** How often the screen has scrolled when typing reached the linear address `a` of the original screen. */
  ghost function Scrolls(a: nat): nat {
    if a < CELLS then 0 else (a - CELLS) / COLS + 1
  }

  /** The cell `a` of the original screen, unrolled: the line from the start on, blanks up to the furthest address
      reached, and the original screen elsewhere. */
  ghost function TypedCell(s: Screen, line: seq<Byte>, high: nat, a: int): int
    requires InRange(s) && |line| <= high && 0 <= a
  {
    var start := Pos(s);
    if start <= a < start + |line| then line[a - start]
    else if start + |line| <= a < start + high then SPACE
    else if a < CELLS then Char(s.video, a)
    else SPACE
  }

  /** After typing from screen `s`, the cursor stands behind the line, which reached the length `high` at most. */
  ghost predicate Echoes(s: Screen, r: Screen, line: seq<Byte>, high: nat) {
    && InRange(s) && Fits(r)
    && |line| <= high <= LINE_LIMIT
    && Pos(r) + COLS * Scrolls(Pos(s) + high) == Pos(s) + |line|
    && (forall k :: 0 <= k < CELLS ==> Char(r.video, k) == TypedCell(s, line, high, k + COLS * Scrolls(Pos(s) + high)))
  }

  ghost predicate Plain(e: Event) {
    e == Backspace || (e.Key? && e.c != NUL && !IsNewline(e.c))
  }

  /** The greatest length the line has had. */
  ghost function Furthest(l: Local, line: seq<Byte>, es: seq<Event>): nat
    requires Sized(l)
  {
    if es == [] then |line| else Max(Furthest(l, line, es[..|es| - 1]), |EditRun(l, line, es)|)
  }

  /** The cursor never leaves video memory, even where its row is an earlier one than `y` says. */
  lemma EchoesInside(s: Screen, r: Screen, line: seq<Byte>, high: nat)
    requires Echoes(s, r, line, high)
    ensures 0 <= Pos(r) < CELLS && (line != [] ==> 0 < Pos(r))
    ensures COLS * Scrolls(Pos(s) + high) <= Pos(s)
  {
  }

  lemma TypedCellAfterKey(s: Screen, line: seq<Byte>, high: nat, c: Byte, a: int)
    requires InRange(s) && |line| <= high && 0 <= a
    ensures TypedCell(s, line + [c], Max(high, |line| + 1), a)
      == if a == Pos(s) + |line| then c else TypedCell(s, line, high, a)
  {
  }

  /** How far the screen scrolls for one key. */
  lemma KeyScrolls(s: Screen, r: Screen, line: seq<Byte>, high: nat)
    requires Echoes(s, r, line, high) && |line| < LINE_LIMIT
    ensures Scrolls(Pos(s) + Max(high, |line| + 1)) == Scrolls(Pos(s) + high) + if Pos(r) == CELLS - 1 then 1 else 0
  {
    EchoesInside(s, r, line, high);
  }

  lemma KeyEchoesCell(s: Screen, r: Screen, line: seq<Byte>, high: nat, c: Byte, k: int)
    requires Echoes(s, r, line, high) && |line| < LINE_LIMIT && !IsNewline(c) && 0 <= k < CELLS
    ensures var h := Max(high, |line| + 1);
      Char(Putc(r, c).video, k) == TypedCell(s, line + [c], h, k + COLS * Scrolls(Pos(s) + h))
  {
    hide Putc, Scrolls;
    EchoesInside(s, r, line, high);
    KeyScrolls(s, r, line, high);
    PutcLinear(r, c);
    var n := Scrolls(Pos(s) + high);
    if Pos(r) == CELLS - 1 {
      assert (k + COLS) + COLS * n == k + COLS * (n + 1);
      TypedCellAfterKey(s, line, high, c, k + COLS * (n + 1));
    } else {
      TypedCellAfterKey(s, line, high, c, k + COLS * n);
    }
  }

  lemma KeyEchoes(s: Screen, r: Screen, line: seq<Byte>, high: nat, c: Byte)
    requires Echoes(s, r, line, high) && |line| < LINE_LIMIT && !IsNewline(c)
    ensures Echoes(s, Putc(r, c), line + [c], Max(high, |line| + 1))
  {
    hide Putc, TypedCell, Scrolls;
    EchoesInside(s, r, line, high);
    KeyScrolls(s, r, line, high);
    PutcLinear(r, c);
    var h := Max(high, |line| + 1);
    forall k | 0 <= k < CELLS
      ensures Char(Putc(r, c).video, k) == TypedCell(s, line + [c], h, k + COLS * Scrolls(Pos(s) + h))
    {
      KeyEchoesCell(s, r, line, high, c, k);
    }
  }

  lemma EraseEchoes(s: Screen, r: Screen, line: seq<Byte>, high: nat)
    requires Echoes(s, r, line, high) && line != []
    ensures Echoes(s, Erase(r), line[..|line| - 1], high)
  {
    EchoesInside(s, r, line, high);
    PutcLinear(r.(x := r.x - 1), SPACE);
  }

  lemma TypingStep(s: Screen, l: Local, line: seq<Byte>, high: nat, e: Event)
    requires Sized(l) && Echoes(s, l.screen, line, high) && Holds(l.keys, line) && Plain(e)
    ensures var line' := Edit(line, l.keys.allow, e);
      Echoes(s, Step(l, e).screen, line', Max(high, |line'|)) && Holds(Step(l, e).keys, line')
  {
    StepHolds(l, line, e);
    assert |line| <= high && l.keys.size == |line|;
    hide Echoes, Putc, Erase, Holds, AddKey, DropKey;
    if e.Key? && |line| < LINE_LIMIT {
      KeyEchoes(s, l.screen, line, high, e.c);
    } else if e.Backspace? && line != [] {
      EraseEchoes(s, l.screen, line, high);
    }
  }

  /** Over every run of plain keys and erasures from an in-range cursor and an empty line, the screen shows exactly
      the edited line from the start position on, erased cells are blank, the rest of the screen is the old one, and
      the next key or erasure writes inside video memory. */
  lemma {:induction false} ScreenShowsLine(l: Local, es: seq<Event>)
    requires Sized(l) && InRange(l.screen) && Holds(l.keys, []) && forall i :: 0 <= i < |es| ==> Plain(es[i])
    ensures var r := Run(l, es); var line := EditRun(l, [], es);
      && Echoes(l.screen, r.screen, line, Furthest(l, [], es))
      && Holds(r.keys, line)
      && 0 <= Pos(r.screen) < CELLS
      && (r.keys.size > 0 ==> Pos(r.screen) > 0)
  {
    if es != [] {
      hide Echoes, Holds, Step, Edit;
      var n := |es| - 1;
      ScreenShowsLine(l, es[..n]);
      TypingStep(l.screen, Run(l, es[..n]), EditRun(l, [], es[..n]), Furthest(l, [], es[..n]), es[n]);
    }
    HoldsSize(Run(l, es).keys, EditRun(l, [], es));
    EchoesInside(l.screen, Run(l, es).screen, EditRun(l, [], es), Furthest(l, [], es));
  }

  lemma HoldsSize(k: Keys, line: seq<Byte>)
    ensures Holds(k, line) ==> k.size == |line|
  {
  }

  // ----- erasures and Ctrl-L -----
  // The page in front of video memory is not present: the first erasure that is not inside is a fault, and nothing
  // behind it in a run happens.

  /** The line that is being edited fits in front of the cursor. */
  ghost predicate Safe(l: Local) {
    Sized(l) && Fits(l.screen) && Pos(l.screen) >= l.keys.size
  }

  /** Every event keeps the line in front of the cursor, except Ctrl-L on a line that is not empty. */
  lemma StepSafe(l: Local, e: Event)
    requires Safe(l)
    ensures Safe(Step(l, e)) <==> !(e.Clear? && l.keys.size > 0)
  {
    match e
    case Out(c) => PutcMoves(l.screen, c);
    case Key(c) => PutcMoves(l.screen, c);
    case Backspace => EraseMoves(l.screen);
    case Clear =>
    case Read(_) =>
  }

  /** An erasure at this point is refused, or writes inside video memory. */
  ghost predicate EraseInside(l: Local) {
    l.keys.size > 0 ==> Pos(l.screen) > 0
  }

  /** Every Ctrl-L of the run meets an empty line. */
  ghost predicate ClearsEmptyLines(l: Local, es: seq<Event>)
    requires Sized(l)
  {
    es == [] ||
    var n := |es| - 1;
    ClearsEmptyLines(l, es[..n]) && (es[n].Clear? ==> Run(l, es[..n]).keys.size == 0)
  }

  /** Every erasure of the run writes inside video memory, if it is accepted. */
  ghost predicate ErasesInside(l: Local, es: seq<Event>)
    requires Sized(l)
  {
    es == [] ||
    var n := |es| - 1;
    ErasesInside(l, es[..n]) && (es[n].Backspace? ==> EraseInside(Run(l, es[..n])))
  }

  /** Over every run of output, keys, erasures, clears and reads in which Ctrl-L meets empty lines only, every erasure
      writes inside video memory. */
  lemma {:induction false} ErasuresStayInside(l: Local, es: seq<Event>)
    requires Safe(l) && ClearsEmptyLines(l, es)
    ensures Safe(Run(l, es)) && ErasesInside(l, es)
  {
    if es != [] {
      var n := |es| - 1;
      ErasuresStayInside(l, es[..n]);
      StepSafe(Run(l, es[..n]), es[n]);
    }
  }

  /** From any other state some erasure leaves video memory, without any Ctrl-L. */
  lemma UnsafeRunsOut(l: Local) returns (es: seq<Event>)
    requires Sized(l) && Fits(l.screen) && !Safe(l)
    ensures ClearsEmptyLines(l, es) && !ErasesInside(l, es)
    decreases l.keys.size
  {
    if l.keys.size == 0 {
      es := [Key(SPACE), Backspace];
      PutcMoves(l.screen, SPACE);
      RunOne(l, Key(SPACE));
      assert es[..1] == [Key(SPACE)];
    } else if Pos(l.screen) <= 0 {
      es := [Backspace];
    } else {
      EraseMoves(l.screen);
      var rest := UnsafeRunsOut(Step(l, Backspace));
      es := [Backspace] + rest;
      EraseFirst(l, rest);
    }
  }

  /** A run that starts with an accepted erasure. */
  lemma {:induction false} EraseFirst(l: Local, es: seq<Event>)
    requires Sized(l)
    ensures ClearsEmptyLines(l, [Backspace] + es) <==> ClearsEmptyLines(Step(l, Backspace), es)
    ensures ErasesInside(l, [Backspace] + es) <==> EraseInside(l) && ErasesInside(Step(l, Backspace), es)
  {
    var all := [Backspace] + es;
    if es == [] {
      assert all == [Backspace] && all[..0] == [];
    } else {
      hide Step, EraseInside;
      var n := |es| - 1;
      EraseFirst(l, es[..n]);
      RunCons(l, Backspace, es[..n]);
      assert all[..n + 1] == [Backspace] + es[..n] && all[n + 1] == es[n];
    }
  }

  /** After Ctrl-L all later erasures write inside video memory, whatever is typed and printed, if and only if the
      line was empty: what was typed before can be erased, but is no longer on the screen. */
  lemma ClearKeepsErasuresInsideIff(l: Local)
    requires Sized(l)
    ensures var r := Step(l, Clear);
      (forall es :: ClearsEmptyLines(r, es) ==> ErasesInside(r, es)) <==> l.keys.size == 0
  {
    var r := Step(l, Clear);
    if l.keys.size == 0 {
      forall es | ClearsEmptyLines(r, es) ensures ErasesInside(r, es) {
        ErasuresStayInside(r, es);
      }
    } else {
      var es := UnsafeRunsOut(r);
      assert ClearsEmptyLines(r, es) && !ErasesInside(r, es);
    }
  }

  /** The length of the line at the last Ctrl-L. */
  ghost function LengthAtClear(l: Local, es: seq<Event>): nat
    requires Sized(l)
  {
    if es == [] then 0
    else
      var n := |es| - 1;
      if es[n].Clear? then Run(l, es[..n]).keys.size else LengthAtClear(l, es[..n])
  }

  /** The line never gets shorter than it was at the last Ctrl-L. */
  ghost predicate KeepsClearedLine(l: Local, es: seq<Event>)
    requires Sized(l)
  {
    Run(l, es).keys.size >= LengthAtClear(l, es) && (es == [] || KeepsClearedLine(l, es[..|es| - 1]))
  }

  /** The cursor stands behind the keys that were typed since the last Ctrl-L, and in front of video memory where more
      than those were erased. */
  ghost predicate BehindCleared(l: Local, cleared: bool, length: nat) {
    && Sized(l) && Fits(l.screen)
    && if cleared then Pos(l.screen) == l.keys.size - length else Safe(l) && length == 0
  }

  lemma StepBehindCleared(l: Local, e: Event, cleared: bool, length: nat)
    requires BehindCleared(l, cleared, length) && (Plain(e) || e.Clear?)
    ensures BehindCleared(Step(l, e), cleared || e.Clear?, if e.Clear? then l.keys.size else length)
    ensures l.keys.size >= length ==>
      ((e.Backspace? ==> EraseInside(l)) <==> Step(l, e).keys.size >= if e.Clear? then l.keys.size else length)
  {
    if !cleared {
      StepSafe(l, e);
    }
    if e.Key? {
      PutcMoves(l.screen, e.c);
    } else if e.Backspace? {
      EraseMoves(l.screen);
    }
  }

  /** In a run of plain keys, erasures and Ctrl-L all erasures write inside video memory if and only if the line never
      gets shorter than it was at the last Ctrl-L. */
  lemma {:induction false} ErasesInsideIff(l: Local, es: seq<Event>)
    requires Safe(l) && forall i :: 0 <= i < |es| ==> Plain(es[i]) || es[i].Clear?
    ensures BehindCleared(Run(l, es), Clear in es, LengthAtClear(l, es))
    ensures ErasesInside(l, es) <==> KeepsClearedLine(l, es)
  {
    if es != [] {
      hide Step, BehindCleared, EraseInside, Plain;
      var n := |es| - 1;
      ErasesInsideIff(l, es[..n]);
      assert es == es[..n] + [es[n]];
      StepBehindCleared(Run(l, es[..n]), es[n], Clear in es[..n], LengthAtClear(l, es[..n]));
    }
  }

  /** The shortest run that fails: Ctrl-L between a key and its erasure. */
  lemma ClearThenErase(l: Local, c: Byte)
    requires Safe(l) && l.keys.size == 0 && c != NUL && !IsNewline(c)
    ensures !ErasesInside(l, [Key(c), Clear, Backspace])
  {
    var es := [Key(c), Clear, Backspace];
    assert es[..2] == [Key(c), Clear] && es[..2][..1] == [Key(c)];
    RunOne(l, Key(c));
  }
}
