/** The table of eight file descriptors of a task, as a value, and what runs of open, close and read do to it. */
module Descriptors {
  import opened Bytes
  import opened FileSystem
  import opened FileReads
  import opened Directory

  const FD_COUNT := 8
  const FIRST_FILE := 2

  datatype Ops = NoOps | StdinOps | StdoutOps | RtcOps | DirOps | FileOps

  datatype Fd = Fd(ops: Ops, inode: int, position: nat, flags: int)

  datatype Event = Open(name: seq<Byte>) | Close(fd: int) | Read(fd: int, nbytes: nat)

  /** The table after a call, and the call's result. */
  datatype Outcome = Outcome(table: seq<Fd>, result: int)

  const CLOSED := Fd(NoOps, 0, 0, 0)
  const STDIN_NAME := "stdin"
  const STDOUT_NAME := "stdout"

  /** The directory's entries are devices, directories and files. */
  ghost predicate Kinds(img: Image) {
    forall i :: 0 <= i < |img.entries| ==> 0 <= img.entries[i].kind <= 2 && img.entries[i].inode >= 0
  }

  ghost predicate EntryInv(f: Fd) {
    && 0 <= f.flags <= 1
    && (f.flags == 0 ==> f.position == 0 && f.inode == 0)
    && (f.flags == 1 ==> f.ops in {RtcOps, DirOps, FileOps} && f.inode >= 0 && (f.ops == RtcOps ==> f.inode == 0))
  }

  /** The console descriptors are open, and a closed descriptor is ready to be opened at position 0. */
  ghost predicate TableInv(t: seq<Fd>) {
    && |t| == FD_COUNT
    && t[0] == Fd(StdinOps, 0, 0, 1) && t[1] == Fd(StdoutOps, 0, 0, 1)
    && forall i :: FIRST_FILE <= i < FD_COUNT ==> EntryInv(t[i])
  }

  ghost function FreshTable(): (t: seq<Fd>)
    ensures TableInv(t)
  {
    [Fd(StdinOps, 0, 0, 1), Fd(StdoutOps, 0, 0, 1), CLOSED, CLOSED, CLOSED, CLOSED, CLOSED, CLOSED]
  }

  /** The lowest closed descriptor from `i` on, or 8. */
  ghost function LowestFree(t: seq<Fd>, i: nat): (k: nat)
    requires |t| == FD_COUNT && i <= FD_COUNT
    ensures i <= k <= FD_COUNT && (k < FD_COUNT ==> t[k].flags == 0)
    ensures forall j :: i <= j < k ==> t[j].flags != 0
    decreases FD_COUNT - i
  {
    if i == FD_COUNT || t[i].flags == 0 then i else LowestFree(t, i + 1)
  }

  function OpsFor(kind: int): Ops {
    if kind == 0 then RtcOps else if kind == 1 then DirOps else FileOps
  }

  /** The descriptor of a console name keeps its operations even when the open fails. */
  ghost function ConsoleOps(f: Fd, name: seq<Byte>): Fd {
    if name == Ascii(STDIN_NAME) then f.(ops := StdinOps)
    else if name == Ascii(STDOUT_NAME) then f.(ops := StdoutOps)
    else f
  }

  ghost predicate Found(img: Image, name: seq<Byte>)
    requires WellFormed(img)
  {
    |name| <= MAX_FILENAME && Lookup(img, name) < MAX_FILECOUNT
  }

  ghost function OpenTable(img: Image, t: seq<Fd>, name: seq<Byte>): (r: Outcome)
    requires WellFormed(img) && |t| == FD_COUNT
    ensures |r.table| == FD_COUNT
  {
    var k := LowestFree(t, FIRST_FILE);
    if name == [] || k == FD_COUNT then Outcome(t, -1)
    else if !Found(img, name) then Outcome(t[k := ConsoleOps(t[k], name)], -1)
    else
      var e := img.entries[Lookup(img, name)];
      Outcome(t[k := Fd(OpsFor(e.kind), if e.kind == 0 then t[k].inode else e.inode, t[k].position, 1)], k)
  }

  /** Closing forgets the position; the device keeps its inode field, which is 0 anyway. */
  ghost function CloseTable(t: seq<Fd>, fd: int): (r: Outcome)
    requires |t| == FD_COUNT
    ensures |r.table| == FD_COUNT
  {
    if fd < FIRST_FILE || fd >= FD_COUNT || t[fd].flags == 0 then Outcome(t, -1)
    else Outcome(t[fd := Fd(t[fd].ops, if t[fd].ops == RtcOps then t[fd].inode else 0, 0, 0)], 0)
  }

  ghost function Moved(img: Image, f: Fd, nbytes: nat): nat
    requires WellFormed(img)
  {
    if f.flags == 0 then f.position
    else if f.ops == FileOps && 0 <= f.inode < |img.inodes| then Advance(img.inodes[f.inode].length, f.position, nbytes)
    else if f.ops == DirOps && f.position < MAX_FILECOUNT && Prefix(Name(img, f.position), nbytes) != [] then
      f.position + 1
    else f.position
  }

  ghost function ReadTable(img: Image, t: seq<Fd>, fd: int, nbytes: nat): (r: seq<Fd>)
    requires WellFormed(img) && |t| == FD_COUNT
    ensures |r| == FD_COUNT
  {
    if fd < 0 || fd >= FD_COUNT || fd == 1 then t else t[fd := t[fd].(position := Moved(img, t[fd], nbytes))]
  }

  ghost function Step(img: Image, t: seq<Fd>, e: Event): (r: seq<Fd>)
    requires WellFormed(img) && |t| == FD_COUNT
    ensures |r| == FD_COUNT
  {
    match e
    case Open(name) => OpenTable(img, t, name).table
    case Close(fd) => CloseTable(t, fd).table
    case Read(fd, n) => ReadTable(img, t, fd, n)
  }

  ghost function Run(img: Image, t: seq<Fd>, es: seq<Event>): (r: seq<Fd>)
    requires WellFormed(img) && |t| == FD_COUNT
    ensures |r| == FD_COUNT
    decreases |es|
  {
    if es == [] then t else Run(img, Step(img, t, es[0]), es[1..])
  }

  lemma RunNothing(img: Image, t: seq<Fd>)
    requires WellFormed(img) && |t| == FD_COUNT
    ensures Run(img, t, []) == t
  {
  }

  lemma RunCons(img: Image, t: seq<Fd>, e: Event, es: seq<Event>)
    requires WellFormed(img) && |t| == FD_COUNT
    ensures Run(img, t, [e] + es) == Run(img, Step(img, t, e), es)
  {
    assert ([e] + es)[1..] == es;
  }

  lemma {:induction false} RunSplit(img: Image, t: seq<Fd>, es: seq<Event>, fs: seq<Event>)
    requires WellFormed(img) && |t| == FD_COUNT
    ensures Run(img, t, es + fs) == Run(img, Run(img, t, es), fs)
    decreases |es|
  {
    if es == [] {
      assert es + fs == fs;
    } else {
      assert es + fs == [es[0]] + (es[1..] + fs);
      RunCons(img, t, es[0], es[1..] + fs);
      RunSplit(img, Step(img, t, es[0]), es[1..], fs);
    }
  }

  lemma RunSnoc(img: Image, t: seq<Fd>, es: seq<Event>, e: Event)
    requires WellFormed(img) && |t| == FD_COUNT
    ensures Run(img, t, es + [e]) == Step(img, Run(img, t, es), e)
  {
    RunSplit(img, t, es, [e]);
    RunCons(img, Run(img, t, es), e, []);
    assert [e] + [] == [e];
  }

  lemma StepKeepsInv(img: Image, t: seq<Fd>, e: Event)
    requires WellFormed(img) && Kinds(img) && TableInv(t)
    ensures TableInv(Step(img, t, e))
  {
  }

  /** Over every run the console stays open, and a closed descriptor has position 0 and inode 0. */
  lemma {:induction false} RunKeepsInv(img: Image, t: seq<Fd>, es: seq<Event>)
    requires WellFormed(img) && Kinds(img) && TableInv(t)
    ensures TableInv(Run(img, t, es))
    decreases |es|
  {
    if es != [] {
      StepKeepsInv(img, t, es[0]);
      RunKeepsInv(img, Step(img, t, es[0]), es[1..]);
    }
  }

  /** An open succeeds exactly for a non-empty name of the directory while one of the six descriptors is closed; it
      takes the lowest of them, at position 0, although nothing resets the position then. */
  lemma OpenMeaning(img: Image, t: seq<Fd>, name: seq<Byte>)
    requires WellFormed(img) && Kinds(img) && TableInv(t)
    ensures var Outcome(t', r) := OpenTable(img, t, name);
      && (r != -1 <==> name != [] && Found(img, name) && exists i :: FIRST_FILE <= i < FD_COUNT && t[i].flags == 0)
      && (r != -1 ==>
        && FIRST_FILE <= r < FD_COUNT && t[r].flags == 0 && (forall i :: FIRST_FILE <= i < r ==> t[i].flags == 1)
        && t'[r].flags == 1 && t'[r].position == 0
        && (match img.entries[Lookup(img, name)].kind
            case 0 => t'[r].ops == RtcOps
            case 1 => t'[r].ops == DirOps
            case _ => t'[r].ops == FileOps)
        && (t'[r].ops != RtcOps ==> t'[r].inode == img.entries[Lookup(img, name)].inode))
  {
  }

  ghost predicate Concerns(e: Event, k: int) {
    match e
    case Open(_) => false
    case Close(fd) => fd == k
    case Read(fd, _) => fd == k
  }

  /** An event changes no open descriptor but its own. */
  lemma OthersUnchanged(img: Image, t: seq<Fd>, e: Event, k: nat)
    requires WellFormed(img) && TableInv(t) && k < FD_COUNT && t[k].flags == 1 && !Concerns(e, k)
    ensures Step(img, t, e)[k] == t[k]
  {
  }

  /** The lengths of the reads of one descriptor. */
  ghost function Lengths(es: seq<Event>, k: int): seq<nat> {
    if es == [] then []
    else (if es[0].Read? && es[0].fd == k then [es[0].nbytes] else []) + Lengths(es[1..], k)
  }

  /** The position of an open file is the one its own possible reads give, whatever is opened, closed or read on the
      other descriptors in between. */
  lemma {:induction false} PositionFollowsOwnReads(img: Image, t: seq<Fd>, es: seq<Event>, k: nat)
    requires WellFormed(img) && Kinds(img) && TableInv(t)
    requires FIRST_FILE <= k < FD_COUNT && t[k].flags == 1 && t[k].ops == FileOps && t[k].inode < |img.inodes|
    requires Close(k) !in es && AllPossible(img.inodes[t[k].inode].length, t[k].position, Lengths(es, k))
    ensures Run(img, t, es)[k]
      == t[k].(position := PositionAfter(img.inodes[t[k].inode].length, t[k].position, Lengths(es, k)))
    decreases |es|
  {
    if es != [] {
      var t' := Step(img, t, es[0]);
      StepKeepsInv(img, t, es[0]);
      if !Concerns(es[0], k) {
        OthersUnchanged(img, t, es[0], k);
      }
      var rest := Lengths(es[1..], k);
      if es[0].Read? && es[0].fd == k {
        assert Lengths(es, k)[0] == es[0].nbytes && Lengths(es, k)[1..] == rest;
      } else {
        assert Lengths(es, k) == rest;
      }
      PositionFollowsOwnReads(img, t', es[1..], k);
    }
  }

  /** Reads of these lengths, if they are possible, have led to the position and delivered the stream up to it, and
      the file where they qualify. */
  ghost predicate Delivers(img: Image, ino: Inode, lengths: seq<nat>, position: nat)
    requires WellFormed(img)
  {
    AllPossible(ino.length, 0, lengths) ==>
      && Delivered(img, ino, 0, lengths) == Stream(img, ino, 0, position)
      && (AllQualify(ino.length, 0, lengths) ==>
            position <= ino.length && Stream(img, ino, 0, position) == Contents(img, ino)[..position])
  }

  /** A file that is opened and then read, among any other use of the table, delivers its block stream from the start;
      where all its reads qualify, these are the first bytes of the file. */
  lemma OpenedFileDelivers(img: Image, t: seq<Fd>, name: seq<Byte>, es: seq<Event>, k: nat, ino: Inode)
    requires WellFormed(img) && Kinds(img) && TableInv(t)
    requires k == OpenTable(img, t, name).result < FD_COUNT && Close(k) !in es
    requires var e := img.entries[Lookup(img, name)];
      e.kind == 2 && e.inode < |img.inodes| && ino == img.inodes[e.inode]
    ensures Delivers(img, ino, Lengths(es, k), Run(img, OpenTable(img, t, name).table, es)[k].position)
  {
    OpenMeaning(img, t, name);
    StepKeepsInv(img, t, Open(name));
    if AllPossible(ino.length, 0, Lengths(es, k)) {
      PositionFollowsOwnReads(img, OpenTable(img, t, name).table, es, k);
      SequentialReading(img, ino, Lengths(es, k));
      StaysInsideIff(ino.length, 0, Lengths(es, k));
    }
  }

  /** On a fresh table, an open after some other calls gives descriptor `k` of the file `ino`. */
  ghost predicate Opens(img: Image, before: seq<Event>, name: seq<Byte>, k: int, ino: Inode)
    requires WellFormed(img)
  {
    && Found(img, name) && OpenTable(img, Run(img, FreshTable(), before), name).result == k && 0 <= k < FD_COUNT
    && var e := img.entries[Lookup(img, name)]; e.kind == 2 && 0 <= e.inode < |img.inodes| && ino == img.inodes[e.inode]
  }

  lemma FreshTableDelivers(img: Image, before: seq<Event>, name: seq<Byte>, es: seq<Event>, k: int, ino: Inode)
    requires WellFormed(img) && Kinds(img) && Opens(img, before, name, k, ino) && Close(k) !in es
    ensures 0 <= k < FD_COUNT
    ensures Delivers(img, ino, Lengths(es, k), Run(img, FreshTable(), before + [Open(name)] + es)[k].position)
  {
    var t := Run(img, FreshTable(), before);
    RunKeepsInv(img, FreshTable(), before);
    assert before + [Open(name)] + es == before + ([Open(name)] + es);
    hide Run, Stream, Contents, FileSystem.WellFormed, TableInv, LowestFree, Lookup;
    RunSplit(img, FreshTable(), before, [Open(name)] + es);
    RunCons(img, t, Open(name), es);
    OpenedFileDelivers(img, t, name, es, k, ino);
  }

  // ----- closing, failing opens and directories -----

  /** A close succeeds exactly for an open descriptor from 2 to 7; it is closed then, and the others stay. */
  lemma CloseMeaning(t: seq<Fd>, fd: int)
    requires TableInv(t)
    ensures var Outcome(t', r) := CloseTable(t, fd);
      && (r == 0 <==> FIRST_FILE <= fd < FD_COUNT && t[fd].flags == 1)
      && (r == 0 ==> t'[fd].flags == 0 && t'[fd].position == 0 && t'[fd].inode == 0)
      && (forall k :: 0 <= k < FD_COUNT && k != fd ==> t'[k] == t[k])
      && (r != 0 ==> r == -1 && t' == t)
  {
  }

  /** An open that fails changes no descriptor that is open, and opens none. */
  lemma FailedOpen(img: Image, t: seq<Fd>, name: seq<Byte>)
    requires WellFormed(img) && TableInv(t) && OpenTable(img, t, name).result == -1
    ensures var t' := OpenTable(img, t, name).table;
      && (forall k :: 0 <= k < FD_COUNT && t[k].flags == 1 ==> t'[k] == t[k])
      && (forall k :: 0 <= k < FD_COUNT && t[k].flags == 0 ==>
            t'[k].flags == 0 && t'[k].position == t[k].position && t'[k].inode == t[k].inode)
  {
  }

  /** How many reads ask for anything. */
  ghost function Asking(lengths: seq<nat>): nat {
    if lengths == [] then 0 else (if lengths[0] > 0 then 1 else 0) + Asking(lengths[1..])
  }

  /** A directory's descriptor behind reads of these lengths: every read that asks for anything moves it by one name,
      up to the first entry without a name. */
  ghost function Listed(img: Image, f: Fd, lengths: seq<nat>): Fd
    requires WellFormed(img) && f.position <= MAX_FILECOUNT
  {
    f.(position := Min(f.position + Asking(lengths), NamedFrom(img, f.position)))
  }

  lemma ListedStep(img: Image, f: Fd, n: nat, lengths: seq<nat>)
    requires WellFormed(img) && f.flags == 1 && f.ops == DirOps && f.position <= MAX_FILECOUNT
    ensures var p := Moved(img, f, n);
      && p <= MAX_FILECOUNT && Listed(img, f.(position := p), lengths) == Listed(img, f, [n] + lengths)
  {
    var p, end := Moved(img, f, n), NamedFrom(img, f.position);
    assert p == (if n > 0 && f.position < end then f.position + 1 else f.position);
    assert f.position < end ==> NamedFrom(img, f.position + 1) == end;
    assert ([n] + lengths)[1..] == lengths;
    hide NamedFrom, Name, WellFormed;
  }

  /** The events of a table that do not concern descriptor `k` leave it alone, and its reads move its position. */
  lemma OwnEvent(img: Image, t: seq<Fd>, e: Event, k: nat)
    requires WellFormed(img) && TableInv(t) && FIRST_FILE <= k < FD_COUNT && t[k].flags == 1 && e != Close(k)
    ensures Step(img, t, e)[k] == if Concerns(e, k) then t[k].(position := Moved(img, t[k], e.nbytes)) else t[k]
  {
    hide Moved, FileSystem.WellFormed;
    if !Concerns(e, k) {
      OthersUnchanged(img, t, e, k);
    }
  }

  /** The position of an open directory is the one its own reads give, whatever happens to the other descriptors in
      between. */
  lemma {:induction false} DirectoryFollowsOwnReads(img: Image, t: seq<Fd>, es: seq<Event>, k: nat)
    requires WellFormed(img) && Kinds(img) && TableInv(t)
    requires FIRST_FILE <= k < FD_COUNT && t[k].flags == 1 && t[k].ops == DirOps && t[k].position <= MAX_FILECOUNT
    requires Close(k) !in es
    ensures Run(img, t, es)[k] == Listed(img, t[k], Lengths(es, k))
    decreases |es|
  {
    if es == [] {
      hide FileSystem.WellFormed, TableInv, Name;
    } else {
      StepKeepsInv(img, t, es[0]);
      OwnEvent(img, t, es[0], k);
      hide Moved, Step, TableInv, Kinds, FileSystem.WellFormed, Listed;
      var rest := Lengths(es[1..], k);
      if Concerns(es[0], k) {
        assert Lengths(es, k) == [es[0].nbytes] + rest;
        ListedStep(img, t[k], es[0].nbytes, rest);
      } else {
        assert Lengths(es, k) == rest;
      }
      DirectoryFollowsOwnReads(img, Step(img, t, es[0]), es[1..], k);
    }
  }

  /** A directory that is opened and read, among any other use of the table, is listed from its first entry on. */
  lemma OpenedDirectoryLists(img: Image, t: seq<Fd>, name: seq<Byte>, es: seq<Event>, k: nat)
    requires WellFormed(img) && Kinds(img) && TableInv(t)
    requires k == OpenTable(img, t, name).result < FD_COUNT && Close(k) !in es
    requires img.entries[Lookup(img, name)].kind == 1
    ensures Run(img, OpenTable(img, t, name).table, es)[k].position == Min(Asking(Lengths(es, k)), NamedFrom(img, 0))
  {
    OpenMeaning(img, t, name);
    StepKeepsInv(img, t, Open(name));
    DirectoryFollowsOwnReads(img, OpenTable(img, t, name).table, es, k);
  }

  // ----- closing everything -----

  ghost function CloseFrom(t: seq<Fd>, i: nat): (r: seq<Fd>)
    requires |t| == FD_COUNT && i <= FD_COUNT
    ensures |r| == FD_COUNT
    decreases FD_COUNT - i
  {
    if i == FD_COUNT then t else CloseFrom(CloseTable(t, i).table, i + 1)
  }

  /** Closing every open descriptor, as a halting task does, leaves the console open and the other six closed. */
  lemma {:induction false} CloseAllMeaning(t: seq<Fd>, i: nat)
    requires TableInv(t) && i <= FD_COUNT
    requires forall j :: FIRST_FILE <= j < i ==> t[j].flags == 0
    ensures TableInv(CloseFrom(t, i))
    ensures forall j :: FIRST_FILE <= j < FD_COUNT ==> CloseFrom(t, i)[j].flags == 0
    decreases FD_COUNT - i
  {
    if i < FD_COUNT {
      CloseAllMeaning(CloseTable(t, i).table, i + 1);
    }
  }
}
