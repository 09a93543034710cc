/** How a command line is taken apart when a program is executed, and how the program gets its argument back. */
module Commands {
  import opened Bytes

  const TASKNAME_SIZE := 33
  const ARGUMENT_SIZE := 129

  datatype Parsed = Blank | TooLong | Command(name: seq<Byte>, argument: seq<Byte>)

  predicate EndsWord(c: Byte) {
    c == SPACE || c == NEWLINE || c == NUL
  }

  /** The first index from `i` on that is no space. */
  ghost function SpacesEnd(c: seq<Byte>, i: nat): (k: nat)
    requires i <= |c|
    ensures i <= k <= |c| && (k < |c| ==> c[k] != SPACE)
    ensures forall j :: i <= j < k ==> c[j] == SPACE
    decreases |c| - i
  {
    if i == |c| || c[i] != SPACE then i else SpacesEnd(c, i + 1)
  }

  /** The end of the word at `i`, or of its first `room` bytes. */
  ghost function WordEnd(c: seq<Byte>, i: nat, room: nat): (k: nat)
    requires i <= |c|
    ensures i <= k <= |c| && k <= i + room && (k < |c| && k < i + room ==> EndsWord(c[k]))
    ensures forall j :: i <= j < k ==> !EndsWord(c[j])
    decreases |c| - i
  {
    if i == |c| || room == 0 || EndsWord(c[i]) then i else WordEnd(c, i + 1, room - 1)
  }

  /** The end of the line at `i`, or of its first `room` bytes. */
  ghost function LineEnd(c: seq<Byte>, i: nat, room: nat): (k: nat)
    requires i <= |c|
    ensures i <= k <= |c| && k <= i + room && (k < |c| && k < i + room ==> c[k] == NEWLINE)
    ensures forall j :: i <= j < k ==> c[j] != NEWLINE
    decreases |c| - i
  {
    if i == |c| || room == 0 || c[i] == NEWLINE then i else LineEnd(c, i + 1, room - 1)
  }

  /** What a command line stands for. */
  ghost function Parse(c: seq<Byte>): Parsed {
    var a := SpacesEnd(c, 0);
    var b := WordEnd(c, a, TASKNAME_SIZE - 1);
    if b == a + TASKNAME_SIZE - 1 && b < |c| && !EndsWord(c[b]) then TooLong
    else if b == a then Blank
    else
      var d := SpacesEnd(c, b);
      Command(c[a..b], c[d..LineEnd(c, d, ARGUMENT_SIZE - 1)])
  }

  // ----- the shape of a command line -----

  ghost function Spaces(n: nat): (r: seq<Byte>)
    ensures |r| == n
  {
    seq<Byte>(n, i => SPACE)
  }

  ghost predicate IsWord(name: seq<Byte>) {
    name != [] && forall i :: 0 <= i < |name| ==> !EndsWord(name[i])
  }

  /** A possible argument: on one line, not starting with a space, and as long as the buffer at most. */
  ghost predicate IsArgument(argument: seq<Byte>) {
    && |argument| <= ARGUMENT_SIZE - 1
    && (forall i :: 0 <= i < |argument| ==> argument[i] != NEWLINE && argument[i] != NUL)
    && (argument != [] ==> argument[0] != SPACE)
  }

  /** What may follow the argument. */
  ghost predicate IsRest(argument: seq<Byte>, rest: seq<Byte>) {
    rest == [] || rest[0] == NEWLINE || |argument| == ARGUMENT_SIZE - 1
  }

  ghost function Line(lead: nat, name: seq<Byte>, gap: nat, argument: seq<Byte>, rest: seq<Byte>): seq<Byte> {
    Spaces(lead) + name + Spaces(gap) + argument + rest
  }

  lemma SpacesEndIs(c: seq<Byte>, i: nat, k: nat)
    requires i <= k <= |c| && (k < |c| ==> c[k] != SPACE) && forall j :: i <= j < k ==> c[j] == SPACE
    ensures SpacesEnd(c, i) == k
  {
  }

  lemma WordEndIs(c: seq<Byte>, i: nat, room: nat, k: nat)
    requires i <= k <= |c| && k <= i + room && (k < |c| && k < i + room ==> EndsWord(c[k]))
    requires forall j :: i <= j < k ==> !EndsWord(c[j])
    ensures WordEnd(c, i, room) == k
  {
  }

  lemma LineEndIs(c: seq<Byte>, i: nat, room: nat, k: nat)
    requires i <= k <= |c| && k <= i + room && (k < |c| && k < i + room ==> c[k] == NEWLINE)
    requires forall j :: i <= j < k ==> c[j] != NEWLINE
    ensures LineEnd(c, i, room) == k
  {
  }

  lemma LineRegions(lead: nat, name: seq<Byte>, gap: nat, argument: seq<Byte>, rest: seq<Byte>)
    ensures var c := Line(lead, name, gap, argument, rest); var b := lead + |name|; var d := b + gap;
      && |c| == d + |argument| + |rest|
      && c[lead..b] == name && c[d..d + |argument|] == argument
      && (forall j :: 0 <= j < lead || b <= j < d ==> c[j] == SPACE)
      && (forall j :: lead <= j < b ==> c[j] == name[j - lead])
      && (forall j :: d <= j < d + |argument| ==> c[j] == argument[j - d])
      && (forall j :: d + |argument| <= j < |c| ==> c[j] == rest[j - d - |argument|])
  {
  }

  /** A line written from a name and an argument parses to exactly that pair; a name of more than 32 bytes is
      rejected. */
  lemma WrittenLineParses(lead: nat, name: seq<Byte>, gap: nat, argument: seq<Byte>, rest: seq<Byte>)
    requires IsWord(name) && IsArgument(argument) && IsRest(argument, rest) && (gap > 0 || argument == [])
    ensures Parse(Line(lead, name, gap, argument, rest))
      == if |name| < TASKNAME_SIZE then Command(name, argument) else TooLong
  {
    LineRegions(lead, name, gap, argument, rest);
    var c := Line(lead, name, gap, argument, rest);
    hide Line, SpacesEnd, WordEnd, LineEnd;
    var b := lead + |name|;
    assert c[lead] == name[0];
    SpacesEndIs(c, 0, lead);
    if |name| < TASKNAME_SIZE {
      ArgumentParses(c, lead, b, b + gap, b + gap + |argument|);
    } else {
      WordEndIs(c, lead, TASKNAME_SIZE - 1, lead + TASKNAME_SIZE - 1);
    }
  }

  lemma ArgumentParses(c: seq<Byte>, a: nat, b: nat, d: nat, e: nat)
    requires a < b < a + TASKNAME_SIZE && b <= d <= e <= |c| && e < d + ARGUMENT_SIZE && SpacesEnd(c, 0) == a
    requires forall j :: a <= j < b ==> !EndsWord(c[j])
    requires forall j :: b <= j < d ==> c[j] == SPACE
    requires forall j :: d <= j < e ==> c[j] != NEWLINE
    requires d < e ==> d > b && c[d] != SPACE
    requires e < |c| ==> c[e] == NEWLINE || e == d + ARGUMENT_SIZE - 1
    ensures Parse(c) == Command(c[a..b], c[d..e])
  {
    WordEndIs(c, a, TASKNAME_SIZE - 1, b);
    SpacesEndIs(c, b, d);
    LineEndIs(c, d, ARGUMENT_SIZE - 1, e);
    hide SpacesEnd, WordEnd, LineEnd;
  }

  lemma Regroup(c: seq<Byte>, a: nat, b: nat, d: nat, e: nat)
    requires a <= b <= d <= e <= |c| && forall j :: 0 <= j < a || b <= j < d ==> c[j] == SPACE
    ensures c == Line(a, c[a..b], d - b, c[d..e], c[e..])
  {
    var r := Line(a, c[a..b], d - b, c[d..e], c[e..]);
    LineRegions(a, c[a..b], d - b, c[d..e], c[e..]);
    hide Line;
    assert forall j :: a <= j < b ==> r[j] == c[a..b][j - a];
    assert forall j :: d <= j < e ==> r[j] == c[d..e][j - d];
    assert forall j :: e <= j < |c| ==> r[j] == c[e..][j - e];
  }

  /** Conversely, every line that parses to a name and an argument was written from them. */
  lemma ParsedLineWasWritten(c: seq<Byte>) returns (lead: nat, gap: nat, rest: seq<Byte>)
    requires NUL !in c && Parse(c).Command?
    ensures var name, argument := Parse(c).name, Parse(c).argument;
      && IsWord(name) && |name| < TASKNAME_SIZE && IsArgument(argument) && IsRest(argument, rest)
      && (gap > 0 || argument == [])
      && c == Line(lead, name, gap, argument, rest)
  {
    hide Line, SpacesEnd, WordEnd, LineEnd;
    lead := SpacesEnd(c, 0);
    var b := WordEnd(c, lead, TASKNAME_SIZE - 1);
    var d := SpacesEnd(c, b);
    var e := LineEnd(c, d, ARGUMENT_SIZE - 1);
    gap, rest := d - b, c[e..];
    Regroup(c, lead, b, d, e);
  }

  /** A line is blank exactly when nothing but spaces comes before its end. */
  lemma BlankLine(c: seq<Byte>)
    requires NUL !in c
    ensures Parse(c) == Blank <==> SpacesEnd(c, 0) == |c| || c[SpacesEnd(c, 0)] == NEWLINE
  {
    var a := SpacesEnd(c, 0);
    assert WordEnd(c, a, TASKNAME_SIZE - 1) == a <==> a == |c| || EndsWord(c[a]);
  }

  // ----- the parser -----

  /** Fills the two buffers from a NUL-terminated command. The result is -1 for a name that is too long, 0 for a blank
      command, and 1 otherwise. */
  method ParseCommand(command: seq<Byte>, taskName: array<Byte>, argument: array<Byte>) returns (r: int)
    requires NUL in command
    requires taskName.Length == TASKNAME_SIZE && argument.Length == ARGUMENT_SIZE && taskName != argument
    modifies taskName, argument
    ensures r == match Parse(CString(command)) case TooLong => -1 case Blank => 0 case Command(_, _) => 1
    ensures r == 1 ==> NUL in taskName[..] && CString(taskName[..]) == Parse(CString(command)).name
    ensures r == 1 ==> NUL in argument[..] && CString(argument[..]) == Parse(CString(command)).argument
  {
    hide CString, SpacesEnd, WordEnd, LineEnd, Terminated;
    ghost var c := CString(command);
    CommandTerminated(command);
    var a := SkipSpaces(command, 0, c);
    var b, tooLong := TakeName(command, a, taskName, c);
    if tooLong {
      return -1;
    }
    var d := SkipSpaces(command, b, c);
    TakeArgument(command, d, argument, c);
    var blank := IsBlank(taskName);
    assert CString(taskName[..]) == c[a..b];
    assert a < b ==> c[a..b][0] == c[a] && !EndsWord(c[a]);
    assert blank <==> a == b;
    if blank {
      return 0;
    }
    return 1;
  }

  /** The command as the parser sees it: its string, and a NUL behind it. */
  ghost predicate Terminated(command: seq<Byte>, c: seq<Byte>) {
    |c| < |command| && command[|c|] == NUL && forall k :: 0 <= k < |c| ==> c[k] == command[k] && c[k] != NUL
  }

  lemma CommandTerminated(command: seq<Byte>)
    requires NUL in command
    ensures Terminated(command, CString(command))
  {
  }

  method SkipSpaces(command: seq<Byte>, start: nat, ghost c: seq<Byte>) returns (i: nat)
    requires Terminated(command, c) && start <= |c|
    ensures i == SpacesEnd(c, start)
  {
    i := start;
    while command[i] != NEWLINE && command[i] == SPACE && command[i] != NUL
      invariant start <= i <= |c| && SpacesEnd(c, start) == SpacesEnd(c, i)
      decreases |c| - i
    {
      i := i + 1;
    }
  }

  method TakeName(command: seq<Byte>, a: nat, taskName: array<Byte>, ghost c: seq<Byte>) returns (i: nat, tooLong: bool)
    requires Terminated(command, c) && a <= |c| && taskName.Length == TASKNAME_SIZE
    modifies taskName
    ensures i == WordEnd(c, a, TASKNAME_SIZE - 1)
    ensures tooLong <==> i == a + TASKNAME_SIZE - 1 && i < |c| && !EndsWord(c[i])
    ensures !tooLong ==> NUL in taskName[..] && CString(taskName[..]) == c[a..i]
  {
    i := a;
    var j := 0;
    while command[i] != SPACE && command[i] != NEWLINE && command[i] != NUL && j < TASKNAME_SIZE - 1
      invariant i == a + j <= |c| && 0 <= j <= TASKNAME_SIZE - 1
      invariant WordEnd(c, a, TASKNAME_SIZE - 1) == WordEnd(c, i, TASKNAME_SIZE - 1 - j)
      invariant forall k :: 0 <= k < j ==> taskName[k] == c[a + k]
      decreases |c| - i
    {
      taskName[j] := command[i];
      j := j + 1;
      i := i + 1;
    }
    tooLong := j == TASKNAME_SIZE - 1 && command[i] != NEWLINE && command[i] != SPACE && command[i] != NUL;
    if !tooLong {
      taskName[j] := NUL;
      BufferString(taskName[..], c[a..i]);
    }
  }

  method TakeArgument(command: seq<Byte>, d: nat, argument: array<Byte>, ghost c: seq<Byte>)
    requires Terminated(command, c) && d <= |c| && argument.Length == ARGUMENT_SIZE
    modifies argument
    ensures NUL in argument[..] && CString(argument[..]) == c[d..LineEnd(c, d, ARGUMENT_SIZE - 1)]
  {
    var i, j := d, 0;
    while command[i] != NEWLINE && j < ARGUMENT_SIZE - 1 && command[i] != NUL
      invariant i == d + j <= |c| && 0 <= j <= ARGUMENT_SIZE - 1
      invariant LineEnd(c, d, ARGUMENT_SIZE - 1) == LineEnd(c, i, ARGUMENT_SIZE - 1 - j)
      invariant forall k :: 0 <= k < j ==> argument[k] == c[d + k]
      decreases |c| - i
    {
      argument[j] := command[i];
      j := j + 1;
      i := i + 1;
    }
    argument[j] := NUL;
    BufferString(argument[..], c[d..i]);
  }

  lemma BufferString(buf: seq<Byte>, s: seq<Byte>)
    requires |s| < |buf| && buf[|s|] == NUL && forall k :: 0 <= k < |s| ==> buf[k] == s[k] && s[k] != NUL
    ensures NUL in buf && CString(buf) == s
  {
    assert s == buf[..|s|];
    CStringUnique(buf, s);
  }

  /** Looks for a byte of the name that is no space. */
  method IsBlank(taskName: array<Byte>) returns (blank: bool)
    requires NUL in taskName[..]
    ensures blank <==> forall k :: 0 <= k < |CString(taskName[..])| ==> CString(taskName[..])[k] == SPACE
  {
    ghost var s := CString(taskName[..]);
    var i := 0;
    blank := true;
    while taskName[i] != NUL
      invariant 0 <= i <= |s| < taskName.Length
      invariant blank <==> forall k :: 0 <= k < i ==> s[k] == SPACE
      decreases |s| - i
    {
      if taskName[i] != SPACE || taskName[i] == NEWLINE {
        blank := false;
      }
      i := i + 1;
    }
    assert taskName[..][i] == NUL && forall k :: 0 <= k < |s| ==> s[k] != NUL;
  }

  // ----- getting the argument back -----

  /** Copies the stored argument out. It fails for a null buffer, an empty argument, and one longer than the
      buffer. */
  method SyscallGetargs(argumentBuf: seq<Byte>, buf: array?<Byte>, nbytes: nat) returns (r: int)
    requires |argumentBuf| == ARGUMENT_SIZE && NUL in argumentBuf
    requires buf != null ==> nbytes <= buf.Length
    modifies buf
    ensures r == if buf == null || |CString(argumentBuf)| > nbytes || CString(argumentBuf) == [] then -1 else 0
    ensures r == -1 && buf != null ==> buf[..] == old(buf[..])
    ensures r == 0 ==>
      && (forall i :: 0 <= i < nbytes ==> buf[i] == if i < ARGUMENT_SIZE then argumentBuf[i] else NUL)
      && buf[nbytes..] == old(buf[nbytes..])
    ensures r == 0 && nbytes > |CString(argumentBuf)| ==> CString(buf[..nbytes]) == CString(argumentBuf)
  {
    if buf == null {
      return -1;
    }
    ghost var s := CString(argumentBuf);
    assert |s| < ARGUMENT_SIZE && argumentBuf[|s|] == NUL && (s == [] <==> argumentBuf[0] == NUL);
    var length := 0;
    while argumentBuf[length] != NUL
      invariant 0 <= length <= |s|
      decreases |s| - length
    {
      length := length + 1;
    }
    assert forall k :: 0 <= k < |s| ==> s[k] == argumentBuf[k] && s[k] != NUL;
    if length > nbytes {
      return -1;
    }
    if argumentBuf[0] == NUL {
      return -1;
    }
    forall i | 0 <= i < nbytes {
      buf[i] := NUL;
    }
    var n := if nbytes > ARGUMENT_SIZE then ARGUMENT_SIZE else nbytes;
    forall i | 0 <= i < n {
      buf[i] := argumentBuf[i];
    }
    if nbytes > |s| {
      BufferString(buf[..nbytes], s);
    }
    return 0;
  }
}
