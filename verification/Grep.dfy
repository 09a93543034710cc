/** The streaming line filter of the grep program, reading a file of this kernel. It works in a 1024-byte window, and
    this module proves that what it prints is a report of the whole text that its reads deliver. */
module Grep {
  import opened Bytes
  import opened FileSystem
  import opened FileReads
  import opened UserSupport
  import Commands

  const BUFSIZE := 1024
  const COLON: Byte := 58

  // ----- the whole-file reading -----

  /** Past the newline at `k`, or the end of the text. */
  ghost function After(f: seq<Byte>, k: nat): (i: nat)
    requires k <= |f|
    ensures k <= i <= |f| && (k < |f| ==> k < i)
  {
    if k < |f| then k + 1 else k
  }

  /** The lines of a text from index `i` on; a terminated last line does not open another one. */
  ghost function LinesFrom(f: seq<Byte>, i: nat): seq<seq<Byte>>
    requires i <= |f|
    decreases |f| - i
  {
    if i == |f| then []
    else
      var k := IndexOf(f, NEWLINE, i);
      [f[i..k]] + LinesFrom(f, After(f, k))
  }

  ghost function Lines(f: seq<Byte>): seq<seq<Byte>> {
    LinesFrom(f, 0)
  }

  ghost predicate OccursAt(s: seq<Byte>, line: seq<Byte>, i: int) {
    0 <= i && i + |s| <= |line| && line[i..i + |s|] == s
  }

  /** The empty pattern matches nothing. */
  ghost predicate Matches(s: seq<Byte>, line: seq<Byte>) {
    s != [] && exists i :: OccursAt(s, line, i)
  }

  /** What the filter finds: it compares the pattern's first byte as a signed character with an unsigned byte of the
      line, so that a pattern whose first byte is 128 or more is never found. */
  ghost predicate Finds(s: seq<Byte>, line: seq<Byte>) {
    Matches(s, line) && s[0] < 128
  }

  ghost function Entry(fname: seq<Byte>, line: seq<Byte>): seq<Byte> {
    fname + [COLON] + line + [NEWLINE]
  }

  ghost function Hit(s: seq<Byte>, fname: seq<Byte>, line: seq<Byte>): seq<Byte> {
    if Matches(s, line) then Entry(fname, line) else []
  }

  ghost function Print(s: seq<Byte>, fname: seq<Byte>, line: seq<Byte>): seq<Byte> {
    if Finds(s, line) then Entry(fname, line) else []
  }

  /** The matching lines, in order, once each. */
  ghost function Report(s: seq<Byte>, fname: seq<Byte>, lines: seq<seq<Byte>>): seq<Byte> {
    if lines == [] then [] else Hit(s, fname, lines[0]) + Report(s, fname, lines[1..])
  }

  /** What the filter prints for a text without NUL bytes from index `i` on: the lines in which it finds the pattern,
      except that a line is cut after every 1024 bytes and the pieces are filtered one by one. */
  ghost function GreppedFrom(s: seq<Byte>, fname: seq<Byte>, f: seq<Byte>, i: nat): seq<Byte>
    requires i <= |f|
    decreases |f| - i
  {
    if i == |f| then []
    else Print(s, fname, f[i..RecordEnd(f, i)]) + GreppedFrom(s, fname, f, NextRecord(f, i))
  }

  /** The end of the record at `i`: the first newline, or 1024 bytes further on. */
  ghost function RecordEnd(f: seq<Byte>, i: nat): (k: nat)
    requires i <= |f|
    ensures i <= k <= |f| && k - i <= BUFSIZE
  {
    var k := IndexOf(f, NEWLINE, i);
    if k < i + BUFSIZE then k else i + BUFSIZE
  }

  ghost function NextRecord(f: seq<Byte>, i: nat): (k: nat)
    requires i < |f|
    ensures i < k <= |f|
  {
    var k := RecordEnd(f, i);
    if k < i + BUFSIZE then After(f, k) else k
  }

  ghost function Grepped(s: seq<Byte>, fname: seq<Byte>, f: seq<Byte>): seq<Byte> {
    GreppedFrom(s, fname, f, 0)
  }

  /** What is printed for one record. A record with a NUL is printed up to it: surely if the pattern is in that part,
      and otherwise if `behind`, the filter finds it among the bytes behind the NUL, which a carry-over may have
      garbled. */
  ghost function CutHit(s: seq<Byte>, fname: seq<Byte>, line: seq<Byte>, behind: bool): seq<Byte> {
    if Finds(s, CString(line)) || (NUL in line && behind) then Entry(fname, CString(line)) else []
  }

  /** `printed` is a report of the text from index `i` on, for a text of any bytes. */
  ghost predicate Reports(s: seq<Byte>, fname: seq<Byte>, f: seq<Byte>, i: nat, printed: seq<Byte>)
    requires i <= |f|
    decreases |f| - i
  {
    if i == |f| then printed == []
    else exists behind: bool :: ReportsOne(s, fname, f, i, printed, behind)
  }

  ghost predicate ReportsOne(s: seq<Byte>, fname: seq<Byte>, f: seq<Byte>, i: nat, printed: seq<Byte>, behind: bool)
    requires i < |f|
    decreases |f| - i, 0
  {
    var hit := CutHit(s, fname, f[i..RecordEnd(f, i)], behind);
    hit <= printed && Reports(s, fname, f, NextRecord(f, i), printed[|hit|..])
  }

  lemma CStringOfAll(line: seq<Byte>)
    requires NUL !in line
    ensures CString(line) == line
  {
    CStringUnique(line, line);
  }

  lemma CutHitOfAll(s: seq<Byte>, fname: seq<Byte>, line: seq<Byte>)
    requires NUL !in line
    ensures forall behind :: CutHit(s, fname, line, behind) == Print(s, fname, line)
  {
    CStringOfAll(line);
  }

  /** A text without NUL bytes has one report only. */
  lemma {:induction false} NulFreeReport(s: seq<Byte>, fname: seq<Byte>, f: seq<Byte>, i: nat, printed: seq<Byte>)
    requires i <= |f| && NUL !in f
    ensures Reports(s, fname, f, i, printed) <==> printed == GreppedFrom(s, fname, f, i)
    decreases |f| - i
  {
    if i < |f| {
      hide CutHit, Print, RecordEnd, NextRecord;
      var line := f[i..RecordEnd(f, i)];
      CutHitOfAll(s, fname, line);
      var hit, rest := Print(s, fname, line), GreppedFrom(s, fname, f, NextRecord(f, i));
      assert GreppedFrom(s, fname, f, i) == hit + rest;
      if hit <= printed {
        NulFreeReport(s, fname, f, NextRecord(f, i), printed[|hit|..]);
      }
      HitThenRest(printed, hit, rest);
      assert forall b :: ReportsOne(s, fname, f, i, printed, b) <==> printed == hit + rest;
      assert ReportsOne(s, fname, f, i, printed, true) <==> printed == hit + rest;
    }
  }

  lemma HitThenRest(printed: seq<Byte>, hit: seq<Byte>, rest: seq<Byte>)
    ensures printed == hit + rest <==> hit <= printed && printed[|hit|..] == rest
  {
    if hit <= printed && printed[|hit|..] == rest {
      assert printed == printed[..|hit|] + printed[|hit|..];
    }
  }

  // ----- an open file -----

  /** `cnt` bytes of the text from `position` on replaced those at index `at`. */
  ghost predicate Received(before: seq<Byte>, after: seq<Byte>, at: nat, text: seq<Byte>, position: nat, cnt: int)
  {
    && 0 <= cnt && at + cnt <= |before| && position + cnt <= |text|
    && after == before[..at] + text[position..position + cnt] + before[at + cnt..]
  }

  /** The furthest position that reads of up to 1024 bytes reach: they run over the end of a file that ends in the
      last quarter of a block. */
  ghost function Furthest(fileLength: nat): (r: nat)
    ensures fileLength <= r < fileLength + BUFSIZE
  {
    if fileLength % BLOCK <= BLOCK - BUFSIZE then fileLength else (fileLength / BLOCK + 1) * BLOCK
  }

  /** No read of up to 1024 bytes runs over the end of a file whose length modulo 4096 is at most 3072. */
  lemma SmallReadsQualify(fileLength: nat, offset: nat, n: nat)
    requires offset < fileLength && n <= BUFSIZE
    ensures fileLength % BLOCK <= BLOCK - BUFSIZE ==> Qualifies(fileLength, offset, n)
    ensures offset <= ReadEnd(fileLength, offset, n) <= Furthest(fileLength)
    ensures ReadEnd(fileLength, offset, n) < offset + n ==> ReadEnd(fileLength, offset, n) >= fileLength
  {
    ReadEndMeaning(fileLength, offset, n);
  }

  lemma FurthestBlock(fileLength: nat, i: int)
    requires i * BLOCK < Furthest(fileLength)
    ensures i * BLOCK < fileLength
  {
    var q := fileLength / BLOCK;
    assert fileLength == q * BLOCK + fileLength % BLOCK;
  }

  /** The blocks of the file are enough for such a read. */
  lemma SmallReadSpans(img: Image, ino: Inode, offset: nat, n: nat)
    requires offset < ino.length && n <= BUFSIZE && Spans(img, ino, 0, ino.length)
    ensures Spans(img, ino, offset, ReadEnd(ino.length, offset, n))
  {
    SmallReadsQualify(ino.length, offset, n);
    hide ReadEnd, Furthest, ValidBlock;
    forall i | offset / BLOCK <= i && i * BLOCK < ReadEnd(ino.length, offset, n) ensures ValidBlock(img, ino, i) {
      FurthestBlock(ino.length, i);
    }
  }

  /** What one such read does to the position, and to what was delivered so far. */
  lemma SmallRead(img: Image, ino: Inode, position: nat, n: nat)
    requires WellFormed(img) && n <= BUFSIZE && position <= Furthest(ino.length)
    requires ino.length + 2 * BUFSIZE < TWO_32 && Spans(img, ino, 0, ino.length)
    ensures ReadAllowed(img, ino, position, n, n)
    ensures var next := Advance(ino.length, position, n);
      && next <= Furthest(ino.length) < ino.length + BUFSIZE
      && (next < position + n ==> next >= ino.length) && (position >= ino.length ==> next == position)
      && Stream(img, ino, 0, position) <= Stream(img, ino, 0, next)
      && Stream(img, ino, position, next) == Stream(img, ino, 0, next)[position..]
  {
    if position < ino.length {
      SmallReadSpans(img, ino, position, n);
      SmallReadsQualify(ino.length, position, n);
    }
    StreamSplit(img, ino, 0, position, Advance(ino.length, position, n));
  }

  lemma ReadWhole(img: Image, ino: Inode, position: nat)
    requires WellFormed(img) && ino.length <= position <= Furthest(ino.length)
    ensures ino.length % BLOCK <= BLOCK - BUFSIZE ==> Stream(img, ino, 0, position) == Contents(img, ino)
  {
  }

  /** The buffer of a read is part of the window. */
  method CopyTo(data: array<Byte>, at: nat, buf: array<Byte>, cnt: nat)
    requires at + cnt <= data.Length && cnt <= buf.Length && buf != data
    modifies data
    ensures data[..] == old(data[..])[..at] + buf[..cnt] + old(data[..])[at + cnt..]
  {
    forall i | 0 <= i < cnt {
      data[at + i] := buf[i];
    }
  }

  lemma ReceivedIs(before: seq<Byte>, after: seq<Byte>, at: nat, text: seq<Byte>, position: nat, cnt: nat)
    requires at + cnt <= |before| && position + cnt <= |text|
    requires after == before[..at] + text[position..position + cnt] + before[at + cnt..]
    ensures Received(before, after, at, text, position, cnt)
  {
  }

  /** An open regular file of the kernel. Its reads fail if its inode does not exist. */
  class Reader {
    const img: Image
    const inode: nat
    var position: nat

    constructor (img: Image, inode: nat)
      ensures this.img == img && this.inode == inode && position == 0
    {
      this.img := img;
      this.inode := inode;
      position := 0;
    }

    ghost predicate Readable() {
      inode < |img.inodes|
    }

    ghost function Ino(): Inode
      requires Readable()
    {
      img.inodes[inode]
    }

    /** The blocks of the file exist, and its length leaves room for a read in 32 bits. */
    ghost predicate Valid()
      reads this
    {
      WellFormed(img) && position < TWO_32 && (Readable() ==>
        && Ino().length + 2 * BUFSIZE < TWO_32 && Spans(img, Ino(), 0, Ino().length)
        && position <= Furthest(Ino().length))
    }

    /** What the reads have delivered so far. */
    ghost function Seen(): seq<Byte>
      requires Valid() && Readable()
      reads this
    {
      Stream(img, Ino(), 0, position)
    }

    ghost predicate Ended()
      reads this
    {
      Readable() ==> position >= Ino().length
    }

    /** How far the reads can still get. */
    ghost function Room(): nat
      requires Valid()
      reads this
    {
      if Readable() then Furthest(Ino().length) - position else 0
    }

    /** A read into a buffer of its own. It is short only where the file has ended. */
    method Fetch(buf: array<Byte>) returns (cnt: int)
      requires Valid() && buf.Length <= BUFSIZE
      modifies this, buf
      ensures Valid()
      ensures !Readable() ==> cnt == -1 && position == old(position)
      ensures Readable() ==>
        && 0 <= cnt <= buf.Length && position == old(position) + cnt && old(Seen()) <= Seen()
        && |Seen()| == position && buf[..cnt] == Seen()[old(position)..position]
        && (cnt < buf.Length ==> Ended()) && (old(Ended()) ==> cnt == 0)
    {
      hide FileSystem.WellFormed, Spans, ReadAllowed, Furthest, Advance, Stream;
      ghost var before := position;
      if Readable() {
        SmallRead(img, Ino(), position, buf.Length);
      }
      cnt, position := FileRead(img, inode, position, buf, buf.Length);
    }

    /** A read into the window at `at`. */
    method Read(data: array<Byte>, at: nat, n: nat) returns (cnt: int)
      requires Valid() && n <= BUFSIZE && at + n <= data.Length
      modifies this, data
      ensures Valid()
      ensures !Readable() ==> cnt == -1 && position == old(position) && data[..] == old(data[..])
      ensures Readable() ==>
        && 0 <= cnt <= n && position == old(position) + cnt && old(Seen()) <= Seen() && |Seen()| == position
        && Received(old(data[..]), data[..], at, Seen(), old(position), cnt)
        && (cnt < n ==> Ended()) && (old(Ended()) ==> cnt == 0)
    {
      hide Valid, Seen, Received;
      var buf := new Byte[n];
      cnt := Fetch(buf);
      if cnt == -1 {
        return;
      }
      CopyTo(data, at, buf, cnt);
      ReceivedIs(old(data[..]), data[..], at, Seen(), old(position), cnt);
    }
  }

  // ----- the scan of one window -----

  method FindLineEnd(data: array<Byte>, start: nat, last: nat) returns (lineEnd: nat)
    requires start <= last <= data.Length
    ensures start <= lineEnd <= last && (lineEnd < last ==> data[lineEnd] == NEWLINE)
    ensures forall j :: start <= j < lineEnd ==> data[j] != NEWLINE
  {
    lineEnd := start;
    while lineEnd < last && data[lineEnd] != NEWLINE
      invariant start <= lineEnd <= last
      invariant forall j :: start <= j < lineEnd ==> data[j] != NEWLINE
    {
      lineEnd := lineEnd + 1;
    }
  }

  lemma TailCString(data: seq<Byte>, check: nat, lineEnd: nat)
    requires check <= lineEnd < |data| && data[lineEnd] == NUL
    ensures NUL in data[check..] && CString(data[check..]) == CString(data[check..lineEnd])
  {
    var c := CString(data[check..lineEnd]);
    assert data[check..][lineEnd - check] == NUL;
    CStringUnique(data[check..], c);
  }

  /** A pattern has no NUL, so comparing it with the string at a place finds exactly its occurrences there. */
  lemma PrefixMeansOccurrence(pattern: seq<Byte>, rest: seq<Byte>)
    requires NUL !in pattern
    ensures Prefix(CString(rest), |pattern|) == pattern <==> OccursAt(pattern, rest, 0)
  {
    var c := CString(rest);
    if OccursAt(pattern, rest, 0) {
      assert forall j :: 0 <= j < |pattern| ==> rest[j] == rest[0..|pattern|][j] != NUL;
      assert c[..|pattern|] == rest[0..|pattern|];
    }
    if Prefix(c, |pattern|) == pattern {
      assert rest[0..|pattern|] == pattern;
    }
  }

  /** Whether the pattern is found at `check`: its first byte is compared, signed with unsigned, before the string is.
      The empty pattern is found at a NUL. */
  method MatchesAt(s: seq<Byte>, sLen: nat, data: array<Byte>, check: nat, lineEnd: nat) returns (r: bool)
    requires NUL in s && sLen == |CString(s)|
    requires check < lineEnd < data.Length && data[lineEnd] == NUL
    ensures r <==> if CString(s) == [] then data[check] == NUL
                   else s[0] < 128 && OccursAt(CString(s), data[check..lineEnd], 0)
  {
    ghost var pattern := CString(s);
    ghost var rest := data[check..lineEnd];
    TailCString(data[..], check, lineEnd);
    assert data[..][check..] == data[check..] && rest[0] == data[check];
    PrefixMeansOccurrence(pattern, rest);
    assert Prefix(pattern, sLen) == pattern && (if pattern == [] then s[0] == NUL else s[0] == pattern[0]);
    assert pattern != [] && OccursAt(pattern, rest, 0) ==> rest[0] == rest[0..|pattern|][0] == pattern[0];
    hide CString;
    if Signed(s[0]) == data[check] {
      var c := Strncmp(data[check..], s, sLen);
      return c == 0;
    }
    return false;
  }

  method PutEntry(fname: seq<Byte>, data: array<Byte>, start: nat, out: Output)
    requires NUL in fname && start <= data.Length && NUL in data[start..]
    modifies out
    ensures out.written == old(out.written) + Entry(CString(fname), CString(data[start..]))
  {
    CStringUnique([COLON, NUL], [COLON]);
    CStringUnique([NEWLINE, NUL], [NEWLINE]);
    Fdputs(out, fname);
    Fdputs(out, [COLON, NUL]);
    Fdputs(out, data[start..]);
    Fdputs(out, [NEWLINE, NUL]);
  }

  /** Looks for the pattern in the line at `start`, and prints the line once, up to its first NUL, if it is there. */
  method SearchLine(s: seq<Byte>, sLen: nat, fname: seq<Byte>, data: array<Byte>, start: nat, lineEnd: nat, out: Output)
    returns (found: bool)
    requires NUL in s && sLen == |CString(s)| && NUL in fname
    requires start <= lineEnd < data.Length && data[lineEnd] == NUL
    modifies out
    ensures Finds(CString(s), data[start..lineEnd]) ==> found
    ensures found ==> Finds(CString(s), data[start..lineEnd]) || NUL in data[start..lineEnd]
    ensures out.written == old(out.written)
      + if found then Entry(CString(fname), CString(data[start..lineEnd])) else []
  {
    ghost var line := data[start..lineEnd];
    ghost var pattern := CString(s);
    assert pattern != [] ==> s[0] == pattern[0];
    hide CString;
    var check := start;
    while check < lineEnd
      invariant start <= check <= lineEnd
      invariant out.written == old(out.written)
      invariant pattern != [] && s[0] < 128 ==> forall i :: 0 <= i < check - start ==> !OccursAt(pattern, line, i)
    {
      assert data[check..lineEnd] == line[check - start..] && data[check] == line[check - start];
      OccursInTail(pattern, line, check - start);
      found := MatchesAt(s, sLen, data, check, lineEnd);
      if found {
        TailCString(data[..], start, lineEnd);
        assert data[..][start..] == data[start..] && data[..][start..lineEnd] == line;
        PutEntry(fname, data, start, out);
        return;
      }
      check := check + 1;
    }
    return false;
  }

  lemma OccursInTail(s: seq<Byte>, line: seq<Byte>, i: nat)
    requires i <= |line|
    ensures OccursAt(s, line, i) <==> OccursAt(s, line[i..], 0)
  {
    if i + |s| <= |line| {
      assert line[i..][0..|s|] == line[i..i + |s|];
    }
  }

  /** Index `p` of the text lies behind a NUL of the record that starts at `at` or later. */
  ghost predicate BehindNul(text: seq<Byte>, at: nat, p: nat) {
    p < |text| && exists m :: at <= m < p && text[m] == NUL && NEWLINE !in text[m..p + 1]
  }

  /** The bytes `from..to` of the window are the text from `at` on, except that a byte behind a NUL of its record may
      be any other one that is no newline. */
  ghost predicate Shows(data: seq<Byte>, from: int, to: int, text: seq<Byte>, at: int) {
    && 0 <= from <= to <= |data| && 0 <= at && at + to - from <= |text|
    && forall j :: from <= j < to ==>
         data[j] == text[at + j - from] || (data[j] != NEWLINE && BehindNul(text, at, at + j - from))
  }

  /** What was printed, followed by any report of the text from `at` on, is a report of the text. The text is what was
      read so far and what may follow it, which is nothing once the file has `ended`. */
  ghost predicate Owes(printed: seq<Byte>, s: seq<Byte>, fname: seq<Byte>, seen: seq<Byte>, ended: bool, at: int) {
    && 0 <= at <= |seen|
    && forall text, rest |
         seen <= text && (ended ==> text == seen) && Reports(s, fname, text, at, rest) ::
         Reports(s, fname, text, 0, printed + rest)
  }

  lemma NewlinesAgree(data: seq<Byte>, from: int, to: int, text: seq<Byte>, at: int, j: int)
    requires Shows(data, from, to, text, at) && from <= j < to
    ensures data[j] == NEWLINE <==> text[at + j - from] == NEWLINE
  {
    var p := at + j - from;
    if BehindNul(text, at, p) {
      var m :| at <= m < p && text[m] == NUL && NEWLINE !in text[m..p + 1];
      assert text[m..p + 1][p - m] == text[p];
    }
  }

  /** The first NUL of a record is where it is in the text, so the record is the same string. */
  lemma RecordString(data: seq<Byte>, start: nat, lineEnd: nat, last: nat, text: seq<Byte>, at: nat)
    requires Shows(data, start, last, text, at) && start <= lineEnd <= last
    ensures var k := at + lineEnd - start;
      && CString(data[start..lineEnd]) == CString(text[at..k])
      && (NUL !in text[at..k] ==> data[start..lineEnd] == text[at..k])
  {
    var k := at + lineEnd - start;
    var d, t := data[start..lineEnd], text[at..k];
    var c := CString(t);
    hide CString;
    forall m | at <= m < at + |c| ensures text[m] != NUL {
      assert text[m] == t[m - at] == c[m - at];
    }
    assert forall p :: at <= p <= at + |c| ==> !BehindNul(text, at, p);
    forall j | 0 <= j <= |c| && j < |t| ensures d[j] == t[j] {
      assert d[j] == data[start + j] && t[j] == text[at + j] && !BehindNul(text, at, at + j);
    }
    assert c == d[..|c|];
    CStringUnique(d, c);
    if NUL !in t {
      CStringOfAll(t);
    }
  }

  /** One record of a text, seen through a window of at most 1024 bytes: `k` is the first newline in it, or its
      end. */
  lemma FirstRecord(f: seq<Byte>, i: nat, k: nat, end: nat)
    requires i <= k <= end <= |f| && i < |f| && end - i <= BUFSIZE
    requires (forall j :: i <= j < k ==> f[j] != NEWLINE) && (k < end ==> f[k] == NEWLINE)
    requires k == end ==> end == |f| || end - i == BUFSIZE
    ensures RecordEnd(f, i) == k && NextRecord(f, i) == if k < end then k + 1 else end
  {
    if k < end {
      IndexOfUnique(f, NEWLINE, i, k);
    } else {
      IndexAfter(f, NEWLINE, i, k);
    }
  }

  lemma IndexAfter(f: seq<Byte>, c: Byte, i: nat, k: nat)
    requires i <= k <= |f| && forall j :: i <= j < k ==> f[j] != c
    ensures IndexOf(f, c, i) >= k
  {
  }

  /** Reporting one more record. */
  lemma OwedRecord(printed: seq<Byte>, s: seq<Byte>, fname: seq<Byte>, seen: seq<Byte>, ended: bool, at: nat, k: nat,
                   end: nat, behind: bool)
    requires Owes(printed, s, fname, seen, ended, at)
    requires at <= k <= end <= |seen| && at < |seen| && end - at <= BUFSIZE
    requires (forall j :: at <= j < k ==> seen[j] != NEWLINE) && (k < end ==> seen[k] == NEWLINE)
    requires k == end ==> (ended && end == |seen|) || end - at == BUFSIZE
    ensures Owes(printed + CutHit(s, fname, seen[at..k], behind), s, fname, seen, ended, if k < end then k + 1 else end)
  {
    var hit := CutHit(s, fname, seen[at..k], behind);
    var next := if k < end then k + 1 else end;
    forall text, rest | seen <= text && (ended ==> text == seen) && Reports(s, fname, text, next, rest)
      ensures Reports(s, fname, text, 0, printed + hit + rest)
    {
      FirstRecord(text, at, k, end);
      assert text[at..k] == seen[at..k] && (hit + rest)[|hit|..] == rest;
      hide RecordEnd, NextRecord, CutHit;
      assert ReportsOne(s, fname, text, at, hit + rest, behind);
      assert printed + hit + rest == printed + (hit + rest);
    }
  }

  lemma ShowsTail(data: seq<Byte>, start: nat, mid: nat, last: nat, text: seq<Byte>, at: nat)
    requires Shows(data, start, last, text, at) && start <= mid < last && data[mid] == NEWLINE
    ensures Shows(data[mid := NUL], mid + 1, last, text, at + mid + 1 - start)
  {
    NewlinesAgree(data, start, last, text, at, mid);
    var q := at + mid - start;
    forall p | q < p && BehindNul(text, at, p) ensures BehindNul(text, q + 1, p) {
      var m :| at <= m < p && text[m] == NUL && NEWLINE !in text[m..p + 1];
      assert m > q by {
        assert forall i :: m <= i <= p ==> text[i] == text[m..p + 1][i - m];
      }
    }
  }

  /** The search branch of the scan: the record at `start` is closed with a NUL and printed if it matches. */
  method PrintRecord(s: seq<Byte>, sLen: nat, fname: seq<Byte>, data: array<Byte>, start: nat, lineEnd: nat, last: nat,
                     out: Output, ghost printed: seq<Byte>, ghost seen: seq<Byte>, ghost ended: bool, ghost at: nat)
    returns (ghost printed': seq<Byte>)
    requires NUL in s && sLen == |CString(s)| && NUL in fname
    requires start <= lineEnd <= last < data.Length && last - start <= BUFSIZE
    requires Shows(data[..], start, last, seen, at) && Owes(printed, CString(s), CString(fname), seen, ended, at)
    requires (forall j :: start <= j < lineEnd ==> data[j] != NEWLINE) && (lineEnd < last ==> data[lineEnd] == NEWLINE)
    requires lineEnd == last ==> (ended && at + last - start == |seen|) || last - start == BUFSIZE
    modifies data, out
    ensures data[..] == old(data[..])[lineEnd := NUL]
    ensures lineEnd < last ==> Shows(data[..], lineEnd + 1, last, seen, at + lineEnd + 1 - start)
    ensures printed <= printed' && out.written == old(out.written) + printed'[|printed|..]
    ensures Owes(printed', CString(s), CString(fname), seen, ended,
                 at + (if lineEnd < last then lineEnd + 1 else last) - start)
  {
    hide CString, Finds, Shows, Owes, Entry;
    ghost var before := data[..];
    if lineEnd < last {
      ShowsTail(before, start, lineEnd, last, seen, at);
    }
    data[lineEnd] := NUL;
    assert data[..] == before[lineEnd := NUL];
    assert data[start..lineEnd] == before[start..lineEnd];
    var found := SearchLine(s, sLen, fname, data, start, lineEnd, out);
    printed' := printed + if found then Entry(CString(fname), CString(before[start..lineEnd])) else [];
    RecordPrinted(printed, CString(s), CString(fname), before, start, lineEnd, last, seen, ended, at, found);
  }

  /** What the search of one record prints is owed no more. */
  lemma RecordPrinted(printed: seq<Byte>, s: seq<Byte>, fname: seq<Byte>, data: seq<Byte>, start: nat, lineEnd: nat,
                      last: nat, seen: seq<Byte>, ended: bool, at: nat, found: bool)
    requires start <= lineEnd <= last && last - start <= BUFSIZE
    requires Shows(data, start, last, seen, at) && Owes(printed, s, fname, seen, ended, at)
    requires (forall j :: start <= j < lineEnd ==> data[j] != NEWLINE) && (lineEnd < last ==> data[lineEnd] == NEWLINE)
    requires lineEnd == last ==> (ended && at + last - start == |seen|) || last - start == BUFSIZE
    requires Finds(s, data[start..lineEnd]) ==> found
    requires found ==> Finds(s, data[start..lineEnd]) || NUL in data[start..lineEnd]
    ensures Owes(printed + if found then Entry(fname, CString(data[start..lineEnd])) else [], s, fname, seen, ended,
                 at + (if lineEnd < last then lineEnd + 1 else last) - start)
  {
    hide CString, Finds, Shows, Owes, CutHit, Entry;
    RecordInText(data, start, lineEnd, last, seen, at);
    RecordString(data, start, lineEnd, last, seen, at);
    var k, end := at + lineEnd - start, at + last - start;
    FoundIsCutHit(s, fname, data[start..lineEnd], seen[at..k], found);
    if at < |seen| {
      OwedRecord(printed, s, fname, seen, ended, at, k, end, found);
    } else {
      assert seen[at..k] == [] && printed + [] == printed;
      EmptyCutHit(s, fname, found);
    }
  }

  lemma EmptyCutHit(s: seq<Byte>, fname: seq<Byte>, behind: bool)
    ensures CutHit(s, fname, [], behind) == []
  {
  }

  /** The record of the window and that of the text end at the same place. */
  lemma RecordInText(data: seq<Byte>, start: nat, lineEnd: nat, last: nat, text: seq<Byte>, at: nat)
    requires Shows(data, start, last, text, at) && start <= lineEnd <= last
    requires (forall j :: start <= j < lineEnd ==> data[j] != NEWLINE) && (lineEnd < last ==> data[lineEnd] == NEWLINE)
    ensures var k := at + lineEnd - start;
      && at + last - start <= |text| && last <= |data|
      && (forall j :: at <= j < k ==> text[j] != NEWLINE) && (lineEnd < last ==> text[k] == NEWLINE)
  {
    forall j | at <= j < at + lineEnd - start ensures text[j] != NEWLINE {
      NewlinesAgree(data, start, last, text, at, start + j - at);
    }
    if lineEnd < last {
      NewlinesAgree(data, start, last, text, at, lineEnd);
    }
  }

  /** What the search finds in the window is what a report allows for the record of the text. */
  lemma FoundIsCutHit(s: seq<Byte>, fname: seq<Byte>, line: seq<Byte>, record: seq<Byte>, found: bool)
    requires CString(line) == CString(record) && (NUL !in record ==> line == record)
    requires (Finds(s, line) ==> found) && (found ==> Finds(s, line) || NUL in line)
    ensures CutHit(s, fname, record, found) == if found then Entry(fname, CString(line)) else []
  {
    var c := CString(record);
    if Matches(s, c) {
      var i :| OccursAt(s, c, i);
      assert line[i..i + |s|] == c[i..i + |s|];
      assert OccursAt(s, line, i);
    }
    if NUL !in record {
      CStringOfAll(record);
    }
  }

  /** The shift branch of the scan: the unfinished line at `start` moves to the front of the window. If it has a NUL,
      only the part up to it does, and the bytes behind are those that stood there before. */
  method CarryOver(data: array<Byte>, start: nat, last: nat, ghost text: seq<Byte>, ghost at: nat)
    requires 0 < start <= last < data.Length && Shows(data[..], start, last, text, at)
    requires forall j :: 0 <= j < last ==> data[j] != NEWLINE
    modifies data
    ensures Shows(data[..], 0, last - start, text, at)
    ensures data[data.Length - 1] == if last == data.Length - 1 then NUL else old(data[data.Length - 1])
  {
    hide CString, Shows;
    ghost var before := data[..];
    data[last] := NUL;
    ghost var closed := before[last := NUL];
    assert data[..] == closed;
    Closed(before, start, last);
    StrcpyDown(data, start);
    CarriedCells(closed, data[..], CString(closed[start..]));
    CarriedShows(before, data[..], CString(closed[start..]), start, last, text, at);
  }

  /** The string that moves starts the unfinished line, and ends with it or at a NUL. */
  lemma Closed(before: seq<Byte>, start: nat, last: nat)
    requires start <= last < |before|
    ensures var closed := before[last := NUL]; var c := CString(closed[start..]);
      && NUL in closed[start..] && |c| <= last - start
      && (forall j :: 0 <= j < |c| ==> c[j] == before[start + j])
      && (|c| < last - start ==> before[start + |c|] == NUL)
  {
    assert before[last := NUL][start..][last - start] == NUL;
  }

  lemma CarriedCells(closed: seq<Byte>, after: seq<Byte>, c: seq<Byte>)
    requires |c| < |closed| && after == c + [NUL] + closed[|c| + 1..]
    ensures |after| == |closed|
    ensures forall j :: 0 <= j < |after| ==> after[j] == if j < |c| then c[j] else if j == |c| then NUL else closed[j]
  {
  }

  lemma CarriedShows(before: seq<Byte>, after: seq<Byte>, c: seq<Byte>, start: nat, last: nat, text: seq<Byte>, at: nat)
    requires 0 < start <= last < |before| == |after| && Shows(before, start, last, text, at)
    requires forall j :: 0 <= j < last ==> before[j] != NEWLINE
    requires |c| <= last - start && forall j :: 0 <= j < |c| ==> c[j] == before[start + j]
    requires |c| < last - start ==> before[start + |c|] == NUL
    requires forall j :: 0 <= j < last - start ==>
      after[j] == if j < |c| then c[j] else if j == |c| then NUL else before[j]
    ensures Shows(after, 0, last - start, text, at)
  {
    forall p | at + |c| < p < at + last - start ensures BehindNul(text, at, p) {
      NulBehind(before, start, last, text, at, |c|, p - at);
    }
    hide BehindNul;
    forall j | 0 <= j < last - start
      ensures after[j] == text[at + j] || (after[j] != NEWLINE && BehindNul(text, at, at + j))
    {
      if j <= |c| {
        assert after[j] == before[start + j];
      }
    }
  }

  lemma NulBehind(data: seq<Byte>, start: nat, last: nat, text: seq<Byte>, at: nat, n: nat, j: nat)
    requires Shows(data, start, last, text, at) && n < j < last - start && data[start + n] == NUL
    requires forall i :: start <= i < last ==> data[i] != NEWLINE
    ensures BehindNul(text, at, at + j)
  {
    var q, p := at + n, at + j;
    var m := q;
    if text[q] != NUL {
      assert BehindNul(text, at, q);
      m :| at <= m < q && text[m] == NUL && NEWLINE !in text[m..q + 1];
    }
    forall i | m <= i <= p ensures text[i] != NEWLINE {
      NewlinesAgree(data, start, last, text, at, start + i - at);
    }
  }

  /** Prints the records of the window and moves an unfinished line to its front. The first result is how many bytes
      were carried over. The window starts at `at` in the text. */
  method ScanBuffer(s: seq<Byte>, sLen: nat, fname: seq<Byte>, data: array<Byte>, last: nat, cnt: nat, out: Output,
                    ghost printed: seq<Byte>, ghost seen: seq<Byte>, ghost ended: bool, ghost at: nat)
    returns (carry: nat, ghost printed': seq<Byte>)
    requires NUL in s && sLen == |CString(s)| && NUL in fname
    requires data.Length == BUFSIZE + 1 && data[BUFSIZE] != NEWLINE && last <= BUFSIZE
    requires Shows(data[..], 0, last, seen, at) && Owes(printed, CString(s), CString(fname), seen, ended, at)
    requires cnt == 0 || last < BUFSIZE ==> ended && at + last == |seen|
    modifies data, out
    ensures carry <= last && carry < BUFSIZE && (cnt == 0 ==> carry == 0)
    ensures data[BUFSIZE] != NEWLINE
    ensures Shows(data[..], 0, carry, seen, at + last - carry)
    ensures printed <= printed' && out.written == old(out.written) + printed'[|printed|..]
    ensures Owes(printed', CString(s), CString(fname), seen, ended, at + last - carry)
  {
    hide CString, Owes, Shows;
    var lineStart := 0;
    printed' := printed;
    while true
      invariant lineStart <= last
      invariant data[BUFSIZE] != NEWLINE && forall j :: 0 <= j < lineStart ==> data[j] != NEWLINE
      invariant Shows(data[..], lineStart, last, seen, at + lineStart)
      invariant printed <= printed' && out.written == old(out.written) + printed'[|printed|..]
      invariant Owes(printed', CString(s), CString(fname), seen, ended, at + lineStart)
      decreases last - lineStart
    {
      var lineEnd := FindLineEnd(data, lineStart, last);
      if data[lineEnd] != NEWLINE && cnt != 0 && lineStart != 0 {
        CarryOver(data, lineStart, last, seen, at + lineStart);
        return last - lineStart, printed';
      }
      ghost var before, more := data[..], printed';
      printed' := PrintRecord(s, sLen, fname, data, lineStart, lineEnd, last, out, more, seen, ended, at + lineStart);
      Appended(printed, more, printed');
      assert forall j :: 0 <= j < data.Length ==> data[j] == data[..][j] == if j == lineEnd then NUL else before[j];
      lineStart := lineEnd + 1;
      if lineStart >= last {
        ShowsNothing(data[..], seen, at + last, printed', CString(s), CString(fname), ended);
        return 0, printed';
      }
    }
  }

  lemma Appended(a: seq<Byte>, b: seq<Byte>, c: seq<Byte>)
    requires a <= b <= c
    ensures b[|a|..] + c[|b|..] == c[|a|..]
  {
  }

  lemma ShowsNothing(data: seq<Byte>, text: seq<Byte>, at: nat, printed: seq<Byte>, s: seq<Byte>, fname: seq<Byte>,
                     ended: bool)
    ensures Owes(printed, s, fname, text, ended, at) ==> Shows(data, 0, 0, text, at)
  {
  }

  /** A read appends to what the window shows. */
  lemma ShowsMore(before: seq<Byte>, after: seq<Byte>, last: nat, seen: seq<Byte>, seen': seq<Byte>, position: nat,
                  cnt: nat)
    requires last <= position == |seen| && seen <= seen' && Shows(before, 0, last, seen, position - last)
    requires Received(before, after, last, seen', position, cnt)
    ensures Shows(after, 0, last + cnt, seen', position - last)
  {
    var start := position - last;
    forall p | start <= p < position && BehindNul(seen, start, p) ensures BehindNul(seen', start, p) {
      var m :| start <= m < p && seen[m] == NUL && NEWLINE !in seen[m..p + 1];
      assert seen'[m..p + 1] == seen[m..p + 1];
    }
  }

  /** What follows was not known before the read, so what is owed is still owed. */
  lemma OwesMore(printed: seq<Byte>, s: seq<Byte>, fname: seq<Byte>, seen: seq<Byte>, seen': seq<Byte>, ended: bool,
                 ended': bool, at: int)
    requires Owes(printed, s, fname, seen, ended, at) && seen <= seen' && (ended ==> ended' && seen' == seen)
    ensures Owes(printed, s, fname, seen', ended', at)
  {
  }

  lemma OwesAll(s: seq<Byte>, fname: seq<Byte>, ended: bool)
    ensures Owes([], s, fname, [], ended, 0)
  {
    hide Reports;
    assert forall rest: seq<Byte> :: [] + rest == rest;
  }

  lemma OwesNothing(printed: seq<Byte>, s: seq<Byte>, fname: seq<Byte>, seen: seq<Byte>)
    requires Owes(printed, s, fname, seen, true, |seen|)
    ensures Reports(s, fname, seen, 0, printed)
  {
    assert Reports(s, fname, seen, |seen|, []);
    assert printed + [] == printed;
  }

  const OPEN_FAILED := "file open failed\n"
  const READ_FAILED := "file read failed\n"

  /** Filters one file; a null `file` is one that cannot be opened. The window starts with arbitrary contents, of
      which only its last byte matters. What is printed is a report of the text that the reads deliver. */
  method DoOneFile(s: seq<Byte>, fname: seq<Byte>, file: Reader?, data: array<Byte>, out: Output)
    returns (r: int, ghost printed: seq<Byte>)
    requires NUL in s && NUL in fname
    requires data.Length == BUFSIZE + 1 && data[BUFSIZE] != NEWLINE
    requires file != null ==> file.Valid() && file.position == 0
    modifies data, out, file
    ensures r == if file != null && file.Readable() then 0 else -1
    ensures out.written == old(out.written)
      + if file == null then Ascii(OPEN_FAILED) else if !file.Readable() then Ascii(READ_FAILED) else printed
    ensures file != null && file.Readable() ==>
      && file.Valid() && file.Ended() && Reports(CString(s), CString(fname), file.Seen(), 0, printed)
      && (NUL !in file.Seen() ==> printed == Grepped(CString(s), CString(fname), file.Seen()))
      && (file.Ino().length % BLOCK <= BLOCK - BUFSIZE ==> file.Seen() == Contents(file.img, file.Ino()))
  {
    hide CString, Ascii, Reports, GreppedFrom, FileSystem.WellFormed, Stream, Spans, Filtering;
    printed := [];
    var sLen := Strlen(s);
    if file == null {
      PutMessage(out, OPEN_FAILED);
      return -1, printed;
    }
    ghost var p, name := CString(s), CString(fname);
    Start(file, data[..], p, name);
    var last: nat := 0;
    while true
      invariant last < BUFSIZE && data[BUFSIZE] != NEWLINE && file.Valid()
      invariant out.written == old(out.written) + printed && (!file.Readable() ==> printed == [])
      invariant Filtering(file, data[..], last, printed, p, name)
      decreases file.Room()
    {
      ghost var before := printed;
      var cnt;
      cnt, last, printed := FilterWindow(s, sLen, fname, file, data, last, out, printed);
      if cnt == -1 {
        PutMessage(out, READ_FAILED);
        return -1, printed;
      }
      Appended([], before, printed);
      if cnt == 0 {
        Filtered(file, data[..], printed, p, name);
        return 0, printed;
      }
    }
  }

  /** What the window shows and what is owed between two reads. */
  ghost predicate Filtering(file: Reader, data: seq<Byte>, last: nat, printed: seq<Byte>, s: seq<Byte>,
                            fname: seq<Byte>)
    requires file.Valid()
    reads file
  {
    file.Readable() ==>
      && last <= file.position && Shows(data, 0, last, file.Seen(), file.position - last)
      && Owes(printed, s, fname, file.Seen(), file.Ended(), file.position - last)
  }

  /** One round of the filter: a read, and the scan of what the window then holds. */
  method FilterWindow(s: seq<Byte>, sLen: nat, fname: seq<Byte>, file: Reader, data: array<Byte>, last: nat,
                      out: Output, ghost printed: seq<Byte>)
    returns (cnt: int, last': nat, ghost printed': seq<Byte>)
    requires NUL in s && sLen == |CString(s)| && NUL in fname
    requires data.Length == BUFSIZE + 1 && data[BUFSIZE] != NEWLINE && last < BUFSIZE && file.Valid()
    requires Filtering(file, data[..], last, printed, CString(s), CString(fname))
    modifies data, out, file
    ensures file.Valid() && last' < BUFSIZE && data[BUFSIZE] != NEWLINE
    ensures cnt >= -1 && (cnt == -1 <==> !file.Readable())
    ensures cnt == -1 ==> printed' == printed && out.written == old(out.written)
    ensures printed <= printed' && out.written == old(out.written) + printed'[|printed|..]
    ensures Filtering(file, data[..], last', printed', CString(s), CString(fname))
    ensures cnt >= 0 ==> file.Room() == old(file.Room()) - cnt && (cnt == 0 ==> last' == 0 && file.Ended())
  {
    hide CString, Shows, Owes, Received, FileSystem.WellFormed, Stream, Spans, Furthest;
    ghost var before, seen, ended := data[..], if file.Readable() then file.Seen() else [], file.Ended();
    ghost var p, name := CString(s), CString(fname);
    cnt := file.Read(data, last, BUFSIZE - last);
    if cnt == -1 {
      return -1, last, printed;
    }
    ghost var seen' := file.Seen();
    ShowsMore(before, data[..], last, seen, seen', |seen|, cnt);
    OwesMore(printed, p, name, seen, seen', ended, file.Ended(), |seen| - last);
    UnreadByte(before, data[..], last, seen', |seen|, cnt, BUFSIZE);
    last', printed' := ScanBuffer(s, sLen, fname, data, last + cnt, cnt, out, printed, seen', file.Ended(),
                                  |seen| - last);
  }

  lemma Filtered(file: Reader, data: seq<Byte>, printed: seq<Byte>, s: seq<Byte>, fname: seq<Byte>)
    requires file.Valid() && file.Readable() && file.Ended() && Filtering(file, data, 0, printed, s, fname)
    ensures Reports(s, fname, file.Seen(), 0, printed)
    ensures NUL !in file.Seen() ==> printed == Grepped(s, fname, file.Seen())
    ensures file.Ino().length % BLOCK <= BLOCK - BUFSIZE ==> file.Seen() == Contents(file.img, file.Ino())
  {
    hide Reports, GreppedFrom, Owes, Shows;
    OwesNothing(printed, s, fname, file.Seen());
    ReadWhole(file.img, file.Ino(), file.position);
    if NUL !in file.Seen() {
      NulFreeReport(s, fname, file.Seen(), 0, printed);
    }
  }

  lemma Start(file: Reader, data: seq<Byte>, s: seq<Byte>, fname: seq<Byte>)
    requires file.Valid() && file.position == 0
    ensures Filtering(file, data, 0, [], s, fname)
  {
    if file.Readable() {
      assert file.Seen() == [];
      OwesAll(s, fname, file.Ended());
    }
  }

  lemma UnreadByte(before: seq<Byte>, after: seq<Byte>, at: nat, text: seq<Byte>, position: nat, cnt: nat, i: nat)
    requires Received(before, after, at, text, position, cnt) && at + cnt <= i < |before|
    ensures |after| == |before| && after[i] == before[i]
  {
  }

  method PutMessage(out: Output, message: string)
    requires forall c :: c in message ==> 0 < c as int < 256
    modifies out
    ensures out.written == old(out.written) + Ascii(message)
  {
    CStringUnique(Ascii(message) + [NUL], Ascii(message));
    assert (Ascii(message) + [NUL])[|message|] == NUL;
    Fdputs(out, Ascii(message) + [NUL]);
  }

  // ----- records against lines -----

  lemma ReportCons(s: seq<Byte>, fname: seq<Byte>, line: seq<Byte>, rest: seq<seq<Byte>>)
    ensures Report(s, fname, [line] + rest) == Hit(s, fname, line) + Report(s, fname, rest)
  {
    assert ([line] + rest)[1..] == rest;
  }

  /** A line that fits the window is filtered as it is. One of exactly 1024 bytes leaves its newline behind, which
      then counts as an empty line and prints nothing. */
  lemma ShortLinePrinted(s: seq<Byte>, fname: seq<Byte>, f: seq<Byte>, i: nat, k: nat)
    requires i < |f| && k == IndexOf(f, NEWLINE, i) && k - i <= BUFSIZE
    ensures GreppedFrom(s, fname, f, i) == Print(s, fname, f[i..k]) + GreppedFrom(s, fname, f, After(f, k))
  {
    hide Print;
    if k == i + BUFSIZE < |f| {
      IndexOfUnique(f, NEWLINE, k, k);
      EmptyLineMisses(s, fname);
      assert f[k..k] == [];
      assert GreppedFrom(s, fname, f, k) == GreppedFrom(s, fname, f, After(f, k));
    }
  }

  lemma EmptyLineMisses(s: seq<Byte>, fname: seq<Byte>)
    ensures Print(s, fname, []) == []
  {
    assert !Matches(s, []);
  }

  lemma OccursInPiece(s: seq<Byte>, line: seq<Byte>, a: nat, b: nat, i: int)
    requires a <= b <= |line| && OccursAt(s, line[a..b], i)
    ensures OccursAt(s, line, a + i)
  {
    var piece := line[a..b];
    forall j | 0 <= j < |s| ensures line[a + i..a + i + |s|][j] == s[j] {
      assert s[j] == piece[i..i + |s|][j] == piece[i + j];
    }
    assert line[a + i..a + i + |s|] == s;
  }

  lemma PieceMisses(s: seq<Byte>, line: seq<Byte>, a: nat, b: nat)
    requires a <= b <= |line| && !Finds(s, line)
    ensures !Finds(s, line[a..b])
  {
    forall i | OccursAt(s, line[a..b], i) ensures exists j :: OccursAt(s, line, j) {
      OccursInPiece(s, line, a, b, i);
    }
  }

  lemma LongLineCut(s: seq<Byte>, fname: seq<Byte>, f: seq<Byte>, i: nat, k: nat)
    requires i < |f| && k == IndexOf(f, NEWLINE, i) && k - i > BUFSIZE
    ensures var j := i + BUFSIZE;
      && IndexOf(f, NEWLINE, j) == k
      && GreppedFrom(s, fname, f, i) == Print(s, fname, f[i..j]) + GreppedFrom(s, fname, f, j)
      && f[i..k][0..BUFSIZE] == f[i..j] && f[i..k][BUFSIZE..k - i] == f[j..k]
  {
    hide Print;
    IndexOfUnique(f, NEWLINE, i + BUFSIZE, k);
  }

  /** A line in which the pattern is not found prints nothing, however long it is. */
  lemma {:induction false} MissedLinePrintsNothing(s: seq<Byte>, fname: seq<Byte>, f: seq<Byte>, i: nat, k: nat)
    requires i < |f| && k == IndexOf(f, NEWLINE, i) && !Finds(s, f[i..k])
    ensures GreppedFrom(s, fname, f, i) == GreppedFrom(s, fname, f, After(f, k))
    decreases k - i
  {
    hide GreppedFrom, Finds, IndexOf, After;
    if k - i <= BUFSIZE {
      ShortLinePrinted(s, fname, f, i, k);
    } else {
      LongLineCut(s, fname, f, i, k);
      PieceMisses(s, f[i..k], 0, BUFSIZE);
      PieceMisses(s, f[i..k], BUFSIZE, k - i);
      MissedLinePrintsNothing(s, fname, f, i + BUFSIZE, k);
    }
  }

  /** The first entry that is printed has a line of at most 1024 bytes. */
  lemma {:induction false} FirstEntryShort(s: seq<Byte>, fname: seq<Byte>, f: seq<Byte>, i: nat) returns (p: seq<Byte>)
    requires i <= |f|
    ensures |p| <= BUFSIZE
    ensures GreppedFrom(s, fname, f, i) != [] ==> Entry(fname, p) <= GreppedFrom(s, fname, f, i)
    decreases |f| - i
  {
    p := [];
    if i < |f| {
      hide RecordEnd, NextRecord, Finds;
      p := f[i..RecordEnd(f, i)];
      if Print(s, fname, p) == [] {
        p := FirstEntryShort(s, fname, f, NextRecord(f, i));
      }
    }
  }

  /** So a longer line cannot be the first one that is printed. */
  lemma LongEntryDiffers(fname: seq<Byte>, line: seq<Byte>, p: seq<Byte>, rest: seq<Byte>)
    requires |p| < |line| && NEWLINE !in line
    ensures !(Entry(fname, p) <= Entry(fname, line) + rest)
  {
    var n := |fname| + 1 + |p|;
    assert Entry(fname, p)[n] == NEWLINE;
    assert (Entry(fname, line) + rest)[n] == line[|p|];
  }

  /** Every line that contains the pattern fits the window, and the pattern can be found. */
  ghost predicate Filterable(s: seq<Byte>, lines: seq<seq<Byte>>) {
    forall i :: 0 <= i < |lines| && Matches(s, lines[i]) ==> s[0] < 128 && |lines[i]| <= BUFSIZE
  }

  lemma FilterableCons(s: seq<Byte>, line: seq<Byte>, rest: seq<seq<Byte>>)
    ensures Filterable(s, [line] + rest)
      <==> (Matches(s, line) ==> s[0] < 128 && |line| <= BUFSIZE) && Filterable(s, rest)
  {
    var lines := [line] + rest;
    assert lines[0] == line && forall i :: 0 <= i < |rest| ==> rest[i] == lines[i + 1];
  }

  lemma {:induction false} GrepsLinesFrom(s: seq<Byte>, fname: seq<Byte>, f: seq<Byte>, i: nat)
    requires i <= |f|
    ensures GreppedFrom(s, fname, f, i) == Report(s, fname, LinesFrom(f, i)) <==> Filterable(s, LinesFrom(f, i))
    decreases |f| - i
  {
    if i < |f| {
      var k := IndexOf(f, NEWLINE, i);
      var line, rest := f[i..k], LinesFrom(f, After(f, k));
      assert LinesFrom(f, i) == [line] + rest;
      hide GreppedFrom, Report, LinesFrom, Filterable, Matches, Entry, After;
      GrepsLinesFrom(s, fname, f, After(f, k));
      ReportCons(s, fname, line, rest);
      FilterableCons(s, line, rest);
      if !Matches(s, line) || (s[0] < 128 && |line| <= BUFSIZE) {
        LinePrinted(s, fname, f, i, k);
        Cancel(Hit(s, fname, line), GreppedFrom(s, fname, f, After(f, k)), Report(s, fname, rest));
      } else {
        MatchedLineDiffers(s, fname, f, i, line, Report(s, fname, rest));
      }
    }
  }

  lemma Cancel(a: seq<Byte>, b: seq<Byte>, c: seq<Byte>)
    ensures a + b == a + c <==> b == c
  {
    assert (a + b)[|a|..] == b && (a + c)[|a|..] == c;
  }

  lemma LinePrinted(s: seq<Byte>, fname: seq<Byte>, f: seq<Byte>, i: nat, k: nat)
    requires i < |f| && k == IndexOf(f, NEWLINE, i) && (k - i <= BUFSIZE || !Finds(s, f[i..k]))
    ensures GreppedFrom(s, fname, f, i) == Print(s, fname, f[i..k]) + GreppedFrom(s, fname, f, After(f, k))
  {
    hide GreppedFrom, Matches;
    if k - i <= BUFSIZE {
      ShortLinePrinted(s, fname, f, i, k);
    } else {
      MissedLinePrintsNothing(s, fname, f, i, k);
    }
  }

  lemma {:induction false} HighPatternPrintsNothing(s: seq<Byte>, fname: seq<Byte>, f: seq<Byte>, i: nat)
    requires i <= |f| && s != [] && s[0] >= 128
    ensures GreppedFrom(s, fname, f, i) == []
    decreases |f| - i
  {
    if i < |f| {
      HighPatternPrintsNothing(s, fname, f, NextRecord(f, i));
    }
  }

  lemma MatchedLineDiffers(s: seq<Byte>, fname: seq<Byte>, f: seq<Byte>, i: nat, line: seq<Byte>, rest: seq<Byte>)
    requires i <= |f| && NEWLINE !in line && Matches(s, line) && (s[0] >= 128 || |line| > BUFSIZE)
    ensures GreppedFrom(s, fname, f, i) != Hit(s, fname, line) + rest
  {
    hide GreppedFrom;
    if s[0] >= 128 {
      HighPatternPrintsNothing(s, fname, f, i);
    } else {
      var p := FirstEntryShort(s, fname, f, i);
      LongEntryDiffers(fname, line, p, rest);
    }
  }

  /** For every pattern the filter reports exactly the lines that contain it, in order and once each, if and only if
      every line that contains it has at most 1024 bytes and the pattern starts with a byte below 128. */
  lemma GrepsLinesIff(s: seq<Byte>, fname: seq<Byte>, f: seq<Byte>)
    ensures Grepped(s, fname, f) == Report(s, fname, Lines(f)) <==> Filterable(s, Lines(f))
  {
    GrepsLinesFrom(s, fname, f, 0);
  }

  /** A file that fails: a line of one byte that is 128 or more, which is the pattern, is not printed. */
  lemma HighByteMissed(fname: seq<Byte>, c: Byte)
    requires c >= 128
    ensures IsPattern([c]) && Grepped([c], fname, [c, NEWLINE]) == [] && Lines([c, NEWLINE]) == [[c]]
    ensures Report([c], fname, Lines([c, NEWLINE])) == Entry(fname, [c])
  {
    var f := [c, NEWLINE];
    HighPatternPrintsNothing([c], fname, f, 0);
    assert IndexOf(f, NEWLINE, 0) == 1 && f[0..1] == [c] && LinesFrom(f, 2) == [];
    assert Lines(f) == [[c]];
    assert OccursAt([c], [c], 0);
    assert Report([c], fname, [[c]]) == Entry(fname, [c]) + [];
  }

  /** A possible argument of the program: what the kernel hands over is not empty, has at most 128 bytes and does not
      start with a space. */
  ghost predicate IsPattern(s: seq<Byte>) {
    s != [] && Commands.IsArgument(s)
  }

  /** An argument that is typed: the keys give bytes below 128 only. */
  ghost predicate IsTyped(s: seq<Byte>) {
    IsPattern(s) && forall i :: 0 <= i < |s| ==> s[i] < 128
  }

  /** The byte at `j` of the line is the start of an argument that the filter gets wrong. */
  ghost predicate Troubles(line: seq<Byte>, j: int) {
    0 <= j < |line| && line[j] != SPACE && (line[j] >= 128 || |line| > BUFSIZE)
  }

  /** Without such a byte, a line that contains an argument is printed. */
  lemma UntroubledLine(s: seq<Byte>, line: seq<Byte>)
    requires IsPattern(s) && Matches(s, line)
    requires forall j :: 0 <= j < |line| && line[j] == s[0] ==> !Troubles(line, j)
    ensures s[0] < 128 && |line| <= BUFSIZE
  {
    var i :| OccursAt(s, line, i);
    assert line[i] == line[i..i + |s|][0] == s[0];
  }

  /** With one, that byte alone is an argument for which the report is wrong. */
  lemma BytePattern(fname: seq<Byte>, f: seq<Byte>, line: seq<Byte>, j: int)
    requires NUL !in f && line in Lines(f) && Troubles(line, j)
    ensures IsPattern([line[j]]) && Grepped([line[j]], fname, f) != Report([line[j]], fname, Lines(f))
  {
    hide Grepped, Report;
    LinesOfText(f, 0);
    assert line[j] in line;
    assert OccursAt([line[j]], line, j);
    GrepsLinesIff([line[j]], fname, f);
  }

  /** So a file is filtered correctly for every argument if and only if it has no byte of 128 or more and its lines of
      more than 1024 bytes are made of spaces. */
  lemma GrepsArgumentsIff(fname: seq<Byte>, f: seq<Byte>)
    requires NUL !in f
    ensures (forall s | IsPattern(s) :: Grepped(s, fname, f) == Report(s, fname, Lines(f)))
      <==> forall line, j | line in Lines(f) :: !Troubles(line, j)
  {
    hide Grepped, Report, Matches, Troubles, IsPattern;
    var lines := Lines(f);
    if forall line, j | line in lines :: !Troubles(line, j) {
      forall s | IsPattern(s) ensures Grepped(s, fname, f) == Report(s, fname, lines) {
        forall i | 0 <= i < |lines| && Matches(s, lines[i]) ensures s != [] && s[0] < 128 && |lines[i]| <= BUFSIZE {
          PatternNotEmpty(s);
          UntroubledLine(s, lines[i]);
        }
        GrepsLinesIff(s, fname, f);
      }
    } else {
      var line, j :| line in lines && Troubles(line, j);
      BytePatternWrong(fname, f, line, j);
    }
  }

  lemma PatternNotEmpty(s: seq<Byte>)
    requires IsPattern(s)
    ensures s != []
  {
  }

  lemma BytePatternWrong(fname: seq<Byte>, f: seq<Byte>, line: seq<Byte>, j: int)
    requires NUL !in f && line in Lines(f) && Troubles(line, j)
    ensures exists s :: IsPattern(s) && Grepped(s, fname, f) != Report(s, fname, Lines(f))
    ensures line[j] < 128 ==> exists s :: IsTyped(s) && Grepped(s, fname, f) != Report(s, fname, Lines(f))
  {
    hide Grepped, Report;
    BytePattern(fname, f, line, j);
    assert line[j] < 128 ==> IsTyped([line[j]]);
  }

  /** And for every argument that can be typed if and only if the bytes below 128 of a line of more than 1024 bytes
      are spaces. */
  lemma GrepsTypedIff(fname: seq<Byte>, f: seq<Byte>)
    requires NUL !in f
    ensures (forall s | IsTyped(s) :: Grepped(s, fname, f) == Report(s, fname, Lines(f)))
      <==> forall line, j | line in Lines(f) && Troubles(line, j) :: line[j] >= 128
  {
    hide Grepped, Report, Matches, IsPattern;
    var lines := Lines(f);
    if forall line, j | line in lines && Troubles(line, j) :: line[j] >= 128 {
      forall s | IsTyped(s) ensures Grepped(s, fname, f) == Report(s, fname, lines) {
        PatternNotEmpty(s);
        forall i | 0 <= i < |lines| && Matches(s, lines[i]) ensures s[0] < 128 && |lines[i]| <= BUFSIZE {
          UntroubledLine(s, lines[i]);
        }
        GrepsLinesIff(s, fname, f);
      }
    } else {
      var line, j :| line in lines && Troubles(line, j) && line[j] < 128;
      BytePatternWrong(fname, f, line, j);
    }
  }

  // ----- what a report says -----

  /** A line contains a pattern if it is something, the pattern, and something else. */
  lemma MatchesMeaning(s: seq<Byte>, line: seq<Byte>)
    ensures Matches(s, line) <==> s != [] && exists a, b :: line == a + s + b
  {
    if Matches(s, line) {
      var i :| OccursAt(s, line, i);
      assert line == line[..i] + s + line[i + |s|..];
    }
    if s != [] && exists a, b :: line == a + s + b {
      var a, b :| line == a + s + b;
      assert line[|a|..|a| + |s|] == s;
      assert OccursAt(s, line, |a|);
    }
  }

  /** The lines that contain the pattern. */
  ghost function Selected(s: seq<Byte>, lines: seq<seq<Byte>>): seq<seq<Byte>> {
    if lines == [] then [] else (if Matches(s, lines[0]) then [lines[0]] else []) + Selected(s, lines[1..])
  }

  /** Reads a report back: entries of a file name, a colon and a line, each ended by a newline. */
  ghost function LinesReported(fname: seq<Byte>, printed: seq<Byte>): seq<seq<Byte>>
    decreases |printed|
  {
    var start := |fname| + 1;
    if |printed| <= start || printed[..start] != fname + [58] then []
    else
      var k := IndexOf(printed, NEWLINE, start);
      if k == |printed| then [] else [printed[start..k]] + LinesReported(fname, printed[k + 1..])
  }

  lemma EntryReported(fname: seq<Byte>, line: seq<Byte>, rest: seq<Byte>)
    requires NEWLINE !in line
    ensures LinesReported(fname, Entry(fname, line) + rest) == [line] + LinesReported(fname, rest)
  {
    var printed := Entry(fname, line) + rest;
    var start := |fname| + 1;
    var k := start + |line|;
    assert printed[..start] == fname + [58];
    assert forall j :: start <= j < k ==> printed[j] == line[j - start];
    assert printed[k] == NEWLINE;
    IndexOfUnique(printed, NEWLINE, start, k);
    assert printed[start..k] == line && printed[k + 1..] == rest;
  }

  lemma HitReported(s: seq<Byte>, fname: seq<Byte>, line: seq<Byte>, rest: seq<Byte>)
    requires NEWLINE !in line
    ensures LinesReported(fname, Hit(s, fname, line) + rest)
      == (if Matches(s, line) then [line] else []) + LinesReported(fname, rest)
  {
    hide Matches, Entry, LinesReported;
    EntryReported(fname, line, rest);
    assert [] + rest == rest;
  }

  /** A report names exactly the lines that contain the pattern, in order and once each. */
  lemma {:induction false} ReportNamesLines(s: seq<Byte>, fname: seq<Byte>, lines: seq<seq<Byte>>)
    requires forall i :: 0 <= i < |lines| ==> NEWLINE !in lines[i]
    ensures LinesReported(fname, Report(s, fname, lines)) == Selected(s, lines)
  {
    hide Matches, Hit;
    if lines == [] {
      assert LinesReported(fname, []) == [];
    } else {
      hide LinesReported;
      ReportNamesLines(s, fname, lines[1..]);
      HitReported(s, fname, lines[0], Report(s, fname, lines[1..]));
    }
  }

  ghost function Unlines(lines: seq<seq<Byte>>): seq<Byte> {
    if lines == [] then [] else lines[0] + [NEWLINE] + Unlines(lines[1..])
  }

  lemma UnlinesCons(line: seq<Byte>, rest: seq<seq<Byte>>)
    ensures Unlines([line] + rest) == line + [NEWLINE] + Unlines(rest)
  {
    assert ([line] + rest)[1..] == rest;
  }

  /** The bytes of a line are bytes of the text, and no newlines. */
  lemma {:induction false} LinesOfText(f: seq<Byte>, i: nat)
    requires i <= |f|
    ensures forall line, c :: line in LinesFrom(f, i) && c in line ==> c in f && c != NEWLINE
    decreases |f| - i
  {
    if i < |f| {
      var k := IndexOf(f, NEWLINE, i);
      assert forall c :: c in f[i..k] ==> c in f && c != NEWLINE;
      LinesOfText(f, After(f, k));
    }
  }

  ghost function Terminated(f: seq<Byte>, i: nat): seq<Byte>
    requires i <= |f|
  {
    if i == |f| then [] else if f[|f| - 1] == NEWLINE then f[i..] else f[i..] + [NEWLINE]
  }

  /** The lines, each terminated, spell the text, up to a newline after an unterminated last line. */
  lemma {:induction false} LinesSpellText(f: seq<Byte>, i: nat)
    requires i <= |f|
    ensures Unlines(LinesFrom(f, i)) == Terminated(f, i)
    decreases |f| - i
  {
    if i < |f| {
      var k := IndexOf(f, NEWLINE, i);
      var rest := LinesFrom(f, After(f, k));
      assert LinesFrom(f, i) == [f[i..k]] + rest;
      hide LinesFrom, Unlines, Terminated, After;
      UnlinesCons(f[i..k], rest);
      LinesSpellText(f, After(f, k));
      Splice(f, i, k);
    }
  }

  lemma Splice(f: seq<Byte>, i: nat, k: nat)
    requires i <= k <= |f| && i < |f| && (k < |f| ==> f[k] == NEWLINE) && forall j :: i <= j < k ==> f[j] != NEWLINE
    ensures f[i..k] + [NEWLINE] + Terminated(f, After(f, k)) == Terminated(f, i)
  {
    if k == |f| {
      assert f[i..k] + [NEWLINE] + [] == f[i..] + [NEWLINE];
    } else if k + 1 == |f| {
      assert f[i..k] + [NEWLINE] + [] == f[i..];
    } else {
      var tail := if f[|f| - 1] == NEWLINE then [] else [NEWLINE];
      assert Terminated(f, k + 1) == f[k + 1..] + tail;
      assert f[i..] + tail == f[i..k] + [NEWLINE] + (f[k + 1..] + tail);
    }
  }
}
