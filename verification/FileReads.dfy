/** Sequences of reads of one open file, as programs make them. */
module FileReads {
  import opened Bytes
  import opened FileSystem

  /** Reads at the stored position and moves it past what was delivered. */
  method FileRead(img: Image, inode: nat, offset: nat, buf: array?<Byte>, len: nat) returns (result: int, offset': nat)
    requires WellFormed(img) && offset < TWO_32 && len < TWO_32
    requires buf != null && inode < |img.inodes| ==> ReadAllowed(img, img.inodes[inode], offset, len, buf.Length)
    modifies buf
    ensures buf == null || inode >= |img.inodes| ==> result == -1 && offset' == offset
    ensures buf != null && inode >= |img.inodes| ==> buf[..] == old(buf[..])
    ensures buf != null && inode < |img.inodes| ==>
      && offset' == Advance(img.inodes[inode].length, offset, len) && result == offset' - offset <= buf.Length
      && buf[..] == Stream(img, img.inodes[inode], offset, offset') + old(buf[..])[offset' - offset..]
  {
    result := ReadData(img, inode, offset, buf, len);
    offset' := if result > 0 then offset + result else offset;
  }

  // ----- runs of reads -----

  ghost function PositionAfter(fileLength: nat, position: nat, lengths: seq<nat>): (r: nat)
    ensures position <= r
    decreases |lengths|
  {
    if lengths == [] then position
    else PositionAfter(fileLength, Advance(fileLength, position, lengths[0]), lengths[1..])
  }

  /** The chunks that the reads deliver, put together. */
  ghost function Delivered(img: Image, ino: Inode, position: nat, lengths: seq<nat>): seq<Byte>
    requires WellFormed(img)
    decreases |lengths|
  {
    if lengths == [] then []
    else
      var next := Advance(ino.length, position, lengths[0]);
      Stream(img, ino, position, next) + Delivered(img, ino, next, lengths[1..])
  }

  /** Every read of the run that starts inside the file qualifies. */
  ghost predicate AllQualify(fileLength: nat, position: nat, lengths: seq<nat>)
    decreases |lengths|
  {
    lengths == [] ||
    ((position < fileLength && position + lengths[0] < TWO_32 ==> Qualifies(fileLength, position, lengths[0]))
     && AllQualify(fileLength, Advance(fileLength, position, lengths[0]), lengths[1..]))
  }

  /** No read of the run that starts inside the file wraps around into its own block, where the copy would have a
      negative length. */
  ghost predicate AllPossible(fileLength: nat, position: nat, lengths: seq<nat>)
    decreases |lengths|
  {
    lengths == [] ||
    ((position < fileLength ==> !WrapsIntoBlock(position, lengths[0]))
     && AllPossible(fileLength, Advance(fileLength, position, lengths[0]), lengths[1..]))
  }

  lemma StreamSplit(img: Image, ino: Inode, a: nat, b: nat, c: nat)
    requires WellFormed(img) && a <= b <= c
    ensures Stream(img, ino, a, b) + Stream(img, ino, b, c) == Stream(img, ino, a, c)
  {
  }

  lemma {:induction false} DeliversStream(img: Image, ino: Inode, position: nat, lengths: seq<nat>)
    requires WellFormed(img)
    ensures Delivered(img, ino, position, lengths)
      == Stream(img, ino, position, PositionAfter(ino.length, position, lengths))
    decreases |lengths|
  {
    if lengths != [] {
      var next := Advance(ino.length, position, lengths[0]);
      DeliversStream(img, ino, next, lengths[1..]);
      StreamSplit(img, ino, position, next, PositionAfter(ino.length, next, lengths[1..]));
    }
  }

  lemma {:induction false} StaysInsideIff(fileLength: nat, position: nat, lengths: seq<nat>)
    requires position <= fileLength
    ensures PositionAfter(fileLength, position, lengths) <= fileLength <==> AllQualify(fileLength, position, lengths)
    decreases |lengths|
  {
    if lengths != [] {
      if position < fileLength {
        ReadEndMeaning(fileLength, position, lengths[0]);
      }
      var next := Advance(fileLength, position, lengths[0]);
      if next <= fileLength {
        StaysInsideIff(fileLength, next, lengths[1..]);
      }
    }
  }

  /** Whatever possible lengths are asked for, the chunks read from the start make up the block stream up to the
      stored position. They are a prefix of the file, of that length, if and only if every read qualifies. */
  lemma SequentialReading(img: Image, ino: Inode, lengths: seq<nat>)
    requires WellFormed(img) && AllPossible(ino.length, 0, lengths)
    ensures var p := PositionAfter(ino.length, 0, lengths);
      && Delivered(img, ino, 0, lengths) == Stream(img, ino, 0, p)
      && (Delivered(img, ino, 0, lengths) <= Contents(img, ino) <==> AllQualify(ino.length, 0, lengths))
      && (AllQualify(ino.length, 0, lengths) ==> Delivered(img, ino, 0, lengths) == Contents(img, ino)[..p])
  {
    var p := PositionAfter(ino.length, 0, lengths);
    DeliversStream(img, ino, 0, lengths);
    StaysInsideIff(ino.length, 0, lengths);
    if p <= ino.length {
      StreamSplit(img, ino, 0, p, ino.length);
    }
  }

  /** Reads of one byte always qualify. */
  lemma {:induction false} SingleBytesQualify(fileLength: nat, position: nat, lengths: seq<nat>)
    requires forall i :: 0 <= i < |lengths| ==> lengths[i] == 1
    ensures AllQualify(fileLength, position, lengths)
    decreases |lengths|
  {
    if lengths != [] {
      SingleBytesQualify(fileLength, Advance(fileLength, position, 1), lengths[1..]);
    }
  }

  /** A read delivers less than it was asked for only where the file has ended, and every later read delivers nothing.
      This is what a program that filters a file chunk by chunk relies on. */
  lemma ShortOnlyAtEnd(fileLength: nat, position: nat, length: nat, lengths: seq<nat>)
    requires position + length < TWO_32
    requires Advance(fileLength, position, length) < position + length
    ensures var next := Advance(fileLength, position, length);
      PositionAfter(fileLength, position, [length] + lengths) == next >= fileLength
  {
    var next := Advance(fileLength, position, length);
    if position < fileLength {
      ReadEndMeaning(fileLength, position, length);
    }
    NothingAfterEnd(fileLength, next, lengths);
    assert ([length] + lengths)[1..] == lengths;
  }

  lemma {:induction false} NothingAfterEnd(fileLength: nat, position: nat, lengths: seq<nat>)
    requires position >= fileLength
    ensures PositionAfter(fileLength, position, lengths) == position
    decreases |lengths|
  {
    if lengths != [] {
      NothingAfterEnd(fileLength, position, lengths[1..]);
    }
  }

  // ----- reading until a read returns nothing -----

  /** The position where reads of a fixed positive length return 0: they end because each one makes progress. */
  ghost function EndPosition(fileLength: nat, position: nat, length: nat): (r: nat)
    requires 0 < length <= TWO_32 - fileLength
    ensures r >= fileLength
    decreases fileLength - position
  {
    if position >= fileLength then position
    else
      ReadEndMeaning(fileLength, position, length);
      EndPosition(fileLength, Advance(fileLength, position, length), length)
  }

  /** The loop of a program that copies a file with reads of one size. */
  method ReadToEnd(img: Image, inode: nat, chunk: nat) returns (content: seq<Byte>)
    requires WellFormed(img) && inode < |img.inodes| && 0 < chunk < TWO_32 - img.inodes[inode].length
    requires var ino := img.inodes[inode]; Spans(img, ino, 0, EndPosition(ino.length, 0, chunk))
    ensures var ino := img.inodes[inode]; content == Stream(img, ino, 0, EndPosition(ino.length, 0, chunk))
  {
    hide Spans, Stream;
    ghost var ino := img.inodes[inode];
    ghost var end := EndPosition(ino.length, 0, chunk);
    EndBounds(ino.length, 0, chunk);
    content := [];
    var position, cnt := 0, 1;
    var buf := new Byte[chunk];
    while cnt != 0
      invariant position <= end == EndPosition(ino.length, position, chunk)
      invariant content == Stream(img, ino, 0, position)
      invariant cnt == 0 ==> position == end
      decreases end - position, cnt
    {
      ghost var before := position;
      ChunkAllowed(img, ino, position, chunk, end);
      cnt, position := FileRead(img, inode, position, buf, chunk);
      StreamSplit(img, ino, 0, before, position);
      content := content + buf[..cnt];
    }
  }

  /** Each read of the loop is allowed, makes progress and stays in front of the end position. */
  lemma ChunkAllowed(img: Image, ino: Inode, position: nat, chunk: nat, end: nat)
    requires 0 < chunk < TWO_32 - ino.length && end == EndPosition(ino.length, position, chunk)
    requires Spans(img, ino, 0, end)
    ensures ReadAllowed(img, ino, position, chunk, chunk)
    ensures var next := Advance(ino.length, position, chunk);
      next <= end == EndPosition(ino.length, next, chunk) && (next == position <==> position == end)
  {
    if position < ino.length {
      ReadEndMeaning(ino.length, position, chunk);
      EndBounds(ino.length, Advance(ino.length, position, chunk), chunk);
    }
  }

  lemma {:induction false} EndBounds(fileLength: nat, position: nat, length: nat)
    requires 0 < length <= TWO_32 - fileLength
    ensures position <= EndPosition(fileLength, position, length)
    ensures position <= fileLength + length ==> EndPosition(fileLength, position, length) <= fileLength + length
    decreases fileLength - position
  {
    if position < fileLength {
      ReadEndMeaning(fileLength, position, length);
      EndBounds(fileLength, Advance(fileLength, position, length), length);
    }
  }

  /** One read of 1024 bytes after `m` others. */
  lemma KilobyteStep(fileLength: nat, m: nat)
    requires fileLength + 1024 <= TWO_32 && 1024 * m < fileLength
    ensures Advance(fileLength, 1024 * m, 1024)
      == if 1024 * (m + 1) <= fileLength || fileLength % BLOCK > BLOCK - 1024 then 1024 * (m + 1) else fileLength
    ensures 1024 * (m + 1) > fileLength && fileLength % BLOCK > BLOCK - 1024 ==>
      1024 * (m + 1) == (fileLength / BLOCK + 1) * BLOCK
  {
    hide Qualifies, ReadEnd;
    var q, r := m / 4, m % 4;
    var end := 1024 * (m + 1);
    if end > fileLength {
      BlockAddress(q, fileLength - q * BLOCK);
    }
    var lastBlock := if r < 3 then q else q + 1;
    BlockAddress(lastBlock, end - lastBlock * BLOCK);
    KilobyteEnd(fileLength, 1024 * m, lastBlock);
  }

  lemma KilobyteEnd(fileLength: nat, position: nat, lastBlock: nat)
    requires (position + 1024) / BLOCK == lastBlock
    ensures ReadEnd(fileLength, position, 1024)
      == if lastBlock * BLOCK <= fileLength then Min(position + 1024, fileLength) else lastBlock * BLOCK
  {
  }

  /** A loop of 1024-byte reads delivers exactly the file if and only if the file does not end in the last quarter of
      a block; there it delivers the rest of that block as well. */
  lemma {:induction false} KilobyteLoop(fileLength: nat, m: nat)
    requires fileLength + 1024 <= TWO_32 && 1024 * m <= fileLength
    ensures EndPosition(fileLength, 1024 * m, 1024)
      == if fileLength % BLOCK > BLOCK - 1024 then (fileLength / BLOCK + 1) * BLOCK else fileLength
    decreases fileLength - 1024 * m
  {
    if 1024 * m < fileLength {
      hide Advance;
      KilobyteStep(fileLength, m);
      if 1024 * (m + 1) <= fileLength {
        KilobyteLoop(fileLength, m + 1);
      }
    } else {
      BlockAddress(m / 4, m % 4 * 1024);
    }
  }

  /** So a program that copies a file in 1024-byte reads prints exactly the file if and only if the file's length
      modulo 4096 is at most 3072. */
  lemma KilobyteCopyIff(img: Image, ino: Inode)
    requires WellFormed(img) && ino.length + 1024 <= TWO_32
    ensures Stream(img, ino, 0, EndPosition(ino.length, 0, 1024)) == Contents(img, ino)
      <==> ino.length % BLOCK <= BLOCK - 1024
  {
    KilobyteLoop(ino.length, 0);
    assert |Contents(img, ino)| == ino.length;
  }
}
