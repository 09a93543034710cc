/** The read-only block file system: directory lookup, block reads, and what sequences of reads deliver. */
module FileSystem {
  import opened Bytes

  const BLOCK := 4096
  const MAX_FILENAME := 32
  const MAX_FILECOUNT := 63
  const MAX_DATA_BLOCK := 1023

  datatype Dentry = Dentry(name: seq<Byte>, kind: int, inode: int)

  /** A file's length in bytes and its table of block numbers. */
  datatype Inode = Inode(length: nat, table: seq<int>)

  /** The boot block's directory, the inodes and the data blocks. */
  datatype Image = Image(dirEntries: nat, entries: seq<Dentry>, inodes: seq<Inode>, blocks: seq<seq<Byte>>)

  ghost predicate WellFormed(img: Image) {
    && |img.entries| == MAX_FILECOUNT && img.dirEntries <= MAX_FILECOUNT
    && (forall i :: 0 <= i < MAX_FILECOUNT ==> |img.entries[i].name| == MAX_FILENAME)
    && (forall i :: 0 <= i < |img.inodes| ==> |img.inodes[i].table| == MAX_DATA_BLOCK)
    && (forall b :: 0 <= b < |img.blocks| ==> |img.blocks[b]| == BLOCK)
  }

  // ----- reading blocks -----

  ghost predicate ValidBlock(img: Image, ino: Inode, i: int) {
    0 <= i < |ino.table| && 0 <= ino.table[i] < |img.blocks|
  }

  /** Every block that holds a byte of `from..to` exists. */
  ghost predicate Spans(img: Image, ino: Inode, from: int, to: int) {
    forall i :: from / BLOCK <= i && i * BLOCK < to ==> ValidBlock(img, ino, i)
  }

  /** Byte `k` of the inode's blocks, in the order of its table, whether or not the file is that long. */
  ghost function StreamByte(img: Image, ino: Inode, k: nat): Byte
    requires WellFormed(img)
  {
    if ValidBlock(img, ino, k / BLOCK) then img.blocks[ino.table[k / BLOCK]][k % BLOCK] else NUL
  }

  ghost function Stream(img: Image, ino: Inode, from: nat, to: nat): (r: seq<Byte>)
    requires WellFormed(img) && from <= to
    ensures |r| == to - from
  {
    seq<Byte>(to - from, j requires 0 <= j < to - from => StreamByte(img, ino, from + j))
  }

  ghost function Contents(img: Image, ino: Inode): seq<Byte>
    requires WellFormed(img)
  {
    Stream(img, ino, 0, ino.length)
  }

  ghost function Min(a: int, b: int): int {
    if a < b then a else b
  }

  /** Whether the last block that the request touches starts inside the file, or right at its end. */
  ghost predicate Qualifies(fileLength: nat, offset: nat, length: nat) {
    (offset + length) / BLOCK * BLOCK <= fileLength
  }

  /** Where a read that starts inside the file stops. */
  ghost function ReadEnd(fileLength: nat, offset: nat, length: nat): nat {
    if Qualifies(fileLength, offset, length) then Min(offset + length, fileLength)
    else (offset + length) / BLOCK * BLOCK
  }

  /** A read never stops behind the request, always delivers what the file has of it, and stops at the end of the file
      or of the request if and only if the request qualifies; otherwise it runs over the end of the file, up to the
      last block that the request touches. */
  lemma ReadEndMeaning(fileLength: nat, offset: nat, length: nat)
    requires offset < fileLength
    ensures var e := ReadEnd(fileLength, offset, length);
      && Min(offset + length, fileLength) <= e <= offset + length
      && (e == Min(offset + length, fileLength) <==> Qualifies(fileLength, offset, length))
      && (!Qualifies(fileLength, offset, length) ==> e % BLOCK == 0 && e <= offset + length < e + BLOCK)
      && (length > 0 <==> e > offset)
  {
  }

  lemma BlockAddress(i: int, r: int)
    requires 0 <= r < BLOCK
    ensures (i * BLOCK + r) / BLOCK == i && (i * BLOCK + r) % BLOCK == r
  {
  }

  /** The position behind a read. A read at the end of the file or behind it delivers nothing, and neither does one
      whose end wraps around 32 bits. */
  ghost function Advance(fileLength: nat, position: nat, length: nat): (r: nat)
    ensures position <= r
  {
    if position >= fileLength || position + length >= TWO_32 then position else ReadEnd(fileLength, position, length)
  }

  /** The end of the request wraps around into the block where the request starts. The number of bytes to copy is
      negative then. */
  ghost predicate WrapsIntoBlock(offset: nat, length: nat) {
    offset + length >= TWO_32 && (offset + length - TWO_32) / BLOCK == offset / BLOCK
  }

  /** What a read needs of memory: blocks that exist, room for what it delivers, and no negative copy. */
  ghost predicate ReadAllowed(img: Image, ino: Inode, offset: nat, length: nat, room: nat) {
    && Spans(img, ino, offset, Advance(ino.length, offset, length))
    && Advance(ino.length, offset, length) - offset <= room
    && (offset < ino.length ==> !WrapsIntoBlock(offset, length))
  }

  /** Copies the inode's block stream from the offset on. A null buffer or a bad inode gives -1. */
  method ReadData(img: Image, inode: nat, offset: nat, buf: array?<Byte>, length: nat) returns (r: int)
    requires WellFormed(img) && offset < TWO_32 && length < TWO_32
    requires buf != null && inode < |img.inodes| ==> ReadAllowed(img, img.inodes[inode], offset, length, buf.Length)
    modifies buf
    ensures buf == null || inode >= |img.inodes| ==> r == -1 && (buf != null ==> buf[..] == old(buf[..]))
    ensures buf != null && inode < |img.inodes| ==>
      var ino := img.inodes[inode];
      && r == Advance(ino.length, offset, length) - offset && 0 <= r <= length && r <= buf.Length
      && buf[..] == Stream(img, ino, offset, offset + r) + old(buf[..])[r..]
  {
    hide StreamByte;
    var firstBlock := offset / BLOCK;
    var sum := (offset + length) % TWO_32;
    var lastBlock := sum / BLOCK;
    if buf == null {
      return -1;
    }
    if inode >= |img.inodes| {
      return -1;
    }
    var ino := img.inodes[inode];
    var clamped := length;
    if sum > ino.length {
      clamped := (ino.length - offset) % TWO_32;
    }
    if offset >= ino.length {
      return 0;
    }
    RequestEnd(ino.length, offset, length);
    r := CopyBlocks(img, ino, offset, clamped, lastBlock, buf, Advance(ino.length, offset, length));
  }

  /** The last block of a request that starts inside the file. One that wraps around, but not into its own block,
      touches no block at all. */
  lemma RequestEnd(fileLength: nat, offset: nat, length: nat)
    requires offset < fileLength && offset < TWO_32 && length < TWO_32 && !WrapsIntoBlock(offset, length)
    ensures var sum := (offset + length) % TWO_32; var end := Advance(fileLength, offset, length);
      EndsIn(fileLength, offset, if sum > fileLength then (fileLength - offset) % TWO_32 else length, sum / BLOCK, end)
      && end <= offset + length
  {
    var end := Advance(fileLength, offset, length);
    if offset + length >= TWO_32 {
      var sum := offset + length - TWO_32;
      assert (offset + length) % TWO_32 == sum < offset;
    } else {
      ReadEndMeaning(fileLength, offset, length);
      BlockAddress((offset + length) / BLOCK, (offset + length) % BLOCK);
      if Qualifies(fileLength, offset, length) {
        BlockAddress((offset + length) / BLOCK, end - (offset + length) / BLOCK * BLOCK);
      }
    }
  }

  /** What the block loop relies on: whether the last block counts, and where it ends. */
  ghost predicate EndsIn(fileLength: nat, offset: nat, length: nat, lastBlock: nat, end: nat) {
    offset <= end &&
    if lastBlock < offset / BLOCK then end == offset
    else if lastBlock * BLOCK > fileLength then end == lastBlock * BLOCK
    else end == offset + length && end / BLOCK == lastBlock
  }

  /** The loop over the blocks. */
  method CopyBlocks(img: Image, ino: Inode, offset: nat, length: nat, lastBlock: nat, buf: array<Byte>, ghost end: nat)
    returns (bytesCopied: int)
    requires WellFormed(img) && offset < ino.length && EndsIn(ino.length, offset, length, lastBlock, end)
    requires Spans(img, ino, offset, end) && end - offset <= buf.Length
    modifies buf
    ensures bytesCopied == end - offset && buf[..] == Stream(img, ino, offset, end) + old(buf[..])[bytesCopied..]
  {
    hide StreamByte;
    ghost var before := buf[..];
    var firstBlock := offset / BLOCK;
    bytesCopied := 0;
    var i := firstBlock;
    while i <= lastBlock
      invariant firstBlock <= i && (i <= lastBlock + 1 || i == firstBlock > lastBlock)
      invariant bytesCopied == (if i == firstBlock then offset else if i <= lastBlock then i * BLOCK else end) - offset
      invariant offset + bytesCopied <= end
      invariant forall j :: 0 <= j < bytesCopied ==> buf[j] == StreamByte(img, ino, offset + j)
      invariant forall j :: bytesCopied <= j < buf.Length ==> buf[j] == before[j]
    {
      var startOffset := 0;
      var endOffset := BLOCK;
      if i == firstBlock {
        startOffset := offset % BLOCK;
      }
      if i == lastBlock {
        if lastBlock * BLOCK > ino.length {
          break;
        }
        endOffset := (offset + length) % BLOCK;
        assert end == lastBlock * BLOCK + endOffset;
      }
      var len := endOffset - startOffset;
      assert offset + bytesCopied == i * BLOCK + startOffset;
      if len > 0 {
        CopyBlock(img, ino, i, buf, bytesCopied, startOffset, len);
      }
      bytesCopied := bytesCopied + len;
      i := i + 1;
    }
  }

  /** Copies part of the inode's `i`-th block into the buffer. */
  method CopyBlock(img: Image, ino: Inode, i: nat, buf: array<Byte>, at: nat, start: nat, len: nat)
    requires WellFormed(img) && ValidBlock(img, ino, i)
    requires at + len <= buf.Length && start + len <= BLOCK
    modifies buf
    ensures forall j :: 0 <= j < buf.Length ==>
      buf[j] == if at <= j < at + len then StreamByte(img, ino, i * BLOCK + start + j - at) else old(buf[j])
  {
    var block := img.blocks[ino.table[i]];
    forall j | 0 <= j < len {
      buf[at + j] := block[start + j];
    }
    forall j | at <= j < at + len ensures buf[j] == StreamByte(img, ino, i * BLOCK + start + j - at) {
      BlockAddress(i, start + j - at);
    }
  }
}
