/** The block stream against the blocks on disk: what a text laid out in blocks reads as, and the stream as the blocks
    of the inode's table, joined. */
module FileLayout {
  import opened Bytes
  import opened FileSystem
  import opened FileReads

  /** The piece of a text that belongs into its `i`-th block. */
  ghost function Piece(text: seq<Byte>, i: nat): seq<Byte>
    requires i * BLOCK <= |text|
  {
    if |text| <= (i + 1) * BLOCK then text[i * BLOCK..] else text[i * BLOCK..(i + 1) * BLOCK]
  }

  /** The file holds the text: each of its pieces starts the block that the inode's table names for it. */
  ghost predicate LaidOut(img: Image, ino: Inode, text: seq<Byte>) {
    && ino.length == |text| && |ino.table| == MAX_DATA_BLOCK
    && forall i | 0 <= i && i * BLOCK < |text| ::
         ValidBlock(img, ino, i) && Piece(text, i) <= img.blocks[ino.table[i]]
  }

  lemma TextByte(img: Image, ino: Inode, text: seq<Byte>, k: nat)
    requires WellFormed(img) && LaidOut(img, ino, text) && k < |text|
    ensures StreamByte(img, ino, k) == text[k]
  {
    var i, r := k / BLOCK, k % BLOCK;
    assert k == i * BLOCK + r;
    assert ValidBlock(img, ino, i) && Piece(text, i) <= img.blocks[ino.table[i]];
    assert Piece(text, i)[r] == text[k];
  }

  /** A file that holds a text has it as its contents. */
  lemma ContentsIsText(img: Image, ino: Inode, text: seq<Byte>)
    requires WellFormed(img) && LaidOut(img, ino, text)
    ensures Contents(img, ino) == text
  {
    forall k | 0 <= k < |text| ensures Contents(img, ino)[k] == text[k] {
      TextByte(img, ino, text, k);
    }
  }

  /** A read of it delivers the part that was asked for, as far as the text goes; behind the text comes what the last
      block holds there, and only where the request does not qualify. */
  lemma ReadDeliversText(img: Image, ino: Inode, text: seq<Byte>, offset: nat, length: nat)
    requires WellFormed(img) && LaidOut(img, ino, text) && offset < |text| && offset + length < TWO_32
    ensures var end := Advance(ino.length, offset, length); var textEnd := Min(offset + length, |text|);
      && textEnd <= end
      && Stream(img, ino, offset, end)[..textEnd - offset] == text[offset..textEnd]
      && (end == textEnd <==> Qualifies(ino.length, offset, length))
  {
    ReadEndMeaning(ino.length, offset, length);
    var end, textEnd := Advance(ino.length, offset, length), Min(offset + length, |text|);
    forall j | 0 <= j < textEnd - offset ensures Stream(img, ino, offset, end)[j] == text[offset + j] {
      TextByte(img, ino, text, offset + j);
    }
  }

  ghost predicate AllValid(img: Image, table: seq<int>) {
    forall i :: 0 <= i < |table| ==> 0 <= table[i] < |img.blocks|
  }

  /** The blocks that a table names, one behind the other. */
  ghost function Joined(img: Image, table: seq<int>): (r: seq<Byte>)
    requires WellFormed(img) && AllValid(img, table)
    ensures |r| == |table| * BLOCK
  {
    if table == [] then [] else Joined(img, table[..|table| - 1]) + img.blocks[table[|table| - 1]]
  }

  /** The stream is the blocks of the table, in its order. */
  lemma {:induction false} StreamIsJoined(img: Image, ino: Inode, n: nat)
    requires WellFormed(img) && n <= |ino.table| && AllValid(img, ino.table[..n])
    ensures Stream(img, ino, 0, n * BLOCK) == Joined(img, ino.table[..n])
  {
    if n > 0 {
      var m := n - 1;
      assert ino.table[..n][..m] == ino.table[..m];
      assert ino.table[..n][m] == ino.table[m];
      StreamIsJoined(img, ino, m);
      StreamSplit(img, ino, 0, m * BLOCK, n * BLOCK);
      LastBlock(img, ino, m);
    } else {
      assert ino.table[..0] == [];
    }
  }

  lemma LastBlock(img: Image, ino: Inode, m: nat)
    requires WellFormed(img) && ValidBlock(img, ino, m)
    ensures Stream(img, ino, m * BLOCK, (m + 1) * BLOCK) == img.blocks[ino.table[m]]
  {
    forall j | 0 <= j < BLOCK ensures StreamByte(img, ino, m * BLOCK + j) == img.blocks[ino.table[m]][j] {
      BlockAddress(m, j);
    }
  }

  /** A load of an executable brings the first 512 blocks of its table to memory. */
  lemma LoadIsJoined(img: Image, ino: Inode)
    requires WellFormed(img) && |ino.table| >= 512 && AllValid(img, ino.table[..512])
    ensures Stream(img, ino, 0, 0x200000) == Joined(img, ino.table[..512])
  {
    StreamIsJoined(img, ino, 512);
  }
}
