/** Directory lookup and listing. A name field holds 32 bytes and need not be terminated. */
module Directory {
  import opened Bytes
  import opened FileSystem
  import opened KernelStrings

  ghost function Name(img: Image, i: int): (r: seq<Byte>)
    requires WellFormed(img) && 0 <= i < MAX_FILECOUNT
    ensures |r| <= MAX_FILENAME
  {
    CString(img.entries[i].name)
  }

  /** The first entry with a name, or the number of entries. */
  ghost function LookupFrom(img: Image, name: seq<Byte>, i: nat): (r: nat)
    requires WellFormed(img) && i <= MAX_FILECOUNT
    ensures i <= r <= MAX_FILECOUNT
    ensures r < MAX_FILECOUNT ==> Name(img, r) == name
    ensures forall j :: i <= j < r ==> Name(img, j) != name
    decreases MAX_FILECOUNT - i
  {
    if i == MAX_FILECOUNT || Name(img, i) == name then i else LookupFrom(img, name, i + 1)
  }

  ghost function Lookup(img: Image, name: seq<Byte>): nat
    requires WellFormed(img)
  {
    LookupFrom(img, name, 0)
  }

  /** Comparing one byte more than the name's length, or all 32, is comparing the whole names. */
  lemma LongPrefixIsAll(name: seq<Byte>, other: seq<Byte>, n: nat)
    requires |name| <= MAX_FILENAME && |other| <= MAX_FILENAME
    requires n == MAX_FILENAME || n > |name|
    ensures Prefix(name, n) == Prefix(other, n) <==> name == other
  {
  }

  /** Finds the first entry with the given name, although the compare length grows with every entry. Names of more
      than 32 bytes are refused. */
  method ReadDentryByName(img: Image, fname: seq<Byte>) returns (r: int, dentry: Dentry)
    requires WellFormed(img) && NUL in fname
    ensures r == if |CString(fname)| <= MAX_FILENAME && Lookup(img, CString(fname)) < MAX_FILECOUNT then 0 else -1
    ensures r == 0 ==> dentry == img.entries[Lookup(img, CString(fname))]
  {
    dentry := img.entries[0];
    var length := Strlen(fname);
    if length > MAX_FILENAME {
      return -1, dentry;
    }
    ghost var name := CString(fname);
    var i := 0;
    while i < MAX_FILECOUNT
      invariant 0 <= i <= MAX_FILECOUNT
      invariant |name| <= length <= MAX_FILENAME && (i > 0 ==> length == MAX_FILENAME || length > |name|)
      invariant Lookup(img, name) == LookupFrom(img, name, i)
    {
      if length < MAX_FILENAME {
        length := length + 1;
      }
      var c := Strncmp(fname, img.entries[i].name, length);
      LongPrefixIsAll(name, Name(img, i), length);
      if c == 0 {
        return 0, img.entries[i];
      }
      i := i + 1;
    }
    return -1, dentry;
  }

  /** The entry at an index. Looking up its name finds it again if and only if no earlier entry has the same name. */
  method ReadDentryByIndex(img: Image, index: nat) returns (r: int, dentry: Dentry)
    requires WellFormed(img)
    ensures r == if index < img.dirEntries then 0 else -1
    ensures r == 0 ==> dentry == img.entries[index]
    ensures r == 0 ==>
      (Lookup(img, CString(dentry.name)) == index <==> forall j :: 0 <= j < index ==> Name(img, j) != Name(img, index))
  {
    dentry := img.entries[0];
    if index >= img.dirEntries {
      return -1, dentry;
    }
    LookupOwnName(img, index);
    return 0, img.entries[index];
  }

  /** The name of entry `offset`, cut to the buffer. */
  method DirectoryRead(img: Image, offset: nat, buf: array?<Byte>, len: nat) returns (r: int)
    requires WellFormed(img)
    requires buf != null && offset < MAX_FILECOUNT ==> |Prefix(Name(img, offset), len)| <= buf.Length
    modifies buf
    ensures offset >= MAX_FILECOUNT || buf == null ==> r == -1 && (buf != null ==> buf[..] == old(buf[..]))
    ensures offset < MAX_FILECOUNT && buf != null ==>
      var name := Prefix(Name(img, offset), len);
      r == |name| <= buf.Length && buf[..] == name + old(buf[..])[|name|..]
  {
    if offset >= MAX_FILECOUNT {
      return -1;
    }
    if buf == null {
      return -1;
    }
    var n := if len > MAX_FILENAME then MAX_FILENAME else len;
    var name := img.entries[offset].name;
    // a name without a NUL runs on past the field, but `n` is at most 32 then
    var nameLength := |CString(name)|;
    if n > nameLength {
      n := nameLength;
    }
    forall i | 0 <= i < n {
      buf[i] := name[i];
    }
    return n;
  }

  /** Lists one name and moves on unless nothing was delivered. */
  method DirRead(img: Image, offset: nat, buf: array?<Byte>, len: nat) returns (result: int, offset': nat)
    requires WellFormed(img)
    requires buf != null && offset < MAX_FILECOUNT ==> |Prefix(Name(img, offset), len)| <= buf.Length
    modifies buf
    ensures offset >= MAX_FILECOUNT || buf == null ==> result == -1 && offset' == offset
    ensures offset >= MAX_FILECOUNT && buf != null ==> buf[..] == old(buf[..])
    ensures offset < MAX_FILECOUNT && buf != null ==>
      var name := Prefix(Name(img, offset), len);
      result == |name| <= buf.Length && buf[..] == name + old(buf[..])[|name|..]
      && offset' == if name == [] then offset else offset + 1
  {
    result := DirectoryRead(img, offset, buf, len);
    offset' := if result > 0 then offset + 1 else offset;
  }

  /** Looking up the name of an entry finds that entry if and only if no earlier entry has the same name. */
  lemma LookupOwnName(img: Image, i: nat)
    requires WellFormed(img) && i < MAX_FILECOUNT
    ensures Lookup(img, Name(img, i)) == i <==> forall j :: 0 <= j < i ==> Name(img, j) != Name(img, i)
  {
    var r := LookupFrom(img, Name(img, i), 0);
  }

  /** The number of entries before the first one without a name. */
  ghost function NamedFrom(img: Image, i: nat): (r: nat)
    requires WellFormed(img) && i <= MAX_FILECOUNT
    ensures i <= r <= MAX_FILECOUNT
    ensures forall j :: i <= j < r ==> Name(img, j) != []
    ensures r < MAX_FILECOUNT ==> Name(img, r) == []
    decreases MAX_FILECOUNT - i
  {
    if i == MAX_FILECOUNT || Name(img, i) == [] then i else NamedFrom(img, i + 1)
  }

  /** The loop of a program that lists the directory: it reads names until a read delivers none. It gets the names of
      the entries in order, up to the first entry without one. */
  method ListDirectory(img: Image, len: nat) returns (names: seq<seq<Byte>>, last: int)
    requires WellFormed(img) && len >= MAX_FILENAME
    ensures |names| == NamedFrom(img, 0) && forall i :: 0 <= i < |names| ==> names[i] == Name(img, i)
    ensures last == if |names| == MAX_FILECOUNT then -1 else 0
  {
    hide WellFormed, NamedFrom, CString;
    ghost var n := NamedFrom(img, 0);
    var buf := new Byte[len];
    names := [];
    last := 1;
    var offset := 0;
    while last > 0
      invariant offset == |names| <= n
      invariant forall i :: 0 <= i < |names| ==> names[i] == Name(img, i)
      invariant last == 0 ==> offset < MAX_FILECOUNT && Name(img, offset) == []
      invariant last < 0 ==> last == -1 && offset == MAX_FILECOUNT
      decreases MAX_FILECOUNT - offset, last
    {
      ghost var before := offset;
      last, offset := DirRead(img, offset, buf, len);
      if last > 0 {
        assert buf[..last] == Name(img, before);
        names := names + [buf[..last]];
      }
    }
  }

  /** With distinct names, every name that the listing delivers looks up the entry it came from. */
  lemma ListedNamesFound(img: Image, names: seq<seq<Byte>>)
    requires WellFormed(img) && |names| <= MAX_FILECOUNT
    requires forall i :: 0 <= i < |names| ==> names[i] == Name(img, i)
    requires forall i, j :: 0 <= i < j < |names| ==> names[i] != names[j]
    ensures forall i :: 0 <= i < |names| ==> Lookup(img, names[i]) == i
  {
    forall i | 0 <= i < |names| ensures Lookup(img, names[i]) == i {
      LookupOwnName(img, i);
    }
  }
}
