/** `OpenFileStruct`, the open regular file: a node plus a private byte
    cursor.  Seeking is bounds-checked, reading advances the cursor by what
    was transferred, and writing is refused because the filesystem is
    read-only. */
module OpenFile {
  import opened Machine
  import opened FileSystem

  datatype OpenFileStruct = OpenFileStruct(node: Node, offset: int)

  /** An entry of a file table: the console device or a regular file. */
  datatype FileObj = Console | Regular(ofs: OpenFileStruct)

  /** The cursor never leaves the file. */
  predicate Valid(f: OpenFileStruct) {
    0 <= f.offset <= SizeInBytes(f.node)
  }

  /** The constructor: the cursor starts at the beginning. */
  function Open(node: Node): (f: OpenFileStruct)
    ensures f.node == node && f.offset == 0 && Valid(f)
  {
    OpenFileStruct(node, 0)
  }

  /** `size()`: the node's size, whatever the cursor. */
  function Size(f: OpenFileStruct): (r: nat)
    ensures r == |f.node.data|
  {
    SizeInBytes(f.node)
  }

  /** `isU8250()`: only the console device answers true. */
  predicate IsConsole(fo: FileObj) {
    fo.Console?
  }

  /** `seek(offset)`: returns -1 and keeps the cursor for an offset outside
      `0 .. size`; otherwise moves the cursor there and returns it. */
  function Seek(f: OpenFileStruct, offset: int): (res: (OpenFileStruct, int))
    ensures offset < 0 || offset > Size(f) ==> res == (f, -1)
    ensures 0 <= offset <= Size(f) ==> res.1 == offset && res.0 == f.(offset := offset) && Valid(res.0)
  {
    if offset < 0 then (f, -1)
    else if offset > SizeInBytes(f.node) then (f, -1)
    else (f.(offset := offset), offset)
  }

  datatype ReadResult = ReadResult(file: OpenFileStruct, count: int, bytes: seq<Byte>)

  /** `read(buffer, n)`: transfers what `read_all` delivers from the cursor
      and advances the cursor by that count. */
  function Read(f: OpenFileStruct, n: U32): (r: ReadResult)
    ensures n == 0 ==> r == ReadResult(f, 0, [])
    ensures r.file.node == f.node && r.count == |r.bytes|
    ensures r.file.offset == f.offset + r.count
    ensures Valid(f) ==>
      && Valid(r.file)
      && r.count == (if n < Size(f) - f.offset then n else Size(f) - f.offset)
      && r.bytes == f.node.data[f.offset .. r.file.offset]
  {
    if n == 0 then ReadResult(f, 0, [])
    else
      var bs := ReadAll(f.node, f.offset, n);
      ReadResult(f.(offset := f.offset + |bs|), |bs|, bs)
  }

  /** `write(buffer, n)`: regular files are read-only; the file is left as it is. */
  function Write(f: OpenFileStruct, n: U32): (r: (OpenFileStruct, int))
    ensures r == (f, -1)
  {
    (f, -1)
  }

  /** Seeking twice to the same offset is the same as seeking once. */
  lemma SeekIdempotent(f: OpenFileStruct, offset: int)
    ensures Seek(Seek(f, offset).0, offset) == Seek(f, offset)
  {
  }

  /** After a successful seek to `o`, a read delivers the node's bytes from `o` on. */
  lemma ReadAfterSeek(f: OpenFileStruct, o: int, n: U32)
    requires 0 <= o <= Size(f) && 0 < n
    ensures var r := Read(Seek(f, o).0, n);
            r.bytes == f.node.data[o .. o + r.count] && r.file.offset == o + r.count
  {
  }

  /** Two reads in a row deliver consecutive bytes of the node: together,
      exactly the bytes between the first cursor and the last. */
  lemma {:induction false} ReadsAreConsecutive(f: OpenFileStruct, n1: U32, n2: U32)
    requires Valid(f)
    ensures var r1 := Read(f, n1);
            var r2 := Read(r1.file, n2);
            r1.bytes + r2.bytes == f.node.data[f.offset .. r2.file.offset]
  {
    var r1 := Read(f, n1);
    var r2 := Read(r1.file, n2);
    assert r1.bytes == f.node.data[f.offset .. r1.file.offset];
    assert r2.bytes == f.node.data[r1.file.offset .. r2.file.offset];
  }
}
