/** The filesystem as the kernel consumes it: path lookup and read-only
    nodes.  The ext2 driver behind it is not part of this model; a node is
    represented by its kind and its bytes (for a symbolic link, the bytes
    of the target path). */
module FileSystem {
  import opened Machine

  datatype NodeKind = RegularNode | Directory | Symlink

  datatype Node = Node(kind: NodeKind, data: seq<Byte>)

  /** `find(root, path)`: which node, if any, each path names. */
  datatype Fs = Fs(names: map<seq<Byte>, Node>)

  function Find(fs: Fs, path: seq<Byte>): (r: Option<Node>)
    ensures r.Some? <==> path in fs.names
  {
    if path in fs.names then Some(fs.names[path]) else None
  }

  /** `size_in_bytes()` */
  function SizeInBytes(n: Node): nat {
    |n.data|
  }

  /** `read_all(offset, n, buffer)`: copies the bytes at `offset ..` up to
      `n` of them or the end of the node, whichever comes first; the count
      it returns is the length of what was copied. */
  function ReadAll(node: Node, offset: int, n: nat): (bs: seq<Byte>)
    ensures 0 <= offset <= SizeInBytes(node) ==>
      |bs| == (if n < SizeInBytes(node) - offset then n else SizeInBytes(node) - offset)
      && bs == node.data[offset .. offset + |bs|]
    ensures !(0 <= offset <= SizeInBytes(node)) ==> bs == []
  {
    if 0 <= offset <= |node.data| then
      var end := if n < |node.data| - offset then offset + n else |node.data|;
      node.data[offset .. end]
    else []
  }
}

