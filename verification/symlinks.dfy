/** Symbolic-link resolution as `open` performs it: while the node is a
    link, its target path (the link's bytes, cut at the first NUL because
    the kernel looks the buffer up as a C string) is looked up again.

    `ResolveAsWritten` is the loop exactly as it stands: when a target does
    not exist, the lookup yields a null node whose `is_symlink()` is then
    called.  `Resolve` is the loop as evidently intended, stopping with
    `Missing` there, which the check after the loop turns into -1.  A chain
    of links that never ends makes the kernel spin forever; the model counts
    lookups with `fuel` and reports `Endless` when it runs out. */
module Symlinks {
  import opened Machine
  import opened FileSystem
  import opened CString

  /** The bytes before the first NUL. */
  function UpToNul(s: seq<Byte>): (r: seq<Byte>)
    ensures |r| <= |s| && r == s[..|r|] && NoNul(r)
    ensures |r| < |s| ==> s[|r|] == 0
  {
    if |s| == 0 || s[0] == 0 then [] else [s[0]] + UpToNul(s[1..])
  }

  /** The path a link names: `get_symbol` fills the buffer with the link's
      bytes, a NUL is stored after them, and `find` reads the buffer as a
      C string. */
  function LinkTarget(node: Node): (path: seq<Byte>)
    ensures NoNul(path) && |path| <= |node.data| && path == node.data[..|path|]
    ensures |path| < |node.data| ==> node.data[|path|] == 0
  {
    UpToNul(node.data)
  }

  datatype Resolution =
    | Resolved(node: Node)   // the first node on the chain that is not a link
    | Missing                // some link on the chain names nothing
    | Dereference            // the loop tested a null node
    | Endless                // the chain did not end within the fuel

  /** The loop as the code has it: a dangling link leads to a test of the
      null node. */
  function ResolveAsWritten(fs: Fs, node: Node, fuel: nat): (r: Resolution)
    ensures !r.Missing?
    ensures node.kind != Symlink ==> r == Resolved(node)
    ensures r.Resolved? ==> r.node.kind != Symlink
    decreases fuel
  {
    if node.kind != Symlink then Resolved(node)
    else if fuel == 0 then Endless
    else match Find(fs, LinkTarget(node))
      case None => Dereference
      case Some(next) => ResolveAsWritten(fs, next, fuel - 1)
  }

  /** The loop as intended: a dangling link ends the walk with `Missing`. */
  function Resolve(fs: Fs, node: Node, fuel: nat): (r: Resolution)
    ensures !r.Dereference?
    ensures node.kind != Symlink ==> r == Resolved(node)
    ensures r.Resolved? ==> r.node.kind != Symlink
    decreases fuel
  {
    if node.kind != Symlink then Resolved(node)
    else if fuel == 0 then Endless
    else match Find(fs, LinkTarget(node))
      case None => Missing
      case Some(next) => Resolve(fs, next, fuel - 1)
  }

  /** The fuel every walk in `fs` gets: one more lookup than there are
      names, so the chain has had the chance to visit every node. */
  function LinkFuel(fs: Fs): nat {
    |fs.names| + 1
  }

  /** The two loops agree except where a link dangles: there the code as
      written dereferences null and the intended loop reports `Missing`. */
  lemma {:induction false} AsWrittenDiffersOnlyOnDangling(fs: Fs, node: Node, fuel: nat)
    ensures var w := ResolveAsWritten(fs, node, fuel);
            var r := Resolve(fs, node, fuel);
            (w.Dereference? <==> r.Missing?) && (!w.Dereference? ==> w == r)
    decreases fuel
  {
    if node.kind == Symlink && fuel > 0 {
      match Find(fs, LinkTarget(node))
      case None =>
      case Some(next) => AsWrittenDiffersOnlyOnDangling(fs, next, fuel - 1);
    }
  }

  /** A walk that ends within some fuel ends the same way with more fuel. */
  lemma {:induction false} MoreFuelSameEnd(fs: Fs, node: Node, fuel: nat, more: nat)
    requires !Resolve(fs, node, fuel).Endless?
    requires fuel <= more
    ensures Resolve(fs, node, more) == Resolve(fs, node, fuel)
    decreases fuel
  {
    if node.kind == Symlink {
      match Find(fs, LinkTarget(node))
      case None =>
      case Some(next) => MoreFuelSameEnd(fs, next, fuel - 1, more - 1);
    }
  }

  /** The smallest case of the defect: a single link to a name that does not
      exist. */
  lemma DanglingLinkDereferences(target: seq<Byte>)
    requires NoNul(target)
    ensures var link := Node(Symlink, target);
            var fs := Fs(map[[0x6C] := link]);
            target != [0x6C] ==>
              && ResolveAsWritten(fs, link, LinkFuel(fs)) == Dereference
              && Resolve(fs, link, LinkFuel(fs)) == Missing
  {
    var link := Node(Symlink, target);
    assert UpToNul(target) == target by { UpToNulOfNoNul(target); }
  }

  /** A string without NUL is its own C string. */
  lemma {:induction false} UpToNulOfNoNul(s: seq<Byte>)
    requires NoNul(s)
    ensures UpToNul(s) == s
  {
    if |s| > 0 {
      UpToNulOfNoNul(s[1..]);
      assert s == [s[0]] + s[1..];
    }
  }
}
