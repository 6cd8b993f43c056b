/** `SYS::exec`: replaces the program of the calling process.  The path is
    looked up and the ELF header checked first; only then is the user half
    of the address space dropped, the argument frame built at the top of
    the new stack and the segments loaded.  The user memory of the caller
    is the flat `Memory`; dropping the user half is `ClearUser`, which
    leaves every user address reading zero, as a freshly mapped page does. */
module ExecCall {
  import opened Machine
  import opened FileSystem
  import opened Elf
  import opened CString
  import opened ExecStack
  import AddressSpace

  /** `clear_private` seen through flat memory: the user half is gone, the
      kernel half is kept. */
  function ClearUser(mem: Memory): (m': Memory)
    ensures forall a: U32 :: a < USER_BASE ==> ByteAt(m', a) == ByteAt(mem, a)
    ensures forall a: U32 :: USER_BASE <= a ==> ByteAt(m', a) == 0
  {
    map a | a in mem && a < USER_BASE :: mem[a]
  }

  /** The page an address lies in: directory index from the top ten bits,
      table index from the next ten. */
  function PageOf(a: U32): AddressSpace.Page {
    AddressSpace.Page(a / 0x40_0000, (a / 0x1000) % 0x400)
  }

  /** Dropping the private pages is dropping exactly the user half: an
      address is in a private page exactly when it is a user address. */
  lemma PrivateIffUser(a: U32)
    ensures AddressSpace.IsPrivate(PageOf(a)) <==> USER_BASE <= a
  {
    var d := a / 0x40_0000;
    assert d < 0x400;
    assert USER_BASE <= a ==> 0x200 <= d;
    assert a < USER_BASE ==> d < 0x200;
  }

  /** Dropping the user half twice drops nothing more. */
  lemma ClearUserIdempotent(mem: Memory)
    ensures ClearUser(ClearUser(mem)) == ClearUser(mem)
  {
    var once := ClearUser(mem);
    assert ClearUser(once).Keys == once.Keys;
  }

  /** Every check exec makes before it destroys anything: the path names a
      regular file whose header the loader accepts. */
  predicate Runnable(fs: Fs, path: seq<Byte>) {
    && Find(fs, path).Some?
    && Find(fs, path).value.kind == RegularNode
    && HeaderOk(ReadHeader(Find(fs, path).value))
  }

  datatype ExecResult =
    | Refused                                     // -1; nothing has been touched
    | Panicked                                    // a loadable segment was refused: kernel panic
    | Started(entry: U32, sp: U32, mem: Memory)   // `switchToUser(entry, sp, 0)`

  /** `SYS::exec(path, argc, argv)` on already copied argument strings. */
  function Exec(cfg: Config, fs: Fs, path: seq<Byte>, argv: seq<seq<Byte>>, mem: Memory): (r: ExecResult)
    requires ArgsOk(argv)
    ensures r.Refused? <==> !Runnable(fs, path)
    ensures !r.Refused? ==>
      var node := Find(fs, path).value;
      var h := ReadHeader(node);
      var img := BuildStack(argv, ClearUser(mem));
      && (r.Started? <==> SegmentsFrom(cfg, node, h, 0, img.mem).Some?)
      && (r.Started? ==> r == Started(h.entry, img.sp, SegmentsFrom(cfg, node, h, 0, img.mem).value))
  {
    match Find(fs, path)
    case None => Refused
    case Some(node) =>
      if node.kind != RegularNode then Refused
      else
        var h := ReadHeader(node);
        if !MagicOk(h) || !IdentOk(h) || !TypeOk(h) || h.phoff == 0 then Refused
        else
          var img := BuildStack(argv, ClearUser(mem));
          RunningOffsetIsDirect(cfg, node, h, 0, h.phoff, img.mem);
          var loaded := Load(cfg, Some(node), img.mem);
          if loaded.Loaded? then Started(loaded.entry, img.sp, loaded.mem) else Panicked
  }

  /** A program without program headers starts at its entry point with the
      memory exec built and nothing loaded over it. */
  lemma ExecWithoutSegments(cfg: Config, fs: Fs, path: seq<Byte>, argv: seq<seq<Byte>>, mem: Memory)
    requires ArgsOk(argv)
    requires Runnable(fs, path) && ReadHeader(Find(fs, path).value).phnum == 0
    ensures var img := BuildStack(argv, ClearUser(mem));
      Exec(cfg, fs, path, argv, mem) == Started(ReadHeader(Find(fs, path).value).entry, img.sp, img.mem)
  {
    hide Exec, BuildStack, ClearUser, ReadHeader;
    var img := BuildStack(argv, ClearUser(mem));
    var node := Find(fs, path).value;
    assert SegmentsFrom(cfg, node, ReadHeader(node), 0, img.mem) == Some(img.mem);
  }

  /** A program without program headers starts with exactly the frame exec
      built: `argc` at the stack pointer, then the argument array, each
      entry of which points at a copy of the corresponding argument, then
      a null entry. */
  lemma ExecPassesArguments(cfg: Config, fs: Fs, path: seq<Byte>, argv: seq<seq<Byte>>, mem: Memory)
    requires ArgsOk(argv) && Fits(argv)
    requires Runnable(fs, path) && ReadHeader(Find(fs, path).value).phnum == 0
    ensures var r := Exec(cfg, fs, path, argv, mem);
      && r.Started?
      && r.entry == ReadHeader(Find(fs, path).value).entry
      && ReadWord(r.mem, r.sp) == |argv|
      && ReadWord(r.mem, Wrap(r.sp + 4)) == Wrap(r.sp + 8)
      && (forall i :: 0 <= i < |argv| ==> CStr(r.mem, ReadWord(r.mem, Wrap(r.sp + 8 + 4 * i))) == Some(argv[i]))
      && ReadWord(r.mem, Wrap(r.sp + 8 + 4 * |argv|)) == 0
  {
    hide Exec, BuildStack, ClearUser, ReadWord, CStr, ReadHeader, Wrap, Runnable, Fits, ArgsOk;
    var cleared := ClearUser(mem);
    var img := BuildStack(argv, cleared);
    ExecWithoutSegments(cfg, fs, path, argv, mem);
    StackWords(argv, cleared);
    forall i | 0 <= i < |argv|
      ensures CStr(img.mem, ReadWord(img.mem, Wrap(img.sp + 8 + 4 * i))) == Some(argv[i])
    {
      StackStrings(argv, cleared, i);
    }
  }
}
