/** Properties of the system calls that relate several calls, or a call to
    the operation it rests on. */
module SyscallFacts {
  import opened Machine
  import opened Handles
  import opened Tables
  import opened FileSystem
  import opened OpenFile
  import opened Processes
  import opened CString
  import opened ExecStack
  import opened Elf
  import opened ExecCall
  import opened Symlinks
  import opened Syscalls

  /** Which argument of a call is a user pointer: the buffer of write and
      read, the status word of wait, the path of execl and open. */
  function PointerSlot(eax: U32): (slot: Option<nat>)
    ensures slot.Some? <==> eax in {1, 8, 9, 10, 12}
  {
    if eax == 1 || eax == 8 || eax == 12 then Some(2)
    else if eax == 9 || eax == 10 then Some(1)
    else None
  }

  /** A pointer argument that fails the user-pointer test makes the call
      return -1 before anything is looked up or changed. */
  lemma BadPointerFails(k: Kernel, eax: U32, esp: U32)
    requires KernelValid(k) && PointerSlot(eax).Some?
    requires !UserPointerOk(k.cfg, Arg(k.mem, esp, PointerSlot(eax).value))
    ensures Dispatch(k, eax, esp) == Return(k, -1)
  {
    hide SysExit, SysWrite, SysSem, SysUp, SysDown, SysClose, SysWait, SysExecl, SysOpen, SysLen, SysRead, SysSeek, Arg;
  }

  /** A descriptor or semaphore handle that names nothing makes write, up,
      down, len, read and seek return -1 with nothing changed. */
  lemma UnresolvableHandleFails(k: Kernel, eax: U32, esp: U32)
    requires KernelValid(k)
    requires eax in {4, 5} ==> GetSemaphore(k.proc, Arg(k.mem, esp, 1)).None?
    requires eax in {1, 11, 12, 13} ==> GetFile(k.proc, Arg(k.mem, esp, 1)).None?
    requires eax in {1, 4, 5, 11, 12, 13}
    ensures Dispatch(k, eax, esp) == Return(k, -1)
  {
    hide SysExit, SysWrite, SysSem, SysUp, SysDown, SysClose, SysWait, SysExecl, SysOpen, SysLen, SysRead, SysSeek, Arg;
  }

  /** The console can be neither read nor sought. */
  lemma ConsoleRefusesReadAndSeek(k: Kernel, eax: U32, esp: U32)
    requires KernelValid(k) && eax in {12, 13}
    requires FileOf(k, Arg(k.mem, esp, 1)) == Some(Console)
    ensures Dispatch(k, eax, esp) == Return(k, -1)
  {
    hide SysExit, SysWrite, SysSem, SysUp, SysDown, SysClose, SysWait, SysExecl, SysOpen, SysLen, SysRead, SysSeek, Arg;
  }

  /** `up` then `down` on the same semaphore: both succeed and the kernel is
      back where it started. */
  lemma UpThenDown(k: Kernel, id: U32)
    requires KernelValid(k) && GetSemaphore(k.proc, id).Some?
    ensures var up := SysUp(k, id);
            up.value == 0 && SysDown(up.k, id) == Return(k, 0)
  {
    var s := GetSemaphore(k.proc, id).value;
    var up := SysUp(k, id);
    assert up.k.objs.sems[s := k.objs.sems[s]] == k.objs.sems;
  }

  /** A successful `down` undone by `up` restores the kernel. */
  lemma DownThenUp(k: Kernel, id: U32)
    requires KernelValid(k) && SysDown(k, id) .Return? && SysDown(k, id).value == 0
    ensures SysUp(SysDown(k, id).k, id) == Return(k, 0)
  {
    var s := GetSemaphore(k.proc, id).value;
    var down := SysDown(k, id);
    assert down.k.objs.sems[s := down.k.objs.sems[s] + 1] == k.objs.sems;
  }

  /** A semaphore made with count 0 puts the first `down` to sleep; after
      one `up` the `down` goes through. */
  lemma NewSemaphoreStartsClosed(k: Kernel)
    requires KernelValid(k) && !Full(k.proc.sems)
    ensures var made := SysSem(k, 0);
            && made.value != -1
            && SysDown(made.k, made.value) == Sleeps
            && SysDown(SysUp(made.k, made.value).k, made.value) == Return(made.k, 0)
  {
    var made := SysSem(k, 0);
    UpThenDown(made.k, made.value);
  }

  /** Closing a semaphore handle makes it unusable for `up`. */
  lemma CloseThenUpFails(k: Kernel, id: U32)
    requires KernelValid(k) && Names(k.proc, SemKind, id)
    ensures var closed := SysClose(k, id);
            closed.value == 0 && SysUp(closed.k, id) == Return(closed.k, -1)
  {
  }

  /** A descriptor from `open` reports the size of the node it was opened on. */
  lemma OpenThenLen(k: Kernel, node: Node)
    requires KernelValid(k) && !Full(k.proc.files)
    ensures var op := InstallFile(k, node);
            SysLen(op.k, op.value) == Return(op.k, |node.data|)
  {
  }

  /** Closing the descriptor `open` returned gives the process its old
      file table back. */
  lemma OpenThenClose(k: Kernel, node: Node)
    requires KernelValid(k) && !Full(k.proc.files)
    ensures var op := InstallFile(k, node);
            var closed := SysClose(op.k, op.value);
            closed.value == 0 && closed.k.proc == k.proc
  {
    var op := InstallFile(k, node);
    var fd := op.value;
    DecodeEncode(FileKind, fd);
    assert Names(op.k.proc, FileKind, fd);
    assert DecodeIndex(SemKind, fd) == -1 && DecodeIndex(ChildKind, fd) == -1;
    assert op.k.proc.files[fd := None] == k.proc.files;
  }

  /** Reading from a fresh descriptor with room for the whole file delivers
      the whole file into the buffer. */
  lemma OpenThenReadAll(k: Kernel, node: Node, buf: U32, n: U32)
    requires KernelValid(k) && !Full(k.proc.files)
    requires UserPointerOk(k.cfg, buf) && |node.data| <= n
    ensures var op := InstallFile(k, node);
            var read := SysRead(op.k, op.value, buf, n);
            && read.value == |node.data|
            && read.k.mem == WriteBytes(k.mem, buf, node.data)
  {
    var op := InstallFile(k, node);
    assert node.data[0 .. |node.data|] == node.data;
  }

  /** Seeking back to where a read started undoes the read, except for the
      bytes it stored in the buffer. */
  lemma SeekUndoesRead(k: Kernel, fd: U32, buf: U32, n: U32)
    requires KernelValid(k) && UserPointerOk(k.cfg, buf)
    requires FileOf(k, fd).Some? && FileOf(k, fd).value.Regular?
    requires FileOf(k, fd).value.ofs.offset < 0x8000_0000
    ensures var start := FileOf(k, fd).value.ofs.offset;
            var read := SysRead(k, fd, buf, n);
            var back := SysSeek(read.k, fd, start);
            back == Return(k.(mem := read.k.mem), start)
  {
    var ref := GetFile(k.proc, fd).value;
    var f := FileOf(k, fd).value.ofs;
    var read := SysRead(k, fd, buf, n);
    assert read.k.objs.files[ref := Regular(f)] == k.objs.files;
  }

  /** A failed `wait` still returns the word at `status`: with a zero there,
      waiting for a child that does not exist reports 0, the success code. */
  lemma FailedWaitReturnsStatusWord(k: Kernel, id: U32, status: U32)
    requires KernelValid(k) && UserPointerOk(k.cfg, status)
    requires !Names(k.proc, ChildKind, id)
    ensures SysWait(k, id, status) == Return(k, ToSigned(ReadWord(k.mem, status)))
    ensures ReadWord(k.mem, status) == 0 ==> SysWait(k, id, status) == Return(k, 0)
  {
  }

  /** What a child passes to `exit` is what its parent's `wait` returns and
      stores at `status`. */
  lemma ExitThenWaitReturnsStatus(k: Kernel, child: Process, id: U32, status: U32, v: U32)
    requires KernelValid(k) && Processes.Valid(child, k.objs)
    requires UserPointerOk(k.cfg, status) && Names(k.proc, ChildKind, id)
    requires k.proc.children[DecodeIndex(ChildKind, id)] == Some(child.output)
    ensures var exited := SysExit(k.(proc := child), v).k;
            var waited := SysWait(k.(objs := exited.objs), id, status);
            && waited.Return? && waited.value == ToSigned(v)
            && ReadWord(waited.k.mem, status) == v
  {
    var exited := SysExit(k.(proc := child), v).k;
    ExitThenWait(k.proc, child, k.objs, id, v);
    ReadWriteWord(k.mem, status, v);
  }

  /** `open` of a path whose symbolic link dangles fails with -1 in the
      intended loop, and nothing changes. */
  lemma OpenDanglingLinkFails(k: Kernel, name: U32)
    requires KernelValid(k) && UserPointerOk(k.cfg, name) && CStr(k.mem, name).Some?
    requires var found := Find(k.fs, CStr(k.mem, name).value);
             found.Some? && Resolve(k.fs, found.value, LinkFuel(k.fs)).Missing?
    ensures SysOpen(k, name) == Return(k, -1)
    ensures ResolveAsWritten(k.fs, Find(k.fs, CStr(k.mem, name).value).value, LinkFuel(k.fs)) == Dereference
  {
    AsWrittenDiffersOnlyOnDangling(k.fs, Find(k.fs, CStr(k.mem, name).value).value, LinkFuel(k.fs));
  }

  /** The argument strings `execl` hands to `exec`, when the scan and
      every string end. */
  predicate ExeclReady(k: Kernel, esp: U32) {
    && UserPointerOk(k.cfg, Arg(k.mem, esp, 1))
    && ScanArgs(k.cfg, ArgvWords(k.mem, esp), 0).Args?
    && CStr(k.mem, Arg(k.mem, esp, 1)).Some?
    && ReadArgs(k.mem, ScanArgs(k.cfg, ArgvWords(k.mem, esp), 0).ptrs).Some?
  }

  /** The path `execl` runs. */
  function ExeclPath(k: Kernel, esp: U32): seq<Byte>
    requires ExeclReady(k, esp)
  {
    CStr(k.mem, Arg(k.mem, esp, 1)).value
  }

  /** The argument strings `execl` passes on. */
  function ExeclArgs(k: Kernel, esp: U32): (args: seq<seq<Byte>>)
    requires ExeclReady(k, esp)
    ensures ArgsOk(args)
    ensures var ptrs := ScanArgs(k.cfg, ArgvWords(k.mem, esp), 0).ptrs;
      |args| == |ptrs| && forall i :: 0 <= i < |ptrs| ==> CStr(k.mem, ptrs[i]) == Some(args[i])
  {
    ReadArgs(k.mem, ScanArgs(k.cfg, ArgvWords(k.mem, esp), 0).ptrs).value
  }

  /** For any runnable program, `execl` ends the way `exec` of its path and
      arguments does: never refused, a panic when a segment is refused, and
      otherwise the started program runs. */
  lemma ExeclRunsExec(k: Kernel, esp: U32)
    requires KernelValid(k) && ExeclReady(k, esp) && Runnable(k.fs, ExeclPath(k, esp))
    ensures var e := Exec(k.cfg, k.fs, ExeclPath(k, esp), ExeclArgs(k, esp), k.mem);
      && !e.Refused?
      && (e.Panicked? ==> SysExecl(k, esp) == Panic)
      && (e.Started? ==> SysExecl(k, esp) == Running(Replaced(k, e.mem), e.entry, e.sp))
  {
  }

  /** With a program that has no program headers, `execl` always starts it. */
  lemma ExeclStartsProgram(k: Kernel, esp: U32)
    requires KernelValid(k) && ExeclReady(k, esp)
    requires Runnable(k.fs, ExeclPath(k, esp)) && ReadHeader(Find(k.fs, ExeclPath(k, esp)).value).phnum == 0
    ensures var e := Exec(k.cfg, k.fs, ExeclPath(k, esp), ExeclArgs(k, esp), k.mem);
            e.Started? && SysExecl(k, esp) == Running(Replaced(k, e.mem), e.entry, e.sp)
  {
    hide Exec, CStr, ReadArgs, ScanArgs, ArgvWords, ReadWord, BuildStack, Arg;
    ExecWithoutSegments(k.cfg, k.fs, ExeclPath(k, esp), ExeclArgs(k, esp), k.mem);
    ExeclRunsExec(k, esp);
  }

  /** The new program's `argc` is the number of pointers the scan found. */
  lemma ExeclArgc(k: Kernel, esp: U32)
    requires KernelValid(k) && ExeclReady(k, esp)
    requires Runnable(k.fs, ExeclPath(k, esp)) && ReadHeader(Find(k.fs, ExeclPath(k, esp)).value).phnum == 0
    requires Fits(ExeclArgs(k, esp))
    ensures var r := SysExecl(k, esp);
      r.Running? && ReadWord(r.k.mem, r.sp) == |ScanArgs(k.cfg, ArgvWords(k.mem, esp), 0).ptrs|
  {
    hide SysExecl, Exec, CStr, ReadArgs, ScanArgs, ArgvWords, ReadWord, BuildStack, Wrap, Arg, Runnable, Fits, ExeclArgs;
    ExeclStartsProgram(k, esp);
    ExecPassesArguments(k.cfg, k.fs, ExeclPath(k, esp), ExeclArgs(k, esp), k.mem);
  }

  /** The new program's `argv[i]` is a copy of the string `userEsp[i + 2]`
      pointed at. */
  lemma ExeclArgument(k: Kernel, esp: U32, i: nat)
    requires KernelValid(k) && ExeclReady(k, esp)
    requires Runnable(k.fs, ExeclPath(k, esp)) && ReadHeader(Find(k.fs, ExeclPath(k, esp)).value).phnum == 0
    requires Fits(ExeclArgs(k, esp))
    requires i < |ScanArgs(k.cfg, ArgvWords(k.mem, esp), 0).ptrs|
    ensures var r := SysExecl(k, esp);
      r.Running? && CStr(r.k.mem, ReadWord(r.k.mem, Wrap(r.sp + 8 + 4 * i))) == CStr(k.mem, Arg(k.mem, esp, i + 2))
  {
    hide SysExecl, Exec, CStr, ReadArgs, ScanArgs, ArgvWords, ReadWord, BuildStack, Wrap, Arg, Runnable, Fits, ExeclArgs;
    var ptrs := ScanArgs(k.cfg, ArgvWords(k.mem, esp), 0).ptrs;
    var args := ExeclArgs(k, esp);
    var e := Exec(k.cfg, k.fs, ExeclPath(k, esp), args, k.mem);
    assert SysExecl(k, esp) == Running(Replaced(k, e.mem), e.entry, e.sp) by {
      ExeclStartsProgram(k, esp);
    }
    assert CStr(e.mem, ReadWord(e.mem, Wrap(e.sp + 8 + 4 * i))) == Some(args[i]) by {
      ExecPassesArguments(k.cfg, k.fs, ExeclPath(k, esp), args, k.mem);
    }
    assert CStr(k.mem, Arg(k.mem, esp, i + 2)) == Some(args[i]) by {
      assert ptrs[i] == ArgvWords(k.mem, esp)[i] == Arg(k.mem, esp, i + 2);
    }
  }

  /** `execl` of a program without program headers starts it with exactly
      the arguments the caller passed: `argc` is the number of argument
      pointers, and for each pointer `userEsp[i + 2]` the new program's
      `argv[i]` is a copy of the string it pointed at. */
  lemma ExeclDeliversArguments(k: Kernel, esp: U32)
    requires KernelValid(k) && ExeclReady(k, esp)
    requires Runnable(k.fs, ExeclPath(k, esp)) && ReadHeader(Find(k.fs, ExeclPath(k, esp)).value).phnum == 0
    requires Fits(ExeclArgs(k, esp))
    ensures var r := SysExecl(k, esp);
      var ptrs := ScanArgs(k.cfg, ArgvWords(k.mem, esp), 0).ptrs;
      && r.Running?
      && ReadWord(r.k.mem, r.sp) == |ptrs|
      && (forall i :: 0 <= i < |ptrs| ==>
            CStr(r.k.mem, ReadWord(r.k.mem, Wrap(r.sp + 8 + 4 * i))) == CStr(k.mem, Arg(k.mem, esp, i + 2)))
  {
    hide SysExecl, Exec, CStr, ReadArgs, ScanArgs, ArgvWords, ReadWord, BuildStack, Wrap, Arg, Runnable, Fits, ExeclArgs;
    ExeclArgc(k, esp);
    forall i | 0 <= i < |ScanArgs(k.cfg, ArgvWords(k.mem, esp), 0).ptrs|
      ensures CStr(SysExecl(k, esp).k.mem, ReadWord(SysExecl(k, esp).k.mem, Wrap(SysExecl(k, esp).sp + 8 + 4 * i)))
        == CStr(k.mem, Arg(k.mem, esp, i + 2))
    {
      ExeclArgument(k, esp, i);
    }
  }
}
