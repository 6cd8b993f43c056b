/** `sysHandler`: the system-call dispatcher.  A call arrives with its
    number and the user stack pointer; argument `i` is the word `userEsp[i]`.
    Every pointer argument passes `UserPointerOk` before it is used.  The
    handler either returns a value to the caller (`Return`, with the kernel
    state afterwards) or does not come back: the caller blocks, the kernel
    panics or faults, or control moves to a new program. */
module Syscalls {
  import opened Machine
  import opened Handles
  import opened Tables
  import opened FileSystem
  import opened OpenFile
  import opened Processes
  import opened CString
  import opened ExecStack
  import opened ExecCall
  import opened Symlinks
  import AddressSpace

  /** What a system call works on: the machine configuration, the
      filesystem, the calling process, the shared kernel objects and the
      caller's memory. */
  datatype Kernel = Kernel(cfg: Config, fs: Fs, proc: Process, objs: Objects, mem: Memory)

  /** Every open regular file keeps its cursor inside the file. */
  predicate CursorsValid(o: Objects) {
    forall r :: r in o.files && o.files[r].Regular? ==> OpenFile.Valid(o.files[r].ofs)
  }

  predicate KernelValid(k: Kernel) {
    Processes.Valid(k.proc, k.objs) && CursorsValid(k.objs)
  }

  datatype Outcome =
    | Return(k: Kernel, value: int)            // the handler returns `value` to the caller
    | Sleeps                                   // the caller sleeps on a semaphore or a future
    | Device                                   // handed to the console driver
    | Exited(k: Kernel)                        // exit: the future is set and the thread stops
    | Forking                                  // fork: handed to `Processes.Fork`
    | PowerOff                                 // shutdown
    | Running(k: Kernel, entry: U32, sp: U32)  // exec succeeded: the new program runs
    | Panic                                    // `Debug::panic`
    | Fault                                    // a user string never ends
    | Loops                                    // a cycle of symbolic links

  /** `userEsp[i]` */
  function Arg(mem: Memory, esp: U32, i: nat): U32 {
    ReadWord(mem, Wrap(esp + 4 * i))
  }

  /** The file object a descriptor names. */
  function FileOf(k: Kernel, fd: U32): (r: Option<FileObj>)
    requires KernelValid(k)
    ensures r.Some? <==> GetFile(k.proc, fd).Some?
    ensures r.Some? ==> GetFile(k.proc, fd).value in k.objs.files
  {
    match GetFile(k.proc, fd)
    case None => None
    case Some(ref) => Some(k.objs.files[ref])
  }

  /** The kernel with the file object behind `ref` replaced. */
  function SetFileObj(k: Kernel, ref: Ref, fo: FileObj): Kernel {
    k.(objs := k.objs.(files := k.objs.files[ref := fo]))
  }

  // ---------------------------------------------------------------- write

  /** Call 1, `write(fd, buf, n)`: the buffer is checked first, then the
      descriptor; a regular file refuses every write, the console takes it. */
  function SysWrite(k: Kernel, fd: U32, buf: U32, n: U32): (r: Outcome)
    requires KernelValid(k)
    ensures r.Device? <==> UserPointerOk(k.cfg, buf) && FileOf(k, fd) == Some(Console)
    ensures !r.Device? ==> r == Return(k, -1)
  {
    if !UserPointerOk(k.cfg, buf) then Return(k, -1)
    else match FileOf(k, fd)
      case None => Return(k, -1)
      case Some(Console) => Device
      case Some(Regular(f)) => Return(k, Write(f, n).1)
  }

  // ---------------------------------------------------------- semaphores

  /** Call 3, `sem(init)`: a new semaphore with count `init`, named by the
      returned handle; -1 with nothing changed when the table is full. */
  function SysSem(k: Kernel, init: U32): (r: Outcome)
    requires KernelValid(k)
    ensures r.Return? && KernelValid(r.k) && r.k.mem == k.mem
    ensures r.k == k.(proc := r.k.proc, objs := r.k.objs)
    ensures r.value == -1 <==> Full(k.proc.sems)
    ensures r.value == -1 ==> r.k == k
    ensures r.value != -1 ==>
      && 0 <= r.value < WORD_LIMIT
      && var i := DecodeIndex(SemKind, r.value);
      && 0 <= i < NSEM && r.value == Encode(SemKind, i)
      && k.proc.sems[i].None? && (forall j :: 0 <= j < i ==> k.proc.sems[j].Some?)
      && var s := GetSemaphore(r.k.proc, r.value);
      && s.Some? && s.value !in k.objs.sems && r.k.objs.sems == k.objs.sems[s.value := init]
      && r.k.proc == k.proc.(sems := k.proc.sems[i := s])
      && r.k.objs.files == k.objs.files && r.k.objs.futures == k.objs.futures
  {
    var (p, o, id) := NewSemaphore(k.proc, k.objs, init);
    Return(k.(proc := p, objs := o), ToSigned(id))
  }

  /** Call 4, `up(id)`: adds one to the semaphore `id` names. */
  function SysUp(k: Kernel, id: U32): (r: Outcome)
    requires KernelValid(k)
    ensures r.Return? && KernelValid(r.k)
    ensures GetSemaphore(k.proc, id).None? ==> r == Return(k, -1)
    ensures GetSemaphore(k.proc, id).Some? ==>
      var s := GetSemaphore(k.proc, id).value;
      && r.value == 0
      && r.k == k.(objs := r.k.objs)
      && r.k.objs == k.objs.(sems := r.k.objs.sems)
      && r.k.objs.sems.Keys == k.objs.sems.Keys
      && r.k.objs.sems[s] == k.objs.sems[s] + 1
      && (forall t :: t in k.objs.sems && t != s ==> r.k.objs.sems[t] == k.objs.sems[t])
  {
    match GetSemaphore(k.proc, id)
    case None => Return(k, -1)
    case Some(s) =>
      var sems := k.objs.sems[s := k.objs.sems[s] + 1];
      Return(k.(objs := k.objs.(sems := sems)), 0)
  }

  /** Call 5, `down(id)`: takes one from the semaphore `id` names; at zero
      the caller blocks instead. */
  function SysDown(k: Kernel, id: U32): (r: Outcome)
    requires KernelValid(k)
    ensures r.Return? || r.Sleeps?
    ensures r.Return? ==> KernelValid(r.k)
    ensures GetSemaphore(k.proc, id).None? ==> r == Return(k, -1)
    ensures GetSemaphore(k.proc, id).Some? ==>
      var s := GetSemaphore(k.proc, id).value;
      && (r.Sleeps? <==> k.objs.sems[s] == 0)
      && (r.Return? ==>
            && r.value == 0
            && r.k == k.(objs := r.k.objs)
            && r.k.objs == k.objs.(sems := r.k.objs.sems)
            && r.k.objs.sems.Keys == k.objs.sems.Keys
            && r.k.objs.sems[s] + 1 == k.objs.sems[s]
            && (forall t :: t in k.objs.sems && t != s ==> r.k.objs.sems[t] == k.objs.sems[t]))
  {
    match GetSemaphore(k.proc, id)
    case None => Return(k, -1)
    case Some(s) =>
      if k.objs.sems[s] == 0 then Sleeps
      else
        var sems := k.objs.sems[s := k.objs.sems[s] - 1];
        Return(k.(objs := k.objs.(sems := sems)), 0)
  }

  // --------------------------------------------------------------- close

  /** Call 6, `close(id)`: empties the one slot `id` names. */
  function SysClose(k: Kernel, id: U32): (r: Outcome)
    requires KernelValid(k)
    ensures r.Return? && KernelValid(r.k)
    ensures r.k.objs == k.objs && r.k.mem == k.mem
    ensures r.k == k.(proc := Close(k.proc, id).0)
    ensures r.value == 0 <==> Names(k.proc, SemKind, id) || Names(k.proc, ChildKind, id) || Names(k.proc, FileKind, id)
    ensures r.value != 0 ==> r == Return(k, -1)
  {
    var (p, v) := Close(k.proc, id);
    Return(k.(proc := p), v)
  }

  // ---------------------------------------------------------------- wait

  /** Call 8, `wait(id, status)`: collects the child's exit value into
      `*status` and returns `*status` — whatever `Process::wait` did, so a
      failed wait returns the word the caller's buffer already held. */
  function SysWait(k: Kernel, id: U32, status: U32): (r: Outcome)
    requires KernelValid(k)
    ensures r.Return? || r.Sleeps?
    ensures r.Return? ==> KernelValid(r.k) && r.k.objs == k.objs
    ensures !UserPointerOk(k.cfg, status) ==> r == Return(k, -1)
    ensures UserPointerOk(k.cfg, status) ==>
      var w := Wait(k.proc, k.objs, id);
      && (r.Sleeps? <==> w.Blocked?)
      && (r.Return? ==> r.value == ToSigned(ReadWord(r.k.mem, status)))
      && (w.NoChild? ==> r.k == k)
      && (w.Collected? ==> r.k.proc == w.p && r.value == ToSigned(w.status))
      && (w.Collected? ==> r.k == k.(proc := w.p, mem := WriteWord(k.mem, status, w.status)))
  {
    if !UserPointerOk(k.cfg, status) then Return(k, -1)
    else match Wait(k.proc, k.objs, id)
      case NoChild(_) => Return(k, ToSigned(ReadWord(k.mem, status)))
      case Blocked => Sleeps
      case Collected(p, v) =>
        var m := WriteWord(k.mem, status, v);
        ReadWriteWord(k.mem, status, v);
        Return(k.(proc := p, mem := m), ToSigned(ReadWord(m, status)))
  }

  // --------------------------------------------------------------- execl

  /** The most arguments `execl` accepts, one less than its buffer. */
  const MAX_ARGS: nat := 99

  /** `userEsp[2]` .. `userEsp[100]`: the words the scan of `execl` can
      look at before it reaches its cap. */
  function ArgvWords(mem: Memory, esp: U32): (ws: seq<U32>)
    ensures |ws| == MAX_ARGS && forall j :: 0 <= j < MAX_ARGS ==> ws[j] == Arg(mem, esp, j + 2)
  {
    seq(MAX_ARGS, j requires 0 <= j < MAX_ARGS => Arg(mem, esp, j + 2))
  }

  /** Argument word `w` is a non-null pointer that passes the user-pointer test. */
  predicate ArgvOk(cfg: Config, w: U32) {
    w != 0 && UserPointerOk(cfg, w)
  }

  /** The outcome of the scan: the first refused argument, too many
      arguments, or the argument pointers before the null word. */
  datatype Scan = BadArg(at: nat) | TooMany | Args(ptrs: seq<U32>)

  /** The argument scan of `execl` from argument `n` on: it stops at a null
      word, or when `n` reaches 99; a pointer that fails the user-pointer
      test stops it with -1. */
  function ScanArgs(cfg: Config, ws: seq<U32>, n: nat): (r: Scan)
    requires |ws| == MAX_ARGS && n <= MAX_ARGS
    decreases MAX_ARGS - n
    ensures r.Args? ==>
      && n + |r.ptrs| < MAX_ARGS
      && ws[n + |r.ptrs|] == 0
      && r.ptrs == ws[n .. n + |r.ptrs|]
      && forall i :: n <= i < n + |r.ptrs| ==> ArgvOk(cfg, ws[i])
    ensures r.TooMany? ==> forall j :: n <= j < MAX_ARGS ==> ArgvOk(cfg, ws[j])
    ensures r.BadArg? ==>
      && n <= r.at < MAX_ARGS
      && ws[r.at] != 0 && !UserPointerOk(cfg, ws[r.at])
      && forall i :: n <= i < r.at ==> ArgvOk(cfg, ws[i])
  {
    if n < MAX_ARGS && ws[n] != 0 then
      if !UserPointerOk(cfg, ws[n]) then BadArg(n)
      else match ScanArgs(cfg, ws, n + 1)
        case Args(ps) => Args([ws[n]] + ps)
        case other => other
    else if n == MAX_ARGS then TooMany
    else Args([])
  }

  /** The strings the argument pointers point at, when every one of them ends. */
  function ReadArgs(mem: Memory, ptrs: seq<U32>): (r: Option<seq<seq<Byte>>>)
    ensures r.Some? <==> forall i :: 0 <= i < |ptrs| ==> CStr(mem, ptrs[i]).Some?
    ensures r.Some? ==>
      && |r.value| == |ptrs| && ArgsOk(r.value)
      && forall i :: 0 <= i < |ptrs| ==> r.value[i] == CStr(mem, ptrs[i]).value
  {
    if |ptrs| == 0 then Some([])
    else
      var head := CStr(mem, ptrs[0]);
      var rest := ReadArgs(mem, ptrs[1..]);
      assert forall i :: 1 <= i < |ptrs| ==> ptrs[i] == ptrs[1..][i - 1];
      if head.None? || rest.None? then None else Some([head.value] + rest.value)
  }

  /** The caller once exec has replaced its program: `clear_private` has
      dropped the private pages from its page map, and its user memory is
      what exec built. */
  function Replaced(k: Kernel, m: Memory): (k': Kernel)
    ensures k'.mem == m && k'.cfg == k.cfg && k'.fs == k.fs && k'.objs == k.objs
    ensures k'.proc == k.proc.(pages := k'.proc.pages)
    ensures forall pg :: pg in k'.proc.pages <==> pg in k.proc.pages && !AddressSpace.IsPrivate(pg)
  {
    k.(mem := m, proc := k.proc.(pages := AddressSpace.ClearPrivate(k.proc.pages)))
  }

  /** Call 9, `execl(path, arg0, ..., NULL)`: checks the path pointer and
      scans the arguments, then runs `exec` on the strings they point at. */
  function SysExecl(k: Kernel, esp: U32): (r: Outcome)
    requires KernelValid(k)
    ensures r.Return? ==> r == Return(k, -1)
    ensures !UserPointerOk(k.cfg, Arg(k.mem, esp, 1)) ==> r == Return(k, -1)
    ensures UserPointerOk(k.cfg, Arg(k.mem, esp, 1)) ==>
      var scan := ScanArgs(k.cfg, ArgvWords(k.mem, esp), 0);
      && (scan.BadArg? ==> r == Return(k, -1))
      && (scan.TooMany? ==> r == Panic)
      && (scan.Args? ==>
            var path := CStr(k.mem, Arg(k.mem, esp, 1));
            && (path.None? ==> r == Fault)
            && (path.Some? && !Runnable(k.fs, path.value) ==> r == Return(k, -1))
            && (path.Some? && Runnable(k.fs, path.value) ==>
                  var args := ReadArgs(k.mem, scan.ptrs);
                  && (args.None? ==> r == Fault)
                  && (args.Some? ==>
                        var e := Exec(k.cfg, k.fs, path.value, args.value, k.mem);
                        && (e.Panicked? ==> r == Panic)
                        && (e.Started? ==> r == Running(Replaced(k, e.mem), e.entry, e.sp)))))
  {
    var pathPtr := Arg(k.mem, esp, 1);
    if !UserPointerOk(k.cfg, pathPtr) then Return(k, -1)
    else match ScanArgs(k.cfg, ArgvWords(k.mem, esp), 0)
      case BadArg(_) => Return(k, -1)
      case TooMany => Panic
      case Args(ptrs) =>
        match CStr(k.mem, pathPtr)
        case None => Fault
        case Some(path) =>
          if !Runnable(k.fs, path) then Return(k, -1)
          else match ReadArgs(k.mem, ptrs)
            case None => Fault
            case Some(args) =>
              match Exec(k.cfg, k.fs, path, args, k.mem)
              case Refused => Return(k, -1)
              case Panicked => Panic
              case Started(entry, sp, m) => Running(Replaced(k, m), entry, sp)
  }

  // ---------------------------------------------------------------- open

  /** Installs a fresh cursor over `node` in the lowest empty file slot;
      when the table is full the new object is dropped again. */
  function InstallFile(k: Kernel, node: Node): (r: Outcome)
    requires KernelValid(k)
    ensures r.Return? && KernelValid(r.k) && r.k.mem == k.mem
    ensures r.k == k.(proc := r.k.proc, objs := r.k.objs)
    ensures r.k.objs.sems == k.objs.sems && r.k.objs.futures == k.objs.futures
    ensures r.value == -1 <==> Full(k.proc.files)
    ensures r.value == -1 ==> r.k == k
    ensures r.value != -1 ==>
      && 0 <= r.value < NFILE
      && k.proc.files[r.value].None? && (forall j :: 0 <= j < r.value ==> k.proc.files[j].Some?)
      && FileOf(r.k, r.value) == Some(Regular(Open(node)))
      && GetFile(r.k.proc, r.value).value !in k.objs.files
      && (forall j :: 0 <= j < NFILE && j != r.value ==> r.k.proc.files[j] == k.proc.files[j])
      && r.k.proc == k.proc.(files := r.k.proc.files)
      && (forall ref :: ref in k.objs.files ==> ref in r.k.objs.files && r.k.objs.files[ref] == k.objs.files[ref])
  {
    var ref := k.objs.next;
    var (p, fd) := SetFile(k.proc, ref);
    if fd == -1 then Return(k, -1)
    else
      var files := k.objs.files[ref := Regular(Open(node))];
      var k' := k.(proc := p, objs := k.objs.(files := files, next := ref + 1));
      assert GetFile(p, fd) == Some(ref);
      Return(k', fd)
  }

  /** Call 10, `open(path)`: looks the path up, follows symbolic links to
      the node they end at, and installs a cursor at offset 0 over it. */
  function SysOpen(k: Kernel, name: U32): (r: Outcome)
    requires KernelValid(k)
    ensures r.Return? ==> KernelValid(r.k) && r.k.mem == k.mem
    ensures r.Return? && r.value == -1 ==> r.k == k
    ensures !UserPointerOk(k.cfg, name) ==> r == Return(k, -1)
    ensures UserPointerOk(k.cfg, name) && CStr(k.mem, name).Some? ==>
      var found := Find(k.fs, CStr(k.mem, name).value);
      && (found.None? ==> r == Return(k, -1))
      && (found.Some? ==>
            var end := Resolve(k.fs, found.value, LinkFuel(k.fs));
            && (end.Missing? ==> r == Return(k, -1))
            && (end.Endless? ==> r == Loops)
            && (end.Resolved? ==> r == InstallFile(k, end.node)))
  {
    if !UserPointerOk(k.cfg, name) then Return(k, -1)
    else match CStr(k.mem, name)
      case None => Fault
      case Some(path) =>
        match Find(k.fs, path)
        case None => Return(k, -1)
        case Some(node) =>
          match Resolve(k.fs, node, LinkFuel(k.fs))
          case Missing => Return(k, -1)
          case Endless => Loops
          case Resolved(target) => InstallFile(k, target)
  }

  // ------------------------------------------------------ len, read, seek

  /** Call 11, `len(fd)`: the size of the file; the console answers itself. */
  function SysLen(k: Kernel, fd: U32): (r: Outcome)
    requires KernelValid(k)
    ensures FileOf(k, fd).None? ==> r == Return(k, -1)
    ensures FileOf(k, fd) == Some(Console) ==> r == Device
    ensures FileOf(k, fd).Some? && FileOf(k, fd).value.Regular? ==>
      r == Return(k, |FileOf(k, fd).value.ofs.node.data|)
  {
    match FileOf(k, fd)
    case None => Return(k, -1)
    case Some(Console) => Device
    case Some(Regular(f)) => Return(k, Size(f))
  }

  /** Call 12, `read(fd, buf, n)`: copies up to `n` bytes from the cursor to
      `buf` and advances the cursor by as many; the console cannot be read. */
  function SysRead(k: Kernel, fd: U32, buf: U32, n: U32): (r: Outcome)
    requires KernelValid(k)
    ensures r.Return? && KernelValid(r.k)
    ensures r.k == k.(proc := r.k.proc, objs := r.k.objs, mem := r.k.mem)
    ensures !UserPointerOk(k.cfg, buf) || FileOf(k, fd).None? || FileOf(k, fd) == Some(Console) ==>
      r == Return(k, -1)
    ensures UserPointerOk(k.cfg, buf) && FileOf(k, fd).Some? && FileOf(k, fd).value.Regular? ==>
      var f := FileOf(k, fd).value.ofs;
      var ref := GetFile(k.proc, fd).value;
      && 0 <= r.value <= n && r.value <= Size(f) - f.offset
      && (r.value < n ==> r.value == Size(f) - f.offset)
      && FileOf(r.k, fd) == Some(Regular(f.(offset := f.offset + r.value)))
      && r.k.proc == k.proc
      && r.k.objs == k.objs.(files := r.k.objs.files)
      && (forall t :: t in k.objs.files && t != ref ==> t in r.k.objs.files && r.k.objs.files[t] == k.objs.files[t])
      && r.k.mem == WriteBytes(k.mem, buf, f.node.data[f.offset .. f.offset + r.value])
  {
    if !UserPointerOk(k.cfg, buf) then Return(k, -1)
    else match GetFile(k.proc, fd)
      case None => Return(k, -1)
      case Some(ref) =>
        match k.objs.files[ref]
        case Console => Return(k, -1)
        case Regular(f) =>
          var rr := Read(f, n);
          var k' := SetFileObj(k, ref, Regular(rr.file)).(mem := WriteBytes(k.mem, buf, rr.bytes));
          Return(k', rr.count)
  }

  /** Call 13, `seek(fd, offset)`: moves the cursor when `offset` (a signed
      int) lies in `0 .. size`; the console cannot seek. */
  function SysSeek(k: Kernel, fd: U32, offset: U32): (r: Outcome)
    requires KernelValid(k)
    ensures r.Return? && KernelValid(r.k)
    ensures FileOf(k, fd).None? || FileOf(k, fd) == Some(Console) ==> r == Return(k, -1)
    ensures FileOf(k, fd).Some? && FileOf(k, fd).value.Regular? ==>
      var f := FileOf(k, fd).value.ofs;
      var o := ToSigned(offset);
      && (o < 0 || o > Size(f) ==> r == Return(k, -1))
      && (0 <= o <= Size(f) ==>
            && r.value == o
            && r.k == SetFileObj(k, GetFile(k.proc, fd).value, Regular(f.(offset := o))))
  {
    match GetFile(k.proc, fd)
    case None => Return(k, -1)
    case Some(ref) =>
      match k.objs.files[ref]
      case Console => Return(k, -1)
      case Regular(f) =>
        var (f', v) := Seek(f, ToSigned(offset));
        if v == -1 then Return(k, -1) else Return(SetFileObj(k, ref, Regular(f')), v)
  }

  // ----------------------------------------------------------- dispatcher

  /** Call 0, `exit(status)`: sets the caller's exit future and stops. */
  function SysExit(k: Kernel, status: U32): (r: Outcome)
    requires KernelValid(k)
    ensures r.Exited? && KernelValid(r.k)
    ensures r.k == k.(objs := Exit(k.proc, k.objs, status))
  {
    Exited(k.(objs := Exit(k.proc, k.objs, status)))
  }

  /** `sysHandler(eax, frame)` with `userEsp = esp`. */
  function Dispatch(k: Kernel, eax: U32, esp: U32): (r: Outcome)
    requires KernelValid(k)
    ensures r.Return? ==> KernelValid(r.k)
    ensures eax > 13 ==> r == Return(k, -1)
  {
    var a1 := Arg(k.mem, esp, 1);
    var a2 := Arg(k.mem, esp, 2);
    var a3 := Arg(k.mem, esp, 3);
    match eax
    case 0 => SysExit(k, a1)
    case 1 => SysWrite(k, a1, a2, a3)
    case 2 => Forking
    case 3 => SysSem(k, a1)
    case 4 => SysUp(k, a1)
    case 5 => SysDown(k, a1)
    case 6 => SysClose(k, a1)
    case 7 => PowerOff
    case 8 => SysWait(k, a1, a2)
    case 9 => SysExecl(k, esp)
    case 10 => SysOpen(k, a1)
    case 11 => SysLen(k, a1)
    case 12 => SysRead(k, a1, a2, a3)
    case 13 => SysSeek(k, a1, a2)
    case _ => Return(k, -1)
  }
}
