/** `Process`: the three resource tables, the exit future and the address
    space of one process.  Files, semaphores and futures are shared objects
    (a `Shared<...>` in the kernel); here they live in an object store and
    the tables hold references into it, so two tables that hold the same
    reference share one object — exactly what fork relies on.  Every table
    operation is atomic, as the process mutex makes it in the kernel. */
module Processes {
  import opened Machine
  import opened Handles
  import opened Tables
  import opened FileSystem
  import opened OpenFile
  import opened AddressSpace

  /** A reference to a shared kernel object. */
  type Ref = nat

  /** The shared objects: open files (console or cursor), semaphore
      counters, and one-shot futures (unset, or set to a 32-bit value).
      `next` is the reference the next allocation receives. */
  datatype Objects = Objects(
    files: map<Ref, FileObj>,
    sems: map<Ref, nat>,
    futures: map<Ref, Option<U32>>,
    next: Ref)

  predicate ObjectsValid(o: Objects) {
    && (forall r :: r in o.files ==> r < o.next)
    && (forall r :: r in o.sems ==> r < o.next)
    && (forall r :: r in o.futures ==> r < o.next)
  }

  datatype Process = Process(
    files: Table<Ref>,
    sems: Table<Ref>,
    children: Table<Ref>,
    output: Ref,
    pages: PageMap)

  /** The table a kind of handle indexes. */
  function TableOf(p: Process, k: Kind): Table<Ref> {
    match k
    case FileKind => p.files
    case ChildKind => p.children
    case SemKind => p.sems
  }

  /** Every table has its fixed capacity. */
  predicate Shape(p: Process) {
    |p.files| == NFILE && |p.sems| == NSEM && |p.children| == NCHILD
  }

  /** The process is well formed against the object store: every reference
      it holds names an object of the right sort. */
  predicate Valid(p: Process, o: Objects) {
    && Shape(p)
    && ObjectsValid(o)
    && p.output in o.futures
    && (forall i :: 0 <= i < |p.files| && p.files[i].Some? ==> p.files[i].value in o.files)
    && (forall i :: 0 <= i < |p.sems| && p.sems[i].Some? ==> p.sems[i].value in o.sems)
    && (forall i :: 0 <= i < |p.children| && p.children[i].Some? ==> p.children[i].value in o.futures)
  }

  /** `id` decodes as kind `k` and names an occupied slot. */
  predicate Names(p: Process, k: Kind, id: U32)
    requires Shape(p)
  {
    var i := DecodeIndex(k, id);
    i >= 0 && TableOf(p, k)[i].Some?
  }

  /** `Process(isInit)`: empty tables, a fresh unset exit future and the
      shared kernel half of the address space; the initial process also
      gets one console object in file slots 0, 1 and 2. */
  function NewProcess(isInit: bool, o: Objects, kernelPages: PageMap): (res: (Process, Objects))
    requires ObjectsValid(o)
    ensures var (p, o') := res;
      && Valid(p, o') && o.next <= o'.next
      && p.output !in o.futures && o'.futures[p.output] == None
      && (forall i :: 0 <= i < NSEM ==> p.sems[i].None?)
      && (forall i :: 0 <= i < NCHILD ==> p.children[i].None?)
      && (forall pg :: pg in p.pages <==> pg in kernelPages && !IsPrivate(pg))
      && (forall pg :: pg in p.pages ==> p.pages[pg] == kernelPages[pg])
      && (isInit ==>
            && p.files[0].Some? && p.files[0] == p.files[1] == p.files[2]
            && p.files[0].value !in o.files && o'.files[p.files[0].value] == Console
            && (forall i :: 3 <= i < NFILE ==> p.files[i].None?))
      && (!isInit ==> (forall i :: 0 <= i < NFILE ==> p.files[i].None?) && o'.files == o.files)
      && o'.sems == o.sems
      && (forall r :: r in o.futures ==> r in o'.futures && o'.futures[r] == o.futures[r])
      && o'.futures.Keys == o.futures.Keys + {p.output}
      && (forall r :: r in o.files ==> r in o'.files && o'.files[r] == o.files[r])
  {
    var out := o.next;
    var o1 := o.(futures := o.futures[out := None], next := out + 1);
    var pages := ClearPrivate(kernelPages);
    if isInit then
      var console := o1.next;
      var o2 := o1.(files := o1.files[console := Console], next := console + 1);
      var files := Empty<Ref>(NFILE)[0 := Some(console)][1 := Some(console)][2 := Some(console)];
      (Process(files, Empty(NSEM), Empty(NCHILD), out, pages), o2)
    else
      (Process(Empty(NFILE), Empty(NSEM), Empty(NCHILD), out, pages), o1)
  }

  /** `getSemaphore(id)`: the semaphore slot `id` names, empty when `id` is
      not a semaphore handle or its index is out of range. */
  function GetSemaphore(p: Process, id: U32): (r: Option<Ref>)
    requires Shape(p)
    ensures DecodeIndex(SemKind, id) == -1 ==> r == None
    ensures DecodeIndex(SemKind, id) >= 0 ==> r == p.sems[DecodeIndex(SemKind, id)]
  {
    var idx := IndexBits(id);
    if idx >= NSEM || KindBits(id) != Tag(SemKind) then None else p.sems[idx]
  }

  /** `getFile(fd)`: the file slot `fd` names, empty unless `fd` is a file
      handle (tag 0, index below 10). */
  function GetFile(p: Process, fd: U32): (r: Option<Ref>)
    requires Shape(p)
    ensures DecodeIndex(FileKind, fd) == -1 ==> r == None
    ensures DecodeIndex(FileKind, fd) >= 0 ==> fd < NFILE && r == p.files[fd]
  {
    var i := DecodeIndex(FileKind, fd);
    if i < 0 then None else p.files[fd]
  }

  /** `newSemaphore(init)`: a fresh semaphore with count `init` in the lowest
      empty slot, returned as a semaphore handle; -1 and nothing changed when
      all slots are taken (the handle `SEM | i` is returned as its 32-bit
      pattern, -1 as `FAILURE`). */
  function NewSemaphore(p: Process, o: Objects, init: U32): (res: (Process, Objects, U32))
    requires Valid(p, o)
    ensures var (p', o', r) := res;
      && Valid(p', o')
      && (r == FAILURE <==> Full(p.sems))
      && (r == FAILURE ==> p' == p && o' == o)
      && (r != FAILURE ==>
            var i := DecodeIndex(SemKind, r);
            && 0 <= i < NSEM && r == Encode(SemKind, i)
            && p.sems[i].None? && (forall j :: 0 <= j < i ==> p.sems[j].Some?)
            && p' == p.(sems := p.sems[i := Some(o.next)])
            && o.next !in o.sems && o'.sems == o.sems[o.next := init]
            && GetSemaphore(p', r) == Some(o.next)
            && o'.files == o.files && o'.futures == o.futures)
  {
    var s := o.next;
    var (sems, i) := Install(p.sems, s);
    if i == -1 then (p, o, FAILURE)
    else
      var r := Encode(SemKind, i);
      DecodeEncode(SemKind, i);
      (p.(sems := sems), o.(sems := o.sems[s := init], next := s + 1), r)
  }

  /** `setFile(file)`: installs an open-file reference in the lowest empty
      slot and returns its index, or -1 with nothing changed. */
  function SetFile(p: Process, f: Ref): (res: (Process, int))
    requires Shape(p)
    ensures var (p', r) := res;
      && Shape(p')
      && (r == -1 <==> Full(p.files))
      && (r == -1 ==> p' == p)
      && (r != -1 ==>
            && 0 <= r < NFILE && p.files[r].None? && (forall j :: 0 <= j < r ==> p.files[j].Some?)
            && p' == p.(files := p.files[r := Some(f)])
            && GetFile(p', r) == Some(f))
  {
    var (files, r) := Install(p.files, f);
    (p.(files := files), r)
  }

  /** `close(id)`: tries the handle as a semaphore, then as a child, then as
      a file; the first kind it decodes as decides.  An occupied slot is
      emptied and 0 returned; otherwise -1 and nothing changes. */
  function Close(p: Process, id: U32): (res: (Process, int))
    requires Shape(p)
    ensures var (p', r) := res;
      && Shape(p')
      && (r == 0 <==> Names(p, SemKind, id) || Names(p, ChildKind, id) || Names(p, FileKind, id))
      && (r != 0 ==> r == -1 && p' == p)
      && (Names(p, SemKind, id) ==> p' == p.(sems := p.sems[DecodeIndex(SemKind, id) := None]))
      && (Names(p, ChildKind, id) ==> p' == p.(children := p.children[DecodeIndex(ChildKind, id) := None]))
      && (Names(p, FileKind, id) ==> p' == p.(files := p.files[DecodeIndex(FileKind, id) := None]))
  {
    var si := DecodeIndex(SemKind, id);
    if si != -1 then
      if p.sems[si].None? then (p, -1) else (p.(sems := p.sems[si := None]), 0)
    else
      var ci := DecodeIndex(ChildKind, id);
      if ci != -1 then
        if p.children[ci].None? then (p, -1) else (p.(children := p.children[ci := None]), 0)
      else
        var fi := DecodeIndex(FileKind, id);
        if fi != -1 then
          if p.files[fi].None? then (p, -1) else (p.(files := p.files[fi := None]), 0)
        else (p, -1)
  }

  /** Closing the same handle twice: the second close fails. */
  lemma DoubleCloseFails(p: Process, id: U32)
    requires Shape(p)
    ensures Close(Close(p, id).0, id).1 == -1
  {
  }

  /** -1 names nothing, so closing it fails. */
  lemma CloseFailureFails(p: Process)
    requires Shape(p)
    ensures Close(p, FAILURE) == (p, -1)
  {
    FailureNeverDecodes(SemKind);
    FailureNeverDecodes(ChildKind);
    FailureNeverDecodes(FileKind);
  }

  /** Closing file slot `j` of a full file table and then installing a file
      puts the new file back in slot `j`. */
  lemma {:induction false} ReopenReusesClosedSlot(p: Process, j: nat, f: Ref)
    requires Shape(p) && Full(p.files) && j < NFILE
    ensures var (p1, r1) := Close(p, Encode(FileKind, j));
            r1 == 0 && SetFile(p1, f).1 == j
  {
    DecodeEncode(FileKind, j);
    var id := Encode(FileKind, j);
    assert DecodeIndex(SemKind, id) == -1;
    assert DecodeIndex(ChildKind, id) == -1;
    var (p1, r1) := Close(p, id);
    assert Names(p, FileKind, id);
    assert p1.files == p.files[j := None];
    InstallUsesOnlyFreeSlot(p1.files, j, f);
  }

  datatype WaitOutcome =
    | NoChild(code: int)                       // -1 (or the decoder's negative result)
    | Blocked                                  // the child has not exited yet
    | Collected(p: Process, status: U32)       // `*ptr` receives `status`, 0 is returned

  /** `wait(id, ptr)`: for a live child handle whose future is set, hands
      back the exit value and empties the slot; a bad or empty handle gives
      a negative code and changes nothing.  A live child whose future is
      still unset makes the caller block. */
  function Wait(p: Process, o: Objects, id: U32): (w: WaitOutcome)
    requires Valid(p, o)
    ensures w.NoChild? <==> !Names(p, ChildKind, id)
    ensures w.NoChild? ==> w.code < 0
    ensures w.Blocked? || w.Collected? ==>
      var i := DecodeIndex(ChildKind, id);
      0 <= i < NCHILD && p.children[i].Some? && p.children[i].value in o.futures &&
      (w.Blocked? <==> o.futures[p.children[i].value].None?)
    ensures w.Collected? ==>
      var i := DecodeIndex(ChildKind, id);
      && o.futures[p.children[i].value] == Some(w.status)
      && w.p == p.(children := p.children[i := None])
  {
    var index := DecodeIndex(ChildKind, id);
    if index < 0 then NoChild(index)
    else if p.children[index].None? then NoChild(-1)
    else match o.futures[p.children[index].value]
      case None => Blocked
      case Some(v) => Collected(p.(children := p.children[index := None]), v)
  }

  /** A handle that was collected once cannot be waited on again. */
  lemma SecondWaitFails(p: Process, o: Objects, id: U32)
    requires Valid(p, o) && Wait(p, o, id).Collected?
    ensures Wait(Wait(p, o, id).p, o, id).NoChild?
  {
  }

  /** `exit(v)`: sets the process's own exit future to `v`; nothing else
      changes.  The kernel requires it to happen at most once. */
  function Exit(p: Process, o: Objects, v: U32): (o': Objects)
    requires Valid(p, o)
    ensures p.output in o'.futures && o'.futures[p.output] == Some(v)
    ensures forall r :: r in o.futures && r != p.output ==> r in o'.futures && o'.futures[r] == o.futures[r]
    ensures o'.futures.Keys == o.futures.Keys && o'.files == o.files && o'.sems == o.sems && o'.next == o.next
  {
    o.(futures := o.futures[p.output := Some(v)])
  }

  datatype ForkResult =
    | ChildTableFull
    | Forked(parent: Process, child: Process, objects: Objects, phys: Phys, id: U32)

  /** `fork(id)`: with a free child slot `k` (the lowest), makes a new
      process whose file and semaphore tables hold the parent's very
      references, whose private pages are fresh copies of the parent's,
      registers the child's exit future in slot `k` and returns the handle
      `PROC | k`.  With every child slot taken nothing happens (`id = -1`). */
  method Fork(p: Process, o: Objects, ph: Phys, kernelPages: PageMap) returns (res: ForkResult)
    requires Valid(p, o) && PhysValid(ph) && Backed(p.pages, ph)
    ensures res.ChildTableFull? <==> Full(p.children)
    ensures res.Forked? ==>
      var k := DecodeIndex(ChildKind, res.id);
      && 0 <= k < NCHILD && res.id == Encode(ChildKind, k)
      && p.children[k].None? && (forall j :: 0 <= j < k ==> p.children[j].Some?)
      && res.parent == p.(children := p.children[k := Some(res.child.output)])
      && Valid(res.parent, res.objects) && Valid(res.child, res.objects)
      && res.child.files == p.files && res.child.sems == p.sems
      && (forall j :: 0 <= j < NCHILD ==> res.child.children[j].None?)
      && res.child.output !in o.futures && res.objects.futures[res.child.output] == None
      && Wait(res.parent, res.objects, res.id).Blocked?
      && (forall f :: f in ph.frames ==> f in res.phys.frames && res.phys.frames[f] == ph.frames[f])
      && (forall pg :: IsPrivate(pg) ==> (pg in res.child.pages <==> pg in p.pages))
      && (forall pg :: pg in res.child.pages && IsPrivate(pg) ==>
            && ph.next <= res.child.pages[pg] && res.child.pages[pg] in res.phys.frames
            && res.phys.frames[res.child.pages[pg]] == ph.frames[p.pages[pg]])
      && (forall pg :: pg in res.child.pages && !IsPrivate(pg) ==> pg in kernelPages && res.child.pages[pg] == kernelPages[pg])
      && (forall pg :: pg in kernelPages && !IsPrivate(pg) ==> pg in res.child.pages)
      && res.objects.files == o.files && res.objects.sems == o.sems
      && res.objects.futures.Keys == o.futures.Keys + {res.child.output}
      && (forall r :: r in o.futures ==> res.objects.futures[r] == o.futures[r])
      && PhysValid(res.phys) && ph.next <= res.phys.next
      && (forall pg :: pg in res.child.pages && IsPrivate(pg) ==> res.child.pages[pg] !in ph.frames)
      && (forall p1, p2 :: p1 in res.child.pages && IsPrivate(p1) && p2 in res.child.pages && IsPrivate(p2) && p1 != p2 ==>
            res.child.pages[p1] != res.child.pages[p2])
  {
    var index := FirstFree(p.children);
    if index == -1 {
      return ChildTableFull;
    }
    var (child, o1) := NewProcess(false, o, kernelPages);
    var pages, ph1 := CopyPrivate(p.pages, child.pages, ph);
    child := child.(pages := pages, sems := p.sems, files := p.files);
    var parent := p.(children := p.children[index := Some(child.output)]);
    DecodeEncode(ChildKind, index);
    res := Forked(parent, child, o1, ph1, Encode(ChildKind, index));
  }

  /** The exit value a child reports is what its parent's wait collects. */
  lemma ExitThenWait(parent: Process, child: Process, o: Objects, id: U32, v: U32)
    requires Valid(parent, o) && Valid(child, o)
    requires Names(parent, ChildKind, id)
    requires parent.children[DecodeIndex(ChildKind, id)] == Some(child.output)
    ensures Wait(parent, Exit(child, o, v), id) ==
      Collected(parent.(children := parent.children[DecodeIndex(ChildKind, id) := None]), v)
  {
  }

  /** Fork isolation: a store into one of the child's copied frames leaves
      every page of the parent as it was, because the copies are fresh. */
  lemma ChildWriteInvisibleToParent(
    parentPages: PageMap, ph: Phys, ph': Phys, f: Frame, i: nat, b: Byte, pg: Page)
    requires PhysValid(ph) && Backed(parentPages, ph) && pg in parentPages
    requires forall g :: g in ph.frames ==> g in ph'.frames && ph'.frames[g] == ph.frames[g]
    requires ph.next <= f && f in ph'.frames && i < |ph'.frames[f]|
    ensures PageBytes(parentPages, WriteFrame(ph', f, i, b), pg) == PageBytes(parentPages, ph, pg)
  {
    assert parentPages[pg] < ph.next;
  }

  /** Fork isolation the other way round: a store into one of the parent's
      frames leaves every copied page of the child as it was. */
  lemma ParentWriteInvisibleToChild(
    childPages: PageMap, parentPages: PageMap, ph: Phys, ph': Phys, i: nat, b: Byte, pg: Page, q: Page)
    requires PhysValid(ph) && Backed(parentPages, ph) && q in parentPages
    requires pg in childPages && ph.next <= childPages[pg] && childPages[pg] in ph'.frames
    requires forall g :: g in ph.frames ==> g in ph'.frames && ph'.frames[g] == ph.frames[g]
    requires i < |ph'.frames[parentPages[q]]|
    ensures PageBytes(childPages, WriteFrame(ph', parentPages[q], i, b), pg) == PageBytes(childPages, ph', pg)
  {
    assert parentPages[q] < ph.next;
  }
}
