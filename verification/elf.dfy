/** `ELF::load`: validates an ELF32 executable header and copies its
    loadable segments into memory.  Field offsets follow the "ELF Header"
    and "Program Header" sections of the System V gABI for 32-bit
    little-endian objects (the kernel's own `elf.h` is not part of this
    model).  A struct is read with `read_all`; bytes past the end of the
    file, which the kernel leaves uninitialised, read as zero here. */
module Elf {
  import opened Machine
  import opened FileSystem

  const HEADER_SIZE: nat := 52
  const PHDR_SIZE: nat := 32

  const PT_LOAD: U32 := 1
  const ET_EXEC: U32 := 2

  /** The highest address; the source's overflow test compares against it. */
  const ADDRESS_MAX: U32 := 0xFFFF_FFFF

  function Zeros(n: nat): (z: seq<Byte>)
    ensures |z| == n && forall i :: 0 <= i < n ==> z[i] == 0
  {
    seq(n, _ => 0)
  }

  /** `file->read(offset, t)`: the `n` bytes at `offset`, zero past the end. */
  function ReadStruct(node: Node, offset: U32, n: nat): (bs: seq<Byte>)
    ensures |bs| == n
    ensures forall i :: 0 <= i < n ==> bs[i] == if offset + i < |node.data| then node.data[offset + i] else 0
  {
    var got := ReadAll(node, offset, n);
    got + Zeros(n - |got|)
  }

  function U16(bs: seq<Byte>, at: nat): U32
    requires at + 2 <= |bs|
  {
    (bs[at] as int) + 0x100 * (bs[at + 1] as int)
  }

  function U32At(bs: seq<Byte>, at: nat): U32
    requires at + 4 <= |bs|
  {
    WordOf(bs[at], bs[at + 1], bs[at + 2], bs[at + 3])
  }

  /** The header fields the loader looks at. */
  datatype ElfHeader = ElfHeader(
    magic0: Byte, magic1: Byte, magic2: Byte, magic3: Byte,
    cls: Byte, encoding: Byte, headerVersion: Byte, abi: Byte,
    etype: U32, version: U32, entry: U32, phoff: U32,
    phentsize: U32, phnum: U32)

  /** `file->read(0, hdr)` */
  function ReadHeader(node: Node): ElfHeader {
    var b := ReadStruct(node, 0, HEADER_SIZE);
    ElfHeader(b[0], b[1], b[2], b[3], b[4], b[5], b[6], b[7],
              U16(b, 16), U32At(b, 20), U32At(b, 24), U32At(b, 28),
              U16(b, 42), U16(b, 44))
  }

  /** The program-header fields the loader looks at. */
  datatype ProgramHeader = ProgramHeader(ptype: U32, offset: U32, vaddr: U32, filesz: U32, memsz: U32)

  /** `file->read(hoff, phdr)` */
  function ReadProgramHeader(node: Node, hoff: U32): ProgramHeader {
    var b := ReadStruct(node, hoff, PHDR_SIZE);
    ProgramHeader(U32At(b, 0), U32At(b, 4), U32At(b, 8), U32At(b, 16), U32At(b, 20))
  }

  /** 0x7F 'E' 'L' 'F' */
  predicate MagicOk(h: ElfHeader) {
    h.magic0 == 0x7F && h.magic1 == 0x45 && h.magic2 == 0x4C && h.magic3 == 0x46
  }

  /** Little-endian, 32-bit, System V ABI, identification version 1. */
  predicate IdentOk(h: ElfHeader) {
    h.encoding == 1 && h.cls == 1 && h.abi == 0 && h.headerVersion == 1
  }

  /** Object-file version 1 and type `ET_EXEC`. */
  predicate TypeOk(h: ElfHeader) {
    h.version == 1 && h.etype == ET_EXEC
  }

  /** Every check the loader makes before touching memory. */
  predicate HeaderOk(h: ElfHeader) {
    MagicOk(h) && IdentOk(h) && TypeOk(h) && h.phoff != 0
  }

  /** The segment test of the loader, disjunct for disjunct: below the user
      half, past the top of the address space (computed in 32 bits), or on an
      interrupt-controller page. */
  predicate SegmentBad(cfg: Config, ph: ProgramHeader) {
    || ph.vaddr < USER_BASE
    || Wrap(ph.vaddr + ph.filesz) > ADDRESS_MAX
    || ph.vaddr == cfg.ioAPIC
    || ph.vaddr == cfg.localAPIC
  }

  /** The 32-bit overflow disjunct never fires, so a segment is rejected
      exactly when its address fails the user-pointer test. */
  lemma SegmentBadIffBadPointer(cfg: Config, ph: ProgramHeader)
    ensures SegmentBad(cfg, ph) <==> !UserPointerOk(cfg, ph.vaddr)
  {
  }

  /** Copies `filesz` bytes of the file at `offset` to `vaddr` (as many as
      the file holds) and zero-fills `memsz - filesz` bytes after them.  The
      subtraction is unsigned 32-bit, as in the source: when `memsz < filesz`
      it wraps. */
  function CopySegment(node: Node, ph: ProgramHeader, mem: Memory): Memory {
    var data := ReadAll(node, ph.offset, ph.filesz);
    var copied := WriteBytes(mem, ph.vaddr, data);
    WriteBytes(copied, Wrap(ph.vaddr + ph.filesz), Zeros(Wrap(ph.memsz - ph.filesz)))
  }

  /** `Wrap(b + k) - b` is `k` again, modulo 2^32. */
  lemma WrapOffset(b: U32, k: int)
    requires 0 <= k < WORD_LIMIT
    ensures Wrap(Wrap(b + k) - b) == k
  {
    if b + k >= WORD_LIMIT {
      assert Wrap(b + k) == b + k - WORD_LIMIT;
      assert Wrap(b + k) - b == k - WORD_LIMIT;
    }
  }

  /** Where a byte at distance `k` from `vaddr` sits relative to the zero
      fill's start `vaddr + filesz`. */
  lemma ZeroFillDistance(ph: ProgramHeader, k: int)
    requires 0 <= k < WORD_LIMIT
    ensures var a := Wrap(ph.vaddr + k);
            var z := Wrap(ph.vaddr + ph.filesz);
            && Wrap(a - ph.vaddr) == k
            && (k < ph.filesz ==> Wrap(a - z) == k - ph.filesz + WORD_LIMIT)
            && (ph.filesz <= k ==> Wrap(a - z) == k - ph.filesz)
  {
    var a: int := Wrap(ph.vaddr + k);
    var z: int := Wrap(ph.vaddr + ph.filesz);
    WrapOffset(ph.vaddr, k);
    WrapOffset(ph.vaddr, ph.filesz);
    if ph.filesz <= k {
      WrapOffset(z, k - ph.filesz);
      assert Wrap(z + (k - ph.filesz)) == a;
    }
  }

  /** Each byte after `CopySegment`: zero inside the fill window, else the
      copied file byte inside the copy window, else what it was. */
  lemma CopySegmentByte(node: Node, ph: ProgramHeader, mem: Memory, a: U32)
    ensures var data := ReadAll(node, ph.offset, ph.filesz);
            var fill := Wrap(ph.memsz - ph.filesz);
            var z := Wrap(ph.vaddr + ph.filesz);
            ByteAt(CopySegment(node, ph, mem), a) ==
              if Wrap(a - z) < fill then 0
              else if Wrap(a - ph.vaddr) < |data| then data[Wrap(a - ph.vaddr)]
              else ByteAt(mem, a)
  {
    hide ReadAll, Zeros, WriteBytes;
    var data := ReadAll(node, ph.offset, ph.filesz);
    var copied := WriteBytes(mem, ph.vaddr, data);
    assert ByteAt(copied, a) == if Wrap(a - ph.vaddr) < |data| then data[Wrap(a - ph.vaddr)] else ByteAt(mem, a);
  }

  /** A loadable segment with `memsz >= filesz` lands as the gABI describes:
      the file bytes at `[vaddr, vaddr + filesz)`, zeros at
      `[vaddr + filesz, vaddr + memsz)`, every other byte unchanged.  File
      bytes past the end of the file leave memory as it was. */
  lemma SegmentLayout(node: Node, ph: ProgramHeader, mem: Memory, k: int)
    requires ph.filesz <= ph.memsz && 0 <= k < WORD_LIMIT
    ensures var m := CopySegment(node, ph, mem);
            var a := Wrap(ph.vaddr + k);
            && (k < ph.filesz && ph.offset + k < |node.data| ==> ByteAt(m, a) == node.data[ph.offset + k])
            && (k < ph.filesz && ph.offset + k >= |node.data| ==> ByteAt(m, a) == ByteAt(mem, a))
            && (ph.filesz <= k < ph.memsz ==> ByteAt(m, a) == 0)
            && (ph.memsz <= k ==> ByteAt(m, a) == ByteAt(mem, a))
  {
    hide CopySegment;
    var a := Wrap(ph.vaddr + k);
    CopySegmentByte(node, ph, mem, a);
    ZeroFillDistance(ph, k);
    var data := ReadAll(node, ph.offset, ph.filesz);
    assert k < ph.filesz && ph.offset + k < |node.data| ==> k < |data| && data[k] == node.data[ph.offset + k];
    assert ph.offset + k >= |node.data| ==> k >= |data|;
  }

  /** With `memsz < filesz` the unsigned subtraction wraps and the zero fill
      runs on around the address space: the first `memsz` bytes just copied
      from the file are overwritten with zeros. */
  lemma UnderflowErasesCopiedBytes(node: Node, ph: ProgramHeader, mem: Memory, k: int)
    requires ph.memsz < ph.filesz && 0 <= k < ph.memsz
    ensures ByteAt(CopySegment(node, ph, mem), Wrap(ph.vaddr + k)) == 0
  {
    var a: int := Wrap(ph.vaddr + k);
    var z: int := Wrap(ph.vaddr + ph.filesz);
    assert Wrap(ph.memsz - ph.filesz) == ph.memsz - ph.filesz + WORD_LIMIT;
    assert Wrap(a - z) == k - ph.filesz + WORD_LIMIT by {
      WrapOffset(ph.vaddr, k);
      WrapOffset(ph.vaddr, ph.filesz);
    }
  }

  /** One iteration of the program-header loop: headers that are not
      `PT_LOAD` are skipped, a bad loadable segment halts the kernel
      (`None`), a good one is copied. */
  function LoadOne(cfg: Config, node: Node, ph: ProgramHeader, mem: Memory): (r: Option<Memory>)
    ensures ph.ptype != PT_LOAD ==> r == Some(mem)
    ensures ph.ptype == PT_LOAD ==> (r.None? <==> !UserPointerOk(cfg, ph.vaddr))
    ensures ph.ptype == PT_LOAD && UserPointerOk(cfg, ph.vaddr) ==> r == Some(CopySegment(node, ph, mem))
  {
    if ph.ptype == PT_LOAD then
      if SegmentBad(cfg, ph) then None
      else Some(CopySegment(node, ph, mem))
    else Some(mem)
  }

  /** The loop `for (i = 0; i < phnum; i++) { read(hoff, phdr); hoff += phentsize; ... }`
      with `hoff` a running 32-bit sum. */
  function LoadSegments(cfg: Config, node: Node, h: ElfHeader, i: nat, hoff: U32, mem: Memory): Option<Memory>
    decreases h.phnum - i
  {
    if i >= h.phnum then Some(mem)
    else
      var ph := ReadProgramHeader(node, hoff);
      var next := Wrap(hoff + h.phentsize);
      match LoadOne(cfg, node, ph, mem)
      case None => None
      case Some(m) => LoadSegments(cfg, node, h, i + 1, next, m)
  }

  /** Where program header `i` sits: `phoff + i * phentsize`, in 32 bits. */
  function PhdrOffset(h: ElfHeader, i: nat): U32 {
    Wrap(h.phoff + i * h.phentsize)
  }

  /** The same loop with each header's offset computed directly. */
  function SegmentsFrom(cfg: Config, node: Node, h: ElfHeader, i: nat, mem: Memory): Option<Memory>
    decreases h.phnum - i
  {
    if i >= h.phnum then Some(mem)
    else
      match LoadOne(cfg, node, ReadProgramHeader(node, PhdrOffset(h, i)), mem)
      case None => None
      case Some(m) => SegmentsFrom(cfg, node, h, i + 1, m)
  }

  /** Adding one more `phentsize` to the running offset of header `i` gives
      the offset of header `i + 1`. */
  lemma OffsetStep(h: ElfHeader, i: nat)
    ensures Wrap(PhdrOffset(h, i) + h.phentsize) == PhdrOffset(h, i + 1)
  {
    var x := h.phoff + i * h.phentsize;
    var q := x / WORD_LIMIT;
    assert (i + 1) * h.phentsize == i * h.phentsize + h.phentsize;
    assert x == q * WORD_LIMIT + PhdrOffset(h, i);
    assert PhdrOffset(h, i) + h.phentsize == (x + h.phentsize) - q * WORD_LIMIT;
  }

  /** One header that halts the loader halts both formulations. */
  lemma HaltStep(cfg: Config, node: Node, h: ElfHeader, i: nat, hoff: U32, mem: Memory)
    requires hoff == PhdrOffset(h, i)
    requires i < h.phnum && LoadOne(cfg, node, ReadProgramHeader(node, hoff), mem).None?
    ensures LoadSegments(cfg, node, h, i, hoff, mem) == None == SegmentsFrom(cfg, node, h, i, mem)
  {
  }

  /** One header that loads: the running loop continues at the next offset. */
  lemma LoadStep(cfg: Config, node: Node, h: ElfHeader, i: nat, hoff: U32, mem: Memory, m: Memory)
    requires i < h.phnum && LoadOne(cfg, node, ReadProgramHeader(node, hoff), mem) == Some(m)
    ensures LoadSegments(cfg, node, h, i, hoff, mem) == LoadSegments(cfg, node, h, i + 1, Wrap(hoff + h.phentsize), m)
  {
    hide LoadOne, ReadProgramHeader;
  }

  /** One header that loads: the direct loop continues with the next index. */
  lemma DirectStep(cfg: Config, node: Node, h: ElfHeader, i: nat, mem: Memory, m: Memory)
    requires i < h.phnum && LoadOne(cfg, node, ReadProgramHeader(node, PhdrOffset(h, i)), mem) == Some(m)
    ensures SegmentsFrom(cfg, node, h, i, mem) == SegmentsFrom(cfg, node, h, i + 1, m)
  {
    hide LoadOne, ReadProgramHeader;
  }

  /** The running sum `hoff` reads program header `i` at `phoff + i * phentsize`. */
  lemma {:induction false} RunningOffsetIsDirect(cfg: Config, node: Node, h: ElfHeader, i: nat, hoff: U32, mem: Memory)
    requires hoff == PhdrOffset(h, i)
    ensures LoadSegments(cfg, node, h, i, hoff, mem) == SegmentsFrom(cfg, node, h, i, mem)
    decreases h.phnum - i
  {
    hide LoadOne, ReadProgramHeader;
    if i < h.phnum {
      var r := LoadOne(cfg, node, ReadProgramHeader(node, hoff), mem);
      if r.Some? {
        var next := Wrap(hoff + h.phentsize);
        assert next == PhdrOffset(h, i + 1) by { OffsetStep(h, i); }
        assert LoadSegments(cfg, node, h, i + 1, next, r.value) == SegmentsFrom(cfg, node, h, i + 1, r.value) by {
          RunningOffsetIsDirect(cfg, node, h, i + 1, next, r.value);
        }
        LoadStep(cfg, node, h, i, hoff, mem, r.value);
        DirectStep(cfg, node, h, i, mem, r.value);
      } else {
        HaltStep(cfg, node, h, i, hoff, mem);
      }
    }
  }

  /** Program header `j` is loadable and its address fails the test. */
  predicate RefusedAt(cfg: Config, node: Node, h: ElfHeader, j: nat) {
    var ph := ReadProgramHeader(node, PhdrOffset(h, j));
    ph.ptype == PT_LOAD && !UserPointerOk(cfg, ph.vaddr)
  }

  /** The loop from header `i` on halts exactly when one of the remaining
      headers is a loadable segment with a refused address, whatever the
      earlier segments wrote. */
  lemma {:induction false} HaltsIffRefusedSegment(cfg: Config, node: Node, h: ElfHeader, i: nat, mem: Memory)
    ensures SegmentsFrom(cfg, node, h, i, mem).None? <==> exists j :: i <= j < h.phnum && RefusedAt(cfg, node, h, j)
    decreases h.phnum - i
  {
    hide CopySegment, ReadProgramHeader;
    if i < h.phnum {
      match LoadOne(cfg, node, ReadProgramHeader(node, PhdrOffset(h, i)), mem)
      case None =>
        assert RefusedAt(cfg, node, h, i);
      case Some(m) =>
        assert !RefusedAt(cfg, node, h, i);
        HaltsIffRefusedSegment(cfg, node, h, i + 1, m);
        if exists j :: i <= j < h.phnum && RefusedAt(cfg, node, h, j) {
          var j :| i <= j < h.phnum && RefusedAt(cfg, node, h, j);
          assert i + 1 <= j;
        }
    }
  }

  datatype LoadResult = Loaded(entry: U32, mem: Memory) | Rejected | Halted

  /** `ELF::load(file)` */
  function Load(cfg: Config, file: Option<Node>, mem: Memory): (r: LoadResult)
    ensures file.None? ==> r == Rejected
    ensures file.Some? ==> (r.Rejected? <==> !HeaderOk(ReadHeader(file.value)))
    ensures r.Loaded? ==> file.Some? && r.entry == ReadHeader(file.value).entry
    ensures file.Some? && HeaderOk(ReadHeader(file.value)) ==>
      var segs := SegmentsFrom(cfg, file.value, ReadHeader(file.value), 0, mem);
      && (r.Halted? <==> segs.None?)
      && (r.Loaded? ==> r.mem == segs.value)
  {
    if file.None? then Rejected
    else
      var node := file.value;
      var h := ReadHeader(node);
      if !MagicOk(h) then Rejected
      else if !IdentOk(h) then Rejected
      else if !TypeOk(h) then Rejected
      else if h.phoff == 0 then Rejected
      else
        var hoff := h.phoff;
        if hoff == 0 then Rejected
        else
          RunningOffsetIsDirect(cfg, node, h, 0, hoff, mem);
          match LoadSegments(cfg, node, h, 0, hoff, mem)
          case None => Halted
          case Some(m) => Loaded(h.entry, m)
  }

  /** The value `ELF::load` returns: the entry point, or -1 as a `uint32_t`. */
  function ReturnValue(r: LoadResult): U32
    requires !r.Halted?
  {
    if r.Loaded? then r.entry else 0xFFFF_FFFF
  }

  /** Changing any one magic byte makes the file unloadable. */
  lemma BadMagicRejected(cfg: Config, node: Node, mem: Memory, i: nat, b: Byte)
    requires HEADER_SIZE <= |node.data| && i < 4 && b != node.data[i]
    requires MagicOk(ReadHeader(node))
    ensures Load(cfg, Some(node.(data := node.data[i := b])), mem) == Rejected
  {
    var bad := node.(data := node.data[i := b]);
    assert ReadStruct(bad, 0, HEADER_SIZE)[i] == b;
    assert ReadStruct(node, 0, HEADER_SIZE)[i] == node.data[i];
  }

  /** A well-formed executable with one loadable segment loads that
      segment and returns the entry point the header declares. */
  lemma SingleSegmentLoad(cfg: Config, node: Node, mem: Memory)
    requires HeaderOk(ReadHeader(node)) && ReadHeader(node).phnum == 1
    requires var ph := ReadProgramHeader(node, ReadHeader(node).phoff);
             ph.ptype == PT_LOAD && UserPointerOk(cfg, ph.vaddr)
    ensures Load(cfg, Some(node), mem) ==
      Loaded(ReadHeader(node).entry, CopySegment(node, ReadProgramHeader(node, ReadHeader(node).phoff), mem))
  {
    var h := ReadHeader(node);
    var ph := ReadProgramHeader(node, h.phoff);
    var m := CopySegment(node, ph, mem);
    SegmentBadIffBadPointer(cfg, ph);
    assert LoadOne(cfg, node, ph, mem) == Some(m);
    assert LoadSegments(cfg, node, h, 1, Wrap(h.phoff + h.phentsize), m) == Some(m);
    assert LoadSegments(cfg, node, h, 0, h.phoff, mem) == Some(m);
  }

  /** The round trip for such an executable (`filesz <= memsz`, segment
      bytes inside the file): the segment's file bytes sit at `vaddr` and the
      `memsz - filesz` bytes after them read as zero. */
  lemma SingleSegmentRoundTrip(cfg: Config, node: Node, mem: Memory, h: ElfHeader, ph: ProgramHeader, k: int)
    requires h == ReadHeader(node) && ph == ReadProgramHeader(node, h.phoff)
    requires HeaderOk(h) && h.phnum == 1
    requires ph.ptype == PT_LOAD && UserPointerOk(cfg, ph.vaddr) && ph.filesz <= ph.memsz
    requires ph.offset + ph.filesz <= |node.data|
    requires 0 <= k < WORD_LIMIT
    ensures var r := Load(cfg, Some(node), mem);
            && r.Loaded? && r.entry == h.entry
            && (k < ph.filesz ==> ByteAt(r.mem, Wrap(ph.vaddr + k)) == node.data[ph.offset + k])
            && (ph.filesz <= k < ph.memsz ==> ByteAt(r.mem, Wrap(ph.vaddr + k)) == 0)
  {
    SegmentLayout(node, ph, mem, k);
    SingleSegmentLoad(cfg, node, mem);
  }
}
