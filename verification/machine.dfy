/** 32-bit machine words, bytes and a byte-addressed memory, as the kernel
    sees them on x86: unsigned arithmetic wraps modulo 2^32 and a word is
    stored little-endian.  The user/kernel split and the pointer-acceptance
    rule that every system call applies live here too, since the ELF loader
    uses the same test for segment addresses. */
module Machine {

  const WORD_LIMIT: int := 0x1_0000_0000

  /** An unsigned 32-bit value (`uint32_t`). */
  type U32 = x: int | 0 <= x < 0x1_0000_0000

  /** One byte of memory. */
  type Byte = x: int | 0 <= x < 256

  /** Byte-addressed memory: an address that is absent has never been written. */
  type Memory = map<U32, Byte>

  /** First address of the user (private) half of the address space. */
  const USER_BASE: U32 := 0x8000_0000

  datatype Option<T> = None | Some(value: T)

  /** Unsigned 32-bit wrap-around of an integer result. */
  function Wrap(x: int): (r: U32)
    ensures 0 <= x < WORD_LIMIT ==> r == x
    ensures WORD_LIMIT <= x < 2 * WORD_LIMIT ==> r == x - WORD_LIMIT
    ensures -WORD_LIMIT <= x < 0 ==> r == x + WORD_LIMIT
  {
    x % WORD_LIMIT
  }

  /** The C cast `(int) w` of a `uint32_t`: two's-complement reinterpretation. */
  function ToSigned(w: U32): (r: int)
    ensures -0x8000_0000 <= r < 0x8000_0000
    ensures Wrap(r) == w
  {
    if w < 0x8000_0000 then w else w - WORD_LIMIT
  }

  /** Reads a byte; memory nobody wrote reads as zero. */
  function ByteAt(m: Memory, a: U32): Byte {
    if a in m then m[a] else 0
  }

  /** Stores `bs` at `a, a+1, ...` (addresses wrap), leaving every other byte alone. */
  function WriteBytes(m: Memory, a: U32, bs: seq<Byte>): (m': Memory)
    requires |bs| <= WORD_LIMIT
    ensures forall x: U32 {:trigger ByteAt(m', x)} ::
      ByteAt(m', x) == if Wrap(x - a) < |bs| then bs[Wrap(x - a)] else ByteAt(m, x)
    ensures forall x: U32 {:trigger x in m'} :: x in m' <==> x in m || Wrap(x - a) < |bs|
  {
    map x: U32 | x in m || Wrap(x - a) < |bs| :: if Wrap(x - a) < |bs| then bs[Wrap(x - a)] else m[x]
  }

  /** The four bytes of a word, least significant first (x86 is little-endian). */
  function WordBytes(w: U32): (bs: seq<Byte>)
    ensures |bs| == 4
  {
    [w % 0x100, (w / 0x100) % 0x100, (w / 0x1_0000) % 0x100, w / 0x100_0000]
  }

  /** The word whose little-endian bytes are `b0 b1 b2 b3`. */
  function WordOf(b0: Byte, b1: Byte, b2: Byte, b3: Byte): U32 {
    b0 + 0x100 * b1 + 0x1_0000 * b2 + 0x100_0000 * b3
  }

  /** Loads the little-endian word at `a`. */
  function ReadWord(m: Memory, a: U32): U32 {
    WordOf(ByteAt(m, a), ByteAt(m, Wrap(a + 1)), ByteAt(m, Wrap(a + 2)), ByteAt(m, Wrap(a + 3)))
  }

  /** Stores `w` little-endian at `a` (`*(uint32_t*)a = w`). */
  function WriteWord(m: Memory, a: U32, w: U32): Memory {
    WriteBytes(m, a, WordBytes(w))
  }

  /** Encoding a word into bytes and decoding it again gives the word back. */
  lemma WordRoundTrip(w: U32)
    ensures var bs := WordBytes(w); WordOf(bs[0], bs[1], bs[2], bs[3]) == w
  {
    var q1 := w / 0x100;
    var q2 := q1 / 0x100;
    var q3 := q2 / 0x100;
    assert w == w % 0x100 + 0x100 * q1;
    assert q1 == q1 % 0x100 + 0x100 * q2;
    assert q2 == q2 % 0x100 + 0x100 * q3;
    assert q2 == w / 0x1_0000;
    assert q3 == w / 0x100_0000;
  }

  /** A word read back from where it was just stored is the stored word. */
  lemma ReadWriteWord(m: Memory, a: U32, w: U32)
    ensures ReadWord(WriteWord(m, a, w), a) == w
  {
    WordRoundTrip(w);
    var m' := WriteWord(m, a, w);
    assert Wrap(a - a) == 0;
    assert Wrap(Wrap(a + 1) - a) == 1;
    assert Wrap(Wrap(a + 2) - a) == 2;
    assert Wrap(Wrap(a + 3) - a) == 3;
  }

  /** Without wrap-around, a store of `bs` at `a` changes exactly the bytes
      at `a .. a + |bs| - 1`, the `k`-th of them to `bs[k]`. */
  lemma WriteBytesInside(m: Memory, a: U32, bs: seq<Byte>, x: U32)
    requires a + |bs| <= WORD_LIMIT && a <= x < a + |bs|
    ensures ByteAt(WriteBytes(m, a, bs), x) == bs[x - a]
  {
    assert Wrap(x - a) == x - a;
  }

  lemma WriteBytesOutside(m: Memory, a: U32, bs: seq<Byte>, x: U32)
    requires a + |bs| <= WORD_LIMIT && (x < a || a + |bs| <= x)
    ensures ByteAt(WriteBytes(m, a, bs), x) == ByteAt(m, x)
  {
    assert Wrap(x - a) >= |bs|;
  }

  /** Two memories that agree on the four bytes at `a` agree on the word there. */
  lemma ReadWordSame(m1: Memory, m2: Memory, a: U32)
    requires a + 4 <= WORD_LIMIT
    requires forall x: U32 :: a <= x < a + 4 ==> ByteAt(m1, x) == ByteAt(m2, x)
    ensures ReadWord(m1, a) == ReadWord(m2, a)
  {
    hide WordOf;
    assert Wrap(a + 1) == a + 1 && Wrap(a + 2) == a + 2 && Wrap(a + 3) == a + 3;
    assert ByteAt(m1, a) == ByteAt(m2, a);
    assert ByteAt(m1, a + 1) == ByteAt(m2, a + 1);
    assert ByteAt(m1, a + 2) == ByteAt(m2, a + 2);
    assert ByteAt(m1, a + 3) == ByteAt(m2, a + 3);
    assert ReadWord(m1, a) == WordOf(ByteAt(m1, a), ByteAt(m1, a + 1), ByteAt(m1, a + 2), ByteAt(m1, a + 3));
    assert ReadWord(m2, a) == WordOf(ByteAt(m2, a), ByteAt(m2, a + 1), ByteAt(m2, a + 2), ByteAt(m2, a + 3));
  }

  /** A word that does not overlap a store reads as before. */
  lemma ReadWordOutside(m: Memory, a: U32, bs: seq<Byte>, w: U32)
    requires a + |bs| <= WORD_LIMIT && w + 4 <= WORD_LIMIT
    requires w + 4 <= a || a + |bs| <= w
    ensures ReadWord(WriteBytes(m, a, bs), w) == ReadWord(m, w)
  {
    WriteBytesOutside(m, a, bs, w);
    WriteBytesOutside(m, a, bs, w + 1);
    WriteBytesOutside(m, a, bs, w + 2);
    WriteBytesOutside(m, a, bs, w + 3);
  }

  /** A word store leaves every byte outside it as it was. */
  lemma ByteAtPastStore(m: Memory, a: U32, v: U32, x: U32)
    requires a + 4 <= WORD_LIMIT && (x < a || a + 4 <= x)
    ensures ByteAt(WriteWord(m, a, v), x) == ByteAt(m, x)
  {
    WriteBytesOutside(m, a, WordBytes(v), x);
  }

  /** A word store leaves every word it does not overlap as it was. */
  lemma ReadWordPastStore(m: Memory, a: U32, v: U32, w: U32)
    requires a + 4 <= WORD_LIMIT && w + 4 <= WORD_LIMIT
    requires w + 4 <= a || a + 4 <= w
    ensures ReadWord(WriteWord(m, a, v), w) == ReadWord(m, w)
  {
    ReadWordOutside(m, a, WordBytes(v), w);
  }

  /** The physical addresses of the two memory-mapped interrupt controllers,
      which the kernel learns from its configuration at boot. */
  datatype Config = Config(ioAPIC: U32, localAPIC: U32)

  /** The acceptance test applied to every user-supplied pointer: it must lie
      in the user half and must not alias an interrupt-controller page. */
  predicate UserPointerOk(cfg: Config, p: U32) {
    p >= USER_BASE && p != cfg.ioAPIC && p != cfg.localAPIC
  }
}
