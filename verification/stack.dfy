/** The initial user stack `SYS::exec` builds below `0xefffe000`: the
    argument strings (NUL-terminated, the last one highest, padded so that
    what follows is word aligned), a null word, the array of string
    addresses, the address of that array, and `argc` on top of the stack. */
module ExecStack {
  import opened Machine
  import opened CString

  /** Where the stack of a freshly exec'd program starts. */
  const STACK_TOP: U32 := 0xefff_e000

  /** Arguments exec can copy: C strings that fit in the address space. */
  predicate ArgsOk(argv: seq<seq<Byte>>) {
    forall i :: 0 <= i < |argv| ==> NoNul(argv[i]) && |argv[i]| < WORD_LIMIT
  }

  /** `totalLen`: the bytes the strings take, each with its terminator. */
  function StringsLen(argv: seq<seq<Byte>>): nat {
    if |argv| == 0 then 0
    else StringsLen(argv[..|argv| - 1]) + |argv[|argv| - 1]| + 1
  }

  /** `alignedLen`: the string area rounded up to a word, always at least
      one byte larger than the strings. */
  function AlignedLen(total: nat): nat {
    ((total + 4) / 4) * 4
  }

  /** The padding below the stack top is one to four bytes, and the string
      area it completes is a whole number of words. */
  lemma PaddingBounds(total: nat)
    ensures 1 <= AlignedLen(total) - total <= 4
    ensures AlignedLen(total) % 4 == 0
  {
    var q := (total + 4) / 4;
    assert total + 4 == 4 * q + (total + 4) % 4;
  }

  /** The first loop: pushes `argv[n-1]`, ..., `argv[0]` with their
      terminators, each at the new stack pointer, and records where each
      string went.  Addresses are 32-bit, so a large push wraps. */
  function PushStrings(argv: seq<seq<Byte>>, sp: U32, mem: Memory): (res: (U32, seq<U32>, Memory))
    requires ArgsOk(argv)
    ensures |res.1| == |argv|
  {
    if |argv| == 0 then (sp, [], mem)
    else
      var s := argv[|argv| - 1] + [0];
      var sp1 := Wrap(sp - |s|);
      var (sp2, addrs, m2) := PushStrings(argv[..|argv| - 1], sp1, WriteBytes(mem, sp1, s));
      (sp2, addrs + [sp1], m2)
  }

  /** The second loop: pushes `ws[n-1]`, ..., `ws[0]` one word each. */
  function PushWords(ws: seq<U32>, sp: U32, mem: Memory): (res: (U32, Memory))
  {
    if |ws| == 0 then (sp, mem)
    else
      var sp1 := Wrap(sp - 4);
      PushWords(ws[..|ws| - 1], sp1, WriteWord(mem, sp1, ws[|ws| - 1]))
  }

  /** `totalLen` grows string by string: the strings before `argv[i]`
      together with `argv[i]` take no more than all of them. */
  lemma {:induction false} PrefixLen(argv: seq<seq<Byte>>, i: nat)
    requires i < |argv|
    ensures StringsLen(argv[..i + 1]) == StringsLen(argv[..i]) + |argv[i]| + 1
    ensures StringsLen(argv[..i + 1]) <= StringsLen(argv)
    decreases |argv|
  {
    assert argv[..i + 1][..i] == argv[..i];
    if i + 1 < |argv| {
      var init := argv[..|argv| - 1];
      assert init[..i + 1] == argv[..i + 1];
      assert init[..i] == argv[..i];
      PrefixLen(init, i);
    } else {
      assert argv[..i + 1] == argv;
    }
  }

  /** Where the strings go: the stack pointer drops by `totalLen` and
      `argv[i]` starts just above the strings before it. */
  lemma {:induction false} StringPlaces(argv: seq<seq<Byte>>, sp: U32, mem: Memory)
    requires ArgsOk(argv) && StringsLen(argv) <= sp
    ensures var (sp', addrs, _) := PushStrings(argv, sp, mem);
      && sp' == sp - StringsLen(argv)
      && (forall i :: 0 <= i < |argv| ==> addrs[i] == sp' + StringsLen(argv[..i]))
  {
    hide WriteBytes;
    if |argv| > 0 {
      var n := |argv|;
      var init := argv[..n - 1];
      var sp1 := sp - |argv[n - 1]| - 1;
      var m1 := WriteBytes(mem, sp1, argv[n - 1] + [0]);
      StringPlaces(init, sp1, m1);
      assert PushStrings(argv, sp, mem).1 == PushStrings(init, sp1, m1).1 + [sp1];
      forall i | 0 <= i < n - 1
        ensures init[..i] == argv[..i]
      {
      }
      assert argv[..n - 1] == init;
    }
  }

  /** Pushing the strings touches only the string area below `sp`. */
  lemma {:induction false} StringsFrame(argv: seq<seq<Byte>>, sp: U32, mem: Memory)
    requires ArgsOk(argv) && StringsLen(argv) <= sp
    ensures var m' := PushStrings(argv, sp, mem).2;
      forall x: U32 :: x < sp - StringsLen(argv) || sp <= x ==> ByteAt(m', x) == ByteAt(mem, x)
  {
    hide WriteBytes;
    if |argv| > 0 {
      var n := |argv|;
      var init := argv[..n - 1];
      var s := argv[n - 1] + [0];
      var sp1 := sp - |s|;
      var m1 := WriteBytes(mem, sp1, s);
      StringsFrame(init, sp1, m1);
      var m2 := PushStrings(init, sp1, m1).2;
      assert PushStrings(argv, sp, mem).2 == m2;
      forall x: U32 | x < sp - StringsLen(argv) || sp <= x
        ensures ByteAt(m2, x) == ByteAt(mem, x)
      {
        WriteBytesOutside(mem, sp1, s, x);
      }
    }
  }

  /** Each recorded address holds its argument string and its terminator. */
  lemma {:induction false} StringsContent(argv: seq<seq<Byte>>, sp: U32, mem: Memory)
    requires ArgsOk(argv) && StringsLen(argv) <= sp
    ensures var (_, addrs, m') := PushStrings(argv, sp, mem);
      forall i, k :: 0 <= i < |argv| && 0 <= k <= |argv[i]| ==>
        Char(m', addrs[i], k) == if k < |argv[i]| then argv[i][k] else 0
  {
    hide WriteBytes, Wrap;
    if |argv| > 0 {
      var n := |argv|;
      var init := argv[..n - 1];
      var s := argv[n - 1] + [0];
      var sp1 := sp - |s|;
      var m1 := WriteBytes(mem, sp1, s);
      var r0 := PushStrings(init, sp1, m1);
      var addrs0, m2 := r0.1, r0.2;
      StringsContent(init, sp1, m1);
      assert forall i, k :: 0 <= i < |init| && 0 <= k <= |init[i]| ==>
        Char(m2, addrs0[i], k) == if k < |init[i]| then init[i][k] else 0;
      assert PushStrings(argv, sp, mem) == (r0.0, addrs0 + [sp1], m2);
      var addrs := addrs0 + [sp1];
      forall i, k | 0 <= i < n && 0 <= k <= |argv[i]|
        ensures Char(m2, addrs[i], k) == if k < |argv[i]| then argv[i][k] else 0
      {
        if i == n - 1 {
          assert addrs[i] == sp1;
          LastStringContent(argv, sp, mem, k);
          assert Char(m2, sp1, k) == s[k];
          assert s[k] == if k < |argv[i]| then argv[i][k] else 0;
        } else {
          assert addrs[i] == addrs0[i] && argv[i] == init[i];
          assert Char(m2, addrs0[i], k) == if k < |init[i]| then init[i][k] else 0;
        }
      }
    }
  }

  /** The string pushed first, the last argument, is still in place once
      the strings before it have been pushed below it. */
  lemma LastStringContent(argv: seq<seq<Byte>>, sp: U32, mem: Memory, k: nat)
    requires ArgsOk(argv) && StringsLen(argv) <= sp && |argv| > 0 && k <= |argv[|argv| - 1]|
    ensures var n := |argv|;
      var s := argv[n - 1] + [0];
      var sp1 := sp - |s|;
      Char(PushStrings(argv[..n - 1], sp1, WriteBytes(mem, sp1, s)).2, sp1, k) == s[k]
  {
    hide WriteBytes, PushStrings;
    var n := |argv|;
    var init := argv[..n - 1];
    var s := argv[n - 1] + [0];
    var sp1 := sp - |s|;
    var m1 := WriteBytes(mem, sp1, s);
    StringsFrame(init, sp1, m1);
    assert Wrap(sp1 + k) == sp1 + k;
    WriteBytesInside(mem, sp1, s, sp1 + k);
  }

  /** Where the words go: the stack pointer drops by four per word. */
  lemma {:induction false} WordsPlace(ws: seq<U32>, sp: U32, mem: Memory)
    requires 4 * |ws| <= sp
    ensures PushWords(ws, sp, mem).0 == sp - 4 * |ws|
  {
    hide WriteBytes;
    if |ws| > 0 {
      var n := |ws|;
      WordsPlace(ws[..n - 1], sp - 4, WriteWord(mem, sp - 4, ws[n - 1]));
    }
  }

  /** Pushing the words touches only the `4 * |ws|` bytes below `sp`. */
  lemma {:induction false} WordsFrame(ws: seq<U32>, sp: U32, mem: Memory)
    requires 4 * |ws| <= sp
    ensures var m' := PushWords(ws, sp, mem).1;
      forall x: U32 :: x < sp - 4 * |ws| || sp <= x ==> ByteAt(m', x) == ByteAt(mem, x)
  {
    hide WriteBytes, WordBytes;
    if |ws| > 0 {
      var n := |ws|;
      var sp1 := sp - 4;
      var m1 := WriteWord(mem, sp1, ws[n - 1]);
      WordsFrame(ws[..n - 1], sp1, m1);
      var m2 := PushWords(ws[..n - 1], sp1, m1).1;
      assert PushWords(ws, sp, mem).1 == m2;
      forall x: U32 | x < sp - 4 * n || sp <= x
        ensures ByteAt(m2, x) == ByteAt(mem, x)
      {
        WriteBytesOutside(mem, sp1, WordBytes(ws[n - 1]), x);
      }
    }
  }

  /** `ws[i]` is the word at `sp' + 4i`, `ws[0]` lowest. */
  lemma {:induction false} WordsContent(ws: seq<U32>, sp: U32, mem: Memory)
    requires 4 * |ws| <= sp
    ensures var m' := PushWords(ws, sp, mem).1;
      forall i :: 0 <= i < |ws| ==> ReadWord(m', sp - 4 * |ws| + 4 * i) == ws[i]
  {
    hide WriteBytes, WordBytes, ReadWord;
    if |ws| > 0 {
      var n := |ws|;
      var init := ws[..n - 1];
      var sp1 := sp - 4;
      var m1 := WriteWord(mem, sp1, ws[n - 1]);
      WordsContent(init, sp1, m1);
      WordsFrame(init, sp1, m1);
      var m2 := PushWords(init, sp1, m1).1;
      assert PushWords(ws, sp, mem).1 == m2;
      ReadWriteWord(mem, sp1, ws[n - 1]);
      ReadWordSame(m2, m1, sp1);
      forall i | 0 <= i < n
        ensures ReadWord(m2, sp - 4 * n + 4 * i) == ws[i]
      {
        if i < n - 1 {
          assert init[i] == ws[i];
        }
      }
    }
  }

  /** The stack exec hands to the new program: the final stack pointer,
      where each argument string went, and the memory holding it all. */
  datatype StackImage = StackImage(sp: U32, addrs: seq<U32>, mem: Memory)

  /** The whole construction: padding, strings, the null word, the address
      array, the pointer to that array and `argc`, each pushed in turn. */
  function BuildStack(argv: seq<seq<Byte>>, mem: Memory): (img: StackImage)
    requires ArgsOk(argv)
    ensures |img.addrs| == |argv|
  {
    var total := StringsLen(argv);
    var sp0 := Wrap(STACK_TOP - (AlignedLen(total) - total));
    var (sp1, addrs, m1) := PushStrings(argv, sp0, mem);
    var sp2 := Wrap(sp1 - 4);
    var m2 := WriteWord(m1, sp2, 0);
    var (sp3, m3) := PushWords(addrs, sp2, m2);
    var sp4 := Wrap(sp3 - 4);
    var m4 := WriteWord(m3, sp4, Wrap(sp4 + 4));
    var sp5 := Wrap(sp4 - 4);
    StackImage(sp5, addrs, WriteWord(m4, sp5, Wrap(|argv|)))
  }

  /** The arguments leave room for the whole frame below the stack top, so
      no address computed on the way wraps. */
  predicate Fits(argv: seq<seq<Byte>>) {
    AlignedLen(StringsLen(argv)) + 4 * (|argv| + 3) <= STACK_TOP
  }

  /** The intermediate stack pointers and memories of `BuildStack`, with
      the wrap-arounds gone. */
  lemma StackSteps(argv: seq<seq<Byte>>, mem: Memory)
    returns (sp0: U32, sp1: U32, m1: Memory, sp2: U32, m2: Memory, sp3: U32, m3: Memory, sp4: U32, m4: Memory)
    requires ArgsOk(argv) && Fits(argv)
    ensures var img := BuildStack(argv, mem);
      var total := StringsLen(argv);
      && sp0 == STACK_TOP - (AlignedLen(total) - total)
      && PushStrings(argv, sp0, mem) == (sp1, img.addrs, m1)
      && sp1 == sp0 - total
      && sp2 == sp1 - 4 && m2 == WriteWord(m1, sp2, 0)
      && PushWords(img.addrs, sp2, m2) == (sp3, m3)
      && sp3 == sp2 - 4 * |argv|
      && sp4 == sp3 - 4 && m4 == WriteWord(m3, sp4, sp4 + 4)
      && img.sp == sp4 - 4 && img.mem == WriteWord(m4, img.sp, |argv|)
  {
    hide WriteBytes, WordBytes, WriteWord, Wrap, PushStrings, PushWords;
    var total := StringsLen(argv);
    var aligned := AlignedLen(total);
    PaddingBounds(total);
    sp0 := STACK_TOP - (aligned - total);
    StringPlaces(argv, sp0, mem);
    var (s1, addrs, n1) := PushStrings(argv, sp0, mem);
    sp1, m1 := s1, n1;
    sp2 := sp1 - 4;
    m2 := WriteWord(m1, sp2, 0);
    WordsPlace(addrs, sp2, m2);
    var (s3, n3) := PushWords(addrs, sp2, m2);
    sp3, m3 := s3, n3;
    sp4 := sp3 - 4;
    m4 := WriteWord(m3, sp4, sp4 + 4);
    assert Wrap(STACK_TOP - (aligned - total)) == sp0;
    assert Wrap(sp1 - 4) == sp2;
    assert Wrap(sp3 - 4) == sp4;
    assert Wrap(sp4 + 4) == sp4 + 4;
    assert Wrap(sp4 - 4) == sp4 - 4;
    assert Wrap(|argv|) == |argv|;
    assert BuildStack(argv, mem) == StackImage(sp4 - 4, addrs, WriteWord(m4, sp4 - 4, |argv|));
  }

  /** The final stack pointer sits `4 * (argc + 3)` bytes below the string
      area and is word aligned. */
  lemma StackPointer(argv: seq<seq<Byte>>, mem: Memory)
    requires ArgsOk(argv) && Fits(argv)
    ensures var sp := BuildStack(argv, mem).sp;
      && sp == STACK_TOP - AlignedLen(StringsLen(argv)) - 4 * (|argv| + 3)
      && sp % 4 == 0
  {
    hide WriteBytes, WordBytes, WriteWord, PushStrings, PushWords, BuildStack;
    var _, _, _, _, _, _, _, _, _ := StackSteps(argv, mem);
    var total := StringsLen(argv);
    var q := (total + 4) / 4;
    assert AlignedLen(total) == 4 * q;
    var k := 0x3bff_f800 - q - |argv| - 3;
    var sp := BuildStack(argv, mem).sp;
    assert sp == 4 * k;
    assert sp % 4 == 0 by {
      assert sp / 4 == k;
    }
  }

  /** The words of the frame: `argc` at `sp`, the address of the argument
      array at `sp + 4`, the string addresses from `sp + 8` on, and a null
      word after the last of them. */
  lemma StackWords(argv: seq<seq<Byte>>, mem: Memory)
    requires ArgsOk(argv) && Fits(argv)
    ensures var img := BuildStack(argv, mem);
      && ReadWord(img.mem, img.sp) == |argv|
      && ReadWord(img.mem, Wrap(img.sp + 4)) == Wrap(img.sp + 8)
      && (forall i :: 0 <= i < |argv| ==> ReadWord(img.mem, Wrap(img.sp + 8 + 4 * i)) == img.addrs[i])
      && ReadWord(img.mem, Wrap(img.sp + 8 + 4 * |argv|)) == 0
  {
    hide WriteBytes, WordBytes, WriteWord, ReadWord, Wrap, PushStrings, PushWords, BuildStack;
    var img := BuildStack(argv, mem);
    var sp0, sp1, m1, sp2, m2, sp3, m3, sp4, m4 := StackSteps(argv, mem);
    var sp5 := img.sp;
    var n := |argv|;
    assert Wrap(sp5 + 4) == sp4 && Wrap(sp5 + 8) == sp4 + 4;
    ReadWriteWord(m4, sp5, n);
    ReadWordPastStore(m4, sp5, n, sp4);
    ReadWriteWord(m3, sp4, sp4 + 4);
    forall i | 0 <= i < n
      ensures ReadWord(img.mem, Wrap(sp5 + 8 + 4 * i)) == img.addrs[i]
    {
      var w := sp3 + 4 * i;
      assert Wrap(sp5 + 8 + 4 * i) == w;
      ReadWordPastStore(m4, sp5, n, w);
      ReadWordPastStore(m3, sp4, sp4 + 4, w);
      WordsContent(img.addrs, sp2, m2);
    }
    assert Wrap(sp5 + 8 + 4 * n) == sp2;
    ReadWordPastStore(m4, sp5, n, sp2);
    ReadWordPastStore(m3, sp4, sp4 + 4, sp2);
    WordsFrame(img.addrs, sp2, m2);
    ReadWordSame(m3, m2, sp2);
    ReadWriteWord(m1, sp2, 0);
  }

  /** Every recorded address holds a copy of its argument: the string read
      back from `addrs[i]` is `argv[i]`. */
  lemma StackStrings(argv: seq<seq<Byte>>, mem: Memory, i: nat)
    requires ArgsOk(argv) && Fits(argv) && i < |argv|
    ensures var img := BuildStack(argv, mem);
      CStr(img.mem, img.addrs[i]) == Some(argv[i])
  {
    hide WriteBytes, WordBytes, WriteWord, PushStrings, PushWords, BuildStack;
    var img := BuildStack(argv, mem);
    var sp0, sp1, m1, sp2, m2, sp3, m3, sp4, m4 := StackSteps(argv, mem);
    var a := img.addrs[i];
    StringPlaces(argv, sp0, mem);
    PrefixLen(argv, i);
    StringsContent(argv, sp0, mem);
    WordsFrame(img.addrs, sp2, m2);
    forall k | 0 <= k <= |argv[i]|
      ensures Char(img.mem, a, k) == Char(m1, a, k)
    {
      var x := a + k;
      ByteAtPastStore(m4, img.sp, |argv|, x);
      ByteAtPastStore(m3, sp4, sp4 + 4, x);
      ByteAtPastStore(m1, sp2, 0, x);
    }
    CStrOf(img.mem, a, argv[i]);
  }

  /** The strings lie in argument order from the bottom of the string area
      up, without overlap, the last one ending where the padding begins. */
  lemma StackOrder(argv: seq<seq<Byte>>, mem: Memory)
    requires ArgsOk(argv) && Fits(argv) && |argv| > 0
    ensures var img := BuildStack(argv, mem);
      var total := StringsLen(argv);
      var n := |argv|;
      && img.addrs[0] == STACK_TOP - AlignedLen(total)
      && (forall i, j :: 0 <= i < j < n ==> img.addrs[i] + |argv[i]| < img.addrs[j])
      && img.addrs[n - 1] + |argv[n - 1]| + 1 == STACK_TOP - (AlignedLen(total) - total)
  {
    hide WriteBytes, WordBytes, WriteWord, PushStrings, PushWords, BuildStack;
    var img := BuildStack(argv, mem);
    var sp0, sp1, m1, sp2, m2, sp3, m3, sp4, m4 := StackSteps(argv, mem);
    var n := |argv|;
    StringPlaces(argv, sp0, mem);
    assert argv[..0] == [];
    forall i, j | 0 <= i < j < n
      ensures img.addrs[i] + |argv[i]| < img.addrs[j]
    {
      var pre := argv[..j];
      PrefixLen(pre, i);
      assert pre[..i + 1] == argv[..i + 1] && pre[..i] == argv[..i];
    }
    PrefixLen(argv, n - 1);
    assert argv[..n] == argv;
  }

  /** Exec writes nothing above the string area (the padding keeps what it
      held) and nothing below the final stack pointer. */
  lemma StackUntouched(argv: seq<seq<Byte>>, mem: Memory)
    requires ArgsOk(argv) && Fits(argv)
    ensures var img := BuildStack(argv, mem);
      var total := StringsLen(argv);
      forall x: U32 :: x < img.sp || STACK_TOP - (AlignedLen(total) - total) <= x ==>
        ByteAt(img.mem, x) == ByteAt(mem, x)
  {
    hide WriteBytes, WordBytes, WriteWord, PushStrings, PushWords, BuildStack;
    var img := BuildStack(argv, mem);
    var sp0, sp1, m1, sp2, m2, sp3, m3, sp4, m4 := StackSteps(argv, mem);
    StringsFrame(argv, sp0, mem);
    WordsFrame(img.addrs, sp2, m2);
    forall x: U32 | x < img.sp || sp0 <= x
      ensures ByteAt(img.mem, x) == ByteAt(mem, x)
    {
      ByteAtPastStore(m4, img.sp, |argv|, x);
      ByteAtPastStore(m3, sp4, sp4 + 4, x);
      ByteAtPastStore(m1, sp2, 0, x);
    }
  }
}
