/** NUL-terminated strings in user memory, as `strlen` and every consumer
    of a `const char *` argument see them.  The scan runs over 32-bit
    addresses, so a string may in principle wrap around the top of the
    address space; a memory with no zero byte at all holds no string. */
module CString {
  import opened Machine

  /** A string as C stores it: no byte of it is NUL. */
  predicate NoNul(s: seq<Byte>) {
    forall i :: 0 <= i < |s| ==> s[i] != 0
  }

  /** The byte at distance `i` from `p`, the address computed in 32 bits. */
  function Char(mem: Memory, p: U32, i: int): Byte {
    ByteAt(mem, Wrap(p + i))
  }

  /** The distance from `p` of the first NUL byte at distance `k` or more. */
  function NulFrom(mem: Memory, p: U32, k: nat): (r: Option<nat>)
    requires k <= WORD_LIMIT
    decreases WORD_LIMIT - k
    ensures r.Some? ==>
      && k <= r.value < WORD_LIMIT
      && Char(mem, p, r.value) == 0
      && forall j :: k <= j < r.value ==> Char(mem, p, j) != 0
    ensures r.None? ==> forall j :: k <= j < WORD_LIMIT ==> Char(mem, p, j) != 0
  {
    if k == WORD_LIMIT then None
    else if Char(mem, p, k) == 0 then Some(k)
    else NulFrom(mem, p, k + 1)
  }

  /** The `n` bytes starting at `p`. */
  function Bytes(mem: Memory, p: U32, n: nat): (s: seq<Byte>)
    ensures |s| == n && forall i :: 0 <= i < n ==> s[i] == Char(mem, p, i)
  {
    seq<Byte>(n, i requires 0 <= i < n => Char(mem, p, i))
  }

  /** The string that starts at `p`: the bytes before the first NUL. */
  function CStr(mem: Memory, p: U32): (r: Option<seq<Byte>>)
    ensures r.Some? <==> NulFrom(mem, p, 0).Some?
    ensures r.Some? ==>
      && NoNul(r.value) && |r.value| < WORD_LIMIT
      && Char(mem, p, |r.value|) == 0
      && forall i :: 0 <= i < |r.value| ==> r.value[i] == Char(mem, p, i)
  {
    match NulFrom(mem, p, 0)
    case None => None
    case Some(n) => Some(Bytes(mem, p, n))
  }

  /** `strlen(string)`: counts the bytes before the first NUL. */
  method Strlen(mem: Memory, p: U32) returns (n: nat)
    requires CStr(mem, p).Some?
    ensures n == |CStr(mem, p).value|
    ensures Char(mem, p, n) == 0
    ensures forall j :: 0 <= j < n ==> Char(mem, p, j) != 0
  {
    var end := NulFrom(mem, p, 0).value;
    n := 0;
    while Char(mem, p, n) != 0
      invariant n <= end
      invariant forall j :: 0 <= j < n ==> Char(mem, p, j) != 0
      decreases end - n
    {
      n := n + 1;
    }
  }

  /** Reading back a stored string: when the bytes of a NUL-free `s` sit at
      `p` and a NUL follows them, the string at `p` is `s`. */
  lemma CStrOf(mem: Memory, p: U32, s: seq<Byte>)
    requires NoNul(s) && |s| < WORD_LIMIT
    requires forall i :: 0 <= i < |s| ==> Char(mem, p, i) == s[i]
    requires Char(mem, p, |s|) == 0
    ensures CStr(mem, p) == Some(s)
  {
    assert Bytes(mem, p, |s|) == s;
  }
}
