/** Resource handles: a 32-bit value whose top nibble names the kind of
    resource and whose low 28 bits index that kind's table.  The source
    tests the nibble with `id & 0xF0000000` and the index with
    `id & 0x0FFFFFFF`; for a value in 0 .. 2^32-1 these are exactly
    `(id / 2^28) * 2^28` and `id % 2^28`, which is how they are written here. */
module Handles {
  import opened Machine

  const NFILE: nat := 10
  const NCHILD: nat := 10
  const NSEM: nat := 10

  const INDEX_LIMIT: int := 0x1000_0000

  /** The universal failure value, -1, as a 32-bit pattern. */
  const FAILURE: U32 := 0xFFFF_FFFF

  datatype Kind = FileKind | ChildKind | SemKind

  /** The kind tags `FL`, `PROC` and `SEM`. */
  function Tag(k: Kind): U32 {
    match k
    case FileKind => 0x0000_0000
    case ChildKind => 0x1000_0000
    case SemKind => 0x2000_0000
  }

  /** The table size for each kind. */
  function Capacity(k: Kind): nat {
    match k
    case FileKind => NFILE
    case ChildKind => NCHILD
    case SemKind => NSEM
  }

  /** `id & 0xF0000000` */
  function KindBits(id: U32): U32 {
    (id / INDEX_LIMIT) * INDEX_LIMIT
  }

  /** `id & INDEX_MASK` */
  function IndexBits(id: U32): U32 {
    id % INDEX_LIMIT
  }

  /** The handle for slot `i` of kind `k`: `TAG | (i & INDEX_MASK)`. */
  function Encode(k: Kind, i: nat): (id: U32)
    requires i < INDEX_LIMIT
    ensures KindBits(id) == Tag(k) && IndexBits(id) == i
  {
    Tag(k) + i
  }

  /** `getFileIndex`, `getChildIndex` and `getSemaphoreIndex`: the slot
      index when the tag is `k`'s and the index is below `k`'s capacity,
      otherwise -1. */
  function DecodeIndex(k: Kind, id: U32): (r: int)
    ensures r == -1 || (0 <= r < Capacity(k) && Encode(k, r) == id)
  {
    var kind := KindBits(id);
    var index := IndexBits(id);
    if kind != Tag(k) then -1
    else if index >= Capacity(k) then -1
    else index
  }

  /** Decoding the handle of a slot gives back that slot, for every kind. */
  lemma DecodeEncode(k: Kind, i: nat)
    requires i < Capacity(k)
    ensures DecodeIndex(k, Encode(k, i)) == i
  {
  }

  /** A handle decodes as kind `k` exactly when it is the encoding of one of
      `k`'s slots. */
  lemma DecodeExactly(k: Kind, id: U32)
    ensures DecodeIndex(k, id) >= 0 <==> exists i :: 0 <= i < Capacity(k) && Encode(k, i) == id
  {
    if i :| 0 <= i < Capacity(k) && Encode(k, i) == id {
      DecodeEncode(k, i);
    }
  }

  /** -1 (tag 0xF) never decodes as any kind. */
  lemma FailureNeverDecodes(k: Kind)
    ensures DecodeIndex(k, FAILURE) == -1
  {
    assert KindBits(FAILURE) == 0xF000_0000;
  }

  /** The three kinds never claim the same handle. */
  lemma KindsAreExclusive(k1: Kind, k2: Kind, id: U32)
    requires DecodeIndex(k1, id) >= 0 && DecodeIndex(k2, id) >= 0
    ensures k1 == k2
  {
  }
}
