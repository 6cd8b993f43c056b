/** A process address space at page granularity.  A page is named by its
    page-directory index `pdi` and page-table index `pti` (1024 each);
    directory entries 512 .. 1023 form the private (user) half, the rest
    the kernel mapping every process shares.  The x86 entry bits are
    abstracted away: a page is present exactly when it has a frame, and
    `PhysMem::alloc_frame` is a bump allocator whose frames are fresh. */
module AddressSpace {
  import opened Machine

  const ENTRIES: nat := 1024
  const PRIVATE_FIRST: nat := 512
  const FRAME_SIZE: nat := 4096

  /** Number of page slots in the private half: 512 directory entries of 1024 pages. */
  const PRIVATE_PAGES: nat := 512 * 1024

  type Frame = nat

  datatype Page = Page(pdi: nat, pti: nat)

  /** Which frame backs each present page. */
  type PageMap = map<Page, Frame>

  /** Physical memory: the contents of every allocated frame, and the next
      frame the allocator will hand out. */
  datatype Phys = Phys(frames: map<Frame, seq<Byte>>, next: Frame)

  predicate IsPrivate(pg: Page) {
    PRIVATE_FIRST <= pg.pdi < ENTRIES && pg.pti < ENTRIES
  }

  /** Every allocated frame lies below the allocator's mark. */
  predicate PhysValid(ph: Phys) {
    forall f :: f in ph.frames ==> f < ph.next
  }

  /** Every present page is backed by an allocated frame. */
  predicate Backed(pages: PageMap, ph: Phys) {
    forall pg :: pg in pages ==> pages[pg] in ph.frames
  }

  /** The order in which fork's two nested loops visit the private pages. */
  function Position(pg: Page): int {
    (pg.pdi - PRIVATE_FIRST) * ENTRIES + pg.pti
  }

  /** The private page visited at step `k`. */
  function PageAt(k: nat): (pg: Page)
    requires k < PRIVATE_PAGES
    ensures IsPrivate(pg) && Position(pg) == k
  {
    Page(PRIVATE_FIRST + k / ENTRIES, k % ENTRIES)
  }

  /** Each private page is visited at exactly one step. */
  lemma PositionIdentifies(pg: Page)
    requires IsPrivate(pg)
    ensures 0 <= Position(pg) < PRIVATE_PAGES && PageAt(Position(pg)) == pg
  {
    var k := Position(pg);
    assert k / ENTRIES == pg.pdi - PRIVATE_FIRST;
  }

  /** The page-copy half of `Process::fork`.  For every private page present
      in `parent` and absent from `child` (in visiting order), a fresh frame
      is allocated, the parent's frame is copied into it byte for byte, and
      the child's page is pointed at it.  Pages below directory entry 512 are
      never visited. */
  method CopyPrivate(parent: PageMap, child: PageMap, ph: Phys) returns (child': PageMap, ph': Phys)
    requires PhysValid(ph) && Backed(parent, ph)
    ensures PhysValid(ph') && ph.next <= ph'.next
    ensures forall f :: f in ph.frames ==> f in ph'.frames && ph'.frames[f] == ph.frames[f]
    ensures forall pg :: pg in child ==> pg in child' && child'[pg] == child[pg]
    ensures forall pg :: pg in parent && IsPrivate(pg) && pg !in child ==> pg in child'
    ensures forall pg :: pg in child' && pg !in child ==>
      && IsPrivate(pg) && pg in parent
      && ph.next <= child'[pg] && child'[pg] in ph'.frames
      && ph'.frames[child'[pg]] == ph.frames[parent[pg]]
    ensures forall p1, p2 :: p1 in child' && p1 !in child && p2 in child' && p2 !in child && p1 != p2 ==>
      child'[p1] != child'[p2]
  {
    child' := child;
    ph' := ph;
    var k := 0;
    while k < PRIVATE_PAGES
      invariant 0 <= k <= PRIVATE_PAGES
      invariant PhysValid(ph') && ph.next <= ph'.next
      invariant forall f :: f in ph.frames ==> f in ph'.frames && ph'.frames[f] == ph.frames[f]
      invariant forall pg :: pg in child ==> pg in child' && child'[pg] == child[pg]
      invariant forall pg :: pg in parent && IsPrivate(pg) && Position(pg) < k && pg !in child ==> pg in child'
      invariant forall pg :: pg in child' && pg !in child ==>
        && IsPrivate(pg) && Position(pg) < k && pg in parent
        && ph.next <= child'[pg] < ph'.next && child'[pg] in ph'.frames
        && ph'.frames[child'[pg]] == ph.frames[parent[pg]]
      invariant forall p1, p2 :: p1 in child' && p1 !in child && p2 in child' && p2 !in child && p1 != p2 ==>
        child'[p1] != child'[p2]
    {
      var pg := PageAt(k);
      if pg !in child' && pg in parent {
        var f := ph'.next;
        ph' := Phys(ph'.frames[f := ph'.frames[parent[pg]]], f + 1);
        child' := child'[pg := f];
      }
      forall q | q in parent && IsPrivate(q) && Position(q) < k + 1 && q !in child
        ensures q in child'
      {
        PositionIdentifies(q);
      }
      k := k + 1;
    }
  }

  /** `clear_private`: drops every private page and keeps the shared half. */
  function ClearPrivate(pages: PageMap): (r: PageMap)
    ensures forall pg :: pg in r <==> pg in pages && !IsPrivate(pg)
    ensures forall pg :: pg in r ==> r[pg] == pages[pg]
  {
    map pg | pg in pages && !IsPrivate(pg) :: pages[pg]
  }

  /** The bytes a page shows, when it is present. */
  function PageBytes(pages: PageMap, ph: Phys, pg: Page): Option<seq<Byte>> {
    if pg in pages && pages[pg] in ph.frames then Some(ph.frames[pages[pg]]) else None
  }

  /** Stores `b` at offset `i` of frame `f`. */
  function WriteFrame(ph: Phys, f: Frame, i: nat, b: Byte): (ph': Phys)
    requires f in ph.frames && i < |ph.frames[f]|
    ensures ph'.next == ph.next && ph'.frames.Keys == ph.frames.Keys
    ensures ph'.frames[f] == ph.frames[f][i := b]
    ensures forall g :: g in ph.frames && g != f ==> ph'.frames[g] == ph.frames[g]
  {
    var contents: seq<Byte> := ph.frames[f][i := b];
    Phys(ph.frames[f := contents], ph.next)
  }
}
