/** kmalloc, kfree and ksize (kern/mm/vmm/flff.c) over the page allocator.

    A block is a byte interval that starts with its header; `free` is the
    address-ordered free list and `live` gives, for the base of every allocated
    block, the size its header records. Sizes are those of a 32-bit build. */
module Kmalloc {
  import opened Extents
  import opened FreeList
  import opened PageAllocator

  const HEADER: nat := 32
  const ALLOC_ALIGN: nat := 16
  const WORD: nat := 0x1_0000_0000

  datatype Heap = Heap(free: seq<Extent>, live: map<nat, nat>, pool: Pool)

  datatype Option<T> = None | Some(value: T)

  function Round16(x: nat): nat { (x + 15) / 16 * 16 }

  function PageUp(x: nat): nat { (x + (PAGE_SIZE - 1)) / PAGE_SIZE * PAGE_SIZE }

  function PageDown(x: nat): nat { x / PAGE_SIZE * PAGE_SIZE }

  function LiveBytes(live: map<nat, nat>): set<nat> {
    set b, x: nat | b in live && b <= x < b + live[b] && Holds(Extent(b, live[b]), x) :: x
  }

  /** All bytes in kmalloc's hands. */
  ghost function Held(h: Heap): set<nat> {
    Bytes(h.free) + LiveBytes(h.live)
  }

  /** No block contains a whole aligned page. */
  ghost predicate NoWholePage(es: seq<Extent>) {
    forall i :: 0 <= i < |es| ==> PageDown(es[i].End()) <= PageUp(es[i].base)
  }

  /** Every block but block `m` is free of whole pages. */
  ghost predicate OthersSmall(es: seq<Extent>, m: nat) {
    m < |es| && forall i :: 0 <= i < |es| && i != m ==> PageDown(es[i].End()) <= PageUp(es[i].base)
  }

  ghost predicate LiveOk(live: map<nat, nat>) {
    && (forall b :: b in live ==> b % 16 == 0 && live[b] % 16 == 0 && live[b] >= HEADER)
    && (forall a, b :: a in live && b in live && a != b ==> a + live[a] <= b || b + live[b] <= a)
  }

  ghost predicate InWord(s: set<nat>) {
    forall x :: x in s ==> x < WORD
  }

  /** Live and free blocks are pairwise disjoint, 16-byte aligned and clear of
      the page allocator's free memory; the free list is address-ordered. */
  ghost predicate Tiled(h: Heap) {
    && Valid(h.pool)
    && NonEmpty(h.free) && Ordered(h.free) && Aligned(h.free, 16)
    && LiveOk(h.live)
    && LiveBytes(h.live) !! Bytes(h.free)
    && Held(h) !! FreeBytes(h.pool)
    && InWord(Held(h) + FreeBytes(h.pool))
  }

  ghost predicate AllAtLeast(bs: seq<Extent>, n: nat) {
    forall i :: 0 <= i < |bs| ==> bs[i].size >= n
  }

  /** Every block, free or live, holds its own header. */
  ghost predicate Headed(h: Heap) {
    AllAtLeast(h.free, HEADER) && forall b :: b in h.live ==> h.live[b] >= HEADER
  }

  ghost predicate Laid(h: Heap) {
    Tiled(h) && NoWholePage(h.free)
  }

  /** What every call relies on: the size and the list links of a block are
      inside the block, out of reach of whoever owns its neighbours. */
  ghost predicate HeapOk(h: Heap) {
    Laid(h) && Headed(h)
  }

  // ------------------------------------------------------------------
  // What the calls do.

  /** A size_t difference: 32-bit wrap-around. */
  function Minus(a: nat, b: nat): nat {
    (a - b) % WORD
  }

  /** Cuts a block for `need` bytes from free block `k`; a rest too small for a
      header and a payload stays with the block. */
  function Carve(h: Heap, k: nat, need: nat): (Heap, nat)
    requires k < |h.free|
  {
    var b := h.free[k];
    var rest := Minus(b.size, need);
    if rest >= HEADER + ALLOC_ALIGN then
      (Heap(h.free[..k] + [Extent(b.base + need, rest)] + h.free[k + 1..], h.live[b.base := need], h.pool), b.base)
    else
      (Heap(h.free[..k] + h.free[k + 1..], h.live[b.base := b.size], h.pool), b.base)
  }

  /** Rounded size and header in 32-bit arithmetic, which wraps for sizes close
      to the top. */
  function Need(size: nat): nat { (Round16(size) % WORD + HEADER) % WORD }

  /** What is asked of the page allocator when no block fits; it leaves out the
      header, and wraps too. */
  function Request(size: nat): nat { PageUp(Round16(size) % WORD) % WORD }

  /** Sizes for which nothing wraps. */
  predicate Sane(size: nat) {
    size <= WORD - PAGE_SIZE
  }

  function InsertBlock(h: Heap, e: Extent, pool: Pool): Heap {
    var j := Position(h.free, e.base);
    Heap(h.free[..j] + [e] + h.free[j..], h.live, pool)
  }

  /** kmalloc; the result is the base of the block. Only EOF from the page
      allocator is taken for failure, so a refused request goes on with the
      address 0 the page descriptor was initialised with. */
  function Allocate(h: Heap, size: nat): (Heap, Option<nat>) {
    var k := FirstFit(h.free, Need(size));
    if k < |h.free| then
      var (h', b) := Carve(h, k, Need(size));
      (h', Some(b))
    else
      var (pool, o) := Alloc(h.pool, Request(size));
      if o.Exhausted? then (h, None)
      else
        var base := if o.Taken? then o.paddr else 0;
        var h1 := InsertBlock(h, Extent(base, Request(size)), pool);
        var (h', b) := Carve(h1, Position(h.free, base), Need(size));
        (h', Some(b))
  }

  /** The bytes from `a` to `b` as a list of at most one block. */
  function Part(a: nat, b: nat): seq<Extent> {
    if a < b then [Extent(a, b - a)] else []
  }

  function Slices(b: Extent): seq<Extent> {
    var first, last := PageUp(b.base), PageDown(b.End());
    if first >= last then [b] else Part(b.base, first) + Part(last, b.End())
  }

  /** The whole pages inside `b`, as an extent; empty if there are none. */
  function Whole(b: Extent): Extent {
    var first, last := PageUp(b.base), PageDown(b.End());
    if first >= last then Extent(first, 0) else Extent(first, last - first)
  }

  function ReturnPages(h: Heap, m: nat): Heap
    requires m < |h.free|
  {
    var b := h.free[m];
    Heap(h.free[..m] + Slices(b) + h.free[m + 1..], h.live,
         if Whole(b).size > 0 then Free(h.pool, Whole(b)) else h.pool)
  }

  // ------------------------------------------------------------------
  // Live blocks.

  lemma LiveBytesAdd(live: map<nat, nat>, b: nat, n: nat)
    requires b !in live
    ensures LiveBytes(live[b := n]) == LiveBytes(live) + Span(b, n)
  {
    var m := live[b := n];
    forall x | x in Span(b, n) ensures x in LiveBytes(m) {
      assert b in m && Holds(Extent(b, m[b]), x);
    }
    forall x | x in LiveBytes(live) ensures x in LiveBytes(m) {
      var a :| a in live && a <= x < a + live[a] && Holds(Extent(a, live[a]), x);
      assert a in m && m[a] == live[a];
    }
  }

  lemma LiveBytesDrop(live: map<nat, nat>, b: nat)
    requires b in live && LiveOk(live)
    ensures LiveBytes(live - {b}) == LiveBytes(live) - Span(b, live[b])
    ensures Span(b, live[b]) <= LiveBytes(live)
  {
    var m := live - {b};
    forall x | x in Span(b, live[b]) ensures x in LiveBytes(live) {
      assert Holds(Extent(b, live[b]), x);
    }
    forall x | x in LiveBytes(live) && x !in Span(b, live[b]) ensures x in LiveBytes(m) {
      var a :| a in live && a <= x < a + live[a] && Holds(Extent(a, live[a]), x);
      assert a in m && m[a] == live[a];
    }
  }

  lemma LiveOkAdd(live: map<nat, nat>, b: nat, n: nat)
    requires LiveOk(live) && Span(b, n) !! LiveBytes(live)
    requires b % 16 == 0 && n % 16 == 0 && n >= HEADER
    ensures b !in live && LiveOk(live[b := n])
  {
    forall a | a in live ensures a != b && (a + live[a] <= b || b + n <= a) {
      LiveBytesDrop(live, a);
      assert a in Span(a, live[a]) && b in Span(b, n);
    }
  }

  // ------------------------------------------------------------------
  // Allocation.

  /** Block `k` with `taken` bytes allocated from its low end. */
  function Taking(h: Heap, k: nat, taken: nat): Heap
    requires k < |h.free| && taken <= h.free[k].size
  {
    Heap(Cut(h.free, k, taken), h.live[h.free[k].base := taken], h.pool)
  }

  /** How much of a block of `size` bytes goes to a request for `need`. */
  function Share(size: nat, need: nat): nat
    requires need <= size
  {
    if size - need >= HEADER + ALLOC_ALIGN then need else size
  }

  lemma BlockInWord(h: Heap, k: nat)
    requires Tiled(h) && k < |h.free|
    ensures h.free[k].End() <= WORD
  {
    hide FreeBytes, LiveBytes, Bytes;
    BytesAt(h.free, k);
    var last := h.free[k].End() - 1;
    assert last in Span(h.free[k].base, h.free[k].size);
    assert last in Held(h) + FreeBytes(h.pool);
  }

  lemma CarveTakes(h: Heap, k: nat, need: nat)
    requires k < |h.free| && 0 < need <= h.free[k].size <= WORD
    ensures Carve(h, k, need) == (Taking(h, k, Share(h.free[k].size, need)), h.free[k].base)
  {
    assert Minus(h.free[k].size, need) == h.free[k].size - need;
  }

  lemma TakingSets(h: Heap, k: nat, taken: nat)
    requires Tiled(h) && k < |h.free| && taken <= h.free[k].size
    ensures Span(h.free[k].base, taken) !! LiveBytes(h.live)
    ensures Bytes(Cut(h.free, k, taken)) == Bytes(h.free) - Span(h.free[k].base, taken)
    ensures Span(h.free[k].base, taken) <= Bytes(h.free)
  {
    hide Bytes, LiveBytes, FreeBytes, Cut, LiveOk, InWord;
    CutBytes(h.free, k, taken);
  }

  /** Moving bytes from a free block to a live one keeps the tiling. */
  lemma TakingTiled(h: Heap, k: nat, taken: nat)
    requires Tiled(h) && k < |h.free| && HEADER <= taken <= h.free[k].size && taken % 16 == 0
    ensures Tiled(Taking(h, k, taken)) && Held(Taking(h, k, taken)) == Held(h)
    ensures h.free[k].base !in h.live
  {
    hide Bytes, LiveBytes, FreeBytes, Cut, LiveOk, InWord, Valid, Span;
    var base := h.free[k].base;
    TakingSets(h, k, taken);
    LiveOkAdd(h.live, base, taken);
    LiveBytesAdd(h.live, base, taken);
    CutKeeps(h.free, k, taken, 16);
    TakingHeld(h, k, taken);
  }

  lemma TakingHeld(h: Heap, k: nat, taken: nat)
    requires k < |h.free| && taken <= h.free[k].size
    requires LiveBytes(h.live[h.free[k].base := taken]) == LiveBytes(h.live) + Span(h.free[k].base, taken)
    requires Bytes(Cut(h.free, k, taken)) == Bytes(h.free) - Span(h.free[k].base, taken)
    requires Span(h.free[k].base, taken) <= Bytes(h.free)
    ensures Held(Taking(h, k, taken)) == Held(h)
  {
    hide Bytes, LiveBytes, Cut, Span;
  }

  lemma PageUpMonotone(x: nat, y: nat)
    requires x <= y
    ensures PageUp(x) <= PageUp(y)
  {
  }

  lemma TakingNoWholePage(h: Heap, k: nat, taken: nat)
    requires OthersSmall(h.free, k) && taken <= h.free[k].size
    requires PageDown(h.free[k].End()) <= PageUp(h.free[k].base + taken)
    ensures NoWholePage(Taking(h, k, taken).free)
  {
    hide Cut, PageUp, PageDown;
    CutShape(h.free, k, taken);
  }

  lemma InsertHeld(h: Heap, e: Extent, pool: Pool)
    ensures Bytes(InsertBlock(h, e, pool).free) == Bytes(h.free) + Span(e.base, e.size)
  {
    hide Bytes, Total;
    var j := Position(h.free, e.base);
    BytesGlue(h.free[..j], e, h.free[j..]);
    BytesSplit(h.free, j);
  }

  lemma PageIs16(x: nat)
    requires x % PAGE_SIZE == 0
    ensures x % 16 == 0
  {
  }

  lemma NewPagesSets(h: Heap, n: nat, p: nat, pool: Pool)
    requires Tiled(h) && n > 0 && Alloc(h.pool, n) == (pool, Taken(p))
    ensures Valid(pool) && p % PAGE_SIZE == 0 && n % PAGE_SIZE == 0
    ensures Span(p, n) <= FreeBytes(h.pool) && FreeBytes(pool) == FreeBytes(h.pool) - Span(p, n)
    ensures Span(p, n) !! Held(h)
  {
    hide Bytes, LiveBytes, FreeBytes, Valid, Alloc, LiveOk, Ordered, Aligned, HasRun, Span;
    AllocTakesLowestRun(h.pool, n);
    assert IsRun(FreeBytes(h.pool), p, n);
  }

  lemma NewPagesList(h: Heap, n: nat, p: nat, pool: Pool)
    requires NonEmpty(h.free) && Ordered(h.free) && Aligned(h.free, 16)
    requires n > 0 && p % PAGE_SIZE == 0 && n % PAGE_SIZE == 0 && Span(p, n) !! Bytes(h.free)
    ensures var f := InsertBlock(h, Extent(p, n), pool).free; NonEmpty(f) && Ordered(f) && Aligned(f, 16)
  {
    hide Bytes, Span;
    PageIs16(p);
    PageIs16(n);
    NeighboursDisjoint(h.free, Extent(p, n));
    InsertKeeps(h.free, Extent(p, n), Position(h.free, p), 16);
  }

  /** Pages taken from the pool become one free block. */
  lemma NewPagesTiled(h: Heap, n: nat, p: nat, pool: Pool)
    requires Tiled(h) && n > 0 && Alloc(h.pool, n) == (pool, Taken(p))
    ensures Tiled(InsertBlock(h, Extent(p, n), pool))
    ensures Held(InsertBlock(h, Extent(p, n), pool)) == Held(h) + Span(p, n)
    ensures Span(p, n) <= FreeBytes(h.pool) && FreeBytes(pool) == FreeBytes(h.pool) - Span(p, n)
    ensures p % PAGE_SIZE == 0 && n % PAGE_SIZE == 0
  {
    hide Bytes, LiveBytes, FreeBytes, Valid, Alloc, LiveOk, Ordered, Aligned, NonEmpty, Span, InsertBlock;
    InsertBlockRest(h, Extent(p, n), pool);
    NewPagesSets(h, n, p, pool);
    NewPagesList(h, n, p, pool);
    InsertHeld(h, Extent(p, n), pool);
  }

  lemma InsertBlockRest(h: Heap, e: Extent, pool: Pool)
    ensures InsertBlock(h, e, pool).live == h.live && InsertBlock(h, e, pool).pool == pool
  {
  }

  /** `r` is `x` rounded up to a multiple of `unit`. */
  predicate RoundedUp(x: nat, unit: nat, r: nat)
    requires unit > 0
  {
    r % unit == 0 && x <= r < x + unit
  }

  ghost predicate NoneFits(free: seq<Extent>, need: nat) {
    forall x :: x in free ==> x.size < need
  }

  /** `e` is the lowest free block of `need` bytes or, if there is none, the
      lowest free run of `draw` bytes of pages, which leaves the pool. */
  ghost predicate IsSource(h: Heap, need: nat, draw: nat, e: Extent, pool: Pool) {
    if NoneFits(h.free, need) then
      && e.size == draw && IsLowestRun(FreeBytes(h.pool), e.base, draw)
      && FreeBytes(pool) == FreeBytes(h.pool) - Span(e.base, draw)
    else
      && e in h.free && e.size >= need && pool == h.pool
      && forall x :: x in h.free && x.size >= need ==> e.base <= x.base
  }

  /** The block is cut from `e`, of which a rest of 48 bytes or more stays free;
      every other free block is left alone. */
  ghost predicate IsCut(h: Heap, e: Extent, need: nat, h': Heap) {
    && need <= e.size
    && h'.live == h.live[e.base := if e.size - need >= 48 then need else e.size]
    && forall x :: x in h'.free <==>
      (x in h.free && x != e) || (e.size - need >= 48 && x == Extent(e.base + need, e.size - need))
  }

  /** Where the block comes from, and when there is none. */
  ghost predicate Placed(h: Heap, size: nat, h': Heap, r: Option<nat>) {
    var need, draw := Need(size), Request(size);
    match r
    case None =>
      && NoneFits(h.free, size + 32)
      && (FreeBytes(h.pool) == {} || (RoundedUp(size, 0x1000, draw) && draw > 0 && !HasRun(FreeBytes(h.pool), draw)))
    case Some(b) =>
      && RoundedUp(size + 32, 16, need) && RoundedUp(size, 0x1000, draw)
      && exists e: Extent :: e.base == b && IsSource(h, need, draw, e, h'.pool) && IsCut(h, e, need, h')
  }

  /** What kmalloc promises: the heap is in order, no byte is lost or invented,
      a returned block is new, aligned, large enough and the only change to the
      live blocks, and it comes from where it should. */
  ghost predicate AllocSpec(h: Heap, size: nat, h': Heap, r: Option<nat>) {
    && Placed(h, size, h', r)
    && HeapOk(h')
    && Held(h') + FreeBytes(h'.pool) == Held(h) + FreeBytes(h.pool)
    && match r
       case None => h' == h
       case Some(b) =>
         && b !in h.live && b in h'.live && h'.live == h.live[b := h'.live[b]]
         && (b + HEADER) % 16 == 0 && h'.live[b] - HEADER >= size
  }

  /** A free block fits, or the page request stays within the free memory and
      either covers payload and header or finds no run of pages at all. A size
      that wraps is refused only when there is no memory at all. */
  predicate Guard(h: Heap, size: nat) {
    if Sane(size) then
      || FirstFit(h.free, Need(size)) < |h.free|
      || (&& Request(size) <= h.pool.freeSpace
          && (Need(size) <= Request(size) || FirstFit(h.pool.blocks, Request(size)) == |h.pool.blocks|))
    else
      FirstFit(h.free, Need(size)) == |h.free| && h.pool.blocks == []
  }

  lemma RoundBounds(x: nat)
    ensures x <= Round16(x) < x + 16 && Round16(x) % 16 == 0
    ensures x <= PageUp(x) < x + PAGE_SIZE && PageUp(x) % PAGE_SIZE == 0
  {
  }

  lemma NoWrap(size: nat)
    requires Sane(size)
    ensures Need(size) == Round16(size) + HEADER && Request(size) == PageUp(Round16(size))
  {
    hide Round16, PageUp;
    RoundBounds(size);
    RoundBounds(Round16(size));
    assert Round16(size) <= WORD - PAGE_SIZE;
    assert PageUp(Round16(size)) <= WORD - PAGE_SIZE;
  }

  lemma NeedBounds(size: nat)
    requires Sane(size)
    ensures Need(size) % 16 == 0 && size + HEADER <= Need(size)
    ensures Request(size) % PAGE_SIZE == 0 && Round16(size) <= Request(size) < Round16(size) + PAGE_SIZE
    ensures Need(size) - Request(size) <= HEADER
  {
    hide Round16, PageUp, Need, Request;
    NoWrap(size);
    RoundBounds(size);
    RoundBounds(Round16(size));
    HeaderAligned(Round16(size));
  }

  lemma HeaderAligned(x: nat)
    requires x % 16 == 0
    ensures (x + HEADER) % 16 == 0
  {
  }

  lemma ShareBounds(size: nat, need: nat)
    requires HEADER <= need <= size && need % 16 == 0 && size % 16 == 0
    ensures need <= Share(size, need) <= size && Share(size, need) % 16 == 0
  {
  }

  /** Carving a block that is large enough. */
  lemma CarveOk(h: Heap, k: nat, size: nat)
    requires Sane(size) && Tiled(h) && OthersSmall(h.free, k) && Need(size) <= h.free[k].size
    requires PageDown(h.free[k].End()) <= PageUp(h.free[k].base + Need(size))
    ensures var (h', b) := Carve(h, k, Need(size));
      && Laid(h') && Held(h') == Held(h) && h'.pool == h.pool
      && b !in h.live && b in h'.live && h'.live == h.live[b := h'.live[b]]
      && (b + HEADER) % 16 == 0 && h'.live[b] - HEADER >= size
  {
    hide Tiled, Held, Carve, Taking, PageUp, PageDown, Need, Share;
    var e := h.free[k];
    TiledBlock(h, k);
    NeedBounds(size);
    ShareBounds(e.size, Need(size));
    var taken := Share(e.size, Need(size));
    CarveTakes(h, k, Need(size));
    TakingTiled(h, k, taken);
    PageUpMonotone(e.base + Need(size), e.base + taken);
    TakingNoWholePage(h, k, taken);
    TakingParts(h, k, taken);
  }

  lemma TiledBlock(h: Heap, k: nat)
    requires Tiled(h) && k < |h.free|
    ensures h.free[k].base % 16 == 0 && h.free[k].size % 16 == 0 && h.free[k].size <= WORD
  {
    BlockInWord(h, k);
  }

  lemma TakingParts(h: Heap, k: nat, taken: nat)
    requires k < |h.free| && taken <= h.free[k].size
    ensures Taking(h, k, taken).live == h.live[h.free[k].base := taken] && Taking(h, k, taken).pool == h.pool
  {
  }

  lemma AllocFromList(h: Heap, size: nat)
    requires HeapOk(h) && Sane(size) && FirstFit(h.free, Need(size)) < |h.free|
    ensures var (h', r) := Allocate(h, size); AllocSpec(h, size, h', r) && r.Some? && Held(h') == Held(h)
  {
    hide Tiled, Held, Carve, PageUp, PageDown, Need, FreeBytes, Headed, Placed;
    var k := FirstFit(h.free, Need(size));
    PageUpMonotone(h.free[k].base, h.free[k].base + Need(size));
    CarveOk(h, k, size);
    AllocateHeaded(h, size);
    PlacedFromList(h, size);
  }

  lemma NeedRounds(size: nat)
    requires Sane(size)
    ensures RoundedUp(size + 32, 16, Need(size)) && RoundedUp(size, 0x1000, Request(size))
  {
    hide Round16, PageUp, Need, Request;
    NoWrap(size);
    RoundBounds(size);
    RoundBounds(Round16(size));
    HeaderAligned(Round16(size));
    BetweenBorders(size, Round16(size), Request(size));
  }

  /** Rounding to 16 first makes no difference to rounding to pages. */
  lemma BetweenBorders(x: nat, r: nat, b: nat)
    requires RoundedUp(x, 16, r) && RoundedUp(r, 0x1000, b)
    ensures RoundedUp(x, 0x1000, b)
  {
    PageIs16(b);
    var q, m := b / 16, r / 16;
    assert b == 16 * q && r == 16 * m && q - 256 < m;
  }

  lemma FirstIsLowest(bs: seq<Extent>, need: nat)
    requires NonEmpty(bs) && Ordered(bs)
    ensures NoneFits(bs, need) <==> FirstFit(bs, need) == |bs|
    ensures var k := FirstFit(bs, need);
      k < |bs| ==> forall x :: x in bs && x.size >= need ==> bs[k].base <= x.base
  {
    var k := FirstFit(bs, need);
    if k < |bs| {
      assert bs[k] in bs;
      forall x | x in bs && x.size >= need ensures bs[k].base <= x.base {
        var i :| 0 <= i < |bs| && bs[i] == x;
        assert i == k || bs[k].End() <= bs[i].base;
      }
    }
  }

  /** Cutting block `k` of an ordered list is cutting its only occurrence. */
  lemma CarveCuts(h: Heap, k: nat, need: nat, free: seq<Extent>)
    requires NonEmpty(h.free) && Ordered(h.free) && k < |h.free| && 0 < need <= h.free[k].size <= WORD
    requires forall x :: x in free && x != h.free[k] <==> x in h.free && x != h.free[k]
    ensures IsCut(Heap(free, h.live, h.pool), h.free[k], need, Carve(h, k, need).0)
  {
    hide Carve;
    CarveTakes(h, k, need);
    var e, taken := h.free[k], Share(h.free[k].size, need);
    var c := Cut(h.free, k, taken);
    CutMembers(h.free, k, taken);
    TakingParts(h, k, taken);
  }

  lemma CutMembers(bs: seq<Extent>, k: nat, n: nat)
    requires NonEmpty(bs) && Ordered(bs) && k < |bs| && n <= bs[k].size
    ensures forall x :: x in Cut(bs, k, n) <==>
      (x in bs && x != bs[k]) || (n < bs[k].size && x == Extent(bs[k].base + n, bs[k].size - n))
  {
    var c, e := Cut(bs, k, n), bs[k];
    var rest := if n < e.size then [Extent(e.base + n, e.size - n)] else [];
    assert c == bs[..k] + rest + bs[k + 1..];
    Remain(bs, k, k + 1, rest);
    forall i | 0 <= i < |bs| && i != k ensures bs[i] != e {
      assert i < k ==> bs[i].End() <= e.base;
    }
  }

  lemma PlacedFromList(h: Heap, size: nat)
    requires HeapOk(h) && Sane(size) && FirstFit(h.free, Need(size)) < |h.free|
    ensures var (h', r) := Allocate(h, size); Placed(h, size, h', r)
  {
    hide Held, FreeBytes, Carve, Need, Request, RoundedUp, IsCut, NoneFits, InWord, LiveBytes, NoWholePage;
    var k := FirstFit(h.free, Need(size));
    NeedRounds(size);
    NeedBounds(size);
    FirstIsLowest(h.free, Need(size));
    TiledBlock(h, k);
    CarveCuts(h, k, Need(size), h.free);
    CarveBase(h, k, Need(size));
    assert h.free[k] in h.free;
    var (h', r) := Allocate(h, size);
    assert IsSource(h, Need(size), Request(size), h.free[k], h'.pool);
  }

  lemma CarveBase(h: Heap, k: nat, need: nat)
    requires k < |h.free|
    ensures var (h', b) := Carve(h, k, need); b == h.free[k].base && h'.pool == h.pool
  {
  }

  lemma PlacedFromPages(h: Heap, size: nat, pool: Pool, p: nat)
    requires HeapOk(h) && Sane(size) && FirstFit(h.free, Need(size)) == |h.free|
    requires Need(size) <= Request(size) && Alloc(h.pool, Request(size)) == (pool, Taken(p))
    ensures var (h', r) := Allocate(h, size); Placed(h, size, h', r)
  {
    hide Held, FreeBytes, Carve, Need, Request, RoundedUp, IsCut, NoneFits, InWord, LiveBytes, NoWholePage;
    hide Alloc, InsertBlock, Bytes, IsLowestRun, HasRun;
    var e, j := Extent(p, Request(size)), Position(h.free, p);
    NeedRounds(size);
    NeedBounds(size);
    FirstIsLowest(h.free, Need(size));
    AllocTakesLowestRun(h.pool, Request(size));
    NewPagesTiled(h, Request(size), p, pool);
    InsertBlockShape(h, e, pool);
    InsertBlockRest(h, e, pool);
    RequestInWord(h, size, pool, p);
    var h1 := InsertBlock(h, e, pool);
    InsertMembers(h, e, pool);
    CarveCuts(h1, j, Need(size), h.free);
    CarveBase(h1, j, Need(size));
    var (h', r) := Allocate(h, size);
    IsCutOf(h, h1, e, Need(size), h');
    assert IsSource(h, Need(size), Request(size), e, h'.pool);
  }

  lemma IsCutOf(h: Heap, h1: Heap, e: Extent, need: nat, h': Heap)
    requires h1.live == h.live && IsCut(Heap(h.free, h1.live, h1.pool), e, need, h')
    ensures IsCut(h, e, need, h')
  {
  }

  lemma InsertMembers(h: Heap, e: Extent, pool: Pool)
    ensures forall x :: x in InsertBlock(h, e, pool).free <==> x in h.free || x == e
  {
    var j := Position(h.free, e.base);
    assert h.free[..j] + h.free[j..] == h.free;
    Remain(h.free, j, j, [e]);
  }

  /** A block cut from fresh pages leaves less than a page. */
  lemma FreshRest(p: nat, size: nat)
    requires Sane(size) && p % PAGE_SIZE == 0 && Need(size) <= Request(size)
    ensures PageDown(p + Request(size)) <= PageUp(p + Need(size))
  {
    hide Need, Request;
    NeedBounds(size);
    assert PageDown(p + Request(size)) == p + Request(size);
    assert p + Need(size) > p + Request(size) - PAGE_SIZE;
  }

  lemma InsertBlockShape(h: Heap, e: Extent, pool: Pool)
    ensures var j := Position(h.free, e.base);
      var f := InsertBlock(h, e, pool).free;
      && |f| == |h.free| + 1 && f[j] == e
      && (forall i :: 0 <= i < j ==> f[i] == h.free[i])
      && (forall i :: j < i < |f| ==> f[i] == h.free[i - 1])
  {
  }

  lemma TakenAfforded(p: Pool, n: nat)
    ensures Alloc(p, n).1.Taken? ==> n <= p.freeSpace
  {
  }

  lemma AllocFromPages(h: Heap, size: nat, pool: Pool, p: nat)
    requires HeapOk(h) && Sane(size) && FirstFit(h.free, Need(size)) == |h.free|
    requires Need(size) <= Request(size) && Alloc(h.pool, Request(size)) == (pool, Taken(p))
    ensures var (h', r) := Allocate(h, size);
      AllocSpec(h, size, h', r) && r.Some? && Held(h') == Held(h) + Span(p, Request(size)) && h'.pool == pool
  {
    hide Tiled, Held, Carve, PageUp, PageDown, Need, Request, FreeBytes, InsertBlock, Alloc, Span, Headed, Placed;
    NeedBounds(size);
    TakenAfforded(h.pool, Request(size));
    AllocateHeaded(h, size);
    var e := Extent(p, Request(size));
    NewPagesTiled(h, Request(size), p, pool);
    InsertBlockShape(h, e, pool);
    InsertBlockRest(h, e, pool);
    FreshRest(p, size);
    CarveOk(InsertBlock(h, e, pool), Position(h.free, p), size);
    PlacedFromPages(h, size, pool, p);
  }

  lemma CarveFirst(e: Extent, h: Heap, need: nat)
    ensures var (h', b) := Carve(Heap([e] + h.free, h.live, h.pool), 0, need);
      && b == e.base && h'.pool == h.pool
      && h'.live == h.live[b := if Minus(e.size, need) >= HEADER + ALLOC_ALIGN then need else e.size]
      && (h'.free == h.free || h'.free == [Extent(e.base + need, Minus(e.size, need))] + h.free)
  {
    var f := [e] + h.free;
    assert f[..0] == [] && f[1..] == h.free;
    assert forall x: Extent :: [] + [x] + h.free == [x] + h.free;
    assert [] + h.free == h.free;
  }

  lemma RefusedShape(h: Heap, size: nat)
    requires Sane(size) && FirstFit(h.free, Need(size)) == |h.free| && Request(size) > h.pool.freeSpace
    ensures var (h', r) := Allocate(h, size);
      && r == Some(0) && h'.pool == h.pool
      && 0 in h'.live && h'.live[0] >= HEADER && h'.live == h.live[0 := h'.live[0]]
      && (h'.free == h.free || exists e :: h'.free == [e] + h.free)
  {
    hide PageUp, Round16, Carve, FirstFit;
    NeedBounds(size);
    var e := Extent(0, Request(size));
    InsertFirst(h, e);
    CarveFirst(e, h, Need(size));
  }

  lemma InsertFirst(h: Heap, e: Extent)
    requires e.base == 0
    ensures Position(h.free, 0) == 0
    ensures InsertBlock(h, e, h.pool) == Heap([e] + h.free, h.live, h.pool)
  {
    assert Position(h.free, 0) == 0;
    assert h.free[..0] + [e] + h.free[0..] == [e] + h.free;
  }

  lemma FreeBytesGrow(before: seq<Extent>, after: seq<Extent>)
    requires after == before || exists e :: after == [e] + before
    ensures Bytes(before) <= Bytes(after)
  {
    if after != before {
      var e :| after == [e] + before;
      assert after[1..] == before;
    }
  }

  /** A live block at 0 that was not there before cannot be accounted for. */
  lemma ZeroNotAccounted(h: Heap, h': Heap)
    requires 0 !in h.live && 0 in h'.live && h'.live[0] > 0 && h'.pool == h.pool
    requires h'.live == h.live[0 := h'.live[0]] && Bytes(h.free) <= Bytes(h'.free)
    ensures !(Tiled(h') && Held(h') + FreeBytes(h'.pool) == Held(h) + FreeBytes(h.pool))
  {
    hide Bytes, FreeBytes, LiveOk, InWord, Ordered, Aligned, NonEmpty, Valid;
    assert Holds(Extent(0, h'.live[0]), 0);
    assert 0 in LiveBytes(h'.live);
    assert 0 !in LiveBytes(h.live);
  }

  /** A refused page request makes kmalloc hand out address 0, which it does
      not own. */
  lemma RefusedBreaks(h: Heap, size: nat)
    requires Sane(size) && FirstFit(h.free, Need(size)) == |h.free| && Request(size) > h.pool.freeSpace
    ensures var (h', r) := Allocate(h, size); !AllocSpec(h, size, h', r)
  {
    hide Allocate, Tiled, Held, FreeBytes, Bytes, Need, Request, NoWholePage, Placed;
    RefusedShape(h, size);
    var (h', r) := Allocate(h, size);
    FreeBytesGrow(h.free, h'.free);
    if 0 !in h.live {
      ZeroNotAccounted(h, h');
    }
  }

  lemma UncoveredShape(h: Heap, size: nat, pool: Pool, p: nat)
    requires Sane(size) && FirstFit(h.free, Need(size)) == |h.free| && Need(size) > Request(size)
    requires Alloc(h.pool, Request(size)) == (pool, Taken(p))
    ensures var (h', r) := Allocate(h, size);
      && h'.pool == pool && p in h'.live && h'.live[p] > 0
      && exists j :: 0 <= j < |h'.free| && h'.free[j].End() == p + Request(size) + WORD
  {
    hide Alloc, PageUp, Round16;
    var (h', r) := Allocate(h, size);
    NeedBounds(size);
    InsertBlockShape(h, Extent(p, Request(size)), pool);
    var j := Position(h.free, p);
    var rest := Minus(Request(size), Need(size));
    assert rest == WORD - (Need(size) - Request(size));
    assert h'.free[j] == Extent(p + Need(size), rest);
  }

  lemma LiveNotFree(h: Heap, p: nat)
    requires Tiled(h) && p in h.live && h.live[p] > 0
    ensures p !in FreeBytes(h.pool)
  {
    hide FreeBytes, Bytes;
    assert Holds(Extent(p, h.live[p]), p);
    assert p in LiveBytes(h.live);
  }

  /** Pages without room for the header make the remaining size wrap around. */
  lemma UncoveredBreaks(h: Heap, size: nat, pool: Pool, p: nat)
    requires Sane(size) && Valid(h.pool) && FirstFit(h.free, Need(size)) == |h.free| && Need(size) > Request(size)
    requires Alloc(h.pool, Request(size)) == (pool, Taken(p))
    ensures var (h', r) := Allocate(h, size); !AllocSpec(h, size, h', r)
  {
    hide Alloc, Need, Request, Allocate, Tiled, NoWholePage, Held, Placed;
    UncoveredShape(h, size, pool, p);
    var (h', r) := Allocate(h, size);
    if Tiled(h') {
      if Request(size) == 0 {
        AllocNothing(h.pool);
        BytesUncons(h.pool.blocks);
        LiveNotFree(h', p);
      } else {
        var j :| 0 <= j < |h'.free| && h'.free[j].End() == p + Request(size) + WORD;
        BlockInWord(h', j);
      }
      assert false;
    }
  }

  lemma OversizeRequest(size: nat)
    requires WORD - PAGE_SIZE < size < WORD
    ensures Request(size) == 0 && Need(size) < WORD
  {
    var r := Round16(size);
    assert WORD - PAGE_SIZE < r <= WORD;
    if r < WORD {
      assert PageUp(r) == WORD;
    }
  }

  lemma SmallBlock(h: Heap, k: nat)
    requires HeapOk(h) && k < |h.free|
    ensures h.free[k].size < 2 * PAGE_SIZE
  {
    hide Tiled;
    PageBorders(h.free[k]);
  }

  /** With a size that wraps kmalloc hands out a block that is too small, or one
      made of pages it did not get; only with no memory at all does it fail. */
  lemma OversizeIff(h: Heap, size: nat)
    requires HeapOk(h) && WORD - PAGE_SIZE < size < WORD
    ensures var (h', r) := Allocate(h, size);
      AllocSpec(h, size, h', r) <==> FirstFit(h.free, Need(size)) == |h.free| && h.pool.blocks == []
  {
    hide Tiled, Need, Request, NoWholePage, Alloc, Carve, InsertBlock, FreeBytes, LiveBytes, Placed;
    OversizeRequest(size);
    TiledPool(h);
    AllocNothing(h.pool);
    var k, need := FirstFit(h.free, Need(size)), Need(size);
    if k < |h.free| {
      SmallBlock(h, k);
      CarveSize(h, k, need);
    } else if h.pool.blocks != [] {
      var p := h.pool.blocks[0].base;
      var h1 := InsertBlock(h, Extent(p, 0), h.pool);
      InsertBlockShape(h, Extent(p, 0), h.pool);
      InsertBlockRest(h, Extent(p, 0), h.pool);
      CarveEmpty(h1, Position(h.free, p), need);
      PoolBase(h.pool);
      var (h', b) := Carve(h1, Position(h.free, p), need);
      if HeapOk(h') && h'.live[p] > 0 {
        LiveNotFree(h', p);
      }
    } else {
      AllocNone(h, size);
    }
  }

  lemma CarveSize(h: Heap, k: nat, need: nat)
    requires k < |h.free| && need <= h.free[k].size < WORD
    ensures var (h', b) := Carve(h, k, need); b in h'.live && h'.live[b] <= h.free[k].size
  {
  }

  lemma CarveEmpty(h: Heap, k: nat, need: nat)
    requires k < |h.free| && h.free[k].size == 0 && need < WORD
    ensures var (h', b) := Carve(h, k, need); b == h.free[k].base && b in h'.live && h'.pool == h.pool
  {
  }

  lemma PoolBase(p: Pool)
    requires Valid(p) && p.blocks != []
    ensures p.blocks[0].base in FreeBytes(p)
  {
    BytesUncons(p.blocks);
  }

  /** kmalloc keeps its promises exactly when the guard holds. */
  lemma KmallocIff(h: Heap, size: nat)
    requires HeapOk(h) && size < WORD
    ensures var (h', r) := Allocate(h, size); AllocSpec(h, size, h', r) <==> Guard(h, size)
  {
    hide AllocSpec, Tiled, Need, Request, NoWholePage;
    if !Sane(size) {
      OversizeIff(h, size);
      return;
    }
    NeedBounds(size);
    if FirstFit(h.free, Need(size)) < |h.free| {
      AllocFromList(h, size);
    } else if Request(size) > h.pool.freeSpace {
      RefusedBreaks(h, size);
    } else {
      var (pool, o) := Alloc(h.pool, Request(size));
      if o.Exhausted? {
        AllocNone(h, size);
      } else if Need(size) <= Request(size) {
        AllocFromPages(h, size, pool, o.paddr);
      } else {
        TiledPool(h);
        UncoveredBreaks(h, size, pool, o.paddr);
      }
    }
  }

  lemma AllocNone(h: Heap, size: nat)
    requires HeapOk(h) && size < WORD && FirstFit(h.free, Need(size)) == |h.free|
    requires h.pool.blocks == [] || (Sane(size) && Alloc(h.pool, Request(size)).1.Exhausted?)
    ensures AllocSpec(h, size, h, None)
  {
    hide Tiled, Need, Request, NoWholePage, Alloc, HasRun;
    AllFree(h, size);
    TiledPool(h);
    if h.pool.blocks != [] {
      NeedRounds(size);
      NeedBounds(size);
      NoRun(h.pool, Request(size));
    }
  }

  lemma NoRun(p: Pool, n: nat)
    requires Valid(p) && p.blocks != [] && Alloc(p, n).1.Exhausted?
    ensures n > 0 && !HasRun(FreeBytes(p), n)
  {
    if n > 0 {
      AllocTakesLowestRun(p, n);
    } else {
      AllocNothing(p);
    }
  }

  lemma AllFree(h: Heap, size: nat)
    requires HeapOk(h) && size < WORD && FirstFit(h.free, Need(size)) == |h.free|
    ensures NoneFits(h.free, size + 32)
  {
    hide Tiled, Need, NoWholePage;
    forall x | x in h.free ensures x.size < size + 32 {
      var i :| 0 <= i < |h.free| && h.free[i] == x;
      if Sane(size) {
        NeedRounds(size);
        TiledBlock(h, i);
      } else {
        SmallBlock(h, i);
      }
    }
  }

  lemma TiledPool(h: Heap)
    requires Tiled(h)
    ensures Valid(h.pool)
  {
  }

  // ------------------------------------------------------------------
  // Freeing.

  lemma JoinAtSmall(bs: seq<Extent>, i: nat, m: nat)
    requires i + 1 < |bs| && (m == i || m == i + 1) && OthersSmall(bs, m)
    ensures var r := JoinAt(bs, i);
      && OthersSmall(r, if |r| < |bs| then i else m)
      && (|r| < |bs| <==> bs[i].End() == bs[i + 1].base)
  {
    hide JoinAt, PageUp, PageDown;
    JoinAtShape(bs, i);
  }

  lemma JoinBothSmall(bs: seq<Extent>, k: nat)
    requires k < |bs| && OthersSmall(bs, k)
    ensures OthersSmall(JoinBoth(bs, k), if k > 0 && bs[k - 1].End() == bs[k].base then k - 1 else k)
  {
    hide JoinAt, OthersSmall;
    if k > 0 { JoinAtSmall(bs, k - 1, k); }
    var d := if k > 0 then JoinAt(bs, k - 1) else bs;
    var m := if |d| < |bs| then k - 1 else k;
    if m + 1 < |d| { JoinAtSmall(d, m, m); }
  }

  lemma ReleaseSmall(bs: seq<Extent>, e: Extent)
    requires NoWholePage(bs)
    ensures OthersSmall(Release(bs, e), ReleaseIndex(bs, e))
  {
    hide JoinBoth, PageUp, PageDown;
    var k := Position(bs, e.base);
    var ins := bs[..k] + [e] + bs[k..];
    assert forall i :: 0 <= i < |ins| ==> ins[i] == if i < k then bs[i] else if i == k then e else bs[i - 1];
    assert OthersSmall(ins, k);
    JoinBothSmall(ins, k);
  }

  /** The heap after the freed block is back in the list, before pages are
      returned. */
  function Listed(h: Heap, b: nat): Heap
    requires b in h.live
  {
    Heap(Release(h.free, Extent(b, h.live[b])), h.live - {b}, h.pool)
  }

  lemma ListedTiled(h: Heap, b: nat)
    requires Tiled(h) && b in h.live
    ensures Tiled(Listed(h, b)) && Held(Listed(h, b)) == Held(h)
  {
    hide Bytes, LiveBytes, FreeBytes, Release, InWord, Valid, Span, Total;
    LiveBytesDrop(h.live, b);
    ReleaseKeeps(h.free, Extent(b, h.live[b]), 16);
    ReleaseBytes(h.free, Extent(b, h.live[b]));
    assert Held(Listed(h, b)) == Held(h);
  }

  lemma PageBorders(b: Extent)
    ensures b.base <= PageUp(b.base) < b.base + PAGE_SIZE && PageUp(b.base) % PAGE_SIZE == 0
    ensures PageDown(b.End()) <= b.End() < PageDown(b.End()) + PAGE_SIZE && PageDown(b.End()) % PAGE_SIZE == 0
  {
  }

  lemma SlicesShape(b: Extent)
    requires b.size > 0 && b.base % 16 == 0 && b.size % 16 == 0
    ensures var ss := Slices(b);
      && NonEmpty(ss) && Ordered(ss) && Aligned(ss, 16)
      && (forall i :: 0 <= i < |ss| ==> b.base <= ss[i].base && ss[i].End() <= b.End())
  {
    hide PageUp, PageDown;
    PageBorders(b);
    var first, last := PageUp(b.base), PageDown(b.End());
    PageIs16(first);
    PageIs16(last);
    DifferenceAligned(first, b.base, 16);
    SumAligned(b.base, b.size, 16);
    DifferenceAligned(b.End(), last, 16);
  }

  lemma SlicesNoWholePage(b: Extent)
    ensures NoWholePage(Slices(b))
  {
    PageBorders(b);
    var first, last := PageUp(b.base), PageDown(b.End());
    if first < last {
      assert PageDown(first) == first && PageUp(last) == last;
    }
  }

  lemma PartBytes(a: nat, b: nat)
    requires a <= b
    ensures Bytes(Part(a, b)) == Span(a, b - a) && Total(Part(a, b)) == b - a
  {
  }

  lemma SpanWithout(a: nat, x: nat, y: nat, z: nat)
    requires a <= x <= y <= z
    ensures Span(a, x - a) + Span(y, z - y) == Span(a, z - a) - Span(x, y - x)
    ensures Span(x, y - x) <= Span(a, z - a)
  {
  }

  lemma OneBlockBytes(b: Extent)
    ensures Bytes([b]) == Span(b.base, b.size) && Total([b]) == b.size
  {
  }

  lemma SlicesBytes(b: Extent)
    ensures Bytes(Slices(b)) == Span(b.base, b.size) - Span(Whole(b).base, Whole(b).size)
    ensures Span(Whole(b).base, Whole(b).size) <= Span(b.base, b.size)
    ensures Total(Slices(b)) + Whole(b).size == b.size
  {
    hide PageUp, PageDown, Bytes, Total, Part;
    PageBorders(b);
    var first, last := PageUp(b.base), PageDown(b.End());
    if first < last {
      BytesConcat(Part(b.base, first), Part(last, b.End()));
      TotalConcat(Part(b.base, first), Part(last, b.End()));
      PartBytes(b.base, first);
      PartBytes(last, b.End());
      SpanWithout(b.base, first, last, b.End());
    } else {
      OneBlockBytes(b);
    }
  }

  /** Replacing one block by smaller ones inside it. */
  lemma ReplaceKeeps(bs: seq<Extent>, m: nat, ss: seq<Extent>)
    requires m < |bs| && NonEmpty(bs) && Ordered(bs) && Aligned(bs, 16)
    requires NonEmpty(ss) && Ordered(ss) && Aligned(ss, 16)
    requires forall i :: 0 <= i < |ss| ==> bs[m].base <= ss[i].base && ss[i].End() <= bs[m].End()
    ensures var r := bs[..m] + ss + bs[m + 1..]; NonEmpty(r) && Ordered(r) && Aligned(r, 16)
  {
    var r := bs[..m] + ss + bs[m + 1..];
    ReplaceShape(bs, m, ss);
    assert NonEmpty(r) && Aligned(r, 16);
    assert Ordered(r) by {
      forall i, j | 0 <= i < j < |r| ensures r[i].End() <= r[j].base {
      }
    }
  }

  lemma ReplaceShape(bs: seq<Extent>, m: nat, ss: seq<Extent>)
    requires m < |bs|
    ensures var r := bs[..m] + ss + bs[m + 1..];
      && |r| == |bs| + |ss| - 1
      && (forall i :: 0 <= i < m ==> r[i] == bs[i])
      && (forall i :: m <= i < m + |ss| ==> r[i] == ss[i - m])
      && (forall i :: m + |ss| <= i < |r| ==> r[i] == bs[i - |ss| + 1])
  {
  }

  lemma ReplaceBytes(bs: seq<Extent>, m: nat, ss: seq<Extent>)
    requires m < |bs|
    ensures Bytes(bs[..m] + ss + bs[m + 1..]) == Bytes(bs[..m]) + Bytes(ss) + Bytes(bs[m + 1..])
    ensures Total(bs[..m] + ss + bs[m + 1..]) == Total(bs[..m]) + Total(ss) + Total(bs[m + 1..])
  {
    hide Bytes, Total;
    BytesConcat(bs[..m] + ss, bs[m + 1..]);
    BytesConcat(bs[..m], ss);
    TotalConcat(bs[..m] + ss, bs[m + 1..]);
    TotalConcat(bs[..m], ss);
  }

  lemma ReplaceNoWholePage(bs: seq<Extent>, m: nat, ss: seq<Extent>)
    requires OthersSmall(bs, m) && NoWholePage(ss)
    ensures NoWholePage(bs[..m] + ss + bs[m + 1..])
  {
    hide PageUp, PageDown;
    var r := bs[..m] + ss + bs[m + 1..];
    assert forall i :: 0 <= i < |r| ==>
      r[i] == if i < m then bs[i] else if i < m + |ss| then ss[i - m] else bs[i - |ss| + 1];
  }

  lemma ReturnSets(h: Heap, m: nat)
    requires m < |h.free| && Ordered(h.free)
    ensures var w := Whole(h.free[m]);
      && Bytes(ReturnPages(h, m).free) == Bytes(h.free) - Span(w.base, w.size)
      && Span(w.base, w.size) <= Bytes(h.free)
      && Total(ReturnPages(h, m).free) + w.size == Total(h.free)
  {
    hide Bytes, Total, Slices, Whole, Span;
    var b := h.free[m];
    SlicesBytes(b);
    BytesAround(h.free, m);
    ReplaceBytes(h.free, m, Slices(b));
    assert Span(b.base, b.size) !! Bytes(h.free[..m]) by { BlockApartLow(h.free, m); }
    assert Span(b.base, b.size) !! Bytes(h.free[m + 1..]) by { BlockApartHigh(h.free, m); }
  }

  lemma BlockApartLow(es: seq<Extent>, m: nat)
    requires m < |es| && Ordered(es)
    ensures Span(es[m].base, es[m].size) !! Bytes(es[..m])
  {
    hide Bytes;
    BytesBefore(es[..m], es[m].base);
  }

  lemma BlockApartHigh(es: seq<Extent>, m: nat)
    requires m < |es| && Ordered(es)
    ensures Span(es[m].base, es[m].size) !! Bytes(es[m + 1..])
  {
    hide Bytes;
    BytesAfter(es[m + 1..], es[m].End());
  }

  lemma ReturnPool(h: Heap, m: nat)
    requires m < |h.free| && Valid(h.pool)
    requires Span(Whole(h.free[m]).base, Whole(h.free[m]).size) !! FreeBytes(h.pool)
    ensures var w := Whole(h.free[m]);
      var pool := ReturnPages(h, m).pool;
      && Valid(pool) && FreeBytes(pool) == FreeBytes(h.pool) + Span(w.base, w.size)
  {
    hide Slices, FreeBytes, Valid, Free;
    var w := Whole(h.free[m]);
    PageBorders(h.free[m]);
    if w.size > 0 {
      FreeAddsBytes(h.pool, w);
    } else {
      assert Span(w.base, 0) == {};
    }
  }

  /** Returning the whole pages of block `m` keeps the tiling and leaves no free
      block with a whole page. */
  lemma ReturnTiled(h: Heap, m: nat)
    requires Tiled(h) && OthersSmall(h.free, m)
    ensures m < |h.free|
    ensures var w := Whole(h.free[m]);
      var h' := ReturnPages(h, m);
      && Laid(h')
      && Held(h') == Held(h) - Span(w.base, w.size) && Span(w.base, w.size) <= Held(h)
      && FreeBytes(h'.pool) == FreeBytes(h.pool) + Span(w.base, w.size)
      && Total(h'.free) + w.size == Total(h.free)
  {
    hide Bytes, Total, LiveBytes, FreeBytes, LiveOk, Free, Slices, Whole, Span, NoWholePage, OthersSmall, Valid, ReturnPages, InWord;
    OthersSmallIndex(h.free, m);
    ReturnList(h, m);
    ReturnSets(h, m);
    ReturnPool(h, m);
    ReturnHeld(h, m);
  }

  lemma ReturnList(h: Heap, m: nat)
    requires OthersSmall(h.free, m) && NonEmpty(h.free) && Ordered(h.free) && Aligned(h.free, 16)
    ensures var f := ReturnPages(h, m).free; NonEmpty(f) && Ordered(f) && Aligned(f, 16) && NoWholePage(f)
    ensures ReturnPages(h, m).live == h.live
  {
    hide Slices, Whole, Free, NoWholePage;
    SlicesShape(h.free[m]);
    SlicesNoWholePage(h.free[m]);
    ReplaceKeeps(h.free, m, Slices(h.free[m]));
    ReplaceNoWholePage(h.free, m, Slices(h.free[m]));
  }

  lemma ReturnHeld(h: Heap, m: nat)
    requires Tiled(h) && m < |h.free|
    requires var w := Whole(h.free[m]);
      && Bytes(ReturnPages(h, m).free) == Bytes(h.free) - Span(w.base, w.size)
      && Span(w.base, w.size) <= Bytes(h.free)
      && FreeBytes(ReturnPages(h, m).pool) == FreeBytes(h.pool) + Span(w.base, w.size)
    ensures var w := Whole(h.free[m]);
      var h' := ReturnPages(h, m);
      && Held(h') == Held(h) - Span(w.base, w.size)
      && Held(h') !! FreeBytes(h'.pool)
      && InWord(Held(h') + FreeBytes(h'.pool))
  {
    hide Bytes, LiveBytes, FreeBytes, LiveOk, Free, Slices, Whole, Span, Valid, Ordered, Aligned, NonEmpty;
  }

  lemma OthersSmallIndex(es: seq<Extent>, m: nat)
    requires OthersSmall(es, m)
    ensures m < |es|
  {
  }

  function Reclaim(h: Heap, b: nat): Heap
    requires b in h.live
  {
    var e := Extent(b, h.live[b]);
    ReleaseIndexValid(h.free, e);
    ReturnPages(Listed(h, b), ReleaseIndex(h.free, e))
  }

  /** The pages kfree returns to the page allocator. */
  function Returned(h: Heap, b: nat): Extent
    requires b in h.live
  {
    ReleaseIndexValid(h.free, Extent(b, h.live[b]));
    Whole(Listed(h, b).free[ReleaseIndex(h.free, Extent(b, h.live[b]))])
  }

  /** kfree keeps the tiling, forgets exactly the freed block, leaves no free
      block with a whole page, and conserves bytes: what was free plus the freed
      block is what is free now plus the pages returned. */
  lemma KfreeLaid(h: Heap, b: nat)
    requires Laid(h) && b in h.live
    ensures var w := Returned(h, b);
      var h' := Reclaim(h, b);
      && Laid(h') && h'.live == h.live - {b}
      && Held(h') == Held(h) - Span(w.base, w.size) && Span(w.base, w.size) <= Held(h)
      && FreeBytes(h'.pool) == FreeBytes(h.pool) + Span(w.base, w.size)
      && Total(h.free) + h.live[b] == Total(h'.free) + w.size
  {
    hide Bytes, Total, LiveBytes, FreeBytes, Release, ReleaseIndex, Tiled, Held, OthersSmall, Whole, ReturnPages, Span;
    ListedTiled(h, b);
    ReleaseSmall(h.free, Extent(b, h.live[b]));
    ReleaseBytes(h.free, Extent(b, h.live[b]));
    var m := ReleaseIndex(h.free, Extent(b, h.live[b]));
    ReturnTiled(Listed(h, b), m);
    ReturnLive(Listed(h, b), m);
  }

  lemma ReturnLive(h: Heap, m: nat)
    requires m < |h.free|
    ensures ReturnPages(h, m).live == h.live
  {
  }

  // ------------------------------------------------------------------
  // Room for headers.

  /** A stretch of free memory that is not there or holds `n` bytes. */
  predicate Ample(x: nat, n: nat) {
    x == 0 || x >= n
  }

  /** The block that results from freeing `b`, before pages are returned. */
  function Merged(h: Heap, b: nat): Extent
    requires b in h.live
  {
    ReleaseIndexValid(h.free, Extent(b, h.live[b]));
    Listed(h, b).free[ReleaseIndex(h.free, Extent(b, h.live[b]))]
  }

  /** What is left of a block whose whole pages are returned is large enough
      exactly when both ends lie on a page border or far enough from it. */
  lemma SlicesAmpleIff(e: Extent, n: nat)
    requires Whole(e).size > 0 && n > 0
    ensures AllAtLeast(Slices(e), n) <==>
      Ample(PageUp(e.base) - e.base, n) && Ample(e.End() - PageDown(e.End()), n)
  {
    hide PageUp, PageDown;
    PageBorders(e);
    var first, last := PageUp(e.base), PageDown(e.End());
    var lo, hi := Part(e.base, first), Part(last, e.End());
    assert Slices(e) == lo + hi;
    if lo != [] {
      assert (lo + hi)[0] == lo[0];
    }
    if hi != [] {
      assert (lo + hi)[|lo|] == hi[0];
    }
  }

  /** The comment on returning pages claims that every slice left has room for a
      header and a payload. For one call of kfree that returns pages this holds
      exactly when the merged block starts and ends clear of page borders. */
  lemma SlicesCapableIff(h: Heap, b: nat)
    requires HeapOk(h) && b in h.live && Returned(h, b).size > 0
    ensures AllAtLeast(Slices(Merged(h, b)), HEADER + ALLOC_ALIGN) <==>
      var e := Merged(h, b);
      && Ample(PageUp(e.base) - e.base, HEADER + ALLOC_ALIGN)
      && Ample(e.End() - PageDown(e.End()), HEADER + ALLOC_ALIGN)
  {
    hide HeapOk, PageUp, PageDown, Slices, Whole, Release, ReleaseIndex;
    SlicesAmpleIff(Merged(h, b), HEADER + ALLOC_ALIGN);
  }

  /** Freeing `b` returns no pages, or leaves nothing at a border or enough for a
      header. */
  predicate Tidy(h: Heap, b: nat)
    requires b in h.live
  {
    var e := Merged(h, b);
    Whole(e).size == 0
    || (Ample(PageUp(e.base) - e.base, HEADER) && Ample(e.End() - PageDown(e.End()), HEADER))
  }

  lemma JoinAtLarge(bs: seq<Extent>, i: nat, n: nat)
    requires i + 1 < |bs| && AllAtLeast(bs, n)
    ensures AllAtLeast(JoinAt(bs, i), n)
  {
    hide JoinAt;
    JoinAtShape(bs, i);
  }

  lemma ReleaseLarge(bs: seq<Extent>, e: Extent, n: nat)
    requires AllAtLeast(bs, n) && e.size >= n
    ensures AllAtLeast(Release(bs, e), n)
  {
    hide JoinAt;
    var k := Position(bs, e.base);
    var ins := bs[..k] + [e] + bs[k..];
    assert AllAtLeast(ins, n);
    var down := if k > 0 then JoinAt(ins, k - 1) else ins;
    if k > 0 {
      JoinAtLarge(ins, k - 1, n);
    }
    var j := if |down| < |ins| then k - 1 else k;
    if j + 1 < |down| {
      JoinAtLarge(down, j, n);
    }
  }

  lemma ReplaceLarge(bs: seq<Extent>, m: nat, ss: seq<Extent>, n: nat)
    requires m < |bs| && AllAtLeast(bs, n)
    ensures AllAtLeast(bs[..m] + ss + bs[m + 1..], n) <==> AllAtLeast(ss, n)
  {
    var r := bs[..m] + ss + bs[m + 1..];
    assert forall i :: 0 <= i < |ss| ==> r[m + i] == ss[i];
    assert forall i :: 0 <= i < |r| ==>
      r[i] == if i < m then bs[i] else if i < m + |ss| then ss[i - m] else bs[i - |ss| + 1];
  }

  /** Freeing keeps every header inside its block exactly when it is tidy. */
  lemma ReclaimHeadedIff(h: Heap, b: nat)
    requires Headed(h) && b in h.live
    ensures Headed(Reclaim(h, b)) <==> Tidy(h, b)
  {
    hide PageUp, PageDown, Slices, Whole, Release, ReleaseIndex, Free, Ample, AllAtLeast;
    ReleaseLarge(h.free, Extent(b, h.live[b]), HEADER);
    ReleaseIndexValid(h.free, Extent(b, h.live[b]));
    var l, m, e := Listed(h, b).free, ReleaseIndex(h.free, Extent(b, h.live[b])), Merged(h, b);
    ReplaceLarge(l, m, Slices(e), HEADER);
    BlockLarge(l, m, HEADER);
    if Whole(e).size > 0 {
      SlicesAmpleIff(e, HEADER);
    } else {
      SlicesWhole(e, HEADER);
    }
  }

  // ------------------------------------------------------------------
  // Exactly what becomes of the free list.

  /** `e` is the bytes from `lo` to `hi` with the free block that ends at `lo` and
      the one that begins at `hi`, if there are such. */
  ghost predicate IsMerged(free: seq<Extent>, lo: nat, hi: nat, e: Extent) {
    && (forall x :: x in free && x.End() == lo ==> e.base == x.base)
    && (e.base == lo || exists x :: x in free && x.End() == lo)
    && (forall x :: x in free && x.base == hi ==> e.End() == x.End())
    && (e.End() == hi || exists x :: x in free && x.base == hi)
  }

  /** The page that holds byte `a` lies inside `e`. */
  predicate PageInside(e: Extent, a: nat) {
    e.base <= a / 0x1000 * 0x1000 && a / 0x1000 * 0x1000 + 0x1000 <= e.End()
  }

  ghost function PagesInside(e: Extent): set<nat> {
    set a: nat | a < e.End() && PageInside(e, a)
  }

  /** `x` is what `e` leaves below its first or above its last whole page, or `e`
      itself if it has none. */
  ghost predicate IsScrap(e: Extent, x: Extent) {
    if PagesInside(e) == {} then x == e
    else
      && 0 < x.size < 0x1000
      && ((x.base == e.base && x.End() % 0x1000 == 0) || (x.End() == e.End() && x.base % 0x1000 == 0))
  }

  lemma WholeIsInside(e: Extent)
    ensures Span(Whole(e).base, Whole(e).size) == PagesInside(e)
    ensures Whole(e).size > 0 <==> PagesInside(e) != {}
  {
    var w := Whole(e);
    forall a: nat ensures a in Span(w.base, w.size) <==> a < e.End() && PageInside(e, a) {
      PageOf(e, a);
    }
    if w.size > 0 {
      assert w.base in Span(w.base, w.size);
    }
  }

  lemma PageOf(e: Extent, a: nat)
    ensures var w := Whole(e); w.base <= a < w.base + w.size <==> a < e.End() && PageInside(e, a)
  {
    hide PageUp, PageDown;
    PageBorders(e);
    var first, last := PageUp(e.base), PageDown(e.End());
    BorderBelow(first, a);
    BorderBelow(last, a);
    BorderAbove(e.base, first, a / 0x1000);
    BorderAbove(e.End(), last + 0x1000, a / 0x1000 + 1);
  }

  lemma BorderBelow(border: nat, a: nat)
    requires border % 0x1000 == 0
    ensures border <= a <==> border <= a / 0x1000 * 0x1000
    ensures a < border <==> a / 0x1000 * 0x1000 + 0x1000 <= border
  {
  }

  lemma BorderAbove(x: nat, border: nat, q: nat)
    requires border % 0x1000 == 0
    ensures x <= border < x + 0x1000 ==> (x <= q * 0x1000 <==> border <= q * 0x1000)
    ensures border - 0x1000 <= x < border ==> (q * 0x1000 <= x <==> q * 0x1000 <= border - 0x1000)
  {
  }

  lemma SlicesExact(e: Extent)
    ensures forall x :: x in Slices(e) <==> IsScrap(e, x)
  {
    hide PageUp, PageDown, Span, PagesInside;
    WholeIsInside(e);
    PageBorders(e);
    var first, last := PageUp(e.base), PageDown(e.End());
    if first < last {
      forall x: Extent ensures x in Slices(e) <==> IsScrap(e, x) {
        OneBorder(e.base, first, x.size);
        OneBorder(x.base, last, e.End() - last);
      }
    }
  }

  /** There is one border less than a page above an address. */
  lemma OneBorder(a: nat, border: nat, n: int)
    requires border % 0x1000 == 0
    ensures a <= border < a + 0x1000 && 0 < n < 0x1000 ==> ((a + n) % 0x1000 == 0 <==> a + n == border)
    ensures a % 0x1000 == 0 && 0 <= n < 0x1000 && a <= border + n < a + 0x1000 ==> a == border
  {
  }

  /** The block that freeing `b` makes, and the free list it leaves. */
  lemma ReclaimExact(h: Heap, b: nat)
    requires Laid(h) && b in h.live
    ensures IsMerged(h.free, b, b + h.live[b], Merged(h, b))
    ensures forall x :: x in Reclaim(h, b).free <==>
      IsScrap(Merged(h, b), x) || (x in h.free && x.End() != b && x.base != b + h.live[b])
  {
    hide Laid, Slices, IsScrap, Reclaim, Merged, IsMerged, Position, MergeFrom, MergeTo;
    var e, k := Extent(b, h.live[b]), Position(h.free, b);
    var a, c := MergeFrom(h.free, e, k), MergeTo(h.free, e, k);
    FreedApart(h, b);
    ReclaimForm(h, b);
    MergedForm(h.free, e, k, Merged(h, b));
    SlicesExact(Merged(h, b));
    Remain(h.free, a, c, Slices(Merged(h, b)));
    RemainNeighbours(h.free, e, k);
  }

  lemma ReclaimForm(h: Heap, b: nat)
    requires b in h.live
    ensures var e, k := Extent(b, h.live[b]), Position(h.free, b);
      var a, c, g := MergeFrom(h.free, e, k), MergeTo(h.free, e, k), Merged(h, b);
      && a <= k <= c <= |h.free|
      && Reclaim(h, b).free == h.free[..a] + Slices(g) + h.free[c..]
      && g.base == (if a < k then h.free[k - 1].base else e.base)
      && g.End() == (if c > k then h.free[k].End() else e.End())
  {
    hide Slices, Release, ReleaseIndex, MergeFrom, MergeTo, Position, Reclaim, Merged;
    ReleaseForm(h.free, Extent(b, h.live[b]));
    ReclaimParts(h, b);
  }

  lemma ReclaimParts(h: Heap, b: nat)
    requires b in h.live
    ensures var l, m := Release(h.free, Extent(b, h.live[b])), ReleaseIndex(h.free, Extent(b, h.live[b]));
      && m < |l| && Merged(h, b) == l[m]
      && Reclaim(h, b).free == l[..m] + Slices(Merged(h, b)) + l[m + 1..]
  {
    hide Slices, Free, Whole, Release, ReleaseIndex;
    ReleaseIndexValid(h.free, Extent(b, h.live[b]));
  }

  lemma MergedForm(bs: seq<Extent>, e: Extent, k: nat, g: Extent)
    requires Apart(bs, e, k)
    requires g.base == if MergeFrom(bs, e, k) < k then bs[k - 1].base else e.base
    requires g.End() == if MergeTo(bs, e, k) > k then bs[k].End() else e.End()
    ensures IsMerged(bs, e.base, e.End(), g)
  {
    Neighbours(bs, e, k);
    hide Apart;
    assert TouchesBelow(bs, e, k) ==> bs[k - 1] in bs;
    assert TouchesAbove(bs, e, k) ==> bs[k] in bs;
  }

  lemma RemainNeighbours(bs: seq<Extent>, e: Extent, k: nat)
    requires Apart(bs, e, k)
    ensures var a, c := MergeFrom(bs, e, k), MergeTo(bs, e, k);
      forall x :: (exists i :: 0 <= i < |bs| && bs[i] == x && !(a <= i < c)) <==>
        x in bs && x.End() != e.base && x.base != e.End()
  {
    Neighbours(bs, e, k);
    hide Apart;
  }

  /** `e` fits between the blocks before position `k` and those from it on. */
  ghost predicate Apart(bs: seq<Extent>, e: Extent, k: nat) {
    && NonEmpty(bs) && Ordered(bs) && k <= |bs| && e.size > 0
    && (forall i :: 0 <= i < k ==> bs[i].End() <= e.base)
    && (forall i :: k <= i < |bs| ==> e.End() <= bs[i].base)
  }

  lemma FreedApart(h: Heap, b: nat)
    requires Laid(h) && b in h.live
    ensures Apart(h.free, Extent(b, h.live[b]), Position(h.free, b))
  {
    hide Bytes, LiveBytes, FreeBytes, InWord, Valid, Span, NoWholePage;
    LiveBytesDrop(h.live, b);
    NeighboursDisjoint(h.free, Extent(b, h.live[b]));
  }

  /** In an ordered list only the neighbours can touch. */
  lemma Neighbours(bs: seq<Extent>, e: Extent, k: nat)
    requires Apart(bs, e, k)
    ensures forall i :: 0 <= i < |bs| ==> (bs[i].End() == e.base <==> TouchesBelow(bs, e, k) && i == k - 1)
    ensures forall i :: 0 <= i < |bs| ==> (bs[i].base == e.End() <==> TouchesAbove(bs, e, k) && i == k)
  {
    forall i | 0 <= i < |bs|
      ensures bs[i].End() == e.base <==> TouchesBelow(bs, e, k) && i == k - 1
      ensures bs[i].base == e.End() <==> TouchesAbove(bs, e, k) && i == k
    {
      assert i < k - 1 ==> bs[i].End() <= bs[k - 1].base;
      assert k < i ==> bs[k].End() <= bs[i].base;
    }
  }

  lemma Remain(bs: seq<Extent>, a: nat, c: nat, ss: seq<Extent>)
    requires a <= c <= |bs|
    ensures forall x :: x in bs[..a] + ss + bs[c..] <==>
      x in ss || exists i :: 0 <= i < |bs| && bs[i] == x && !(a <= i < c)
  {
    var r := bs[..a] + ss + bs[c..];
    forall i | 0 <= i < |bs| && !(a <= i < c) ensures bs[i] in r {
      assert r[if i < a then i else i - c + a + |ss|] == bs[i];
    }
    forall x | x in r && x !in ss ensures exists i :: 0 <= i < |bs| && bs[i] == x && !(a <= i < c) {
      var j :| 0 <= j < |r| && r[j] == x;
      assert x == bs[if j < a then j else j - |ss| - a + c];
    }
  }

  /** What kfree promises: the heap is in order and without whole free pages,
      exactly the freed block is forgotten, the block is merged with both
      neighbours it touches, the whole pages of the result go back, the rest of
      it stays, and every other free block is left alone. */
  ghost predicate FreeSpec(h: Heap, b: nat, h': Heap)
    requires b in h.live
  {
    var e := Merged(h, b);
    && HeapOk(h') && h'.live == h.live - {b}
    && IsMerged(h.free, b, b + h.live[b], e)
    && (forall x :: x in h'.free <==> IsScrap(e, x) || (x in h.free && x.End() != b && x.base != b + h.live[b]))
    && Held(h') == Held(h) - PagesInside(e) && PagesInside(e) <= Held(h)
    && FreeBytes(h'.pool) == FreeBytes(h.pool) + PagesInside(e)
    && Total(h.free) + h.live[b] == Total(h'.free) + |PagesInside(e)|
  }

  /** kfree keeps its promises exactly when the release is tidy. */
  lemma KfreeIff(h: Heap, b: nat)
    requires HeapOk(h) && b in h.live
    ensures FreeSpec(h, b, Reclaim(h, b)) <==> Tidy(h, b)
  {
    hide Laid, Headed, Held, FreeBytes, Span, Total, Reclaim, Returned, Tidy, Merged, PagesInside, IsScrap, IsMerged;
    KfreeLaid(h, b);
    ReturnedInside(h, b);
    ReclaimExact(h, b);
    ReclaimHeadedIff(h, b);
  }

  lemma ReturnedInside(h: Heap, b: nat)
    requires b in h.live
    ensures var w, pages := Returned(h, b), PagesInside(Merged(h, b));
      Span(w.base, w.size) == pages && |pages| == w.size
  {
    hide Listed, Span, PagesInside, Whole;
    WholeIsInside(Merged(h, b));
    SpanCard(Returned(h, b).base, Returned(h, b).size);
  }

  /** After an untidy release a free block's header lies partly outside it: in a
      page the allocator may hand out next, or past the end of the block. */
  lemma UntidySpills(h: Heap, b: nat)
    requires HeapOk(h) && b in h.live && !Tidy(h, b)
    ensures var e, w, h' := Merged(h, b), Returned(h, b), Reclaim(h, b);
      || (&& Extent(e.base, w.base - e.base) in h'.free
          && w.base in Span(e.base, HEADER) && w.base in FreeBytes(h'.pool))
      || (&& Extent(w.End(), e.End() - w.End()) in h'.free
          && e.End() in Span(w.End(), HEADER))
  {
    hide Laid, Headed, FreeBytes, PageUp, PageDown, Release, ReleaseIndex, Free;
    KfreeLaid(h, b);
    ReleaseIndexValid(h.free, Extent(b, h.live[b]));
    var l, m, e, w := Listed(h, b).free, ReleaseIndex(h.free, Extent(b, h.live[b])), Merged(h, b), Returned(h, b);
    PageBorders(e);
    assert w.base in Span(w.base, w.size);
    SlicesListed(l, m, e);
  }

  lemma SlicesListed(l: seq<Extent>, m: nat, e: Extent)
    requires m < |l| && Whole(e).size > 0
    ensures forall x :: x in Slices(e) ==> x in l[..m] + Slices(e) + l[m + 1..]
    ensures var w := Whole(e);
      && (e.base < w.base ==> Extent(e.base, w.base - e.base) in Slices(e))
      && (w.End() < e.End() ==> Extent(w.End(), e.End() - w.End()) in Slices(e))
  {
    hide PageUp, PageDown;
    PageBorders(e);
  }

  lemma BlockLarge(bs: seq<Extent>, m: nat, n: nat)
    requires m < |bs| && AllAtLeast(bs, n)
    ensures bs[m].size >= n
  {
  }

  lemma SlicesWhole(e: Extent, n: nat)
    requires Whole(e).size == 0 && e.size >= n
    ensures AllAtLeast(Slices(e), n)
  {
    hide PageUp, PageDown;
  }

  lemma TakingHeaded(h: Heap, k: nat, need: nat)
    requires Headed(h) && k < |h.free| && HEADER <= need <= h.free[k].size
    ensures Headed(Taking(h, k, Share(h.free[k].size, need)))
  {
    hide Cut;
    CutShape(h.free, k, Share(h.free[k].size, need));
  }

  lemma InsertHeaded(h: Heap, e: Extent, pool: Pool)
    requires Headed(h) && e.size >= HEADER
    ensures Headed(InsertBlock(h, e, pool))
  {
    hide InsertBlock;
    InsertBlockShape(h, e, pool);
    InsertBlockRest(h, e, pool);
  }

  /** Allocating under the guard keeps every header inside its block. */
  lemma AllocateHeaded(h: Heap, size: nat)
    requires HeapOk(h) && Guard(h, size) && size < WORD
    ensures Headed(Allocate(h, size).0)
  {
    hide Tiled, Headed, Carve, Taking, Need, Request, InsertBlock, Alloc, NoWholePage, Share;
    if !Sane(size) {
      OversizeRequest(size);
      TiledPool(h);
      AllocNothing(h.pool);
      return;
    }
    NeedBounds(size);
    var k := FirstFit(h.free, Need(size));
    if k < |h.free| {
      TiledBlock(h, k);
      CarveTakes(h, k, Need(size));
      TakingHeaded(h, k, Need(size));
    } else {
      var (pool, o) := Alloc(h.pool, Request(size));
      GuardTaken(h, size);
      if o.Taken? {
        var e := Extent(o.paddr, Request(size));
        InsertHeaded(h, e, pool);
        InsertBlockShape(h, e, pool);
        RequestInWord(h, size, pool, o.paddr);
        CarveTakes(InsertBlock(h, e, pool), Position(h.free, o.paddr), Need(size));
        TakingHeaded(InsertBlock(h, e, pool), Position(h.free, o.paddr), Need(size));
      }
    }
  }

  lemma GuardTaken(h: Heap, size: nat)
    requires Sane(size) && Guard(h, size) && FirstFit(h.free, Need(size)) == |h.free| && Request(size) % PAGE_SIZE == 0
    ensures !Alloc(h.pool, Request(size)).1.Refused?
    ensures Alloc(h.pool, Request(size)).1.Taken? ==> Need(size) <= Request(size)
  {
    hide Need, Request;
  }

  lemma RequestInWord(h: Heap, size: nat, pool: Pool, p: nat)
    requires HeapOk(h) && Sane(size) && Need(size) <= Request(size) && Alloc(h.pool, Request(size)) == (pool, Taken(p))
    ensures Request(size) <= WORD
  {
    hide Need, Request, Alloc, LiveBytes, Bytes;
    NeedBounds(size);
    NewPagesSets(h, Request(size), p, pool);
    assert p + Request(size) - 1 in Span(p, Request(size));
    assert p + Request(size) - 1 in Held(h) + FreeBytes(h.pool);
  }

  // ------------------------------------------------------------------
  // The code.

  lemma ExhaustedKeeps(p: Pool, n: nat)
    ensures Alloc(p, n).1.Exhausted? ==> Alloc(p, n).0 == p
  {
  }

  lemma SplitAround(bs: seq<Extent>, m: nat)
    requires m < |bs|
    ensures bs[..m] + [bs[m]] + bs[m + 1..] == bs
  {
  }

  class KernelHeap {
    const allocator: FirstFitAllocator
    var free: seq<Extent>
    var live: map<nat, nat>

    function State(): Heap
      reads this, allocator
    {
      Heap(free, live, allocator.State())
    }

    constructor (allocator: FirstFitAllocator)
      ensures this.allocator == allocator && free == [] && live == map[]
    {
      this.allocator, free, live := allocator, [], map[];
    }

    /** Returns the payload address, or None if the page allocator is exhausted. */
    method Kmalloc(size: nat) returns (r: Option<nat>)
      requires size < WORD
      modifies this, allocator
      ensures State() == Allocate(old(State()), size).0
      ensures Allocate(old(State()), size).1 == if r.Some? && r.value >= HEADER then Some(r.value - HEADER) else None
      ensures r.Some? ==> r.value >= HEADER
    {
      hide Need, Request, Carve, FirstFit, Alloc;
      var k := SearchFit(free, Need(size));
      if k == |free| {
        ExhaustedKeeps(allocator.State(), Request(size));
        var o := allocator.AllocPages(Request(size));
        if o.Exhausted? {
          return None;
        }
        var base := if o.Taken? then o.paddr else 0;
        k := SearchPlace(free, base);
        free := free[..k] + [Extent(base, Request(size))] + free[k..];
      }
      var b := CutDown(k, Need(size));
      r := Some(b + HEADER);
    }

    method CutDown(k: nat, need: nat) returns (base: nat)
      requires k < |free|
      modifies this
      ensures (State(), base) == Carve(old(State()), k, need)
    {
      var b := free[k];
      var rest := Minus(b.size, need);
      if rest >= HEADER + ALLOC_ALIGN {
        free := free[..k] + [Extent(b.base + need, rest)] + free[k + 1..];
        live := live[b.base := need];
      } else {
        free := free[..k] + free[k + 1..];
        live := live[b.base := b.size];
      }
      base := b.base;
    }

    method Kfree(payload: nat)
      requires payload >= HEADER && payload - HEADER in live
      modifies this, allocator
      ensures State() == Reclaim(old(State()), payload - HEADER)
    {
      hide PageUp, PageDown, Release, ReleaseIndex, Free, Part;
      var b := payload - HEADER;
      var list, m := InsertMerged(free, Extent(b, live[b]));
      free, live := list, live - {b};
      var block := free[m];
      var first, last := PageUp(block.base), PageDown(block.End());
      if first < last {
        free := free[..m] + (Part(block.base, first) + Part(last, block.End())) + free[m + 1..];
        allocator.FreePages(Extent(first, last - first));
      } else {
        SplitAround(free, m);
      }
    }

    method Ksize(payload: nat) returns (n: nat)
      requires HeapOk(State()) && payload >= HEADER && payload - HEADER in live
      ensures n + HEADER == live[payload - HEADER]
    {
      n := live[payload - HEADER] - HEADER;
    }
  }

  // ------------------------------------------------------------------
  // Runs.

  datatype Op = MallocOp(size: nat) | KfreeOp(block: nat)

  function Step(h: Heap, op: Op): Heap {
    match op
    case MallocOp(size) => Allocate(h, size).0
    case KfreeOp(b) => if b in h.live then Reclaim(h, b) else h
  }

  function Run(h: Heap, ops: seq<Op>): Heap
    decreases |ops|
  {
    if ops == [] then h else Run(Step(h, ops[0]), ops[1..])
  }

  /** What callers owe: the guard for an allocation, a live block and a tidy
      release for kfree. */
  ghost predicate Legal(h: Heap, op: Op) {
    match op
    case MallocOp(size) => Guard(h, size) && size < WORD
    case KfreeOp(b) => b in h.live && Tidy(h, b)
  }

  ghost predicate LegalRun(h: Heap, ops: seq<Op>)
    decreases |ops|
  {
    ops == [] || (Legal(h, ops[0]) && LegalRun(Step(h, ops[0]), ops[1..]))
  }

  /** In every legal run live and free blocks tile exactly the memory that is
      not the page allocator's, no free block holds a whole page, every block
      holds its own header, and no byte changes hands otherwise. */
  lemma {:induction false} RunTiles(h: Heap, ops: seq<Op>)
    requires HeapOk(h) && LegalRun(h, ops)
    ensures HeapOk(Run(h, ops))
    ensures Held(Run(h, ops)) + FreeBytes(Run(h, ops).pool) == Held(h) + FreeBytes(h.pool)
    decreases |ops|
  {
    hide HeapOk, Held, FreeBytes, Guard, Allocate, Reclaim, Span, Total, Tidy, Returned;
    if ops != [] {
      match ops[0] {
        case MallocOp(size) => KmallocIff(h, size);
        case KfreeOp(b) => KfreeIff(h, b);
      }
      RunTiles(Step(h, ops[0]), ops[1..]);
    }
  }

  lemma StepOk(h: Heap, op: Op)
    requires HeapOk(h) && Legal(h, op)
    ensures HeapOk(Step(h, op))
    ensures forall b :: b in h.live && op != KfreeOp(b) ==> b in Step(h, op).live && Step(h, op).live[b] == h.live[b]
  {
    hide HeapOk, Held, FreeBytes, Guard, Allocate, Reclaim, Span, Total, Tidy, Returned;
    match op
    case MallocOp(size) => KmallocIff(h, size);
    case KfreeOp(b) => KfreeIff(h, b);
  }

  /** A block that is not freed stays live at its recorded size. */
  lemma {:induction false} RunKeepsSize(h: Heap, ops: seq<Op>, b: nat)
    requires HeapOk(h) && LegalRun(h, ops) && b in h.live && KfreeOp(b) !in ops
    ensures b in Run(h, ops).live && Run(h, ops).live[b] == h.live[b]
    decreases |ops|
  {
    hide HeapOk, Legal, Step;
    if ops != [] {
      assert ops[0] in ops;
      StepOk(h, ops[0]);
      RunKeepsSize(Step(h, ops[0]), ops[1..], b);
    }
  }

  /** Until a block is freed, its size less the header is at least what was asked
      for, in every continuation. */
  lemma KsizeCovers(h: Heap, size: nat, ops: seq<Op>)
    requires HeapOk(h) && Legal(h, MallocOp(size)) && Allocate(h, size).1.Some?
    requires var (h', r) := Allocate(h, size); LegalRun(h', ops) && KfreeOp(r.value) !in ops
    ensures var (h', r) := Allocate(h, size);
      r.value in Run(h', ops).live && Run(h', ops).live[r.value] - HEADER >= size
  {
    hide HeapOk, Held, FreeBytes, Guard, Allocate;
    KmallocIff(h, size);
    var (h', r) := Allocate(h, size);
    RunKeepsSize(h', ops, r.value);
  }

  // A run that leaves a free block too small for its header.

  const HEAP0: Heap := Heap([], map[], Pool([Extent(0, 8192)], 8192))
  const HEAP1: Heap := Heap([Extent(4032, 64)], map[0 := 4032], Pool([Extent(4096, 4096)], 4096))
  const HEAP2: Heap := Heap([Extent(4032, 64), Extent(4176, 4016)], map[0 := 4032, 4096 := 80], Pool([], 0))
  const HEAP3: Heap := Heap([Extent(4032, 64)], map[0 := 4032, 4096 := 80, 4176 := 4016], Pool([], 0))
  const HEAP4: Heap := Heap([Extent(4032, 144)], map[0 := 4032, 4176 := 4016], Pool([], 0))
  const HEAP5: Heap := Heap([Extent(4080, 96)], map[0 := 4032, 4176 := 4016, 4032 := 48], Pool([], 0))

  const OPS: seq<Op> :=
    [MallocOp(4000), MallocOp(48), MallocOp(3984), KfreeOp(4096), MallocOp(16)]

  lemma Pages1()
    ensures Need(4000) == 4032 && Request(4000) == 4096
    ensures Alloc(HEAP0.pool, 4096) == (HEAP1.pool, Taken(0))
    ensures FirstFit(HEAP0.pool.blocks, 4096) == 0
  {
    assert Cut(HEAP0.pool.blocks, 0, 4096) == [Extent(4096, 4096)];
  }

  lemma Insert1()
    ensures FirstFit(HEAP0.free, 4032) == 0 && Position(HEAP0.free, 0) == 0
    ensures InsertBlock(HEAP0, Extent(0, 4096), HEAP1.pool).free == [Extent(0, 4096)]
  {
  }

  lemma Step1()
    ensures Legal(HEAP0, OPS[0]) && Step(HEAP0, OPS[0]) == HEAP1
  {
    hide Alloc, InsertBlock, FirstFit, Position, Need, Request;
    Pages1();
    Insert1();
    InsertBlockRest(HEAP0, Extent(0, 4096), HEAP1.pool);
  }

  lemma Pages2()
    ensures Alloc(HEAP1.pool, 4096) == (HEAP2.pool, Taken(4096))
    ensures FirstFit(HEAP1.pool.blocks, 4096) == 0
  {
    assert Cut(HEAP1.pool.blocks, 0, 4096) == [];
  }

  lemma Insert2()
    ensures FirstFit(HEAP1.free, 80) == 1 && Position(HEAP1.free, 4096) == 1
    ensures InsertBlock(HEAP1, Extent(4096, 4096), HEAP2.pool).free == [Extent(4032, 64), Extent(4096, 4096)]
  {
  }

  lemma Step2()
    ensures Legal(HEAP1, OPS[1]) && Step(HEAP1, OPS[1]) == HEAP2
  {
    hide Alloc, InsertBlock, FirstFit, Position, Need, Request;
    assert Need(48) == 80 && Request(48) == 4096 by {
      NeedOf48();
    }
    Pages2();
    Insert2();
    InsertBlockRest(HEAP1, Extent(4096, 4096), HEAP2.pool);
  }

  lemma NeedOf48()
    ensures Need(48) == 80 && Request(48) == 4096
  {
  }

  lemma Step3()
    ensures Legal(HEAP2, OPS[2]) && Step(HEAP2, OPS[2]) == HEAP3
  {
    assert Need(3984) == 4016;
    assert FirstFit(HEAP2.free, 4016) == 1;
  }

  lemma JoinTwo(x: Extent, y: Extent)
    requires x.base < y.base == x.End()
    ensures Release([x], y) == [Extent(x.base, x.size + y.size)] && ReleaseIndex([x], y) == 0
  {
    assert [x][1..] == [];
    assert Position([x], y.base) == 1;
    assert [x][..1] + [y] + [x][1..] == [x, y];
    assert JoinAt([x, y], 0) == [Extent(x.base, x.size + y.size)];
  }

  lemma ReclaimOne(h: Heap, b: nat, e: Extent)
    requires b in h.live && Release(h.free, Extent(b, h.live[b])) == [e] && ReleaseIndex(h.free, Extent(b, h.live[b])) == 0
    ensures Reclaim(h, b).free == Slices(e) && Reclaim(h, b).live == h.live - {b}
    ensures Whole(e).size == 0 ==> Reclaim(h, b).pool == h.pool
  {
    hide Release, ReleaseIndex, Slices, Whole, Free;
    assert [e][..0] + Slices(e) + [e][1..] == Slices(e);
  }

  lemma Step4()
    ensures 4096 in HEAP3.live && Tidy(HEAP3, 4096) && Legal(HEAP3, OPS[3]) && Step(HEAP3, OPS[3]) == HEAP4
  {
    hide Release, ReleaseIndex, Reclaim;
    JoinTwo(Extent(4032, 64), Extent(4096, 80));
    ReclaimOne(HEAP3, 4096, Extent(4032, 144));
    assert HEAP3.live - {4096} == HEAP4.live;
  }

  lemma Step5()
    ensures Legal(HEAP4, OPS[4]) && Step(HEAP4, OPS[4]) == HEAP5
  {
    assert Need(16) == 48;
    assert FirstFit(HEAP4.free, 48) == 0;
  }

  lemma Step6()
    ensures 4176 in HEAP5.live && Reclaim(HEAP5, 4176).free == [Extent(4080, 16)] && !Tidy(HEAP5, 4176)
  {
    hide Release, ReleaseIndex, Reclaim;
    JoinTwo(Extent(4080, 96), Extent(4176, 4016));
    ReclaimOne(HEAP5, 4176, Extent(4080, 4112));
  }

  lemma StartOk()
    ensures HeapOk(HEAP0)
  {
    assert Bytes(HEAP0.pool.blocks) == Span(0, 8192);
  }

  /** From two free pages five legal calls lead to a live block whose release is
      not tidy: it leaves a free block of 16 bytes, whose header reaches into
      the page that was returned. */
  lemma SliceWithoutHeader()
    ensures HeapOk(HEAP0) && LegalRun(HEAP0, OPS) && Run(HEAP0, OPS) == HEAP5 && HeapOk(HEAP5)
    ensures 4176 in HEAP5.live && !Tidy(HEAP5, 4176)
    ensures Reclaim(HEAP5, 4176).free == [Extent(4080, 16)] && !HeapOk(Reclaim(HEAP5, 4176))
  {
    hide Step, Legal, Laid, Reclaim, Tidy;
    StartOk();
    Step1();
    Step2();
    Step3();
    Step4();
    Step5();
    Step6();
    RunOne(HEAP0, OPS, HEAP1);
    RunOne(HEAP1, OPS[1..], HEAP2);
    RunOne(HEAP2, OPS[2..], HEAP3);
    RunOne(HEAP3, OPS[3..], HEAP4);
    RunOne(HEAP4, OPS[4..], HEAP5);
    assert OPS[1..][1..] == OPS[2..] && OPS[2..][1..] == OPS[3..] && OPS[3..][1..] == OPS[4..];
    assert OPS[4..][1..] == [];
    RunTiles(HEAP0, OPS);
    assert Reclaim(HEAP5, 4176).free[0].size == 16;
  }

  lemma RunOne(h: Heap, ops: seq<Op>, h': Heap)
    requires ops != [] && Step(h, ops[0]) == h' && Legal(h, ops[0])
    ensures Run(h, ops) == Run(h', ops[1..])
    ensures LegalRun(h, ops) <==> LegalRun(h', ops[1..])
  {
    hide Step, Legal;
  }
}
