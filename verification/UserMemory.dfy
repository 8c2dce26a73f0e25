/** User address spaces (kern/mm/uvm.c) over the MIPS32 page table and the
    first-fit page allocator.

    Every virtual memory area the code creates is one page long, so an area is
    a virtual page with the frame it owns. `MmGood` says that the sorted list of
    areas, the page table and the page pool agree. */
module UserMemory {
  import opened Extents
  import opened PageAllocator
  import opened MipsPageTable

  /** `frame` and `refs` are the fields of the area's own `struct pages`. */
  datatype Vma = Vma(page: nat, flags: nat, frame: nat, refs: nat)

  ghost predicate HasPage(vs: seq<Vma>, w: nat) {
    exists i :: 0 <= i < |vs| && vs[i].page == w
  }

  ghost predicate Sorted(vs: seq<Vma>) {
    forall i, j :: 0 <= i < j < |vs| ==> vs[i].page < vs[j].page
  }

  ghost predicate DistinctFrames(vs: seq<Vma>) {
    forall i, j :: 0 <= i < j < |vs| ==> vs[i].frame != vs[j].frame
  }

  /** The translation is exactly the one the areas describe. */
  ghost predicate Agrees(vs: seq<Vma>, t: Table) {
    && (forall i :: 0 <= i < |vs| ==> vs[i].page + 1 < PAGES)
    && (forall i :: 0 <= i < |vs| ==> At(t, vs[i].page) == vs[i].frame + Perm(vs[i].flags))
    && (forall w: nat :: w < PAGES && At(t, w) != 0 ==> HasPage(vs, w))
  }

  ghost function OwnFrames(vs: seq<Vma>): set<nat> {
    set i | 0 <= i < |vs| :: vs[i].frame
  }

  /** Pages an address space holds: its directory, leaf tables and frames. */
  ghost function Held(frame: nat, t: Table, vs: seq<Vma>): set<nat> {
    {frame} + t.leaves.Keys + OwnFrames(vs)
  }

  ghost predicate Owns(frame: nat, t: Table, vs: seq<Vma>) {
    && frame !in t.leaves.Keys && frame !in OwnFrames(vs) && t.leaves.Keys !! OwnFrames(vs)
    && DistinctFrames(vs)
    && (forall i :: 0 <= i < |vs| ==> vs[i].refs == 1)
  }

  /** List and tables describe the same translation and no page twice. */
  ghost predicate Shape(frame: nat, t: Table, vs: seq<Vma>) {
    && Sound(t) && Compact(t)
    && Sorted(vs) && Agrees(vs, t) && Owns(frame, t, vs)
  }

  /** `p0` is the pool with all pages of the address space given back. */
  ghost predicate MmGood(p0: Pool, frame: nat, t: Table, p: Pool, vs: seq<Vma>) {
    Shape(frame, t, vs) && Took(p0, p, Held(frame, t, vs))
  }

  /** All memory lies where a page table entry can point. */
  ghost predicate Low(p: Pool) {
    forall x :: x in FreeBytes(p) ==> x < PAGES * PAGE_SIZE
  }

  function InsertAt(vs: seq<Vma>, k: nat, x: Vma): seq<Vma>
    requires k <= |vs|
  {
    vs[..k] + [x] + vs[k..]
  }

  function RemoveAt(vs: seq<Vma>, k: nat): seq<Vma>
    requires k < |vs|
  {
    vs[..k] + vs[k + 1..]
  }

  lemma InsertAtShape(vs: seq<Vma>, k: nat, x: Vma)
    requires k <= |vs|
    ensures var r := InsertAt(vs, k, x);
      && |r| == |vs| + 1 && r[k] == x
      && (forall i :: 0 <= i < k ==> r[i] == vs[i])
      && (forall i :: k <= i < |vs| ==> r[i + 1] == vs[i])
      && (forall i :: k < i < |r| ==> r[i] == vs[i - 1])
  {
  }

  lemma RemoveAtShape(vs: seq<Vma>, k: nat)
    requires k < |vs|
    ensures var r := RemoveAt(vs, k);
      && |r| == |vs| - 1
      && (forall i :: 0 <= i < k ==> r[i] == vs[i])
      && (forall i :: k <= i < |r| ==> r[i] == vs[i + 1])
      && (forall i :: k < i < |vs| ==> r[i - 1] == vs[i])
  {
  }

  lemma OwnFramesInsert(vs: seq<Vma>, k: nat, x: Vma)
    requires k <= |vs|
    ensures OwnFrames(InsertAt(vs, k, x)) == OwnFrames(vs) + {x.frame}
  {
    hide InsertAt;
    InsertAtShape(vs, k, x);
    var r := InsertAt(vs, k, x);
    forall f | f in OwnFrames(vs) + {x.frame} ensures f in OwnFrames(r) {
      if f != x.frame {
        var i :| 0 <= i < |vs| && vs[i].frame == f;
        assert r[if i < k then i else i + 1].frame == f;
      } else {
        assert r[k].frame == f;
      }
    }
  }

  lemma OwnFramesRemove(vs: seq<Vma>, k: nat)
    requires k < |vs| && DistinctFrames(vs)
    ensures OwnFrames(RemoveAt(vs, k)) == OwnFrames(vs) - {vs[k].frame}
  {
    hide RemoveAt;
    RemoveAtShape(vs, k);
    var r := RemoveAt(vs, k);
    forall f | f in OwnFrames(vs) - {vs[k].frame} ensures f in OwnFrames(r) {
      var i :| 0 <= i < |vs| && vs[i].frame == f;
      assert r[if i < k then i else i - 1].frame == f;
    }
  }

  // ------------------------------------------------------------------
  // One area more.

  lemma InsertSorted(vs: seq<Vma>, k: nat, x: Vma)
    requires k <= |vs| && Sorted(vs)
    requires forall i :: 0 <= i < k ==> vs[i].page < x.page
    requires forall i :: k <= i < |vs| ==> x.page < vs[i].page
    ensures Sorted(InsertAt(vs, k, x))
  {
    hide InsertAt;
    InsertAtShape(vs, k, x);
  }

  lemma FilledOne(t: Table, t': Table, x: Vma, w: nat)
    requires w < PAGES && x.frame % PAGE_SIZE == 0
    requires Filled(t, t', x.page, x.frame / PAGE_SIZE, 1, Perm(x.flags))
    ensures At(t', w) == if w == x.page then x.frame + Perm(x.flags) else At(t, w)
  {
    hide At, Perm;
    assert w == x.page <==> x.page <= w < x.page + 1;
  }

  lemma UnmappedNone(vs: seq<Vma>, t: Table, w: nat)
    requires Agrees(vs, t) && Unmapped(t, w, 1)
    ensures forall i :: 0 <= i < |vs| ==> vs[i].page != w
  {
    hide At, Perm;
    forall i | 0 <= i < |vs| ensures vs[i].page != w {
      PermPositive(vs[i].flags);
    }
  }

  lemma InsertAgrees(vs: seq<Vma>, k: nat, x: Vma, t: Table, t': Table)
    requires k <= |vs| && Agrees(vs, t) && x.page + 1 < PAGES && x.frame % PAGE_SIZE == 0
    requires Unmapped(t, x.page, 1)
    requires Filled(t, t', x.page, x.frame / PAGE_SIZE, 1, Perm(x.flags))
    ensures Agrees(InsertAt(vs, k, x), t')
  {
    hide InsertAt, At, Perm, Filled, Unmapped;
    InsertAtShape(vs, k, x);
    UnmappedNone(vs, t, x.page);
    var r := InsertAt(vs, k, x);
    forall i | 0 <= i < |r|
      ensures r[i].page + 1 < PAGES && At(t', r[i].page) == r[i].frame + Perm(r[i].flags)
    {
      if i != k {
        var y := vs[if i < k then i else i - 1];
        assert r[i] == y && At(t, y.page) == y.frame + Perm(y.flags);
      }
      FilledOne(t, t', x, r[i].page);
    }
    forall w: nat | w < PAGES && At(t', w) != 0 ensures HasPage(r, w) {
      FilledOne(t, t', x, w);
      if w == x.page {
        assert r[k].page == w;
      } else {
        assert HasPage(vs, w);
        var i :| 0 <= i < |vs| && vs[i].page == w;
        assert r[if i < k then i else i + 1].page == w;
      }
    }
  }

  lemma PermPositive(flags: nat)
    ensures 0 < Perm(flags) < PAGE_SIZE
  {
  }

  lemma InsertOwns(frame: nat, t: Table, t': Table, vs: seq<Vma>, k: nat, x: Vma)
    requires k <= |vs| && Owns(frame, t, vs) && x.refs == 1
    requires x.frame !in Held(frame, t, vs)
    requires t.leaves.Keys <= t'.leaves.Keys
    requires t'.leaves.Keys - t.leaves.Keys !! Held(frame, t, vs) + {x.frame}
    ensures Owns(frame, t', InsertAt(vs, k, x))
    ensures Held(frame, t', InsertAt(vs, k, x))
         == Held(frame, t, vs) + {x.frame} + (t'.leaves.Keys - t.leaves.Keys)
  {
    OwnFramesInsert(vs, k, x);
    InsertAtShape(vs, k, x);
    hide InsertAt;
    forall i | 0 <= i < |vs| ensures vs[i].frame in OwnFrames(vs) {
    }
    var r := InsertAt(vs, k, x);
    assert DistinctFrames(r);
  }

  /** Taking a frame and mapping it at a free place in the list. */
  lemma InsertGood(p0: Pool, frame: nat, t: Table, p: Pool, vs: seq<Vma>,
                   k: nat, x: Vma, p1: Pool, t': Table, p': Pool)
    requires MmGood(p0, frame, t, p, vs) && k <= |vs| && x.page + 1 < PAGES && x.refs == 1
    requires forall i :: 0 <= i < k ==> vs[i].page < x.page
    requires forall i :: k <= i < |vs| ==> x.page < vs[i].page
    requires Took(p, p1, {x.frame})
    requires Good(t', p')
    requires MapSpec(t, p1, t', p', x.page, x.frame / PAGE_SIZE, 1, Perm(x.flags), Success)
    ensures MmGood(p0, frame, t', p', InsertAt(vs, k, x))
  {
    assert x.frame % PAGE_SIZE == 0 by { assert x.frame in {x.frame}; }
    hide Took, InsertAt, Held, Filled, Unmapped, Slot, Sorted, Agrees, Owns, Sound, Compact, Perm, Grown;
    TookMore(p0, p, p1, Held(frame, t, vs), {x.frame});
    TookMore(p0, p1, p', Held(frame, t, vs) + {x.frame}, t'.leaves.Keys - t.leaves.Keys);
    InsertSorted(vs, k, x);
    InsertAgrees(vs, k, x, t, t');
    InsertOwns(frame, t, t', vs, k, x);
  }

  // ------------------------------------------------------------------
  // One area less.

  lemma RemoveSorted(vs: seq<Vma>, k: nat)
    requires k < |vs| && Sorted(vs)
    ensures Sorted(RemoveAt(vs, k))
  {
    hide RemoveAt;
    RemoveAtShape(vs, k);
  }

  lemma RemoveAgrees(vs: seq<Vma>, k: nat, t: Table, t': Table)
    requires k < |vs| && Sorted(vs) && Agrees(vs, t)
    requires Cleared(t, t', vs[k].page, 1)
    ensures Agrees(RemoveAt(vs, k), t')
  {
    hide RemoveAt, At, Perm;
    RemoveAtShape(vs, k);
    var r := RemoveAt(vs, k);
    forall i | 0 <= i < |r|
      ensures r[i].page + 1 < PAGES && At(t', r[i].page) == r[i].frame + Perm(r[i].flags)
    {
      var j := if i < k then i else i + 1;
      assert r[i] == vs[j] && vs[j].page != vs[k].page;
    }
    forall w: nat | w < PAGES && At(t', w) != 0 ensures HasPage(r, w) {
      assert w != vs[k].page;
      assert HasPage(vs, w);
      var i :| 0 <= i < |vs| && vs[i].page == w;
      assert r[if i < k then i else i - 1].page == w;
    }
    hide HasPage, Cleared;
  }

  lemma RemoveOwns(frame: nat, t: Table, t': Table, vs: seq<Vma>, k: nat)
    requires k < |vs| && Owns(frame, t, vs) && t'.leaves.Keys <= t.leaves.Keys
    ensures Owns(frame, t', RemoveAt(vs, k))
    ensures vs[k].frame in Held(frame, t, vs) - (t.leaves.Keys - t'.leaves.Keys)
    ensures Held(frame, t', RemoveAt(vs, k))
         == Held(frame, t, vs) - (t.leaves.Keys - t'.leaves.Keys) - {vs[k].frame}
  {
    OwnFramesRemove(vs, k);
    RemoveAtShape(vs, k);
    hide RemoveAt;
    assert vs[k].frame in OwnFrames(vs);
    var r := RemoveAt(vs, k);
    assert DistinctFrames(r);
  }

  lemma GiveFrame(p0: Pool, p: Pool, held: set<nat>, f: nat)
    requires Took(p0, p, held) && f in held
    ensures Took(p0, Free(p, Extent(f, PAGE_SIZE)), held - {f})
  {
    TookNothing(p);
    hide Free, FreeBytes;
    PageBytesMember(held, f);
    assert Span(f, PAGE_SIZE) !! FreeBytes(p);
    assert f % PAGE_SIZE == 0;
    hide Took, Gave;
    GiveOne(p, p, {}, f);
    assert {} + {f} == {f};
    TookLess(p0, p, Free(p, Extent(f, PAGE_SIZE)), held, {f});
  }

  /** Unmapping an area and returning its frame. */
  lemma RemoveGood(p0: Pool, frame: nat, t: Table, p: Pool, vs: seq<Vma>, k: nat, t': Table, p': Pool)
    requires MmGood(p0, frame, t, p, vs) && k < |vs|
    requires Good(t', p') && UnmapSpec(t, p, t', p', vs[k].page, 1)
    ensures MmGood(p0, frame, t', Free(p', Extent(vs[k].frame, PAGE_SIZE)), RemoveAt(vs, k))
  {
    var dropped := t.leaves.Keys - t'.leaves.Keys;
    assert dropped <= Held(frame, t, vs);
    hide Took, Gave, RemoveAt, Held, Cleared, Slot, Sorted, Agrees, Owns, Sound, Compact, Free;
    TookLess(p0, p, p', Held(frame, t, vs), dropped);
    RemoveSorted(vs, k);
    RemoveAgrees(vs, k, t, t');
    RemoveOwns(frame, t, t', vs, k);
    GiveFrame(p0, p', Held(frame, t, vs) - dropped, vs[k].frame);
  }

  lemma MmGoodTables(p0: Pool, frame: nat, t: Table, p: Pool, vs: seq<Vma>)
    requires MmGood(p0, frame, t, p, vs)
    ensures Good(t, p)
    ensures forall i :: 0 <= i < |vs| ==> vs[i].page + 1 < PAGES
  {
    hide FreeBytes;
    PageBytesAdd({frame} + t.leaves.Keys, OwnFrames(vs));
    PageBytesAdd({frame}, t.leaves.Keys);
  }

  /** The one-page unmapping of an area cannot panic, clears one page and
      reports the area's own frame. */
  lemma UnmapOneArea(p0: Pool, frame: nat, t: Table, p: Pool, vs: seq<Vma>, k: nat)
    requires MmGood(p0, frame, t, p, vs) && k < |vs|
    ensures !UnmapPanics(t, vs[k].page, 1)
    ensures UnmapCount(t, vs[k].page, 1) == 1
    ensures FirstFrame(t, vs[k].page, 1) == vs[k].frame
  {
    hide Took, At, Perm, Compact, Sound, UnmapPanics, UnmapCount, FirstFrame;
    TookBases(p0, p, Held(frame, t, vs));
    assert vs[k].frame in OwnFrames(vs);
    PermPositive(vs[k].flags);
    EntryUnmaps(t, vs[k].page, vs[k].frame, Perm(vs[k].flags));
  }

  lemma EntryUnmaps(t: Table, v: nat, f: nat, perm: nat)
    requires At(t, v) == f + perm && f % PAGE_SIZE == 0 && 0 < perm < PAGE_SIZE
    ensures !UnmapPanics(t, v, 1) && UnmapCount(t, v, 1) == 1 && FirstFrame(t, v, 1) == f
  {
    FrameOfEntry(f, perm);
  }

  lemma TookBases(p0: Pool, p: Pool, fs: set<nat>)
    requires Took(p0, p, fs)
    ensures Bases(fs)
  {
  }

  lemma FrameOfEntry(f: nat, perm: nat)
    requires f % PAGE_SIZE == 0 && perm < PAGE_SIZE
    ensures FrameOf(f + perm) == f
  {
  }

  // ------------------------------------------------------------------
  // The code.

  /** Slots only lose their tables. */
  ghost predicate Shrunk(t: Table, t': Table) {
    forall s: nat :: s < ENTRIES ==> Slot(t', s) == Slot(t, s) || Slot(t', s) == 0
  }

  /** What the list head reads as when it is taken for an area. */
  datatype Sentry = Sentry(start: nat, size: nat)

  datatype Option<T> = None | Some(value: T)

  /** Position of the first area that starts at page `w` or later. */
  function Place(vs: seq<Vma>, w: nat): (k: nat)
    ensures k <= |vs|
    ensures forall i :: 0 <= i < k ==> vs[i].page < w
    ensures k < |vs| ==> vs[k].page >= w
  {
    if vs == [] || vs[0].page >= w then 0 else 1 + Place(vs[1..], w)
  }

  /** The overlap test of `FindVmaBefore`: the end of the area before the
      place is computed with the size of the area after it. */
  predicate LooksOverlapping(vs: seq<Vma>, a: nat, n: nat, sentry: Sentry) {
    var k := Place(vs, a + n);
    && vs != []
    && a * PAGE_SIZE < (if k > 0 then vs[k - 1].page * PAGE_SIZE else sentry.start)
                     + (if k < |vs| then PAGE_SIZE else sentry.size)
  }

  /** The list without the `m` areas from position `k` on. */
  function CutOut(vs: seq<Vma>, k: nat, m: nat): seq<Vma>
    requires k + m <= |vs|
  {
    vs[..k] + vs[k + m..]
  }

  lemma CutOutNone(vs: seq<Vma>, k: nat)
    requires k <= |vs|
    ensures CutOut(vs, k, 0) == vs
  {
  }

  lemma CutOutNext(vs: seq<Vma>, k: nat, i: nat)
    requires k + i < |vs|
    ensures |CutOut(vs, k, i)| == |vs| - i
    ensures RemoveAt(CutOut(vs, k, i), k) == CutOut(vs, k, i + 1)
  {
    var mid := CutOut(vs, k, i);
    assert mid[..k] == vs[..k];
    assert mid[k + 1..] == vs[k + i + 1..];
  }

  predicate NeedsTable(t: Table, v: nat) {
    Slot(t, v / ENTRIES) == 0
  }

  /** Bytes one turn of the loop of `CreateUvm` takes. */
  function TurnCost(t: Table, v: nat): nat {
    if NeedsTable(t, v) then 2 * PAGE_SIZE else PAGE_SIZE
  }

  /** How one turn ends: an area added, an error that left everything as it was,
      a turn without a page of its own, or a table at a stale address. */
  datatype AreaResult = Mapped | Refusal(code: Code) | OnZero(code: Code) | Stray

  ghost predicate AreaOutcome(t: Table, p: Pool, v: nat, stale: int, r: AreaResult) {
    && (r.Mapped? <==> Unmapped(t, v, 1) && TurnCost(t, v) <= p.freeSpace)
    && (r.Refusal? <==>
          && p.freeSpace > 0
          && (!Unmapped(t, v, 1) || (p.freeSpace < TurnCost(t, v) && stale == -1)))
    && (r.Refusal? ==> r.code == if Unmapped(t, v, 1) then ENOMEM else EEXIST)
    && (r.Stray? <==> NeedsTable(t, v) && p.freeSpace < TurnCost(t, v) && stale != -1)
    && (r.OnZero? <==> p.freeSpace == 0 && (NeedsTable(t, v) ==> stale == -1))
    && (r.OnZero? ==>
          r.code == if !Unmapped(t, v, 1) then EEXIST else if NeedsTable(t, v) then ENOMEM else Success)
  }

  lemma AffordableOne(t: Table, p: Pool, v: nat)
    requires v < PAGES
    ensures Affordable(t, p, v, 1) <==> !NeedsTable(t, v) || PAGE_SIZE <= p.freeSpace
    ensures NeedsTable(t, v) ==> Unmapped(t, v, 1)
  {
    hide At, InSlots, Slot;
    MissingNext(t, v, 0);
    NoneMissing(t, v);
    if NeedsTable(t, v) {
      EmptySlotUnmapped(t, v);
    }
    FirstConflictUnique(t, v, 1, if At(t, v) != 0 then 0 else 1);
  }

  lemma NeedsTableUnmapped(t: Table, v: nat)
    ensures NeedsTable(t, v) ==> Unmapped(t, v, 1)
  {
    hide At, Slot;
    if NeedsTable(t, v) {
      EmptySlotUnmapped(t, v);
    }
  }

  lemma NoneMissing(t: Table, v: nat)
    ensures Missing(t, v, 0) == {}
  {
  }

  lemma WholePages(p: Pool)
    requires Valid(p)
    ensures p.freeSpace % PAGE_SIZE == 0
  {
    AlignedTotal(p.blocks);
  }

  lemma {:induction false} AlignedTotal(bs: seq<Extent>)
    requires Aligned(bs, PAGE_SIZE)
    ensures Total(bs) % PAGE_SIZE == 0
  {
    if bs != [] {
      assert bs[0].size % PAGE_SIZE == 0;
      assert forall i :: 0 <= i < |bs[1..]| ==> bs[1..][i] == bs[i + 1];
      AlignedTotal(bs[1..]);
    }
  }

  /** With a page taken, the outcome is that of mapping it. */
  lemma AreaTaken(t: Table, p: Pool, p1: Pool, v: nat, stale: int, code: Code)
    requires Valid(p) && p.freeSpace == p1.freeSpace + PAGE_SIZE && v < PAGES
    requires MapOutcome(t, p1, v, 1, stale, code)
    ensures AreaOutcome(t, p, v, stale,
      if code == Success then Mapped else if code == Wild then Stray else Refusal(code))
  {
    hide Affordable, Unmapped, Slot, Valid;
    AffordableOne(t, p1, v);
    WholePages(p);
  }

  /** Without a free page the loop works on page 0, which it does not own. */
  lemma AreaUnbacked(t: Table, p: Pool, v: nat, stale: int, code: Code)
    requires p.freeSpace == 0 && v < PAGES && MapOutcome(t, p, v, 1, stale, code)
    ensures AreaOutcome(t, p, v, stale, if code == Wild then Stray else OnZero(code))
  {
    hide Affordable, Unmapped, Slot;
    AffordableOne(t, p, v);
  }

  lemma GoodWithLess(t: Table, p: Pool, p1: Pool, fs: set<nat>)
    requires Good(t, p) && Took(p, p1, fs)
    ensures Good(t, p1)
  {
  }

  lemma TakeFrame(p: Pool, p1: Pool, f: nat)
    requires Valid(p) && Alloc(p, PAGE_SIZE) == (p1, Taken(f))
    ensures Took(p, p1, {f}) && f % PAGE_SIZE == 0 && p1.freeSpace == p.freeSpace - PAGE_SIZE
    ensures Free(p1, Extent(f, PAGE_SIZE)) == p
  {
    FreeUndoesAlloc(p, PAGE_SIZE);
    TookNothing(p);
    TakeOne(p, p, {});
    hide Took, Valid, Alloc, Free;
    assert {} + {f} == {f};
    assert f in {f};
    TookCount(p, p1, {f});
  }

  lemma TookCount(p: Pool, p1: Pool, fs: set<nat>)
    requires Took(p, p1, fs)
    ensures p.freeSpace == p1.freeSpace + PAGE_SIZE * |fs|
  {
  }

  /** `vs` is `vs0` with areas for the `n` pages from `a` at position `k`. */
  ghost predicate CreatedList(vs0: seq<Vma>, vs: seq<Vma>, k: nat, a: nat, n: nat, flags: nat) {
    && k <= |vs0| && |vs| == |vs0| + n
    && (forall i :: 0 <= i < k ==> vs[i] == vs0[i])
    && (forall i :: k <= i < k + n ==> vs[i].page == a + (i - k) && vs[i].flags == flags)
    && (forall i :: k + n <= i < |vs| ==> vs[i] == vs0[i - n])
  }

  lemma CreatedListNext(vs0: seq<Vma>, vs: seq<Vma>, vs': seq<Vma>, k: nat, a: nat, n: nat, flags: nat)
    requires CreatedList(vs0, vs, k, a, n, flags) && Inserted(vs, vs', k + n, a + n, flags)
    ensures CreatedList(vs0, vs', k, a, n + 1, flags)
  {
    hide InsertAt;
    InsertAtShape(vs, k + n, vs'[k + n]);
  }

  /** Past the overlap test, every area before the place starts at or before
      the requested page, whatever was read through the list head. */
  lemma PlaceIsBeyond(vs: seq<Vma>, a: nat, n: nat, sentry: Sentry)
    requires Sorted(vs) && !LooksOverlapping(vs, a, n, sentry)
    ensures forall i :: 0 <= i < Place(vs, a + n) ==> vs[i].page <= a
    ensures forall i :: Place(vs, a + n) <= i < |vs| ==> a + n <= vs[i].page
  {
    var k := Place(vs, a + n);
    if k > 0 {
      assert vs[k - 1].page <= a;
    }
  }

  ghost predicate Overlapping(vs: seq<Vma>, a: nat, n: nat) {
    exists i :: 0 <= i < |vs| && a <= vs[i].page < a + n
  }

  /** The test finds exactly the overlaps strictly inside the list. Before the
      first area it is right exactly when the head's start lies a page or more
      below the range, and behind the last one exactly when the head's size
      counts the last page but does not reach the range. */
  lemma OverlapTestIff(vs: seq<Vma>, a: nat, n: nat, sentry: Sentry)
    requires Sorted(vs) && n > 0 && vs != []
    ensures var k, last := Place(vs, a + n), vs[|vs| - 1].page;
      (LooksOverlapping(vs, a, n, sentry) <==> Overlapping(vs, a, n)) <==>
      if k == 0 then sentry.start + PAGE_SIZE <= a * PAGE_SIZE
      else if k < |vs| then true
      else if a < last then true
      else if a == last then sentry.size > 0
      else last * PAGE_SIZE + sentry.size <= a * PAGE_SIZE
  {
    hide Overlapping, Place, Sorted;
    OverlapsBefore(vs, a, n);
  }

  lemma OverlapsBefore(vs: seq<Vma>, a: nat, n: nat)
    requires Sorted(vs) && n > 0
    ensures var k := Place(vs, a + n); Overlapping(vs, a, n) <==> k > 0 && a <= vs[k - 1].page
  {
    var k := Place(vs, a + n);
    if i :| 0 <= i < |vs| && a <= vs[i].page < a + n {
      assert i < k;
      assert vs[i].page <= vs[k - 1].page;
    }
    if k > 0 && a <= vs[k - 1].page {
      assert a <= vs[k - 1].page < a + n;
    }
  }

  /** The rollback of a call that failed after `m` pages starts at the area
      before the new ones: that area is lost and the last new one stays. */
  ghost predicate MisrolledList(vs0: seq<Vma>, vs: seq<Vma>, k: nat, last: nat) {
    && 0 < k <= |vs0| && |vs| == |vs0|
    && (forall i :: 0 <= i < |vs| && i != k - 1 ==> vs[i] == vs0[i])
    && vs[k - 1].page == last && vs0[k - 1].page != last
  }

  lemma Misrolled(vs0: seq<Vma>, vs: seq<Vma>, k: nat, a: nat, m: nat, flags: nat)
    requires CreatedList(vs0, vs, k, a, m, flags) && Sorted(vs) && m > 0 && k > 0
    ensures k - 1 + m <= |vs|
    ensures MisrolledList(vs0, CutOut(vs, k - 1, m), k, a + m - 1)
  {
    hide CutOut;
    CutOutShape(vs, k - 1, m);
    assert vs[k - 1].page < vs[k + m - 1].page;
  }

  lemma CutOutShape(vs: seq<Vma>, k: nat, m: nat)
    requires k + m <= |vs|
    ensures var r := CutOut(vs, k, m);
      && |r| == |vs| - m
      && (forall i :: 0 <= i < k ==> r[i] == vs[i])
      && (forall i :: k <= i < |r| ==> r[i] == vs[i + m])
  {
  }

  lemma GrownNext(t0: Table, t: Table, u: Table, a: nat, i: nat)
    requires Grown(t0, t, a, i) && Grown(t, u, a + i, 1)
    ensures Grown(t0, u, a, i + 1)
  {
    hide Slot, InSlots;
    forall s: nat | s < ENTRIES
      ensures InSlots(a, i + 1, s) <==> InSlots(a, i, s) || InSlots(a + i, 1, s)
    {
      InSlotsNext(a, i, s);
      InSlotsNext(a + i, 0, s);
      NoSlots(a + i, s);
    }
  }

  lemma NoSlots(a: nat, s: nat)
    ensures !InSlots(a, 0, s)
  {
  }

  lemma GrownNothing(t: Table, a: nat)
    ensures Grown(t, t, a, 0)
  {
  }

  /** Position `k` is where an area for `page` belongs, unless the area before
      it is already at that page. */
  ghost predicate GapAt(vs: seq<Vma>, k: nat, page: nat) {
    && k <= |vs|
    && (forall i :: 0 <= i < k ==> vs[i].page <= page)
    && (forall i :: k <= i < |vs| ==> page < vs[i].page)
  }

  ghost predicate Inserted(vs0: seq<Vma>, vs: seq<Vma>, k: nat, page: nat, flags: nat) {
    && k <= |vs0| && |vs| == |vs0| + 1 && vs == InsertAt(vs0, k, vs[k])
    && vs[k].page == page && vs[k].flags == flags
  }

  lemma AddAreaReady(vs0: seq<Vma>, vs: seq<Vma>, k: nat, a: nat, i: nat, n: nat, flags: nat, sentry: Sentry)
    requires Sorted(vs0) && k == Place(vs0, a + n) && !LooksOverlapping(vs0, a, n, sentry)
    requires i < n && CreatedList(vs0, vs, k, a, i, flags)
    ensures GapAt(vs, k + i, a + i)
  {
    PlaceIsBeyond(vs0, a, n, sentry);
  }

  /** Bytes the first `i` turns of the loop take: the pages themselves and the
      leaf tables they lack. */
  ghost function Cost(t: Table, a: nat, i: nat): nat {
    PAGE_SIZE * (i + |Missing(t, a, i)|)
  }

  /** How many of the first `m` turns the free memory pays for. */
  ghost function Paid(t: Table, p: Pool, a: nat, m: nat): (i: nat)
    ensures i <= m
  {
    if m == 0 || Cost(t, a, m) <= p.freeSpace then m else Paid(t, p, a, m - 1)
  }

  /** The first turn from `i` on that lacks a leaf table, or `m`. */
  ghost function NextTable(t: Table, a: nat, i: nat, m: nat): (j: nat)
    requires i <= m
    ensures i <= j <= m
    decreases m - i
  {
    if i == m || Missing(t, a, i + 1) != Missing(t, a, i) then i else NextTable(t, a, i + 1, m)
  }

  lemma CostNext(t: Table, a: nat, i: nat)
    ensures Cost(t, a, i + 1) >= Cost(t, a, i) + PAGE_SIZE
  {
    hide Missing;
    MissingGrows(t, a, i, i + 1);
  }

  lemma {:induction false} CostGrows(t: Table, a: nat, i: nat, j: nat)
    requires i <= j
    ensures Cost(t, a, i) <= Cost(t, a, j)
    decreases j - i
  {
    hide Cost;
    if i < j {
      CostGrows(t, a, i, j - 1);
      CostNext(t, a, j - 1);
    }
  }

  /** The memory pays for `i` turns and not for one more. */
  lemma {:induction false} PaidAt(t: Table, p: Pool, a: nat, i: nat, m: nat)
    requires i < m && Cost(t, a, i) <= p.freeSpace < Cost(t, a, i + 1)
    ensures Paid(t, p, a, m) == i
    decreases m
  {
    hide Cost;
    CostGrows(t, a, i + 1, m);
    if m == i + 1 {
      assert Paid(t, p, a, i) == i;
    } else {
      PaidAt(t, p, a, i, m - 1);
    }
  }

  /** What `i` turns have taken. */
  ghost predicate Spent(t0: Table, p0: Pool, p: Pool, a: nat, i: nat) {
    p0.freeSpace == p.freeSpace + Cost(t0, a, i)
  }

  /** With the tables of `i` turns in place the next turn lacks one exactly when
      it adds to the missing ones. */
  lemma NeedsIff(t0: Table, t: Table, a: nat, i: nat)
    requires Grown(t0, t, a, i) && a + i < PAGES
    ensures NeedsTable(t, a + i) <==> Missing(t0, a, i + 1) != Missing(t0, a, i)
    ensures Cost(t0, a, i + 1) == Cost(t0, a, i) + TurnCost(t, a + i)
  {
    hide InSlots, Slot;
    MissingNext(t0, a, i);
    var s := (a + i) / ENTRIES;
    assert s < ENTRIES;
    if NeedsTable(t, a + i) {
      assert Slot(t0, s) == 0 && s !in Missing(t0, a, i);
      assert s in Missing(t0, a, i + 1);
    } else if Slot(t0, s) == 0 {
      assert s in Missing(t0, a, i);
      assert Missing(t0, a, i) + {s} == Missing(t0, a, i);
    }
  }

  lemma SpentNext(t0: Table, p0: Pool, t: Table, p: Pool, p': Pool, a: nat, i: nat)
    requires Spent(t0, p0, p, a, i) && Grown(t0, t, a, i) && a + i < PAGES
    requires p.freeSpace == p'.freeSpace + TurnCost(t, a + i)
    ensures Spent(t0, p0, p', a, i + 1)
  {
    hide Cost, TurnCost, Grown;
    NeedsIff(t0, t, a, i);
  }

  lemma MappedIff(vs: seq<Vma>, t: Table, w: nat)
    requires Agrees(vs, t) && w < PAGES
    ensures At(t, w) != 0 <==> HasPage(vs, w)
  {
    hide At, Perm;
    if HasPage(vs, w) {
      var j :| 0 <= j < |vs| && vs[j].page == w;
      assert At(t, vs[j].page) == vs[j].frame + Perm(vs[j].flags);
      PermPositive(vs[j].flags);
    }
  }

  lemma CreatedAhead(vs0: seq<Vma>, vs: seq<Vma>, k: nat, a: nat, i: nat, flags: nat, w: nat)
    requires CreatedList(vs0, vs, k, a, i, flags) && w >= a + i
    ensures HasPage(vs, w) <==> HasPage(vs0, w)
  {
    if HasPage(vs0, w) {
      var j :| 0 <= j < |vs0| && vs0[j].page == w;
      assert vs[if j < k then j else j + i] == vs0[j];
    }
    if HasPage(vs, w) {
      var j :| 0 <= j < |vs| && vs[j].page == w;
      assert vs0[if j < k then j else j - i] == vs[j];
    }
  }

  /** A page not yet created is mapped exactly when it was before. */
  lemma PageAhead(vs0: seq<Vma>, t0: Table, vs: seq<Vma>, t: Table, k: nat, a: nat, i: nat, flags: nat, w: nat)
    requires Agrees(vs0, t0) && Agrees(vs, t) && CreatedList(vs0, vs, k, a, i, flags) && a + i <= w < PAGES
    ensures At(t, w) == 0 <==> At(t0, w) == 0
    ensures At(t0, w) != 0 ==> HasPage(vs0, w)
  {
    hide At, Agrees, HasPage, CreatedList;
    MappedIff(vs0, t0, w);
    MappedIff(vs, t, w);
    CreatedAhead(vs0, vs, k, a, i, flags, w);
  }

  /** Past the overlap test only the first page can be taken already. */
  lemma ConflictFirst(vs: seq<Vma>, a: nat, n: nat, i: nat, sentry: Sentry)
    requires Sorted(vs) && !LooksOverlapping(vs, a, n, sentry) && i < n && HasPage(vs, a + i)
    ensures i == 0
  {
    PlaceIsBeyond(vs, a, n, sentry);
    var j :| 0 <= j < |vs| && vs[j].page == a + i;
    assert j < Place(vs, a + n) ==> vs[j].page <= a;
  }

  /** `Unbacked(m, code)`: from page `m` on the code worked on page 0, which it
      never got, and returned `code`. `Clobbered(m)`: at page `m` it put a leaf
      table at a stale address. `HeadLost(m)`: it removed the list head. */
  datatype CreateResult =
    | Created | BadArgument | Overlaps
    | Failed(code: Code, mapped: nat) | HeadLost(mapped: nat)
    | Unbacked(mapped: nat, code: Code) | Clobbered(mapped: nat)

  function Least(x: nat, y: nat): nat {
    if x < y then x else y
  }

  /** The rollback after `i` pages, for a place `k` in the list. */
  function RolledBack(k: nat, code: Code, i: nat): CreateResult {
    if i > 0 && k == 0 then HeadLost(i) else Failed(code, i)
  }

  /** The result when no page is free from turn `i` on: a turn that lacks a leaf
      table is the last one, every other counts as a success. */
  ghost function BrokeEnd(t: Table, a: nat, i: nat, n: nat, descriptors: nat, stale: int): CreateResult
    requires i <= Least(n, descriptors)
  {
    var m := Least(n, descriptors);
    var j := NextTable(t, a, i, m);
    if j < m then
      if stale != -1 then Clobbered(j) else Unbacked(i, ENOMEM)
    else
      Unbacked(i, if n <= descriptors then Success else ENOMEM)
  }

  /** The result of a request that passed the tests, from the tables and the
      free memory before the call. `k` is the place in the list, `descriptors`
      the number of turns for which there are descriptors. */
  ghost function CreateEnd(k: nat, t: Table, p: Pool, a: nat, n: nat, descriptors: nat, stale: int): CreateResult {
    var m := Least(n, descriptors);
    if m > 0 && At(t, a) != 0 then
      if p.freeSpace > 0 then Failed(EEXIST, 0) else Unbacked(0, EEXIST)
    else
      var i := Paid(t, p, a, m);
      if i == m then
        if n <= descriptors then CreateResult.Created else RolledBack(k, ENOMEM, m)
      else if p.freeSpace == Cost(t, a, i) then
        BrokeEnd(t, a, i, n, descriptors, stale)
      else if stale != -1 then
        Clobbered(i)
      else
        RolledBack(k, ENOMEM, i)
  }

  /** What `CreateUvm` does to the list of areas, the tables and the pool. A
      failure undoes everything if it came at the first page; otherwise the
      rollback removes the wrong areas, or the list head if none comes before. */
  ghost predicate CreateSpec(vs0: seq<Vma>, t0: Table, p0: Pool, vs: seq<Vma>, t: Table, p: Pool,
                             a: nat, n: nat, flags: nat, r: CreateResult)
  {
    var k := Place(vs0, a + n);
    match r
    case Created => CreatedList(vs0, vs, k, a, n, flags) && Grown(t0, t, a, n) && Spent(t0, p0, p, a, n)
    case BadArgument => vs == vs0 && t == t0 && p == p0
    case Overlaps => vs == vs0 && t == t0 && p == p0
    case Failed(_, m) =>
      && m < n
      && (if m == 0 then vs == vs0 && t == t0 && p == p0
          else MisrolledList(vs0, vs, k, a + m - 1))
    case HeadLost(m) => k == 0 < m < n
    case Unbacked(m, code) =>
      && m < n
      && (code == Success ==> CreatedList(vs0, vs, k, a, n, flags) && ZeroFrames(vs, k + m, k + n) && p.freeSpace == 0)
    case Clobbered(m) => m < n
  }

  // ------------------------------------------------------------------
  // Areas on page 0.

  ghost predicate ZeroFrames(vs: seq<Vma>, lo: nat, hi: nat) {
    hi <= |vs| && forall j :: lo <= j < hi ==> vs[j].frame == 0
  }

  /** With no page free, a page whose leaf table exists is created on page 0 and
      the turn counts as a success. */
  lemma BrokeTurn(t: Table, p: Pool, v: nat, stale: int, r: AreaResult)
    requires p.freeSpace == 0 && Unmapped(t, v, 1) && !NeedsTable(t, v) && AreaOutcome(t, p, v, stale, r)
    ensures r == OnZero(Success)
  {
    hide Unmapped, Slot;
  }

  /** Destroying that area again unmaps it without complaint and leaves page 0,
      which was never taken, on the free list. */
  lemma BrokeCycle(t: Table, p: Pool, t': Table, v: nat, flags: nat)
    requires Valid(p) && p.freeSpace == 0 && v + 1 < PAGES && Filled(t, t', v, 0, 1, Perm(flags))
    ensures !UnmapPanics(t', v, 1) && UnmapCount(t', v, 1) == 1 && FirstFrame(t', v, 1) == 0
    ensures Free(p, Extent(0, PAGE_SIZE)) == Pool([Extent(0, PAGE_SIZE)], PAGE_SIZE) && p == Pool([], 0)
  {
    hide At, UnmapPanics, UnmapCount, FirstFrame, Perm;
    PermPositive(flags);
    FilledOne(t, t', Vma(v, flags, 0, 1), v);
    EntryUnmaps(t', v, 0, Perm(flags));
    EmptyPool(p);
  }

  lemma EmptyPool(p: Pool)
    requires Valid(p) && p.freeSpace == 0
    ensures p == Pool([], 0)
    ensures Free(p, Extent(0, PAGE_SIZE)) == Pool([Extent(0, PAGE_SIZE)], PAGE_SIZE)
  {
    assert p.blocks == [];
    assert p.blocks[..0] + [Extent(0, PAGE_SIZE)] + p.blocks[0..] == [Extent(0, PAGE_SIZE)];
  }

  /** `vs` is `vs1` with `j` areas on page 0 at position `k`. */
  ghost predicate WithZeroes(vs1: seq<Vma>, vs: seq<Vma>, k: nat, j: nat) {
    && k <= |vs1| && |vs| == |vs1| + j
    && (forall i :: 0 <= i < k ==> vs[i] == vs1[i])
    && ZeroFrames(vs, k, k + j)
    && (forall i :: k + j <= i < |vs| ==> vs[i] == vs1[i - j])
  }

  /** A turn of the loop with no page to take: page 0 is mapped, or else given
      to the pool. */
  ghost predicate ZeroTurn(vs0: seq<Vma>, t0: Table, p0: Pool, vs: seq<Vma>, t: Table, p: Pool,
                           k: nat, page: nat, flags: nat, code: Code)
  {
    && t.leaves.Keys == t0.leaves.Keys
    && if code == Success then
         && Inserted(vs0, vs, k, page, flags) && vs[k].frame == 0 && Grown(t0, t, page, 1)
         && Filled(t0, t, page, 0, 1, Perm(flags)) && Good(t, p) && p == p0
       else vs == vs0 && t == t0 && p == Free(p0, Extent(0, PAGE_SIZE))
  }

  lemma ZeroFreed(vs: seq<Vma>, t: Table, p: Pool, k: nat, page: nat, flags: nat, code: Code)
    requires code != Success
    ensures ZeroTurn(vs, t, p, vs, t, Free(p, Extent(0, PAGE_SIZE)), k, page, flags, code)
  {
  }

  lemma ZeroMapped(vs: seq<Vma>, t: Table, p: Pool, t': Table, p': Pool, k: nat, page: nat, flags: nat)
    requires k <= |vs| && Good(t', p') && p.freeSpace == 0 && Valid(p)
    requires MapSpec(t, p, t', p', page, 0 / PAGE_SIZE, 1, Perm(flags), Success)
    ensures ZeroTurn(vs, t, p, InsertAt(vs, k, Vma(page, flags, 0, 1)), t', p', k, page, flags, Success)
  {
    hide InsertAt, Good, Filled, Grown, Unmapped, Sound, Perm;
    InsertAtShape(vs, k, Vma(page, flags, 0, 1));
    SubsetRest(t.leaves.Keys, t'.leaves.Keys);
    NothingTaken(p, p', t'.leaves.Keys - t.leaves.Keys);
  }

  lemma NothingTaken(p: Pool, p': Pool, fs: set<nat>)
    requires Took(p, p', fs) && p.freeSpace == 0 && Valid(p)
    ensures fs == {} && p' == p
  {
    hide FreeBytes, PageBytes, Valid;
    assert |fs| == 0;
    TookNone(p, p');
  }

  lemma LowFrame(p0: Pool, frame: nat, t: Table, p: Pool, vs: seq<Vma>, p1: Pool, f: nat)
    requires Low(p0) && MmGood(p0, frame, t, p, vs) && Took(p, p1, {f})
    ensures f + PAGE_SIZE <= PAGES * PAGE_SIZE
  {
    hide FreeBytes, Shape;
    PageBytesOne(f);
    assert f + PAGE_SIZE - 1 in Span(f, PAGE_SIZE);
    assert f + PAGE_SIZE - 1 in FreeBytes(p0);
  }

  lemma MapOutcomeUnmapped(t: Table, p: Pool, v: nat, n: nat, stale: int)
    requires MapOutcome(t, p, v, n, stale, Success)
    ensures Unmapped(t, v, n)
  {
  }

  /** What mapping one page takes from the pool. */
  lemma MapTook(t: Table, p: Pool, t': Table, p': Pool, v: nat, f: nat, perm: nat)
    requires v < PAGES && MapSpec(t, p, t', p', v, f, 1, perm, Success)
    ensures Grown(t, t', v, 1)
    ensures p.freeSpace + PAGE_SIZE == p'.freeSpace + TurnCost(t, v)
  {
    hide MapSpec, Grown, Slot, Missing;
    MapCount(t, p, t', p', v, f, 1, perm);
    MissingNext(t, v, 0);
    NoneMissing(t, v);
  }

  lemma AreaAdded(home: Pool, frame: nat, t: Table, p: Pool, vs: seq<Vma>, k: nat, x: Vma, p1: Pool,
                  t': Table, p': Pool, stale: int)
    requires MmGood(home, frame, t, p, vs) && GapAt(vs, k, x.page) && x.page + 1 < PAGES && x.refs == 1
    requires Took(p, p1, {x.frame}) && p.freeSpace == p1.freeSpace + PAGE_SIZE
    requires Good(t', p') && MapOutcome(t, p1, x.page, 1, stale, Success)
    requires MapSpec(t, p1, t', p', x.page, x.frame / PAGE_SIZE, 1, Perm(x.flags), Success)
    ensures MmGood(home, frame, t', p', InsertAt(vs, k, x))
    ensures Grown(t, t', x.page, 1) && p.freeSpace == p'.freeSpace + TurnCost(t, x.page)
  {
    hide MmGood, Took, Good, MapOutcome, MapSpec, Perm, InsertAt, Grown, TurnCost, Unmapped;
    MapOutcomeUnmapped(t, p1, x.page, 1, stale);
    NotAtFreePage(home, frame, t, p, vs, x.page);
    InsertGood(home, frame, t, p, vs, k, x, p1, t', p');
    MapTook(t, p1, t', p', x.page, x.frame / PAGE_SIZE, Perm(x.flags));
  }

  lemma MapFailed(t: Table, p: Pool, t': Table, p': Pool, v: nat, f: nat, n: nat, perm: nat, code: Code)
    requires MapSpec(t, p, t', p', v, f, n, perm, code) && code != Success
    ensures t' == t && p' == p
  {
  }

  lemma WithZeroesFrames(vs1: seq<Vma>, vs: seq<Vma>, k: nat, j: nat)
    requires WithZeroes(vs1, vs, k, j)
    ensures OwnFrames(vs1) <= OwnFrames(vs)
  {
    forall f | f in OwnFrames(vs1) ensures f in OwnFrames(vs) {
      var i :| 0 <= i < |vs1| && vs1[i].frame == f;
      assert vs[if i < k then i else i + j].frame == f;
    }
  }

  lemma WithZeroesTaken(vs1: seq<Vma>, vs: seq<Vma>, k: nat, j: nat)
    requires WithZeroes(vs1, vs, k, j) && j > 0 && DistinctFrames(vs)
    ensures 0 in OwnFrames(vs) && 0 !in OwnFrames(vs1)
  {
    assert vs[k].frame == 0;
    forall i | 0 <= i < |vs1| ensures vs1[i].frame != 0 {
      assert vs[if i < k then i else i + j] == vs1[i];
    }
  }

  lemma TookBound(p0: Pool, p: Pool, a: set<nat>, q: Pool, b: set<nat>)
    requires Took(p0, p, a) && Took(p0, q, b) && a <= b && p.freeSpace == 0
    ensures a == b && q.freeSpace == 0
  {
    hide FreeBytes, PageBytes, Valid, Bases;
    CardSubset(a, b);
    if a != b {
      var x :| x in b && x !in a;
      CardSubset(a + {x}, b);
    }
  }

  /** An area on page 0, or page 0 in the pool, is more than the space had. */
  lemma UnbackedBreaks(p0: Pool, frame: nat, t1: Table, p1: Pool, vs1: seq<Vma>, t: Table, p: Pool, vs: seq<Vma>, k: nat, j: nat)
    requires MmGood(p0, frame, t1, p1, vs1) && p1.freeSpace == 0
    requires t.leaves.Keys == t1.leaves.Keys && WithZeroes(vs1, vs, k, j) && (j > 0 || p.freeSpace > 0)
    ensures !MmGood(p0, frame, t, p, vs)
  {
    if MmGood(p0, frame, t, p, vs) {
      hide Took, Sound, Compact, Sorted, Agrees, OwnFrames, WithZeroes;
      WithZeroesFrames(vs1, vs, k, j);
      TookBound(p0, p1, Held(frame, t1, vs1), p, Held(frame, t, vs));
      WithZeroesTaken(vs1, vs, k, j);
    }
  }

  // ------------------------------------------------------------------
  // Destroying a range.

  ghost predicate Covered(vs: seq<Vma>, a: nat, n: nat) {
    forall w: nat :: a <= w < a + n ==> HasPage(vs, w)
  }

  /** Areas `j`, `j + 1`, ... are at pages `a`, `a + 1`, ... */
  ghost predicate Consecutive(vs: seq<Vma>, j: nat, a: nat, n: nat) {
    && j + n <= |vs|
    && (forall i :: j <= i < j + n ==> vs[i].page == a + (i - j))
  }

  lemma ConsecutiveCovers(vs: seq<Vma>, j: nat, a: nat, n: nat)
    requires Consecutive(vs, j, a, n)
    ensures Covered(vs, a, n)
  {
    forall w: nat | a <= w < a + n ensures HasPage(vs, w) {
      assert vs[j + (w - a)].page == w;
    }
  }

  /** In a sorted list the next page, if present, is at the next position. */
  lemma NextArea(vs: seq<Vma>, j: nat, w: nat)
    requires Sorted(vs) && j < |vs| && vs[j].page == w
    ensures HasPage(vs, w + 1) <==> j + 1 < |vs| && vs[j + 1].page == w + 1
  {
    if HasPage(vs, w + 1) {
      var m :| 0 <= m < |vs| && vs[m].page == w + 1;
      assert j < m;
    }
  }

  /** Exactly the areas of the range are gone. */
  ghost predicate Remaining(vs0: seq<Vma>, vs: seq<Vma>, a: nat, n: nat) {
    forall x :: x in vs <==> x in vs0 && !(a <= x.page < a + n)
  }

  lemma CutOutRemaining(vs: seq<Vma>, j: nat, a: nat, n: nat)
    requires Sorted(vs) && Consecutive(vs, j, a, n)
    ensures Remaining(vs, CutOut(vs, j, n), a, n)
  {
    var r := CutOut(vs, j, n);
    assert forall i :: 0 <= i < |r| ==> r[i] == vs[if i < j then i else i + n];
    forall i | 0 <= i < |vs| && !(j <= i < j + n) ensures vs[i] in r {
      assert r[if i < j then i else i - n] == vs[i];
    }
    forall i | 0 <= i < |vs|
      ensures (a <= vs[i].page < a + n) <==> j <= i < j + n
    {
      if i < j && n > 0 { assert vs[i].page < vs[j].page; }
      if i >= j + n && n > 0 { assert vs[j + n - 1].page < vs[i].page; }
    }
  }

  /** The range is mapped but for its last page, the list ends there, and the
      head, read as an area, seems to start at that page. */
  ghost predicate EndsAtHead(vs: seq<Vma>, a: nat, n: nat, sentry: Sentry) {
    && n >= 2 && vs != [] && HasPage(vs, a) && Covered(vs, a, n - 1)
    && vs[|vs| - 1].page == a + n - 2
    && sentry.start == (a + n - 1) * PAGE_SIZE
  }

  datatype Search = Run(j: nat) | Miss | AtHead

  /** `RanOver`: the code goes on to remove the list head as if it were an area. */
  datatype DestroyResult = Destroyed | BadRange | NotMapped | RanOver

  // ------------------------------------------------------------------
  // The areas determine everything else.

  lemma SameAt(vs: seq<Vma>, t: Table, u: Table, w: nat)
    requires Agrees(vs, t) && Agrees(vs, u) && w < PAGES
    ensures At(t, w) == At(u, w)
  {
    hide At, Perm;
    if HasPage(vs, w) {
      var i :| 0 <= i < |vs| && vs[i].page == w;
      assert At(t, vs[i].page) == At(u, vs[i].page);
    }
  }

  lemma UsedSlot(t: Table, s: nat)
    requires Sound(t) && Compact(t) && s < ENTRIES
    ensures Slot(t, s) != 0 <==> SlotUsed(t, s)
  {
    hide Frames;
    LeafPresent(t, s);
    SlotUsedLeaf(t, s);
  }

  lemma SameLeaf(t: Table, u: Table, s: nat)
    requires Sound(t) && Sound(u) && s < ENTRIES && Slot(t, s) == Slot(u, s)
    requires forall w: nat :: w < PAGES ==> At(t, w) == At(u, w)
    ensures Leaf(t, s) == Leaf(u, s)
  {
    hide Frames;
    LeafPresent(t, s);
    LeafPresent(u, s);
    if Slot(t, s) != 0 {
      forall k | 0 <= k < ENTRIES ensures Leaf(t, s)[k] == Leaf(u, s)[k] {
        var w := s * ENTRIES + k;
        assert w / ENTRIES == s && w % ENTRIES == k;
        assert At(t, w) == At(u, w);
      }
    }
  }

  lemma SameFrames(t: Table, u: Table)
    requires Sound(t) && Sound(u)
    requires forall s: nat :: s < ENTRIES ==> Slot(t, s) == Slot(u, s) && Leaf(t, s) == Leaf(u, s)
    ensures t == u
  {
    forall f | f in t.leaves && f in u.leaves ensures t.leaves[f] == u.leaves[f] {
      assert f in Frames(t.dir);
      var s: nat :| s < |t.dir| && t.dir[s] >= KSEG0 && t.dir[s] - KSEG0 == f;
      LeafPresent(t, s);
      LeafPresent(u, s);
    }
    SameTables(t, u);
  }

  /** Growing and then shrinking back to the same areas gives the same tables. */
  lemma TablesRestored(vs: seq<Vma>, t0: Table, t1: Table, t2: Table, a: nat, n: nat)
    requires Sound(t0) && Compact(t0) && Sound(t2) && Compact(t2)
    requires Agrees(vs, t0) && Agrees(vs, t2) && Grown(t0, t1, a, n) && Shrunk(t1, t2)
    ensures t2 == t0
  {
    hide Sound, Compact, Agrees, At, Leaf, Slot, SlotUsed;
    forall w: nat | w < PAGES ensures At(t0, w) == At(t2, w) {
      SameAt(vs, t0, t2, w);
    }
    forall s: nat | s < ENTRIES ensures Slot(t0, s) == Slot(t2, s) && Leaf(t0, s) == Leaf(t2, s) {
      UsedSlot(t0, s);
      UsedSlot(t2, s);
      SameUse(t0, t2, s);
      SameLeaf(t0, t2, s);
    }
    SameFrames(t0, t2);
  }

  /** Two pools that lack the same pages of `p0` are equal. */
  lemma SameTook(p0: Pool, p: Pool, q: Pool, fs: set<nat>)
    requires Took(p0, p, fs) && Took(p0, q, fs)
    ensures p == q
  {
    hide FreeBytes;
    SamePoolFromBytes(p, q);
  }

  /** The state of an address space, tables and free list included, is restored
      once its areas are. */
  lemma StateRestored(p0: Pool, frame: nat, vs: seq<Vma>, t0: Table, q0: Pool, t1: Table, t2: Table, q2: Pool,
                      a: nat, n: nat)
    requires MmGood(p0, frame, t0, q0, vs) && MmGood(p0, frame, t2, q2, vs)
    requires Grown(t0, t1, a, n) && Shrunk(t1, t2)
    ensures t2 == t0 && q2 == q0
  {
    hide Sound, Compact, Agrees, Owns, Took, Sorted, Grown, Shrunk, Held;
    TablesRestored(vs, t0, t1, t2, a, n);
    SameTook(p0, q0, q2, Held(frame, t0, vs));
  }

  lemma {:induction false} SortedUnique(a: seq<Vma>, b: seq<Vma>)
    requires Sorted(a) && Sorted(b) && forall x :: x in a <==> x in b
    ensures a == b
  {
    assert b != [] ==> b[0] in b;
    assert a != [] ==> a[0] in a;
    if a != [] {
      assert a[0] == b[0];
      forall x ensures x in a[1..] <==> x in b[1..] {
        SortedTail(a, x);
        SortedTail(b, x);
      }
      SortedUnique(a[1..], b[1..]);
      assert a == [a[0]] + a[1..];
      assert b == [b[0]] + b[1..];
    }
  }

  lemma SortedTail(a: seq<Vma>, x: Vma)
    requires a != [] && Sorted(a)
    ensures x in a[1..] <==> x in a && x != a[0]
  {
    assert a == [a[0]] + a[1..];
    if x in a[1..] {
      var i :| 0 <= i < |a[1..]| && a[1..][i] == x;
      assert a[i + 1] == x;
    }
  }

  // ------------------------------------------------------------------
  // Destroying what was created, piece by piece.

  datatype Piece = Piece(page: nat, n: nat)

  ghost predicate InPieces(ps: seq<Piece>, w: nat) {
    exists i :: 0 <= i < |ps| && ps[i].page <= w < ps[i].page + ps[i].n
  }

  /** `ps` splits the `n` pages from `a` into nonempty disjoint ranges, in any
      order. */
  ghost predicate Partition(ps: seq<Piece>, a: nat, n: nat) {
    && (forall i :: 0 <= i < |ps| ==> a <= ps[i].page && 0 < ps[i].n && ps[i].page + ps[i].n <= a + n)
    && (forall i, j :: 0 <= i < j < |ps| ==>
          ps[i].page + ps[i].n <= ps[j].page || ps[j].page + ps[j].n <= ps[i].page)
    && (forall w: nat :: a <= w < a + n ==> InPieces(ps, w))
  }

  /** `vs` is what is left of `vs1` after destroying the pieces `ps`. */
  ghost predicate LeftOver(vs1: seq<Vma>, vs: seq<Vma>, ps: seq<Piece>) {
    forall x :: x in vs <==> x in vs1 && !InPieces(ps, x.page)
  }

  lemma InPiecesNext(ps: seq<Piece>, i: nat, w: nat)
    requires i < |ps|
    ensures InPieces(ps[..i + 1], w) <==> InPieces(ps[..i], w) || ps[i].page <= w < ps[i].page + ps[i].n
  {
    if InPieces(ps[..i], w) {
      var k :| 0 <= k < i && ps[..i][k].page <= w < ps[..i][k].page + ps[..i][k].n;
      assert ps[..i + 1][k] == ps[k];
    }
    if ps[i].page <= w < ps[i].page + ps[i].n {
      assert ps[..i + 1][i] == ps[i];
    }
  }

  lemma LeftOverNext(vs1: seq<Vma>, vs: seq<Vma>, vs': seq<Vma>, ps: seq<Piece>, i: nat)
    requires i < |ps| && LeftOver(vs1, vs, ps[..i]) && Remaining(vs, vs', ps[i].page, ps[i].n)
    ensures LeftOver(vs1, vs', ps[..i + 1])
  {
    hide InPieces;
    forall x ensures x in vs' <==> x in vs1 && !InPieces(ps[..i + 1], x.page) {
      InPiecesNext(ps, i, x.page);
    }
  }

  /** A piece not yet destroyed is still there. */
  lemma PieceCovered(vs0: seq<Vma>, vs1: seq<Vma>, vs: seq<Vma>, k: nat, ps: seq<Piece>, i: nat, a: nat, n: nat, flags: nat)
    requires CreatedList(vs0, vs1, k, a, n, flags) && Partition(ps, a, n)
    requires i < |ps| && LeftOver(vs1, vs, ps[..i])
    ensures Covered(vs, ps[i].page, ps[i].n) && HasPage(vs, ps[i].page)
  {
    forall w: nat | ps[i].page <= w < ps[i].page + ps[i].n ensures HasPage(vs, w) {
      var x := vs1[k + (w - a)];
      assert x.page == w && x in vs1;
      assert !InPieces(ps[..i], w);
      assert x in vs;
      var j :| 0 <= j < |vs| && vs[j] == x;
      assert vs[j].page == w;
    }
  }

  lemma AllDestroyed(vs0: seq<Vma>, vs1: seq<Vma>, vs: seq<Vma>, k: nat, ps: seq<Piece>, a: nat, n: nat, flags: nat)
    requires Sorted(vs0) && Sorted(vs1) && Sorted(vs)
    requires CreatedList(vs0, vs1, k, a, n, flags) && Partition(ps, a, n) && LeftOver(vs1, vs, ps)
    ensures vs == vs0
  {
    forall x ensures x in vs <==> x in vs0 {
      CreatedMembers(vs0, vs1, k, a, n, flags, x);
      PartitionExact(ps, a, n, x.page);
    }
    hide CreatedList, Partition, LeftOver, Sorted;
    SortedUnique(vs, vs0);
  }

  lemma PartitionExact(ps: seq<Piece>, a: nat, n: nat, w: nat)
    requires Partition(ps, a, n)
    ensures InPieces(ps, w) <==> a <= w < a + n
  {
  }

  lemma CreatedMembers(vs0: seq<Vma>, vs1: seq<Vma>, k: nat, a: nat, n: nat, flags: nat, x: Vma)
    requires Sorted(vs1) && CreatedList(vs0, vs1, k, a, n, flags)
    ensures x in vs0 <==> x in vs1 && !(a <= x.page < a + n)
  {
    if x in vs0 {
      var i :| 0 <= i < |vs0| && vs0[i] == x;
      var m := if i < k then i else i + n;
      assert vs1[m] == x;
      if n > 0 {
        assert vs1[k].page == a && vs1[k + n - 1].page == a + n - 1;
        assert i < k ==> x.page < a;
        assert i >= k ==> a + n - 1 < x.page;
      }
    }
    if x in vs1 && !(a <= x.page < a + n) {
      var m :| 0 <= m < |vs1| && vs1[m] == x;
      assert !(k <= m < k + n);
      assert x == vs0[if m < k then m else m - n];
    }
  }

  class AddressSpace {
    const index: PageIndex
    const allocator: FirstFitAllocator
    var vmas: seq<Vma>

    ghost function Holdings(): set<nat>
      reads this, index
    {
      Held(index.frame, index.Tables(), vmas)
    }

    /** `home` is the pool with all pages of the space given back to it. */
    ghost predicate Ok(home: Pool)
      reads this, index, allocator
    {
      && index.allocator == allocator && Valid(home) && Low(home)
      && MmGood(home, index.frame, index.Tables(), allocator.State(), vmas)
    }

    constructor (index: PageIndex)
      ensures this.index == index && this.allocator == index.allocator && vmas == []
    {
      this.index, this.allocator := index, index.allocator;
      vmas := [];
    }

    /** `list_del`, unmap, drop the reference and free the frame. */
    method RemoveOne(k: nat, ghost home: Pool)
      requires Ok(home) && k < |vmas|
      modifies this, index, allocator
      ensures Ok(home) && vmas == RemoveAt(old(vmas), k)
      ensures Shrunk(old(index.Tables()), index.Tables())
    {
      hide MmGood, Good, UnmapPanics, UnmapCount, FirstFrame, RemoveAt, UnmapSpec, Shrunk, Low;
      ghost var t, p, vs := index.Tables(), allocator.State(), vmas;
      MmGoodTables(home, index.frame, t, p, vs);
      UnmapOneArea(home, index.frame, t, p, vs, k);
      assert vs[k].refs == 1 by { AreaRefs(home, index.frame, t, p, vs, k); }
      var vma := vmas[k];
      vmas := RemoveAt(vmas, k);
      var r := index.UnmapPages(vma.page * PAGE_SIZE, PAGE_SIZE);
      assert r.Done? && r.bytes == PAGE_SIZE && r.paddr == vma.frame;
      RemoveGood(home, index.frame, t, p, vs, k, index.Tables(), allocator.State());
      UnmapShrinks(t, p, index.Tables(), allocator.State(), vma.page);
      var refs := vma.refs - 1;
      if refs == 0 {
        allocator.FreePages(Extent(vma.frame, PAGE_SIZE));
      }
    }

    /** Removes `m` areas from position `k` on. */
    method UnmapAndFree(k: nat, m: nat, ghost home: Pool)
      requires Ok(home) && k + m <= |vmas|
      modifies this, index, allocator
      ensures Ok(home) && vmas == CutOut(old(vmas), k, m)
      ensures Shrunk(old(index.Tables()), index.Tables())
    {
      hide MmGood, RemoveAt, CutOut, Slot, Low;
      ghost var vs := vmas;
      CutOutNone(vs, k);
      var i := 0;
      while i < m
        invariant i <= m && Ok(home)
        invariant vmas == CutOut(vs, k, i)
        invariant Shrunk(old(index.Tables()), index.Tables())
      {
        CutOutNext(vs, k, i);
        RemoveOne(k, home);
        i := i + 1;
      }
    }

    /** The page for a new area, or address 0 if none is free: the request is then
        refused with return code 0. */
    method OwnPage(ghost home: Pool) returns (paddr: nat, taken: bool)
      requires index.allocator == allocator && Good(index.Tables(), allocator.State())
      requires allocator.freeSpace > 0 ==> Ok(home)
      modifies allocator
      ensures taken <==> old(allocator.freeSpace) > 0
      ensures taken ==>
        && Took(old(allocator.State()), allocator.State(), {paddr}) && Good(index.Tables(), allocator.State())
        && paddr + PAGE_SIZE <= PAGES * PAGE_SIZE && paddr % PAGE_SIZE == 0
        && old(allocator.freeSpace) == allocator.freeSpace + PAGE_SIZE
        && Free(allocator.State(), Extent(paddr, PAGE_SIZE)) == old(allocator.State())
      ensures !taken ==> paddr == 0 && allocator.State() == old(allocator.State())
    {
      hide MmGood, Good, Alloc, Free, Took, Valid, Low;
      ghost var t, p := index.Tables(), allocator.State();
      GoodPool(t, p);
      var o := allocator.AllocPages(PAGE_SIZE);
      if ReturnCode(o) < 0 {
        // Not reached: this is where -ENOMEM would be returned.
        OnePageNeverExhausted(p);
        assert false;
      }
      OnePageNeverExhausted(p);
      taken := o.Taken?;
      paddr := if taken then o.paddr else 0;
      if taken {
        TakeFrame(p, allocator.State(), paddr);
        GoodWithLess(t, p, allocator.State(), {paddr});
        LowFrame(home, index.frame, t, p, vmas, allocator.State(), paddr);
      }
    }

    /** One turn of the loop of `CreateUvm`. The descriptor's address is 0 unless
        a page is taken, and only a negative return code stops the turn. */
    method AddArea(k: nat, page: nat, flags: nat, stale: int, ghost home: Pool) returns (r: AreaResult)
      requires index.allocator == allocator && Good(index.Tables(), allocator.State()) && stale >= -1
      requires page + 1 < PAGES && GapAt(vmas, k, page)
      requires allocator.freeSpace > 0 ==> Ok(home)
      modifies this, index, allocator
      ensures AreaOutcome(old(index.Tables()), old(allocator.State()), page, stale, r)
      ensures r.Mapped? ==>
        && Ok(home) && Inserted(old(vmas), vmas, k, page, flags)
        && Grown(old(index.Tables()), index.Tables(), page, 1)
        && old(allocator.freeSpace) == allocator.freeSpace + TurnCost(old(index.Tables()), page)
      ensures r.Refusal? ==>
        vmas == old(vmas) && index.Tables() == old(index.Tables()) && allocator.State() == old(allocator.State())
      ensures r.OnZero? ==>
        ZeroTurn(old(vmas), old(index.Tables()), old(allocator.State()),
                 vmas, index.Tables(), allocator.State(), k, page, flags, r.code)
    {
      hide MmGood, Good, Free, Took, AreaOutcome, ZeroTurn, Valid, Low, Inserted, GapAt, Grown;
      ghost var p := allocator.State();
      GoodPool(index.Tables(), p);
      var paddr, taken := OwnPage(home);
      r := MapOwn(paddr, taken, k, page, flags, stale, p, home);
    }

    /** The turn from `map_pages` on, with the page at `paddr` taken from pool `p`
        or, if it was not, with address 0. */
    method MapOwn(paddr: nat, taken: bool, k: nat, page: nat, flags: nat, stale: int, ghost p: Pool, ghost home: Pool)
      returns (r: AreaResult)
      requires index.allocator == allocator && Good(index.Tables(), allocator.State()) && stale >= -1
      requires page + 1 < PAGES && GapAt(vmas, k, page)
      requires paddr + PAGE_SIZE <= PAGES * PAGE_SIZE && paddr % PAGE_SIZE == 0 && Valid(p)
      requires taken ==>
        && Valid(home) && Low(home)
        && MmGood(home, index.frame, index.Tables(), p, vmas) && Took(p, allocator.State(), {paddr})
        && p.freeSpace == allocator.freeSpace + PAGE_SIZE && Free(allocator.State(), Extent(paddr, PAGE_SIZE)) == p
      requires !taken ==> paddr == 0 && allocator.State() == p && p.freeSpace == 0
      modifies this, index, allocator
      ensures AreaOutcome(old(index.Tables()), p, page, stale, r)
      ensures r.Mapped? ==>
        && Ok(home) && Inserted(old(vmas), vmas, k, page, flags)
        && Grown(old(index.Tables()), index.Tables(), page, 1)
        && p.freeSpace == allocator.freeSpace + TurnCost(old(index.Tables()), page)
      ensures r.Refusal? ==>
        vmas == old(vmas) && index.Tables() == old(index.Tables()) && allocator.State() == p
      ensures r.OnZero? ==>
        ZeroTurn(old(vmas), old(index.Tables()), p, vmas, index.Tables(), allocator.State(), k, page, flags, r.code)
    {
      hide MmGood, Good, InsertAt, Alloc, Free, Took, Perm, Unmapped, Missing, Slot, Filled, Affordable, Conserved, Grown;
      hide AreaOutcome, MapOutcome, ZeroTurn, Valid, Low, MapSpec;
      ghost var t, p1, vs := index.Tables(), allocator.State(), vmas;
      var code := index.MapPages(page * PAGE_SIZE, paddr, PAGE_SIZE, flags, stale);
      if taken {
        AreaTaken(t, p, p1, page, stale, code);
      } else {
        AreaUnbacked(t, p, page, stale, code);
      }
      if code == Wild {
        return Stray;
      }
      if code != Success {
        MapFailed(t, p1, index.Tables(), allocator.State(), page, paddr / PAGE_SIZE, 1, Perm(flags), code);
        allocator.FreePages(Extent(paddr, PAGE_SIZE));
        if taken {
          return Refusal(code);
        }
        ZeroFreed(vs, t, p, k, page, flags, code);
        return OnZero(code);
      }
      var x := Vma(page, flags, paddr, 1);
      vmas := InsertAt(vmas, k, x);
      InsertAtShape(vs, k, x);
      if taken {
        AreaAdded(home, index.frame, t, p, vs, k, x, p1, index.Tables(), allocator.State(), stale);
        return Mapped;
      }
      ZeroMapped(vs, t, p, index.Tables(), allocator.State(), k, page, flags);
      r := OnZero(Success);
    }

    /** Where new areas for `n` pages from `a` go, or None for an overlap. */
    method FindVmaBefore(a: nat, n: nat, sentry: Sentry) returns (r: Option<nat>)
      ensures r == if LooksOverlapping(vmas, a, n, sentry) then None else Some(Place(vmas, a + n))
    {
      if |vmas| == 0 {
        return Some(0);
      }
      var k := 0;
      while k < |vmas|
        invariant 0 <= k <= |vmas|
        invariant Place(vmas, a + n) == k + Place(vmas[k..], a + n)
      {
        if vmas[k].page >= a + n {
          break;
        }
        assert vmas[k..][1..] == vmas[k + 1..];
        k := k + 1;
      }
      assert Place(vmas, a + n) == k;
      var start := if k > 0 then vmas[k - 1].page * PAGE_SIZE else sentry.start;
      var size := if k < |vmas| then PAGE_SIZE else sentry.size;
      if a * PAGE_SIZE < start + size {
        return None;
      }
      r := Some(k);
    }

    method CreateUvm(addr: nat, len: nat, flags: nat, sentry: Sentry, descriptors: nat, stale: int, ghost home: Pool)
      returns (r: CreateResult)
      requires Ok(home) && addr + len < PAGES * PAGE_SIZE && stale >= -1
      modifies this, index, allocator
      ensures r.BadArgument? <==> !(len % PAGE_SIZE == 0 && addr % PAGE_SIZE == 0)
      ensures r.Overlaps? <==>
        !r.BadArgument? && LooksOverlapping(old(vmas), addr / PAGE_SIZE, len / PAGE_SIZE, sentry)
      ensures r.BadArgument? || r.Overlaps? ||
        r == CreateEnd(Place(old(vmas), addr / PAGE_SIZE + len / PAGE_SIZE), old(index.Tables()), old(allocator.State()),
                       addr / PAGE_SIZE, len / PAGE_SIZE, descriptors, stale)
      ensures !r.HeadLost? && !r.Clobbered? ==> (Ok(home) <==> !r.Unbacked?)
      ensures CreateSpec(old(vmas), old(index.Tables()), old(allocator.State()),
                         vmas, index.Tables(), allocator.State(), addr / PAGE_SIZE, len / PAGE_SIZE, flags, r)
    {
      hide CreateSpec, LooksOverlapping, MmGood, Place, CreateEnd, Low;
      if !(len % PAGE_SIZE == 0 && addr % PAGE_SIZE == 0) {
        CreateNothing(vmas, index.Tables(), allocator.State(), addr / PAGE_SIZE, len / PAGE_SIZE, flags);
        return BadArgument;
      }
      var a, n := addr / PAGE_SIZE, len / PAGE_SIZE;
      var place := FindVmaBefore(a, n, sentry);
      if place.None? {
        CreateNothing(vmas, index.Tables(), allocator.State(), a, n, flags);
        return Overlaps;
      }
      ghost var t, p := index.Tables(), allocator.State();
      r := CreateAt(place.value, a, n, flags, sentry, descriptors, stale, home);
      NotRejected(place.value, t, p, a, n, descriptors, stale);
    }

    /** The rollback of line 207, after `i` pages were mapped. */
    method RollBack(ghost vs0: seq<Vma>, ghost t0: Table, ghost p0: Pool,
                    k: nat, a: nat, i: nat, ghost n: nat, ghost flags: nat, code: Code, ghost home: Pool)
      returns (r: CreateResult)
      requires Ok(home) && i < n && k == Place(vs0, a + n) && CreatedList(vs0, vmas, k, a, i, flags)
      requires i == 0 ==> vmas == vs0 && index.Tables() == t0 && allocator.State() == p0
      modifies this, index, allocator
      ensures r == RolledBack(k, code, i)
      ensures r.Failed? ==> Ok(home)
      ensures CreateSpec(vs0, t0, p0, vmas, index.Tables(), allocator.State(), a, n, flags, r)
    {
      hide MmGood, CutOut, MisrolledList, CreatedList, Place, Low;
      if i > 0 && k == 0 {
        return HeadLost(i);
      }
      if i > 0 {
        MmGoodSorted(home, index.frame, index.Tables(), allocator.State(), vmas);
        Misrolled(vs0, vmas, k, a, i, flags);
        UnmapAndFree(k - 1, i, home);
      }
      r := Failed(code, i);
    }

    /** The loop of `CreateUvm`. */
    method CreateAt(k: nat, a: nat, n: nat, flags: nat, ghost sentry: Sentry, descriptors: nat, stale: int, ghost home: Pool)
      returns (r: CreateResult)
      requires Ok(home) && a + n < PAGES && stale >= -1
      requires k == Place(vmas, a + n) && !LooksOverlapping(vmas, a, n, sentry)
      modifies this, index, allocator
      ensures r == CreateEnd(k, old(index.Tables()), old(allocator.State()), a, n, descriptors, stale)
      ensures !r.HeadLost? && !r.Clobbered? ==> (Ok(home) <==> !r.Unbacked?)
      ensures CreateSpec(old(vmas), old(index.Tables()), old(allocator.State()),
                         vmas, index.Tables(), allocator.State(), a, n, flags, r)
    {
      hide MmGood, LooksOverlapping, CreatedList, Place, Grown, CreateSpec, GapAt, Inserted, Valid, Low, Unmapped, Good;
      hide CreateEnd, BrokeEnd, AreaOutcome, ZeroTurn, Spent, TurnCost, At, Missing;
      ghost var t0, p0, vs0 := index.Tables(), allocator.State(), vmas;
      MmGoodTables(home, index.frame, t0, p0, vs0);
      CreateStart(home, index.frame, t0, p0, vs0, k, a, n, flags);
      var i := 0;
      while i < n
        invariant i <= n && Ok(home)
        invariant CreatedList(vs0, vmas, k, a, i, flags)
        invariant Grown(t0, index.Tables(), a, i) && Spent(t0, p0, allocator.State(), a, i)
        invariant if i == 0 then vmas == vs0 && index.Tables() == t0 && allocator.State() == p0 else At(t0, a) == 0
        invariant i <= descriptors
      {
        ghost var vs, t, p := vmas, index.Tables(), allocator.State();
        if i == descriptors {
          r := RollBack(vs0, t0, p0, k, a, i, n, flags, ENOMEM, home);
          NoDescriptor(k, t0, p0, p, a, n, descriptors, stale);
          return;
        }
        AddAreaReady(vs0, vs, k, a, i, n, flags, sentry);
        MmGoodTables(home, index.frame, t, p, vs);
        CreateAhead(home, index.frame, vs0, t0, p0, vs, t, p, k, a, i, n, flags, sentry);
        var x := AddArea(k + i, a + i, flags, stale, home);
        if x.Mapped? {
          CreatedListNext(vs0, vs, vmas, k, a, i, flags);
          GrownNext(t0, t, index.Tables(), a, i);
          SpentNext(t0, p0, t, p, allocator.State(), a, i);
          MappedMeans(t, p, a + i, stale);
          i := i + 1;
        } else {
          if x.OnZero? {
            OnZeroMeans(t0, t, p, a, i, stale, x);
          }
          r := Stopped(x, vs0, t0, p0, vs, t, p, k, a, i, n, flags, sentry, descriptors, stale, home);
          StopOutcome(k, t0, p0, t, p, a, i, n, descriptors, stale, x);
          return;
        }
      }
      CreateDone(vs0, t0, p0, vmas, index.Tables(), allocator.State(), a, n, flags);
      DoneOutcome(k, t0, p0, allocator.State(), a, n, descriptors, stale);
      r := CreateResult.Created;
    }

    /** What follows a turn that did not add an area of its own. */
    method Stopped(x: AreaResult, ghost vs0: seq<Vma>, ghost t0: Table, ghost p0: Pool,
                   ghost vs: seq<Vma>, ghost t: Table, ghost p: Pool,
                   k: nat, a: nat, i: nat, n: nat, flags: nat, ghost sentry: Sentry,
                   descriptors: nat, stale: int, ghost home: Pool)
      returns (r: CreateResult)
      requires index.allocator == allocator && Valid(home) && Low(home) && stale >= -1 && !x.Mapped?
      requires MmGood(home, index.frame, t, p, vs) && i < n && i < descriptors && a + n < PAGES
      requires Sorted(vs0) && k == Place(vs0, a + n) && !LooksOverlapping(vs0, a, n, sentry)
      requires CreatedList(vs0, vs, k, a, i, flags) && Grown(t0, t, a, i)
      requires i == 0 ==> vs == vs0 && t == t0 && p == p0
      requires x.Refusal? ==> vmas == vs && index.Tables() == t && allocator.State() == p
      requires x.OnZero? ==>
        && p.freeSpace == 0
        && ZeroTurn(vs, t, p, vmas, index.Tables(), allocator.State(), k + i, a + i, flags, x.code)
        && (x.code == Success ==> Unmapped(t, a + i, n - i) && Missing(t0, a, i + 1) == Missing(t0, a, i))
      modifies this, index, allocator
      ensures r == StopEnd(x, k, t0, a, i, n, descriptors, stale)
      ensures !r.HeadLost? && !r.Clobbered? ==> (Ok(home) <==> !r.Unbacked?)
      ensures CreateSpec(vs0, t0, p0, vmas, index.Tables(), allocator.State(), a, n, flags, r)
    {
      hide MmGood, CreatedList, Place, LooksOverlapping, ZeroTurn, Low, Valid, Grown, Missing, Unmapped, BrokeEnd;
      match x
      case Refusal(code) =>
        r := RollBack(vs0, t0, p0, k, a, i, n, flags, code, home);
      case OnZero(code) =>
        r := GoOn(code, vs0, t0, vs, t, p, k, a, i, n, flags, sentry, descriptors, stale, home);
      case Stray =>
        r := Clobbered(i);
    }

    /** The turns after the first one on page 0. The pool is empty throughout, so
        no page is ever taken; a rollback is not followed any further. */
    method GoOn(code: Code, ghost vs0: seq<Vma>, ghost t0: Table,
                ghost vs1: seq<Vma>, ghost t1: Table, ghost p1: Pool,
                k: nat, a: nat, m: nat, n: nat, flags: nat, ghost sentry: Sentry,
                descriptors: nat, stale: int, ghost home: Pool)
      returns (r: CreateResult)
      requires index.allocator == allocator && stale >= -1 && m < n && m < descriptors && a + n < PAGES
      requires MmGood(home, index.frame, t1, p1, vs1) && p1.freeSpace == 0
      requires Sorted(vs0) && k == Place(vs0, a + n) && !LooksOverlapping(vs0, a, n, sentry)
      requires CreatedList(vs0, vs1, k, a, m, flags) && Grown(t0, t1, a, m)
      requires ZeroTurn(vs1, t1, p1, vmas, index.Tables(), allocator.State(), k + m, a + m, flags, code)
      requires code == Success ==> Unmapped(t1, a + m, n - m) && Missing(t0, a, m + 1) == Missing(t0, a, m)
      modifies this, index, allocator
      ensures r == if code == Success then BrokeEnd(t0, a, m, n, descriptors, stale) else Unbacked(m, code)
      ensures (r.Unbacked? && r.mapped == m) || (r.Clobbered? && r.mapped < n)
      ensures r.Unbacked? ==> !MmGood(home, index.frame, index.Tables(), allocator.State(), vmas)
      ensures r.Unbacked? && r.code == Success ==>
        CreatedList(vs0, vmas, k, a, n, flags) && ZeroFrames(vmas, k + m, k + n) && allocator.freeSpace == 0
    {
      hide MmGood, CreatedList, Place, LooksOverlapping, WithZeroes, Good, GapAt, Inserted, Filled, Free, AreaOutcome;
      hide ZeroTurn, Grown, Missing, Unmapped, BrokeEnd;
      ZeroTurnParts(vs1, t1, p1, vmas, index.Tables(), allocator.State(), k + m, a + m, flags, code);
      NoZeroes(vs0, vs1, k, a, m, flags);
      if code != Success {
        UnbackedBreaks(home, index.frame, t1, p1, vs1, index.Tables(), allocator.State(), vmas, k + m, 0);
        return Unbacked(m, code);
      }
      CreatedListNext(vs0, vs1, vmas, k, a, m, flags);
      ZeroesNext(vs1, vs1, vmas, k + m, 0, a + m, flags);
      BrokeNext(t0, t1, index.Tables(), a, m, n, flags, Least(n, descriptors));
      r := Broke(vs0, t0, vs1, t1, p1, k, a, m, n, flags, sentry, descriptors, stale, home);
    }

    /** The loop of `CreateUvm` with no page free since turn `m`. */
    method Broke(ghost vs0: seq<Vma>, ghost t0: Table, ghost vs1: seq<Vma>, ghost t1: Table, ghost p1: Pool,
                 k: nat, a: nat, m: nat, n: nat, flags: nat, ghost sentry: Sentry,
                 descriptors: nat, stale: int, ghost home: Pool)
      returns (r: CreateResult)
      requires index.allocator == allocator && stale >= -1 && m < n && m < descriptors && a + n < PAGES
      requires MmGood(home, index.frame, t1, p1, vs1) && p1.freeSpace == 0
      requires Sorted(vs0) && k == Place(vs0, a + n) && !LooksOverlapping(vs0, a, n, sentry)
      requires allocator.State() == p1 && Good(index.Tables(), p1) && index.Tables().leaves.Keys == t1.leaves.Keys
      requires CreatedList(vs0, vmas, k, a, m + 1, flags) && WithZeroes(vs1, vmas, k + m, 1)
      requires BrokeSoFar(t0, index.Tables(), a, m, m + 1, n, Least(n, descriptors))
      modifies this, index, allocator
      ensures r == BrokeEnd(t0, a, m, n, descriptors, stale)
      ensures (r.Unbacked? && r.mapped == m) || (r.Clobbered? && r.mapped < n)
      ensures r.Unbacked? ==> !MmGood(home, index.frame, index.Tables(), allocator.State(), vmas)
      ensures r.Unbacked? && r.code == Success ==>
        CreatedList(vs0, vmas, k, a, n, flags) && ZeroFrames(vmas, k + m, k + n) && allocator.freeSpace == 0
    {
      hide MmGood, CreatedList, Place, LooksOverlapping, WithZeroes, Good, GapAt, Inserted, Filled, Free, AreaOutcome;
      hide ZeroTurn, Grown, Missing, Unmapped, BrokeSoFar, BrokeEnd;
      var i := m + 1;
      while i < n
        invariant m < i <= n && i <= descriptors && allocator.State() == p1 && Good(index.Tables(), p1)
        invariant index.Tables().leaves.Keys == t1.leaves.Keys
        invariant CreatedList(vs0, vmas, k, a, i, flags) && WithZeroes(vs1, vmas, k + m, i - m)
        invariant BrokeSoFar(t0, index.Tables(), a, m, i, n, Least(n, descriptors))
      {
        if i == descriptors {
          UnbackedBreaks(home, index.frame, t1, p1, vs1, index.Tables(), allocator.State(), vmas, k + m, i - m);
          BrokeStops(t0, index.Tables(), a, m, i, n, descriptors, stale);
          return Unbacked(m, ENOMEM);
        }
        ghost var vs, t := vmas, index.Tables();
        AddAreaReady(vs0, vs, k, a, i, n, flags, sentry);
        var x := AddArea(k + i, a + i, flags, stale, home);
        BrokeOutcome(t0, t, p1, a, m, i, n, descriptors, stale, x);
        if x.Stray? {
          return Clobbered(i);
        }
        ZeroTurnParts(vs, t, p1, vmas, index.Tables(), allocator.State(), k + i, a + i, flags, x.code);
        if x.code != Success {
          UnbackedBreaks(home, index.frame, t1, p1, vs1, index.Tables(), allocator.State(), vmas, k + m, i - m);
          return Unbacked(m, x.code);
        }
        CreatedListNext(vs0, vs, vmas, k, a, i, flags);
        ZeroesNext(vs1, vs, vmas, k + m, i - m, a + i, flags);
        BrokeSoFarNext(t0, t, index.Tables(), a, m, i, n, flags, Least(n, descriptors));
        i := i + 1;
      }
      ZeroesFrames(vs1, vmas, k + m, n - m);
      UnbackedBreaks(home, index.frame, t1, p1, vs1, index.Tables(), allocator.State(), vmas, k + m, n - m);
      BrokeStops(t0, index.Tables(), a, m, n, n, descriptors, stale);
      r := Unbacked(m, Success);
    }

    method DestroyUvm(addr: nat, len: nat, sentry: Sentry, ghost home: Pool) returns (r: DestroyResult)
      requires Ok(home) && addr + len < PAGES * PAGE_SIZE
      modifies this, index, allocator
      ensures !r.RanOver? ==> Ok(home)
      ensures r.BadRange? <==> !(len % PAGE_SIZE == 0 && addr % PAGE_SIZE == 0)
      ensures r.Destroyed? <==>
        && !r.BadRange?
        && HasPage(old(vmas), addr / PAGE_SIZE)
        && Covered(old(vmas), addr / PAGE_SIZE, len / PAGE_SIZE)
      ensures r.RanOver? <==> !r.BadRange? && EndsAtHead(old(vmas), addr / PAGE_SIZE, len / PAGE_SIZE, sentry)
      ensures r.Destroyed? ==>
        && Remaining(old(vmas), vmas, addr / PAGE_SIZE, len / PAGE_SIZE)
        && Shrunk(old(index.Tables()), index.Tables())
      ensures !r.Destroyed? ==>
        vmas == old(vmas) && index.Tables() == old(index.Tables()) && allocator.State() == old(allocator.State())
    {
      hide MmGood, Valid, HasPage, Covered, Remaining, Consecutive, Shrunk, CutOut, Low, EndsAtHead;
      if !(len % PAGE_SIZE == 0 && addr % PAGE_SIZE == 0) {
        return BadRange;
      }
      var a, n := addr / PAGE_SIZE, len / PAGE_SIZE;
      MmGoodSorted(home, index.frame, index.Tables(), allocator.State(), vmas);
      var found := FindRun(a, n, sentry);
      match found
      case Miss =>
        r := NotMapped;
      case AtHead =>
        r := RanOver;
      case Run(j) =>
        CutOutRemaining(vmas, j, a, n);
        UnmapAndFree(j, n, home);
        r := Destroyed;
    }

    /** The two searches of `DestroyUvm`. At the end of the list the second one
        reads `start` through the list head. */
    method FindRun(a: nat, n: nat, sentry: Sentry) returns (r: Search)
      requires Sorted(vmas)
      ensures r.Run? <==> HasPage(vmas, a) && Covered(vmas, a, n)
      ensures r.AtHead? <==> EndsAtHead(vmas, a, n, sentry)
      ensures r.Run? ==> r.j + n <= |vmas| && Consecutive(vmas, r.j, a, n)
    {
      var j := 0;
      while j < |vmas| && vmas[j].page != a
        invariant 0 <= j <= |vmas|
        invariant forall i :: 0 <= i < j ==> vmas[i].page != a
      {
        j := j + 1;
      }
      if j == |vmas| {
        return Miss;
      }
      var i := 1;
      while i < n
        invariant 1 <= i && (i <= n || i == 1)
        invariant Consecutive(vmas, j, a, i)
      {
        RunSoFar(vmas, j, a, i, n, sentry);
        if j + i == |vmas| {
          if sentry.start != (a + i) * PAGE_SIZE || i + 1 < n {
            // Past the head comes the first area, which starts too low to match.
            return Miss;
          }
          return AtHead;
        }
        if vmas[j + i].page != a + i {
          return Miss;
        }
        i := i + 1;
      }
      ConsecutiveCovers(vmas, j, a, i);
      RunComplete(vmas, j, a, i, n, sentry);
      r := Run(j);
    }

    /** An empty address space on a page of its own exactly when there was one. */
    static method MmNew(allocator: FirstFitAllocator, stale: int) returns (mm: AddressSpace?)
      requires Valid(allocator.State()) && Low(allocator.State()) && stale >= -1
      modifies allocator
      ensures mm == null <==> old(allocator.freeSpace) == 0 && stale == -1
      ensures mm == null ==> allocator.State() == old(allocator.State())
      ensures mm != null ==>
        && fresh(mm) && fresh(mm.index) && mm.allocator == allocator && mm.index.allocator == allocator
        && mm.vmas == [] && mm.index.Tables() == EMPTY
        && (mm.Ok(old(allocator.State())) <==> old(allocator.freeSpace) > 0)
    {
      hide MmGood, Valid, Took, Low;
      ghost var p0 := allocator.State();
      var index := PageIndex.InitPgindex(allocator, stale);
      if index == null {
        return null;
      }
      NewGood(p0, index.frame, allocator.State());
      mm := new AddressSpace(index);
    }

    /** Unmaps and frees every area, then the directory page: the pool gains
        exactly the pages the space held. */
    method MmDestroy(ghost home: Pool)
      requires Ok(home)
      modifies this, index, allocator
      ensures allocator.State() == home
      ensures Gave(old(allocator.State()), allocator.State(), old(Holdings()))
    {
      hide MmGood, Valid, RemoveAt, Low, Gave, Held;
      HeldGiven(home, index.frame, index.Tables(), allocator.State(), vmas);
      while |vmas| > 0
        invariant Ok(home)
        decreases |vmas|
      {
        RemoveAtShape(vmas, 0);
        RemoveOne(0, home);
      }
      NoAreasLeft(home, index.frame, index.Tables(), allocator.State());
      index.Destroy();
    }

    /** The scenario of `mm_test`, for any range and any way of taking it down
        again: the areas, the tables and the page free list come back exactly. */
    method CreateThenDestroy(addr: nat, len: nat, flags: nat, sentry: Sentry, descriptors: nat, stale: int,
                             ps: seq<Piece>, ghost home: Pool)
      returns (r: CreateResult)
      requires Ok(home) && addr + len < PAGES * PAGE_SIZE && stale >= -1
      requires Partition(ps, addr / PAGE_SIZE, len / PAGE_SIZE)
      modifies this, index, allocator
      ensures r.BadArgument? || r.Overlaps? ||
        r == CreateEnd(Place(old(vmas), addr / PAGE_SIZE + len / PAGE_SIZE), old(index.Tables()), old(allocator.State()),
                       addr / PAGE_SIZE, len / PAGE_SIZE, descriptors, stale)
      ensures r.Created? ==>
        && Ok(home) && vmas == old(vmas)
        && index.Tables() == old(index.Tables()) && allocator.State() == old(allocator.State())
    {
      hide MmGood, Valid, CreateSpec, LooksOverlapping, Partition, Shrunk, Grown, LeftOver, CreatedList, Place, Covered;
      hide HasPage, Remaining, CreateEnd, Low;
      var a, n := addr / PAGE_SIZE, len / PAGE_SIZE;
      ghost var t0, q0, vs0 := index.Tables(), allocator.State(), vmas;
      r := CreateUvm(addr, len, flags, sentry, descriptors, stale, home);
      if r.Created? {
        ghost var t1, vs1 := index.Tables(), vmas;
        CreatedParts(vs0, t0, q0, vs1, t1, allocator.State(), a, n, flags);
        MmGoodSorted(home, index.frame, t1, allocator.State(), vs1);
        DestroyPieces(ps, vs0, vs1, Place(vs0, a + n), a, n, flags, sentry, home);
        MmGoodSorted(home, index.frame, t0, q0, vs0);
        MmGoodSorted(home, index.frame, index.Tables(), allocator.State(), vmas);
        AllDestroyed(vs0, vs1, vmas, Place(vs0, a + n), ps, a, n, flags);
        StateRestored(home, index.frame, vs0, t0, q0, t1, index.Tables(), allocator.State(), a, n);
      }
    }

    method DestroyPieces(ps: seq<Piece>, ghost vs0: seq<Vma>, ghost vs1: seq<Vma>,
                         ghost k: nat, a: nat, n: nat, ghost flags: nat, sentry: Sentry, ghost home: Pool)
      requires Ok(home) && vmas == vs1 && a + n < PAGES
      requires CreatedList(vs0, vs1, k, a, n, flags) && Partition(ps, a, n)
      modifies this, index, allocator
      ensures Ok(home) && LeftOver(vs1, vmas, ps)
      ensures Shrunk(old(index.Tables()), index.Tables())
    {
      hide MmGood, Valid, Partition, Shrunk, LeftOver, CreatedList, Covered, HasPage, Remaining, Low, EndsAtHead;
      LeftOverNone(vs1, ps);
      ShrunkTrans(index.Tables(), index.Tables(), index.Tables());
      var i := 0;
      while i < |ps|
        invariant i <= |ps| && Ok(home)
        invariant LeftOver(vs1, vmas, ps[..i])
        invariant Shrunk(old(index.Tables()), index.Tables())
      {
        ghost var vs, t := vmas, index.Tables();
        PieceCovered(vs0, vs1, vs, k, ps, i, a, n, flags);
        PieceInside(ps, i, a, n);
        var d := DestroyUvm(ps[i].page * PAGE_SIZE, ps[i].n * PAGE_SIZE, sentry, home);
        LeftOverNext(vs1, vs, vmas, ps, i);
        ShrunkTrans(old(index.Tables()), t, index.Tables());
        i := i + 1;
      }
      assert ps[..|ps|] == ps;
    }
  }

  /** Three free pages are enough for the directory, one leaf table and one area.
      An area for the page after it is then created on page 0 and reported as a
      success, wherever the two pages are. */
  method TwoPagesOfThree(allocator: FirstFitAllocator, a: nat, flags: nat, sentry: Sentry, stale: int)
    returns (mm: AddressSpace?, first: CreateResult, second: CreateResult)
    requires Valid(allocator.State()) && Low(allocator.State()) && stale >= -1
    requires allocator.freeSpace == 3 * PAGE_SIZE
    requires a + 2 < PAGES && (a + 1) % ENTRIES != 0 && sentry.size <= PAGE_SIZE
    modifies allocator
    ensures first == CreateResult.Created && second == Unbacked(0, Success)
    ensures mm != null && |mm.vmas| == 2 && mm.vmas[1].page == a + 1 && mm.vmas[1].frame == 0
    ensures allocator.freeSpace == 0 && !mm.Ok(old(allocator.State()))
  {
    hide MmGood, Valid, Low, CreateSpec, CreateEnd, Place, LooksOverlapping;
    ghost var home := allocator.State();
    mm := AddressSpace.MmNew(allocator, stale);
    NewHolds(home, mm.index.frame, allocator.State());
    ghost var p0 := allocator.State();
    FirstOfThree(p0, a, sentry, stale);
    first := mm.CreateUvm(a * PAGE_SIZE, PAGE_SIZE, flags, sentry, 1, stale, home);
    ghost var t, p, vs := mm.index.Tables(), allocator.State(), mm.vmas;
    assert first == CreateResult.Created;
    CreatedParts([], EMPTY, p0, vs, t, p, a, 1, flags);
    OneMissing(a);
    SecondOfThree(home, mm.index.frame, t, p, vs, a, flags, sentry, stale);
    second := mm.CreateUvm((a + 1) * PAGE_SIZE, PAGE_SIZE, flags, sentry, 1, stale, home);
    UnbackedParts(vs, t, p, mm.vmas, mm.index.Tables(), allocator.State(), a + 1, flags);
  }

  /** A new space holds its directory page. */
  lemma NewHolds(home: Pool, frame: nat, p: Pool)
    requires Low(home) && MmGood(home, frame, EMPTY, p, [])
    ensures Valid(p) && Low(p) && home.freeSpace == p.freeSpace + PAGE_SIZE
  {
    hide Shape, FreeBytes;
    assert EMPTY.leaves.Keys == {} && OwnFrames([]) == {};
    assert Held(frame, EMPTY, []) == {frame};
  }

  lemma OneMissing(a: nat)
    requires a < PAGES
    ensures Cost(EMPTY, a, 1) == 2 * PAGE_SIZE
  {
    hide InSlots;
    MissingNext(EMPTY, a, 0);
    NoneMissing(EMPTY, a);
    assert Missing(EMPTY, a, 1) == {a / ENTRIES};
  }

  lemma FirstOfThree(p: Pool, a: nat, sentry: Sentry, stale: int)
    requires p.freeSpace == 2 * PAGE_SIZE && a + 2 < PAGES
    ensures !LooksOverlapping([], a, 1, sentry) && Place([], a + 1) == 0
    ensures CreateEnd(0, EMPTY, p, a, 1, 1, stale) == CreateResult.Created
  {
    hide Cost;
    OneMissing(a);
  }

  lemma SecondOfThree(home: Pool, frame: nat, t: Table, p: Pool, vs: seq<Vma>, a: nat, flags: nat, sentry: Sentry, stale: int)
    requires MmGood(home, frame, t, p, vs) && p.freeSpace == 0 && a + 2 < PAGES && (a + 1) % ENTRIES != 0
    requires CreatedList([], vs, Place([], a + 1), a, 1, flags) && Grown(EMPTY, t, a, 1) && sentry.size <= PAGE_SIZE
    ensures !LooksOverlapping(vs, a + 1, 1, sentry) && Place(vs, a + 2) == 1
    ensures CreateEnd(1, t, p, a + 1, 1, 1, stale) == Unbacked(0, Success)
  {
    hide At, Sound, Compact, Owns, Slot, Took;
    assert vs[1..] == [];
    MappedIff(vs, t, a + 1);
    assert (a + 1) / ENTRIES == a / ENTRIES;
    InSlotsNext(a, 0, a / ENTRIES);
    MissingNext(t, a + 1, 0);
    NoneMissing(t, a + 1);
    assert Slot(t, a / ENTRIES) != 0;
  }

  lemma UnbackedParts(vs0: seq<Vma>, t0: Table, p0: Pool, vs: seq<Vma>, t: Table, p: Pool, a: nat, flags: nat)
    requires CreateSpec(vs0, t0, p0, vs, t, p, a, 1, flags, Unbacked(0, Success)) && Place(vs0, a + 1) == 1 == |vs0|
    ensures |vs| == 2 && vs[1].page == a && vs[1].frame == 0 && p.freeSpace == 0
  {
  }

  lemma CreatedParts(vs0: seq<Vma>, t0: Table, p0: Pool, vs: seq<Vma>, t: Table, p: Pool, a: nat, n: nat, flags: nat)
    requires CreateSpec(vs0, t0, p0, vs, t, p, a, n, flags, CreateResult.Created)
    ensures CreatedList(vs0, vs, Place(vs0, a + n), a, n, flags) && Grown(t0, t, a, n) && Spent(t0, p0, p, a, n)
  {
  }

  lemma LeftOverNone(vs: seq<Vma>, ps: seq<Piece>)
    ensures LeftOver(vs, vs, ps[..0])
  {
  }

  lemma PieceInside(ps: seq<Piece>, i: nat, a: nat, n: nat)
    requires Partition(ps, a, n) && i < |ps|
    ensures a <= ps[i].page && ps[i].page + ps[i].n <= a + n
  {
  }

  lemma ShrunkTrans(t0: Table, t: Table, u: Table)
    ensures Shrunk(t0, t0)
    ensures Shrunk(t0, t) && Shrunk(t, u) ==> Shrunk(t0, u)
  {
  }

  lemma NewGood(p0: Pool, frame: nat, p: Pool)
    ensures MmGood(p0, frame, EMPTY, p, []) <==> Took(p0, p, {frame})
  {
    hide Took;
    assert Frames(EMPTY.dir) == {};
    assert EMPTY.leaves.Keys == {} && OwnFrames([]) == {};
    assert Held(frame, EMPTY, []) == {frame};
  }

  /** With no areas left only the directory page is missing from the pool. */
  lemma NoAreasLeft(p0: Pool, frame: nat, t: Table, p: Pool)
    requires MmGood(p0, frame, t, p, []) && Valid(p0)
    ensures Free(p, Extent(frame, PAGE_SIZE)) == p0
  {
    hide Took, Valid, Free, At, Sound, Compact;
    assert Unmapped(t, 0, PAGES) by {
      forall w: nat | 0 <= w < PAGES ensures At(t, w) == 0 {
        assert !HasPage([], w);
      }
    }
    NoEntriesNoTables(t);
    assert EMPTY.leaves.Keys == {} && OwnFrames([]) == {};
    assert Held(frame, t, []) == {frame};
    GiveFrame(p0, p, {frame}, frame);
    assert {frame} - {frame} == {};
    TookNone(p0, Free(p, Extent(frame, PAGE_SIZE)));
  }

  lemma CreateDone(vs0: seq<Vma>, t0: Table, p0: Pool, vs: seq<Vma>, t: Table, p: Pool, a: nat, n: nat, flags: nat)
    requires CreatedList(vs0, vs, Place(vs0, a + n), a, n, flags) && Grown(t0, t, a, n) && Spent(t0, p0, p, a, n)
    ensures CreateSpec(vs0, t0, p0, vs, t, p, a, n, flags, CreateResult.Created)
  {
  }

  lemma CreateNothing(vs: seq<Vma>, t: Table, p: Pool, a: nat, n: nat, flags: nat)
    ensures CreateSpec(vs, t, p, vs, t, p, a, n, flags, Overlaps)
    ensures CreateSpec(vs, t, p, vs, t, p, a, n, flags, BadArgument)
  {
  }

  lemma MmGoodSorted(p0: Pool, frame: nat, t: Table, p: Pool, vs: seq<Vma>)
    requires MmGood(p0, frame, t, p, vs)
    ensures Sorted(vs)
  {
  }

  lemma GoodPool(t: Table, p: Pool)
    requires Good(t, p)
    ensures Valid(p)
  {
  }

  lemma NotAtFreePage(p0: Pool, frame: nat, t: Table, p: Pool, vs: seq<Vma>, w: nat)
    requires MmGood(p0, frame, t, p, vs) && Unmapped(t, w, 1)
    ensures forall i :: 0 <= i < |vs| ==> vs[i].page != w
  {
    hide At, Perm, Agrees;
    UnmappedNone(vs, t, w);
  }

  lemma AreaRefs(p0: Pool, frame: nat, t: Table, p: Pool, vs: seq<Vma>, k: nat)
    requires MmGood(p0, frame, t, p, vs) && k < |vs|
    ensures vs[k].refs == 1
  {
  }

  lemma UnmapShrinks(t: Table, p: Pool, t': Table, p': Pool, v: nat)
    requires UnmapSpec(t, p, t', p', v, 1)
    ensures Shrunk(t, t')
  {
    hide Cleared, Sound, Gave, SlotUsed, InSlots, Slot;
  }

  lemma CreateStart(home: Pool, frame: nat, t: Table, p: Pool, vs: seq<Vma>, k: nat, a: nat, n: nat, flags: nat)
    requires MmGood(home, frame, t, p, vs) && k == Place(vs, a + n)
    ensures Sorted(vs) && CreatedList(vs, vs, k, a, 0, flags)
    ensures Grown(t, t, a, 0) && Spent(t, p, p, a, 0)
  {
    hide At, Took, Sound, Compact, Agrees, Owns, Slot;
    NoneMissing(t, a);
    GrownNothing(t, a);
  }

  lemma CreateAhead(home: Pool, frame: nat, vs0: seq<Vma>, t0: Table, p0: Pool, vs: seq<Vma>, t: Table, p: Pool,
                    k: nat, a: nat, i: nat, n: nat, flags: nat, sentry: Sentry)
    requires MmGood(home, frame, t0, p0, vs0) && MmGood(home, frame, t, p, vs)
    requires CreatedList(vs0, vs, k, a, i, flags) && i < n && a + n <= PAGES
    requires !LooksOverlapping(vs0, a, n, sentry)
    ensures Unmapped(t, a + i, 1) <==> At(t0, a + i) == 0
    ensures At(t0, a + i) != 0 ==> i == 0
    ensures At(t0, a + i) == 0 ==> Unmapped(t, a + i, n - i)
    ensures Valid(p)
  {
    hide At, Sound, Compact, Agrees, Owns, CreatedList, LooksOverlapping, HasPage;
    forall w: nat | a + i <= w < a + n
      ensures (At(t, w) == 0 <==> At(t0, w) == 0) && (At(t0, w) != 0 ==> w == a)
    {
      PageAhead(vs0, t0, vs, t, k, a, i, flags, w);
      if At(t0, w) != 0 {
        ConflictFirst(vs0, a, n, w - a, sentry);
      }
    }
  }

  lemma MappedMeans(t: Table, p: Pool, v: nat, stale: int)
    requires AreaOutcome(t, p, v, stale, Mapped)
    ensures Unmapped(t, v, 1)
  {
  }

  lemma DoneOutcome(k: nat, t0: Table, p0: Pool, p: Pool, a: nat, n: nat, descriptors: nat, stale: int)
    requires Spent(t0, p0, p, a, n) && (n > 0 ==> At(t0, a) == 0) && n <= descriptors
    ensures CreateEnd(k, t0, p0, a, n, descriptors, stale) == CreateResult.Created
  {
    hide At, Cost;
  }

  lemma NoDescriptor(k: nat, t0: Table, p0: Pool, p: Pool, a: nat, n: nat, descriptors: nat, stale: int)
    requires descriptors < n && Spent(t0, p0, p, a, descriptors) && (descriptors > 0 ==> At(t0, a) == 0)
    ensures CreateEnd(k, t0, p0, a, n, descriptors, stale) == RolledBack(k, ENOMEM, descriptors)
  {
    hide At, Cost;
  }

  lemma NotRejected(k: nat, t: Table, p: Pool, a: nat, n: nat, descriptors: nat, stale: int)
    ensures var r := CreateEnd(k, t, p, a, n, descriptors, stale); !r.BadArgument? && !r.Overlaps?
  {
    hide At, Cost, Paid;
  }

  /** The result of the call after turn `i` ended in `x`. */
  ghost function StopEnd(x: AreaResult, k: nat, t: Table, a: nat, i: nat, n: nat, descriptors: nat, stale: int): CreateResult
    requires !x.Mapped? && i < n && i < descriptors
  {
    match x
    case Refusal(code) => RolledBack(k, code, i)
    case OnZero(code) => if code == Success then BrokeEnd(t, a, i, n, descriptors, stale) else Unbacked(i, code)
    case Stray => Clobbered(i)
  }

  lemma StopOutcome(k: nat, t0: Table, p0: Pool, t: Table, p: Pool, a: nat, i: nat, n: nat, descriptors: nat, stale: int,
                    x: AreaResult)
    requires Spent(t0, p0, p, a, i) && Grown(t0, t, a, i) && (i > 0 ==> At(t0, a) == 0) && a + n <= PAGES
    requires i < n && i < descriptors && Valid(p) && AreaOutcome(t, p, a + i, stale, x) && !x.Mapped?
    requires (Unmapped(t, a + i, 1) <==> At(t0, a + i) == 0) && (At(t0, a + i) != 0 ==> i == 0)
    requires i == 0 ==> p == p0
    ensures CreateEnd(k, t0, p0, a, n, descriptors, stale) == StopEnd(x, k, t0, a, i, n, descriptors, stale)
  {
    hide Unmapped, At, Cost, Grown, Slot, Valid, Missing, Paid;
    var m := Least(n, descriptors);
    NeedsTableUnmapped(t, a + i);
    if At(t0, a + i) == 0 {
      WholePages(p);
      NeedsIff(t0, t, a, i);
      PaidAt(t0, p0, a, i, m);
    }
  }

  // Turns on page 0.

  lemma ZeroTurnParts(vs0: seq<Vma>, t0: Table, p0: Pool, vs: seq<Vma>, t: Table, p: Pool,
                      k: nat, page: nat, flags: nat, code: Code)
    requires ZeroTurn(vs0, t0, p0, vs, t, p, k, page, flags, code)
    ensures t.leaves.Keys == t0.leaves.Keys
    ensures code == Success ==>
      && Inserted(vs0, vs, k, page, flags) && vs[k].frame == 0 && Good(t, p) && p == p0
      && Grown(t0, t, page, 1) && Filled(t0, t, page, 0, 1, Perm(flags))
    ensures code != Success ==> vs == vs0 && t == t0 && p.freeSpace > 0
  {
  }

  lemma OnZeroMeans(t0: Table, t: Table, p: Pool, a: nat, i: nat, stale: int, x: AreaResult)
    requires AreaOutcome(t, p, a + i, stale, x) && x.OnZero? && Grown(t0, t, a, i) && a + i < PAGES
    ensures p.freeSpace == 0
    ensures x.code == Success ==> Unmapped(t, a + i, 1) && Missing(t0, a, i + 1) == Missing(t0, a, i)
  {
    hide Unmapped, Slot, Grown, Missing, Cost;
    NeedsIff(t0, t, a, i);
  }

  /** Since turn `m` no leaf table was missing, and none was put in place; the
      pages from turn `i` on are unmapped. */
  ghost predicate BrokeSoFar(t0: Table, t: Table, a: nat, m: nat, i: nat, n: nat, most: nat) {
    && m <= i <= n && i <= most && Grown(t0, t, a, i) && Unmapped(t, a + i, n - i)
    && NextTable(t0, a, m, most) == NextTable(t0, a, i, most)
  }

  lemma BrokeNext(t0: Table, t: Table, t': Table, a: nat, i: nat, n: nat, flags: nat, most: nat)
    requires i < n && i < most && a + n <= PAGES && Grown(t0, t, a, i) && Unmapped(t, a + i, n - i)
    requires Missing(t0, a, i + 1) == Missing(t0, a, i)
    requires Grown(t, t', a + i, 1) && Filled(t, t', a + i, 0, 1, Perm(flags))
    ensures BrokeSoFar(t0, t', a, i, i + 1, n, most)
  {
    hide At, Grown, Missing, Perm;
    GrownNext(t0, t, t', a, i);
  }

  lemma BrokeSoFarNext(t0: Table, t: Table, t': Table, a: nat, m: nat, i: nat, n: nat, flags: nat, most: nat)
    requires BrokeSoFar(t0, t, a, m, i, n, most) && i < n && i < most && a + n <= PAGES
    requires !NeedsTable(t, a + i) && Grown(t, t', a + i, 1) && Filled(t, t', a + i, 0, 1, Perm(flags))
    ensures BrokeSoFar(t0, t', a, m, i + 1, n, most)
  {
    hide At, Grown, Missing, Perm, Unmapped, Filled, NextTable, Cost;
    NeedsIff(t0, t, a, i);
    BrokeNext(t0, t, t', a, i, n, flags, most);
  }

  lemma BrokeStops(t0: Table, t: Table, a: nat, m: nat, i: nat, n: nat, descriptors: nat, stale: int)
    requires BrokeSoFar(t0, t, a, m, i, n, Least(n, descriptors)) && i == Least(n, descriptors)
    ensures BrokeEnd(t0, a, m, n, descriptors, stale) == Unbacked(m, if n <= descriptors then Success else ENOMEM)
  {
    hide Grown, Unmapped, Missing;
  }

  lemma BrokeOutcome(t0: Table, t: Table, p: Pool, a: nat, m: nat, i: nat, n: nat, descriptors: nat, stale: int, x: AreaResult)
    requires p.freeSpace == 0 && AreaOutcome(t, p, a + i, stale, x) && a + n <= PAGES
    requires BrokeSoFar(t0, t, a, m, i, n, Least(n, descriptors)) && i < n && i < descriptors
    ensures x.Stray? ==> BrokeEnd(t0, a, m, n, descriptors, stale) == Clobbered(i)
    ensures !x.Stray? ==> x.OnZero?
    ensures x.OnZero? && x.code != Success ==> BrokeEnd(t0, a, m, n, descriptors, stale) == Unbacked(m, x.code)
    ensures x.OnZero? && x.code == Success ==> !NeedsTable(t, a + i)
  {
    hide Grown, Missing, Slot, At, Cost;
    NeedsIff(t0, t, a, i);
    assert Unmapped(t, a + i, 1);
  }

  lemma NoZeroes(vs0: seq<Vma>, vs: seq<Vma>, k: nat, a: nat, m: nat, flags: nat)
    requires CreatedList(vs0, vs, k, a, m, flags)
    ensures WithZeroes(vs, vs, k + m, 0)
  {
  }

  lemma ZeroesNext(vs1: seq<Vma>, vs: seq<Vma>, vs': seq<Vma>, k: nat, j: nat, page: nat, flags: nat)
    requires WithZeroes(vs1, vs, k, j) && Inserted(vs, vs', k + j, page, flags) && vs'[k + j].frame == 0
    ensures WithZeroes(vs1, vs', k, j + 1)
  {
    hide InsertAt;
    InsertAtShape(vs, k + j, vs'[k + j]);
  }

  lemma ZeroesFrames(vs1: seq<Vma>, vs: seq<Vma>, k: nat, j: nat)
    requires WithZeroes(vs1, vs, k, j)
    ensures ZeroFrames(vs, k, k + j)
  {
  }

  // Destroying.

  lemma HeldGiven(home: Pool, frame: nat, t: Table, p: Pool, vs: seq<Vma>)
    requires Valid(home) && MmGood(home, frame, t, p, vs)
    ensures Gave(p, home, Held(frame, t, vs))
  {
    hide Shape, Held, FreeBytes, PageBytes;
  }

  lemma RunSoFar(vs: seq<Vma>, j: nat, a: nat, i: nat, n: nat, sentry: Sentry)
    requires Sorted(vs) && 0 < i < n && Consecutive(vs, j, a, i)
    ensures j + i < |vs| && vs[j + i].page == a + i ==> !EndsAtHead(vs, a, i + 1, sentry)
    ensures j + i == |vs| || vs[j + i].page != a + i ==> !Covered(vs, a, n)
    ensures j + i < |vs| && vs[j + i].page != a + i ==> !EndsAtHead(vs, a, n, sentry)
    ensures j + i == |vs| ==>
      (EndsAtHead(vs, a, n, sentry) <==> i + 1 == n && sentry.start == (a + i) * PAGE_SIZE)
  {
    assert vs[j + i - 1].page == a + i - 1;
    NextArea(vs, j + i - 1, a + i - 1);
    ConsecutiveCovers(vs, j, a, i);
    assert vs[j].page == a;
    assert j + i <= |vs| - 1 ==> vs[j + i].page <= vs[|vs| - 1].page;
    assert Covered(vs, a, n) ==> HasPage(vs, a + i);
    if EndsAtHead(vs, a, n, sentry) {
      assert i + 1 < n ==> HasPage(vs, a + i);
    }
  }

  lemma RunComplete(vs: seq<Vma>, j: nat, a: nat, i: nat, n: nat, sentry: Sentry)
    requires Sorted(vs) && Consecutive(vs, j, a, i) && i >= n && i >= 1 && (i <= n || i == 1)
    ensures HasPage(vs, a) && Covered(vs, a, n) && !EndsAtHead(vs, a, n, sentry)
  {
    assert vs[j].page == a;
    ConsecutiveCovers(vs, j, a, i);
    if n >= 2 {
      assert vs[j + n - 1].page == a + n - 1;
      assert vs[j + n - 1].page <= vs[|vs| - 1].page;
    }
  }
}
