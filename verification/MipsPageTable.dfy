/** The two-level MIPS32 page table of kern/arch/mips/pgtable.c (32-bit half).

    Addresses below are in pages: a virtual page `v` has directory slot
    `v / ENTRIES` and leaf slot `v % ENTRIES`. A directory slot holds 0 or the
    kernel address of a leaf table, a leaf slot holds 0 or a page table entry.
    `At` is the flat map from virtual page to entry that the tables stand for. */
module MipsPageTable {
  import opened Extents
  import opened PageAllocator

  const ENTRIES: nat := 1024
  const PAGES: nat := 0x10_0000
  const KSEG0: nat := 0x8000_0000

  const PTE_CACHEABLE: nat := 0x600
  const PTE_DIRTY: nat := 0x100
  const PTE_VALID: nat := 0x80
  const PTE_GLOBAL: nat := 0x40

  /** `leaves` gives the contents of the page frames used as leaf tables. */
  datatype Table = Table(dir: seq<nat>, leaves: map<nat, seq<nat>>)

  /** `Wild` stands for no return value: the code has just cleared a page of
      memory at an address it read from its uninitialised stack. */
  datatype Code = Success | EINVAL | ENOMEM | EEXIST | Wild

  function Zeros(): (z: seq<nat>)
    ensures |z| == ENTRIES && forall k :: 0 <= k < ENTRIES ==> z[k] == 0
  {
    seq(ENTRIES, _ => 0)
  }

  predicate AllZero(leaf: seq<nat>) {
    forall k :: 0 <= k < |leaf| ==> leaf[k] == 0
  }

  function Slot(t: Table, s: nat): nat {
    if s < |t.dir| then t.dir[s] else 0
  }

  /** The leaf table named by slot `s`, or the empty sequence if there is none. */
  function Leaf(t: Table, s: nat): seq<nat> {
    if Slot(t, s) >= KSEG0 && Slot(t, s) - KSEG0 in t.leaves then t.leaves[Slot(t, s) - KSEG0] else []
  }

  /** The flat map: the entry of virtual page `v`, 0 if there is none. */
  function At(t: Table, v: nat): nat {
    var leaf := Leaf(t, v / ENTRIES);
    if v % ENTRIES < |leaf| then leaf[v % ENTRIES] else 0
  }

  ghost function Frames(dir: seq<nat>): set<nat> {
    set s | 0 <= s < |dir| && dir[s] >= KSEG0 :: dir[s] - KSEG0
  }

  /** Distinct slots name distinct leaf tables, and the frames in use are
      exactly the ones named. */
  ghost predicate Sound(t: Table) {
    && |t.dir| == ENTRIES
    && (forall s :: 0 <= s < ENTRIES ==> t.dir[s] == 0 || t.dir[s] >= KSEG0)
    && (forall r, s :: 0 <= r < s < ENTRIES && t.dir[r] != 0 ==> t.dir[r] != t.dir[s])
    && t.leaves.Keys == Frames(t.dir)
    && (forall f :: f in t.leaves ==> |t.leaves[f]| == ENTRIES)
    && Bases(t.leaves.Keys)
  }

  lemma LeafPresent(t: Table, s: nat)
    requires Sound(t) && s < ENTRIES
    ensures Slot(t, s) == t.dir[s]
    ensures t.dir[s] != 0 ==>
      t.dir[s] >= KSEG0 && t.dir[s] - KSEG0 in t.leaves && Leaf(t, s) == t.leaves[t.dir[s] - KSEG0]
    ensures |Leaf(t, s)| == if t.dir[s] != 0 then ENTRIES else 0
  {
    if t.dir[s] != 0 {
      assert t.dir[s] - KSEG0 in Frames(t.dir);
    }
  }

  /** The walk for a 32-bit address: the top ten bits select the directory slot,
      which holds an unmapped kernel address, the next ten the entry. */
  ghost function Refill(t: Table, addr: nat): nat
    requires Sound(t) && addr < 0x1_0000_0000
  {
    LeafPresent(t, addr / 0x40_0000);
    var table := t.dir[addr / 0x40_0000];
    if table == 0 then 0 else t.leaves[table - 0x8000_0000][addr / 0x1000 % 0x400]
  }

  lemma RefillIsAt(t: Table, addr: nat)
    requires Sound(t) && addr < 0x1_0000_0000
    ensures Refill(t, addr) == At(t, addr / 0x1000)
  {
    hide Sound;
    LeafPresent(t, addr / 0x40_0000);
    SlotOfAddress(addr);
  }

  lemma SlotOfAddress(addr: nat)
    ensures addr / 0x1000 / ENTRIES == addr / 0x40_0000
  {
  }

  /** Some page of directory slot `s` has an entry. */
  ghost predicate SlotUsed(t: Table, s: nat) {
    exists v: nat :: v < PAGES && v / ENTRIES == s && At(t, v) != 0
  }

  /** No leaf table is all zero. */
  ghost predicate Compact(t: Table) {
    forall s: nat :: s < ENTRIES && Slot(t, s) != 0 ==> SlotUsed(t, s)
  }

  lemma SlotUsedLeaf(t: Table, s: nat)
    requires s < ENTRIES && |Leaf(t, s)| <= ENTRIES
    ensures SlotUsed(t, s) <==> !AllZero(Leaf(t, s))
  {
    if !AllZero(Leaf(t, s)) {
      var k :| 0 <= k < |Leaf(t, s)| && Leaf(t, s)[k] != 0;
      var v := s * ENTRIES + k;
      assert v / ENTRIES == s && v % ENTRIES == k;
      assert At(t, v) != 0;
    }
  }

  // ------------------------------------------------------------------
  // The three ways the code writes to the tables.

  function AddLeaf(t: Table, s: nat, f: nat): Table
    requires s < |t.dir|
  {
    Table(t.dir[s := f + KSEG0], t.leaves[f := Zeros()])
  }

  function DropLeaf(t: Table, s: nat): Table
    requires s < |t.dir| && t.dir[s] >= KSEG0
  {
    Table(t.dir[s := 0], t.leaves - {t.dir[s] - KSEG0})
  }

  function SetEntry(t: Table, v: nat, e: nat): Table
    requires v % ENTRIES < |Leaf(t, v / ENTRIES)|
  {
    Table(t.dir, t.leaves[Slot(t, v / ENTRIES) - KSEG0 := Leaf(t, v / ENTRIES)[v % ENTRIES := e]])
  }

  lemma FramesAdd(dir: seq<nat>, s: nat, f: nat)
    requires s < |dir| && dir[s] == 0
    ensures Frames(dir[s := f + KSEG0]) == Frames(dir) + {f}
  {
    var d := dir[s := f + KSEG0];
    assert d[s] - KSEG0 == f;
    forall x | x in Frames(dir) ensures x in Frames(d) {
      var r :| 0 <= r < |dir| && dir[r] >= KSEG0 && dir[r] - KSEG0 == x;
      assert d[r] == dir[r];
    }
  }

  lemma FramesDrop(dir: seq<nat>, s: nat)
    requires s < |dir| && dir[s] >= KSEG0
    requires forall r :: 0 <= r < |dir| && r != s ==> dir[r] != dir[s]
    ensures Frames(dir[s := 0]) == Frames(dir) - {dir[s] - KSEG0}
  {
    var d := dir[s := 0];
    forall x | x in Frames(dir) && x != dir[s] - KSEG0 ensures x in Frames(d) {
      var r :| 0 <= r < |dir| && dir[r] >= KSEG0 && dir[r] - KSEG0 == x;
      assert d[r] == dir[r];
    }
  }

  lemma AddLeafSound(t: Table, s: nat, f: nat)
    requires Sound(t) && s < ENTRIES && t.dir[s] == 0
    requires f !in t.leaves && f % PAGE_SIZE == 0
    ensures Sound(AddLeaf(t, s, f))
    ensures AddLeaf(t, s, f).leaves.Keys == t.leaves.Keys + {f}
  {
    hide Frames;
    var u := AddLeaf(t, s, f);
    forall r | 0 <= r < ENTRIES && t.dir[r] != 0 ensures t.dir[r] != f + KSEG0 {
      LeafPresent(t, r);
    }
    FramesAdd(t.dir, s, f);
    assert u.leaves.Keys == t.leaves.Keys + {f};
  }

  lemma DropLeafSound(t: Table, s: nat)
    requires Sound(t) && s < ENTRIES && t.dir[s] >= KSEG0
    ensures Sound(DropLeaf(t, s))
    ensures DropLeaf(t, s).leaves.Keys == t.leaves.Keys - {t.dir[s] - KSEG0}
  {
    hide Frames;
    var u := DropLeaf(t, s);
    FramesDrop(t.dir, s);
    assert u.leaves.Keys == t.leaves.Keys - {t.dir[s] - KSEG0};
  }

  lemma SetEntrySound(t: Table, v: nat, e: nat)
    requires Sound(t) && v < PAGES && t.dir[v / ENTRIES] != 0
    ensures v % ENTRIES < |Leaf(t, v / ENTRIES)|
    ensures Sound(SetEntry(t, v, e)) && SetEntry(t, v, e).leaves.Keys == t.leaves.Keys
  {
    LeafPresent(t, v / ENTRIES);
    hide Frames;
    assert SetEntry(t, v, e).leaves.Keys == t.leaves.Keys;
  }

  lemma SetEntryAt(t: Table, v: nat, e: nat, w: nat)
    requires Sound(t) && v < PAGES && t.dir[v / ENTRIES] != 0 && w < PAGES
    requires v % ENTRIES < |Leaf(t, v / ENTRIES)|
    ensures At(SetEntry(t, v, e), w) == if w == v then e else At(t, w)
  {
    LeafPresent(t, v / ENTRIES);
    LeafPresent(t, w / ENTRIES);
    hide Frames;
  }

  // ------------------------------------------------------------------
  // The first pass of a mapping.

  /** Slot `s` holds one of the `n` pages starting at `v`. */
  predicate InSlots(v: nat, n: nat, s: nat) {
    n > 0 && v / ENTRIES <= s <= (v + n - 1) / ENTRIES
  }

  lemma InSlotsNext(v: nat, n: nat, s: nat)
    ensures InSlots(v, n + 1, s) <==> InSlots(v, n, s) || s == (v + n) / ENTRIES
  {
  }

  /** Slots that had a leaf table keep it; of the others exactly those of the
      `n` pages from `v` have one. */
  ghost predicate Grown(t0: Table, t: Table, v: nat, n: nat) {
    && (forall s: nat :: s < ENTRIES && Slot(t0, s) != 0 ==> Slot(t, s) == Slot(t0, s))
    && (forall s: nat :: s < ENTRIES && Slot(t0, s) == 0 ==> (Slot(t, s) != 0 <==> InSlots(v, n, s)))
  }

  /** `t` is `t0` with an empty leaf table in every slot of the `n` pages from
      `v` that had none. */
  ghost predicate Extended(t0: Table, t: Table, v: nat, n: nat) {
    && Sound(t)
    && Grown(t0, t, v, n)
    && t0.leaves.Keys <= t.leaves.Keys
    && (forall f :: f in t0.leaves ==> t.leaves[f] == t0.leaves[f])
    && (forall f :: f in t.leaves && f !in t0.leaves ==> AllZero(t.leaves[f]))
  }

  lemma NewLeafIsNewFrame(t0: Table, t: Table, v: nat, n: nat, s: nat)
    requires Sound(t0) && Extended(t0, t, v, n)
    requires s < ENTRIES && Slot(t0, s) == 0 && Slot(t, s) != 0
    ensures Slot(t, s) >= KSEG0 && Slot(t, s) - KSEG0 !in t0.leaves
    ensures AllZero(Leaf(t, s))
  {
    LeafPresent(t, s);
    forall r: nat | r < ENTRIES && t0.dir[r] != 0 ensures t0.dir[r] != t.dir[s] {
      assert Slot(t, r) == Slot(t0, r);
    }
  }

  lemma ExtendedAt(t0: Table, t: Table, v: nat, n: nat, w: nat)
    requires Sound(t0) && Extended(t0, t, v, n) && w < PAGES
    ensures At(t, w) == At(t0, w)
  {
    hide Frames, InSlots;
    var s := w / ENTRIES;
    LeafPresent(t0, s);
    LeafPresent(t, s);
    if Slot(t0, s) == 0 && Slot(t, s) != 0 {
      NewLeafIsNewFrame(t0, t, v, n, s);
    }
  }

  lemma ExtendedPresent(t0: Table, t: Table, v: nat, n: nat)
    requires Extended(t0, t, v, n)
    requires Slot(t, (v + n) / ENTRIES) != 0
    ensures Extended(t0, t, v, n + 1)
  {
    hide Sound, InSlots, Slot;
    forall s: nat ensures InSlots(v, n + 1, s) <==> InSlots(v, n, s) || s == (v + n) / ENTRIES {
      InSlotsNext(v, n, s);
    }
  }

  lemma ExtendedAdded(t0: Table, t: Table, v: nat, n: nat, f: nat)
    requires Extended(t0, t, v, n) && v + n < PAGES
    requires Slot(t, (v + n) / ENTRIES) == 0 && f !in t.leaves && f % PAGE_SIZE == 0
    ensures Extended(t0, AddLeaf(t, (v + n) / ENTRIES, f), v, n + 1)
  {
    hide InSlots, Frames;
    AddLeafSound(t, (v + n) / ENTRIES, f);
    forall s: nat ensures InSlots(v, n + 1, s) <==> InSlots(v, n, s) || s == (v + n) / ENTRIES {
      InSlotsNext(v, n, s);
    }
  }

  /** Directory slots of the `n` pages from `v` that have no leaf table. */
  ghost function Missing(t: Table, v: nat, n: nat): set<nat> {
    set s: nat | s < ENTRIES && Slot(t, s) == 0 && InSlots(v, n, s)
  }

  lemma MissingNext(t: Table, v: nat, n: nat)
    requires v + n < PAGES
    ensures var s := (v + n) / ENTRIES;
      Missing(t, v, n + 1) == if Slot(t, s) == 0 then Missing(t, v, n) + {s} else Missing(t, v, n)
  {
    hide InSlots, Slot;
    forall s: nat ensures InSlots(v, n + 1, s) <==> InSlots(v, n, s) || s == (v + n) / ENTRIES {
      InSlotsNext(v, n, s);
    }
  }

  lemma CardSubset(a: set<nat>, b: set<nat>)
    requires a <= b
    ensures |a| <= |b|
  {
    assert b == a + (b - a);
  }

  lemma MissingGrows(t: Table, v: nat, i: nat, n: nat)
    requires i <= n
    ensures |Missing(t, v, i)| <= |Missing(t, v, n)|
  {
    CardSubset(Missing(t, v, i), Missing(t, v, n));
  }

  /** State of the first pass after `n` pages: tables, pool and their count. */
  ghost predicate Reserved(t0: Table, p0: Pool, t: Table, p: Pool, v: nat, n: nat) {
    && Extended(t0, t, v, n)
    && Took(p0, p, t.leaves.Keys - t0.leaves.Keys)
    && |t.leaves.Keys - t0.leaves.Keys| == |Missing(t0, v, n)|
  }

  lemma ReservedNothing(t: Table, p: Pool, v: nat)
    requires Sound(t) && Valid(p)
    ensures Reserved(t, p, t, p, v, 0)
  {
    TookNothing(p);
    assert t.leaves.Keys - t.leaves.Keys == {};
    assert Missing(t, v, 0) == {};
  }

  lemma ReservedFound(t0: Table, p0: Pool, t: Table, p: Pool, v: nat, n: nat)
    requires Reserved(t0, p0, t, p, v, n) && v + n < PAGES
    requires Slot(t, (v + n) / ENTRIES) != 0
    ensures Reserved(t0, p0, t, p, v, n + 1)
  {
    ExtendedPresent(t0, t, v, n);
    MissingNext(t0, v, n);
    hide Took, Sound, InSlots, Slot;
    var s := (v + n) / ENTRIES;
    assert Slot(t0, s) == 0 ==> s in Missing(t0, v, n);
    assert Missing(t0, v, n + 1) == Missing(t0, v, n);
  }

  lemma NotMissingYet(t0: Table, t: Table, v: nat, n: nat)
    requires Extended(t0, t, v, n) && v + n < PAGES
    requires Slot(t, (v + n) / ENTRIES) == 0
    ensures Slot(t0, (v + n) / ENTRIES) == 0 && (v + n) / ENTRIES !in Missing(t0, v, n)
  {
    hide InSlots, Slot, Sound;
  }

  /** A page taken from the pool is not one the tables already use. */
  lemma FreePageIsNew(p0: Pool, p: Pool, added: set<nat>, used: set<nat>, f: nat)
    requires Took(p0, p, added) && PageBytes(used) !! FreeBytes(p0)
    requires Span(f, PAGE_SIZE) <= FreeBytes(p)
    ensures f !in used
  {
    hide FreeBytes;
    assert f in Span(f, PAGE_SIZE);
    assert f in FreeBytes(p0);
    assert f in used ==> f in PageBytes(used) by {
      if f in used { PageBytesMember(used, f); }
    }
  }

  lemma ReservedCreated(t0: Table, p0: Pool, t: Table, p: Pool, v: nat, n: nat, q: Pool, f: nat)
    requires Reserved(t0, p0, t, p, v, n) && v + n < PAGES && (v + n) / ENTRIES < |t.dir|
    requires PageBytes(t0.leaves.Keys) !! FreeBytes(p0)
    requires Slot(t, (v + n) / ENTRIES) == 0 && Alloc(p, PAGE_SIZE) == (q, Taken(f))
    ensures Reserved(t0, p0, AddLeaf(t, (v + n) / ENTRIES, f), q, v, n + 1)
  {
    hide Alloc, Took, FreeBytes, PageBytes, Extended, Missing;
    var added := t.leaves.Keys - t0.leaves.Keys;
    TakeOne(p0, p, added);
    FreePageIsNew(p0, p, added, t0.leaves.Keys, f);
    ExtendedAdded(t0, t, v, n, f);
    MissingNext(t0, v, n);
    NotMissingYet(t0, t, v, n);
    AddLeafKeys(t0, t, (v + n) / ENTRIES, f);
  }

  lemma AddLeafKeys(t0: Table, t: Table, s: nat, f: nat)
    requires s < |t.dir| && f !in t0.leaves
    ensures AddLeaf(t, s, f).leaves.Keys - t0.leaves.Keys == t.leaves.Keys - t0.leaves.Keys + {f}
  {
    assert AddLeaf(t, s, f).leaves.Keys == t.leaves.Keys + {f};
  }

  // ------------------------------------------------------------------
  // Freeing empty leaf tables.

  /** `t` is `t0` without the empty leaf tables of slots `lo` up to `hi`. */
  ghost predicate Trimmed(t0: Table, t: Table, lo: nat, hi: nat) {
    && Sound(t)
    && (forall s: nat :: s < ENTRIES ==>
          Slot(t, s) == if lo <= s < hi && !SlotUsed(t0, s) then 0 else Slot(t0, s))
    && t.leaves.Keys <= t0.leaves.Keys
    && (forall f :: f in t.leaves ==> t.leaves[f] == t0.leaves[f])
  }

  lemma TrimmedSkip(t0: Table, t: Table, lo: nat, s: nat)
    requires s < ENTRIES && Trimmed(t0, t, lo, s)
    requires Slot(t0, s) == 0 || SlotUsed(t0, s)
    ensures Trimmed(t0, t, lo, s + 1)
  {
    hide Sound, SlotUsed, Slot;
  }

  lemma TrimmedDrop(t0: Table, t: Table, lo: nat, s: nat)
    requires lo <= s < ENTRIES && Trimmed(t0, t, lo, s)
    requires s < |t.dir| && t.dir[s] >= KSEG0 && !SlotUsed(t0, s)
    ensures Trimmed(t0, DropLeaf(t, s), lo, s + 1)
  {
    hide Frames, SlotUsed;
    DropLeafSound(t, s);
  }

  lemma TrimmedAt(t0: Table, t: Table, lo: nat, hi: nat, v: nat)
    requires Sound(t0) && Trimmed(t0, t, lo, hi) && v < PAGES
    ensures At(t, v) == At(t0, v)
  {
    LeafPresent(t0, v / ENTRIES);
    LeafPresent(t, v / ENTRIES);
    hide Frames;
    if Slot(t, v / ENTRIES) != Slot(t0, v / ENTRIES) {
      assert !SlotUsed(t0, v / ENTRIES);
    }
  }

  lemma SameTables(t: Table, u: Table)
    requires Sound(t) && Sound(u)
    requires forall s: nat :: s < ENTRIES ==> Slot(t, s) == Slot(u, s)
    requires forall f :: f in t.leaves && f in u.leaves ==> t.leaves[f] == u.leaves[f]
    ensures t == u
  {
    forall s: nat | s < ENTRIES ensures t.dir[s] == u.dir[s] {
      assert Slot(t, s) == Slot(u, s);
    }
    assert t.dir == u.dir;
    assert t.leaves.Keys == u.leaves.Keys;
  }

  lemma TrimUndoesExtendAt(t0: Table, t1: Table, t2: Table, v: nat, n: nat, lo: nat, hi: nat, s: nat)
    requires Sound(t0) && Compact(t0) && s < ENTRIES
    requires Extended(t0, t1, v, n) && Trimmed(t1, t2, lo, hi)
    requires InSlots(v, n, s) ==> lo <= s < hi
    ensures Slot(t2, s) == Slot(t0, s)
  {
    LeafPresent(t1, s);
    LeafPresent(t0, s);
    hide Frames, InSlots, At;
    SlotUsedLeaf(t1, s);
    SlotUsedLeaf(t0, s);
    if Slot(t0, s) == 0 && Slot(t1, s) != 0 {
      NewLeafIsNewFrame(t0, t1, v, n, s);
    }
  }

  /** Trimming the slots of an interrupted first pass undoes it exactly. */
  lemma TrimUndoesExtend(t0: Table, t1: Table, t2: Table, v: nat, n: nat, lo: nat, hi: nat)
    requires Sound(t0) && Compact(t0)
    requires Extended(t0, t1, v, n) && Trimmed(t1, t2, lo, hi)
    requires forall s: nat :: s < ENTRIES && InSlots(v, n, s) ==> lo <= s < hi
    ensures t2 == t0
  {
    forall s: nat | s < ENTRIES ensures Slot(t2, s) == Slot(t0, s) {
      TrimUndoesExtendAt(t0, t1, t2, v, n, lo, hi, s);
    }
    hide Compact, SlotUsed;
    SameTables(t0, t2);
  }

  // ------------------------------------------------------------------
  // The second pass.

  /** The second pass: entries for `n` pages from `v`, frames from `f` on. */
  ghost predicate Filled(t0: Table, t: Table, v: nat, f: nat, n: nat, perm: nat) {
    forall w: nat :: w < PAGES ==>
      At(t, w) == if v <= w < v + n then (f + (w - v)) * PAGE_SIZE + perm else At(t0, w)
  }

  function Perm(flags: nat): (p: nat)
    ensures 0 < p < PAGE_SIZE
  {
    PTE_VALID + PTE_GLOBAL + PTE_CACHEABLE + if flags / 2 % 2 == 1 then PTE_DIRTY else 0
  }

  /** Below the frame number an entry holds, from bit 6 on, the global, valid and
      writable bits and the three-bit cache field, and nothing else: global,
      valid, cached (3), and writable exactly when asked. */
  lemma PermBits(flags: nat)
    ensures var p := Perm(flags);
      && p < 0x1000 && p % 0x40 == 0
      && p / 0x40 % 2 == 1 && p / 0x80 % 2 == 1 && p / 0x200 % 8 == 3
      && (p / 0x100 % 2 == 1 <==> flags / 2 % 2 == 1)
  {
  }

  lemma FilledNext(t0: Table, t: Table, v: nat, f: nat, n: nat, perm: nat)
    requires Sound(t) && Filled(t0, t, v, f, n, perm) && v + n < PAGES
    requires t.dir[(v + n) / ENTRIES] != 0
    ensures (v + n) % ENTRIES < |Leaf(t, (v + n) / ENTRIES)|
    ensures Filled(t0, SetEntry(t, v + n, (f + n) * PAGE_SIZE + perm), v, f, n + 1, perm)
  {
    hide At, Sound, SetEntry, Leaf;
    SetEntrySound(t, v + n, 0);
    var u := SetEntry(t, v + n, (f + n) * PAGE_SIZE + perm);
    forall w: nat | w < PAGES
      ensures At(u, w) == if v <= w < v + n + 1 then (f + (w - v)) * PAGE_SIZE + perm else At(t0, w)
    {
      SetEntryAt(t, v + n, (f + n) * PAGE_SIZE + perm, w);
      assert w != v + n ==> (v <= w < v + n + 1 <==> v <= w < v + n);
    }
  }

  /** A mapping leaves every leaf table with an entry. */
  lemma FilledCompact(t0: Table, t: Table, v: nat, f: nat, n: nat, perm: nat)
    requires Compact(t0) && Grown(t0, t, v, n) && perm > 0
    requires Filled(t0, t, v, f, n, perm) && v + n <= PAGES
    ensures Compact(t)
  {
    hide At, Slot;
    forall s: nat | s < ENTRIES && Slot(t, s) != 0 ensures SlotUsed(t, s) {
      if InSlots(v, n, s) {
        var w := if s == v / ENTRIES then v else s * ENTRIES;
        assert v <= w < v + n && w / ENTRIES == s;
        assert At(t, w) != 0;
      } else {
        assert SlotUsed(t0, s);
        var w: nat :| w < PAGES && w / ENTRIES == s && At(t0, w) != 0;
        assert At(t, w) != 0;
      }
    }
  }

  // ------------------------------------------------------------------
  // The code.

  /** Tables and pool fit together: no page in use is also free. */
  ghost predicate Clear(t: Table, p: Pool) {
    Valid(p) && Sound(t) && PageBytes(t.leaves.Keys) !! FreeBytes(p)
  }

  ghost predicate Good(t: Table, p: Pool) {
    Clear(t, p) && Compact(t)
  }

  lemma SlotEntry(t: Table, s: nat)
    requires s < |t.dir|
    ensures Slot(t, s) == t.dir[s]
  {
  }

  lemma SoundSize(t: Table)
    requires Sound(t)
    ensures |t.dir| == ENTRIES
  {
  }

  lemma ReservedParts(t0: Table, p0: Pool, t: Table, p: Pool, v: nat, n: nat)
    requires Reserved(t0, p0, t, p, v, n)
    ensures Sound(t) && Valid(p) && Conserved(t0, p0, t, p)
  {
  }

  /** What the first pass reads for the last page is its entry beforehand, and
      a table created for it holds nothing. */
  lemma ReservedEntry(t0: Table, p0: Pool, t: Table, p: Pool, v: nat, n: nat, w: nat)
    requires Sound(t0) && Reserved(t0, p0, t, p, v, n) && w < PAGES
    ensures At(t, w) == At(t0, w)
  {
    hide Took, Missing, Sound, At;
    ExtendedAt(t0, t, v, n, w);
  }

  /** Tables and pool after trimming slots `lo` up to `hi`. */
  ghost predicate TrimState(t0: Table, p0: Pool, t: Table, p: Pool, lo: nat, hi: nat) {
    && Trimmed(t0, t, lo, hi)
    && Gave(p0, p, t0.leaves.Keys - t.leaves.Keys)
  }

  lemma TrimStateNothing(t: Table, p: Pool, lo: nat, hi: nat)
    requires Sound(t) && Valid(p) && hi <= lo
    ensures TrimState(t, p, t, p, lo, hi)
  {
    TookNothing(p);
    assert t.leaves.Keys - t.leaves.Keys == {};
  }

  lemma TrimStateParts(t0: Table, p0: Pool, t: Table, p: Pool, lo: nat, s: nat)
    requires Sound(t0) && TrimState(t0, p0, t, p, lo, s) && s < ENTRIES
    ensures Sound(t) && |t.dir| == ENTRIES
    ensures t.dir[s] == Slot(t0, s) == Slot(t, s)
    ensures t.dir[s] != 0 ==> t.dir[s] >= KSEG0 && t.dir[s] - KSEG0 in t.leaves
    ensures t.dir[s] != 0 ==> (SlotUsed(t0, s) <==> !AllZero(Leaf(t, s)))
  {
    hide Gave, Frames, At;
    LeafPresent(t, s);
    LeafPresent(t0, s);
    SlotUsedLeaf(t0, s);
  }

  lemma TrimStateSkip(t0: Table, p0: Pool, t: Table, p: Pool, lo: nat, s: nat)
    requires s < ENTRIES && TrimState(t0, p0, t, p, lo, s)
    requires Slot(t0, s) == 0 || SlotUsed(t0, s)
    ensures TrimState(t0, p0, t, p, lo, s + 1)
  {
    hide Gave, Trimmed;
    TrimmedSkip(t0, t, lo, s);
  }

  lemma LeafNotFree(t: Table, p: Pool, f: nat)
    requires Clear(t, p) && f in t.leaves
    ensures f % PAGE_SIZE == 0 && Span(f, PAGE_SIZE) !! FreeBytes(p)
  {
    hide FreeBytes;
    PageBytesMember(t.leaves.Keys, f);
  }

  lemma TrimStateDrop(t0: Table, p0: Pool, t: Table, p: Pool, lo: nat, s: nat)
    requires Clear(t0, p0) && lo <= s < ENTRIES && TrimState(t0, p0, t, p, lo, s)
    requires s < |t.dir| && t.dir[s] >= KSEG0 && t.dir[s] - KSEG0 in t.leaves && !SlotUsed(t0, s)
    ensures TrimState(t0, p0, DropLeaf(t, s), Free(p, Extent(t.dir[s] - KSEG0, PAGE_SIZE)), lo, s + 1)
  {
    hide Gave, FreeBytes, SlotUsed, PageBytes, Slot, Free, Sound, Valid;
    var f := t.dir[s] - KSEG0;
    assert t0.leaves.Keys - DropLeaf(t, s).leaves.Keys == t0.leaves.Keys - t.leaves.Keys + {f};
    TrimmedDrop(t0, t, lo, s);
    hide Trimmed, DropLeaf;
    LeafNotFree(t0, p0, f);
    GiveOne(p0, p, t0.leaves.Keys - t.leaves.Keys, f);
  }

  // ------------------------------------------------------------------
  // What a call to map pages promises.

  ghost predicate Unmapped(t: Table, v: nat, n: nat) {
    forall w: nat :: v <= w < v + n ==> At(t, w) == 0
  }

  /** Success changes the translation exactly on the range, drawing leaf tables
      from the pool; any other code leaves tables and pool as they were. */
  ghost predicate MapSpec(t0: Table, p0: Pool, t: Table, p: Pool, v: nat, f: nat, n: nat, perm: nat, code: Code) {
    if code == Success then
      && Unmapped(t0, v, n)
      && Filled(t0, t, v, f, n, perm)
      && Grown(t0, t, v, n)
      && Conserved(t0, p0, t, p)
      && |t.leaves.Keys - t0.leaves.Keys| == |Missing(t0, v, n)|
    else t == t0 && p == p0
  }

  /** Distinct slots name distinct leaf tables, and those added are exactly the
      pages taken from the pool. */
  ghost predicate Conserved(t0: Table, p0: Pool, t: Table, p: Pool) {
    && Sound(t)
    && t0.leaves.Keys <= t.leaves.Keys
    && Took(p0, p, t.leaves.Keys - t0.leaves.Keys)
  }

  /** How many of the `n` pages from `v` come before the first mapped one. */
  function FirstConflict(t: Table, v: nat, n: nat): (c: nat)
    ensures c <= n
    decreases n
  {
    if n == 0 || At(t, v) != 0 then 0 else 1 + FirstConflict(t, v + 1, n - 1)
  }

  lemma {:induction false} FirstConflictStops(t: Table, v: nat, n: nat)
    ensures var c := FirstConflict(t, v, n); Unmapped(t, v, c) && (c < n ==> At(t, v + c) != 0)
    decreases n
  {
    hide At;
    if n > 0 && At(t, v) == 0 {
      FirstConflictStops(t, v + 1, n - 1);
    }
  }

  lemma FirstConflictUnique(t: Table, v: nat, n: nat, c: nat)
    requires c <= n && Unmapped(t, v, c) && (c < n ==> At(t, v + c) != 0)
    ensures FirstConflict(t, v, n) == c
    ensures Unmapped(t, v, n) <==> c == n
  {
    hide At, FirstConflict;
    FirstConflictStops(t, v, n);
    var d := FirstConflict(t, v, n);
    assert At(t, v + d) == 0 || d >= c;
    assert At(t, v + c) == 0 || c >= d;
  }

  /** Enough free pages for the leaf tables the first pass adds before it meets
      a mapped page, if it meets one. */
  ghost predicate Affordable(t: Table, p: Pool, v: nat, n: nat) {
    PAGE_SIZE * |Missing(t, v, FirstConflict(t, v, n))| <= p.freeSpace
  }

  /** Which code an aligned mapping returns. Its specification is kept exactly
      when the tables it needs are affordable, unless the stale address happens
      to be the error value. */
  ghost predicate MapOutcome(t: Table, p: Pool, v: nat, n: nat, stale: int, code: Code) {
    && (code == Success <==> Affordable(t, p, v, n) && Unmapped(t, v, n))
    && (code == EEXIST <==> Affordable(t, p, v, n) && !Unmapped(t, v, n))
    && (code == ENOMEM <==> !Affordable(t, p, v, n) && stale == -1)
    && (code == Wild <==> !Affordable(t, p, v, n) && stale != -1)
  }

  lemma TookKeepsClear(p0: Pool, p: Pool, used: set<nat>, added: set<nat>)
    requires Took(p0, p, added) && PageBytes(used) !! FreeBytes(p0)
    ensures PageBytes(used + added) !! FreeBytes(p)
  {
    hide FreeBytes;
    PageBytesAdd(used, added);
    hide PageBytes;
  }

  lemma ReservedClear(t0: Table, p0: Pool, t: Table, p: Pool, v: nat, n: nat)
    requires Clear(t0, p0) && Reserved(t0, p0, t, p, v, n)
    ensures Clear(t, p)
  {
    hide FreeBytes, PageBytes, InSlots, Slot, AllZero, Missing, Frames, Bases;
    SubsetRest(t0.leaves.Keys, t.leaves.Keys);
    TookKeepsClear(p0, p, t0.leaves.Keys, t.leaves.Keys - t0.leaves.Keys);
  }

  lemma ReservedSlots(t0: Table, p0: Pool, t: Table, p: Pool, v: nat, n: nat)
    requires Reserved(t0, p0, t, p, v, n)
    ensures forall s: nat :: s < ENTRIES && InSlots(v, n, s) ==> Slot(t, s) != 0
  {
  }

  lemma FilledFrom(t0: Table, t1: Table, t: Table, v: nat, f: nat, n: nat, perm: nat)
    requires Sound(t0) && Extended(t0, t1, v, n) && Filled(t1, t, v, f, n, perm)
    ensures Filled(t0, t, v, f, n, perm)
  {
    hide At, Sound, Extended;
    forall w: nat | w < PAGES
      ensures At(t, w) == if v <= w < v + n then (f + (w - v)) * PAGE_SIZE + perm else At(t0, w)
    {
      ExtendedAt(t0, t1, v, n, w);
    }
  }

  lemma MapSucceeds(t0: Table, p0: Pool, t1: Table, p: Pool, t: Table, v: nat, f: nat, n: nat, perm: nat)
    requires Good(t0, p0) && Reserved(t0, p0, t1, p, v, n) && Unmapped(t0, v, n)
    requires Sound(t) && t.dir == t1.dir && t.leaves.Keys == t1.leaves.Keys
    requires Filled(t1, t, v, f, n, perm) && v + n <= PAGES && perm > 0
    ensures Good(t, p) && MapSpec(t0, p0, t, p, v, f, n, perm, Success)
  {
    hide Filled, Sound, FreeBytes, Unmapped, Missing, Valid, AllZero, InSlots, SlotUsed, Compact, Slot;
    ReservedClear(t0, p0, t1, p, v, n);
    FilledFrom(t0, t1, t, v, f, n, perm);
    SlotsSame(t, t1);
    GrownSame(t0, t1, t, v, n);
    FilledCompact(t0, t, v, f, n, perm);
  }

  lemma GrownSame(t0: Table, t1: Table, t: Table, v: nat, n: nat)
    requires Grown(t0, t1, v, n) && forall s: nat :: Slot(t, s) == Slot(t1, s)
    ensures Grown(t0, t, v, n)
  {
    hide Slot, InSlots;
  }

  lemma MapCount(t0: Table, p0: Pool, t: Table, p: Pool, v: nat, f: nat, n: nat, perm: nat)
    requires MapSpec(t0, p0, t, p, v, f, n, perm, Success)
    ensures Grown(t0, t, v, n) && p0.freeSpace == p.freeSpace + PAGE_SIZE * |Missing(t0, v, n)|
  {
    hide Filled, Unmapped, Sound, Grown, Missing, FreeBytes, PageBytes, Valid, Bases;
  }

  /** A successful mapping keeps distinct slots on distinct, nonempty tables. */
  lemma MapKeepsGood(t0: Table, p0: Pool, t: Table, p: Pool, v: nat, f: nat, n: nat, perm: nat, code: Code)
    requires Good(t0, p0) && MapSpec(t0, p0, t, p, v, f, n, perm, code) && v + n <= PAGES && perm > 0
    ensures Good(t, p)
  {
    hide Filled, Sound, FreeBytes, PageBytes, Unmapped, Valid, InSlots, SlotUsed, Compact, Slot;
    if code == Success {
      FilledCompact(t0, t, v, f, n, perm);
      SubsetRest(t0.leaves.Keys, t.leaves.Keys);
      TookKeepsClear(p0, p, t0.leaves.Keys, t.leaves.Keys - t0.leaves.Keys);
    }
  }

  /** Without a free page for the next table the mapping was unaffordable. */
  lemma MapFailsOnMemory(t0: Table, p0: Pool, t: Table, p: Pool, v: nat, i: nat, n: nat)
    requires Sound(t0) && Reserved(t0, p0, t, p, v, i) && i < n && v + n <= PAGES && Unmapped(t0, v, i)
    requires Slot(t, (v + i) / ENTRIES) == 0 && p.freeSpace == 0
    ensures !Affordable(t0, p0, v, n)
  {
    hide At, Sound, Slot, Missing, Reserved, FirstConflict, Unmapped;
    ReservedCount(t0, p0, t, p, v, i);
    NotMissingYet(t0, t, v, i);
    EmptySlotUnmapped(t0, v + i);
    FirstConflictBeyond(t0, v, n, i);
    MissingNext(t0, v, i);
    MissingGrows(t0, v, i + 1, FirstConflict(t0, v, n));
    assert |Missing(t0, v, i + 1)| == |Missing(t0, v, i)| + 1;
  }

  lemma ReservedCount(t0: Table, p0: Pool, t: Table, p: Pool, v: nat, n: nat)
    requires Reserved(t0, p0, t, p, v, n)
    ensures Extended(t0, t, v, n) && p0.freeSpace == p.freeSpace + PAGE_SIZE * |Missing(t0, v, n)|
  {
  }

  lemma EmptySlotUnmapped(t: Table, w: nat)
    requires Slot(t, w / ENTRIES) == 0
    ensures At(t, w) == 0
  {
  }

  lemma FirstConflictBeyond(t: Table, v: nat, n: nat, i: nat)
    requires i < n && Unmapped(t, v, i) && At(t, v + i) == 0
    ensures FirstConflict(t, v, n) >= i + 1
  {
    hide At, FirstConflict;
    FirstConflictStops(t, v, n);
    var c := FirstConflict(t, v, n);
    assert At(t, v + c) == 0 || c >= i;
  }

  lemma MapAfforded(t0: Table, p0: Pool, t: Table, p: Pool, v: nat, i: nat, n: nat)
    requires Reserved(t0, p0, t, p, v, i) && i <= n && Unmapped(t0, v, i) && (i < n ==> At(t0, v + i) != 0)
    ensures Affordable(t0, p0, v, n) && (Unmapped(t0, v, n) <==> i == n)
  {
    hide At, Valid, Sound, Slot, Missing, Extended;
    FirstConflictUnique(t0, v, n, i);
  }

  /** A table at a page that was not taken from the pool: two slots share it, or
      the pool is a page short of what the tables hold. */
  lemma StaleBreaks(t0: Table, p0: Pool, t: Table, p: Pool, s: nat, f: nat)
    requires Conserved(t0, p0, t, p) && s < |t.dir| && t.dir[s] == 0
    ensures !Conserved(t0, p0, AddLeaf(t, s, f), p)
  {
    if f in t.leaves {
      SharedLeaf(t, s, f);
    } else {
      UntakenLeaf(t0, p0, t, p, s, f);
    }
  }

  lemma SharedLeaf(t: Table, s: nat, f: nat)
    requires Sound(t) && s < |t.dir| && t.dir[s] == 0 && f in t.leaves
    ensures !Sound(AddLeaf(t, s, f))
  {
    assert f in Frames(t.dir);
    var r :| 0 <= r < |t.dir| && t.dir[r] >= KSEG0 && t.dir[r] - KSEG0 == f;
    hide Frames, Bases;
    var u := AddLeaf(t, s, f);
    assert u.dir[r] == u.dir[s] && u.dir[r] != 0;
  }

  lemma UntakenLeaf(t0: Table, p0: Pool, t: Table, p: Pool, s: nat, f: nat)
    requires Took(p0, p, t.leaves.Keys - t0.leaves.Keys) && t0.leaves.Keys <= t.leaves.Keys
    requires s < |t.dir| && f !in t.leaves
    ensures !Took(p0, p, AddLeaf(t, s, f).leaves.Keys - t0.leaves.Keys)
  {
    hide FreeBytes, PageBytes, Valid, Bases;
    AddLeafKeys(t0, t, s, f);
  }

  /** Rolling back an interrupted first pass restores tables and pool. */
  lemma MapNothing(t: Table, p: Pool, v: nat, f: nat, n: nat, perm: nat, code: Code)
    requires code != Success
    ensures MapSpec(t, p, t, p, v, f, n, perm, code)
  {
  }

  lemma MapRollsBack(t0: Table, p0: Pool, t1: Table, p1: Pool, t2: Table, p2: Pool, v: nat, i: nat, lo: nat, hi: nat)
    requires Good(t0, p0) && Reserved(t0, p0, t1, p1, v, i) && TrimState(t1, p1, t2, p2, lo, hi)
    requires forall s: nat :: s < ENTRIES && InSlots(v, i, s) ==> lo <= s < hi
    ensures t2 == t0 && p2 == p0
  {
    hide Extended, Trimmed, Took, Gave, Compact, Sound, Valid, FreeBytes, PageBytes, InSlots, Missing;
    TrimUndoesExtend(t0, t1, t2, v, i, lo, hi);
    GaveWhatWasTaken(p0, p1, p2, t1.leaves.Keys - t0.leaves.Keys);
  }

  // ------------------------------------------------------------------
  // What a call to unmap pages promises.

  function FrameOf(pte: nat): nat {
    pte - pte % PAGE_SIZE
  }

  /** How many of the `n` entries from `w` on equal the bare addresses `pa`,
      `pa + PAGE_SIZE` and so on. */
  function Matching(t: Table, w: nat, pa: nat, n: nat): nat
    decreases n
  {
    if n == 0 || At(t, w) != pa then 0 else 1 + Matching(t, w + 1, pa + PAGE_SIZE, n - 1)
  }

  /** Number of pages one call clears: the first always, and further ones as
      long as the whole entry, flags included, equals the expected address. */
  function UnmapCount(t: Table, v: nat, n: nat): (c: nat)
    ensures n > 0 ==> c > 0
  {
    if n == 0 then 0 else 1 + Matching(t, v + 1, FrameOf(At(t, v)) + PAGE_SIZE, n - 1)
  }

  /** The code stops the machine when it meets a slot without a leaf table. */
  predicate UnmapPanics(t: Table, v: nat, n: nat) {
    && n > 0
    && (Slot(t, v / ENTRIES) == 0
        || (UnmapCount(t, v, n) < n && Slot(t, (v + UnmapCount(t, v, n)) / ENTRIES) == 0))
  }

  /** Where the first page was mapped, 0 if there is no page. */
  function FirstFrame(t: Table, v: nat, n: nat): nat {
    if n > 0 then FrameOf(At(t, v)) else 0
  }

  ghost predicate Cleared(t0: Table, t: Table, v: nat, n: nat) {
    forall w: nat :: w < PAGES ==> At(t, w) == if v <= w < v + n then 0 else At(t0, w)
  }

  lemma ClearedNext(t0: Table, t: Table, v: nat, n: nat)
    requires Sound(t) && Cleared(t0, t, v, n) && v + n < PAGES
    requires t.dir[(v + n) / ENTRIES] != 0
    ensures (v + n) % ENTRIES < |Leaf(t, (v + n) / ENTRIES)|
    ensures Cleared(t0, SetEntry(t, v + n, 0), v, n + 1)
  {
    SetEntrySound(t, v + n, 0);
    hide At, Sound, SetEntry, Leaf;
    var u := SetEntry(t, v + n, 0);
    forall w: nat | w < PAGES ensures At(u, w) == if v <= w < v + n + 1 then 0 else At(t0, w) {
      SetEntryAt(t, v + n, 0, w);
      assert w != v + n ==> (v <= w < v + n + 1 <==> v <= w < v + n);
    }
  }

  lemma ClearedTrimmed(t0: Table, t1: Table, t2: Table, v: nat, n: nat, lo: nat, hi: nat)
    requires Sound(t1) && Cleared(t0, t1, v, n) && Trimmed(t1, t2, lo, hi)
    ensures Cleared(t0, t2, v, n)
  {
    hide At, Sound, Trimmed;
    forall w: nat | w < PAGES ensures At(t2, w) == if v <= w < v + n then 0 else At(t0, w) {
      TrimmedAt(t1, t2, lo, hi, w);
    }
  }

  /** Clearing entries and trimming their slots leaves no empty leaf table. */
  lemma TrimmedCompact(t0: Table, t1: Table, t2: Table, v: nat, n: nat, lo: nat, hi: nat)
    requires Compact(t0) && Sound(t1) && t1.dir == t0.dir && Cleared(t0, t1, v, n) && Trimmed(t1, t2, lo, hi)
    requires forall s: nat :: s < ENTRIES && InSlots(v, n, s) ==> lo <= s < hi
    ensures Compact(t2)
  {
    ClearedTrimmed(t0, t1, t2, v, n, lo, hi);
    hide At, Sound;
    forall s: nat | s < ENTRIES && Slot(t2, s) != 0 ensures SlotUsed(t2, s) {
      assert Slot(t0, s) == Slot(t1, s);
      var w: nat;
      if lo <= s < hi {
        assert SlotUsed(t1, s);
        w :| w < PAGES && w / ENTRIES == s && At(t1, w) != 0;
      } else {
        assert SlotUsed(t0, s);
        w :| w < PAGES && w / ENTRIES == s && At(t0, w) != 0;
        assert !InSlots(v, n, s);
      }
      assert At(t2, w) != 0;
    }
  }

  /** The range is cleared, a leaf table goes back to the pool exactly when that
      leaves it empty, and every other slot keeps its table. */
  ghost predicate UnmapSpec(t0: Table, p0: Pool, t: Table, p: Pool, v: nat, n: nat) {
    && Cleared(t0, t, v, n)
    && Sound(t) && t.leaves.Keys <= t0.leaves.Keys
    && Gave(p0, p, t0.leaves.Keys - t.leaves.Keys)
    && (forall s: nat :: s < ENTRIES ==>
          Slot(t, s) == if InSlots(v, n, s) && !SlotUsed(t, s) then 0 else Slot(t0, s))
  }

  /** An unmapping keeps distinct slots on distinct, nonempty tables. */
  lemma UnmapKeepsGood(t0: Table, p0: Pool, t: Table, p: Pool, v: nat, n: nat)
    requires Good(t0, p0) && UnmapSpec(t0, p0, t, p, v, n)
    ensures Good(t, p)
  {
    hide FreeBytes, PageBytes, InSlots, Frames, Slot, Gave, Valid;
    SubsetRest(t.leaves.Keys, t0.leaves.Keys);
    GaveKeepsClear(p0, p, t0.leaves.Keys, t0.leaves.Keys - t.leaves.Keys);
    UnmapCompact(t0, t, v, n);
  }

  lemma UnmapCompact(t0: Table, t: Table, v: nat, n: nat)
    requires Compact(t0) && Cleared(t0, t, v, n)
    requires forall s: nat :: s < ENTRIES ==>
      Slot(t, s) == if InSlots(v, n, s) && !SlotUsed(t, s) then 0 else Slot(t0, s)
    ensures Compact(t)
  {
    hide At, Slot;
    forall s: nat | s < ENTRIES && Slot(t, s) != 0 ensures SlotUsed(t, s) {
      if !InSlots(v, n, s) {
        var w: nat :| w < PAGES && w / ENTRIES == s && At(t0, w) != 0;
        assert At(t, w) != 0;
      }
    }
  }

  lemma GaveKeepsClear(p0: Pool, p: Pool, used: set<nat>, given: set<nat>)
    requires Gave(p0, p, given) && Bases(used) && given <= used && PageBytes(used) !! FreeBytes(p0)
    ensures PageBytes(used - given) !! FreeBytes(p) && Valid(p)
  {
    hide FreeBytes;
    PageBytesDisjoint(used - given, given);
    PageBytesAdd(used - given, given);
    assert used - given + given == used;
    hide PageBytes;
  }

  lemma UnmapSucceeds(t0: Table, p0: Pool, t1: Table, t: Table, p: Pool, v: nat, n: nat, lo: nat, hi: nat)
    requires Good(t0, p0) && Sound(t1) && t1.dir == t0.dir && t1.leaves.Keys == t0.leaves.Keys
    requires Cleared(t0, t1, v, n) && TrimState(t1, p0, t, p, lo, hi)
    requires forall s: nat :: s < ENTRIES && InSlots(v, n, s) ==> lo <= s < hi
    ensures Good(t, p) && UnmapSpec(t0, p0, t, p, v, n)
  {
    hide Cleared, Compact, FreeBytes, PageBytes, SlotUsed, InSlots, Frames, Slot, Bases, Gave;
    ClearedTrimmed(t0, t1, t, v, n, lo, hi);
    TrimmedCompact(t0, t1, t, v, n, lo, hi);
    SubsetRest(t.leaves.Keys, t0.leaves.Keys);
    GaveKeepsClear(p0, p, t0.leaves.Keys, t0.leaves.Keys - t.leaves.Keys);
    SlotsSame(t0, t1);
    forall s: nat | s < ENTRIES
      ensures Slot(t, s) == if InSlots(v, n, s) && !SlotUsed(t, s) then 0 else Slot(t0, s)
    {
      UnmapSlot(t0, t1, t, v, n, lo, hi, s);
    }
  }

  lemma UnmapSlot(t0: Table, t1: Table, t: Table, v: nat, n: nat, lo: nat, hi: nat, s: nat)
    requires Compact(t0) && Sound(t1) && Cleared(t0, t1, v, n) && Trimmed(t1, t, lo, hi) && s < ENTRIES
    requires Slot(t0, s) == Slot(t1, s) && (InSlots(v, n, s) ==> lo <= s < hi)
    ensures Slot(t, s) == if InSlots(v, n, s) && !SlotUsed(t, s) then 0 else Slot(t0, s)
  {
    hide At, Sound, Slot;
    assert SlotUsed(t, s) <==> SlotUsed(t1, s) by {
      hide SlotUsed, Trimmed;
      forall w: nat | w < PAGES ensures At(t, w) == At(t1, w) {
        TrimmedAt(t1, t, lo, hi, w);
      }
      SameUse(t, t1, s);
    }
    if !InSlots(v, n, s) && Slot(t0, s) != 0 {
      var w: nat :| w < PAGES && w / ENTRIES == s && At(t0, w) != 0;
      assert At(t1, w) != 0;
    }
  }

  lemma SameUse(t: Table, u: Table, s: nat)
    requires forall w: nat :: w < PAGES ==> At(t, w) == At(u, w)
    ensures SlotUsed(t, s) <==> SlotUsed(u, s)
  {
    hide At;
  }

  lemma SlotsSame(t0: Table, t1: Table)
    requires t0.dir == t1.dir
    ensures forall s: nat :: Slot(t0, s) == Slot(t1, s)
  {
  }

  /** Unmapping the range of one earlier mapping removes all of it exactly when
      the range is at most one page, since an entry carries flag bits and the
      test for contiguity compares it with a bare address. */
  lemma UnmapUndoesMapIff(t0: Table, t: Table, v: nat, f: nat, n: nat, perm: nat)
    requires Filled(t0, t, v, f, n, perm) && 0 < perm < PAGE_SIZE && v + n <= PAGES
    ensures UnmapCount(t, v, n) == n <==> n <= 1
    ensures n > 0 ==> UnmapCount(t, v, n) == 1
  {
    hide At;
    if n > 1 {
      assert At(t, v) == (f + (v - v)) * PAGE_SIZE + perm;
      assert At(t, v + 1) == (f + (v + 1 - v)) * PAGE_SIZE + perm;
      assert FrameOf(At(t, v)) == f * PAGE_SIZE;
    }
  }

  /** The count is the longest run of entries that equal the bare addresses
      following the first frame, for any tables and range. */
  lemma {:induction false} UnmapCountExact(t: Table, v: nat, n: nat)
    requires n > 0
    ensures var c, pa := UnmapCount(t, v, n), FrameOf(At(t, v));
      && 1 <= c <= n
      && (forall k: nat :: 0 < k < c ==> At(t, v + k) == pa + k * 0x1000)
      && (c < n ==> At(t, v + c) != pa + c * 0x1000)
  {
    hide At, FrameOf;
    MatchingExact(t, v + 1, FrameOf(At(t, v)) + PAGE_SIZE, n - 1);
    var c, pa := UnmapCount(t, v, n), FrameOf(At(t, v));
    forall k: nat | 0 < k < c ensures At(t, v + k) == pa + k * 0x1000 {
      assert At(t, v + 1 + (k - 1)) == pa + PAGE_SIZE + (k - 1) * PAGE_SIZE;
    }
  }

  lemma {:induction false} MatchingExact(t: Table, w: nat, pa: nat, n: nat)
    ensures var c := Matching(t, w, pa, n);
      && c <= n
      && (forall k: nat :: k < c ==> At(t, w + k) == pa + k * PAGE_SIZE)
      && (c < n ==> At(t, w + c) != pa + c * PAGE_SIZE)
    decreases n
  {
    hide At;
    if n > 0 && At(t, w) == pa {
      MatchingExact(t, w + 1, pa + PAGE_SIZE, n - 1);
      forall k: nat | 0 < k < Matching(t, w, pa, n) ensures At(t, w + k) == pa + k * PAGE_SIZE {
        assert At(t, w + 1 + (k - 1)) == pa + PAGE_SIZE + (k - 1) * PAGE_SIZE;
      }
    }
  }

  /** Every entry carries flag bits. */
  ghost predicate Flagged(t: Table) {
    forall w: nat :: w < PAGES && At(t, w) != 0 ==> At(t, w) % PAGE_SIZE != 0
  }

  /** Whatever separate mappings a range holds, one call clears its first page
      only, and stops the machine exactly when the first or the second page has
      no leaf table. */
  lemma UnmapsOnePage(t: Table, v: nat, n: nat)
    requires Flagged(t) && v + n <= PAGES && n > 0
    ensures UnmapCount(t, v, n) == 1
    ensures UnmapPanics(t, v, n) <==> Slot(t, v / ENTRIES) == 0 || (n > 1 && Slot(t, (v + 1) / ENTRIES) == 0)
  {
    hide At, Slot;
    if n > 1 {
      assert At(t, v + 1) == 0 || At(t, v + 1) % PAGE_SIZE != 0;
      assert FrameOf(At(t, v)) % PAGE_SIZE == 0;
    }
  }

  datatype Unmapping = Done(bytes: nat, paddr: nat) | Panic

  /** `Stale` is a leaf table at an address that was not allocated. */
  datatype Desc = Found | Created(leaf: nat) | Stale(leaf: nat) | NoEntry | NoMemory

  /** Allocates one page. With no page free the request is refused with return
      code 0, and the result is `stale`, whatever the uninitialised descriptor
      on the stack held; -1 is the error value. */
  method Pgalloc(allocator: FirstFitAllocator, stale: int) returns (addr: int)
    requires Valid(allocator.State()) && stale >= -1
    modifies allocator
    ensures old(allocator.freeSpace) > 0 ==>
      addr >= 0 && (allocator.State(), Taken(addr)) == Alloc(old(allocator.State()), PAGE_SIZE)
    ensures old(allocator.freeSpace) == 0 ==> addr == stale && allocator.State() == old(allocator.State())
  {
    ghost var p := allocator.State();
    var o := allocator.AllocPages(PAGE_SIZE);
    if ReturnCode(o) != 0 {
      // Not reached: this is where -1 would be returned.
      OnePageNeverExhausted(p);
      assert false;
    }
    OnePageNeverExhausted(p);
    addr := if o.Taken? then o.paddr else stale;
  }

  class PageIndex {
    const allocator: FirstFitAllocator
    const frame: nat
    var dir: seq<nat>
    var leaves: map<nat, seq<nat>>

    function Tables(): Table
      reads this
    {
      Table(dir, leaves)
    }

    constructor (allocator: FirstFitAllocator, frame: nat)
      ensures this.allocator == allocator && this.frame == frame
      ensures Tables() == Table(Zeros(), map[])
    {
      this.allocator, this.frame := allocator, frame;
      dir, leaves := Zeros(), map[];
    }

    /** A zeroed directory page. It is a page taken from the pool exactly when
        there was one; null is the result only if the stale address is -1. */
    static method InitPgindex(allocator: FirstFitAllocator, stale: int) returns (index: PageIndex?)
      requires Valid(allocator.State()) && stale >= -1
      modifies allocator
      ensures index == null <==> old(allocator.freeSpace) == 0 && stale == -1
      ensures index == null ==> allocator.State() == old(allocator.State())
      ensures index != null ==>
        && fresh(index) && index.allocator == allocator && index.Tables() == EMPTY
        && (Took(old(allocator.State()), allocator.State(), {index.frame}) <==> old(allocator.freeSpace) > 0)
      ensures index != null && old(allocator.freeSpace) == 0 ==>
        index.frame == stale && allocator.State() == old(allocator.State())
    {
      ghost var p0 := allocator.State();
      var addr := Pgalloc(allocator, stale);
      if addr == -1 {
        return null;
      }
      if p0.freeSpace > 0 {
        TookNothing(p0);
        TakeOne(p0, p0, {});
        assert {} + {addr} == {addr};
      }
      index := new PageIndex(allocator, addr);
    }

    /** Returns the directory page and nothing else. */
    method Destroy()
      modifies allocator
      ensures allocator.State() == Free(old(allocator.State()), Extent(frame, PAGE_SIZE))
    {
      allocator.FreePages(Extent(frame, PAGE_SIZE));
    }

    /** Looks up or creates the leaf table of page `v`. */
    method GetPageDesc(v: nat, create: bool, stale: int) returns (d: Desc)
      requires v < PAGES && |dir| == ENTRIES && Valid(allocator.State()) && stale >= -1
      modifies this, allocator
      ensures d.Found? <==> Slot(old(Tables()), v / ENTRIES) != 0
      ensures d.NoEntry? <==> Slot(old(Tables()), v / ENTRIES) == 0 && !create
      ensures d.NoMemory? || d.Stale? ==> old(allocator.freeSpace) == 0 && allocator.State() == old(allocator.State())
      ensures d.NoMemory? ==> stale == -1
      ensures d.Stale? ==> d.leaf == stale && Tables() == AddLeaf(old(Tables()), v / ENTRIES, stale)
      ensures d.Created? ==> Tables() == AddLeaf(old(Tables()), v / ENTRIES, d.leaf)
      ensures d.Created? ==> (allocator.State(), Taken(d.leaf)) == Alloc(old(allocator.State()), PAGE_SIZE)
      ensures d.Found? || d.NoEntry? || d.NoMemory? ==>
        Tables() == old(Tables()) && allocator.State() == old(allocator.State())
    {
      if dir[v / ENTRIES] != 0 {
        return Found;
      }
      if !create {
        return NoEntry;
      }
      var backed := allocator.freeSpace > 0;
      var addr := Pgalloc(allocator, stale);
      if addr == -1 {
        return NoMemory;
      }
      leaves := leaves[addr := Zeros()];
      dir := dir[v / ENTRIES := addr + KSEG0];
      d := if backed then Created(addr) else Stale(addr);
    }

    /** First pass of a mapping: allocate leaf tables and look for conflicts.
        `Wild` is returned as soon as a table was put at a stale address. */
    method Reserve(v: nat, n: nat, stale: int) returns (code: Code, i: nat)
      requires Clear(Tables(), allocator.State()) && v + n <= PAGES && stale >= -1
      modifies this, allocator
      ensures i <= n
      ensures code != Wild ==> Reserved(old(Tables()), old(allocator.State()), Tables(), allocator.State(), v, i)
      ensures code == Success || code == EEXIST ==> Affordable(old(Tables()), old(allocator.State()), v, n)
      ensures code == ENOMEM || code == Wild ==> !Affordable(old(Tables()), old(allocator.State()), v, n)
      ensures code == Success ==> i == n && Unmapped(old(Tables()), v, n)
      ensures code == EEXIST ==> !Unmapped(old(Tables()), v, n)
      ensures code == ENOMEM ==> stale == -1
      ensures code == Wild ==> stale >= 0 && allocator.freeSpace == 0
      ensures code == Wild ==> !Conserved(old(Tables()), old(allocator.State()), Tables(), allocator.State())
      ensures code != EINVAL
    {
      hide Reserved, Sound, At, Valid, Slot, FreeBytes, PageBytes, Alloc, AddLeaf, Affordable, Conserved;
      ghost var t0, p0 := Tables(), allocator.State();
      ReservedNothing(t0, p0, v);
      i := 0;
      while i < n
        invariant i <= n
        invariant Reserved(t0, p0, Tables(), allocator.State(), v, i)
        invariant Unmapped(t0, v, i)
      {
        ghost var t, p := Tables(), allocator.State();
        ReservedParts(t0, p0, t, p, v, i);
        SoundSize(t);
        var d := GetPageDesc(v + i, true, stale);
        if d.NoMemory? {
          MapFailsOnMemory(t0, p0, t, p, v, i, n);
          return ENOMEM, i;
        }
        if d.Stale? {
          MapFailsOnMemory(t0, p0, t, p, v, i, n);
          SlotEntry(t, (v + i) / ENTRIES);
          StaleBreaks(t0, p0, t, p, (v + i) / ENTRIES, stale);
          return Wild, i;
        }
        if d.Created? {
          ReservedCreated(t0, p0, t, p, v, i, allocator.State(), d.leaf);
        } else {
          ReservedFound(t0, p0, t, p, v, i);
        }
        ReservedEntry(t0, p0, Tables(), allocator.State(), v, i + 1, v + i);
        CreatedEntry(t0, p0, t, p, v, i, d);
        if At(Tables(), v + i) != 0 {
          MapAfforded(t0, p0, t, p, v, i, n);
          return EEXIST, i;
        }
        i := i + 1;
      }
      MapAfforded(t0, p0, Tables(), allocator.State(), v, n, n);
      code := Success;
    }

    /** The scan of one leaf table. */
    static method IsZero(leaf: seq<nat>) returns (zero: bool)
      ensures zero <==> AllZero(leaf)
    {
      for i := 0 to |leaf|
        invariant forall k :: 0 <= k < i ==> leaf[k] == 0
      {
        if leaf[i] != 0 {
          return false;
        }
      }
      zero := true;
    }

    /** Frees the empty leaf tables of slots `lo` up to `hi`. */
    method FreeIntermediate(lo: nat, hi: nat)
      requires Clear(Tables(), allocator.State()) && hi <= ENTRIES
      modifies this, allocator
      ensures TrimState(old(Tables()), old(allocator.State()), Tables(), allocator.State(), lo, hi)
    {
      hide TrimState, Sound, Valid, Slot, FreeBytes, PageBytes, Free, SlotUsed, AllZero;
      ghost var t0, p0 := Tables(), allocator.State();
      if hi <= lo {
        TrimStateNothing(t0, p0, lo, hi);
        return;
      }
      TrimStateNothing(t0, p0, lo, lo);
      var s := lo;
      while s < hi
        invariant lo <= s <= hi
        invariant TrimState(t0, p0, Tables(), allocator.State(), lo, s)
      {
        ghost var t, p := Tables(), allocator.State();
        TrimStateParts(t0, p0, t, p, lo, s);
        var zero := false;
        if dir[s] != 0 {
          zero := IsZero(Leaf(Tables(), s));
        }
        if zero {
          TrimStateDrop(t0, p0, t, p, lo, s);
          allocator.FreePages(Extent(dir[s] - KSEG0, PAGE_SIZE));
          leaves := leaves - {dir[s] - KSEG0};
          dir := dir[s := 0];
        } else {
          TrimStateSkip(t0, p0, t, p, lo, s);
        }
        s := s + 1;
      }
    }

    /** Second pass of a mapping. */
    method Fill(v: nat, f: nat, n: nat, perm: nat)
      requires Sound(Tables()) && v + n <= PAGES
      requires forall s: nat :: s < ENTRIES && InSlots(v, n, s) ==> Slot(Tables(), s) != 0
      modifies this
      ensures Sound(Tables()) && dir == old(dir) && leaves.Keys == old(leaves).Keys
      ensures Filled(old(Tables()), Tables(), v, f, n, perm)
    {
      hide Filled, Sound, Frames, Leaf, SetEntry, At, InSlots, Slot;
      ghost var t0 := Tables();
      FilledNothing(t0, v, f, perm);
      var i := 0;
      while i < n
        invariant i <= n
        invariant Sound(Tables()) && dir == old(dir) && leaves.Keys == old(leaves).Keys
        invariant Filled(t0, Tables(), v, f, i, perm)
      {
        SlotInRange(v, n, i);
        FillReady(t0, Tables(), v, i);
        FilledNext(t0, Tables(), v, f, i, perm);
        SetEntrySound(Tables(), v + i, (f + i) * PAGE_SIZE + perm);
        SetEntryDir(Tables(), v + i, (f + i) * PAGE_SIZE + perm);
        leaves := SetEntry(Tables(), v + i, (f + i) * PAGE_SIZE + perm).leaves;
        i := i + 1;
      }
    }

    method MapPages(vaddr: nat, paddr: nat, size: nat, flags: nat, stale: int) returns (code: Code)
      requires Good(Tables(), allocator.State()) && stale >= -1
      requires vaddr + size <= PAGES * PAGE_SIZE && paddr + size <= PAGES * PAGE_SIZE
      modifies this, allocator
      ensures code == EINVAL <==> !(vaddr % PAGE_SIZE == 0 && paddr % PAGE_SIZE == 0 && size % PAGE_SIZE == 0)
      ensures code != EINVAL ==>
        MapOutcome(old(Tables()), old(allocator.State()), vaddr / PAGE_SIZE, size / PAGE_SIZE, stale, code)
      ensures code == Wild ==> !Conserved(old(Tables()), old(allocator.State()), Tables(), allocator.State())
      ensures code != Wild ==> Good(Tables(), allocator.State())
      ensures code != Wild ==>
        MapSpec(old(Tables()), old(allocator.State()), Tables(), allocator.State(),
                vaddr / PAGE_SIZE, paddr / PAGE_SIZE, size / PAGE_SIZE, Perm(flags), code)
    {
      if !(paddr % PAGE_SIZE == 0 && size % PAGE_SIZE == 0 && vaddr % PAGE_SIZE == 0) {
        return EINVAL;
      }
      code := MapRange(vaddr / PAGE_SIZE, paddr / PAGE_SIZE, size / PAGE_SIZE, Perm(flags), stale);
    }

    /** The two passes and the rollback, for `n` pages. */
    method MapRange(v: nat, f: nat, n: nat, perm: nat, stale: int) returns (code: Code)
      requires Good(Tables(), allocator.State()) && v + n <= PAGES && perm > 0 && stale >= -1
      modifies this, allocator
      ensures code != EINVAL
      ensures MapOutcome(old(Tables()), old(allocator.State()), v, n, stale, code)
      ensures code == Wild ==> !Conserved(old(Tables()), old(allocator.State()), Tables(), allocator.State())
      ensures code != Wild ==> Good(Tables(), allocator.State())
      ensures code != Wild ==>
        MapSpec(old(Tables()), old(allocator.State()), Tables(), allocator.State(), v, f, n, perm, code)
    {
      hide Sound, Reserved, Clear, Compact, Filled, TrimState, Affordable, InSlots, Slot, Conserved, Unmapped, Good, MapSpec;
      hide FreeBytes, Valid;
      ghost var t0, p0 := Tables(), allocator.State();
      GoodParts(t0, p0);
      var i;
      code, i := Reserve(v, n, stale);
      if code == Wild {
        return;
      }
      ghost var t1, p1 := Tables(), allocator.State();
      ReservedParts(t0, p0, t1, p1, v, i);
      ReservedClear(t0, p0, t1, p1, v, i);
      if code == Success {
        ReservedSlots(t0, p0, t1, p1, v, n);
        Fill(v, f, n, perm);
        MapSucceeds(t0, p0, t1, p1, Tables(), v, f, n, perm);
      } else {
        var last := LastSlot(v, i);
        FreeIntermediate(v / ENTRIES, last + 1);
        RollbackCovers(v, i);
        MapRollsBack(t0, p0, t1, p1, Tables(), allocator.State(), v, i, v / ENTRIES, last + 1);
        MapNothing(t0, p0, v, f, n, perm, code);
      }
    }

    method UnmapPages(vaddr: nat, size: nat) returns (r: Unmapping)
      requires Good(Tables(), allocator.State())
      requires vaddr % PAGE_SIZE == 0 && size % PAGE_SIZE == 0 && vaddr + size < PAGES * PAGE_SIZE
      modifies this, allocator
      ensures r.Panic? <==> UnmapPanics(old(Tables()), vaddr / PAGE_SIZE, size / PAGE_SIZE)
      ensures r.Done? ==>
        var c := UnmapCount(old(Tables()), vaddr / PAGE_SIZE, size / PAGE_SIZE);
        && Good(Tables(), allocator.State())
        && r.bytes == c * PAGE_SIZE
        && r.paddr == FirstFrame(old(Tables()), vaddr / PAGE_SIZE, size / PAGE_SIZE)
        && UnmapSpec(old(Tables()), old(allocator.State()), Tables(), allocator.State(), vaddr / PAGE_SIZE, c)
    {
      hide Good, UnmapSpec, UnmapCount, UnmapPanics, FirstFrame, Sound, Clear, TrimState, Cleared;
      var v, n := vaddr / PAGE_SIZE, size / PAGE_SIZE;
      ghost var t0, p0 := Tables(), allocator.State();
      GoodParts(t0, p0);
      var i, paddr, panic := ClearRun(v, n);
      if panic {
        return Panic;
      }
      ghost var t1 := Tables();
      ClearKept(t0, t1, p0);
      FreeIntermediate(v / ENTRIES, LastSlot(v, i) + 1);
      RollbackCovers(v, i);
      UnmapSucceeds(t0, p0, t1, Tables(), allocator.State(), v, i, v / ENTRIES, LastSlot(v, i) + 1);
      r := Done(i * PAGE_SIZE, paddr);
    }

    /** The loop of `UnmapPages`. */
    method ClearRun(v: nat, n: nat) returns (i: nat, paddr: nat, panic: bool)
      requires Sound(Tables()) && v + n <= PAGES
      modifies this
      ensures panic <==> UnmapPanics(old(Tables()), v, n)
      ensures !panic ==> i == UnmapCount(old(Tables()), v, n) && paddr == FirstFrame(old(Tables()), v, n)
      ensures i <= n
      ensures Sound(Tables()) && dir == old(dir) && leaves.Keys == old(leaves).Keys
      ensures Cleared(old(Tables()), Tables(), v, i)
    {
      hide Sound, At, FrameOf, Leaf, SetEntry, Cleared, Clearing, UnmapPanics, UnmapCount, FirstFrame;
      ghost var t0 := Tables();
      i, paddr, panic := 0, 0, false;
      var pcur: nat := 0;
      ClearedNone(t0, v);
      ClearingStarts(t0, v, n);
      while i < n
        invariant i <= n && !panic
        invariant Sound(Tables()) && dir == old(dir) && leaves.Keys == old(leaves).Keys
        invariant Cleared(t0, Tables(), v, i) && Clearing(t0, v, n, i, paddr, pcur)
      {
        ClearedBeyond(t0, Tables(), v, i);
        SoundSize(Tables());
        if dir[(v + i) / ENTRIES] == 0 {
          ClearingPanics(t0, v, n, i, paddr, pcur);
          return i, paddr, true;
        }
        var entry := At(Tables(), v + i);
        ClearingNext(t0, v, n, i, paddr, pcur);
        if i == 0 {
          pcur := FrameOf(entry);
          paddr := pcur;
        } else if entry != pcur {
          return;
        }
        ClearedNext(t0, Tables(), v, i);
        SetEntrySound(Tables(), v + i, 0);
        SetEntryDir(Tables(), v + i, 0);
        leaves := SetEntry(Tables(), v + i, 0).leaves;
        i, pcur := i + 1, pcur + PAGE_SIZE;
      }
      ClearingDone(t0, v, n, paddr, pcur);
    }
  }

  /** After `i` pages of the run, the next one expected at `pcur`. */
  ghost predicate Clearing(t: Table, v: nat, n: nat, i: nat, paddr: nat, pcur: nat) {
    && i <= n
    && if i == 0 then paddr == 0
       else
         && paddr == FrameOf(At(t, v)) && pcur > 0 && Slot(t, v / ENTRIES) != 0
         && UnmapCount(t, v, n) == i + Matching(t, v + i, pcur, n - i)
  }

  lemma ClearingStarts(t: Table, v: nat, n: nat)
    ensures Clearing(t, v, n, 0, 0, 0)
  {
  }

  lemma ClearingPanics(t: Table, v: nat, n: nat, i: nat, paddr: nat, pcur: nat)
    requires Clearing(t, v, n, i, paddr, pcur) && i < n && Slot(t, (v + i) / ENTRIES) == 0
    ensures UnmapPanics(t, v, n)
  {
    hide At, FrameOf, Slot, UnmapCount;
    if i > 0 {
      MatchingMissing(t, v + i, pcur, n - i);
    }
  }

  lemma ClearingNext(t: Table, v: nat, n: nat, i: nat, paddr: nat, pcur: nat)
    requires Clearing(t, v, n, i, paddr, pcur) && i < n && Slot(t, (v + i) / ENTRIES) != 0
    ensures i == 0 ==> Clearing(t, v, n, 1, FrameOf(At(t, v)), FrameOf(At(t, v)) + PAGE_SIZE)
    ensures i > 0 && At(t, v + i) == pcur ==> Clearing(t, v, n, i + 1, paddr, pcur + PAGE_SIZE)
    ensures i > 0 && At(t, v + i) != pcur ==>
      i == UnmapCount(t, v, n) && paddr == FirstFrame(t, v, n) && !UnmapPanics(t, v, n)
  {
    hide At, FrameOf, Slot, UnmapCount, Matching;
    UnmapCountFirst(t, v, n);
    MatchingStep(t, v + i, pcur, n - i);
  }

  lemma ClearingDone(t: Table, v: nat, n: nat, paddr: nat, pcur: nat)
    requires Clearing(t, v, n, n, paddr, pcur)
    ensures n == UnmapCount(t, v, n) && paddr == FirstFrame(t, v, n) && !UnmapPanics(t, v, n)
  {
    hide At, FrameOf, Slot;
  }

  lemma ClearedNone(t: Table, v: nat)
    ensures Cleared(t, t, v, 0)
  {
  }

  /** Makes the calls one after the other, up to the first that does not survive;
      `done` says how many did. The ghost results are the state before the call
      that did not. */
  method MakeCalls(index: PageIndex, calls: seq<Call>) returns (done: nat, ghost t: Table, ghost p: Pool)
    requires Good(index.Tables(), index.allocator.State())
    requires forall i :: 0 <= i < |calls| ==> InRange(calls[i])
    modifies index, index.allocator
    ensures done <= |calls|
    ensures CallRun(old(index.Tables()), old(index.allocator.State()), calls[..done], t, p)
    ensures done < |calls| ==> !Survives(t, p, calls[done])
    ensures done == |calls| ==> t == index.Tables() && p == index.allocator.State() && Good(t, p)
  {
    hide Good, CallStep, CallRun, Survives;
    t, p, done := index.Tables(), index.allocator.State(), 0;
    ghost var t0, p0 := t, p;
    CallRunNone(t0, p0, calls);
    while done < |calls|
      invariant done <= |calls| && t == index.Tables() && p == index.allocator.State() && Good(t, p)
      invariant CallRun(t0, p0, calls[..done], t, p)
    {
      var well := MakeCall(index, calls[done]);
      if !well {
        return;
      }
      CallRunNext(t0, p0, calls, done, t, p, index.Tables(), index.allocator.State());
      t, p, done := index.Tables(), index.allocator.State(), done + 1;
    }
  }

  /** One call. It does what it promises exactly when it survives. */
  method MakeCall(index: PageIndex, call: Call) returns (well: bool)
    requires Good(index.Tables(), index.allocator.State()) && InRange(call)
    modifies index, index.allocator
    ensures well <==> Survives(old(index.Tables()), old(index.allocator.State()), call)
    ensures well ==>
      && Good(index.Tables(), index.allocator.State())
      && CallStep(old(index.Tables()), old(index.allocator.State()), call, index.Tables(), index.allocator.State())
  {
    hide Good, CallStep, Survives, InRange;
    match call {
      case MapCall(_, _, _, _, _) => well := MakeMapCall(index, call);
      case UnmapCall(_, _) => well := MakeUnmapCall(index, call);
    }
  }

  method MakeMapCall(index: PageIndex, call: Call) returns (well: bool)
    requires Good(index.Tables(), index.allocator.State()) && InRange(call) && call.MapCall?
    modifies index, index.allocator
    ensures well <==> Survives(old(index.Tables()), old(index.allocator.State()), call)
    ensures well ==>
      && Good(index.Tables(), index.allocator.State())
      && CallStep(old(index.Tables()), old(index.allocator.State()), call, index.Tables(), index.allocator.State())
  {
    hide Good, CallStep, Survives, MapSpec, MapOutcome, Conserved, Perm, InPages;
    var vaddr, paddr, size := call.v * PAGE_SIZE, call.f * PAGE_SIZE, call.n * PAGE_SIZE;
    CallInPages(call);
    var code := index.MapPages(vaddr, paddr, size, call.flags, call.stale);
    PagesBack(vaddr, call.v);
    PagesBack(paddr, call.f);
    PagesBack(size, call.n);
    MapCallStep(old(index.Tables()), old(index.allocator.State()), call, index.Tables(), index.allocator.State(), code);
    well := code != Wild;
  }

  method MakeUnmapCall(index: PageIndex, call: Call) returns (well: bool)
    requires Good(index.Tables(), index.allocator.State()) && InRange(call) && call.UnmapCall?
    modifies index, index.allocator
    ensures well <==> Survives(old(index.Tables()), old(index.allocator.State()), call)
    ensures well ==>
      && Good(index.Tables(), index.allocator.State())
      && CallStep(old(index.Tables()), old(index.allocator.State()), call, index.Tables(), index.allocator.State())
  {
    hide Good, CallStep, UnmapSpec, UnmapPanics, UnmapCount, FirstFrame;
    var r := index.UnmapPages(call.v * PAGE_SIZE, call.n * PAGE_SIZE);
    well := r.Done?;
    if well {
      UnmapCallStep(old(index.Tables()), old(index.allocator.State()), call, index.Tables(), index.allocator.State());
    }
  }

  predicate InPages(addr: nat, page: nat) {
    addr % PAGE_SIZE == 0 && addr / PAGE_SIZE == page
  }

  lemma PagesBack(addr: nat, page: nat)
    requires InPages(addr, page)
    ensures addr % PAGE_SIZE == 0 && addr / PAGE_SIZE == page
  {
  }

  lemma CallInPages(call: Call)
    requires call.MapCall? && InRange(call)
    ensures InPages(call.v * PAGE_SIZE, call.v) && InPages(call.f * PAGE_SIZE, call.f) && InPages(call.n * PAGE_SIZE, call.n)
    ensures call.v * PAGE_SIZE + call.n * PAGE_SIZE <= PAGES * PAGE_SIZE
    ensures call.f * PAGE_SIZE + call.n * PAGE_SIZE <= PAGES * PAGE_SIZE
  {
  }

  lemma MapCallStep(t: Table, p: Pool, call: Call, t': Table, p': Pool, code: Code)
    requires call.MapCall? && InRange(call) && MapOutcome(t, p, call.v, call.n, call.stale, code)
    requires code != Wild ==> MapSpec(t, p, t', p', call.v, call.f, call.n, Perm(call.flags), code)
    ensures code != Wild <==> Survives(t, p, call)
    ensures code != Wild ==> CallStep(t, p, call, t', p')
  {
    hide MapSpec, Affordable, Unmapped, Perm;
  }

  lemma UnmapCallStep(t: Table, p: Pool, call: Call, t': Table, p': Pool)
    requires call.UnmapCall? && InRange(call) && !UnmapPanics(t, call.v, call.n)
    requires UnmapSpec(t, p, t', p', call.v, UnmapCount(t, call.v, call.n))
    ensures CallStep(t, p, call, t', p')
  {
    hide UnmapSpec, UnmapCount, UnmapPanics;
  }

  lemma SetEntryDir(t: Table, v: nat, e: nat)
    requires v % ENTRIES < |Leaf(t, v / ENTRIES)|
    ensures SetEntry(t, v, e).dir == t.dir
  {
  }

  lemma MatchingStep(t: Table, w: nat, pa: nat, n: nat)
    requires n > 0
    ensures Matching(t, w, pa, n) == if At(t, w) == pa then 1 + Matching(t, w + 1, pa + PAGE_SIZE, n - 1) else 0
  {
  }

  lemma UnmapCountFirst(t: Table, v: nat, n: nat)
    requires n > 0
    ensures UnmapCount(t, v, n) == 1 + Matching(t, v + 1, FrameOf(At(t, v)) + PAGE_SIZE, n - 1)
  {
  }

  lemma MatchingMissing(t: Table, w: nat, pa: nat, n: nat)
    requires Slot(t, w / ENTRIES) == 0 && pa > 0
    ensures Matching(t, w, pa, n) == 0
  {
  }

  lemma ClearKept(t0: Table, t1: Table, p: Pool)
    requires Clear(t0, p) && Sound(t1) && t1.leaves.Keys == t0.leaves.Keys
    ensures Clear(t1, p)
  {
  }

  lemma ClearedBeyond(t0: Table, t: Table, v: nat, i: nat)
    requires Cleared(t0, t, v, i) && v + i < PAGES
    ensures At(t, v + i) == At(t0, v + i)
  {
  }

  /** Slot of the last page of `n` pages from `v`; address arithmetic wraps
      around for no pages at address 0. */
  function LastSlot(v: nat, n: nat): (s: nat)
    requires v + n <= PAGES
    ensures s < ENTRIES
  {
    if v + n == 0 then ENTRIES - 1 else (v + n - 1) / ENTRIES
  }

  lemma RollbackCovers(v: nat, n: nat)
    requires v + n <= PAGES
    ensures forall s: nat :: s < ENTRIES && InSlots(v, n, s) ==> v / ENTRIES <= s < LastSlot(v, n) + 1
  {
  }

  lemma GoodParts(t: Table, p: Pool)
    requires Good(t, p)
    ensures Sound(t) && Clear(t, p)
  {
  }

  lemma FilledNothing(t: Table, v: nat, f: nat, perm: nat)
    ensures Filled(t, t, v, f, 0, perm)
  {
  }

  lemma SlotInRange(v: nat, n: nat, i: nat)
    requires i < n && v + n <= PAGES
    ensures (v + i) / ENTRIES < ENTRIES && InSlots(v, n, (v + i) / ENTRIES)
  {
  }

  lemma FillReady(t0: Table, t: Table, v: nat, i: nat)
    requires Sound(t) && t.dir == t0.dir && v + i < PAGES && Slot(t0, (v + i) / ENTRIES) != 0
    ensures (v + i) / ENTRIES < |t.dir| && t.dir[(v + i) / ENTRIES] != 0
  {
  }

  lemma CreatedEntry(t0: Table, p0: Pool, t: Table, p: Pool, v: nat, n: nat, d: Desc)
    requires Sound(t0) && Reserved(t0, p0, t, p, v, n) && v + n < PAGES
    requires !d.Found? ==> Slot(t, (v + n) / ENTRIES) == 0
    ensures !d.Found? ==> At(t0, v + n) == 0
  {
    if !d.Found? {
      ReservedEntry(t0, p0, t, p, v, n, v + n);
    }
  }

  // ------------------------------------------------------------------
  // Runs of mapping and unmapping from an empty table.

  const EMPTY: Table := Table(Zeros(), map[])

  lemma EmptyGood(p: Pool)
    requires Valid(p)
    ensures Good(EMPTY, p)
  {
    assert Frames(EMPTY.dir) == {};
    assert PageBytes({}) == {};
  }

  datatype Call = MapCall(v: nat, f: nat, n: nat, flags: nat, stale: int) | UnmapCall(v: nat, n: nat)

  /** Addresses in range: what callers owe. */
  predicate InRange(call: Call) {
    match call
    case MapCall(v, f, n, _, stale) => stale >= -1 && v + n <= PAGES && f + n <= PAGES
    case UnmapCall(v, n) => v + n < PAGES
  }

  /** The call neither puts a table at a stale address nor stops the machine. */
  ghost predicate Survives(t: Table, p: Pool, call: Call) {
    match call
    case MapCall(v, _, n, _, stale) => Affordable(t, p, v, n) || stale == -1
    case UnmapCall(v, n) => !UnmapPanics(t, v, n)
  }

  /** What one call does, as promised by `MapRange` and `UnmapPages`. */
  ghost predicate CallStep(t: Table, p: Pool, call: Call, t': Table, p': Pool) {
    && InRange(call) && Survives(t, p, call)
    && match call
       case MapCall(v, f, n, flags, stale) =>
         exists code :: MapOutcome(t, p, v, n, stale, code) && MapSpec(t, p, t', p', v, f, n, Perm(flags), code)
       case UnmapCall(v, n) => UnmapSpec(t, p, t', p', v, UnmapCount(t, v, n))
  }

  ghost predicate CallRun(t: Table, p: Pool, calls: seq<Call>, t': Table, p': Pool)
    decreases |calls|
  {
    if calls == [] then t == t' && p == p'
    else
      var n := |calls| - 1;
      exists tm, pm :: CallRun(t, p, calls[..n], tm, pm) && CallStep(tm, pm, calls[n], t', p')
  }

  lemma CallConserves(p0: Pool, t: Table, p: Pool, call: Call, t': Table, p': Pool)
    requires Took(p0, p, t.leaves.Keys) && CallStep(t, p, call, t', p')
    ensures Took(p0, p', t'.leaves.Keys)
  {
    hide Took, Gave, Filled, Cleared, Slot, Unmapped, Affordable, UnmapCount, UnmapPanics, Sound, Grown, MapOutcome;
    match call
    case MapCall(v, f, n, flags, stale) =>
      var code :| MapOutcome(t, p, v, n, stale, code) && MapSpec(t, p, t', p', v, f, n, Perm(flags), code);
      if code == Success {
        SubsetRest(t.leaves.Keys, t'.leaves.Keys);
        TookMore(p0, p, p', t.leaves.Keys, t'.leaves.Keys - t.leaves.Keys);
      }
    case UnmapCall(v, n) =>
      SubsetRest(t'.leaves.Keys, t.leaves.Keys);
      TookLess(p0, p, p', t.leaves.Keys, t.leaves.Keys - t'.leaves.Keys);
  }

  lemma CallKeepsGood(t: Table, p: Pool, call: Call, t': Table, p': Pool)
    requires Good(t, p) && CallStep(t, p, call, t', p')
    ensures Good(t', p')
  {
    hide Good, MapSpec, UnmapSpec, Affordable, UnmapCount, UnmapPanics, MapOutcome, Perm;
    match call
    case MapCall(v, f, n, flags, stale) =>
      var code :| MapOutcome(t, p, v, n, stale, code) && MapSpec(t, p, t', p', v, f, n, Perm(flags), code);
      MapKeepsGood(t, p, t', p', v, f, n, Perm(flags), code);
    case UnmapCall(v, n) =>
      UnmapKeepsGood(t, p, t', p', v, UnmapCount(t, v, n));
  }

  /** Every run of calls that survive keeps distinct slots on distinct tables
      and no table all zero, and the pool lacks exactly the tables' pages. */
  lemma {:induction false} RunConserves(p0: Pool, t: Table, p: Pool, calls: seq<Call>, t': Table, p': Pool)
    requires Good(t, p) && Took(p0, p, t.leaves.Keys) && CallRun(t, p, calls, t', p')
    ensures Good(t', p') && Took(p0, p', t'.leaves.Keys)
    decreases |calls|
  {
    hide Took, Good, CallStep;
    if calls != [] {
      var n := |calls| - 1;
      var tm, pm :| CallRun(t, p, calls[..n], tm, pm) && CallStep(tm, pm, calls[n], t', p');
      RunConserves(p0, t, p, calls[..n], tm, pm);
      CallConserves(p0, tm, pm, calls[n], t', p');
      CallKeepsGood(tm, pm, calls[n], t', p');
    }
  }

  lemma CallFlagged(t: Table, p: Pool, call: Call, t': Table, p': Pool)
    requires Flagged(t) && CallStep(t, p, call, t', p')
    ensures Flagged(t')
  {
    hide At, Took, Gave, Slot, Unmapped, Affordable, UnmapCount, UnmapPanics, Sound, Grown, MapOutcome;
    hide Conserved, Missing, Perm;
    match call
    case MapCall(v, f, n, flags, stale) =>
      var code :| MapOutcome(t, p, v, n, stale, code) && MapSpec(t, p, t', p', v, f, n, Perm(flags), code);
      forall w: nat | w < PAGES && At(t', w) != 0 ensures At(t', w) % PAGE_SIZE != 0 {
        FrameAndFlags(f + (w - v), Perm(flags));
      }
    case UnmapCall(v, n) =>
  }

  lemma FrameAndFlags(frame: int, perm: nat)
    requires 0 < perm < PAGE_SIZE
    ensures (frame * PAGE_SIZE + perm) % PAGE_SIZE != 0
  {
  }

  lemma {:induction false} RunFlagged(t: Table, p: Pool, calls: seq<Call>, t': Table, p': Pool)
    requires Flagged(t) && CallRun(t, p, calls, t', p')
    ensures Flagged(t')
    decreases |calls|
  {
    hide Flagged, CallStep;
    if calls != [] {
      var n := |calls| - 1;
      var tm, pm :| CallRun(t, p, calls[..n], tm, pm) && CallStep(tm, pm, calls[n], t', p');
      RunFlagged(t, p, calls[..n], tm, pm);
      CallFlagged(tm, pm, calls[n], t', p');
    }
  }

  /** In every run from an empty table an unmapping clears one page per call,
      whatever mappings its range holds. */
  lemma RunUnmapsOnePage(p0: Pool, calls: seq<Call>, t: Table, p: Pool, v: nat, n: nat)
    requires CallRun(EMPTY, p0, calls, t, p) && v + n <= PAGES && n > 0
    ensures UnmapCount(t, v, n) == 1
    ensures UnmapPanics(t, v, n) <==> Slot(t, v / ENTRIES) == 0 || (n > 1 && Slot(t, (v + 1) / ENTRIES) == 0)
  {
    hide CallRun, UnmapCount, UnmapPanics, Slot;
    RunFlagged(EMPTY, p0, calls, t, p);
    UnmapsOnePage(t, v, n);
  }

  /** After a mapping the walk finds, for every address in the range, the right
      frame with the right bits. */
  lemma MappedWalks(t0: Table, p0: Pool, t: Table, p: Pool, v: nat, f: nat, n: nat, flags: nat, addr: nat)
    requires MapSpec(t0, p0, t, p, v, f, n, Perm(flags), Success)
    requires v + n <= PAGES && v * 0x1000 <= addr < (v + n) * 0x1000
    ensures Sound(t)
    ensures var e := Refill(t, addr);
      && e / 0x1000 == f + (addr / 0x1000 - v)
      && e % 0x40 == 0 && e / 0x40 % 2 == 1 && e / 0x80 % 2 == 1 && e / 0x200 % 8 == 3
      && (e / 0x100 % 2 == 1 <==> flags / 2 % 2 == 1)
  {
    hide At, Sound, Perm, Took, Slot, Missing, Refill;
    RefillIsAt(t, addr);
    PermBits(flags);
    EntryFields(f + (addr / 0x1000 - v), Perm(flags));
  }

  lemma EntryFields(frame: nat, perm: nat)
    requires perm < 0x1000
    ensures var e := frame * 0x1000 + perm;
      && e / 0x1000 == frame && e % 0x40 == perm % 0x40
      && e / 0x40 % 2 == perm / 0x40 % 2 && e / 0x80 % 2 == perm / 0x80 % 2
      && e / 0x100 % 2 == perm / 0x100 % 2 && e / 0x200 % 8 == perm / 0x200 % 8
  {
    LowField(frame, perm);
    GlobalField(frame, perm);
    ValidField(frame, perm);
    DirtyField(frame, perm);
    CacheField(frame, perm);
  }

  lemma LowField(frame: nat, perm: nat)
    requires perm < 0x1000
    ensures (frame * 0x1000 + perm) / 0x1000 == frame && (frame * 0x1000 + perm) % 0x40 == perm % 0x40
  {
  }

  lemma GlobalField(frame: nat, perm: nat)
    ensures (frame * 0x1000 + perm) / 0x40 % 2 == perm / 0x40 % 2
  {
    assert (frame * 0x1000 + perm) / 0x40 == frame * 0x40 + perm / 0x40;
  }

  lemma ValidField(frame: nat, perm: nat)
    ensures (frame * 0x1000 + perm) / 0x80 % 2 == perm / 0x80 % 2
  {
    assert (frame * 0x1000 + perm) / 0x80 == frame * 0x20 + perm / 0x80;
  }

  lemma DirtyField(frame: nat, perm: nat)
    ensures (frame * 0x1000 + perm) / 0x100 % 2 == perm / 0x100 % 2
  {
    assert (frame * 0x1000 + perm) / 0x100 == frame * 0x10 + perm / 0x100;
  }

  lemma CacheField(frame: nat, perm: nat)
    ensures (frame * 0x1000 + perm) / 0x200 % 8 == perm / 0x200 % 8
  {
    assert (frame * 0x1000 + perm) / 0x200 == frame * 8 + perm / 0x200;
  }

  lemma NoEntriesNoTables(t: Table)
    requires Sound(t) && Compact(t) && Unmapped(t, 0, PAGES)
    ensures t == EMPTY
  {
    hide At;
    forall s: nat | s < ENTRIES ensures t.dir[s] == 0 {
      assert Slot(t, s) == t.dir[s];
      assert !SlotUsed(t, s);
    }
    assert t.dir == Zeros();
    assert Frames(t.dir) == {};
    assert t.leaves == map[];
  }

  /** Once every mapping of a run is gone the directory is zero and the pool is
      the one the run started from, so destroying the index leaks nothing. */
  lemma RunLeaksNothing(p0: Pool, calls: seq<Call>, t: Table, p: Pool)
    requires Valid(p0) && CallRun(EMPTY, p0, calls, t, p) && Unmapped(t, 0, PAGES)
    ensures t == EMPTY && p == p0
  {
    hide Took, Unmapped, Good, CallRun, Valid;
    EmptyGood(p0);
    TookNothing(p0);
    assert EMPTY.leaves.Keys == {};
    RunConserves(p0, EMPTY, p0, calls, t, p);
    GoodTables(t, p);
    NoEntriesNoTables(t);
    TookNone(p0, p);
  }

  lemma GoodTables(t: Table, p: Pool)
    requires Good(t, p)
    ensures Sound(t) && Compact(t)
  {
  }

  lemma CallRunNone(t: Table, p: Pool, calls: seq<Call>)
    ensures CallRun(t, p, calls[..0], t, p)
  {
  }

  lemma CallRunNext(t0: Table, p0: Pool, calls: seq<Call>, i: nat, t: Table, p: Pool, t': Table, p': Pool)
    requires i < |calls| && CallRun(t0, p0, calls[..i], t, p) && CallStep(t, p, calls[i], t', p')
    ensures CallRun(t0, p0, calls[..i + 1], t', p')
  {
    hide CallStep;
    assert calls[..i + 1][..i] == calls[..i];
  }
}
