/** The first-fit page allocator of kern/mm/pmm/ff.c.

    Free memory is an address-ordered list of blocks that merges with both
    neighbours on release. The functions below say what one call does to the
    list; `FirstFitAllocator` is the code with its search loops, and the lemmas
    relate both to the set of free bytes. */
module PageAllocator {
  import opened Extents
  import opened FreeList

  datatype Pool = Pool(blocks: seq<Extent>, freeSpace: nat)

  /** What a request did. The C code returns 0 for both `Taken` and `Refused`,
      and EOF for `Exhausted`; see `ReturnCode`. */
  datatype Outcome = Taken(paddr: nat) | Refused | Exhausted

  ghost predicate WellFormed(bs: seq<Extent>) {
    NonEmpty(bs) && Separated(bs) && Aligned(bs, PAGE_SIZE)
  }

  ghost predicate Valid(p: Pool) {
    WellFormed(p.blocks) && Total(p.blocks) == p.freeSpace
  }

  ghost function FreeBytes(p: Pool): set<nat> {
    Bytes(p.blocks)
  }

  function Alloc(p: Pool, n: nat): (Pool, Outcome) {
    if n % PAGE_SIZE != 0 || n > p.freeSpace then (p, Refused)
    else
      var k := FirstFit(p.blocks, n);
      if k == |p.blocks| then (p, Exhausted)
      else (Pool(Cut(p.blocks, k, n), p.freeSpace - n), Taken(p.blocks[k].base))
  }

  predicate PageAligned(e: Extent) {
    e.base % PAGE_SIZE == 0 && e.size % PAGE_SIZE == 0
  }

  function Free(p: Pool, e: Extent): Pool {
    if !PageAligned(e) then p
    else Pool(Release(p.blocks, e), p.freeSpace + e.size)
  }

  // ------------------------------------------------------------------
  // The code: a global list and counter changed in place.

  class FirstFitAllocator {
    var blocks: seq<Extent>
    var freeSpace: nat

    function State(): Pool
      reads this
    {
      Pool(blocks, freeSpace)
    }

    constructor ()
      ensures State() == Pool([], 0)
    {
      blocks, freeSpace := [], 0;
    }

    method AllocPages(n: nat) returns (o: Outcome)
      modifies this
      ensures (State(), o) == Alloc(old(State()), n)
    {
      if n % PAGE_SIZE != 0 {
        return Refused;
      }
      if n > freeSpace {
        return Refused;
      }
      var k := SearchFit(blocks, n);
      if k == |blocks| {
        return Exhausted;
      }
      o := Taken(blocks[k].base);
      var shrunk := Extent(blocks[k].base + n, blocks[k].size - n);
      if shrunk.size == 0 {
        blocks := blocks[..k] + blocks[k + 1..];
      } else {
        blocks := blocks[..k] + [shrunk] + blocks[k + 1..];
      }
      freeSpace := freeSpace - n;
    }

    method FreePages(e: Extent)
      modifies this
      ensures State() == Free(old(State()), e)
    {
      if e.base % PAGE_SIZE != 0 {
        return;
      }
      if e.size % PAGE_SIZE != 0 {
        return;
      }
      var merged, _ := InsertMerged(blocks, e);
      blocks := merged;
      freeSpace := freeSpace + e.size;
    }

    method GetFree() returns (n: nat)
      requires Valid(State())
      ensures n == |FreeBytes(State())|
    {
      TotalCountsBytes(blocks);
      n := freeSpace;
    }
  }

  // ------------------------------------------------------------------
  // One request.

  ghost predicate IsRun(s: set<nat>, a: nat, n: nat) {
    Span(a, n) <= s
  }

  ghost predicate HasRun(s: set<nat>, n: nat) {
    exists a: nat :: IsRun(s, a, n)
  }

  ghost predicate IsLowestRun(s: set<nat>, a: nat, n: nat) {
    IsRun(s, a, n) && forall b: nat :: b < a ==> !IsRun(s, b, n)
  }

  lemma {:induction false} TotalAtLeast(bs: seq<Extent>, i: nat)
    requires i < |bs|
    ensures bs[i].size <= Total(bs)
  {
    BytesAround(bs, i);
  }

  /** No earlier block can hold a run of `n` bytes, so block `k` starts the
      lowest one. */
  lemma FirstFitIsLowest(bs: seq<Extent>, n: nat)
    requires Separated(bs) && n > 0
    ensures var k := FirstFit(bs, n);
            if k < |bs| then IsLowestRun(Bytes(bs), bs[k].base, n) else !HasRun(Bytes(bs), n)
  {
    var k := FirstFit(bs, n);
    forall a: nat | IsRun(Bytes(bs), a, n) ensures k < |bs| && bs[k].base <= a {
      var i := RunInsideOne(bs, a, n);
      assert k <= i;
    }
    if k < |bs| {
      BytesAt(bs, k);
      assert Span(bs[k].base, n) <= Span(bs[k].base, bs[k].size);
    }
  }

  /** First fit is lowest-address fit: pages are taken exactly when some
      contiguous free run of that size exists, the lowest run is the one
      taken, and any other outcome changes nothing. */
  lemma AllocTakesLowestRun(p: Pool, n: nat)
    requires Valid(p) && n > 0
    ensures var (q, o) := Alloc(p, n);
      && Valid(q)
      && (o.Taken? <==> n % PAGE_SIZE == 0 && HasRun(FreeBytes(p), n))
      && (o.Taken? ==> IsLowestRun(FreeBytes(p), o.paddr, n)
                       && o.paddr % PAGE_SIZE == 0
                       && FreeBytes(q) == FreeBytes(p) - Span(o.paddr, n)
                       && q.freeSpace == p.freeSpace - n)
      && (!o.Taken? ==> q == p)
  {
    var k := FirstFit(p.blocks, n);
    FirstFitIsLowest(p.blocks, n);
    if k < |p.blocks| {
      TotalAtLeast(p.blocks, k);
      if n % PAGE_SIZE == 0 {
        CutKeeps(p.blocks, k, n, PAGE_SIZE);
        CutSeparated(p.blocks, k, n);
        CutBytes(p.blocks, k, n);
      }
    }
  }

  /** A request for no bytes succeeds on a nonempty list and changes nothing. */
  lemma AllocNothing(p: Pool)
    requires Valid(p)
    ensures Alloc(p, 0) == if p.blocks == [] then (p, Exhausted) else (p, Taken(p.blocks[0].base))
  {
    if p.blocks != [] {
      assert p.blocks == [] + [p.blocks[0]] + p.blocks[1..];
      assert Extent(p.blocks[0].base + 0, p.blocks[0].size - 0) == p.blocks[0];
    }
  }

  const EOF: int := -1

  function ReturnCode(o: Outcome): int {
    if o.Exhausted? then EOF else 0
  }

  /** The C return value 0 means that pages were taken exactly when the
      request is page-aligned and within the free memory; otherwise the early
      `return NULL` reports success without taking anything. */
  lemma ReturnCodeHonest(p: Pool, n: nat)
    requires Valid(p)
    ensures var o := Alloc(p, n).1;
      (ReturnCode(o) == 0 <==> o.Taken?) <==> n % PAGE_SIZE == 0 && n <= p.freeSpace
  {
  }

  /** Running out of memory one page at a time is never reported as EOF. */
  lemma OnePageNeverExhausted(p: Pool)
    requires Valid(p)
    ensures !Alloc(p, PAGE_SIZE).1.Exhausted?
    ensures Alloc(p, PAGE_SIZE).1.Taken? <==> p.freeSpace > 0
    ensures p.freeSpace == 0 ==> Alloc(p, PAGE_SIZE) == (p, Refused)
  {
    if p.freeSpace > 0 {
      assert p.blocks != [];
      assert p.blocks[0].size >= PAGE_SIZE;
      TotalAtLeast(p.blocks, 0);
    }
  }

  // ------------------------------------------------------------------
  // One release.

  /** Releasing a range that is not free adds exactly its bytes and keeps the
      list sorted, aligned and fully merged. */
  lemma FreeAddsBytes(p: Pool, e: Extent)
    requires Valid(p) && PageAligned(e) && e.size > 0
    requires Span(e.base, e.size) !! FreeBytes(p)
    ensures Valid(Free(p, e))
    ensures FreeBytes(Free(p, e)) == FreeBytes(p) + Span(e.base, e.size)
    ensures Free(p, e).freeSpace == p.freeSpace + e.size
  {
    hide Release;
    ReleaseKeeps(p.blocks, e, PAGE_SIZE);
    ReleaseSeparates(p.blocks, e);
    ReleaseBytes(p.blocks, e);
  }

  // ------------------------------------------------------------------
  // Canonical form and what follows from it.

  /** Two valid pools with the same free bytes are the same pool. */
  lemma SamePoolFromBytes(p: Pool, q: Pool)
    requires Valid(p) && Valid(q) && FreeBytes(p) == FreeBytes(q)
    ensures p == q
  {
    Canonical(p.blocks, q.blocks);
  }

  /** Giving back what a request took restores the list and the counter. */
  lemma FreeUndoesAlloc(p: Pool, n: nat)
    requires Valid(p) && n > 0
    requires Alloc(p, n).1.Taken?
    ensures Free(Alloc(p, n).0, Extent(Alloc(p, n).1.paddr, n)) == p
  {
    var (q, o) := Alloc(p, n);
    AllocTakesLowestRun(p, n);
    var e := Extent(o.paddr, n);
    FreeAddsBytes(q, e);
    assert FreeBytes(Free(q, e)) == FreeBytes(p);
    SamePoolFromBytes(Free(q, e), p);
  }

  function FreeAll(p: Pool, es: seq<Extent>): Pool
    decreases |es|
  {
    if es == [] then p else FreeAll(Free(p, es[0]), es[1..])
  }

  /** Nonempty aligned ranges, pairwise disjoint and none of them free. */
  ghost predicate Releasable(p: Pool, es: seq<Extent>) {
    && (forall i :: 0 <= i < |es| ==> PageAligned(es[i]) && es[i].size > 0)
    && (forall i :: 0 <= i < |es| ==> Span(es[i].base, es[i].size) !! FreeBytes(p))
    && (forall i, j :: 0 <= i < j < |es| ==> Span(es[i].base, es[i].size) !! Span(es[j].base, es[j].size))
  }

  lemma {:induction false} FreeAllBytes(p: Pool, es: seq<Extent>)
    requires Valid(p) && Releasable(p, es)
    ensures Valid(FreeAll(p, es))
    ensures FreeBytes(FreeAll(p, es)) == FreeBytes(p) + Bytes(es)
    decreases |es|
  {
    if es != [] {
      FreeAddsBytes(p, es[0]);
      assert Releasable(Free(p, es[0]), es[1..]);
      FreeAllBytes(Free(p, es[0]), es[1..]);
    }
  }

  /** Freeing a family of disjoint ranges in any order gives the same list. */
  lemma FreeOrderIrrelevant(p: Pool, es: seq<Extent>, fs: seq<Extent>)
    requires Valid(p) && Releasable(p, es) && Releasable(p, fs)
    requires multiset(es) == multiset(fs)
    ensures FreeAll(p, es) == FreeAll(p, fs)
  {
    FreeAllBytes(p, es);
    FreeAllBytes(p, fs);
    BytesOfPermutation(es, fs);
    SamePoolFromBytes(FreeAll(p, es), FreeAll(p, fs));
  }

  // ------------------------------------------------------------------
  // Runs: the list refines a plain set of free bytes.

  datatype Op = AllocOp(n: nat) | FreeOp(e: Extent)

  function Step(p: Pool, op: Op): Pool {
    match op
    case AllocOp(n) => Alloc(p, n).0
    case FreeOp(e) => Free(p, e)
  }

  function Run(p: Pool, ops: seq<Op>): Pool
    decreases |ops|
  {
    if ops == [] then p else Run(Step(p, ops[0]), ops[1..])
  }

  /** One step of the reference machine, whose whole state is the free set. */
  ghost predicate SetStep(s: set<nat>, op: Op, t: set<nat>) {
    match op
    case AllocOp(n) =>
      if n > 0 && n % PAGE_SIZE == 0 && HasRun(s, n)
      then exists a: nat :: IsLowestRun(s, a, n) && t == s - Span(a, n)
      else t == s
    case FreeOp(e) =>
      if PageAligned(e) then t == s + Span(e.base, e.size) else t == s
  }

  ghost predicate SetRun(s: set<nat>, ops: seq<Op>, t: set<nat>)
    decreases |ops|
  {
    if ops == [] then s == t
    else exists m :: SetStep(s, ops[0], m) && SetRun(m, ops[1..], t)
  }

  /** What callers owe: an aligned release names a nonempty range that is not
      already free. */
  ghost predicate LegalOp(s: set<nat>, op: Op) {
    op.FreeOp? && PageAligned(op.e) ==> op.e.size > 0 && Span(op.e.base, op.e.size) !! s
  }

  ghost predicate LegalRun(p: Pool, ops: seq<Op>)
    decreases |ops|
  {
    ops == [] || (LegalOp(FreeBytes(p), ops[0]) && LegalRun(Step(p, ops[0]), ops[1..]))
  }

  lemma StepRefinesSet(p: Pool, op: Op)
    requires Valid(p) && LegalOp(FreeBytes(p), op)
    ensures Valid(Step(p, op))
    ensures SetStep(FreeBytes(p), op, FreeBytes(Step(p, op)))
  {
    match op
    case AllocOp(n) =>
      if n == 0 { AllocNothing(p); } else { AllocTakesLowestRun(p, n); }
    case FreeOp(e) =>
      if PageAligned(e) { FreeAddsBytes(p, e); }
  }

  /** Every legal run keeps the list well formed with its sizes adding up to
      the counter and to the number of free bytes, and tracks the reference
      machine on sets. */
  lemma {:induction false} RunRefinesSet(p: Pool, ops: seq<Op>)
    requires Valid(p) && LegalRun(p, ops)
    ensures Valid(Run(p, ops))
    ensures SetRun(FreeBytes(p), ops, FreeBytes(Run(p, ops)))
    ensures Run(p, ops).freeSpace == |FreeBytes(Run(p, ops))|
    decreases |ops|
  {
    if ops == [] {
      TotalCountsBytes(p.blocks);
    } else {
      StepRefinesSet(p, ops[0]);
      RunRefinesSet(Step(p, ops[0]), ops[1..]);
    }
  }

  // ------------------------------------------------------------------
  // Callers that take and return single pages.

  /** `p` is what is left of `p0` after taking the pages `fs`. */
  ghost predicate Took(p0: Pool, p: Pool, fs: set<nat>) {
    && Valid(p) && Bases(fs)
    && PageBytes(fs) <= FreeBytes(p0)
    && FreeBytes(p) == FreeBytes(p0) - PageBytes(fs)
    && p0.freeSpace == p.freeSpace + PAGE_SIZE * |fs|
  }

  /** `p` is `p0` after the pages `fs` were given back. */
  ghost predicate Gave(p0: Pool, p: Pool, fs: set<nat>) {
    && Valid(p) && Bases(fs)
    && PageBytes(fs) !! FreeBytes(p0)
    && FreeBytes(p) == FreeBytes(p0) + PageBytes(fs)
    && p.freeSpace == p0.freeSpace + PAGE_SIZE * |fs|
  }

  lemma TookNothing(p: Pool)
    requires Valid(p)
    ensures Took(p, p, {}) && Gave(p, p, {})
  {
    assert PageBytes({}) == {};
  }

  lemma TakeOne(p0: Pool, p: Pool, fs: set<nat>)
    requires Took(p0, p, fs)
    requires Alloc(p, PAGE_SIZE).1.Taken?
    ensures var (q, o) := Alloc(p, PAGE_SIZE);
      && o.paddr !in fs && o.paddr % PAGE_SIZE == 0
      && Span(o.paddr, PAGE_SIZE) <= FreeBytes(p)
      && Took(p0, q, fs + {o.paddr})
  {
    hide Alloc, Valid, FreeBytes;
    var f := Alloc(p, PAGE_SIZE).1.paddr;
    AllocTakesLowestRun(p, PAGE_SIZE);
    assert f in Span(f, PAGE_SIZE);
    assert f !in PageBytes(fs);
    assert f in fs ==> f in PageBytes(fs) by {
      if f in fs { PageBytesMember(fs, f); }
    }
    hide PageBytes, Span;
    PageBytesAdd(fs, {f});
    PageBytesOne(f);
  }

  lemma GiveOne(p0: Pool, p: Pool, fs: set<nat>, f: nat)
    requires Gave(p0, p, fs)
    requires f !in fs && f % PAGE_SIZE == 0 && Span(f, PAGE_SIZE) !! FreeBytes(p0)
    ensures Gave(p0, Free(p, Extent(f, PAGE_SIZE)), fs + {f})
  {
    hide Free, FreeBytes, Valid;
    PageBytesAdd(fs, {f});
    PageBytesOne(f);
    PageBytesDisjoint(fs, {f});
    hide PageBytes, Span;
    FreeAddsBytes(p, Extent(f, PAGE_SIZE));
  }

  /** Giving back exactly the pages taken restores the pool itself. */
  lemma GaveWhatWasTaken(p0: Pool, p1: Pool, p2: Pool, fs: set<nat>)
    requires Valid(p0) && Took(p0, p1, fs) && Gave(p1, p2, fs)
    ensures p2 == p0
  {
    assert FreeBytes(p2) == FreeBytes(p0);
    SamePoolFromBytes(p2, p0);
  }

  lemma TookMore(p0: Pool, p: Pool, q: Pool, a: set<nat>, b: set<nat>)
    requires Took(p0, p, a) && Took(p, q, b)
    ensures a !! b && Took(p0, q, a + b)
  {
    hide FreeBytes, Valid;
    PageBytesAdd(a, b);
    TookDisjoint(p0, p, a, b);
    hide PageBytes;
  }

  lemma TookDisjoint(p0: Pool, p: Pool, a: set<nat>, b: set<nat>)
    requires Took(p0, p, a) && PageBytes(b) <= FreeBytes(p)
    ensures a !! b
  {
    hide FreeBytes;
    forall f | f in a ensures f !in b {
      PageBytesMember(a, f);
      assert f in Span(f, PAGE_SIZE);
      if f in b { PageBytesMember(b, f); assert false; }
    }
  }

  lemma TookLess(p0: Pool, p: Pool, q: Pool, a: set<nat>, b: set<nat>)
    requires Took(p0, p, a) && Gave(p, q, b) && b <= a
    ensures Took(p0, q, a - b)
  {
    hide FreeBytes, Valid;
    PageBytesDisjoint(a - b, b);
    PageBytesAdd(a - b, b);
    assert a - b + b == a;
    hide PageBytes;
    assert |a| == |a - b| + |b|;
  }

  /** Nothing is missing from the pool once nothing is held. */
  lemma TookNone(p0: Pool, p: Pool)
    requires Valid(p0) && Took(p0, p, {})
    ensures p == p0
  {
    assert PageBytes({}) == {};
    SamePoolFromBytes(p, p0);
  }
}
