/** The slab cache of kern/mm/vmm/slab.c, with the byte-wide find-first-zero.

    A slab is a run of pages with 32 entries and a bitmap of the entries in
    use; a cache keeps its slabs on three lists. */
module Slab {
  import opened Extents
  import opened PageAllocator
  import opened Bitmap

  datatype Slab = Slab(vaddr: nat, used: Bitmap)

  datatype Cache = Cache(size: nat, slabSize: nat, empty: seq<Slab>, partial: seq<Slab>, full: seq<Slab>)

  ghost function Slabs(c: Cache): multiset<Slab> {
    multiset(c.empty) + multiset(c.partial) + multiset(c.full)
  }

  ghost predicate Apart(s: Slab, t: Slab, n: nat) {
    s.vaddr + n <= t.vaddr || t.vaddr + n <= s.vaddr
  }

  /** Every slab is on one list once, and their memory does not overlap. */
  ghost predicate Disjoint(m: multiset<Slab>, n: nat) {
    && (forall s :: s in m ==> m[s] == 1)
    && (forall s, t :: s in m && t in m && s != t ==> Apart(s, t, n))
  }

  ghost predicate Sized(c: Cache) {
    0 < c.size && ENTRIES * c.size <= c.slabSize && c.slabSize % PAGE_SIZE == 0
  }

  /** What each list may hold. A slab that lost an object while it was not
      first on the full list stays there, so that list only promises use. */
  ghost predicate Sorted(c: Cache) {
    && (forall s :: s in c.empty ==> IsEmpty(s.used))
    && (forall s :: s in c.partial ==> !IsEmpty(s.used) && !IsFull(s.used))
    && (forall s :: s in c.full ==> !IsEmpty(s.used))
  }

  ghost predicate CacheOk(c: Cache) {
    Sized(c) && Sorted(c) && Disjoint(Slabs(c), c.slabSize)
  }

  function Object(s: Slab, i: nat, size: nat): nat {
    s.vaddr + i * size
  }

  ghost predicate Holds(c: Cache, s: Slab, i: nat, o: nat) {
    s in Slabs(c) && i < ENTRIES && Used(s.used, i) && o == Object(s, i, c.size)
  }

  /** `o` is the address of an allocated object. */
  ghost predicate IsLive(c: Cache, o: nat) {
    exists s, i :: Holds(c, s, i, o)
  }

  // ------------------------------------------------------------------
  // Addresses and indices.

  lemma EntryInside(i: nat, size: nat)
    requires i < ENTRIES
    ensures i * size + size <= ENTRIES * size
  {
    assert (i + 1) * size <= ENTRIES * size;
  }

  lemma EntriesApart(i: nat, j: nat, size: nat)
    requires i < j
    ensures i * size + size <= j * size
  {
    assert (i + 1) * size <= j * size;
  }

  lemma IndexBack(i: nat, size: nat)
    requires size > 0
    ensures (i * size) / size == i
  {
    QuotientUnique(i * size, size, i, 0);
  }

  lemma QuotientUnique(x: nat, n: nat, q: nat, r: nat)
    requires n > 0 && x == q * n + r && r < n
    ensures x / n == q
  {
    var q', r' := x / n, x % n;
    assert x == q' * n + r';
    assert q' < q ==> (q' + 1) * n <= q * n;
    assert q < q' ==> (q + 1) * n <= q' * n;
  }

  /** An address inside two slabs' memory shows that they are the same. */
  lemma SameSlab(c: Cache, s: Slab, t: Slab, o: nat)
    requires CacheOk(c) && s in Slabs(c) && t in Slabs(c)
    requires s.vaddr <= o < s.vaddr + c.slabSize && t.vaddr <= o < t.vaddr + c.slabSize
    ensures s == t
  {
  }

  lemma ObjectInSlab(c: Cache, s: Slab, i: nat)
    requires Sized(c) && i < ENTRIES
    ensures s.vaddr <= Object(s, i, c.size) && Object(s, i, c.size) + c.size <= s.vaddr + c.slabSize
    ensures (Object(s, i, c.size) - s.vaddr) / c.size == i
  {
    EntryInside(i, c.size);
    IndexBack(i, c.size);
  }

  /** The slab and the entry of a live object are determined by its address. */
  lemma LiveUnique(c: Cache, s: Slab, i: nat, t: Slab, j: nat, o: nat)
    requires CacheOk(c) && Holds(c, s, i, o) && Holds(c, t, j, o)
    ensures s == t && i == j
  {
    ObjectInSlab(c, s, i);
    ObjectInSlab(c, t, j);
    SameSlab(c, s, t, o);
  }

  lemma ObjectsDisjoint(c: Cache, s: Slab, i: nat, t: Slab, j: nat)
    requires CacheOk(c) && s in Slabs(c) && t in Slabs(c) && i < ENTRIES && j < ENTRIES
    requires s != t || i != j
    ensures var o, p := Object(s, i, c.size), Object(t, j, c.size); o + c.size <= p || p + c.size <= o
  {
    hide Slabs;
    if s != t {
      assert Apart(s, t, c.slabSize);
      ObjectInSlab(c, s, i);
      ObjectInSlab(c, t, j);
    } else if i < j {
      EntriesApart(i, j, c.size);
    } else {
      EntriesApart(j, i, c.size);
    }
  }

  /** Different live objects share no byte, and each lies inside its slab. */
  lemma LiveDisjoint(c: Cache, o: nat, p: nat)
    requires CacheOk(c) && IsLive(c, o) && IsLive(c, p) && o != p
    ensures o + c.size <= p || p + c.size <= o
  {
    var s, i :| Holds(c, s, i, o);
    var t, j :| Holds(c, t, j, p);
    ObjectsDisjoint(c, s, i, t, j);
  }

  // ------------------------------------------------------------------
  // Replacing one slab by itself with a different bitmap.

  ghost predicate Replaced(c: Cache, c': Cache, s: Slab, s': Slab) {
    && s in Slabs(c) && s'.vaddr == s.vaddr
    && c'.size == c.size && c'.slabSize == c.slabSize
    && Slabs(c') == Slabs(c) - multiset{s} + multiset{s'}
  }

  lemma ReplacedMember(c: Cache, c': Cache, s: Slab, s': Slab, t: Slab)
    requires Replaced(c, c', s, s') && Disjoint(Slabs(c), c.slabSize)
    ensures t in Slabs(c') <==> (t in Slabs(c) && t != s) || t == s'
  {
  }

  lemma ReplacedDisjoint(c: Cache, c': Cache, s: Slab, s': Slab)
    requires Replaced(c, c', s, s') && Disjoint(Slabs(c), c.slabSize) && c.slabSize > 0
    ensures Disjoint(Slabs(c'), c'.slabSize)
  {
    var m, m' := Slabs(c), Slabs(c');
    hide Slabs;
    assert s' in m && s' != s ==> Apart(s', s, c.slabSize);
    forall t | t in m' ensures m'[t] == 1 {
      ReplacedMember(c, c', s, s', t);
    }
    forall t, u | t in m' && u in m' && t != u ensures Apart(t, u, c.slabSize) {
      ReplacedMember(c, c', s, s', t);
      ReplacedMember(c, c', s, s', u);
    }
  }

  lemma LiveAfterMark(c: Cache, c': Cache, s: Slab, i: nat, o: nat)
    requires CacheOk(c) && i < ENTRIES
    requires Replaced(c, c', s, Slab(s.vaddr, Mark(s.used, i)))
    ensures IsLive(c', o) <==> IsLive(c, o) || o == Object(s, i, c.size)
  {
    hide Slabs, Used;
    var s' := Slab(s.vaddr, Mark(s.used, i));
    ReplacedMember(c, c', s, s', s');
    if IsLive(c', o) {
      var t, j :| Holds(c', t, j, o);
      ReplacedMember(c, c', s, s', t);
      if t == s' && j != i {
        assert Holds(c, s, j, o);
      } else if t != s' {
        assert Holds(c, t, j, o);
      }
    }
    if IsLive(c, o) {
      var t, j :| Holds(c, t, j, o);
      ReplacedMember(c, c', s, s', t);
      assert Holds(c', if t == s then s' else t, j, o);
    }
    if o == Object(s, i, c.size) {
      assert Holds(c', s', i, o);
    }
  }

  lemma LiveAfterUnmark(c: Cache, c': Cache, s: Slab, i: nat, o: nat)
    requires CacheOk(c) && i < ENTRIES && Used(s.used, i)
    requires Replaced(c, c', s, Slab(s.vaddr, Unmark(s.used, i)))
    ensures IsLive(c', o) <==> IsLive(c, o) && o != Object(s, i, c.size)
  {
    hide Slabs, Used;
    var s' := Slab(s.vaddr, Unmark(s.used, i));
    assert Holds(c, s, i, Object(s, i, c.size));
    ReplacedMember(c, c', s, s', s');
    if IsLive(c', o) {
      var t, j :| Holds(c', t, j, o);
      ReplacedMember(c, c', s, s', t);
      var u := if t == s' then s else t;
      assert Holds(c, u, j, o);
      if o == Object(s, i, c.size) {
        LiveUnique(c, s, i, u, j, o);
        assert false;
      }
    }
    if IsLive(c, o) && o != Object(s, i, c.size) {
      var t, j :| Holds(c, t, j, o);
      ReplacedMember(c, c', s, s', t);
      assert Holds(c', if t == s then s' else t, j, o);
    }
  }

  // ------------------------------------------------------------------
  // What the calls do.

  /** `__extend`: a fresh slab at the front of the empty list. */
  function Grow(c: Cache, vaddr: nat): Cache {
    c.(empty := [Slab(vaddr, NONE)] + c.empty)
  }

  /** The slab an allocation uses: the first partial one, else the first empty. */
  function Chosen(c: Cache): Slab
    requires c.partial != [] || c.empty != []
  {
    if c.partial != [] then c.partial[0] else c.empty[0]
  }

  /** `__alloc` once there is a slab to use. */
  function Take(c: Cache): (Cache, nat)
    requires c.partial != [] || c.empty != []
    requires ScanFrom(Chosen(c).used, 0) < ENTRIES
  {
    var s := Chosen(c);
    var i := ScanFrom(s.used, 0);
    var s' := Slab(s.vaddr, Mark(s.used, i));
    var rest := if c.partial != [] then c.(partial := c.partial[1..]) else c.(empty := c.empty[1..]);
    (if IsFull(s'.used) then rest.(full := [s'] + rest.full)
     else rest.(partial := [s'] + rest.partial),
     Object(s, i, c.size))
  }

  /** Position of the slab whose memory holds `o`, or the list's length. */
  function Find(list: seq<Slab>, o: nat, n: nat): (k: nat)
    ensures k <= |list|
    ensures k < |list| ==> list[k].vaddr <= o < list[k].vaddr + n
    ensures forall i :: 0 <= i < k ==> !(list[i].vaddr <= o < list[i].vaddr + n)
  {
    if list == [] || list[0].vaddr <= o < list[0].vaddr + n then 0 else 1 + Find(list[1..], o, n)
  }

  function Without(list: seq<Slab>, k: nat): seq<Slab>
    requires k < |list|
  {
    list[..k] + list[k + 1..]
  }

  predicate Known(c: Cache, o: nat) {
    Find(c.full, o, c.slabSize) < |c.full| || Find(c.partial, o, c.slabSize) < |c.partial|
  }

  /** The slab a known address is freed to. */
  function Owner(c: Cache, o: nat): Slab
    requires Known(c, o)
  {
    var k := Find(c.full, o, c.slabSize);
    if k < |c.full| then c.full[k] else c.partial[Find(c.partial, o, c.slabSize)]
  }

  function Index(c: Cache, o: nat): nat
    requires Known(c, o) && c.size > 0
  {
    (o - Owner(c, o).vaddr) / c.size
  }

  /** `__free` for a known address. */
  function Give(c: Cache, o: nat): Cache
    requires Known(c, o) && c.size > 0 && Index(c, o) < ENTRIES
  {
    var s := Owner(c, o);
    var s' := Slab(s.vaddr, Unmark(s.used, Index(c, o)));
    var k := Find(c.full, o, c.slabSize);
    if k < |c.full| then
      if IsEmpty(s'.used) then c.(full := Without(c.full, k), empty := [s'] + c.empty)
      else if k == 0 then c.(full := c.full[1..], partial := [s'] + c.partial)
      else c.(full := c.full[k := s'])
    else
      var j := Find(c.partial, o, c.slabSize);
      if IsEmpty(s'.used) then c.(partial := Without(c.partial, j), empty := [s'] + c.empty)
      else c.(partial := c.partial[j := s'])
  }

  // ------------------------------------------------------------------
  // Allocation.

  lemma MultisetFront(s: Slab, list: seq<Slab>)
    ensures multiset([s] + list) == multiset(list) + multiset{s}
  {
  }

  lemma MultisetRest(list: seq<Slab>)
    requires list != []
    ensures multiset(list[1..]) == multiset(list) - multiset{list[0]} && list[0] in multiset(list)
  {
    assert list == [list[0]] + list[1..];
  }

  lemma MultisetWithout(list: seq<Slab>, k: nat)
    requires k < |list|
    ensures multiset(Without(list, k)) == multiset(list) - multiset{list[k]} && list[k] in multiset(list)
  {
    assert list == list[..k] + [list[k]] + list[k + 1..];
  }

  lemma MultisetUpdate(list: seq<Slab>, k: nat, s: Slab)
    requires k < |list|
    ensures multiset(list[k := s]) == multiset(list) - multiset{list[k]} + multiset{s} && list[k] in multiset(list)
  {
  }

  lemma ChosenFree(c: Cache)
    requires CacheOk(c) && (c.partial != [] || c.empty != [])
    ensures var i := ScanFrom(Chosen(c).used, 0); i < ENTRIES && !Used(Chosen(c).used, i)
  {
    hide Disjoint, Used, ScanFrom;
    var u := Chosen(c).used;
    ScanFinds(u, 0);
    FullMeansUsed(u);
    assert Chosen(c) in (if c.partial != [] then c.partial else c.empty);
    EmptyNotFull(u);
  }

  lemma EmptyNotFull(u: Bitmap)
    ensures !(IsEmpty(u) && IsFull(u))
  {
    assert u[0] == 0 ==> u[0] != 0xFF;
  }

  /** Moving a slab out of the partial or the empty list. */
  lemma SlabsMoved(e: multiset<Slab>, p: multiset<Slab>, f: multiset<Slab>, s: Slab, s': Slab)
    ensures s in p ==> e + (p - multiset{s}) + (f + multiset{s'}) == e + p + f - multiset{s} + multiset{s'}
    ensures s in p ==> e + (p - multiset{s} + multiset{s'}) + f == e + p + f - multiset{s} + multiset{s'}
    ensures s in e ==> (e - multiset{s}) + p + (f + multiset{s'}) == e + p + f - multiset{s} + multiset{s'}
    ensures s in e ==> (e - multiset{s}) + (p + multiset{s'}) + f == e + p + f - multiset{s} + multiset{s'}
  {
  }

  /** Moving a slab out of the full list, or from the partial to the empty one. */
  lemma SlabsMovedBack(e: multiset<Slab>, p: multiset<Slab>, f: multiset<Slab>, s: Slab, s': Slab)
    ensures s in f ==> (e + multiset{s'}) + p + (f - multiset{s}) == e + p + f - multiset{s} + multiset{s'}
    ensures s in f ==> e + (p + multiset{s'}) + (f - multiset{s}) == e + p + f - multiset{s} + multiset{s'}
    ensures s in f ==> e + p + (f - multiset{s} + multiset{s'}) == e + p + f - multiset{s} + multiset{s'}
    ensures s in p ==> (e + multiset{s'}) + (p - multiset{s}) + f == e + p + f - multiset{s} + multiset{s'}
  {
  }

  lemma TakeReplaces(c: Cache)
    requires c.partial != [] || c.empty != []
    requires ScanFrom(Chosen(c).used, 0) < ENTRIES
    ensures var s := Chosen(c);
      Replaced(c, Take(c).0, s, Slab(s.vaddr, Mark(s.used, ScanFrom(s.used, 0))))
  {
    hide ScanFrom, Mark, IsFull;
    var s := Chosen(c);
    var s' := Slab(s.vaddr, Mark(s.used, ScanFrom(s.used, 0)));
    SlabsMoved(multiset(c.empty), multiset(c.partial), multiset(c.full), s, s');
    MultisetFront(s', c.full);
    if c.partial != [] {
      MultisetRest(c.partial);
      MultisetFront(s', c.partial[1..]);
    } else {
      MultisetRest(c.empty);
      MultisetFront(s', c.partial);
    }
  }

  lemma TakeSorted(c: Cache)
    requires CacheOk(c) && (c.partial != [] || c.empty != [])
    requires ScanFrom(Chosen(c).used, 0) < ENTRIES
    ensures Sorted(Take(c).0)
  {
    hide Disjoint, Used, ScanFrom, Sized, IsEmpty, IsFull, Mark;
    var s := Chosen(c);
    var i := ScanFrom(s.used, 0);
    var u := Mark(s.used, i);
    MarkNotEmpty(s.used, i);
  }

  lemma MarkNotEmpty(u: Bitmap, i: nat)
    requires i < ENTRIES
    ensures !IsEmpty(Mark(u, i))
  {
    EmptyMeansUnused(Mark(u, i));
    assert Used(Mark(u, i), i);
  }

  /** An allocation hands out an address that was not live, inside the memory
      of a slab, and changes nothing else. */
  lemma TakeAllocates(c: Cache)
    requires CacheOk(c) && (c.partial != [] || c.empty != [])
    ensures ScanFrom(Chosen(c).used, 0) < ENTRIES
    ensures var (c', o) := Take(c);
      && CacheOk(c') && c'.size == c.size && c'.slabSize == c.slabSize
      && !IsLive(c, o)
      && (forall x: nat :: IsLive(c', x) <==> IsLive(c, x) || x == o)
      && Chosen(c).vaddr <= o && o + c.size <= Chosen(c).vaddr + c.slabSize
  {
    hide Disjoint, Used, ScanFrom, Slabs, Take, IsLive, Sorted;
    ChosenFree(c);
    var (c', o) := Take(c);
    var s := Chosen(c);
    var i := ScanFrom(s.used, 0);
    TakeReplaces(c);
    TakeSorted(c);
    ReplacedDisjoint(c, c', s, Slab(s.vaddr, Mark(s.used, i)));
    TakeObject(c);
    ObjectInSlab(c, s, i);
    NotYetLive(c, s, i);
    forall x: nat ensures IsLive(c', x) <==> IsLive(c, x) || x == o {
      LiveAfterMark(c, c', s, i, x);
    }
  }

  lemma TakeObject(c: Cache)
    requires (c.partial != [] || c.empty != []) && ScanFrom(Chosen(c).used, 0) < ENTRIES
    ensures Take(c).1 == Object(Chosen(c), ScanFrom(Chosen(c).used, 0), c.size)
  {
  }

  lemma NotYetLive(c: Cache, s: Slab, i: nat)
    requires CacheOk(c) && s in Slabs(c) && i < ENTRIES && !Used(s.used, i)
    ensures !IsLive(c, Object(s, i, c.size))
  {
    hide Slabs, Used;
    var o := Object(s, i, c.size);
    forall t, j ensures !Holds(c, t, j, o) {
      if Holds(c, t, j, o) && (t != s || j != i) {
        ObjectsDisjoint(c, s, i, t, j);
      }
    }
  }

  // ------------------------------------------------------------------
  // Freeing.

  lemma GiveToFull(c: Cache, o: nat)
    requires Known(c, o) && c.size > 0 && Index(c, o) < ENTRIES && Find(c.full, o, c.slabSize) < |c.full|
    ensures var s := Owner(c, o);
      Replaced(c, Give(c, o), s, Slab(s.vaddr, Unmark(s.used, Index(c, o))))
  {
    hide Unmark, IsEmpty, Without;
    var k := Find(c.full, o, c.slabSize);
    var s := c.full[k];
    var s' := Slab(s.vaddr, Unmark(s.used, Index(c, o)));
    SlabsMovedBack(multiset(c.empty), multiset(c.partial), multiset(c.full), s, s');
    MultisetFront(s', c.empty);
    MultisetFront(s', c.partial);
    MultisetWithout(c.full, k);
    MultisetUpdate(c.full, k, s');
    if k == 0 { MultisetRest(c.full); }
  }

  lemma GiveToPartial(c: Cache, o: nat)
    requires Known(c, o) && c.size > 0 && Index(c, o) < ENTRIES && Find(c.full, o, c.slabSize) == |c.full|
    ensures var s := Owner(c, o);
      Replaced(c, Give(c, o), s, Slab(s.vaddr, Unmark(s.used, Index(c, o))))
  {
    hide Unmark, IsEmpty, Without;
    var j := Find(c.partial, o, c.slabSize);
    var s := c.partial[j];
    var s' := Slab(s.vaddr, Unmark(s.used, Index(c, o)));
    SlabsMovedBack(multiset(c.empty), multiset(c.partial), multiset(c.full), s, s');
    SlabsMoved(multiset(c.empty), multiset(c.partial), multiset(c.full), s, s');
    MultisetFront(s', c.empty);
    MultisetWithout(c.partial, j);
    MultisetUpdate(c.partial, j, s');
  }

  lemma GiveReplaces(c: Cache, o: nat)
    requires Known(c, o) && c.size > 0 && Index(c, o) < ENTRIES
    ensures var s := Owner(c, o);
      Replaced(c, Give(c, o), s, Slab(s.vaddr, Unmark(s.used, Index(c, o))))
  {
    hide Unmark, Give, Replaced, Owner, Index;
    if Find(c.full, o, c.slabSize) < |c.full| { GiveToFull(c, o); } else { GiveToPartial(c, o); }
  }

  lemma GiveSorted(c: Cache, o: nat)
    requires Sorted(c) && Known(c, o) && c.size > 0 && Index(c, o) < ENTRIES
    requires Used(Owner(c, o).used, Index(c, o))
    ensures Sorted(Give(c, o))
  {
    hide Unmark, IsEmpty, IsFull, Used;
    var s := Owner(c, o);
    UnmarkNotFull(s.used, Index(c, o));
  }

  lemma UnmarkNotFull(u: Bitmap, i: nat)
    requires i < ENTRIES
    ensures !IsFull(Unmark(u, i))
  {
    FullMeansUsed(Unmark(u, i));
    assert !Used(Unmark(u, i), i);
  }

  lemma SlabsMember(c: Cache, s: Slab)
    ensures s in Slabs(c) <==> s in c.empty || s in c.partial || s in c.full
  {
  }

  /** The search and the division recover the slab and the entry that the
      allocation used. */
  lemma LiveFound(c: Cache, s: Slab, i: nat, o: nat)
    requires CacheOk(c) && Holds(c, s, i, o)
    ensures Known(c, o) && Owner(c, o) == s && Index(c, o) == i
  {
    hide Slabs, Used, Object, CacheOk, Find;
    CacheSized(c);
    ObjectInSlab(c, s, i);
    LiveListed(c, s, i);
    FindReaches(c.full, s, o, c.slabSize);
    FindReaches(c.partial, s, o, c.slabSize);
    var t := Owner(c, o);
    SlabsMember(c, t);
    SameSlab(c, s, t, o);
  }

  lemma CacheSized(c: Cache)
    requires CacheOk(c)
    ensures Sized(c)
  {
  }

  /** A slab with an entry in use is on one of the lists that are searched. */
  lemma LiveListed(c: Cache, s: Slab, i: nat)
    requires CacheOk(c) && s in Slabs(c) && i < ENTRIES && Used(s.used, i)
    ensures s in c.full || s in c.partial
  {
    hide Slabs, Used, IsFull;
    SlabsMember(c, s);
    EmptyMeansUnused(s.used);
  }

  lemma FindReaches(list: seq<Slab>, s: Slab, o: nat, n: nat)
    requires s.vaddr <= o < s.vaddr + n
    ensures s in list ==> Find(list, o, n) < |list|
  {
    if s in list {
      var m :| 0 <= m < |list| && list[m] == s;
      assert Find(list, o, n) <= m;
    }
  }

  // ------------------------------------------------------------------
  // Exactly what becomes of the lists.

  /** `t` is `s` with entry `i` in use or not, and otherwise the same. */
  ghost predicate IsUpdate(s: Slab, i: nat, used: bool, t: Slab) {
    && i < ENTRIES && t.vaddr == s.vaddr
    && forall j :: 0 <= j < ENTRIES ==> (Used(t.used, j) <==> if j == i then used else Used(s.used, j))
  }

  ghost predicate AllUsed(s: Slab) {
    forall j :: 0 <= j < ENTRIES ==> Used(s.used, j)
  }

  ghost predicate NoneUsed(s: Slab) {
    forall j :: 0 <= j < ENTRIES ==> !Used(s.used, j)
  }

  /** The lowest free entry `i` of `s` is taken, which becomes `t`: `s` is the
      first partial slab or, if there is none, the first empty one. `t` goes to
      the front of the full list or of the partial list. */
  ghost predicate IsTake(c: Cache, s: Slab, i: nat, t: Slab, c': Cache, o: nat) {
    && IsUpdate(s, i, true, t) && !Used(s.used, i) && (forall j :: 0 <= j < i ==> Used(s.used, j))
    && o == s.vaddr + i * c.size && c'.size == c.size && c'.slabSize == c.slabSize
    && (if c.partial != [] then s == c.partial[0] && c'.empty == c.empty
        else c.empty != [] && s == c.empty[0] && c'.empty == c.empty[1..])
    && var rest := if c.partial != [] then c.partial[1..] else [];
       if AllUsed(t) then c'.full == [t] + c.full && c'.partial == rest
       else c'.full == c.full && c'.partial == [t] + rest
  }

  lemma TakeExact(c: Cache) returns (s: Slab, i: nat, t: Slab)
    requires (c.partial != [] || c.empty != []) && ScanFrom(Chosen(c).used, 0) < ENTRIES
    ensures var (c', o) := Take(c); IsTake(c, s, i, t, c', o)
  {
    hide Used, ScanFrom, IsFull, Mark;
    s := Chosen(c);
    i := ScanFrom(s.used, 0);
    t := Slab(s.vaddr, Mark(s.used, i));
    ScanFinds(s.used, 0);
    FullMeansUsed(t.used);
  }

  /** The addresses that are not refused are those inside a slab in use. */
  lemma KnownIff(c: Cache, o: nat)
    ensures Known(c, o) <==> exists s :: (s in c.full || s in c.partial) && s.vaddr <= o < s.vaddr + c.slabSize
  {
    hide Find;
    if Known(c, o) {
      var k, j := Find(c.full, o, c.slabSize), Find(c.partial, o, c.slabSize);
      var s := if k < |c.full| then c.full[k] else c.partial[j];
      assert s in c.full || s in c.partial;
    }
    if s :| (s in c.full || s in c.partial) && s.vaddr <= o < s.vaddr + c.slabSize {
      FindReaches(c.full, s, o, c.slabSize);
      FindReaches(c.partial, s, o, c.slabSize);
    }
  }

  /** Entry `i` of `s`, which holds `o`, is released and the slab becomes `t`. An
      empty slab goes to the front of the empty list, the first full one to the
      front of the partial list; any other stays where it is. */
  ghost predicate IsGive(c: Cache, s: Slab, i: nat, t: Slab, c': Cache) {
    && IsUpdate(s, i, false, t) && c'.size == c.size && c'.slabSize == c.slabSize
    && ((exists k :: 0 <= k < |c.full| && c.full[k] == s && GivenFull(c, k, t, c'))
        || (exists k :: 0 <= k < |c.partial| && c.partial[k] == s && GivenPartial(c, k, t, c')))
    && c'.empty == (if NoneUsed(t) then [t] else []) + c.empty
  }

  ghost predicate GivenFull(c: Cache, k: nat, t: Slab, c': Cache)
    requires k < |c.full|
  {
    && c'.full == (if k == 0 || NoneUsed(t) then c.full[..k] + c.full[k + 1..] else c.full[k := t])
    && c'.partial == (if k == 0 && !NoneUsed(t) then [t] else []) + c.partial
  }

  ghost predicate GivenPartial(c: Cache, k: nat, t: Slab, c': Cache)
    requires k < |c.partial|
  {
    && c'.partial == (if NoneUsed(t) then c.partial[..k] + c.partial[k + 1..] else c.partial[k := t])
    && c'.full == c.full
  }

  lemma GiveExact(c: Cache, s: Slab, i: nat, o: nat) returns (t: Slab)
    requires CacheOk(c) && Holds(c, s, i, o)
    ensures Known(c, o) && c.size > 0 && Index(c, o) < ENTRIES
    ensures IsGive(c, s, i, t, Give(c, o))
  {
    hide Used, IsEmpty, Unmark, Slabs, Disjoint, Find, CacheOk, Known, Owner, Index;
    CacheSized(c);
    LiveFound(c, s, i, o);
    t := Slab(s.vaddr, Unmark(s.used, i));
    EmptyMeansUnused(t.used);
    GiveLists(c, s, i, o, t);
  }

  lemma GiveLists(c: Cache, s: Slab, i: nat, o: nat, t: Slab)
    requires Known(c, o) && c.size > 0 && Owner(c, o) == s && Index(c, o) == i < ENTRIES
    requires t == Slab(s.vaddr, Unmark(s.used, i)) && (IsEmpty(t.used) <==> NoneUsed(t)) && IsUpdate(s, i, false, t)
    ensures IsGive(c, s, i, t, Give(c, o))
  {
    hide Used, IsEmpty, Unmark, NoneUsed, IsUpdate, Index;
    var c', k := Give(c, o), Find(c.full, o, c.slabSize);
    assert [] + c.partial == c.partial && [] + c.empty == c.empty;
    if k < |c.full| {
      assert c.full[k] == s;
      assert c.full[1..] == c.full[..0] + c.full[1..];
      assert GivenFull(c, k, t, c');
    } else {
      var j := Find(c.partial, o, c.slabSize);
      assert c.partial[j] == s;
      assert GivenPartial(c, j, t, c');
    }
  }

  /** Freeing a live object makes exactly that object not live. */
  lemma GiveFrees(c: Cache, o: nat)
    requires CacheOk(c) && IsLive(c, o)
    ensures Known(c, o) && c.size > 0 && Index(c, o) < ENTRIES
    ensures var c' := Give(c, o);
      && CacheOk(c') && c'.size == c.size && c'.slabSize == c.slabSize
      && (forall x: nat :: IsLive(c', x) <==> IsLive(c, x) && x != o)
  {
    hide Disjoint, Used, Slabs, Give, Sorted, Owner, Index, Known;
    var s, i :| Holds(c, s, i, o);
    LiveFound(c, s, i, o);
    GiveReplaces(c, o);
    GiveSorted(c, o);
    var c' := Give(c, o);
    ReplacedDisjoint(c, c', s, Slab(s.vaddr, Unmark(s.used, i)));
    forall x: nat ensures IsLive(c', x) <==> IsLive(c, x) && x != o {
      LiveAfterUnmark(c, c', s, i, x);
    }
  }

  /** The test of `__destroy` is exact: both lists are empty if and only if no
      object is live. */
  lemma NothingLiveIff(c: Cache)
    requires CacheOk(c)
    ensures c.partial == [] && c.full == [] <==> forall o: nat :: !IsLive(c, o)
  {
    hide Slabs, Used, IsFull;
    if c.partial == [] && c.full == [] {
      forall o: nat, s, i ensures !Holds(c, s, i, o) {
        SlabsMember(c, s);
        EmptyMeansUnused(s.used);
      }
    } else {
      var s := if c.partial != [] then c.partial[0] else c.full[0];
      SlabsMember(c, s);
      EmptyMeansUnused(s.used);
      var i :| 0 <= i < ENTRIES && Used(s.used, i);
      assert Holds(c, s, i, Object(s, i, c.size));
      assert IsLive(c, Object(s, i, c.size));
    }
  }

  // ------------------------------------------------------------------
  // Memory.

  /** Bytes of the slabs of a cache. */
  ghost function Memory(c: Cache): set<nat> {
    set s, x: nat | s in Slabs(c) && s.vaddr <= x < s.vaddr + c.slabSize && InSlab(s, c.slabSize, x) :: x
  }

  ghost predicate InSlab(s: Slab, n: nat, x: nat) {
    s.vaddr <= x < s.vaddr + n
  }

  ghost predicate PagesOk(c: Cache) {
    forall s :: s in Slabs(c) ==> s.vaddr % PAGE_SIZE == 0
  }

  /** Cache and page allocator fit together. */
  ghost predicate Backed(c: Cache, p: Pool) {
    CacheOk(c) && Valid(p) && PagesOk(c) && Memory(c) !! FreeBytes(p)
  }

  lemma MemoryMember(c: Cache, x: nat)
    ensures x in Memory(c) <==> exists s :: s in Slabs(c) && InSlab(s, c.slabSize, x)
  {
  }

  lemma MemoryReplaced(c: Cache, c': Cache, s: Slab, s': Slab)
    requires Replaced(c, c', s, s') && Disjoint(Slabs(c), c.slabSize)
    ensures Memory(c') == Memory(c) && (PagesOk(c) ==> PagesOk(c'))
  {
    hide Slabs, Memory;
    forall t ensures t in Slabs(c') <==> (t in Slabs(c) && t != s) || t == s' {
      ReplacedMember(c, c', s, s', t);
    }
    forall x: nat ensures x in Memory(c) <==> x in Memory(c') {
      MemoryMember(c, x);
      MemoryMember(c', x);
      if t :| t in Slabs(c) && InSlab(t, c.slabSize, x) {
        var u := if t == s then s' else t;
        assert u in Slabs(c') && InSlab(u, c'.slabSize, x);
      }
      if t :| t in Slabs(c') && InSlab(t, c'.slabSize, x) {
        var u := if t == s' then s else t;
        assert u in Slabs(c) && InSlab(u, c.slabSize, x);
      }
    }
  }

  lemma GrowSlabs(c: Cache, v: nat)
    ensures Slabs(Grow(c, v)) == Slabs(c) + multiset{Slab(v, NONE)}
  {
    MultisetFront(Slab(v, NONE), c.empty);
  }

  lemma MemoryGrown(c: Cache, v: nat)
    ensures Memory(Grow(c, v)) == Memory(c) + Span(v, c.slabSize)
  {
    hide Slabs;
    GrowSlabs(c, v);
    var s := Slab(v, NONE);
    var c' := Grow(c, v);
    forall x | x in Memory(c) + Span(v, c.slabSize) ensures x in Memory(c') {
      if x in Memory(c) {
        var t :| t in Slabs(c) && InSlab(t, c.slabSize, x);
        assert t in Slabs(c') && InSlab(t, c'.slabSize, x);
      } else {
        assert s in Slabs(c') && InSlab(s, c'.slabSize, x);
      }
    }
  }

  lemma SpanInMemory(c: Cache, s: Slab)
    requires s in Slabs(c)
    ensures Span(s.vaddr, c.slabSize) <= Memory(c)
  {
    forall x | x in Span(s.vaddr, c.slabSize) ensures x in Memory(c) {
      assert InSlab(s, c.slabSize, x);
    }
  }

  lemma GrowOk(c: Cache, v: nat)
    requires CacheOk(c) && Span(v, c.slabSize) !! Memory(c)
    ensures CacheOk(Grow(c, v))
  {
    hide Slabs, Memory;
    GrowSlabs(c, v);
    var s := Slab(v, NONE);
    assert IsEmpty(NONE);
    assert c.slabSize > 0;
    forall t | t in Slabs(c) ensures t != s && Apart(s, t, c.slabSize) {
      SpanInMemory(c, t);
      assert v in Span(v, c.slabSize) && t.vaddr in Span(t.vaddr, c.slabSize);
    }
  }

  lemma GrowLive(c: Cache, v: nat, o: nat)
    ensures IsLive(Grow(c, v), o) <==> IsLive(c, o)
  {
    hide Slabs;
    GrowSlabs(c, v);
    var c', s := Grow(c, v), Slab(v, NONE);
    EmptyMeansUnused(NONE);
    assert IsEmpty(NONE);
    if IsLive(c', o) {
      var t, i :| Holds(c', t, i, o);
      assert Holds(c, t, i, o);
    }
    if IsLive(c, o) {
      var t, i :| Holds(c, t, i, o);
      assert Holds(c', t, i, o);
    }
  }

  /** A new slab takes its memory from the pool and has no live object. */
  lemma GrowBacked(c: Cache, p: Pool, p': Pool, v: nat)
    requires Backed(c, p) && Alloc(p, c.slabSize) == (p', Taken(v))
    ensures Backed(Grow(c, v), p')
    ensures Memory(Grow(c, v)) + FreeBytes(p') == Memory(c) + FreeBytes(p)
  {
    hide Slabs, Memory, FreeBytes, Valid, Alloc, Span, Disjoint, HasRun, Sorted;
    assert c.slabSize > 0;
    AllocTakesLowestRun(p, c.slabSize);
    assert IsRun(FreeBytes(p), v, c.slabSize);
    MemoryGrown(c, v);
    GrowOk(c, v);
    GrowSlabs(c, v);
  }

  // ------------------------------------------------------------------
  // Giving the empty slabs back.

  function Areas(list: seq<Slab>, n: nat): seq<Extent> {
    seq(|list|, i requires 0 <= i < |list| => Extent(list[i].vaddr, n))
  }

  function Trimmed(c: Cache): Cache {
    c.(empty := [])
  }

  lemma AreasReleasable(c: Cache, p: Pool)
    requires Backed(c, p)
    ensures Releasable(p, Areas(c.empty, c.slabSize))
  {
    hide Memory, FreeBytes, Valid;
    var es := Areas(c.empty, c.slabSize);
    forall i | 0 <= i < |es| ensures PageAligned(es[i]) && es[i].size > 0 && Span(es[i].base, es[i].size) !! FreeBytes(p) {
      SlabsMember(c, c.empty[i]);
      SpanInMemory(c, c.empty[i]);
    }
    forall i, j | 0 <= i < j < |es| ensures Span(es[i].base, es[i].size) !! Span(es[j].base, es[j].size) {
      SlabsMember(c, c.empty[i]);
      SlabsMember(c, c.empty[j]);
      TwiceInList(c.empty, i, j);
      assert c.empty[i] != c.empty[j];
    }
  }

  lemma TwiceInList(list: seq<Slab>, i: nat, j: nat)
    requires i < j < |list|
    ensures list[i] == list[j] ==> multiset(list)[list[i]] >= 2
  {
    assert list == list[..i] + [list[i]] + list[i + 1..];
    assert list[j] in list[i + 1..] by { assert list[i + 1..][j - i - 1] == list[j]; }
  }

  lemma MemoryTrimmed(c: Cache, x: nat)
    ensures x in Memory(c) <==> x in Memory(Trimmed(c)) || x in Bytes(Areas(c.empty, c.slabSize))
  {
    hide Slabs, Bytes, Memory;
    var es := Areas(c.empty, c.slabSize);
    BytesMember(es, x);
    var d := Trimmed(c);
    forall t ensures t in Slabs(c) <==> t in Slabs(d) || t in c.empty {
      SlabsMember(c, t);
      SlabsMember(d, t);
    }
    MemoryMember(c, x);
    MemoryMember(d, x);
    if t :| t in Slabs(c) && InSlab(t, c.slabSize, x) {
      if t in Slabs(d) {
        assert InSlab(t, d.slabSize, x);
      } else {
        var i :| 0 <= i < |c.empty| && c.empty[i] == t;
        assert Extents.Holds(es[i], x);
      }
    }
    if i :| 0 <= i < |es| && Extents.Holds(es[i], x) {
      assert c.empty[i] in Slabs(c) && InSlab(c.empty[i], c.slabSize, x);
    }
    if t :| t in Slabs(d) && InSlab(t, d.slabSize, x) {
      assert t in Slabs(c) && InSlab(t, c.slabSize, x);
    }
  }

  /** Trimming returns exactly the memory of the empty slabs; live objects are
      untouched. */
  lemma TrimReturns(c: Cache, p: Pool)
    requires Backed(c, p)
    ensures var p' := FreeAll(p, Areas(c.empty, c.slabSize));
      && Backed(Trimmed(c), p')
      && Memory(Trimmed(c)) + FreeBytes(p') == Memory(c) + FreeBytes(p)
      && (forall o: nat :: IsLive(Trimmed(c), o) <==> IsLive(c, o))
  {
    hide Memory, FreeBytes, Valid, Bytes, FreeAll, Areas, Releasable, IsLive, IsFull, Span;
    AreasReleasable(c, p);
    FreeAllBytes(p, Areas(c.empty, c.slabSize));
    TrimOk(c);
    AreasApart(c);
    forall x: nat ensures x in Memory(c) <==> x in Memory(Trimmed(c)) || x in Bytes(Areas(c.empty, c.slabSize)) {
      MemoryTrimmed(c, x);
    }
    forall o: nat ensures IsLive(Trimmed(c), o) <==> IsLive(c, o) {
      TrimLive(c, o);
    }
  }

  lemma TrimOk(c: Cache)
    requires CacheOk(c) && PagesOk(c)
    ensures CacheOk(Trimmed(c)) && PagesOk(Trimmed(c))
  {
    hide IsFull, IsEmpty;
    assert Slabs(Trimmed(c)) <= Slabs(c);
  }

  /** No byte belongs both to an empty slab and to another one. */
  lemma AreasApart(c: Cache)
    requires CacheOk(c)
    ensures Memory(Trimmed(c)) !! Bytes(Areas(c.empty, c.slabSize))
  {
    hide Bytes, IsFull, IsEmpty;
    var es := Areas(c.empty, c.slabSize);
    var d := Trimmed(c);
    forall x: nat | x in Bytes(es) ensures x !in Memory(d) {
      BytesMember(es, x);
      var i :| 0 <= i < |es| && Extents.Holds(es[i], x);
      var s := c.empty[i];
      assert s in multiset(c.empty);
      forall t | t in Slabs(d) ensures !InSlab(t, c.slabSize, x) {
        assert t in Slabs(c) && s in Slabs(c);
        assert t == s ==> Slabs(c)[s] >= 2;
        assert t != s ==> Apart(s, t, c.slabSize);
      }
    }
  }

  lemma TrimLive(c: Cache, o: nat)
    requires Sorted(c)
    ensures IsLive(Trimmed(c), o) <==> IsLive(c, o)
  {
    hide Slabs;
    var d := Trimmed(c);
    if IsLive(c, o) {
      var t, i :| Holds(c, t, i, o);
      SlabsMember(c, t);
      SlabsMember(d, t);
      EmptyMeansUnused(t.used);
      assert Holds(d, t, i, o);
    }
    if IsLive(d, o) {
      var t, i :| Holds(d, t, i, o);
      SlabsMember(c, t);
      SlabsMember(d, t);
      assert Holds(c, t, i, o);
    }
  }

  // ------------------------------------------------------------------
  // Whole calls.

  datatype Option<T> = None | Some(value: T)

  lemma TakeBacked(c: Cache, p: Pool)
    requires Backed(c, p) && (c.partial != [] || c.empty != [])
    ensures ScanFrom(Chosen(c).used, 0) < ENTRIES
    ensures Backed(Take(c).0, p) && Memory(Take(c).0) == Memory(c)
  {
    hide Slabs, Memory, FreeBytes, Valid, Take, ScanFrom, IsLive, PagesOk;
    TakeAllocates(c);
    TakeReplaces(c);
    var s := Chosen(c);
    MemoryReplaced(c, Take(c).0, s, Slab(s.vaddr, Mark(s.used, ScanFrom(s.used, 0))));
  }

  /** A fresh slab has a free entry. */
  lemma FreshScan()
    ensures ScanFrom(NONE, 0) == 0
  {
  }

  /** `__alloc`: extend if there is no slab to use, then take an entry. Only a
      negative return code counts as failure; the address is 0 unless pages
      were taken. */
  function AllocStep(c: Cache, p: Pool): (Cache, Pool, Option<nat>)
    requires Backed(c, p)
  {
    if c.partial == [] && c.empty == [] then
      var (p', o) := Alloc(p, c.slabSize);
      if ReturnCode(o) < 0 then (c, p', None)
      else
        var v := if o.Taken? then o.paddr else 0;
        FreshScan();
        var (c', obj) := Take(Grow(c, v));
        (c', p', Some(obj))
    else
      TakeBacked(c, p);
      var (c', obj) := Take(c);
      (c', p, Some(obj))
  }

  /** What an allocation promises: it fails only when there is no slab and no run
      of pages for one; else it returns a new object and makes nothing else
      live; and no memory is lost or invented. */
  ghost predicate AllocKept(c: Cache, p: Pool, c': Cache, p': Pool, r: Option<nat>) {
    && Backed(c', p') && c'.size == c.size
    && Memory(c') + FreeBytes(p') == Memory(c) + FreeBytes(p)
    && (r.None? <==> c.partial == [] && c.empty == [] && !HasRun(FreeBytes(p), c.slabSize))
    && (r.None? ==> c' == c && p' == p)
    && (r.Some? ==> !IsLive(c, r.value)
                    && forall x: nat :: IsLive(c', x) <==> IsLive(c, x) || x == r.value)
  }

  /** Which object an allocation returns, and from which slab: with no slab to use
      a new one is made of the lowest run of pages. */
  lemma AllocStepExact(c: Cache, p: Pool) returns (s: Slab, i: nat, t: Slab)
    requires Backed(c, p) && Extendable(c, p)
    ensures var (c', p', r) := AllocStep(c, p);
      r.Some? ==>
        if c.partial == [] && c.empty == [] then
          && NoneUsed(s) && IsLowestRun(FreeBytes(p), s.vaddr, c.slabSize)
          && FreeBytes(p') == FreeBytes(p) - Span(s.vaddr, c.slabSize)
          && IsTake(c.(empty := [s]), s, i, t, c', r.value)
        else p' == p && IsTake(c, s, i, t, c', r.value)
  {
    hide Take, IsTake, ScanFrom, FreeBytes, Alloc, HasRun, IsLowestRun, Used, Chosen;
    s, i, t := Slab(0, NONE), 0, Slab(0, NONE);
    if c.partial == [] && c.empty == [] {
      SlabSizePositive(c);
      AllocTakesLowestRun(p, c.slabSize);
      NotRefused(p, c.slabSize);
      var (p', o) := Alloc(p, c.slabSize);
      if o.Taken? {
        FreshTaken(c, o.paddr);
        GrownSlab(c, o.paddr);
        s, i, t := TakeExact(Grow(c, o.paddr));
        var (c', x) := Take(Grow(c, o.paddr));
        TakeFirst(Grow(c, o.paddr), s, i, t, c', x);
      }
    } else {
      TakeBacked(c, p);
      s, i, t := TakeExact(c);
    }
  }

  lemma TakeFirst(c: Cache, s: Slab, i: nat, t: Slab, c': Cache, o: nat)
    requires IsTake(c, s, i, t, c', o) && c.partial == []
    ensures c.empty != [] && s == c.empty[0]
  {
  }

  lemma GrownSlab(c: Cache, v: nat)
    requires c.empty == []
    ensures Grow(c, v) == c.(empty := [Slab(v, NONE)]) && NoneUsed(Slab(v, NONE))
  {
    hide Used;
    EmptyMeansUnused(NONE);
  }

  /** There is a slab to use, or a new one is no larger than the free memory. */
  predicate Extendable(c: Cache, p: Pool) {
    c.partial != [] || c.empty != [] || c.slabSize <= p.freeSpace
  }

  lemma AllocStepKept(c: Cache, p: Pool)
    requires Backed(c, p) && Extendable(c, p)
    ensures var (c', p', r) := AllocStep(c, p); AllocKept(c, p, c', p', r)
  {
    hide Slabs, Memory, FreeBytes, Valid, Take, ScanFrom, IsLive, PagesOk, Alloc, HasRun, Disjoint, Sorted, Grow, Chosen;
    if c.partial == [] && c.empty == [] {
      SlabSizePositive(c);
      AllocTakesLowestRun(p, c.slabSize);
      NotRefused(p, c.slabSize);
      var (p', o) := Alloc(p, c.slabSize);
      if o.Taken? {
        var g := Grow(c, o.paddr);
        GrowParts(c, o.paddr);
        GrowBacked(c, p, p', o.paddr);
        TakeBacked(g, p');
        TakeAllocates(g);
        forall x: nat ensures IsLive(g, x) <==> IsLive(c, x) {
          GrowLive(c, o.paddr, x);
        }
      }
    } else {
      TakeBacked(c, p);
      TakeAllocates(c);
    }
  }

  lemma NotRefused(p: Pool, n: nat)
    requires n % PAGE_SIZE == 0
    ensures Alloc(p, n).1.Refused? <==> n > p.freeSpace
    ensures Alloc(p, n).1.Refused? || Alloc(p, n).1.Exhausted? ==> Alloc(p, n).0 == p
  {
  }

  lemma FreshTaken(c: Cache, v: nat)
    requires c.partial == []
    ensures Grow(c, v).empty != [] && ScanFrom(Chosen(Grow(c, v)).used, 0) < ENTRIES
    ensures var c' := Take(Grow(c, v)).0;
      c'.slabSize == c.slabSize && Slabs(c') == Slabs(c) + multiset{Slab(v, Mark(NONE, 0))}
  {
    FreshScan();
    GrowSlabs(c, v);
    hide Slabs, ScanFrom, Mark, IsFull;
    TakeReplaces(Grow(c, v));
  }

  /** A slab at address 0 that no pages were taken for cannot be accounted for. */
  lemma NullSlabBreaks(c: Cache, p: Pool)
    requires Backed(c, p) && !Extendable(c, p)
    ensures var (c', p', r) := AllocStep(c, p); !AllocKept(c, p, c', p', r)
  {
    var (c', p', r) := AllocStep(c, p);
    hide Alloc, Mark, ScanFrom, Take, Grow, Slabs, FreeBytes, Valid, HasRun, IsLive, Memory, AllocStep, PagesOk, Sorted;
    SlabSizePositive(c);
    NotRefused(p, c.slabSize);
    NullSlab(c, p);
    if Backed(c', p') && Memory(c') + FreeBytes(p') == Memory(c) + FreeBytes(p) {
      var s' := Slab(0, Mark(NONE, 0));
      MemoryMember(c', 0);
      assert s' in Slabs(c') && InSlab(s', c'.slabSize, 0);
      MemoryMember(c, 0);
      var s :| s in Slabs(c) && InSlab(s, c.slabSize, 0);
      SlabsClash(Slabs(c), s, s', c.slabSize);
    }
  }

  lemma SlabsClash(m: multiset<Slab>, s: Slab, s': Slab, n: nat)
    requires s in m && n > 0 && s.vaddr == s'.vaddr
    ensures !Disjoint(m + multiset{s'}, n)
  {
    var m' := m + multiset{s'};
    assert s in m' && s' in m' && (s == s' ==> m'[s] > 1);
  }

  lemma NullSlab(c: Cache, p: Pool)
    requires Backed(c, p) && c.partial == [] && c.empty == [] && Alloc(p, c.slabSize) == (p, Refused)
    ensures var (c', p', r) := AllocStep(c, p);
      && p' == p && c'.slabSize == c.slabSize
      && Slabs(c') == Slabs(c) + multiset{Slab(0, Mark(NONE, 0))}
  {
    hide Alloc, Mark, Slabs, Take, Grow, ScanFrom;
    FreshTaken(c, 0);
  }

  /** An allocation keeps its promises exactly when there is a slab to use or a
      new one is no larger than the free memory. */
  lemma AllocStepIff(c: Cache, p: Pool)
    requires Backed(c, p)
    ensures var (c', p', r) := AllocStep(c, p); AllocKept(c, p, c', p', r) <==> Extendable(c, p)
  {
    hide AllocStep, AllocKept, Backed;
    if Extendable(c, p) {
      AllocStepKept(c, p);
    } else {
      NullSlabBreaks(c, p);
    }
  }

  lemma SlabSizePositive(c: Cache)
    requires Sized(c)
    ensures c.slabSize > 0 && c.slabSize % PAGE_SIZE == 0
  {
  }

  lemma GrowParts(c: Cache, v: nat)
    ensures var g := Grow(c, v); g.size == c.size && g.slabSize == c.slabSize && g.empty != []
  {
  }

  lemma GiveBacked(c: Cache, p: Pool, o: nat)
    requires Backed(c, p) && IsLive(c, o)
    ensures Known(c, o) && c.size > 0 && Index(c, o) < ENTRIES
    ensures Backed(Give(c, o), p) && Memory(Give(c, o)) == Memory(c)
  {
    hide Slabs, Memory, FreeBytes, Valid, Give, IsLive, PagesOk, Owner, Index, Known;
    GiveFrees(c, o);
    GiveReplaces(c, o);
    var s := Owner(c, o);
    MemoryReplaced(c, Give(c, o), s, Slab(s.vaddr, Unmark(s.used, Index(c, o))));
  }

  // ------------------------------------------------------------------
  // Runs.

  datatype Op = AllocOp | FreeOp(o: nat) | TrimOp

  function Step(c: Cache, p: Pool, op: Op): (Cache, Pool)
    requires Backed(c, p) && (op.FreeOp? ==> IsLive(c, op.o))
  {
    match op
    case AllocOp => var (c', p', _) := AllocStep(c, p); (c', p')
    case FreeOp(o) => GiveFrees(c, o); (Give(c, o), p)
    case TrimOp => (Trimmed(c), FreeAll(p, Areas(c.empty, c.slabSize)))
  }

  /** What callers owe: only live objects are freed, and memory suffices for the
      slab an allocation may need. */
  ghost predicate Legal(c: Cache, p: Pool, op: Op) {
    match op
    case AllocOp => Extendable(c, p)
    case FreeOp(o) => IsLive(c, o)
    case TrimOp => true
  }

  lemma StepBacked(c: Cache, p: Pool, op: Op)
    requires Backed(c, p) && Legal(c, p, op)
    ensures var (c', p') := Step(c, p, op);
      Backed(c', p') && Memory(c') + FreeBytes(p') == Memory(c) + FreeBytes(p)
  {
    hide Memory, FreeBytes, AllocStep, Give, Trimmed, FreeAll, IsLive;
    match op
    case AllocOp => AllocStepKept(c, p);
    case FreeOp(o) => GiveBacked(c, p, o);
    case TrimOp => TrimReturns(c, p);
  }

  ghost predicate RunTo(c: Cache, p: Pool, ops: seq<Op>, c': Cache, p': Pool)
    requires Backed(c, p)
    decreases |ops|
  {
    if ops == [] then c' == c && p' == p
    else
      && Legal(c, p, ops[0])
      && (StepBacked(c, p, ops[0]);
          var (cm, pm) := Step(c, p, ops[0]);
          RunTo(cm, pm, ops[1..], c', p'))
  }

  /** Every legal run keeps the slabs disjoint, each on
      the right list, and gives and takes whole slabs of memory only. */
  lemma {:induction false} RunBacked(c: Cache, p: Pool, ops: seq<Op>, c': Cache, p': Pool)
    requires Backed(c, p) && RunTo(c, p, ops, c', p')
    ensures Backed(c', p') && Memory(c') + FreeBytes(p') == Memory(c) + FreeBytes(p)
    decreases |ops|
  {
    hide Backed, Memory, FreeBytes, Step, IsLive;
    if ops != [] {
      StepBacked(c, p, ops[0]);
      var (cm, pm) := Step(c, p, ops[0]);
      RunBacked(cm, pm, ops[1..], c', p');
    }
  }

  /** Destroying a cache with nothing live leaves all its memory in the pool. */
  lemma DestroyLeaksNothing(c: Cache, p: Pool)
    requires Backed(c, p) && forall o: nat :: !IsLive(c, o)
    ensures FreeBytes(FreeAll(p, Areas(c.empty, c.slabSize))) == Memory(c) + FreeBytes(p)
  {
    hide FreeBytes, FreeAll, Areas, IsLive, Valid, IsFull, IsEmpty;
    NothingLiveIff(c);
    TrimReturns(c, p);
    var d := Trimmed(c);
    assert Slabs(d) == multiset{};
    assert Memory(d) == {};
  }

  // ------------------------------------------------------------------
  // Creating a cache.

  const MIN_SIZE: nat := 128

  function AlignUp(x: nat, a: nat): (r: nat)
    requires a > 0
    ensures x <= r
  {
    assert (x + a - 1) / a * a == x + a - 1 - (x + a - 1) % a;
    (x + a - 1) / a * a
  }

  /** Entry size with its alignment, whole pages from half a page on. */
  function EntrySize(size: nat, align: nat): nat
    requires align > 0
  {
    var atLeast := if size < MIN_SIZE then MIN_SIZE else size;
    var aligned := AlignUp(atLeast, align);
    if aligned > PAGE_SIZE / 2 then AlignUp(aligned, PAGE_SIZE) else aligned
  }

  /** Bytes all entries take, in whole pages. */
  function SlabNeed(size: nat, align: nat): nat
    requires align > 0
  {
    AlignUp(EntrySize(size, align) * ENTRIES, PAGE_SIZE)
  }

  const WORD: nat := 0x1_0000_0000
  const TOP: nat := 0x800_0000

  /** What is stored: 32 bits of it. */
  function SlabSize(size: nat, align: nat): nat
    requires align > 0
  {
    SlabNeed(size, align) % WORD
  }

  /** `r` is `x` rounded up to a multiple of `unit`. */
  predicate RoundedUp(x: nat, unit: nat, r: nat)
    requires unit > 0
  {
    r % unit == 0 && x <= r < x + unit
  }

  /** An entry is the object size, 128 bytes at least, rounded up to the
      alignment, and to pages if that is more than half a page; a slab is 32 of
      them, rounded up to pages. */
  lemma SlabNeedExact(size: nat, align: nat) returns (aligned: nat)
    requires align > 0
    ensures RoundedUp(if size < 128 then 128 else size, align, aligned)
    ensures var entry := EntrySize(size, align);
      && (if aligned > 2048 then RoundedUp(aligned, 4096, entry) else entry == aligned)
      && RoundedUp(entry * 32, 4096, SlabNeed(size, align))
  {
    hide AlignUp;
    var atLeast := if size < MIN_SIZE then MIN_SIZE else size;
    aligned := AlignUp(atLeast, align);
    AlignUpMultiple(atLeast, align);
    AlignUpMultiple(aligned, PAGE_SIZE);
    AlignUpMultiple(EntrySize(size, align) * ENTRIES, PAGE_SIZE);
  }

  lemma EntrySizeCovers(size: nat, align: nat)
    requires align > 0
    ensures EntrySize(size, align) >= size
  {
    hide AlignUp;
  }

  lemma AlignUpFactor(x: nat, a: nat)
    requires a > 0
    ensures AlignUp(x, a) == (x + a - 1) / a * a < x + a
  {
  }

  lemma ExactFactor(m: nat, a: nat)
    requires a > 0 && m % a == 0
    ensures m == m / a * a
  {
  }

  lemma AlignUpMultiple(x: nat, a: nat)
    requires a > 0
    ensures AlignUp(x, a) % a == 0 && AlignUp(x, a) < x + a
  {
    var q := (x + a - 1) / a;
    QuotientUnique(q * a, a, q, 0);
  }

  lemma AlignUpBelow(x: nat, a: nat, m: nat)
    requires a > 0 && m % a == 0 && x <= m
    ensures AlignUp(x, a) <= m
  {
    hide AlignUp;
    AlignUpFactor(x, a);
    ExactFactor(m, a);
    FactorBelow((x + a - 1) / a, m / a, a);
  }

  lemma ProductPositive(d: nat, a: nat)
    ensures d * a >= 0
  {
  }

  lemma ProductGrows(k: nat, d: nat, a: nat)
    ensures (k + d) * a == k * a + d * a && d * a >= 0
  {
    ProductPositive(d, a);
  }

  lemma FactorBelow(q: nat, k: nat, a: nat)
    requires q * a < k * a + a
    ensures q * a <= k * a
  {
    if q > k {
      ProductGrows(k + 1, q - k - 1, a);
    } else {
      ProductGrows(q, k - q, a);
    }
  }

  lemma MultipleOfMultiple(x: nat, a: nat, m: nat)
    requires m > 0 && a > 0 && a % m == 0 && x % a == 0
    ensures x % m == 0
  {
    var k, q := a / m, x / a;
    assert x == q * (k * m) == (q * k) * m;
    QuotientUnique(x, m, q * k, 0);
  }

  lemma EntryBelowTop(size: nat, align: nat)
    requires align > 0 && TOP % align == 0 && size < TOP
    ensures EntrySize(size, align) <= TOP
  {
    hide AlignUp;
    var atLeast := if size < MIN_SIZE then MIN_SIZE else size;
    AlignUpBelow(atLeast, align, TOP);
    AlignUpBelow(AlignUp(atLeast, align), PAGE_SIZE, TOP);
  }

  lemma EntryOfTops(size: nat, align: nat)
    requires align > 0 && align % TOP == 0
    ensures EntrySize(size, align) % TOP == 0
  {
    hide AlignUp;
    var atLeast := if size < MIN_SIZE then MIN_SIZE else size;
    var aligned := AlignUp(atLeast, align);
    AlignUpMultiple(atLeast, align);
    MultipleOfMultiple(aligned, align, TOP);
    MultipleOfMultiple(aligned, TOP, PAGE_SIZE);
    AlignUpBelow(aligned, PAGE_SIZE, aligned);
  }

  lemma EntryWhole(size: nat, align: nat)
    requires align > 0
    ensures EntrySize(size, align) > PAGE_SIZE / 2 ==> EntrySize(size, align) % PAGE_SIZE == 0
  {
    hide AlignUp;
    AlignUpMultiple(AlignUp(if size < MIN_SIZE then MIN_SIZE else size, align), PAGE_SIZE);
  }

  /** When 32 objects fit 32 bits but their entries do not, 0 is stored. */
  lemma NeedOverflows(size: nat, align: nat)
    requires align > 0 && (TOP % align == 0 || align % TOP == 0)
    requires size < TOP && SlabNeed(size, align) >= WORD
    ensures SlabSize(size, align) == 0
  {
    hide AlignUp, EntrySize;
    EntryWhole(size, align);
    LargeEntry(EntrySize(size, align));
    if TOP % align == 0 {
      EntryBelowTop(size, align);
    } else {
      EntryOfTops(size, align);
    }
    WholeWords(EntrySize(size, align));
  }

  lemma LargeEntry(r: nat)
    requires r > PAGE_SIZE / 2 ==> r % PAGE_SIZE == 0
    requires AlignUp(r * ENTRIES, PAGE_SIZE) >= WORD
    ensures r > PAGE_SIZE / 2 && r >= TOP && AlignUp(r * ENTRIES, PAGE_SIZE) == r * ENTRIES
  {
    hide AlignUp;
    AlignUpMultiple(r * ENTRIES, PAGE_SIZE);
    if r > PAGE_SIZE / 2 {
      AlignUpBelow(r * ENTRIES, PAGE_SIZE, r * ENTRIES);
    }
  }

  lemma WholeWords(r: nat)
    requires r % TOP == 0
    ensures (r * ENTRIES) % WORD == 0
  {
    var q := r / 0x800_0000;
    assert r * 32 == q * 0x1_0000_0000;
    QuotientUnique(r * 32, 0x1_0000_0000, q, 0);
  }

  /** The stored slab size is whole pages with room for all entries exactly when
      the size needed fits 32 bits. Every power of two, the only alignments the
      rounding is meant for, divides 2^27 or is a multiple of it. */
  lemma CreateSizedIff(size: nat, align: nat)
    requires size > 0 && align > 0 && (TOP % align == 0 || align % TOP == 0)
    ensures Sized(Cache(size, SlabSize(size, align), [], [], [])) <==> SlabNeed(size, align) < WORD
  {
    hide AlignUp, EntrySize;
    EntrySizeCovers(size, align);
    AlignUpMultiple(EntrySize(size, align) * ENTRIES, PAGE_SIZE);
    if SlabNeed(size, align) >= WORD && size < TOP {
      NeedOverflows(size, align);
    }
  }

  lemma MultipleAligned(i: nat, size: nat, align: nat)
    requires align > 0 && size % align == 0
    ensures (i * size) % align == 0
  {
    if i > 0 {
      MultipleAligned(i - 1, size, align);
      var a := (i - 1) * size;
      assert i * size == a + size;
      SumAligned(a, size, align);
    }
  }

  lemma SumAligned(a: nat, b: nat, n: nat)
    requires n > 0 && a % n == 0
    ensures (a + b) % n == b % n
  {
    var q, k := a / n, b / n;
    assert a == q * n;
    assert a + b == (q + k) * n + b % n;
    QuotientUnique(a + b, n, q + k, b % n);
  }

  /** Objects are placed at multiples of the requested size, not of the aligned
      one: all of them honour the alignment exactly when it divides the size. */
  lemma ObjectsAlignedIff(s: Slab, size: nat, align: nat)
    requires align > 0 && s.vaddr % align == 0
    ensures (forall i: nat :: i < ENTRIES ==> Object(s, i, size) % align == 0) <==> size % align == 0
  {
    if size % align == 0 {
      forall i: nat | i < ENTRIES ensures Object(s, i, size) % align == 0 {
        MultipleAligned(i, size, align);
        SumAligned(s.vaddr, i * size, align);
      }
    } else {
      SumAligned(s.vaddr, size, align);
      assert Object(s, 1, size) == s.vaddr + size;
    }
  }

  // ------------------------------------------------------------------
  // The code.

  class SlabCache {
    const allocator: FirstFitAllocator
    const size: nat
    const slabSize: nat
    var empty: seq<Slab>
    var partial: seq<Slab>
    var full: seq<Slab>

    function State(): Cache
      reads this
    {
      Cache(size, slabSize, empty, partial, full)
    }

    constructor (allocator: FirstFitAllocator, size: nat, align: nat)
      requires size > 0 && align > 0
      ensures this.allocator == allocator && this.size == size
      ensures State() == Cache(size, SlabSize(size, align), [], [], [])
    {
      this.allocator, this.size, this.slabSize := allocator, size, SlabSize(size, align);
      empty, partial, full := [], [], [];
    }

    /** Fails only on a negative return code; without pages taken the slab is put
        at address 0. */
    method Extend() returns (ok: bool)
      modifies this, allocator
      ensures var (p, o) := Alloc(old(allocator.State()), slabSize);
        && allocator.State() == p && ok == !o.Exhausted?
        && State() == if !ok then old(State()) else Grow(old(State()), if o.Taken? then o.paddr else 0)
    {
      var o := allocator.AllocPages(slabSize);
      if ReturnCode(o) < 0 {
        return false;
      }
      var paddr := if o.Taken? then o.paddr else 0;
      empty := [Slab(paddr, NONE)] + empty;
      ok := true;
    }

    method CacheAlloc() returns (r: Option<nat>)
      requires Backed(State(), allocator.State())
      modifies this, allocator
      ensures (State(), allocator.State(), r) == AllocStep(old(State()), old(allocator.State()))
    {
      hide Backed, Slabs, Alloc, IsFull, Mark, ScanFrom;
      ghost var c, p := State(), allocator.State();
      if |partial| == 0 {
        if |empty| == 0 {
          var ok := Extend();
          if !ok {
            return None;
          }
          FreshScan();
        }
      }
      if c.partial != [] || c.empty != [] {
        TakeBacked(c, p);
      }
      var obj := TakeEntry();
      r := Some(obj);
    }

    /** The single allocation from the chosen slab, and its move between lists. */
    method TakeEntry() returns (obj: nat)
      requires partial != [] || empty != []
      requires ScanFrom(Chosen(State()).used, 0) < ENTRIES
      modifies this
      ensures (State(), obj) == Take(old(State()))
    {
      hide IsFull, Mark, ScanFrom;
      ghost var c := State();
      var slab := if |partial| > 0 then partial[0] else empty[0];
      NotFullFromScan(slab.used);
      var i := Scan(slab.used);
      var changed := Slab(slab.vaddr, Mark(slab.used, i));
      if |partial| > 0 {
        partial := partial[1..];
      } else {
        empty := empty[1..];
      }
      if IsFull(changed.used) {
        full := [changed] + full;
      } else {
        partial := [changed] + partial;
      }
      obj := Object(slab, i, size);
    }

    static method Search(list: seq<Slab>, o: nat, n: nat) returns (k: nat)
      ensures k == Find(list, o, n)
    {
      k := 0;
      while k < |list|
        invariant 0 <= k <= |list|
        invariant Find(list, o, n) == k + Find(list[k..], o, n)
      {
        if list[k].vaddr <= o < list[k].vaddr + n {
          break;
        }
        assert list[k..][1..] == list[k + 1..];
        k := k + 1;
      }
    }

    /** False for an address that belongs to no slab in use. */
    method CacheFree(o: nat) returns (ok: bool)
      requires size > 0 && (Known(State(), o) ==> Index(State(), o) < ENTRIES)
      modifies this
      ensures ok == old(Known(State(), o))
      ensures !ok ==> State() == old(State())
      ensures ok ==> old(Known(State(), o) && Index(State(), o) < ENTRIES) && State() == Give(old(State()), o)
    {
      hide IsEmpty, Unmark;
      var k := Search(full, o, slabSize);
      var j := Search(partial, o, slabSize);
      if k == |full| && j == |partial| {
        return false;
      }
      var inFull := k < |full|;
      var slab := if inFull then full[k] else partial[j];
      var i := (o - slab.vaddr) / size;
      var changed := Slab(slab.vaddr, Unmark(slab.used, i));
      if IsEmpty(changed.used) {
        if inFull { full := Without(full, k); } else { partial := Without(partial, j); }
        empty := [changed] + empty;
      } else if inFull && k == 0 {
        full := full[1..];
        partial := [changed] + partial;
      } else if inFull {
        full := full[k := changed];
      } else {
        partial := partial[j := changed];
      }
      ok := true;
    }

    method Trim()
      modifies this, allocator
      ensures State() == Trimmed(old(State()))
      ensures allocator.State() == FreeAll(old(allocator.State()), Areas(old(empty), slabSize))
    {
      ghost var areas, p := Areas(empty, slabSize), allocator.State();
      assert areas[0..] == areas;
      var i := 0;
      while i < |empty|
        invariant 0 <= i <= |empty| && State() == old(State())
        invariant FreeAll(p, areas) == FreeAll(allocator.State(), areas[i..])
      {
        allocator.FreePages(Extent(empty[i].vaddr, slabSize));
        assert areas[i..][1..] == areas[i + 1..];
        i := i + 1;
      }
      empty := [];
    }

    /** Refuses while an object is live, else gives every slab back. */
    method DestroyCache() returns (ok: bool)
      requires Backed(State(), allocator.State())
      modifies this, allocator
      ensures ok <==> forall o: nat :: !IsLive(old(State()), o)
      ensures !ok ==> State() == old(State()) && allocator.State() == old(allocator.State())
      ensures ok ==> FreeBytes(allocator.State()) == Memory(old(State())) + FreeBytes(old(allocator.State()))
    {
      hide Memory, FreeBytes, IsLive, FreeAll, Areas, Disjoint, Valid;
      NothingLiveIff(State());
      if |partial| > 0 {
        return false;
      }
      if |full| > 0 {
        return false;
      }
      DestroyLeaksNothing(State(), allocator.State());
      Trim();
      ok := true;
    }
  }

  lemma NotFullFromScan(u: Bitmap)
    requires ScanFrom(u, 0) < ENTRIES
    ensures !IsFull(u)
  {
    ScanFinds(u, 0);
    FullMeansUsed(u);
  }
}
