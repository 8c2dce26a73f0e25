/** Any number of address spaces that share one page allocator, made, used and
    destroyed in any order. */
module Coexistence {
  import opened Extents
  import opened PageAllocator
  import opened MipsPageTable
  import opened UserMemory

  datatype Space = Space(frame: nat, t: Table, vs: seq<Vma>)

  datatype World = World(spaces: seq<Space>, pool: Pool)

  ghost function HeldBy(s: Space): set<nat> {
    Held(s.frame, s.t, s.vs)
  }

  ghost function AllHeld(ss: seq<Space>): set<nat> {
    set i, f | 0 <= i < |ss| && f in HeldBy(ss[i]) :: f
  }

  /** What the spaces other than space `k` hold. */
  ghost function Others(ss: seq<Space>, k: nat): set<nat> {
    set i, f | 0 <= i < |ss| && i != k && f in HeldBy(ss[i]) :: f
  }

  ghost predicate Apart(ss: seq<Space>) {
    forall i, j :: 0 <= i < j < |ss| ==> HeldBy(ss[i]) !! HeldBy(ss[j])
  }

  /** Every space is sound, no two hold a page in common, and the pool lacks
      exactly what they hold; `all` is the pool with everything given back. */
  ghost predicate WorldOk(all: Pool, w: World) {
    && Valid(all) && Low(all)
    && (forall i :: 0 <= i < |w.spaces| ==> Shape(w.spaces[i].frame, w.spaces[i].t, w.spaces[i].vs))
    && Apart(w.spaces)
    && Took(all, w.pool, AllHeld(w.spaces))
  }

  // ------------------------------------------------------------------
  // Pools and sets of pages.

  /** Giving back a set of pages that are not free, in whatever order. */
  lemma {:induction false} GiveSet(p: Pool, fs: set<nat>) returns (q: Pool)
    requires Valid(p) && Bases(fs) && PageBytes(fs) !! FreeBytes(p)
    ensures Gave(p, q, fs)
    decreases fs
  {
    hide FreeBytes, Free, Valid;
    if fs == {} {
      TookNothing(p);
      q := p;
    } else {
      var f :| f in fs;
      var rest := fs - {f};
      assert fs == rest + {f};
      PageBytesAdd(rest, {f});
      PageBytesOne(f);
      q := GiveSet(p, rest);
      GiveOne(p, q, rest, f);
      q := Free(q, Extent(f, PAGE_SIZE));
    }
  }

  lemma GaveIsTook(p: Pool, q: Pool, fs: set<nat>)
    requires Valid(p) && Gave(p, q, fs)
    ensures Took(q, p, fs)
  {
    hide FreeBytes, PageBytes, Valid;
  }

  lemma TookClear(all: Pool, p: Pool, a: set<nat>, b: set<nat>)
    requires Took(all, p, a + b)
    ensures Valid(p) && Bases(a) && PageBytes(a) !! FreeBytes(p)
  {
    hide FreeBytes, Valid;
    PageBytesAdd(a, b);
  }

  lemma TookLow(all: Pool, p: Pool, fs: set<nat>)
    requires Low(all) && Took(all, p, fs)
    ensures Low(p) && Valid(p)
  {
    hide FreeBytes, PageBytes, Valid;
  }

  lemma SplitHeld(ss: seq<Space>, k: nat)
    requires k < |ss| && Apart(ss)
    ensures AllHeld(ss) == HeldBy(ss[k]) + Others(ss, k) && HeldBy(ss[k]) !! Others(ss, k)
  {
    hide HeldBy;
  }

  lemma ReplacedHeld(ss: seq<Space>, k: nat, s: Space)
    requires k < |ss| && Apart(ss) && HeldBy(s) !! Others(ss, k)
    ensures Apart(ss[k := s]) && AllHeld(ss[k := s]) == Others(ss, k) + HeldBy(s)
  {
    hide HeldBy;
    var rs := ss[k := s];
    forall f | f in AllHeld(rs) ensures f in Others(ss, k) + HeldBy(s) {
      var i :| 0 <= i < |rs| && f in HeldBy(rs[i]);
    }
    forall f | f in HeldBy(s) ensures f in AllHeld(rs) {
      assert f in HeldBy(rs[k]);
    }
    forall f | f in Others(ss, k) ensures f in AllHeld(rs) {
      var i :| 0 <= i < |ss| && i != k && f in HeldBy(ss[i]);
      assert f in HeldBy(rs[i]);
    }
  }

  function Without(ss: seq<Space>, k: nat): seq<Space>
    requires k < |ss|
  {
    ss[..k] + ss[k + 1..]
  }

  lemma RemovedHeld(ss: seq<Space>, k: nat)
    requires k < |ss| && Apart(ss)
    ensures Apart(Without(ss, k)) && AllHeld(Without(ss, k)) == Others(ss, k)
  {
    hide HeldBy;
    var rs := Without(ss, k);
    assert forall i :: 0 <= i < |rs| ==> rs[i] == ss[if i < k then i else i + 1];
    forall f | f in Others(ss, k) ensures f in AllHeld(rs) {
      var i :| 0 <= i < |ss| && i != k && f in HeldBy(ss[i]);
      assert rs[if i < k then i else i - 1] == ss[i];
    }
  }

  lemma AddedHeld(ss: seq<Space>, s: Space)
    requires Apart(ss) && HeldBy(s) !! AllHeld(ss)
    ensures Apart(ss + [s]) && AllHeld(ss + [s]) == AllHeld(ss) + HeldBy(s)
  {
    hide HeldBy;
    var rs := ss + [s];
    assert rs[|ss|] == s && forall i :: 0 <= i < |ss| ==> rs[i] == ss[i];
    forall f | f in AllHeld(ss) ensures f in AllHeld(rs) {
      var i :| 0 <= i < |ss| && f in HeldBy(ss[i]);
      assert f in HeldBy(rs[i]);
    }
    forall f | f in HeldBy(s) ensures f in AllHeld(rs) {
      assert f in HeldBy(rs[|ss|]);
    }
  }

  // ------------------------------------------------------------------
  // What one call does.

  /** A call of mm_new, or of mm_destroy, create_uvm or destroy_uvm for the
      space at a position. */
  datatype Event =
    | NewMm(stale: int)
    | DestroyMm(at: nat)
    | Create(at: nat, addr: nat, len: nat, flags: nat, sentry: Sentry, descriptors: nat, stale: int)
    | Destroy(at: nat, addr: nat, len: nat, sentry: Sentry)

  /** What callers owe. */
  predicate InBounds(e: Event) {
    match e
    case NewMm(stale) => stale >= -1
    case DestroyMm(_) => true
    case Create(_, addr, len, _, _, _, stale) => addr + len < PAGES * PAGE_SIZE && stale >= -1
    case Destroy(_, addr, len, _) => addr + len < PAGES * PAGE_SIZE
  }

  predicate WholePageRange(addr: nat, len: nat) {
    len % PAGE_SIZE == 0 && addr % PAGE_SIZE == 0
  }

  predicate Rejected(vs: seq<Vma>, addr: nat, len: nat, sentry: Sentry) {
    !WholePageRange(addr, len) || LooksOverlapping(vs, addr / PAGE_SIZE, len / PAGE_SIZE, sentry)
  }

  /** The result of `create_uvm` past the tests, as `CreateUvm` promises it. */
  ghost function EndOf(s: Space, p: Pool, e: Event): CreateResult
    requires e.Create?
  {
    var a, n := e.addr / PAGE_SIZE, e.len / PAGE_SIZE;
    CreateEnd(Place(s.vs, a + n), s.t, p, a, n, e.descriptors, e.stale)
  }

  /** The call neither worked on a page it never got nor took the list head for
      an area. A call for a space that is not there is not made. */
  ghost predicate EndsWell(w: World, e: Event) {
    match e
    case NewMm(stale) => w.pool.freeSpace > 0 || stale == -1
    case DestroyMm(_) => true
    case Create(at, addr, len, _, sentry, _, _) =>
      at < |w.spaces| && !Rejected(w.spaces[at].vs, addr, len, sentry) ==>
        var r := EndOf(w.spaces[at], w.pool, e);
        r.Created? || r.Failed?
    case Destroy(at, addr, len, sentry) =>
      at < |w.spaces| && WholePageRange(addr, len) ==>
        !EndsAtHead(w.spaces[at].vs, addr / PAGE_SIZE, len / PAGE_SIZE, sentry)
  }

  /** What a call for one space does to it and to the pool. It keeps the space
      sound, and what the space holds comes out of the pool or goes back to it. */
  ghost predicate ActStep(s: Space, p: Pool, e: Event, s': Space, p': Pool)
    requires e.Create? || e.Destroy?
  {
    && s'.frame == s.frame && Keeps(s, p, s', p')
    && match e
       case Create(_, addr, len, flags, sentry, _, _) =>
         if Rejected(s.vs, addr, len, sentry) then s' == s && p' == p
         else CreateSpec(s.vs, s.t, p, s'.vs, s'.t, p', addr / PAGE_SIZE, len / PAGE_SIZE, flags, EndOf(s, p, e))
       case Destroy(_, addr, len, _) =>
         var a, n := addr / PAGE_SIZE, len / PAGE_SIZE;
         if WholePageRange(addr, len) && HasPage(s.vs, a) && Covered(s.vs, a, n) then
           Remaining(s.vs, s'.vs, a, n) && Shrunk(s.t, s'.t)
         else s' == s && p' == p
  }

  ghost predicate Keeps(s: Space, p: Pool, s': Space, p': Pool) {
    exists home :: Valid(home) && MmGood(home, s.frame, s.t, p, s.vs) && MmGood(home, s'.frame, s'.t, p', s'.vs)
  }

  ghost predicate EventStep(w: World, e: Event, w': World) {
    && EndsWell(w, e)
    && match e
       case NewMm(_) =>
         if w.pool.freeSpace == 0 then w' == w
         else exists f :: w'.spaces == w.spaces + [Space(f, EMPTY, [])] && Took(w.pool, w'.pool, {f})
       case DestroyMm(at) =>
         if at >= |w.spaces| then w' == w
         else w'.spaces == Without(w.spaces, at) && Gave(w.pool, w'.pool, HeldBy(w.spaces[at]))
       case _ =>
         if e.at >= |w.spaces| then w' == w
         else
           && |w'.spaces| == |w.spaces| && w'.spaces == w.spaces[e.at := w'.spaces[e.at]]
           && ActStep(w.spaces[e.at], w.pool, e, w'.spaces[e.at], w'.pool)
  }

  /** The calls `es`, all of which end well, lead from `w0` to `w`. */
  ghost predicate RunsTo(w0: World, es: seq<Event>, w: World)
    decreases |es|
  {
    if es == [] then w == w0
    else
      var n := |es| - 1;
      exists m :: RunsTo(w0, es[..n], m) && EventStep(m, es[n], w)
  }

  // ------------------------------------------------------------------
  // What every run keeps.

  lemma NewKeeps(all: Pool, w: World, f: nat, p: Pool)
    requires WorldOk(all, w) && Took(w.pool, p, {f})
    ensures WorldOk(all, World(w.spaces + [Space(f, EMPTY, [])], p))
  {
    hide Took, Low, Valid, Shape, Apart, AllHeld;
    var s := Space(f, EMPTY, []);
    NewHeld(s);
    TookMore(all, w.pool, p, AllHeld(w.spaces), {f});
    AddedHeld(w.spaces, s);
  }

  lemma NewHeld(s: Space)
    requires s.t == EMPTY && s.vs == []
    ensures HeldBy(s) == {s.frame} && Shape(s.frame, s.t, s.vs)
  {
    hide Took;
    assert Frames(EMPTY.dir) == {};
    assert EMPTY.leaves.Keys == {} && OwnFrames([]) == {};
  }

  lemma DestroyKeeps(all: Pool, w: World, at: nat, p: Pool)
    requires WorldOk(all, w) && at < |w.spaces| && Gave(w.pool, p, HeldBy(w.spaces[at]))
    ensures WorldOk(all, World(Without(w.spaces, at), p))
  {
    hide Took, Gave, Low, Valid, Shape, Apart, AllHeld, Others, HeldBy;
    SplitHeld(w.spaces, at);
    TookLess(all, w.pool, p, AllHeld(w.spaces), HeldBy(w.spaces[at]));
    assert AllHeld(w.spaces) - HeldBy(w.spaces[at]) == Others(w.spaces, at);
    RemovedHeld(w.spaces, at);
  }

  /** A call for one space leaves the others and what they hold alone. */
  lemma ActKeeps(all: Pool, w: World, at: nat, s: Space, p: Pool)
    requires WorldOk(all, w) && at < |w.spaces| && Keeps(w.spaces[at], w.pool, s, p)
    ensures WorldOk(all, World(w.spaces[at := s], p))
  {
    hide Took, Gave, Low, Valid, Shape, Apart, AllHeld, Others, Held;
    var s0 := w.spaces[at];
    var home :| Valid(home) && MmGood(home, s0.frame, s0.t, w.pool, s0.vs) && MmGood(home, s.frame, s.t, p, s.vs);
    SplitHeld(w.spaces, at);
    HeldGiven(home, s0.frame, s0.t, w.pool, s0.vs);
    TookLess(all, w.pool, home, AllHeld(w.spaces), HeldBy(s0));
    assert AllHeld(w.spaces) - HeldBy(s0) == Others(w.spaces, at);
    TookMore(all, home, p, Others(w.spaces, at), HeldBy(s));
    ReplacedHeld(w.spaces, at, s);
  }

  lemma StepKeeps(all: Pool, w: World, e: Event, w': World)
    requires WorldOk(all, w) && EventStep(w, e, w')
    ensures WorldOk(all, w')
  {
    hide WorldOk, EndsWell, Took, Gave, HeldBy, Keeps;
    match e
    case NewMm(_) =>
      if w.pool.freeSpace != 0 {
        var f :| w'.spaces == w.spaces + [Space(f, EMPTY, [])] && Took(w.pool, w'.pool, {f});
        NewKeeps(all, w, f, w'.pool);
      }
    case DestroyMm(at) =>
      if at < |w.spaces| {
        DestroyKeeps(all, w, at, w'.pool);
      }
    case _ =>
      if e.at < |w.spaces| {
        ActStepKeeps(w.spaces[e.at], w.pool, e, w'.spaces[e.at], w'.pool);
        ActKeeps(all, w, e.at, w'.spaces[e.at], w'.pool);
      }
  }

  lemma StepEndsWell(w: World, e: Event, w': World)
    requires EventStep(w, e, w')
    ensures EndsWell(w, e)
  {
  }

  lemma ActStepKeeps(s: Space, p: Pool, e: Event, s': Space, p': Pool)
    requires (e.Create? || e.Destroy?) && ActStep(s, p, e, s', p')
    ensures Keeps(s, p, s', p')
  {
  }

  /** In every run of calls that end well, over any number of spaces, every
      space stays sound, no two ever hold a page in common, and the pool lacks
      exactly what all of them hold. */
  lemma {:induction false} RunKeeps(all: Pool, w0: World, es: seq<Event>, w: World)
    requires WorldOk(all, w0) && RunsTo(w0, es, w)
    ensures WorldOk(all, w)
    decreases |es|
  {
    hide WorldOk, EventStep;
    if es != [] {
      var n := |es| - 1;
      var m :| RunsTo(w0, es[..n], m) && EventStep(m, es[n], w);
      RunKeeps(all, w0, es[..n], m);
      StepKeeps(all, m, es[n], w);
    }
  }

  lemma NoSpaces(all: Pool)
    requires Valid(all) && Low(all)
    ensures WorldOk(all, World([], all))
  {
    hide Valid, Low;
    assert AllHeld([]) == {};
    TookNothing(all);
  }

  /** A run from no spaces to no spaces leaves the page free list exactly as it
      was, whatever was made, mapped, unmapped and destroyed in between. */
  lemma RunLeaksNoPage(all: Pool, es: seq<Event>, w: World)
    requires Valid(all) && Low(all) && RunsTo(World([], all), es, w) && w.spaces == []
    ensures w.pool == all
  {
    hide Valid, Low, Took, RunsTo;
    NoSpaces(all);
    RunKeeps(all, World([], all), es, w);
    assert AllHeld([]) == {};
    TookNone(all, w.pool);
  }

  lemma RunsNowhere(w: World, es: seq<Event>)
    ensures RunsTo(w, es[..0], w)
  {
  }

  lemma RunsOn(w0: World, es: seq<Event>, i: nat, w: World, w': World)
    requires i < |es| && RunsTo(w0, es[..i], w) && EventStep(w, es[i], w')
    ensures RunsTo(w0, es[..i + 1], w')
  {
    hide EventStep;
    assert es[..i + 1][..i] == es[..i];
  }

  // ------------------------------------------------------------------
  // The code.

  function ViewOf(a: AddressSpace): Space
    reads a, a.index
  {
    Space(a.index.frame, a.index.Tables(), a.vmas)
  }

  ghost function Parts(xs: seq<AddressSpace>): set<object> {
    (set x: AddressSpace | x in xs :: x as object) + (set x: AddressSpace | x in xs :: x.index as object)
  }

  /** The objects are different ones and stand as `w` says. */
  ghost predicate Stands(xs: seq<AddressSpace>, allocator: FirstFitAllocator, w: World)
    reads Parts(xs), allocator
  {
    && |xs| == |w.spaces| && w.pool == allocator.State()
    && (forall i, j :: 0 <= i < j < |xs| ==> xs[i] != xs[j] && xs[i].index != xs[j].index)
    && (forall i :: 0 <= i < |xs| ==>
          && xs[i].allocator == allocator && xs[i].index.allocator == allocator
          && ViewOf(xs[i]) == w.spaces[i])
  }

  /** The pool with only the pages of space `at` given back. */
  lemma HomeOf(all: Pool, w: World, at: nat) returns (home: Pool)
    requires WorldOk(all, w) && at < |w.spaces|
    ensures var s := w.spaces[at]; Valid(home) && Low(home) && MmGood(home, s.frame, s.t, w.pool, s.vs)
  {
    hide Shape, Took, Gave, Held, Low, FreeBytes, PageBytes, Bases, Valid, AllHeld, Others, Apart;
    var own, others := HeldBy(w.spaces[at]), Others(w.spaces, at);
    SplitHeld(w.spaces, at);
    TookClear(all, w.pool, own, others);
    home := GiveSet(w.pool, own);
    GaveIsTook(w.pool, home, own);
    TookLess(all, w.pool, home, own + others, own);
    TookLow(all, home, own + others - own);
  }

  /** One call. It ends well exactly when the state before it says so, and then
      does what it promises. */
  method Make(xs: seq<AddressSpace>, allocator: FirstFitAllocator, e: Event, ghost w: World, ghost all: Pool)
    returns (well: bool, ys: seq<AddressSpace>, ghost w': World)
    requires Stands(xs, allocator, w) && WorldOk(all, w) && InBounds(e)
    modifies Parts(xs), allocator
    ensures well <==> EndsWell(w, e)
    ensures well ==> EventStep(w, e, w') && Stands(ys, allocator, w')
    ensures fresh(Parts(ys) - Parts(xs))
  {
    hide WorldOk, EndsWell, EventStep, Stands;
    match e {
      case NewMm(stale) =>
        well, ys, w' := MakeNew(xs, allocator, stale, w, all);
      case DestroyMm(at) =>
        ys, w' := MakeDestroy(xs, allocator, at, w, all);
        StepEndsWell(w, e, w');
        well := true;
      case Create(at, _, _, _, _, _, _) =>
        ys := xs;
        well, w' := Act(xs, allocator, e, w, all);
      case Destroy(at, _, _, _) =>
        ys := xs;
        well, w' := Act(xs, allocator, e, w, all);
    }
  }

  method MakeNew(xs: seq<AddressSpace>, allocator: FirstFitAllocator, stale: int, ghost w: World, ghost all: Pool)
    returns (well: bool, ys: seq<AddressSpace>, ghost w': World)
    requires Stands(xs, allocator, w) && WorldOk(all, w) && stale >= -1
    modifies allocator
    ensures well <==> EndsWell(w, NewMm(stale))
    ensures well ==> EventStep(w, NewMm(stale), w') && Stands(ys, allocator, w')
    ensures fresh(Parts(ys) - Parts(xs))
  {
    hide Took, Low, Valid, Shape, Apart, AllHeld, MmGood;
    TookLow(all, w.pool, AllHeld(w.spaces));
    var backed := allocator.freeSpace > 0;
    var mm := AddressSpace.MmNew(allocator, stale);
    if mm == null {
      return true, xs, w;
    }
    well := backed;
    ys := xs + [mm];
    w' := World(w.spaces + [ViewOf(mm)], allocator.State());
    NewGood(w.pool, mm.index.frame, allocator.State());
  }

  method MakeDestroy(xs: seq<AddressSpace>, allocator: FirstFitAllocator, at: nat, ghost w: World, ghost all: Pool)
    returns (ys: seq<AddressSpace>, ghost w': World)
    requires Stands(xs, allocator, w) && WorldOk(all, w)
    modifies Parts(xs), allocator
    ensures EventStep(w, DestroyMm(at), w') && Stands(ys, allocator, w')
    ensures Parts(ys) <= Parts(xs)
  {
    hide WorldOk, Gave, Held, Without, Valid, Low, MmGood;
    if at >= |xs| {
      return xs, w;
    }
    ghost var home := HomeOf(all, w, at);
    xs[at].MmDestroy(home);
    ys := xs[..at] + xs[at + 1..];
    w' := World(Without(w.spaces, at), allocator.State());
    StandsWithout(xs, allocator, w, at);
  }

  lemma StandsWithout(xs: seq<AddressSpace>, allocator: FirstFitAllocator, w: World, at: nat)
    requires |xs| == |w.spaces| && at < |xs|
    requires forall i, j :: 0 <= i < j < |xs| ==> xs[i] != xs[j] && xs[i].index != xs[j].index
    requires forall i :: 0 <= i < |xs| && i != at ==>
      && xs[i].allocator == allocator && xs[i].index.allocator == allocator
      && ViewOf(xs[i]) == w.spaces[i]
    ensures Stands(xs[..at] + xs[at + 1..], allocator, World(Without(w.spaces, at), allocator.State()))
  {
    hide ViewOf;
    var ys, ss := xs[..at] + xs[at + 1..], Without(w.spaces, at);
    assert forall i :: 0 <= i < |ys| ==> ys[i] == xs[if i < at then i else i + 1];
    assert forall i :: 0 <= i < |ss| ==> ss[i] == w.spaces[if i < at then i else i + 1];
  }

  /** A call for one space; the other objects are not touched. */
  method Act(xs: seq<AddressSpace>, allocator: FirstFitAllocator, e: Event, ghost w: World, ghost all: Pool)
    returns (well: bool, ghost w': World)
    requires Stands(xs, allocator, w) && WorldOk(all, w) && InBounds(e) && (e.Create? || e.Destroy?)
    modifies Parts(xs), allocator
    ensures well <==> EndsWell(w, e)
    ensures well ==> EventStep(w, e, w') && Stands(xs, allocator, w')
  {
    hide WorldOk, ActStep, MmGood, Low, Valid;
    if e.at >= |xs| {
      return true, w;
    }
    ghost var home := HomeOf(all, w, e.at);
    var x := xs[e.at];
    assert x in xs && {x, x.index} <= Parts(xs);
    if e.Create? {
      well := ActCreate(x, e, home);
    } else {
      well := ActDestroy(x, e, home);
    }
    w' := World(w.spaces[e.at := ViewOf(x)], allocator.State());
  }

  method ActCreate(x: AddressSpace, e: Event, ghost home: Pool) returns (well: bool)
    requires x.Ok(home) && InBounds(e) && e.Create?
    modifies x, x.index, x.allocator
    ensures well <==>
      || Rejected(old(x.vmas), e.addr, e.len, e.sentry)
      || EndOf(old(ViewOf(x)), old(x.allocator.State()), e).Created?
      || EndOf(old(ViewOf(x)), old(x.allocator.State()), e).Failed?
    ensures well ==> ActStep(old(ViewOf(x)), old(x.allocator.State()), e, ViewOf(x), x.allocator.State())
  {
    hide MmGood, Low, Valid, CreateEnd, Place, LooksOverlapping, CreateSpec;
    var r := x.CreateUvm(e.addr, e.len, e.flags, e.sentry, e.descriptors, e.stale, home);
    well := r.BadArgument? || r.Overlaps? || r.Created? || r.Failed?;
    CreateUntouched(old(x.vmas), old(x.index.Tables()), old(x.allocator.State()),
                    x.vmas, x.index.Tables(), x.allocator.State(), e.addr / PAGE_SIZE, e.len / PAGE_SIZE, e.flags, r);
  }

  lemma CreateUntouched(vs0: seq<Vma>, t0: Table, p0: Pool, vs: seq<Vma>, t: Table, p: Pool,
                        a: nat, n: nat, flags: nat, r: CreateResult)
    requires CreateSpec(vs0, t0, p0, vs, t, p, a, n, flags, r)
    ensures r.BadArgument? || r.Overlaps? ==> vs == vs0 && t == t0 && p == p0
  {
  }

  method ActDestroy(x: AddressSpace, e: Event, ghost home: Pool) returns (well: bool)
    requires x.Ok(home) && InBounds(e) && e.Destroy?
    modifies x, x.index, x.allocator
    ensures well <==>
      (WholePageRange(e.addr, e.len) ==> !EndsAtHead(old(x.vmas), e.addr / PAGE_SIZE, e.len / PAGE_SIZE, e.sentry))
    ensures well ==> ActStep(old(ViewOf(x)), old(x.allocator.State()), e, ViewOf(x), x.allocator.State())
  {
    hide MmGood, Low, Valid, HasPage, Covered, Remaining, Shrunk, EndsAtHead;
    var r := x.DestroyUvm(e.addr, e.len, e.sentry, home);
    well := !r.RanOver?;
  }

  /** Any calls for any number of spaces, up to the first that does not end well;
      `done` says how many did. The ghost result is the state before that call,
      or at the end. */
  method MakeAll(allocator: FirstFitAllocator, es: seq<Event>)
    returns (done: nat, xs: seq<AddressSpace>, ghost w: World)
    requires Valid(allocator.State()) && Low(allocator.State())
    requires forall i :: 0 <= i < |es| ==> InBounds(es[i])
    modifies allocator
    ensures done <= |es|
    ensures RunsTo(World([], old(allocator.State())), es[..done], w) && WorldOk(old(allocator.State()), w)
    ensures done < |es| ==> !EndsWell(w, es[done])
    ensures done == |es| ==> Stands(xs, allocator, w)
    ensures fresh(Parts(xs))
  {
    hide WorldOk, EndsWell, EventStep, RunsTo, Valid, Low, InBounds;
    ghost var all := allocator.State();
    done, xs, w := 0, [], World([], all);
    NoSpaces(all);
    RunsNowhere(w, es);
    while done < |es|
      invariant done <= |es| && Stands(xs, allocator, w) && WorldOk(all, w)
      invariant RunsTo(World([], all), es[..done], w)
      invariant fresh(Parts(xs))
    {
      var well, ys;
      ghost var w';
      well, ys, w' := Make(xs, allocator, es[done], w, all);
      if !well {
        return done, xs, w;
      }
      StepKeeps(all, w, es[done], w');
      RunsOn(World([], all), es, done, w, w');
      done, xs, w := done + 1, ys, w';
    }
  }

  /** Destroying the spaces that are left gives back everything. */
  method DestroyAll(xs: seq<AddressSpace>, allocator: FirstFitAllocator, ghost w: World, ghost all: Pool)
    requires Stands(xs, allocator, w) && WorldOk(all, w)
    modifies Parts(xs), allocator
    ensures allocator.State() == all
  {
    hide Took, Low, Valid, EventStep;
    var ys := xs;
    ghost var v := w;
    while |ys| > 0
      invariant Stands(ys, allocator, v) && WorldOk(all, v)
      invariant Parts(ys) <= Parts(xs)
      decreases |ys|
    {
      var zs;
      ghost var v';
      zs, v' := MakeDestroy(ys, allocator, 0, v, all);
      StepKeeps(all, v, DestroyMm(0), v');
      DestroyShrinks(v, v');
      ys, v := zs, v';
    }
    assert v.spaces == [] && AllHeld([]) == {};
    TookNone(all, v.pool);
  }

  lemma DestroyShrinks(w: World, w': World)
    requires w.spaces != [] && EventStep(w, DestroyMm(0), w')
    ensures |w'.spaces| == |w.spaces| - 1
  {
  }

  /** Spaces made, used and destroyed in any order, and the rest destroyed at the
      end, leave the page free list exactly as it was, unless a call does not
      end well in the state `w` it was made in. */
  method Lifetimes(allocator: FirstFitAllocator, es: seq<Event>) returns (done: nat, ghost w: World)
    requires Valid(allocator.State()) && Low(allocator.State())
    requires forall i :: 0 <= i < |es| ==> InBounds(es[i])
    modifies allocator
    ensures done <= |es|
    ensures RunsTo(World([], old(allocator.State())), es[..done], w) && WorldOk(old(allocator.State()), w)
    ensures done == |es| ==> allocator.State() == old(allocator.State())
    ensures done < |es| ==> !EndsWell(w, es[done])
  {
    hide WorldOk, EndsWell, RunsTo, Valid, Low, InBounds;
    var xs;
    done, xs, w := MakeAll(allocator, es);
    if done == |es| {
      DestroyAll(xs, allocator, w, old(allocator.State()));
    }
  }
}
