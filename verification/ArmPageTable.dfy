/** The ARMv7-A page table of kern/arch/armv7a/mm.c: 1 MB sections and 4 KB
    pages mixed in one two-level table.

    Addresses are in pages: page `v` has first-level slot `v / 256` and
    second-level slot `v % 256`. Entries are the 32-bit words the code builds;
    the bit fields it ORs together do not overlap, so they are written as sums.
    `Walk` is the translation of section B3.5.1 of the ARMv7-A Architecture
    Reference Manual (DDI 0406C), short-descriptor format. */
module ArmPageTable {

  const L1_LENGTH: nat := 4096
  const L2_LENGTH: nat := 256
  const PAGES: nat := 0x10_0000
  const PAGE: nat := 0x1000
  const SECTION: nat := 0x10_0000

  /** Access permission, memory type and execute-never, as the hardware sees
      them in either kind of entry. */
  datatype Attrs = Attrs(ap: nat, tex: nat, c: nat, b: nat, s: nat, xn: nat)

  predicate InField(a: Attrs) {
    a.ap < 4 && a.tex < 8 && a.c < 2 && a.b < 2 && a.s < 2 && a.xn < 2
  }

  datatype Walked = Fault | Hit(frame: nat, attrs: Attrs)

  const VMA_EXEC: nat := 1
  const VMA_WRITE: nat := 2
  const VMA_READ: nat := 4

  function ConvertFlags(flags: nat): (a: Attrs)
    ensures InField(a)
  {
    var ap := if flags / VMA_WRITE % 2 == 1 then 3 else if flags / VMA_READ % 2 == 1 then 2 else 1;
    var xn := if flags / VMA_EXEC % 2 == 1 then 0 else 1;
    match flags / 0x1_0000 % 4
    case 2 => Attrs(ap, 2, 0, 0, 0, xn)
    case 3 => Attrs(ap, 0, 0, 1, 0, xn)
    case _ => Attrs(ap, 1, 1, 1, 1, xn)
  }

  /** What an unprivileged program may do, by the AP field (section B3.7.1 of
      DDI 0406C) and the execute-never bit. */
  predicate UserReads(a: Attrs) { a.ap >= 2 }

  predicate UserWrites(a: Attrs) { a.ap == 3 }

  predicate Executes(a: Attrs) { a.xn == 0 }

  /** The memory types, by the TEX, C, B and S fields (section B3.8.2): cacheable
      and shareable normal memory, a device of one processor, and a device of
      all. */
  predicate NormalMemory(a: Attrs) { a.tex == 1 && a.c == 1 && a.b == 1 && a.s == 1 }

  predicate PrivateDevice(a: Attrs) { a.tex == 2 && a.c == 0 && a.b == 0 && a.s == 0 }

  predicate SharedDevice(a: Attrs) { a.tex == 0 && a.c == 0 && a.b == 1 && a.s == 0 }

  /** The hardware grants what the mapping flags ask for; writing includes
      reading, and the kernel is never shut out. The map type 2 asks for a
      private device, 3 for a shared one, anything else for normal memory. */
  lemma FlagsGranted(flags: nat)
    ensures var a := ConvertFlags(flags);
      && a.ap >= 1
      && (PrivateDevice(a) <==> flags / 0x1_0000 % 4 == 2)
      && (SharedDevice(a) <==> flags / 0x1_0000 % 4 == 3)
      && (UserWrites(a) <==> flags / 2 % 2 == 1)
      && (UserReads(a) <==> flags / 2 % 2 == 1 || flags / 4 % 2 == 1)
      && (Executes(a) <==> flags % 2 == 1)
      && (NormalMemory(a) <==> flags / 0x2_0000 % 2 == 0)
  {
    assert flags / 0x2_0000 % 2 == 0 <==> flags / 0x1_0000 % 4 < 2;
  }

  // ------------------------------------------------------------------
  // Entries.

  function SectionEntry(base: nat, a: Attrs): nat {
    2 + base * SECTION + a.s * 0x1_0000 + a.tex * 0x1000 + a.ap * 0x400 + a.xn * 0x10 + a.c * 8 + a.b * 4
  }

  function PageEntry(frame: nat, a: Attrs): nat {
    2 + frame * PAGE + a.s * 0x400 + a.tex * 0x40 + a.ap * 0x10 + a.c * 8 + a.b * 4 + a.xn
  }

  predicate IsTable(e: nat) { e % 4 == 1 }

  predicate IsSection(e: nat) { e % 4 >= 2 }

  function TableBase(e: nat): nat { e - e % 0x400 }

  function SectionAttrs(e: nat): Attrs {
    Attrs(e / 0x400 % 4, e / 0x1000 % 8, e / 8 % 2, e / 4 % 2, e / 0x1_0000 % 2, e / 0x10 % 2)
  }

  function PageAttrs(e: nat): Attrs {
    Attrs(e / 0x10 % 4, e / 0x40 % 8, e / 8 % 2, e / 4 % 2, e / 0x400 % 2, e % 2)
  }

  /** Splitting a word into the part above a field boundary and the rest. */
  lemma Peel(e: nat, k: nat, q: nat, r: nat)
    requires k > 0 && e == q * k + r && r < k
    ensures e / k == q && e % k == r
  {
    var q', r' := e / k, e % k;
    assert e == q' * k + r';
    assert q' < q ==> (q' + 1) * k <= q * k;
    assert q < q' ==> (q + 1) * k <= q' * k;
  }

  lemma SectionDecodes(base: nat, a: Attrs)
    requires InField(a)
    ensures var e := SectionEntry(base, a);
      IsSection(e) && e / SECTION == base && SectionAttrs(e) == a
  {
    var e := SectionEntry(base, a);
    var e16 := base * 0x10 + a.s;
    var e12 := e16 * 0x10 + a.tex;
    var e10 := e12 * 4 + a.ap;
    var e4 := e10 * 0x40 + a.xn;
    var e3 := e4 * 2 + a.c;
    var e2 := e3 * 2 + a.b;
    assert e == e2 * 4 + 2;
    Peel(e, 4, e2, 2);
    Peel(e, 8, e3, a.b * 4 + 2);
    Peel(e, 0x10, e4, a.c * 8 + a.b * 4 + 2);
    Peel(e, 0x400, e10, a.xn * 0x10 + a.c * 8 + a.b * 4 + 2);
    Peel(e, 0x1000, e12, a.ap * 0x400 + a.xn * 0x10 + a.c * 8 + a.b * 4 + 2);
    Peel(e, 0x1_0000, e16, a.tex * 0x1000 + a.ap * 0x400 + a.xn * 0x10 + a.c * 8 + a.b * 4 + 2);
    Peel(e, SECTION, base, e - base * SECTION);
    Peel(e2, 2, e3, a.b);
    Peel(e3, 2, e4, a.c);
    Peel(e4, 2, e10 * 0x20, a.xn);
    Peel(e10, 4, e12, a.ap);
    Peel(e12, 8, e16 * 2, a.tex);
    Peel(e16, 2, base * 8, a.s);
  }

  lemma PageDecodes(frame: nat, a: Attrs)
    requires InField(a)
    ensures var e := PageEntry(frame, a);
      e % 4 >= 2 && e / PAGE == frame && PageAttrs(e) == a
  {
    var e := PageEntry(frame, a);
    var e10 := frame * 4 + a.s;
    var e6 := e10 * 0x10 + a.tex;
    var e4 := e6 * 4 + a.ap;
    var e3 := e4 * 2 + a.c;
    var e2 := e3 * 2 + a.b;
    var low := 2 + a.xn;
    assert e == e2 * 4 + low;
    Peel(e, 2, e2 * 2 + 1, a.xn);
    Peel(e, 4, e2, low);
    Peel(e, 8, e3, a.b * 4 + low);
    Peel(e, 0x10, e4, a.c * 8 + a.b * 4 + low);
    Peel(e, 0x40, e6, a.ap * 0x10 + a.c * 8 + a.b * 4 + low);
    Peel(e, 0x400, e10, a.tex * 0x40 + a.ap * 0x10 + a.c * 8 + a.b * 4 + low);
    Peel(e, PAGE, frame, e - frame * PAGE);
    Peel(e2, 2, e3, a.b);
    Peel(e3, 2, e4, a.c);
    Peel(e4, 4, e6, a.ap);
    Peel(e6, 8, e10 * 2, a.tex);
    Peel(e10, 2, frame * 2, a.s);
  }

  /** The bits of a section entry that are not decoded are zero: the domain, the
      third access bit, the supersection and not-global bits and the one below
      the type. */
  lemma SectionRest(base: nat, a: Attrs)
    requires InField(a)
    ensures var e := SectionEntry(base, a);
      e % 4 == 2 && e / 0x20 % 0x20 == 0 && e / 0x8000 % 2 == 0 && e / 0x2_0000 % 8 == 0
  {
    var e := SectionEntry(base, a);
    var low := a.xn * 0x10 + a.c * 8 + a.b * 4 + 2;
    var e10 := base * 0x400 + a.s * 0x40 + a.tex * 4 + a.ap;
    Peel(e, 4, base * 0x4_0000 + a.s * 0x4000 + a.tex * 0x400 + a.ap * 0x100 + a.xn * 4 + a.c * 2 + a.b, 2);
    Peel(e, 0x20, e10 * 0x20, low);
    Peel(e10 * 0x20, 0x20, e10, 0);
    var e15 := base * 0x20 + a.s * 2;
    Peel(e, 0x8000, e15, a.tex * 0x1000 + a.ap * 0x400 + low);
    Peel(e15, 2, base * 0x10 + a.s, 0);
    Peel(e, 0x2_0000, base * 8, a.s * 0x1_0000 + a.tex * 0x1000 + a.ap * 0x400 + low);
    Peel(base * 8, 8, base, 0);
  }

  /** Likewise the third access bit and the not-global bit of a page entry. */
  lemma PageRest(frame: nat, a: Attrs)
    requires InField(a)
    ensures var e := PageEntry(frame, a); e / 2 % 2 == 1 && e / 0x200 % 2 == 0 && e / 0x800 % 2 == 0
  {
    var e := PageEntry(frame, a);
    var low := a.ap * 0x10 + a.c * 8 + a.b * 4 + 2 + a.xn;
    var e1 := frame * 0x800 + a.s * 0x200 + a.tex * 0x20 + a.ap * 8 + a.c * 4 + a.b * 2 + 1;
    Peel(e, 2, e1, a.xn);
    Peel(e1, 2, frame * 0x400 + a.s * 0x100 + a.tex * 0x10 + a.ap * 4 + a.c * 2 + a.b, 1);
    var e9 := frame * 8 + a.s * 2;
    Peel(e, 0x200, e9, a.tex * 0x40 + low);
    Peel(e9, 2, frame * 4 + a.s, 0);
    var e11 := frame * 2;
    Peel(e, 0x800, e11, a.s * 0x400 + a.tex * 0x40 + low);
    Peel(e11, 2, frame, 0);
  }

  /** The code's chain of ORs and shifts is the sum above. */
  lemma SectionOrIsSum(paddr: bv32, ap: bv32, tex: bv32, c: bv32, b: bv32, s: bv32, xn: bv32)
    requires paddr & 0xF_FFFF == 0 && ap < 4 && tex < 8 && c < 2 && b < 2 && s < 2 && xn < 2
    ensures 2 | paddr | (s << 16) | (tex << 12) | (ap << 10) | (xn << 4) | (c << 3) | (b << 2)
         == 2 + paddr + (s << 16) + (tex << 12) + (ap << 10) + (xn << 4) + (c << 3) + (b << 2)
  {
  }

  lemma PageOrIsSum(paddr: bv32, ap: bv32, tex: bv32, c: bv32, b: bv32, s: bv32, xn: bv32)
    requires paddr & 0xFFF == 0 && ap < 4 && tex < 8 && c < 2 && b < 2 && s < 2 && xn < 2
    ensures 2 | paddr | (s << 10) | (tex << 6) | (ap << 4) | (c << 3) | (b << 2) | xn
         == 2 + paddr + (s << 10) + (tex << 6) + (ap << 4) + (c << 3) + (b << 2) + xn
  {
  }

  // ------------------------------------------------------------------
  // Tables and the hardware walk.

  /** `l2` gives the contents of the second-level tables by their address. */
  datatype Tables = Tables(l1: seq<nat>, l2: map<nat, seq<nat>>)

  function Entry(t: Tables, s: nat): nat {
    if s < |t.l1| then t.l1[s] else 0
  }

  /** The second-level table of slot `s`, empty if the slot names none. */
  function Second(t: Tables, s: nat): seq<nat> {
    if IsTable(Entry(t, s)) && TableBase(Entry(t, s)) in t.l2 then t.l2[TableBase(Entry(t, s))] else []
  }

  function WalkPage(e: nat): Walked {
    if e % 4 >= 2 then Hit(e / PAGE, PageAttrs(e)) else Fault
  }

  function Walk(t: Tables, v: nat): Walked {
    var s := v / L2_LENGTH;
    var e := Entry(t, s);
    if IsSection(e) then Hit(e / SECTION * L2_LENGTH + v % L2_LENGTH, SectionAttrs(e))
    else if v % L2_LENGTH < |Second(t, s)| then WalkPage(Second(t, s)[v % L2_LENGTH])
    else Fault
  }

  /** Slots name existing second-level tables, and no two the same one. */
  ghost predicate Sound(t: Tables) {
    && |t.l1| == L1_LENGTH
    && (forall s: nat :: s < L1_LENGTH && IsTable(Entry(t, s)) ==>
          TableBase(Entry(t, s)) in t.l2 && |t.l2[TableBase(Entry(t, s))]| == L2_LENGTH)
    && (forall r: nat, s: nat :: r < L1_LENGTH && s < L1_LENGTH && r != s && IsTable(Entry(t, r)) && IsTable(Entry(t, s)) ==>
          TableBase(Entry(t, r)) != TableBase(Entry(t, s)))
  }

  function Zeros(): (z: seq<nat>)
    ensures |z| == L2_LENGTH && forall k :: 0 <= k < L2_LENGTH ==> z[k] == 0
  {
    seq(L2_LENGTH, _ => 0)
  }

  // ------------------------------------------------------------------
  // The writes of the code.

  function UnmapL1(t: Tables, s: nat): Tables
    requires s < |t.l1|
  {
    Tables(t.l1[s := 0], if IsTable(t.l1[s]) then t.l2 - {TableBase(t.l1[s])} else t.l2)
  }

  function MapSection(t: Tables, s: nat, base: nat, a: Attrs): Tables
    requires s < |t.l1|
  {
    var u := UnmapL1(t, s);
    Tables(u.l1[s := SectionEntry(base, a)], u.l2)
  }

  /** `table` is the address the table cache hands out, if one is needed; its
      tables come cleared. */
  function MapTable(t: Tables, s: nat, table: nat): Tables
    requires s < |t.l1|
  {
    if IsTable(t.l1[s]) then t else Tables(t.l1[s := 1 + table], t.l2[table := Zeros()])
  }

  function MapPage(t: Tables, v: nat, frame: nat, a: Attrs, table: nat): Tables
    requires v / L2_LENGTH < |t.l1|
    requires v % L2_LENGTH < |Second(MapTable(t, v / L2_LENGTH, table), v / L2_LENGTH)|
  {
    var u := MapTable(t, v / L2_LENGTH, table);
    var s := v / L2_LENGTH;
    Tables(u.l1, u.l2[TableBase(u.l1[s]) := Second(u, s)[v % L2_LENGTH := PageEntry(frame, a)]])
  }

  /** An address the table cache may return: aligned to the size of a table and
      not in use. */
  predicate Fresh(t: Tables, table: nat) {
    table % 0x400 == 0 && table !in t.l2
  }

  lemma MapSectionSound(t: Tables, s: nat, base: nat, a: Attrs)
    requires Sound(t) && s < L1_LENGTH && InField(a)
    ensures Sound(MapSection(t, s, base, a))
  {
    hide SectionEntry, TableBase;
    SectionDecodes(base, a);
    var u := MapSection(t, s, base, a);
    forall r: nat | r < L1_LENGTH ensures Entry(u, r) == if r == s then SectionEntry(base, a) else Entry(t, r) {
    }
    assert !IsTable(SectionEntry(base, a));
    forall r: nat | r < L1_LENGTH && r != s && IsTable(Entry(t, r))
      ensures TableBase(Entry(t, r)) in u.l2 && u.l2[TableBase(Entry(t, r))] == t.l2[TableBase(Entry(t, r))]
    {
      assert IsTable(Entry(t, s)) ==> TableBase(Entry(t, r)) != TableBase(Entry(t, s));
    }
  }

  /** A section gives its 256 pages consecutive frames and the attributes, and
      leaves every other page alone. */
  lemma MapSectionWalk(t: Tables, s: nat, base: nat, a: Attrs, w: nat)
    requires Sound(t) && s < L1_LENGTH && InField(a) && w < PAGES
    ensures Walk(MapSection(t, s, base, a), w)
         == if w / L2_LENGTH == s then Hit(base * L2_LENGTH + w % L2_LENGTH, a) else Walk(t, w)
  {
    hide SectionEntry, SectionAttrs, PageAttrs, TableBase;
    SectionDecodes(base, a);
    var u, r := MapSection(t, s, base, a), w / L2_LENGTH;
    assert Entry(u, r) == if r == s then SectionEntry(base, a) else Entry(t, r);
    if r != s && IsTable(Entry(t, r)) {
      assert Second(u, r) == Second(t, r) by {
        assert IsTable(Entry(t, s)) ==> TableBase(Entry(t, r)) != TableBase(Entry(t, s));
      }
    }
  }

  lemma MapTableSound(t: Tables, s: nat, table: nat)
    requires Sound(t) && s < L1_LENGTH && Fresh(t, table)
    ensures var u := MapTable(t, s, table);
      && Sound(u) && IsTable(u.l1[s]) && |Second(u, s)| == L2_LENGTH
  {
    TableEntry(table);
    hide TableBase;
    var u := MapTable(t, s, table);
    forall r: nat | r < L1_LENGTH && r != s ensures Entry(u, r) == Entry(t, r) {
    }
  }

  lemma TableEntry(table: nat)
    requires table % 0x400 == 0
    ensures IsTable(1 + table) && TableBase(1 + table) == table && !IsSection(1 + table) && (1 + table) % 0x400 == 1
  {
    Peel(1 + table, 0x400, table / 0x400, 1);
    Peel(1 + table, 4, table / 0x400 * 0x100, 1);
  }

  /** Creating a table loses a section that was in the slot, nothing else. */
  lemma MapTableWalk(t: Tables, s: nat, table: nat, w: nat)
    requires Sound(t) && s < L1_LENGTH && Fresh(t, table) && w < PAGES
    ensures Walk(MapTable(t, s, table), w)
         == if w / L2_LENGTH == s && IsSection(Entry(t, s)) then Fault else Walk(t, w)
  {
    TableEntry(table);
    hide SectionAttrs, PageAttrs, TableBase;
  }

  lemma SetPageSound(t: Tables, s: nat, k: nat, e: nat)
    requires Sound(t) && s < L1_LENGTH && k < L2_LENGTH && IsTable(t.l1[s]) && |Second(t, s)| == L2_LENGTH
    ensures Sound(Tables(t.l1, t.l2[TableBase(t.l1[s]) := Second(t, s)[k := e]]))
  {
    hide TableBase, IsTable;
    var u := Tables(t.l1, t.l2[TableBase(t.l1[s]) := Second(t, s)[k := e]]);
    forall r: nat ensures Entry(u, r) == Entry(t, r) {
    }
  }

  lemma SetPageWalk(t: Tables, v: nat, e: nat, w: nat)
    requires Sound(t) && v < PAGES && w < PAGES && IsTable(t.l1[v / L2_LENGTH])
    requires |Second(t, v / L2_LENGTH)| == L2_LENGTH
    ensures var s := v / L2_LENGTH;
      Walk(Tables(t.l1, t.l2[TableBase(t.l1[s]) := Second(t, s)[v % L2_LENGTH := e]]), w)
      == if w == v then WalkPage(e) else Walk(t, w)
  {
    hide SectionAttrs, PageAttrs, TableBase, WalkPage;
  }

  lemma MapPageSound(t: Tables, v: nat, frame: nat, a: Attrs, table: nat)
    requires Sound(t) && v < PAGES && Fresh(t, table)
    ensures v % L2_LENGTH < |Second(MapTable(t, v / L2_LENGTH, table), v / L2_LENGTH)|
    ensures Sound(MapPage(t, v, frame, a, table))
    ensures IsTable(MapPage(t, v, frame, a, table).l1[v / L2_LENGTH])
    ensures forall s: nat :: s != v / L2_LENGTH ==> Entry(MapPage(t, v, frame, a, table), s) == Entry(t, s)
  {
    hide PageEntry, Sound, Second;
    SoundLength(t);
    MapTableSound(t, v / L2_LENGTH, table);
    SetPageSound(MapTable(t, v / L2_LENGTH, table), v / L2_LENGTH, v % L2_LENGTH, PageEntry(frame, a));
  }

  lemma SoundLength(t: Tables)
    requires Sound(t)
    ensures |t.l1| == L1_LENGTH
  {
  }

  /** One page mapped; the other pages of its slot are lost if and only if the
      slot held a section. */
  lemma MapPageWalk(t: Tables, v: nat, frame: nat, a: Attrs, table: nat, w: nat)
    requires Sound(t) && v < PAGES && w < PAGES && Fresh(t, table) && InField(a)
    requires v % L2_LENGTH < |Second(MapTable(t, v / L2_LENGTH, table), v / L2_LENGTH)|
    ensures Walk(MapPage(t, v, frame, a, table), w)
         == if w == v then Hit(frame, a)
            else if w / L2_LENGTH == v / L2_LENGTH && IsSection(Entry(t, v / L2_LENGTH)) then Fault
            else Walk(t, w)
  {
    hide PageEntry, Sound, Second, Walk, PageAttrs;
    SoundLength(t);
    MapTableSound(t, v / L2_LENGTH, table);
    MapTableWalk(t, v / L2_LENGTH, table, w);
    SetPageWalk(MapTable(t, v / L2_LENGTH, table), v, PageEntry(frame, a), w);
    PageDecodes(frame, a);
  }

  // ------------------------------------------------------------------
  // No second-level table is leaked.

  ghost function Named(t: Tables): set<nat> {
    set s: nat | s < |t.l1| && IsTable(t.l1[s]) :: TableBase(t.l1[s])
  }

  /** Every second-level table in use is named by a slot. */
  ghost predicate NoOrphans(t: Tables) {
    t.l2.Keys <= Named(t)
  }

  lemma MapSectionNoOrphans(t: Tables, s: nat, base: nat, a: Attrs)
    requires NoOrphans(t) && s < |t.l1|
    ensures NoOrphans(MapSection(t, s, base, a))
  {
    hide TableBase, SectionEntry;
    var u := MapSection(t, s, base, a);
    forall k | k in u.l2.Keys ensures k in Named(u) {
      var r: nat :| r < |t.l1| && IsTable(t.l1[r]) && TableBase(t.l1[r]) == k;
      assert r != s;
      assert u.l1[r] == t.l1[r];
    }
  }

  lemma MapPageNoOrphans(t: Tables, v: nat, frame: nat, a: Attrs, table: nat)
    requires NoOrphans(t) && v / L2_LENGTH < |t.l1| && table % 0x400 == 0
    requires v % L2_LENGTH < |Second(MapTable(t, v / L2_LENGTH, table), v / L2_LENGTH)|
    ensures NoOrphans(MapPage(t, v, frame, a, table))
  {
    hide TableBase, PageEntry, IsSection;
    TableEntry(table);
    var s := v / L2_LENGTH;
    var u := MapPage(t, v, frame, a, table);
    forall k | k in u.l2.Keys ensures k in Named(u) {
      if k == TableBase(u.l1[s]) {
        assert IsTable(u.l1[s]);
      } else {
        var r: nat :| r < |t.l1| && IsTable(t.l1[r]) && TableBase(t.l1[r]) == k;
        assert u.l1[r] == t.l1[r];
      }
    }
  }

  // ------------------------------------------------------------------
  // Mapping a range.

  /** Slot `s` holds one of the `n` pages from `v`. */
  predicate Touched(v: nat, n: nat, s: nat) {
    n > 0 && v / L2_LENGTH <= s <= (v + n - 1) / L2_LENGTH
  }

  /** All pages of slot `s` are among the `n` pages from `v`. */
  predicate Covered(v: nat, n: nat, s: nat) {
    v <= s * L2_LENGTH && (s + 1) * L2_LENGTH <= v + n
  }

  /** The flat result of mapping `n` pages from `v` to the frames from `f` on:
      the range is overridden, and a slot with a section that is only partly in
      the range loses the rest. */
  ghost function Expect(t0: Tables, v: nat, n: nat, f: nat, a: Attrs, w: nat): Walked {
    if v <= w < v + n then Hit(f + (w - v), a)
    else if Touched(v, n, w / L2_LENGTH) && IsSection(Entry(t0, w / L2_LENGTH)) then Fault
    else Walk(t0, w)
  }

  /** State of the loop after `n` pages. */
  ghost predicate Progress(t0: Tables, t: Tables, v: nat, n: nat, f: nat, a: Attrs) {
    && Sound(t)
    && (forall w: nat :: w < PAGES ==> Walk(t, w) == Expect(t0, v, n, f, a, w))
    && (forall s: nat :: !Touched(v, n, s) ==> Entry(t, s) == Entry(t0, s))
    && (n > 0 && (v + n) % L2_LENGTH != 0 ==> IsTable(Entry(t, (v + n) / L2_LENGTH)))
  }

  lemma ProgressStart(t: Tables, v: nat, f: nat, a: Attrs)
    requires Sound(t)
    ensures Progress(t, t, v, 0, f, a)
  {
    hide Sound, Walk;
  }

  lemma SectionExpect(t0: Tables, v: nat, i: nat, f: nat, a: Attrs, w: nat)
    requires (v + i) % L2_LENGTH == 0 && (f + i) % L2_LENGTH == 0
    ensures Expect(t0, v, i + L2_LENGTH, f, a, w)
         == if w / L2_LENGTH == (v + i) / L2_LENGTH then Hit((f + i) / L2_LENGTH * L2_LENGTH + w % L2_LENGTH, a)
            else Expect(t0, v, i, f, a, w)
  {
    hide Walk, IsSection;
    var s := (v + i) / L2_LENGTH;
    assert (v + i + L2_LENGTH - 1) / L2_LENGTH == s;
    if w / L2_LENGTH == s {
      assert w == v + i + w % L2_LENGTH;
    } else {
      assert v <= w < v + i <==> v <= w < v + i + L2_LENGTH;
      assert Touched(v, i + L2_LENGTH, w / L2_LENGTH) <==> Touched(v, i, w / L2_LENGTH) by {
        TouchedNext(v, i, w / L2_LENGTH);
        TouchedStep(v, i, w / L2_LENGTH);
      }
    }
  }

  lemma TouchedNext(v: nat, i: nat, s: nat)
    ensures Touched(v, i + 1, s) <==> Touched(v, i, s) || s == (v + i) / L2_LENGTH
  {
  }

  lemma TouchedStep(v: nat, i: nat, s: nat)
    requires (v + i) % L2_LENGTH == 0
    ensures Touched(v, i + L2_LENGTH, s) <==> Touched(v, i + 1, s)
  {
    assert (v + i + L2_LENGTH - 1) / L2_LENGTH == (v + i) / L2_LENGTH;
  }

  lemma ProgressSection(t0: Tables, t: Tables, v: nat, i: nat, f: nat, a: Attrs)
    requires Progress(t0, t, v, i, f, a) && InField(a)
    requires (v + i) % L2_LENGTH == 0 && (f + i) % L2_LENGTH == 0 && v + i + L2_LENGTH <= PAGES
    ensures (v + i) / L2_LENGTH < |t.l1|
    ensures Progress(t0, MapSection(t, (v + i) / L2_LENGTH, (f + i) / L2_LENGTH, a), v, i + L2_LENGTH, f, a)
  {
    hide Sound, Walk, Expect, SectionEntry, Touched, IsSection;
    SoundLength(t);
    var s := (v + i) / L2_LENGTH;
    var u := MapSection(t, s, (f + i) / L2_LENGTH, a);
    MapSectionSound(t, s, (f + i) / L2_LENGTH, a);
    forall w: nat | w < PAGES ensures Walk(u, w) == Expect(t0, v, i + L2_LENGTH, f, a, w) {
      MapSectionWalk(t, s, (f + i) / L2_LENGTH, a, w);
      SectionExpect(t0, v, i, f, a, w);
    }
    forall r: nat | !Touched(v, i + L2_LENGTH, r) ensures Entry(u, r) == Entry(t0, r) {
      TouchedStep(v, i, r);
      TouchedNext(v, i, r);
      assert Entry(t, r) == Entry(t0, r);
    }
    assert (v + i + L2_LENGTH) % L2_LENGTH == 0;
  }

  lemma PageExpect(t0: Tables, t: Tables, v: nat, i: nat, f: nat, a: Attrs, w: nat)
    requires Progress(t0, t, v, i, f, a) && w < PAGES
    ensures Expect(t0, v, i + 1, f, a, w)
         == if w == v + i then Hit(f + i, a)
            else if w / L2_LENGTH == (v + i) / L2_LENGTH && IsSection(Entry(t, (v + i) / L2_LENGTH)) then Fault
            else Walk(t, w)
  {
    hide Walk, Sound, Touched;
    var s := (v + i) / L2_LENGTH;
    assert Walk(t, w) == Expect(t0, v, i, f, a, w);
    TouchedNext(v, i, w / L2_LENGTH);
    if w / L2_LENGTH == s {
      SlotSoFar(v, i);
      assert Touched(v, i, s) ==> IsTable(Entry(t, s));
      assert !Touched(v, i, s) ==> Entry(t, s) == Entry(t0, s);
      if !Touched(v, i, s) && v <= w < v + i {
        InsideTouched(v, i, w);
      }
    }
  }

  lemma InsideTouched(v: nat, n: nat, w: nat)
    requires v <= w < v + n
    ensures Touched(v, n, w / L2_LENGTH)
  {
  }

  /** The slot of the next page was visited before only if the last page is in
      it too. */
  lemma SlotSoFar(v: nat, i: nat)
    ensures Touched(v, i, (v + i) / L2_LENGTH) ==> i > 0 && (v + i) % L2_LENGTH != 0
  {
  }

  lemma ProgressPage(t0: Tables, t: Tables, v: nat, i: nat, f: nat, a: Attrs, table: nat)
    requires Progress(t0, t, v, i, f, a) && InField(a) && v + i < PAGES && Fresh(t, table)
    ensures (v + i) / L2_LENGTH < |t.l1|
    ensures (v + i) % L2_LENGTH < |Second(MapTable(t, (v + i) / L2_LENGTH, table), (v + i) / L2_LENGTH)|
    ensures Progress(t0, MapPage(t, v + i, f + i, a, table), v, i + 1, f, a)
  {
    hide Sound, Walk, Expect, PageEntry, Touched, IsSection, MapTable, Second;
    SoundLength(t);
    var s := (v + i) / L2_LENGTH;
    MapPageSound(t, v + i, f + i, a, table);
    var u := MapPage(t, v + i, f + i, a, table);
    forall w: nat | w < PAGES ensures Walk(u, w) == Expect(t0, v, i + 1, f, a, w) {
      MapPageWalk(t, v + i, f + i, a, table, w);
      PageExpect(t0, t, v, i, f, a, w);
    }
    forall r: nat | !Touched(v, i + 1, r) ensures Entry(u, r) == Entry(t0, r) {
      TouchedNext(v, i, r);
      assert Entry(t, r) == Entry(t0, r);
    }
    SoundLength(u);
    NextSlot(v, i);
  }

  lemma NextSlot(v: nat, i: nat)
    ensures (v + i + 1) % L2_LENGTH != 0 ==> (v + i + 1) / L2_LENGTH == (v + i) / L2_LENGTH
  {
  }

  // ------------------------------------------------------------------
  // The main results.

  /** No slot that lies only partly in the range holds a section. */
  ghost predicate NoSplitSection(t: Tables, v: nat, n: nat) {
    forall s: nat :: s < L1_LENGTH && Touched(v, n, s) && !Covered(v, n, s) ==> !IsSection(Entry(t, s))
  }

  /** Every page outside the range keeps its translation exactly when no partly
      covered slot held a section. */
  lemma OthersKeptIff(t0: Tables, t: Tables, v: nat, n: nat, f: nat, a: Attrs)
    requires Progress(t0, t, v, n, f, a) && v + n <= PAGES
    ensures (forall w: nat :: w < PAGES && !(v <= w < v + n) ==> Walk(t, w) == Walk(t0, w))
       <==> NoSplitSection(t0, v, n)
  {
    hide Sound;
    if NoSplitSection(t0, v, n) {
      forall w: nat | w < PAGES && !(v <= w < v + n) ensures Walk(t, w) == Walk(t0, w) {
        assert Walk(t, w) == Expect(t0, v, n, f, a, w);
        OutsideNotCovered(v, n, w);
      }
    } else {
      var s: nat :| s < L1_LENGTH && Touched(v, n, s) && !Covered(v, n, s) && IsSection(Entry(t0, s));
      var w := if v <= s * L2_LENGTH then s * L2_LENGTH + (L2_LENGTH - 1) else s * L2_LENGTH;
      assert w / L2_LENGTH == s && w < PAGES && !(v <= w < v + n);
      assert Walk(t, w) == Expect(t0, v, n, f, a, w) == Fault;
      assert Walk(t0, w).Hit?;
    }
  }

  lemma OutsideNotCovered(v: nat, n: nat, w: nat)
    requires !(v <= w < v + n)
    ensures !Covered(v, n, w / L2_LENGTH)
  {
  }

  /** One page mapped, with a fresh table if its slot has none. */
  ghost predicate PageStep(u: Tables, v: nat, f: nat, a: Attrs, t: Tables) {
    exists table ::
      && Fresh(u, table) && v / L2_LENGTH < |u.l1|
      && v % L2_LENGTH < |Second(MapTable(u, v / L2_LENGTH, table), v / L2_LENGTH)|
      && t == MapPage(u, v, f, a, table)
  }

  /** Mapping the `n` pages from `v` one by one. */
  ghost predicate PageByPage(t0: Tables, v: nat, n: nat, f: nat, a: Attrs, t: Tables)
    decreases n
  {
    if n == 0 then t == t0
    else exists u :: Sound(u) && PageByPage(t0, v, n - 1, f, a, u) && PageStep(u, v + (n - 1), f + (n - 1), a, t)
  }

  lemma PageStepProgress(t0: Tables, u: Tables, t: Tables, v: nat, i: nat, f: nat, a: Attrs)
    requires Progress(t0, u, v, i, f, a) && InField(a) && v + i < PAGES && PageStep(u, v + i, f + i, a, t)
    ensures Progress(t0, t, v, i + 1, f, a)
  {
    hide Progress, MapPage, MapTable, Second;
    var table :|
      && Fresh(u, table) && (v + i) / L2_LENGTH < |u.l1|
      && (v + i) % L2_LENGTH < |Second(MapTable(u, (v + i) / L2_LENGTH, table), (v + i) / L2_LENGTH)|
      && t == MapPage(u, v + i, f + i, a, table);
    ProgressPage(t0, u, v, i, f, a, table);
  }

  lemma {:induction false} PageByPageProgress(t0: Tables, v: nat, n: nat, f: nat, a: Attrs, t: Tables)
    requires Sound(t0) && InField(a) && v + n <= PAGES && PageByPage(t0, v, n, f, a, t)
    ensures Progress(t0, t, v, n, f, a)
    decreases n
  {
    hide Sound, Progress, PageStep;
    if n == 0 {
      ProgressStart(t0, v, f, a);
    } else {
      var u :| Sound(u) && PageByPage(t0, v, n - 1, f, a, u) && PageStep(u, v + (n - 1), f + (n - 1), a, t);
      PageByPageProgress(t0, v, n - 1, f, a, u);
      PageStepProgress(t0, u, t, v, n - 1, f, a);
    }
  }

  lemma PageStepExists(u: Tables, v: nat, f: nat, a: Attrs) returns (t: Tables)
    requires Sound(u) && v < PAGES
    ensures PageStep(u, v, f, a, t)
  {
    hide MapPage, MapTable, Second, Sound;
    SoundLength(u);
    var table := FreshTable(u);
    MapPageSound(u, v, f, a, table);
    t := MapPage(u, v, f, a, table);
  }

  lemma FreshTable(u: Tables) returns (table: nat)
    ensures Fresh(u, table)
  {
    FreshExists(u.l2.Keys);
    table :| table % 0x400 == 0 && table !in u.l2.Keys;
  }

  /** Such a run always exists. */
  lemma {:induction false} PageByPageRuns(t0: Tables, v: nat, n: nat, f: nat, a: Attrs) returns (t: Tables)
    requires Sound(t0) && InField(a) && v + n <= PAGES
    ensures PageByPage(t0, v, n, f, a, t)
    decreases n
  {
    hide Progress, PageStep, Sound;
    t := t0;
    if n > 0 {
      var u := PageByPageRuns(t0, v, n - 1, f, a);
      PageByPageProgress(t0, v, n - 1, f, a, u);
      ProgressSound(t0, u, v, n - 1, f, a);
      t := PageStepExists(u, v + (n - 1), f + (n - 1), a);
    }
  }

  lemma ProgressSound(t0: Tables, t: Tables, v: nat, n: nat, f: nat, a: Attrs)
    requires Progress(t0, t, v, n, f, a)
    ensures Sound(t)
  {
  }

  /** The greedy mix of sections and pages translates every address, with its
      attributes, as mapping page by page does. */
  lemma GreedyIsPageByPage(t0: Tables, t: Tables, u: Tables, v: nat, n: nat, f: nat, a: Attrs)
    requires Sound(t0) && InField(a) && v + n <= PAGES && Progress(t0, t, v, n, f, a) && PageByPage(t0, v, n, f, a, u)
    ensures forall w: nat :: w < PAGES ==> Walk(t, w) == Walk(u, w)
  {
    hide Sound, Walk, Expect;
    PageByPageProgress(t0, v, n, f, a, u);
  }

  // ------------------------------------------------------------------
  // The code.

  lemma {:induction false} FreshExists(used: set<nat>)
    ensures exists table: nat :: table % 0x400 == 0 && table !in used
  {
    var m := Bound(used);
    assert m * 0x400 % 0x400 == 0 && m * 0x400 !in used;
  }

  lemma {:induction false} Bound(used: set<nat>) returns (m: nat)
    ensures forall x :: x in used ==> x < m
  {
    if used == {} {
      m := 0;
    } else {
      var y :| y in used;
      var rest := Bound(used - {y});
      m := if y < rest then rest else y + 1;
      forall x | x in used ensures x < m {
        assert x == y || x in used - {y};
      }
    }
  }

  class ArmIndex {
    var l1: seq<nat>
    var l2: map<nat, seq<nat>>

    function State(): Tables
      reads this
    {
      Tables(l1, l2)
    }

    /** True for success, false for EOF. */
    method MapPages(vaddr: nat, paddr: nat, size: nat, flags: nat) returns (ok: bool)
      requires Sound(State()) && vaddr + size <= PAGES * PAGE && paddr + size <= PAGES * PAGE
      modifies this
      ensures ok <==> vaddr % PAGE == 0 && paddr % PAGE == 0 && size % PAGE == 0
      ensures !ok ==> State() == old(State())
      ensures old(NoOrphans(State())) ==> NoOrphans(State())
      ensures ok ==> Progress(old(State()), State(), vaddr / PAGE, size / PAGE, paddr / PAGE, ConvertFlags(flags))
    {
      if !(vaddr % PAGE == 0 && paddr % PAGE == 0 && size % PAGE == 0) {
        return false;
      }
      MapRange(vaddr / PAGE, paddr / PAGE, size / PAGE, ConvertFlags(flags));
      ok := true;
    }

    method MapRange(v: nat, f: nat, n: nat, a: Attrs)
      requires Sound(State()) && v + n <= PAGES && f + n <= PAGES && InField(a)
      modifies this
      ensures Progress(old(State()), State(), v, n, f, a)
      ensures old(NoOrphans(State())) ==> NoOrphans(State())
    {
      hide Sound, Progress, MapTable, Second, SectionEntry, PageEntry, NoOrphans;
      ProgressStart(State(), v, f, a);
      var i := 0;
      while i < n
        invariant 0 <= i <= n
        invariant Progress(old(State()), State(), v, i, f, a)
        invariant old(NoOrphans(State())) ==> NoOrphans(State())
        decreases n - i
      {
        if (v + i) % L2_LENGTH == 0 && (f + i) % L2_LENGTH == 0 && n - i >= L2_LENGTH {
          ProgressSection(old(State()), State(), v, i, f, a);
          var t := MapSection(State(), (v + i) / L2_LENGTH, (f + i) / L2_LENGTH, a);
          if NoOrphans(State()) { MapSectionNoOrphans(State(), (v + i) / L2_LENGTH, (f + i) / L2_LENGTH, a); }
          l1, l2 := t.l1, t.l2;
          i := i + L2_LENGTH;
        } else {
          FreshExists(l2.Keys);
          var table: nat :| table % 0x400 == 0 && table !in l2.Keys;
          ProgressPage(old(State()), State(), v, i, f, a, table);
          var t := MapPage(State(), v + i, f + i, a, table);
          if NoOrphans(State()) { MapPageNoOrphans(State(), v + i, f + i, a, table); }
          l1, l2 := t.l1, t.l2;
          i := i + 1;
        }
      }
    }
  }
}
