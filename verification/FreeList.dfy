/** Address-ordered lists of free blocks, as both allocators keep them: searched
    front to back, cut from the low end of a block, merged with touching
    neighbours on release. */
module FreeList {
  import opened Extents

  /** Position of the first block of at least `n` bytes, or the list's length. */
  function FirstFit(bs: seq<Extent>, n: nat): (k: nat)
    ensures k <= |bs|
    ensures forall i :: 0 <= i < k ==> bs[i].size < n
    ensures k < |bs| ==> bs[k].size >= n
  {
    if bs == [] || bs[0].size >= n then 0 else 1 + FirstFit(bs[1..], n)
  }

  /** Position of the first block whose base is not below `a`. */
  function Position(bs: seq<Extent>, a: nat): (k: nat)
    ensures k <= |bs|
    ensures forall i :: 0 <= i < k ==> bs[i].base < a
    ensures k < |bs| ==> bs[k].base >= a
  {
    if bs == [] || bs[0].base >= a then 0 else 1 + Position(bs[1..], a)
  }

  /** Takes `n` bytes from the low end of block `k`, dropping it if used up. */
  function Cut(bs: seq<Extent>, k: nat, n: nat): seq<Extent>
    requires k < |bs| && n <= bs[k].size
  {
    if bs[k].size == n then bs[..k] + bs[k + 1..]
    else bs[..k] + [Extent(bs[k].base + n, bs[k].size - n)] + bs[k + 1..]
  }

  /** Merges block `i` with its successor if the two touch. */
  function JoinAt(bs: seq<Extent>, i: nat): seq<Extent>
    requires i + 1 < |bs|
  {
    if bs[i].End() == bs[i + 1].base
    then bs[..i] + [Extent(bs[i].base, bs[i].size + bs[i + 1].size)] + bs[i + 2..]
    else bs
  }

  /** Merges block `k` downwards, then the result upwards. */
  function JoinBoth(bs: seq<Extent>, k: nat): seq<Extent>
    requires k < |bs|
  {
    var down := if k > 0 then JoinAt(bs, k - 1) else bs;
    var j := if |down| < |bs| then k - 1 else k;
    if j + 1 < |down| then JoinAt(down, j) else down
  }

  /** Inserts `e` in address order and merges it with touching neighbours. */
  function Release(bs: seq<Extent>, e: Extent): seq<Extent> {
    var k := Position(bs, e.base);
    JoinBoth(bs[..k] + [e] + bs[k..], k)
  }

  /** Position of the merged block after `Release`. */
  function ReleaseIndex(bs: seq<Extent>, e: Extent): nat {
    var k := Position(bs, e.base);
    if k > 0 && bs[k - 1].End() == e.base then k - 1 else k
  }

  // ------------------------------------------------------------------
  // The for-each searches over such a list and the merging insertion.

  method SearchFit(bs: seq<Extent>, n: nat) returns (k: nat)
    ensures k == FirstFit(bs, n)
  {
    k := 0;
    while k < |bs|
      invariant 0 <= k <= |bs|
      invariant FirstFit(bs, n) == k + FirstFit(bs[k..], n)
    {
      if bs[k].size >= n {
        break;
      }
      assert bs[k..][1..] == bs[k + 1..];
      k := k + 1;
    }
  }

  method SearchPlace(bs: seq<Extent>, a: nat) returns (k: nat)
    ensures k == Position(bs, a)
  {
    k := 0;
    while k < |bs|
      invariant 0 <= k <= |bs|
      invariant Position(bs, a) == k + Position(bs[k..], a)
    {
      if bs[k].base >= a {
        break;
      }
      assert bs[k..][1..] == bs[k + 1..];
      k := k + 1;
    }
  }

  method Merge(bs: seq<Extent>, i: nat) returns (r: seq<Extent>)
    requires i + 1 < |bs|
    ensures r == JoinAt(bs, i)
  {
    var block, next := bs[i], bs[i + 1];
    r := bs;
    if block.End() == next.base {
      r := bs[..i] + [Extent(block.base, block.size + next.size)] + bs[i + 2..];
    }
  }

  /** Inserts `e` before the first block not below it, merges it downwards and
      then upwards; `m` is where the merged block ends up. */
  method InsertMerged(bs: seq<Extent>, e: Extent) returns (r: seq<Extent>, m: nat)
    ensures r == Release(bs, e)
    ensures m == ReleaseIndex(bs, e) < |r|
  {
    hide JoinAt, JoinBoth;
    m := SearchPlace(bs, e.base);
    r := bs[..m] + [e] + bs[m..];
    InsertedBlock(bs, e);
    JoinBothSteps(r, m);
    if m > 0 {
      var n := |r|;
      r := Merge(r, m - 1);
      if |r| < n {
        m := m - 1;
      }
    }
    if m + 1 < |r| {
      r := Merge(r, m);
    }
  }

  lemma InsertedBlock(bs: seq<Extent>, e: Extent)
    ensures var k := Position(bs, e.base);
      var ins := bs[..k] + [e] + bs[k..];
      ins[k] == e && (k > 0 ==> ins[k - 1] == bs[k - 1])
  {
  }

  lemma JoinBothSteps(bs: seq<Extent>, k: nat)
    requires k < |bs|
    ensures var d := if k > 0 then JoinAt(bs, k - 1) else bs;
      var m := if |d| < |bs| then k - 1 else k;
      && JoinBoth(bs, k) == (if m + 1 < |d| then JoinAt(d, m) else d)
      && m < |JoinBoth(bs, k)| && m < |d|
      && (|d| < |bs| <==> k > 0 && bs[k - 1].End() == bs[k].base)
  {
    hide JoinAt;
    if k > 0 { JoinAtShape(bs, k - 1); }
    var d := if k > 0 then JoinAt(bs, k - 1) else bs;
    var m := if |d| < |bs| then k - 1 else k;
    if m + 1 < |d| { JoinAtShape(d, m); }
  }

  lemma ReleaseIndexValid(bs: seq<Extent>, e: Extent)
    ensures ReleaseIndex(bs, e) < |Release(bs, e)|
  {
    hide JoinAt, JoinBoth;
    var k := Position(bs, e.base);
    InsertedBlock(bs, e);
    JoinBothSteps(bs[..k] + [e] + bs[k..], k);
  }

  predicate TouchesBelow(bs: seq<Extent>, e: Extent, k: nat) {
    0 < k <= |bs| && bs[k - 1].End() == e.base
  }

  predicate TouchesAbove(bs: seq<Extent>, e: Extent, k: nat) {
    k < |bs| && e.End() == bs[k].base
  }

  /** First block that merging `e` at position `k` replaces, and the first one
      behind those. */
  function MergeFrom(bs: seq<Extent>, e: Extent, k: nat): (a: nat)
    ensures a <= k
  {
    if TouchesBelow(bs, e, k) then k - 1 else k
  }

  function MergeTo(bs: seq<Extent>, e: Extent, k: nat): (c: nat)
    ensures k <= c && (k <= |bs| ==> c <= |bs|)
  {
    if TouchesAbove(bs, e, k) then k + 1 else k
  }

  /** `r` is `bs` with the blocks at position `k` that `e` touches replaced by one
      block that covers them and `e`. */
  ghost predicate MergedInto(bs: seq<Extent>, e: Extent, k: nat, r: seq<Extent>)
    requires k <= |bs|
  {
    var a, c := MergeFrom(bs, e, k), MergeTo(bs, e, k);
    && a < |r| && r[..a] == bs[..a] && r[a + 1..] == bs[c..]
    && r[a].base == (if a < k then bs[k - 1].base else e.base)
    && r[a].End() == (if c > k then bs[k].End() else e.End())
  }

  /** `Release` replaces the touching neighbours, and nothing else. */
  lemma ReleaseForm(bs: seq<Extent>, e: Extent)
    ensures MergedInto(bs, e, Position(bs, e.base), Release(bs, e))
    ensures ReleaseIndex(bs, e) == MergeFrom(bs, e, Position(bs, e.base))
  {
    hide JoinBoth, Position, MergedInto;
    JoinBothForm(bs, e, Position(bs, e.base));
  }

  lemma JoinBothForm(bs: seq<Extent>, e: Extent, k: nat)
    requires k <= |bs|
    ensures MergedInto(bs, e, k, JoinBoth(bs[..k] + [e] + bs[k..], k))
  {
    hide JoinAt, JoinBoth, MergedInto, MergeTo;
    var a := MergeFrom(bs, e, k);
    var g := if a < k then Extent(bs[k - 1].base, bs[k - 1].size + e.size) else e;
    JoinBelow(bs, e, k, g);
    JoinBothSteps(bs[..k] + [e] + bs[k..], k);
    JoinAbove(bs, e, k, a, g);
  }

  lemma JoinBelow(bs: seq<Extent>, e: Extent, k: nat, g: Extent)
    requires k <= |bs|
    requires g == if TouchesBelow(bs, e, k) then Extent(bs[k - 1].base, bs[k - 1].size + e.size) else e
    ensures var ins := bs[..k] + [e] + bs[k..];
      && (if k > 0 then JoinAt(ins, k - 1) else ins) == bs[..MergeFrom(bs, e, k)] + [g] + bs[k..]
      && ins[k] == e && (k > 0 ==> ins[k - 1] == bs[k - 1])
  {
    var ins := bs[..k] + [e] + bs[k..];
    if k > 0 {
      assert ins[..k - 1] == bs[..k - 1] && ins[k + 1..] == bs[k..];
    }
  }

  lemma JoinAbove(bs: seq<Extent>, e: Extent, k: nat, a: nat, g: Extent)
    requires k <= |bs| && a == MergeFrom(bs, e, k) && g.End() == e.End()
    requires g.base == if a < k then bs[k - 1].base else e.base
    ensures var l := bs[..a] + [g] + bs[k..]; MergedInto(bs, e, k, if a + 1 < |l| then JoinAt(l, a) else l)
  {
    hide MergeFrom;
    var l := bs[..a] + [g] + bs[k..];
    assert l[..a] == bs[..a] && l[a] == g && l[a + 1..] == bs[k..];
    if k < |bs| {
      assert l[a + 1] == bs[k] && l[a + 2..] == bs[k + 1..];
    }
  }

  // ------------------------------------------------------------------
  // Order and gaps.

  /** Every block but possibly block `except` ends before the next begins. */
  ghost predicate GapsBut(bs: seq<Extent>, except: int) {
    forall i :: 0 <= i < |bs| - 1 && i != except ==> bs[i].End() < bs[i + 1].base
  }

  lemma JoinAtShape(bs: seq<Extent>, i: nat)
    requires i + 1 < |bs|
    ensures var r := JoinAt(bs, i);
      if bs[i].End() != bs[i + 1].base then r == bs else
        && |r| == |bs| - 1
        && r[i].base == bs[i].base && r[i].End() == bs[i + 1].End()
        && r[i].size == bs[i].size + bs[i + 1].size
        && (forall x :: 0 <= x < i ==> r[x] == bs[x])
        && (forall x :: i < x < |r| ==> r[x] == bs[x + 1])
  {
    if bs[i].End() == bs[i + 1].base {
      var r, below, above := JoinAt(bs, i), bs[..i], bs[i + 2..];
      assert r == below + [Extent(bs[i].base, bs[i].size + bs[i + 1].size)] + above;
    }
  }

  lemma JoinAtKeeps(bs: seq<Extent>, i: nat, unit: nat)
    requires i + 1 < |bs| && IsUnit(unit)
    requires NonEmpty(bs) && Ordered(bs) && Aligned(bs, unit)
    ensures var r := JoinAt(bs, i);
      && NonEmpty(r) && Ordered(r) && Aligned(r, unit)
      && (r == bs || |r| == |bs| - 1)
  {
    hide JoinAt;
    JoinAtShape(bs, i);
    SumAligned(bs[i].size, bs[i + 1].size, unit);
  }

  /** The granules in use: none, kmalloc's and the page size. */
  predicate IsUnit(unit: nat) {
    unit == 1 || unit == 16 || unit == PAGE_SIZE
  }

  lemma SumAligned(a: nat, b: nat, unit: nat)
    requires IsUnit(unit) && a % unit == 0 && b % unit == 0
    ensures (a + b) % unit == 0
  {
    if unit == 16 {
      assert (a + b) % 16 == 0;
    } else if unit == PAGE_SIZE {
      assert (a + b) % 4096 == 0;
    }
  }

  /** Joining closes the one place where block `i` touched its successor. */
  lemma JoinAtGaps(bs: seq<Extent>, i: nat, open: int)
    requires i + 1 < |bs| && Ordered(bs)
    requires open == i + 1 || open == -1
    requires forall x :: 0 <= x < |bs| - 1 && x != i && x != open ==> bs[x].End() < bs[x + 1].base
    ensures var r := JoinAt(bs, i);
      GapsBut(r, if open == -1 then -1 else if |r| < |bs| then i else i + 1)
  {
    hide JoinAt;
    JoinAtShape(bs, i);
    var r := JoinAt(bs, i);
    assert bs[i].End() <= bs[i + 1].base;
    forall x | 0 <= x < |r| - 1 && x != (if open == -1 then -1 else if |r| < |bs| then i else i + 1)
      ensures r[x].End() < r[x + 1].base
    {
      if r != bs {
        if x < i { assert bs[x].End() < bs[x + 1].base; }
        else { assert bs[x + 1].End() < bs[x + 2].base; }
      }
    }
  }

  lemma GapsSeparate(bs: seq<Extent>)
    requires NonEmpty(bs) && Ordered(bs) && GapsBut(bs, -1)
    ensures Separated(bs)
  {
    forall i, j | 0 <= i < j < |bs| ensures bs[i].End() < bs[j].base {
      assert bs[i].End() < bs[i + 1].base;
      assert i + 1 == j || bs[i + 1].End() <= bs[j].base;
    }
  }

  /** Inserting between blocks that stay clear of `e`. */
  lemma InsertKeeps(bs: seq<Extent>, e: Extent, k: nat, unit: nat)
    requires IsUnit(unit) && e.size > 0 && k <= |bs|
    requires NonEmpty(bs) && Ordered(bs) && Aligned(bs, unit) && e.base % unit == 0 && e.size % unit == 0
    requires forall i :: 0 <= i < k ==> bs[i].End() <= e.base
    requires forall i :: k <= i < |bs| ==> e.End() <= bs[i].base
    ensures var ins := bs[..k] + [e] + bs[k..]; NonEmpty(ins) && Ordered(ins) && Aligned(ins, unit)
  {
    var ins := bs[..k] + [e] + bs[k..];
    assert forall x :: 0 <= x < |ins| ==> ins[x] == if x < k then bs[x] else if x == k then e else bs[x - 1];
  }

  lemma InsertGaps(bs: seq<Extent>, e: Extent, k: nat)
    requires k <= |bs| && Separated(bs)
    ensures var ins := bs[..k] + [e] + bs[k..];
      forall x :: 0 <= x < |ins| - 1 && x != k - 1 && x != k ==> ins[x].End() < ins[x + 1].base
  {
    var ins := bs[..k] + [e] + bs[k..];
    assert forall x :: 0 <= x < |ins| ==> ins[x] == if x < k then bs[x] else if x == k then e else bs[x - 1];
  }

  /** A disjoint extent fits between the blocks around its position. */
  lemma SpansApart(x: Extent, y: Extent)
    requires x.base <= y.base && y.size > 0 && Span(x.base, x.size) !! Span(y.base, y.size)
    ensures x.End() <= y.base
  {
    assert y.base in Span(y.base, y.size);
    assert y.base in Span(x.base, x.size) || x.End() <= y.base;
  }

  lemma NeighboursDisjoint(bs: seq<Extent>, e: Extent)
    requires NonEmpty(bs) && Ordered(bs) && e.size > 0
    requires Span(e.base, e.size) !! Bytes(bs)
    ensures var k := Position(bs, e.base);
      && (forall i :: 0 <= i < k ==> bs[i].End() <= e.base)
      && (forall i :: k <= i < |bs| ==> e.End() <= bs[i].base)
  {
    hide Bytes, Span;
    var k := Position(bs, e.base);
    forall i | 0 <= i < k ensures bs[i].End() <= e.base {
      BytesAt(bs, i);
      SpansApart(bs[i], e);
    }
    forall i | k <= i < |bs| ensures e.End() <= bs[i].base {
      BytesAt(bs, i);
      assert bs[k].base <= bs[i].base;
      SpansApart(e, bs[i]);
    }
  }

  lemma JoinBothKeeps(bs: seq<Extent>, k: nat, unit: nat)
    requires k < |bs| && IsUnit(unit) && NonEmpty(bs) && Ordered(bs) && Aligned(bs, unit)
    ensures var r := JoinBoth(bs, k); NonEmpty(r) && Ordered(r) && Aligned(r, unit)
  {
    hide JoinAt;
    if k > 0 {
      JoinAtKeeps(bs, k - 1, unit);
    }
    var down := if k > 0 then JoinAt(bs, k - 1) else bs;
    var j := if |down| < |bs| then k - 1 else k;
    if j + 1 < |down| {
      JoinAtKeeps(down, j, unit);
    }
  }

  lemma JoinBothSeparates(bs: seq<Extent>, k: nat)
    requires k < |bs| && NonEmpty(bs) && Ordered(bs)
    requires forall x :: 0 <= x < |bs| - 1 && x != k - 1 && x != k ==> bs[x].End() < bs[x + 1].base
    ensures Separated(JoinBoth(bs, k))
  {
    hide JoinAt, Aligned;
    var down := if k > 0 then JoinAt(bs, k - 1) else bs;
    AllAligned(bs);
    if k > 0 {
      JoinAtKeeps(bs, k - 1, 1);
      JoinAtGaps(bs, k - 1, k);
    }
    var j := if |down| < |bs| then k - 1 else k;
    assert GapsBut(down, j);
    if j + 1 < |down| {
      JoinAtKeeps(down, j, 1);
      JoinAtGaps(down, j, -1);
    }
    GapsSeparate(JoinBoth(bs, k));
  }

  lemma AllAligned(bs: seq<Extent>)
    ensures Aligned(bs, 1)
  {
  }

  /** Releasing a disjoint extent keeps the list ordered and aligned. */
  lemma ReleaseKeeps(bs: seq<Extent>, e: Extent, unit: nat)
    requires IsUnit(unit) && NonEmpty(bs) && Ordered(bs) && Aligned(bs, unit)
    requires e.size > 0 && e.base % unit == 0 && e.size % unit == 0 && Span(e.base, e.size) !! Bytes(bs)
    ensures var r := Release(bs, e); NonEmpty(r) && Ordered(r) && Aligned(r, unit)
  {
    hide JoinBoth, Bytes;
    var k := Position(bs, e.base);
    NeighboursDisjoint(bs, e);
    InsertKeeps(bs, e, k, unit);
    JoinBothKeeps(bs[..k] + [e] + bs[k..], k, unit);
  }

  /** Releasing into a separated list leaves no two blocks touching. */
  lemma ReleaseSeparates(bs: seq<Extent>, e: Extent)
    requires NonEmpty(bs) && Separated(bs) && e.size > 0 && Span(e.base, e.size) !! Bytes(bs)
    ensures Separated(Release(bs, e))
  {
    hide JoinBoth, Bytes, Aligned;
    var k := Position(bs, e.base);
    assert Ordered(bs);
    AllAligned(bs);
    NeighboursDisjoint(bs, e);
    InsertKeeps(bs, e, k, 1);
    InsertGaps(bs, e, k);
    JoinBothSeparates(bs[..k] + [e] + bs[k..], k);
  }

  // ------------------------------------------------------------------
  // Bytes.

  lemma BytesAroundPair(bs: seq<Extent>, i: nat)
    requires i + 1 < |bs|
    ensures Bytes(bs) == Bytes(bs[..i]) + Span(bs[i].base, bs[i].size)
                         + (Span(bs[i + 1].base, bs[i + 1].size) + Bytes(bs[i + 2..]))
    ensures Total(bs) == Total(bs[..i]) + bs[i].size + bs[i + 1].size + Total(bs[i + 2..])
  {
    BytesAround(bs, i);
    assert bs[i + 1..][1..] == bs[i + 2..];
  }

  lemma JoinAtBytes(bs: seq<Extent>, i: nat)
    requires i + 1 < |bs|
    ensures Bytes(JoinAt(bs, i)) == Bytes(bs) && Total(JoinAt(bs, i)) == Total(bs)
  {
    hide Bytes, Total;
    var b, c := bs[i], bs[i + 1];
    if b.End() == c.base {
      BytesAroundPair(bs, i);
      BytesGlue(bs[..i], Extent(b.base, b.size + c.size), bs[i + 2..]);
      SpanSplit(b.base, b.size, c.size);
    }
  }

  lemma ReleaseBytes(bs: seq<Extent>, e: Extent)
    ensures Bytes(Release(bs, e)) == Bytes(bs) + Span(e.base, e.size)
    ensures Total(Release(bs, e)) == Total(bs) + e.size
  {
    hide Bytes, Total, JoinAt, Span;
    var k := Position(bs, e.base);
    var ins := bs[..k] + [e] + bs[k..];
    BytesGlue(bs[..k], e, bs[k..]);
    BytesSplit(bs, k);
    if k > 0 { JoinAtBytes(ins, k - 1); }
    var down := if k > 0 then JoinAt(ins, k - 1) else ins;
    var j := if |down| < |ins| then k - 1 else k;
    if j + 1 < |down| { JoinAtBytes(down, j); }
  }

  lemma CutBytes(bs: seq<Extent>, k: nat, n: nat)
    requires Ordered(bs) && k < |bs| && n <= bs[k].size
    ensures Bytes(Cut(bs, k, n)) == Bytes(bs) - Span(bs[k].base, n)
    ensures Span(bs[k].base, n) <= Bytes(bs)
    ensures Total(Cut(bs, k, n)) == Total(bs) - n
  {
    hide Bytes, Total;
    var b := bs[k];
    var below, above := bs[..k], bs[k + 1..];
    BytesAround(bs, k);
    SpanSplit(b.base, n, b.size - n);
    assert Span(b.base, n) !! Bytes(below) by { BytesBefore(below, b.base); }
    assert Span(b.base, n) !! Bytes(above) by { BytesAfter(above, b.End()); }
    if b.size == n {
      BytesConcat(below, above);
      TotalConcat(below, above);
    } else {
      BytesGlue(below, Extent(b.base + n, b.size - n), above);
    }
  }

  // ------------------------------------------------------------------
  // Cutting.

  lemma CutShape(bs: seq<Extent>, k: nat, n: nat)
    requires k < |bs| && n <= bs[k].size
    ensures var c := Cut(bs, k, n);
      && (forall i :: 0 <= i < k ==> c[i] == bs[i])
      && (if bs[k].size == n
          then |c| == |bs| - 1 && forall i :: k <= i < |c| ==> c[i] == bs[i + 1]
          else |c| == |bs| && c[k].base == bs[k].base + n && c[k].End() == bs[k].End()
               && forall i :: k < i < |c| ==> c[i] == bs[i])
  {
  }

  lemma CutKeeps(bs: seq<Extent>, k: nat, n: nat, unit: nat)
    requires k < |bs| && n <= bs[k].size && IsUnit(unit) && n % unit == 0
    requires NonEmpty(bs) && Ordered(bs) && Aligned(bs, unit)
    ensures var c := Cut(bs, k, n); NonEmpty(c) && Ordered(c) && Aligned(c, unit)
  {
    hide Cut;
    CutShape(bs, k, n);
    SumAligned(bs[k].base, n, unit);
    DifferenceAligned(bs[k].size, n, unit);
  }

  lemma DifferenceAligned(a: nat, b: nat, unit: nat)
    requires IsUnit(unit) && a % unit == 0 && b % unit == 0 && b <= a
    ensures (a - b) % unit == 0
  {
    if unit == 16 {
      assert (a - b) % 16 == 0;
    } else if unit == PAGE_SIZE {
      assert (a - b) % 4096 == 0;
    }
  }

  lemma CutSeparated(bs: seq<Extent>, k: nat, n: nat)
    requires k < |bs| && n <= bs[k].size && Separated(bs)
    ensures Separated(Cut(bs, k, n))
  {
    hide Cut;
    CutShape(bs, k, n);
  }
}
