/** Address extents and the sets of bytes they cover.

    Both allocators keep free memory as a list of extents; the theorems about
    them are stated on the set of bytes such a list stands for. */
module Extents {

  const PAGE_SIZE: nat := 4096

  datatype Extent = Extent(base: nat, size: nat) {
    function End(): nat { base + size }
  }

  /** The bytes [a, a + n). */
  function Span(a: nat, n: nat): set<nat> {
    set x: nat | a <= x < a + n && Holds(Extent(a, n), x)
  }

  function Bytes(es: seq<Extent>): set<nat> {
    if es == [] then {} else Span(es[0].base, es[0].size) + Bytes(es[1..])
  }

  function Total(es: seq<Extent>): nat {
    if es == [] then 0 else es[0].size + Total(es[1..])
  }

  ghost predicate NonEmpty(es: seq<Extent>) {
    forall i :: 0 <= i < |es| ==> es[i].size > 0
  }

  /** Every base and size is a multiple of `unit`. */
  ghost predicate Aligned(es: seq<Extent>, unit: nat)
    requires unit > 0
  {
    forall i :: 0 <= i < |es| ==> es[i].base % unit == 0 && es[i].size % unit == 0
  }

  /** Address order without overlap; neighbours may touch. */
  ghost predicate Ordered(es: seq<Extent>) {
    forall i, j :: 0 <= i < j < |es| ==> es[i].End() <= es[j].base
  }

  /** Address order with a gap of at least one byte between neighbours. */
  ghost predicate Separated(es: seq<Extent>) {
    forall i, j :: 0 <= i < j < |es| ==> es[i].End() < es[j].base
  }

  predicate Holds(e: Extent, x: nat) {
    e.base <= x < e.End()
  }

  lemma {:induction false} BytesConcat(a: seq<Extent>, b: seq<Extent>)
    ensures Bytes(a + b) == Bytes(a) + Bytes(b)
  {
    if a == [] {
      assert a + b == b;
    } else {
      assert (a + b)[1..] == a[1..] + b;
      BytesConcat(a[1..], b);
    }
  }

  lemma {:induction false} TotalConcat(a: seq<Extent>, b: seq<Extent>)
    ensures Total(a + b) == Total(a) + Total(b)
  {
    if a == [] {
      assert a + b == b;
    } else {
      assert (a + b)[1..] == a[1..] + b;
      TotalConcat(a[1..], b);
    }
  }

  lemma BytesNil()
    ensures Bytes([]) == {} && Total([]) == 0
  {
  }

  lemma BytesUncons(es: seq<Extent>)
    requires es != []
    ensures Bytes(es) == Span(es[0].base, es[0].size) + Bytes(es[1..])
    ensures Total(es) == es[0].size + Total(es[1..])
    ensures es[0].size > 0 ==> es[0].base in Bytes(es)
  {
  }

  /** A byte is covered exactly when some extent holds it. */
  lemma {:induction false} BytesMember(es: seq<Extent>, x: nat)
    ensures x in Bytes(es) <==> exists i :: 0 <= i < |es| && Holds(es[i], x)
  {
    if es != [] {
      BytesMember(es[1..], x);
      if x in Bytes(es[1..]) {
        var i :| 0 <= i < |es[1..]| && Holds(es[1..][i], x);
        assert Holds(es[i + 1], x);
      }
      if i :| 0 <= i < |es| && Holds(es[i], x) {
        if i > 0 {
          assert Holds(es[1..][i - 1], x);
        }
      }
    }
  }

  lemma BytesAt(es: seq<Extent>, i: nat)
    requires i < |es|
    ensures Span(es[i].base, es[i].size) <= Bytes(es)
  {
    forall x | x in Span(es[i].base, es[i].size) ensures x in Bytes(es) {
      assert Holds(es[i], x);
      BytesMember(es, x);
    }
  }

  /** Splitting a list at position `k`. */
  lemma BytesSplit(es: seq<Extent>, k: nat)
    requires k <= |es|
    ensures Bytes(es) == Bytes(es[..k]) + Bytes(es[k..])
    ensures Total(es) == Total(es[..k]) + Total(es[k..])
  {
    hide Bytes, Total;
    assert es == es[..k] + es[k..];
    BytesConcat(es[..k], es[k..]);
    TotalConcat(es[..k], es[k..]);
  }

  /** Splitting a list around position `k`. */
  lemma BytesAround(es: seq<Extent>, k: nat)
    requires k < |es|
    ensures Bytes(es) == Bytes(es[..k]) + Span(es[k].base, es[k].size) + Bytes(es[k + 1..])
    ensures Total(es) == Total(es[..k]) + es[k].size + Total(es[k + 1..])
  {
    BytesSplit(es, k);
    assert es[k..][1..] == es[k + 1..];
  }

  lemma BytesGlue(a: seq<Extent>, e: Extent, b: seq<Extent>)
    ensures Bytes(a + [e] + b) == Bytes(a) + Span(e.base, e.size) + Bytes(b)
    ensures Total(a + [e] + b) == Total(a) + e.size + Total(b)
  {
    assert a + [e] + b == a + ([e] + b);
    BytesConcat(a, [e] + b);
    TotalConcat(a, [e] + b);
    assert ([e] + b)[1..] == b;
  }

  /** Where the bytes of an ordered list lie relative to one of its extents. */
  lemma {:induction false} BytesBefore(es: seq<Extent>, limit: nat)
    requires forall i :: 0 <= i < |es| ==> es[i].End() <= limit
    ensures forall x :: x in Bytes(es) ==> x < limit
  {
    forall x | x in Bytes(es) ensures x < limit {
      BytesMember(es, x);
    }
  }

  lemma {:induction false} BytesAfter(es: seq<Extent>, limit: nat)
    requires forall i :: 0 <= i < |es| ==> limit <= es[i].base
    ensures forall x :: x in Bytes(es) ==> limit <= x
  {
    forall x | x in Bytes(es) ensures limit <= x {
      BytesMember(es, x);
    }
  }

  lemma BytesTail(es: seq<Extent>)
    requires es != [] && Ordered(es)
    ensures Bytes(es[1..]) == Bytes(es) - Span(es[0].base, es[0].size)
  {
    hide Bytes;
    BytesUncons(es);
    BytesAfter(es[1..], es[0].End());
  }

  lemma SpanSplit(a: nat, m: nat, n: nat)
    ensures Span(a, m + n) == Span(a, m) + Span(a + m, n)
    ensures Span(a, m) !! Span(a + m, n)
  {
  }

  lemma SpanCard(a: nat, n: nat)
    ensures |Span(a, n)| == n
  {
    if n > 0 {
      assert Span(a, n) == Span(a, n - 1) + {a + n - 1};
      SpanCard(a, n - 1);
    }
  }

  /** The sizes of an ordered list add up to the number of bytes covered. */
  lemma {:induction false} TotalCountsBytes(es: seq<Extent>)
    requires Ordered(es)
    ensures |Bytes(es)| == Total(es)
  {
    if es != [] {
      TotalCountsBytes(es[1..]);
      BytesAfter(es[1..], es[0].End());
      assert Span(es[0].base, es[0].size) !! Bytes(es[1..]);
      SpanCard(es[0].base, es[0].size);
    }
  }

  /** A contiguous run of covered bytes lies inside a single extent when
      neighbours are separated. */
  lemma {:induction false} RunInsideOne(es: seq<Extent>, a: nat, n: nat) returns (i: nat)
    requires Separated(es) && n > 0
    requires Span(a, n) <= Bytes(es)
    ensures i < |es| && es[i].base <= a && a + n <= es[i].End()
  {
    assert a in Span(a, n);
    BytesMember(es, a);
    i :| 0 <= i < |es| && Holds(es[i], a);
    if es[i].End() < a + n {
      var gap := es[i].End();
      assert gap in Span(a, n);
      BytesMember(es, gap);
      assert false;
    }
  }

  /** Canonical form: a separated list of nonempty extents is determined by
      the set of bytes it covers. */
  lemma {:induction false} Canonical(a: seq<Extent>, b: seq<Extent>)
    requires Separated(a) && NonEmpty(a) && Separated(b) && NonEmpty(b)
    requires Bytes(a) == Bytes(b)
    ensures a == b
  {
    hide Bytes;
    if a == [] || b == [] {
      if a != [] { BytesUncons(a); }
      if b != [] { BytesUncons(b); }
      BytesNil();
    } else {
      CanonicalHead(a, b);
      CanonicalHead(b, a);
      BytesTail(a);
      BytesTail(b);
      Canonical(a[1..], b[1..]);
      SameList(a, b);
    }
  }

  lemma SameList(a: seq<Extent>, b: seq<Extent>)
    requires |a| > 0 && |b| > 0 && a[0] == b[0] && a[1..] == b[1..]
    ensures a == b
  {
    assert a == [a[0]] + a[1..];
    assert b == [b[0]] + b[1..];
  }

  lemma CanonicalHead(a: seq<Extent>, b: seq<Extent>)
    requires Separated(a) && NonEmpty(a) && Separated(b) && NonEmpty(b)
    requires Bytes(a) == Bytes(b) && a != [] && b != []
    ensures b[0].base <= a[0].base && a[0].End() <= b[0].End()
  {
    BytesAt(a, 0);
    BytesAfter(b, b[0].base);
    assert a[0].base in Span(a[0].base, a[0].size);
    BytesAt(b, 0);
    BytesAfter(a, a[0].base);
    assert b[0].base in Span(b[0].base, b[0].size);
    var i := RunInsideOne(b, a[0].base, a[0].size);
    if i > 0 {
      assert false;
    }
  }

  lemma MultisetDropAt(b: seq<Extent>, k: nat)
    requires k < |b|
    ensures multiset(b[..k] + b[k + 1..]) == multiset(b) - multiset{b[k]}
  {
    assert b == b[..k] + [b[k]] + b[k + 1..];
  }

  lemma MultisetTail(a: seq<Extent>)
    requires a != []
    ensures multiset(a[1..]) == multiset(a) - multiset{a[0]} && a[0] in multiset(a)
  {
    assert a == [a[0]] + a[1..];
  }

  lemma BytesDropAt(b: seq<Extent>, k: nat)
    requires k < |b|
    ensures Bytes(b) == Span(b[k].base, b[k].size) + Bytes(b[..k] + b[k + 1..])
    ensures Total(b) == b[k].size + Total(b[..k] + b[k + 1..])
  {
    hide Bytes, Total;
    BytesAround(b, k);
    BytesConcat(b[..k], b[k + 1..]);
    TotalConcat(b[..k], b[k + 1..]);
  }

  /** The order of extents does not matter to the bytes they cover. */
  lemma {:induction false} BytesOfPermutation(a: seq<Extent>, b: seq<Extent>)
    requires multiset(a) == multiset(b)
    ensures Bytes(a) == Bytes(b) && Total(a) == Total(b)
  {
    hide Bytes, Total;
    if a == [] {
      assert |multiset(b)| == 0;
    } else {
      MultisetTail(a);
      var k :| 0 <= k < |b| && b[k] == a[0];
      MultisetDropAt(b, k);
      BytesUncons(a);
      BytesDropAt(b, k);
      BytesOfPermutation(a[1..], b[..k] + b[k + 1..]);
    }
  }

  // ------------------------------------------------------------------
  // Sets of single pages, named by their base addresses.

  function PageBytes(frames: set<nat>): set<nat> {
    set f, x: nat | f in frames && f <= x < f + PAGE_SIZE && Holds(Extent(f, PAGE_SIZE), x) :: x
  }

  ghost predicate Bases(frames: set<nat>) {
    forall f :: f in frames ==> f % PAGE_SIZE == 0
  }

  lemma PageBytesAdd(a: set<nat>, b: set<nat>)
    ensures PageBytes(a + b) == PageBytes(a) + PageBytes(b)
  {
  }

  lemma PageBytesOne(f: nat)
    ensures PageBytes({f}) == Span(f, PAGE_SIZE)
  {
    forall x | x in Span(f, PAGE_SIZE) ensures x in PageBytes({f}) {
      assert f in {f} && Holds(Extent(f, PAGE_SIZE), x);
    }
  }

  /** Different aligned frames share no byte. */
  lemma PageBytesDisjoint(a: set<nat>, b: set<nat>)
    requires Bases(a) && Bases(b) && a !! b
    ensures PageBytes(a) !! PageBytes(b)
  {
  }

  lemma PageBytesMember(a: set<nat>, f: nat)
    requires f in a
    ensures Span(f, PAGE_SIZE) <= PageBytes(a)
  {
    forall x | x in Span(f, PAGE_SIZE) ensures x in PageBytes(a) {
      assert Holds(Extent(f, PAGE_SIZE), x);
    }
  }

  lemma SubsetRest(a: set<nat>, b: set<nat>)
    requires a <= b
    ensures b == a + (b - a) && b - (b - a) == a
  {
  }
}
