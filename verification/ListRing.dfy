/** The doubly linked rings of include/list.h, over the heap. A ring is described
    by the sequence of its nodes in `next` order; by convention the sentry is
    first, but insertion and removal work at every position. */
module ListRing {

  class Node {
    var next: Node
    var prev: Node

    constructor ()
      ensures Ring([this])
    {
      next := this;
      prev := this;
    }

    method InitListHead()
      modifies this
      ensures Ring([this])
    {
      next := this;
      prev := this;
    }
  }

  predicate Link(a: Node, b: Node)
    reads a, b
  {
    a.next == b && b.prev == a
  }

  function Succ(s: seq<Node>, i: nat): (j: nat)
    requires i < |s|
    ensures j < |s|
  {
    if i + 1 == |s| then 0 else i + 1
  }

  function Pred(s: seq<Node>, i: nat): (j: nat)
    requires i < |s|
    ensures j < |s| && Succ(s, j) == i
  {
    if i == 0 then |s| - 1 else i - 1
  }

  ghost predicate Distinct(s: seq<Node>) {
    forall i, j :: 0 <= i < j < |s| ==> s[i] != s[j]
  }

  ghost predicate Ring(s: seq<Node>)
    reads s
  {
    && |s| > 0
    && Distinct(s)
    && (forall i :: 0 <= i < |s| ==> Link(s[i], s[Succ(s, i)]))
  }

  function Inserted(s: seq<Node>, k: nat, x: Node): seq<Node>
    requires k <= |s|
  {
    s[..k] + [x] + s[k..]
  }

  function Removed(s: seq<Node>, k: nat): seq<Node>
    requires k < |s|
  {
    s[..k] + s[k + 1..]
  }

  /** Both link directions undo each other all round the ring. */
  lemma NextPrevInverse(s: seq<Node>, x: Node)
    requires Ring(s) && x in s
    ensures x.next in s && x.prev in s && x.next.prev == x && x.prev.next == x
  {
    var i :| 0 <= i < |s| && s[i] == x;
    assert Link(s[i], s[Succ(s, i)]);
    assert Link(s[Pred(s, i)], s[i]);
  }

  lemma RemoveUndoesInsert(s: seq<Node>, k: nat, x: Node)
    requires k <= |s|
    ensures Removed(Inserted(s, k, x), k) == s
  {
    assert Inserted(s, k, x)[..k] == s[..k];
    assert Inserted(s, k, x)[k + 1..] == s[k..];
  }

  lemma InsertUndoesRemove(s: seq<Node>, k: nat)
    requires k < |s|
    ensures Inserted(Removed(s, k), k, s[k]) == s
  {
    assert Removed(s, k)[..k] == s[..k];
    assert Removed(s, k)[k..] == s[k + 1..];
  }

  /** Inserts between two neighbours. */
  method ListAddBetween(x: Node, prev: Node, next: Node, ghost s: seq<Node>, ghost k: nat)
    requires Ring(s) && k < |s| && prev == s[k] && next == s[Succ(s, k)] && x !in s
    modifies x, prev`next, next`prev
    ensures Ring(Inserted(s, k + 1, x))
  {
    next.prev := x;
    x.next := next;
    x.prev := prev;
    prev.next := x;
    ghost var t := Inserted(s, k + 1, x);
    assert forall i :: 0 <= i <= k ==> t[i] == s[i];
    assert forall i :: k + 1 < i < |t| ==> t[i] == s[i - 1];
    forall i | 0 <= i < |t|
      ensures Link(t[i], t[Succ(t, i)])
    {
      if i < k {
        assert old(Link(s[i], s[Succ(s, i)]));
      } else if i > k + 1 {
        assert old(Link(s[i - 1], s[Succ(s, i - 1)]));
      }
    }
  }

  /** Inserts right after position `k`. */
  method ListAdd(x: Node, head: Node, ghost s: seq<Node>, ghost k: nat)
    requires Ring(s) && k < |s| && head == s[k] && x !in s
    modifies x, s
    ensures Ring(Inserted(s, k + 1, x))
    ensures forall y :: y in s && y != head && y != old(head.next) ==> unchanged(y)
  {
    assert Link(s[k], s[Succ(s, k)]);
    ListAddBetween(x, head, head.next, s, k);
  }

  /** Inserts right before position `k`; before the sentry is the end. */
  method ListAddTail(x: Node, head: Node, ghost s: seq<Node>, ghost k: nat)
    requires Ring(s) && k < |s| && head == s[k] && x !in s
    modifies x, s
    ensures Ring(Inserted(s, if k == 0 then |s| else k, x))
    ensures forall y :: y in s && y != head && y != old(head.prev) ==> unchanged(y)
  {
    assert Link(s[Pred(s, k)], s[k]);
    ListAddBetween(x, head.prev, head, s, Pred(s, k));
  }

  method ListDelBetween(prev: Node, next: Node)
    modifies prev`next, next`prev
    ensures Link(prev, next)
  {
    next.prev := prev;
    prev.next := next;
  }

  /** Removes position `k` and leaves the removed node's own links as they were. */
  method ListDel(entry: Node, ghost s: seq<Node>, ghost k: nat)
    requires Ring(s) && k < |s| && entry == s[k]
    modifies entry.prev`next, entry.next`prev
    ensures |s| > 1 ==> Ring(Removed(s, k)) && unchanged(entry)
    ensures |s| == 1 ==> Ring(s)
  {
    assert Link(s[Pred(s, k)], s[k]);
    assert Link(s[k], s[Succ(s, k)]);
    ListDelBetween(entry.prev, entry.next);
    ghost var t := Removed(s, k);
    assert forall i :: 0 <= i < k ==> t[i] == s[i];
    assert forall i :: k <= i < |t| ==> t[i] == s[i + 1];
    forall i | 0 <= i < |t|
      ensures Link(t[i], t[Succ(t, i)])
    {
      if i < k {
        assert old(Link(s[i], s[Succ(s, i)]));
      } else {
        assert old(Link(s[i + 1], s[Succ(s, i + 1)]));
      }
    }
  }

  method ListDelInit(entry: Node, ghost s: seq<Node>, ghost k: nat)
    requires Ring(s) && k < |s| && entry == s[k]
    modifies s
    ensures Ring([entry])
    ensures |s| > 1 ==> Ring(Removed(s, k))
  {
    NextPrevInverse(s, entry);
    ListDel(entry, s, k);
    assert entry !in Removed(s, k);
    entry.InitListHead();
  }

  /** Adding a node and deleting it again restores the ring, link by link. */
  method AddThenDel(x: Node, head: Node, ghost s: seq<Node>, ghost k: nat)
    requires Ring(s) && k < |s| && head == s[k] && x !in s
    modifies x, s
    ensures Ring(s)
    ensures forall y :: y in s ==> y.next == old(y.next) && y.prev == old(y.prev)
  {
    ListAdd(x, head, s, k);
    ghost var t := Inserted(s, k + 1, x);
    NextPrevInverse(t, x);
    ListDel(x, t, k + 1);
    RemoveUndoesInsert(s, k + 1, x);
    SameLinks(s);
  }

  /** A ring's sequence determines all of its links. */
  twostate lemma SameLinks(s: seq<Node>)
    requires old(Ring(s)) && Ring(s)
    ensures forall y :: y in s ==> y.next == old(y.next) && y.prev == old(y.prev)
  {
    forall y | y in s
      ensures y.next == old(y.next) && y.prev == old(y.prev)
    {
      var i :| 0 <= i < |s| && s[i] == y;
      assert Link(s[i], s[Succ(s, i)]) && Link(s[Pred(s, i)], s[i]);
      assert old(Link(s[i], s[Succ(s, i)])) && old(Link(s[Pred(s, i)], s[i]));
    }
  }

  method ListEmpty(head: Node, ghost s: seq<Node>) returns (r: bool)
    requires Ring(s) && head == s[0]
    ensures r <==> |s| == 1
  {
    r := head.next == head;
    assert Link(s[0], s[Succ(s, 0)]);
  }

  method ListIsLast(list: Node, head: Node, ghost s: seq<Node>, ghost k: nat) returns (r: bool)
    requires Ring(s) && head == s[0] && k < |s| && list == s[k]
    ensures r <==> k == |s| - 1
  {
    r := list.next == head;
    assert Link(s[k], s[Succ(s, k)]);
  }

  method ListIsSingular(head: Node, ghost s: seq<Node>) returns (r: bool)
    requires Ring(s) && head == s[0]
    ensures r <==> |s| == 2
  {
    var empty := ListEmpty(head, s);
    assert Link(s[0], s[Succ(s, 0)]) && Link(s[Pred(s, 0)], s[0]);
    r := !empty && head.next == head.prev;
  }

  /** The node the walk reaches after `i` steps from the sentry. */
  function Stop(s: seq<Node>, i: nat): Node
    requires i <= |s| && |s| > 0
  {
    if i < |s| then s[i] else s[0]
  }

  /** `for_each`: the body sees every node but the sentry once, in order. */
  method ForEach(head: Node, ghost s: seq<Node>) returns (visited: seq<Node>)
    requires Ring(s) && head == s[0]
    ensures visited == s[1..]
  {
    visited := [];
    ghost var i := 1;
    assert Link(s[0], s[Succ(s, 0)]);
    var pos := head.next;
    while pos != head
      invariant 1 <= i <= |s| && pos == Stop(s, i) && visited == s[1..i]
      decreases |s| - i
    {
      visited := visited + [pos];
      assert Link(s[i], s[Succ(s, i)]);
      pos := pos.next;
      i := i + 1;
    }
  }

  /** `for_each_reverse`: the same nodes, last first. */
  method ForEachReverse(head: Node, ghost s: seq<Node>) returns (visited: seq<Node>)
    requires Ring(s) && head == s[0]
    ensures |visited| == |s| - 1
    ensures forall j :: 0 <= j < |visited| ==> visited[j] == s[|s| - 1 - j]
  {
    visited := [];
    assert Link(s[Pred(s, 0)], s[0]);
    var pos := head.prev;
    while pos != head
      invariant |visited| < |s| && pos == s[(|s| - 1) - |visited|]
      invariant forall j :: 0 <= j < |visited| ==> visited[j] == s[|s| - 1 - j]
      decreases |s| - |visited|
    {
      visited := visited + [pos];
      assert Link(s[Pred(s, |s| - |visited|)], s[|s| - |visited|]);
      pos := pos.prev;
    }
  }

  function Kept(s: seq<Node>, drop: set<Node>): seq<Node> {
    if s == [] then [] else (if s[0] in drop then [] else [s[0]]) + Kept(s[1..], drop)
  }

  // Steps of the walk below, on sequences.
  lemma KeptNone(done: seq<Node>, drop: set<Node>)
    ensures done + [] == done && done + Kept([], drop) == done
  {
  }

  lemma ShiftOne<T>(done: seq<T>, todo: seq<T>)
    requires todo != []
    ensures done + todo == (done + [todo[0]]) + todo[1..]
  {
  }

  lemma Regroup<T>(a: seq<T>, b: seq<T>, c: seq<T>)
    ensures a + (b + c) == (a + b) + c
    ensures b == [] ==> a + b == a
  {
  }

  lemma KeptStep(done: seq<Node>, todo: seq<Node>, drop: set<Node>)
    requires todo != []
    ensures done + Kept(todo, drop)
      == (if todo[0] in drop then done else done + [todo[0]]) + Kept(todo[1..], drop)
  {
    Regroup(done, if todo[0] in drop then [] else [todo[0]], Kept(todo[1..], drop));
  }

  /** `pos` is the node the walk reaches at position `k` of the ring and `n` the
      one after it. */
  ghost predicate AtNext(r: seq<Node>, k: nat, pos: Node, n: Node)
    reads r
  {
    Ring(r) && k <= |r| && pos == Stop(r, k) && pos.next == n
  }

  ghost predicate Within(a: seq<Node>, b: seq<Node>, s: seq<Node>) {
    (forall y :: y in a ==> y in s) && (forall y :: y in b ==> y in s)
  }

  /** The loop's body and its step: `n` was read before the body ran. */
  method Advance(head: Node, pos: Node, n: Node, drop: set<Node>,
      ghost done: seq<Node>, ghost todo: seq<Node>, ghost s: seq<Node>)
    returns (pos': Node, n': Node, ghost done': seq<Node>)
    requires todo != [] && |done| > 0 && done[0] == head && AtNext(done + todo, |done|, pos, n)
    requires Within(done, todo, s)
    modifies s
    ensures done' == if todo[0] in drop then done else done + [todo[0]]
    ensures AtNext(done' + todo[1..], |done'|, pos', n')
    ensures pos == todo[0] && Within(done', todo[1..], s)
  {
    ghost var r := done + todo;
    done' := done;
    ShiftOne(done, todo);
    assert Link(r[|done|], r[Succ(r, |done|)]);
    NextPrevInverse(r, pos);
    if pos in drop {
      ListDel(pos, r, |done|);
    } else {
      done' := done + [pos];
    }
    assert n == Stop(done' + todo[1..], |done'|);
    pos' := n;
    n' := pos'.next;
  }

  lemma AtEnd(done: seq<Node>, todo: seq<Node>, pos: Node, n: Node)
    requires |done| > 0 && AtNext(done + todo, |done|, pos, n)
    ensures pos == done[0] <==> todo == []
  {
    assert (done + todo)[0] == done[0];
  }

  /** `for_each_safe` around a body that unlinks the current node whenever it is
      in `drop`: every original node is visited once and the ring left behind
      holds the others in their order. */
  method ForEachSafe(head: Node, drop: set<Node>, ghost s: seq<Node>) returns (visited: seq<Node>)
    requires Ring(s) && head == s[0]
    modifies s
    ensures visited == s[1..]
    ensures Ring([head] + Kept(s[1..], drop))
  {
    hide Ring, Kept;
    visited := [];
    var pos, n := First(head, s);
    ghost var done, todo := [head], s[1..];
    AtEnd(done, todo, pos, n);
    while pos != head
      invariant visited + todo == s[1..]
      invariant done + Kept(todo, drop) == [head] + Kept(s[1..], drop)
      invariant |done| > 0 && done[0] == head && AtNext(done + todo, |done|, pos, n)
      invariant Within(done, todo, s) && (pos == head <==> todo == [])
      decreases |todo|
    {
      KeptStep(done, todo, drop);
      ShiftOne(visited, todo);
      visited := visited + [pos];
      pos, n, done := Advance(head, pos, n, drop, done, todo, s);
      todo := todo[1..];
      AtEnd(done, todo, pos, n);
    }
    KeptNone(done, drop);
  }

  method First(head: Node, ghost s: seq<Node>) returns (pos: Node, n: Node)
    requires Ring(s) && head == s[0]
    ensures |s| > 0 && s == [head] + s[1..] && AtNext([head] + s[1..], 1, pos, n)
  {
    assert s == [head] + s[1..];
    assert Link(s[0], s[Succ(s, 0)]);
    pos := head.next;
    n := pos.next;
  }
}
