/** The ordered device index of kern/dev/index/devlist.c. The ring is a sequence
    here; what a device is does not change while it is listed. */
module DeviceIndex {

  const EOF: int := -1

  datatype Id = Id(major: int, minor: int)

  class Device {
    const id: Id
    const bus: Device?

    constructor (id: Id, bus: Device?)
      ensures this.id == id && this.bus == bus
    {
      this.id := id;
      this.bus := bus;
    }
  }

  function Cmp(a: Id, b: Id): int {
    if a.major > b.major then 1
    else if a.major < b.major then -1
    else if a.minor > b.minor then 1
    else if a.minor < b.minor then -1
    else 0
  }

  /** The lexicographic order: by major number, then by minor. */
  predicate Le(a: Id, b: Id) {
    a.major < b.major || (a.major == b.major && a.minor <= b.minor)
  }

  /** The comparison decides the lexicographic order, which is total. */
  lemma CmpIsOrder(a: Id, b: Id, c: Id)
    ensures Cmp(a, b) <= 0 <==> Le(a, b)
    ensures Cmp(a, b) == 0 <==> a == b
    ensures Cmp(b, a) == -Cmp(a, b)
    ensures Le(a, b) || Le(b, a)
    ensures Le(a, b) && Le(b, c) ==> Le(a, c)
  {
  }

  ghost predicate Ordered(l: seq<Device>) {
    forall i, j :: 0 <= i < j < |l| ==> Le(l[i].id, l[j].id)
  }

  /** The devices with one id, in list order. */
  function Sub(l: seq<Device>, id: Id): seq<Device> {
    if l == [] then []
    else Sub(l[..|l| - 1], id) + if l[|l| - 1].id == id then [l[|l| - 1]] else []
  }

  /** `list` is the insertion log sorted by id, equal ids in insertion order. */
  ghost predicate Stable(list: seq<Device>, log: seq<Device>) {
    Ordered(list) && forall id :: Sub(list, id) == Sub(log, id)
  }

  // Specification functions.

  /** Where the insertion loop stops. */
  function Place(l: seq<Device>, id: Id): (p: nat)
    ensures p <= |l| && (forall i :: 0 <= i < p ==> Le(l[i].id, id)) && (p < |l| ==> Cmp(l[p].id, id) > 0)
  {
    if l == [] || Cmp(l[0].id, id) > 0 then 0
    else
      assert forall i :: 1 <= i < |l| ==> l[i] == l[1..][i - 1];
      1 + Place(l[1..], id)
  }

  function Added(l: seq<Device>, dev: Device): seq<Device> {
    var p := Place(l, dev.id);
    l[..p] + [dev] + l[p..]
  }

  predicate Attached(l: seq<Device>, dev: Device?) {
    exists i :: 0 <= i < |l| && l[i].bus == dev
  }

  predicate Listed(l: seq<Device>, dev: Device?) {
    exists i :: 0 <= i < |l| && l[i] == dev
  }

  /** `k` is where `dev` is listed last, or -1 if it is not listed. */
  ghost predicate IsLast(l: seq<Device>, dev: Device?, k: int) {
    && -1 <= k < |l|
    && (k >= 0 ==> l[k] == dev)
    && (forall i :: k < i < |l| ==> l[i] != dev)
  }

  function LastAt(l: seq<Device>, dev: Device?): (k: int)
    ensures IsLast(l, dev, k)
  {
    if l == [] then -1 else if l[|l| - 1] == dev then |l| - 1 else LastAt(l[..|l| - 1], dev)
  }

  function Cut(l: seq<Device>, k: int): seq<Device>
    requires -1 <= k < |l|
  {
    if k < 0 then l else l[..k] + l[k + 1..]
  }

  function WithoutLast(l: seq<Device>, dev: Device?): seq<Device> {
    Cut(l, LastAt(l, dev))
  }

  function Removed(l: seq<Device>, dev: Device?): seq<Device> {
    if Attached(l, dev) then l else WithoutLast(l, dev)
  }

  // Insertion keeps the order and appends within its id.

  lemma {:induction false} SubConcat(a: seq<Device>, b: seq<Device>, id: Id)
    ensures Sub(a + b, id) == Sub(a, id) + Sub(b, id)
    decreases |b|
  {
    if b == [] {
      assert a + b == a;
    } else {
      assert (a + b)[..|a + b| - 1] == a + b[..|b| - 1];
      SubConcat(a, b[..|b| - 1], id);
    }
  }

  lemma {:induction false} SubNone(l: seq<Device>, id: Id)
    ensures Sub(l, id) == [] <==> forall i :: 0 <= i < |l| ==> l[i].id != id
  {
    if l != [] {
      SubNone(l[..|l| - 1], id);
    }
  }

  lemma AddedOrdered(l: seq<Device>, dev: Device)
    requires Ordered(l)
    ensures Ordered(Added(l, dev))
  {
    var p := Place(l, dev.id);
    var r := Added(l, dev);
    forall i, j | 0 <= i < j < |r|
      ensures Le(r[i].id, r[j].id)
    {
      if j > p {
        CmpIsOrder(dev.id, l[p].id, l[j - 1].id);
      }
    }
  }

  lemma BeyondPlace(l: seq<Device>, dev: Device)
    requires Ordered(l)
    ensures Sub(l[Place(l, dev.id)..], dev.id) == []
  {
    var p := Place(l, dev.id);
    forall i | 0 <= i < |l[p..]|
      ensures l[p..][i].id != dev.id
    {
      CmpIsOrder(dev.id, l[p].id, l[p + i].id);
    }
    SubNone(l[p..], dev.id);
  }

  lemma AddedSub(l: seq<Device>, dev: Device, id: Id)
    requires Ordered(l)
    ensures Sub(Added(l, dev), id) == Sub(l, id) + if dev.id == id then [dev] else []
  {
    hide Sub, Place, Ordered;
    var p := Place(l, dev.id);
    SubInserted(l, p, dev, id);
    BeyondPlace(l, dev);
    AppendOrNot(Sub(l[..p], id), dev, Sub(l[p..], id));
  }

  lemma SubInserted(l: seq<Device>, p: nat, dev: Device, id: Id)
    requires p <= |l|
    ensures Sub(l, id) == Sub(l[..p], id) + Sub(l[p..], id)
    ensures Sub(l[..p] + [dev] + l[p..], id)
      == Sub(l[..p], id) + (if dev.id == id then [dev] else []) + Sub(l[p..], id)
  {
    hide Sub;
    SubConcat(l[..p] + [dev], l[p..], id);
    SubConcat(l[..p], [dev], id);
    SubSingle(dev, id);
    SubConcat(l[..p], l[p..], id);
    assert l[..p] + l[p..] == l;
  }

  lemma AppendOrNot(a: seq<Device>, dev: Device, b: seq<Device>)
    ensures a + [] + b == a + b + []
    ensures b == [] ==> a + [dev] + b == a + b + [dev]
  {
  }

  lemma SubSingle(dev: Device, id: Id)
    ensures Sub([dev], id) == if dev.id == id then [dev] else []
  {
    assert [dev][..0] == [];
  }

  // Removal takes the latest insertion of the device.

  lemma CutOrdered(l: seq<Device>, k: int)
    requires Ordered(l) && -1 <= k < |l|
    ensures Ordered(Cut(l, k))
  {
  }

  lemma IsLastUnique(l: seq<Device>, dev: Device?, k: int)
    requires IsLast(l, dev, k)
    ensures LastAt(l, dev) == k
  {
  }

  lemma {:induction false} SubMember(l: seq<Device>, id: Id, dev: Device)
    ensures dev in Sub(l, id) <==> dev in l && dev.id == id
  {
    if l != [] {
      SubMember(l[..|l| - 1], id, dev);
      assert l == l[..|l| - 1] + [l[|l| - 1]];
    }
  }

  lemma SubAround(l: seq<Device>, k: nat, id: Id)
    requires k < |l|
    ensures Sub(l, id) == Sub(l[..k], id) + (if l[k].id == id then [l[k]] else []) + Sub(l[k + 1..], id)
    ensures Sub(Cut(l, k), id) == Sub(l[..k], id) + Sub(l[k + 1..], id)
  {
    assert l == l[..k] + [l[k]] + l[k + 1..];
    SubConcat(l[..k] + [l[k]], l[k + 1..], id);
    SubConcat(l[..k], [l[k]], id);
    SubSingle(l[k], id);
    SubConcat(l[..k], l[k + 1..], id);
  }

  lemma CutMiddle(a: seq<Device>, dev: Device, b: seq<Device>)
    requires dev !in b
    ensures WithoutLast(a + [dev] + b, dev) == a + b
  {
    var l := a + [dev] + b;
    assert l[|a|] == dev && l[..|a|] == a && l[|a| + 1..] == b;
    forall i | |a| < i < |l|
      ensures l[i] != dev
    {
      assert l[i] == b[i - |a| - 1];
    }
    IsLastUnique(l, dev, |a|);
  }

  lemma NotListed(l: seq<Device>, dev: Device)
    requires dev !in l
    ensures WithoutLast(l, dev) == l
  {
  }

  lemma WithoutLastSub(l: seq<Device>, dev: Device, id: Id)
    ensures Sub(WithoutLast(l, dev), id) == if dev.id == id then WithoutLast(Sub(l, id), dev) else Sub(l, id)
  {
    hide Sub, WithoutLast;
    if dev in l {
      var k := LastAt(l, dev);
      Found(l, dev, k);
      SubAround(l, k, id);
      SubMember(l[k + 1..], id, dev);
      if dev.id == id {
        CutMiddle(Sub(l[..k], id), dev, Sub(l[k + 1..], id));
      } else {
        assert Sub(l[..k], id) + [] == Sub(l[..k], id);
      }
    } else {
      NotListed(l, dev);
      SubMember(l, id, dev);
      if dev.id == id {
        NotListed(Sub(l, id), dev);
      }
    }
  }

  lemma Found(l: seq<Device>, dev: Device, k: int)
    requires dev in l && k == LastAt(l, dev)
    ensures 0 <= k < |l| && l[k] == dev && dev !in l[k + 1..] && WithoutLast(l, dev) == Cut(l, k)
  {
  }

  // The list is the stable sort of the insertions not yet removed.

  lemma SameMembers(list: seq<Device>, log: seq<Device>, dev: Device)
    requires Stable(list, log)
    ensures dev in list <==> dev in log
  {
    SubMember(list, dev.id, dev);
    SubMember(log, dev.id, dev);
  }

  lemma SameAttached(list: seq<Device>, log: seq<Device>, dev: Device?)
    requires Stable(list, log)
    ensures Attached(list, dev) <==> Attached(log, dev)
  {
    if i :| 0 <= i < |list| && list[i].bus == dev {
      SameMembers(list, log, list[i]);
    }
    if i :| 0 <= i < |log| && log[i].bus == dev {
      SameMembers(list, log, log[i]);
    }
  }

  lemma AddedStable(list: seq<Device>, log: seq<Device>, dev: Device)
    requires Stable(list, log)
    ensures Stable(Added(list, dev), log + [dev])
  {
    AddedOrdered(list, dev);
    forall id ensures Sub(Added(list, dev), id) == Sub(log + [dev], id) {
      AddedSub(list, dev, id);
      SubConcat(log, [dev], id);
      SubSingle(dev, id);
    }
  }

  /** A device that is listed, with none attached to it, loses its last entry;
      otherwise nothing changes. */
  lemma RemovedExact(l: seq<Device>, dev: Device?, k: int)
    requires IsLast(l, dev, k)
    ensures k >= 0 && (forall i :: 0 <= i < |l| ==> l[i].bus != dev) ==>
      && Removed(l, dev) == l[..k] + l[k + 1..]
      && multiset(Removed(l, dev)) == multiset(l) - multiset{l[k]} && |Removed(l, dev)| == |l| - 1
    ensures k < 0 || (exists i :: 0 <= i < |l| && l[i].bus == dev) ==> Removed(l, dev) == l
  {
    IsLastUnique(l, dev, k);
    if k >= 0 {
      assert l == l[..k] + [l[k]] + l[k + 1..];
    }
  }

  lemma LoggedRemoved(log: seq<Device>, dev: Device?)
    ensures Logged(log, Remove(dev)) == Removed(log, dev)
  {
    hide Removed;
    var k := LastAt(log, dev);
    RemovedExact(log, dev, k);
    forall m | IsLast(log, dev, m) ensures m == k {
      IsLastUnique(log, dev, m);
    }
  }

  lemma RemovedStable(list: seq<Device>, log: seq<Device>, dev: Device?)
    requires Stable(list, log)
    ensures Stable(Removed(list, dev), Logged(log, Remove(dev)))
  {
    SameAttached(list, log, dev);
    LoggedRemoved(log, dev);
    if !Attached(list, dev) && dev != null {
      CutOrdered(list, LastAt(list, dev));
      forall id ensures Sub(WithoutLast(list, dev), id) == Sub(WithoutLast(log, dev), id) {
        WithoutLastSub(list, dev, id);
        WithoutLastSub(log, dev, id);
      }
    }
  }

  /** An insertion log has only one stable sort. */
  lemma {:induction false} StableUnique(a: seq<Device>, b: seq<Device>, log: seq<Device>)
    requires Stable(a, log) && Stable(b, log)
    ensures a == b
    decreases |a|
  {
    if a == [] || b == [] {
      if a != [] {
        SameMembers(a, log, a[0]);
        SameMembers(b, log, a[0]);
      }
      if b != [] {
        SameMembers(a, log, b[0]);
        SameMembers(b, log, b[0]);
      }
    } else {
      LastSame(a, b, log);
      var x := a[|a| - 1];
      var p, q := a[..|a| - 1], b[..|b| - 1];
      forall id ensures Sub(p, id) == Sub(q, id) {
        assert Sub(a, id) == Sub(log, id) && Sub(b, id) == Sub(log, id);
        DropSame(Sub(p, id), Sub(q, id), if x.id == id then [x] else []);
      }
      StableUnique(p, q, p);
      assert a == p + [x] && b == q + [x];
    }
  }

  lemma DropSame(s: seq<Device>, t: seq<Device>, tail: seq<Device>)
    requires s + tail == t + tail
    ensures s == t
  {
    assert |s| == |t|;
    assert s == (s + tail)[..|s|] && t == (t + tail)[..|t|];
  }

  lemma LastSame(a: seq<Device>, b: seq<Device>, log: seq<Device>)
    requires Stable(a, log) && Stable(b, log) && a != [] && b != []
    ensures a[|a| - 1] == b[|b| - 1]
  {
    var x, y := a[|a| - 1], b[|b| - 1];
    SameMembers(a, log, x);
    SameMembers(b, log, x);
    SameMembers(a, log, y);
    SameMembers(b, log, y);
    CmpIsOrder(x.id, y.id, x.id);
    var i :| 0 <= i < |a| && a[i] == y;
    var j :| 0 <= j < |b| && b[j] == x;
    assert Le(y.id, x.id) && Le(x.id, y.id);
    assert Sub(a, x.id)[|Sub(a, x.id)| - 1] == x;
    assert Sub(b, x.id)[|Sub(b, x.id)| - 1] == y;
  }

  /** `granted` says whether an entry could be had. */
  datatype Op = Add(dev: Device, granted: bool) | Remove(gone: Device?)

  function Step(l: seq<Device>, op: Op): seq<Device> {
    match op
    case Add(dev, granted) => if granted then Added(l, dev) else l
    case Remove(dev) => Removed(l, dev)
  }

  /** What the operation does to the insertion log: a removal strikes out the
      latest insertion of the device, unless some device inserted is on it. */
  ghost function Logged(log: seq<Device>, op: Op): seq<Device> {
    match op
    case Add(dev, granted) => if granted then log + [dev] else log
    case Remove(dev) =>
      assert IsLast(log, dev, LastAt(log, dev));
      var k :| IsLast(log, dev, k);
      if k < 0 || exists i :: 0 <= i < |log| && log[i].bus == dev then log else log[..k] + log[k + 1..]
  }

  function Run(l: seq<Device>, ops: seq<Op>): seq<Device>
    decreases |ops|
  {
    if ops == [] then l else Run(Step(l, ops[0]), ops[1..])
  }

  ghost function RunLog(log: seq<Device>, ops: seq<Op>): seq<Device>
    decreases |ops|
  {
    if ops == [] then log else RunLog(Logged(log, ops[0]), ops[1..])
  }

  /** In every run the list is the stable sort of the insertions still in force. */
  lemma {:induction false} RunStable(l: seq<Device>, log: seq<Device>, ops: seq<Op>)
    requires Stable(l, log)
    ensures Stable(Run(l, ops), RunLog(log, ops))
    decreases |ops|
  {
    hide Stable, Added, Removed;
    if ops != [] {
      match ops[0] {
        case Add(dev, _) => AddedStable(l, log, dev);
        case Remove(dev) => RemovedStable(l, log, dev);
      }
      RunStable(Step(l, ops[0]), Logged(log, ops[0]), ops[1..]);
    }
  }

  // Buses.

  ghost predicate BusClosed(l: seq<Device>) {
    forall i :: 0 <= i < |l| ==> l[i].bus == null || Listed(l, l[i].bus)
  }

  lemma AddedMembers(l: seq<Device>, dev: Device, x: Device?)
    ensures Listed(Added(l, dev), x) <==> Listed(l, x) || x == dev
  {
    var p := Place(l, dev.id);
    var r := Added(l, dev);
    assert r[p] == dev;
    if i :| 0 <= i < |l| && l[i] == x {
      assert r[if i < p then i else i + 1] == x;
    }
    if i :| 0 <= i < |r| && r[i] == x {
      assert i == p || (i < p && l[i] == x) || (i > p && l[i - 1] == x);
    }
  }

  /** Adding keeps every bus listed exactly when the device's own bus is. */
  lemma AddedBusClosed(l: seq<Device>, dev: Device)
    requires BusClosed(l)
    ensures BusClosed(Added(l, dev)) <==> dev.bus == null || dev.bus == dev || Listed(l, dev.bus)
  {
    hide Listed;
    var p := Place(l, dev.id);
    var r := Added(l, dev);
    AddedMembers(l, dev, dev.bus);
    assert r[p] == dev;
    forall i | 0 <= i < |r| && i != p
      ensures r[i].bus == null || Listed(r, r[i].bus)
    {
      var k := if i < p then i else i - 1;
      assert r[i] == l[k];
      AddedMembers(l, dev, l[k].bus);
    }
  }

  lemma CutMembers(l: seq<Device>, k: nat, x: Device)
    requires k < |l| && Listed(l, x) && l[k] != x
    ensures Listed(Cut(l, k), x)
  {
    var i :| 0 <= i < |l| && l[i] == x;
    var r := Cut(l, k);
    if i < k {
      assert r[i] == x;
    } else {
      assert r[i - 1] == x;
    }
  }

  /** A successful removal never orphans a listed device. */
  lemma RemovedBusClosed(l: seq<Device>, dev: Device?)
    requires BusClosed(l)
    ensures BusClosed(Removed(l, dev))
  {
    hide Listed;
    var k := LastAt(l, dev);
    if !Attached(l, dev) && k >= 0 {
      var r := Removed(l, dev);
      forall i | 0 <= i < |r|
        ensures r[i].bus == null || Listed(r, r[i].bus)
      {
        var j := if i < k then i else i + 1;
        assert r[i] == l[j];
        if l[j].bus != null {
          CutMembers(l, k, l[j].bus);
        }
      }
    }
  }

  predicate BusFirst(l: seq<Device>, op: Op) {
    op.Add? && op.granted ==> op.dev.bus == null || Listed(l, op.dev.bus)
  }

  predicate BusesFirst(l: seq<Device>, ops: seq<Op>)
    decreases |ops|
  {
    ops == [] || (BusFirst(l, ops[0]) && BusesFirst(Step(l, ops[0]), ops[1..]))
  }

  /** If every device is added after its bus, every listed device's bus is null
      or listed, throughout. */
  lemma {:induction false} RunBusClosed(l: seq<Device>, ops: seq<Op>)
    requires BusClosed(l) && BusesFirst(l, ops)
    ensures BusClosed(Run(l, ops))
    decreases |ops|
  {
    hide BusClosed, Added, Removed;
    if ops != [] {
      match ops[0] {
        case Add(dev, granted) =>
          if granted {
            AddedBusClosed(l, dev);
          }
        case Remove(dev) => RemovedBusClosed(l, dev);
      }
      RunBusClosed(Step(l, ops[0]), ops[1..]);
    }
  }

  // The operations.

  class DevList {
    var devices: seq<Device>

    constructor ()
      ensures devices == []
    {
      devices := [];
    }

    method AddDevice(dev: Device, granted: bool) returns (r: int)
      modifies this
      ensures devices == Step(old(devices), Add(dev, granted))
      ensures r == if granted then 0 else -1
    {
      if !granted {
        return EOF;
      }
      var i := 0;
      while i < |devices|
        invariant 0 <= i <= |devices| && forall k :: 0 <= k < i ==> Le(devices[k].id, dev.id)
      {
        if Cmp(devices[i].id, dev.id) > 0 {
          break;
        }
        i := i + 1;
      }
      assert i == Place(devices, dev.id);
      devices := devices[..i] + [dev] + devices[i..];
      return 0;
    }

    method RemoveDevice(dev: Device?) returns (r: int)
      modifies this
      ensures devices == Step(old(devices), Remove(dev))
      ensures r == if Listed(old(devices), dev) && !Attached(old(devices), dev) then 0 else -1
      ensures r == 0 ==>
        exists k :: k >= 0 && IsLast(old(devices), dev, k) && devices == old(devices)[..k] + old(devices)[k + 1..]
      ensures r != 0 ==> devices == old(devices)
    {
      var i, at := 0, -1;
      while i < |devices|
        invariant 0 <= i <= |devices| && -1 <= at < i
        invariant at >= 0 ==> devices[at] == dev
        invariant forall k :: at < k < i ==> devices[k] != dev
        invariant forall k :: 0 <= k < i ==> devices[k].bus != dev
      {
        if devices[i].bus == dev {
          return EOF;
        } else if devices[i] == dev {
          at := i;
        }
        i := i + 1;
      }
      IsLastUnique(devices, dev, at);
      if at < 0 {
        return EOF;
      }
      devices := devices[..at] + devices[at + 1..];
      return 0;
    }

    /** Finds the oldest insertion under the id. */
    method FromId(id: Id) returns (d: Device?)
      ensures d == if Sub(devices, id) == [] then null else Sub(devices, id)[0]
    {
      var i := 0;
      while i < |devices|
        invariant 0 <= i <= |devices| && forall k :: 0 <= k < i ==> devices[k].id != id
      {
        if devices[i].id == id {
          FirstInSub(devices, i, id);
          return devices[i];
        }
        i := i + 1;
      }
      SubNone(devices, id);
      return null;
    }
  }

  lemma FirstInSub(l: seq<Device>, i: nat, id: Id)
    requires i < |l| && l[i].id == id && forall k :: 0 <= k < i ==> l[k].id != id
    ensures Sub(l, id) != [] && Sub(l, id)[0] == l[i]
  {
    SubNone(l[..i], id);
    SubAround(l, i, id);
  }
}
