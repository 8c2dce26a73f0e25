/** The spinlocks of kern/arch/mips/sync.c, kern/arch/armv7a/sync.c and
    kern/arch/i386/sync.c as transition systems: any number of CPUs, one
    instruction per step, any interleaving.

    In each module `Owns` says that a CPU has acquired the lock word and not yet
    given it back, and `Inside` is the program point between `spin_lock` and
    `spin_unlock`. */

/** LL/SC. A store-conditional succeeds only while the link is intact, may fail
    for no reason, and breaks every link when it succeeds. */
module MipsLock {

  datatype Pc =
    | Outside
    | LockLL | LockTest | BusySC | BusyBack | FreeOr | FreeSC | FreeTest
    | Inside
    | UnlockLL | UnlockAnd | UnlockSC | UnlockTest

  datatype Cpu = Cpu(pc: Pc, reg: nat, link: bool)

  datatype State = State(lock: nat, cpus: seq<Cpu>)

  /** `Exec(i, sc)`: CPU `i` runs one instruction, and if it is an `sc` with its
      link intact, `sc` says whether it goes through. */
  datatype Event = Exec(cpu: nat, sc: bool) | LoseLink(cpu: nat)

  function Or1(x: nat): nat { if x % 2 == 0 then x + 1 else x }

  function AndNot1(x: nat): nat { x - x % 2 }

  function NoLinks(cpus: seq<Cpu>): (r: seq<Cpu>)
    ensures |r| == |cpus|
    ensures forall k :: 0 <= k < |cpus| ==> r[k] == cpus[k].(link := false)
  {
    seq(|cpus|, k requires 0 <= k < |cpus| => cpus[k].(link := false))
  }

  function StoreConditional(s: State, i: nat, sc: bool, next: Pc): State
    requires i < |s.cpus|
  {
    var c := s.cpus[i];
    if c.link && sc then State(c.reg, NoLinks(s.cpus)[i := Cpu(next, 1, false)])
    else s.(cpus := s.cpus[i := Cpu(next, 0, false)])
  }

  function Execute(s: State, i: nat, sc: bool): State
    requires i < |s.cpus|
  {
    var c := s.cpus[i];
    match c.pc
    case Outside => s.(cpus := s.cpus[i := c.(pc := LockLL)])
    case LockLL => s.(cpus := s.cpus[i := Cpu(LockTest, s.lock, true)])
    case LockTest => s.(cpus := s.cpus[i := c.(pc := if c.reg == 0 then FreeOr else BusySC)])
    case BusySC => StoreConditional(s, i, sc, BusyBack)
    case BusyBack => s.(cpus := s.cpus[i := c.(pc := LockLL)])
    case FreeOr => s.(cpus := s.cpus[i := c.(pc := FreeSC, reg := Or1(c.reg))])
    case FreeSC => StoreConditional(s, i, sc, FreeTest)
    case FreeTest => s.(cpus := s.cpus[i := c.(pc := if c.reg == 0 then LockLL else Inside)])
    case Inside => s.(cpus := s.cpus[i := c.(pc := UnlockLL)])
    case UnlockLL => s.(cpus := s.cpus[i := Cpu(UnlockAnd, s.lock, true)])
    case UnlockAnd => s.(cpus := s.cpus[i := c.(pc := UnlockSC, reg := AndNot1(c.reg))])
    case UnlockSC => StoreConditional(s, i, sc, UnlockTest)
    case UnlockTest => s.(cpus := s.cpus[i := c.(pc := if c.reg == 0 then UnlockLL else Outside)])
  }

  function Step(s: State, e: Event): State {
    if e.cpu >= |s.cpus| then s
    else match e
      case Exec(i, sc) => Execute(s, i, sc)
      case LoseLink(i) => s.(cpus := s.cpus[i := s.cpus[i].(link := false)])
  }

  function Run(s: State, events: seq<Event>): State
    decreases |events|
  {
    if events == [] then s else Run(Step(s, events[0]), events[1..])
  }

  predicate Owns(c: Cpu) {
    || c.pc.Inside? || c.pc.UnlockLL? || c.pc.UnlockAnd? || c.pc.UnlockSC?
    || (c.pc.UnlockTest? && c.reg == 0) || (c.pc.FreeTest? && c.reg == 1)
  }

  /** What a CPU's register and link say about the lock word. */
  predicate Consistent(c: Cpu, lock: nat) {
    match c.pc
    case LockTest => c.link ==> c.reg == lock
    case BusySC => c.reg != 0 && (c.link ==> c.reg == lock)
    case FreeOr => c.reg == 0 && (c.link ==> lock == 0)
    case FreeSC => c.reg == 1 && (c.link ==> lock == 0)
    case FreeTest => c.reg <= 1
    case UnlockAnd => c.reg == 1
    case UnlockSC => c.reg == 0
    case UnlockTest => c.reg <= 1
    case _ => true
  }

  /** The lock word is 1 exactly while some CPU owns it, and at most one does. */
  ghost predicate Inv(s: State) {
    && s.lock <= 1
    && (forall i :: 0 <= i < |s.cpus| ==> Consistent(s.cpus[i], s.lock))
    && (forall i, j :: 0 <= i < j < |s.cpus| ==> !(Owns(s.cpus[i]) && Owns(s.cpus[j])))
    && (s.lock == 1 <==> exists i :: 0 <= i < |s.cpus| && Owns(s.cpus[i]))
  }

  function Init(n: nat): State {
    State(0, seq(n, _ => Cpu(Outside, 0, false)))
  }

  lemma InitInv(n: nat)
    ensures Inv(Init(n))
  {
  }

  /** A step of one CPU that neither changes the lock word nor who owns it. */
  lemma QuietStep(s: State, i: nat, c: Cpu)
    requires Inv(s) && i < |s.cpus| && Consistent(c, s.lock) && Owns(c) == Owns(s.cpus[i])
    ensures Inv(s.(cpus := s.cpus[i := c]))
  {
    hide Owns, Consistent;
    var t := s.(cpus := s.cpus[i := c]);
    if s.lock == 1 {
      var k :| 0 <= k < |s.cpus| && Owns(s.cpus[k]);
      assert Owns(t.cpus[k]);
    }
    if k :| 0 <= k < |t.cpus| && Owns(t.cpus[k]) {
      assert Owns(s.cpus[k]);
    }
  }

  lemma OwnsWithoutLink(c: Cpu)
    ensures Owns(c.(link := false)) == Owns(c)
  {
  }

  lemma ConsistentWithoutLink(c: Cpu, lock: nat, lock': nat)
    requires Consistent(c, lock)
    ensures Consistent(c.(link := false), lock')
  {
  }

  /** A successful store: the word changes and every link breaks. */
  lemma StoreStep(s: State, i: nat, c: Cpu, lock: nat)
    requires Inv(s) && i < |s.cpus| && Consistent(c, lock) && lock <= 1 && !c.link
    requires lock == 1 <==> Owns(c) || (s.lock == 1 && !Owns(s.cpus[i]))
    requires Owns(c) && !Owns(s.cpus[i]) ==> s.lock == 0
    ensures Inv(State(lock, NoLinks(s.cpus)[i := c]))
  {
    hide Owns, Consistent;
    var t := State(lock, NoLinks(s.cpus)[i := c]);
    forall k | 0 <= k < |s.cpus| && k != i
      ensures Owns(t.cpus[k]) == Owns(s.cpus[k]) && Consistent(t.cpus[k], lock)
    {
      OwnsWithoutLink(s.cpus[k]);
      ConsistentWithoutLink(s.cpus[k], s.lock, lock);
    }
    if lock == 1 {
      if Owns(c) {
        assert Owns(t.cpus[i]);
      } else {
        var k :| 0 <= k < |s.cpus| && Owns(s.cpus[k]);
        assert Owns(t.cpus[k]);
      }
    }
  }

  lemma InvFacts(s: State, i: nat)
    requires Inv(s) && i < |s.cpus|
    ensures s.lock <= 1 && Consistent(s.cpus[i], s.lock) && (Owns(s.cpus[i]) ==> s.lock == 1)
  {
  }

  lemma ExecuteInv(s: State, i: nat, sc: bool)
    requires Inv(s) && i < |s.cpus|
    ensures Inv(Execute(s, i, sc))
  {
    hide Inv;
    var c := s.cpus[i];
    var t := Execute(s, i, sc);
    InvFacts(s, i);
    if c.link && sc && (c.pc.BusySC? || c.pc.FreeSC? || c.pc.UnlockSC?) {
      StoreStep(s, i, t.cpus[i], c.reg);
    } else {
      QuietStep(s, i, t.cpus[i]);
    }
  }

  lemma StepInv(s: State, e: Event)
    requires Inv(s)
    ensures Inv(Step(s, e))
  {
    hide Inv;
    if e.cpu < |s.cpus| {
      match e
      case Exec(i, sc) => ExecuteInv(s, i, sc);
      case LoseLink(i) =>
        OwnsWithoutLink(s.cpus[i]);
        LoseLinkInv(s, i);
    }
  }

  lemma LoseLinkInv(s: State, i: nat)
    requires Inv(s) && i < |s.cpus|
    ensures Inv(s.(cpus := s.cpus[i := s.cpus[i].(link := false)]))
  {
    OwnsWithoutLink(s.cpus[i]);
    ConsistentWithoutLink(s.cpus[i], s.lock, s.lock);
    QuietStep(s, i, s.cpus[i].(link := false));
  }

  lemma {:induction false} RunInv(s: State, events: seq<Event>)
    requires Inv(s)
    ensures Inv(Run(s, events))
    decreases |events|
  {
    hide Inv, Step;
    if events != [] {
      StepInv(s, events[0]);
      RunInv(Step(s, events[0]), events[1..]);
    }
  }

  /** For any number of CPUs and any interleaving, at most one CPU is between
      `spin_lock` and `spin_unlock`. */
  lemma MutualExclusion(n: nat, events: seq<Event>)
    ensures var s := Run(Init(n), events);
      forall i, j :: 0 <= i < j < |s.cpus| ==> !(s.cpus[i].pc.Inside? && s.cpus[j].pc.Inside?)
  {
    InitInv(n);
    RunInv(Init(n), events);
    var s := Run(Init(n), events);
    assert forall i :: 0 <= i < |s.cpus| && s.cpus[i].pc.Inside? ==> Owns(s.cpus[i]);
  }

  /** `n` instructions of CPU `i` alone, its stores going through. */
  function Alone(i: nat, n: nat): seq<Event> {
    if n == 0 then [] else [Exec(i, true)] + Alone(i, n - 1)
  }

  lemma RunAlone(s: State, i: nat, n: nat)
    ensures n == 0 ==> Run(s, Alone(i, n)) == s
    ensures n > 0 ==> Run(s, Alone(i, n)) == Run(Step(s, Exec(i, true)), Alone(i, n - 1))
  {
    assert n > 0 ==> Alone(i, n)[1..] == Alone(i, n - 1);
  }

  /** A free lock can be taken: CPU `i` alone gets inside and owns the word, and
      nobody else moves. */
  lemma EntersWhenFree(s: State, i: nat)
    requires i < |s.cpus| && s.lock == 0 && s.cpus[i].pc.Outside?
    ensures var t := Run(s, Alone(i, 6));
      t.lock == 1 && t.cpus == NoLinks(s.cpus)[i := Cpu(Inside, 1, false)]
  {
    hide Alone, Run;
    var u, e := s.cpus, Exec(i, true);
    var s1 := Step(s, e);
    assert s1 == State(0, u[i := u[i].(pc := LockLL)]);
    var s2 := Step(s1, e);
    assert s2 == State(0, u[i := Cpu(LockTest, 0, true)]);
    var s3 := Step(s2, e);
    assert s3 == State(0, u[i := Cpu(FreeOr, 0, true)]);
    var s4 := Step(s3, e);
    assert s4 == State(0, u[i := Cpu(FreeSC, 1, true)]);
    var s5 := Step(s4, e);
    assert s5 == State(1, NoLinks(u)[i := Cpu(FreeTest, 1, false)]);
    var s6 := Step(s5, e);
    assert s6 == State(1, NoLinks(u)[i := Cpu(Inside, 1, false)]);
    RunAlone(s, i, 6);
    RunAlone(s1, i, 5);
    RunAlone(s2, i, 4);
    RunAlone(s3, i, 3);
    RunAlone(s4, i, 2);
    RunAlone(s5, i, 1);
    RunAlone(s6, i, 0);
  }

  /** Unlocking alone leaves the lock free. */
  lemma LeavesUnlocked(s: State, i: nat)
    requires i < |s.cpus| && s.lock == 1 && s.cpus[i].pc.Inside?
    ensures var t := Run(s, Alone(i, 5));
      t.lock == 0 && t.cpus == NoLinks(s.cpus)[i := Cpu(Outside, 1, false)]
  {
    hide Alone, Run;
    var u, e := s.cpus, Exec(i, true);
    var s1 := Step(s, e);
    assert s1 == State(1, u[i := u[i].(pc := UnlockLL)]);
    var s2 := Step(s1, e);
    assert s2 == State(1, u[i := Cpu(UnlockAnd, 1, true)]);
    var s3 := Step(s2, e);
    assert s3 == State(1, u[i := Cpu(UnlockSC, 0, true)]);
    var s4 := Step(s3, e);
    assert s4 == State(0, NoLinks(u)[i := Cpu(UnlockTest, 1, false)]);
    var s5 := Step(s4, e);
    assert s5 == State(0, NoLinks(u)[i := Cpu(Outside, 1, false)]);
    RunAlone(s, i, 5);
    RunAlone(s1, i, 4);
    RunAlone(s2, i, 3);
    RunAlone(s3, i, 2);
    RunAlone(s4, i, 1);
    RunAlone(s5, i, 0);
  }

  /** Instructions a CPU needs to get inside a free lock from wherever it waits,
      left alone: an attempt that has lost its link, or saw the lock taken, goes
      back to the load. */
  function ToEnter(c: Cpu): nat {
    match c.pc
    case Outside => 6
    case LockLL => 5
    case LockTest => if c.reg != 0 then 8 else if c.link then 4 else 9
    case BusySC => 7
    case BusyBack => 6
    case FreeOr => if c.link then 3 else 8
    case FreeSC => if c.link then 2 else 7
    case FreeTest => if c.reg == 1 then 1 else 6
    case _ => 0
  }

  predicate Entering(c: Cpu, lock: nat) {
    if c.pc.Inside? || (c.pc.FreeTest? && c.reg == 1) then lock == 1
    else
      && lock == 0
      && (c.pc.Outside? || c.pc.LockLL? || c.pc.LockTest? || c.pc.BusySC? || c.pc.BusyBack? || c.pc.FreeOr?
          || c.pc.FreeSC? || c.pc.FreeTest?)
  }

  lemma EntersStep(s: State, i: nat)
    requires i < |s.cpus| && Consistent(s.cpus[i], s.lock) && Entering(s.cpus[i], s.lock) && !s.cpus[i].pc.Inside?
    ensures var t := Step(s, Exec(i, true));
      |t.cpus| == |s.cpus| && Entering(t.cpus[i], t.lock) && ToEnter(t.cpus[i]) == ToEnter(s.cpus[i]) - 1
  {
  }

  lemma {:induction false} EntersFromAnywhere(s: State, i: nat)
    requires Inv(s) && i < |s.cpus| && Entering(s.cpus[i], s.lock)
    ensures var t := Run(s, Alone(i, ToEnter(s.cpus[i])));
      |t.cpus| == |s.cpus| && t.lock == 1 && t.cpus[i].pc.Inside?
    decreases ToEnter(s.cpus[i])
  {
    hide Inv, Consistent, Step, Run, Alone;
    var n := ToEnter(s.cpus[i]);
    RunAlone(s, i, n);
    if n > 0 {
      InvFacts(s, i);
      EntersStep(s, i);
      StepInv(s, Exec(i, true));
      EntersFromAnywhere(Step(s, Exec(i, true)), i);
    }
  }

  /** The same for the way out. */
  function ToLeave(c: Cpu): nat {
    match c.pc
    case Inside => 5
    case UnlockLL => 4
    case UnlockAnd => if c.link then 3 else 7
    case UnlockSC => if c.link then 2 else 6
    case UnlockTest => if c.reg == 1 then 1 else 5
    case _ => 0
  }

  predicate Leaving(c: Cpu, lock: nat) {
    if c.pc.Outside? || (c.pc.UnlockTest? && c.reg == 1) then lock == 0
    else lock == 1 && (c.pc.Inside? || c.pc.UnlockLL? || c.pc.UnlockAnd? || c.pc.UnlockSC? || c.pc.UnlockTest?)
  }

  lemma LeavesStep(s: State, i: nat)
    requires i < |s.cpus| && Consistent(s.cpus[i], s.lock) && Leaving(s.cpus[i], s.lock) && !s.cpus[i].pc.Outside?
    ensures var t := Step(s, Exec(i, true));
      |t.cpus| == |s.cpus| && Leaving(t.cpus[i], t.lock) && ToLeave(t.cpus[i]) == ToLeave(s.cpus[i]) - 1
  {
  }

  lemma {:induction false} LeavesFromAnywhere(s: State, i: nat)
    requires Inv(s) && i < |s.cpus| && Leaving(s.cpus[i], s.lock)
    ensures var t := Run(s, Alone(i, ToLeave(s.cpus[i])));
      |t.cpus| == |s.cpus| && t.lock == 0 && t.cpus[i].pc.Outside?
    decreases ToLeave(s.cpus[i])
  {
    hide Inv, Consistent, Step, Run, Alone;
    var n := ToLeave(s.cpus[i]);
    RunAlone(s, i, n);
    if n > 0 {
      InvFacts(s, i);
      LeavesStep(s, i);
      StepInv(s, Exec(i, true));
      LeavesFromAnywhere(Step(s, Exec(i, true)), i);
    }
  }
}


/** LDREX/STREX with a plain-store unlock. Exclusive monitors follow section
    A3.4 of the ARMv7-A Architecture Reference Manual (DDI 0406C): a store by
    any CPU clears the monitors of the others; whether a plain store clears the
    storing CPU's own monitor is left open. A skipped `strexeq` means retry. */
module ArmLock {

  datatype Pc =
    | Outside
    | LockLdrex | LockCmp | LockStrexEq | LockTest
    | Inside
    | UnlockCheck | UnlockStore
    | Panicked

  datatype Cpu = Cpu(pc: Pc, val: nat, eq: bool, ret: nat, monitor: bool)

  datatype State = State(lock: nat, cpus: seq<Cpu>)

  /** `choice` resolves what the architecture leaves open in a step. */
  datatype Event = Exec(cpu: nat, choice: bool) | LoseMonitor(cpu: nat)

  function NoMonitors(cpus: seq<Cpu>): (r: seq<Cpu>)
    ensures |r| == |cpus|
    ensures forall k :: 0 <= k < |cpus| ==> r[k] == cpus[k].(monitor := false)
  {
    seq(|cpus|, k requires 0 <= k < |cpus| => cpus[k].(monitor := false))
  }

  function Execute(s: State, i: nat, choice: bool): State
    requires i < |s.cpus|
  {
    var c := s.cpus[i];
    match c.pc
    case Outside => s.(cpus := s.cpus[i := c.(pc := LockLdrex, ret := 1)])
    case LockLdrex => s.(cpus := s.cpus[i := c.(pc := LockCmp, val := s.lock, monitor := true)])
    case LockCmp => s.(cpus := s.cpus[i := c.(pc := LockStrexEq, eq := c.val == 0)])
    case LockStrexEq =>
      if !c.eq then s.(cpus := s.cpus[i := c.(pc := LockTest, ret := 1)])
      else if c.monitor && choice then
        State(1, NoMonitors(s.cpus)[i := c.(pc := LockTest, ret := 0, monitor := false)])
      else s.(cpus := s.cpus[i := c.(pc := LockTest, ret := 1, monitor := false)])
    case LockTest => s.(cpus := s.cpus[i := c.(pc := if c.ret == 0 then Inside else LockLdrex)])
    case Inside => s.(cpus := s.cpus[i := c.(pc := UnlockCheck)])
    case UnlockCheck => s.(cpus := s.cpus[i := c.(pc := if s.lock == 0 then Panicked else UnlockStore)])
    case UnlockStore =>
      State(0, NoMonitors(s.cpus)[i := c.(pc := Outside, monitor := c.monitor && choice)])
    case Panicked => s
  }

  function Step(s: State, e: Event): State {
    if e.cpu >= |s.cpus| then s
    else match e
      case Exec(i, choice) => Execute(s, i, choice)
      case LoseMonitor(i) => s.(cpus := s.cpus[i := s.cpus[i].(monitor := false)])
  }

  function Run(s: State, events: seq<Event>): State
    decreases |events|
  {
    if events == [] then s else Run(Step(s, events[0]), events[1..])
  }

  predicate Owns(c: Cpu) {
    c.pc.Inside? || c.pc.UnlockCheck? || c.pc.UnlockStore? || (c.pc.LockTest? && c.ret == 0)
  }

  predicate Consistent(c: Cpu, lock: nat) {
    match c.pc
    case LockCmp => c.monitor ==> c.val == lock
    case LockStrexEq => c.monitor && c.eq ==> lock == 0
    case Panicked => false
    case _ => true
  }

  ghost predicate Inv(s: State) {
    && s.lock <= 1
    && (forall i :: 0 <= i < |s.cpus| ==> Consistent(s.cpus[i], s.lock))
    && (forall i, j :: 0 <= i < j < |s.cpus| ==> !(Owns(s.cpus[i]) && Owns(s.cpus[j])))
    && (s.lock == 1 <==> exists i :: 0 <= i < |s.cpus| && Owns(s.cpus[i]))
  }

  function Init(n: nat): State {
    State(0, seq(n, _ => Cpu(Outside, 0, false, 1, false)))
  }

  lemma InitInv(n: nat)
    ensures Inv(Init(n))
  {
  }

  lemma QuietStep(s: State, i: nat, c: Cpu)
    requires Inv(s) && i < |s.cpus| && Consistent(c, s.lock) && Owns(c) == Owns(s.cpus[i])
    ensures Inv(s.(cpus := s.cpus[i := c]))
  {
    hide Owns, Consistent;
    var t := s.(cpus := s.cpus[i := c]);
    if s.lock == 1 {
      var k :| 0 <= k < |s.cpus| && Owns(s.cpus[k]);
      assert Owns(t.cpus[k]);
    }
    if k :| 0 <= k < |t.cpus| && Owns(t.cpus[k]) {
      assert Owns(s.cpus[k]);
    }
  }

  lemma WithoutMonitor(c: Cpu, lock: nat, lock': nat)
    requires Consistent(c, lock)
    ensures Owns(c.(monitor := false)) == Owns(c) && Consistent(c.(monitor := false), lock')
  {
  }

  /** A store: the word changes and the monitors of all other CPUs clear. */
  lemma StoreStep(s: State, i: nat, c: Cpu, lock: nat)
    requires Inv(s) && i < |s.cpus| && Consistent(c, lock) && lock <= 1
    requires lock == 1 <==> Owns(c) || (s.lock == 1 && !Owns(s.cpus[i]))
    requires Owns(c) && !Owns(s.cpus[i]) ==> s.lock == 0
    ensures Inv(State(lock, NoMonitors(s.cpus)[i := c]))
  {
    hide Owns, Consistent;
    var t := State(lock, NoMonitors(s.cpus)[i := c]);
    forall k | 0 <= k < |s.cpus| && k != i
      ensures Owns(t.cpus[k]) == Owns(s.cpus[k]) && Consistent(t.cpus[k], lock)
    {
      WithoutMonitor(s.cpus[k], s.lock, lock);
    }
    if lock == 1 {
      if Owns(c) {
        assert Owns(t.cpus[i]);
      } else {
        var k :| 0 <= k < |s.cpus| && Owns(s.cpus[k]);
        assert Owns(t.cpus[k]);
      }
    }
  }

  lemma InvFacts(s: State, i: nat)
    requires Inv(s) && i < |s.cpus|
    ensures s.lock <= 1 && Consistent(s.cpus[i], s.lock) && (Owns(s.cpus[i]) ==> s.lock == 1)
  {
  }

  lemma ExecuteInv(s: State, i: nat, choice: bool)
    requires Inv(s) && i < |s.cpus|
    ensures Inv(Execute(s, i, choice))
  {
    hide Inv;
    var c := s.cpus[i];
    var t := Execute(s, i, choice);
    InvFacts(s, i);
    if c.pc.LockStrexEq? && c.eq && c.monitor && choice {
      StoreStep(s, i, t.cpus[i], 1);
    } else if c.pc.UnlockStore? {
      StoreStep(s, i, t.cpus[i], 0);
    } else {
      QuietStep(s, i, t.cpus[i]);
    }
  }

  lemma StepInv(s: State, e: Event)
    requires Inv(s)
    ensures Inv(Step(s, e))
  {
    hide Inv;
    if e.cpu < |s.cpus| {
      InvFacts(s, e.cpu);
      match e
      case Exec(i, choice) => ExecuteInv(s, i, choice);
      case LoseMonitor(i) =>
        WithoutMonitor(s.cpus[i], s.lock, s.lock);
        QuietStep(s, i, s.cpus[i].(monitor := false));
    }
  }

  lemma {:induction false} RunInv(s: State, events: seq<Event>)
    requires Inv(s)
    ensures Inv(Run(s, events))
    decreases |events|
  {
    hide Inv, Step;
    if events != [] {
      StepInv(s, events[0]);
      RunInv(Step(s, events[0]), events[1..]);
    }
  }

  /** At most one CPU is between `spin_lock` and `spin_unlock`, and the panic of
      `spin_unlock` is never reached. */
  lemma MutualExclusion(n: nat, events: seq<Event>)
    ensures var s := Run(Init(n), events);
      && (forall i, j :: 0 <= i < j < |s.cpus| ==> !(s.cpus[i].pc.Inside? && s.cpus[j].pc.Inside?))
      && (forall i :: 0 <= i < |s.cpus| ==> !s.cpus[i].pc.Panicked?)
  {
    InitInv(n);
    RunInv(Init(n), events);
    var s := Run(Init(n), events);
    assert forall i :: 0 <= i < |s.cpus| && s.cpus[i].pc.Inside? ==> Owns(s.cpus[i]);
    assert forall i :: 0 <= i < |s.cpus| ==> Consistent(s.cpus[i], s.lock);
  }

  /** `n` instructions of CPU `i` alone, its exclusive stores going through. */
  function Alone(i: nat, n: nat): seq<Event> {
    if n == 0 then [] else [Exec(i, true)] + Alone(i, n - 1)
  }

  lemma RunAlone(s: State, i: nat, n: nat)
    ensures n == 0 ==> Run(s, Alone(i, n)) == s
    ensures n > 0 ==> Run(s, Alone(i, n)) == Run(Step(s, Exec(i, true)), Alone(i, n - 1))
  {
    assert n > 0 ==> Alone(i, n)[1..] == Alone(i, n - 1);
  }

  /** A free lock can be taken: CPU `i` alone gets inside and owns the word, and
      nobody else moves. */
  lemma EntersWhenFree(s: State, i: nat)
    requires i < |s.cpus| && s.lock == 0 && s.cpus[i].pc.Outside?
    ensures var t := Run(s, Alone(i, 5));
      t.lock == 1 && t.cpus == NoMonitors(s.cpus)[i := Cpu(Inside, 0, true, 0, false)]
  {
    hide Alone, Run;
    var u, e := s.cpus, Exec(i, true);
    var s1 := Step(s, e);
    assert s1 == State(0, u[i := u[i].(pc := LockLdrex, ret := 1)]);
    var s2 := Step(s1, e);
    assert s2 == State(0, u[i := u[i].(pc := LockCmp, val := 0, ret := 1, monitor := true)]);
    var s3 := Step(s2, e);
    assert s3 == State(0, u[i := Cpu(LockStrexEq, 0, true, 1, true)]);
    var s4 := Step(s3, e);
    assert s4 == State(1, NoMonitors(u)[i := Cpu(LockTest, 0, true, 0, false)]);
    var s5 := Step(s4, e);
    assert s5 == State(1, NoMonitors(u)[i := Cpu(Inside, 0, true, 0, false)]);
    RunAlone(s, i, 5);
    RunAlone(s1, i, 4);
    RunAlone(s2, i, 3);
    RunAlone(s3, i, 2);
    RunAlone(s4, i, 1);
    RunAlone(s5, i, 0);
  }

  /** Unlocking alone leaves the lock free. */
  lemma LeavesUnlocked(s: State, i: nat)
    requires i < |s.cpus| && s.lock == 1 && s.cpus[i].pc.Inside?
    ensures var t := Run(s, Alone(i, 3));
      t.lock == 0 && t.cpus == NoMonitors(s.cpus)[i := s.cpus[i].(pc := Outside)]
  {
    hide Alone, Run;
    var u, e := s.cpus, Exec(i, true);
    var s1 := Step(s, e);
    assert s1 == State(1, u[i := u[i].(pc := UnlockCheck)]);
    var s2 := Step(s1, e);
    assert s2 == State(1, u[i := u[i].(pc := UnlockStore)]);
    var s3 := Step(s2, e);
    assert s3 == State(0, NoMonitors(u)[i := u[i].(pc := Outside)]);
    RunAlone(s, i, 3);
    RunAlone(s1, i, 2);
    RunAlone(s2, i, 1);
    RunAlone(s3, i, 0);
  }

  /** Unlocking a lock that is free panics and leaves it alone. */
  lemma UnlockOfFreePanics(s: State, i: nat, choice: bool)
    requires i < |s.cpus| && s.lock == 0 && s.cpus[i].pc.Inside?
    ensures var t := Run(s, [Exec(i, choice), Exec(i, choice)]);
      t.lock == 0 && t.cpus == s.cpus[i := s.cpus[i].(pc := Panicked)]
  {
    var e := Exec(i, choice);
    var s1 := Step(s, e);
    assert [e, e][1..] == [e] && [e][1..] == [];
    assert Run(s1, [e]) == Step(s1, e);
    assert Step(s1, e).cpus == s.cpus[i := s.cpus[i].(pc := Panicked)];
  }

  /** Instructions a CPU needs to get inside a free lock from wherever it waits,
      left alone: an attempt that has lost its monitor, or saw the lock taken,
      goes back to the load. */
  function ToEnter(c: Cpu): nat {
    match c.pc
    case Outside => 5
    case LockLdrex => 4
    case LockCmp => if c.val == 0 && c.monitor then 3 else 7
    case LockStrexEq => if c.eq && c.monitor then 2 else 6
    case LockTest => if c.ret == 0 then 1 else 5
    case _ => 0
  }

  predicate Entering(c: Cpu, lock: nat) {
    if c.pc.Inside? || (c.pc.LockTest? && c.ret == 0) then lock == 1
    else lock == 0 && (c.pc.Outside? || c.pc.LockLdrex? || c.pc.LockCmp? || c.pc.LockStrexEq? || c.pc.LockTest?)
  }

  lemma EntersStep(s: State, i: nat)
    requires i < |s.cpus| && Consistent(s.cpus[i], s.lock) && Entering(s.cpus[i], s.lock) && !s.cpus[i].pc.Inside?
    ensures var t := Step(s, Exec(i, true));
      |t.cpus| == |s.cpus| && Entering(t.cpus[i], t.lock) && ToEnter(t.cpus[i]) == ToEnter(s.cpus[i]) - 1
  {
  }

  lemma {:induction false} EntersFromAnywhere(s: State, i: nat)
    requires Inv(s) && i < |s.cpus| && Entering(s.cpus[i], s.lock)
    ensures var t := Run(s, Alone(i, ToEnter(s.cpus[i])));
      |t.cpus| == |s.cpus| && t.lock == 1 && t.cpus[i].pc.Inside?
    decreases ToEnter(s.cpus[i])
  {
    hide Inv, Consistent, Step, Run, Alone;
    var n := ToEnter(s.cpus[i]);
    RunAlone(s, i, n);
    if n > 0 {
      InvFacts(s, i);
      EntersStep(s, i);
      StepInv(s, Exec(i, true));
      EntersFromAnywhere(Step(s, Exec(i, true)), i);
    }
  }
}


/** XCHG, which reads and writes the lock word in one step. */
module X86Lock {

  datatype Pc = Outside | LockXchg | Inside | UnlockXchg

  datatype State = State(lock: nat, cpus: seq<Pc>)

  function Step(s: State, i: nat): State {
    if i >= |s.cpus| then s
    else match s.cpus[i]
      case Outside => s.(cpus := s.cpus[i := LockXchg])
      case LockXchg => State(1, s.cpus[i := if s.lock != 0 then LockXchg else Inside])
      case Inside => s.(cpus := s.cpus[i := UnlockXchg])
      case UnlockXchg => State(0, s.cpus[i := Outside])
  }

  function Run(s: State, schedule: seq<nat>): State
    decreases |schedule|
  {
    if schedule == [] then s else Run(Step(s, schedule[0]), schedule[1..])
  }

  predicate Owns(c: Pc) {
    c.Inside? || c.UnlockXchg?
  }

  ghost predicate Inv(s: State) {
    && s.lock <= 1
    && (forall i, j :: 0 <= i < j < |s.cpus| ==> !(Owns(s.cpus[i]) && Owns(s.cpus[j])))
    && (s.lock == 1 <==> exists i :: 0 <= i < |s.cpus| && Owns(s.cpus[i]))
  }

  function Init(n: nat): State {
    State(0, seq(n, _ => Outside))
  }

  lemma StepInv(s: State, i: nat)
    requires Inv(s)
    ensures Inv(Step(s, i))
  {
    if i < |s.cpus| {
      var t := Step(s, i);
      assert Owns(s.cpus[i]) ==> s.lock == 1;
      if s.lock == 1 {
        var k :| 0 <= k < |s.cpus| && Owns(s.cpus[k]);
        assert k != i ==> t.cpus[k] == s.cpus[k];
        assert k == i && s.cpus[i].Inside? ==> Owns(t.cpus[i]);
      }
      if s.cpus[i].LockXchg? && s.lock == 0 {
        assert Owns(t.cpus[i]);
      }
      if k :| 0 <= k < |t.cpus| && Owns(t.cpus[k]) {
        assert k == i || Owns(s.cpus[k]);
      }
    }
  }

  lemma {:induction false} RunInv(s: State, schedule: seq<nat>)
    requires Inv(s)
    ensures Inv(Run(s, schedule))
    decreases |schedule|
  {
    hide Inv, Step;
    if schedule != [] {
      StepInv(s, schedule[0]);
      RunInv(Step(s, schedule[0]), schedule[1..]);
    }
  }

  /** At most one CPU is between `spin_lock` and `spin_unlock`. */
  lemma MutualExclusion(n: nat, schedule: seq<nat>)
    ensures var s := Run(Init(n), schedule);
      forall i, j :: 0 <= i < j < |s.cpus| ==> !(s.cpus[i].Inside? && s.cpus[j].Inside?)
  {
    RunInv(Init(n), schedule);
    var s := Run(Init(n), schedule);
    assert forall i :: 0 <= i < |s.cpus| && s.cpus[i].Inside? ==> Owns(s.cpus[i]);
  }

  /** A free lock can be taken, and unlocking leaves it free. */
  lemma EntersAndLeaves(s: State, i: nat)
    requires i < |s.cpus| && s.lock == 0 && s.cpus[i].Outside?
    ensures Run(s, [i, i]) == State(1, s.cpus[i := Inside])
    ensures Run(s, [i, i, i, i]) == s
  {
    var s1 := Step(s, i);
    var s2 := Step(s1, i);
    var s3 := Step(s2, i);
    assert Step(s3, i).cpus == s.cpus;
    assert [i, i][1..] == [i] && [i, i, i][1..] == [i, i] && [i, i, i, i][1..] == [i, i, i];
    assert Run(s1, [i]) == s2;
    assert Run(s2, [i, i]) == Run(s3, [i]) == s;
    assert Run(s1, [i, i, i]) == Run(s2, [i, i]);
  }
}
