/** The counting semaphore of kern/arch/armv7a/sync.c, one machine instruction
    per step, for any number of CPUs. Exclusive monitors follow section A3.4 of
    the ARMv7-A Architecture Reference Manual (DDI 0406C). A conditional store
    that is skipped leaves `ret` as it was, so the loop goes round again. */
module Semaphore {

  const INT_MAX: int := 0x7fff_ffff
  const STREX_SUCCESS: int := 0
  const STREX_FAIL: int := 1
  const STREX_CORRUPT: int := -1

  datatype Pc =
    | Idle
    | DecLdrex | DecSubs | DecStrexPl | DecTest
    | IncLdrex | IncAdd | IncCmp | IncMovGt | IncStrexLe | IncTest
    | Panicked

  /** `flag` is MI after SUBS and GT after CMP; `tokens` counts the decrements
      of this CPU that took effect less its increments. */
  datatype Cpu = Cpu(pc: Pc, val: int, flag: bool, ret: int, monitor: bool, tokens: int)

  datatype State = State(val: int, limit: int, cpus: seq<Cpu>)

  /** `choice` says whether an exclusive store that may succeed does. */
  datatype Event = Begin(cpu: nat, inc: bool) | Exec(cpu: nat, choice: bool) | LoseMonitor(cpu: nat)

  /** A sum as a signed 32-bit register holds it. */
  function Wrap(x: int): int {
    if x > INT_MAX then x - 0x1_0000_0000 else x
  }

  function NoMonitors(cpus: seq<Cpu>): (r: seq<Cpu>)
    ensures |r| == |cpus|
    ensures forall k :: 0 <= k < |cpus| ==> r[k] == cpus[k].(monitor := false)
  {
    seq(|cpus|, k requires 0 <= k < |cpus| => cpus[k].(monitor := false))
  }

  function Local(s: State, i: nat, c: Cpu): State
    requires i < |s.cpus|
  {
    s.(cpus := s.cpus[i := c])
  }

  function Stored(s: State, i: nat, val: int, c: Cpu): State
    requires i < |s.cpus|
  {
    State(val, s.limit, NoMonitors(s.cpus)[i := c.(monitor := false)])
  }

  predicate Stores(c: Cpu, choice: bool) {
    (c.pc.DecStrexPl? || c.pc.IncStrexLe?) && !c.flag && c.monitor && choice
  }

  /** The CPU after a step that leaves the semaphore word alone. */
  function Next(c: Cpu, val: int, limit: int): Cpu {
    match c.pc
    case Idle => c
    case DecLdrex => c.(pc := DecSubs, val := val, monitor := true)
    case DecSubs => c.(pc := DecStrexPl, val := c.val - 1, flag := c.val - 1 < 0)
    case DecStrexPl => if c.flag then c.(pc := DecTest) else c.(pc := DecTest, ret := STREX_FAIL, monitor := false)
    case DecTest => c.(pc := if c.ret == STREX_SUCCESS then Idle else DecLdrex)
    case IncLdrex => c.(pc := IncAdd, val := val, monitor := true)
    case IncAdd => c.(pc := IncCmp, val := Wrap(c.val + 1))
    case IncCmp => c.(pc := IncMovGt, flag := c.val > limit)
    case IncMovGt => c.(pc := IncStrexLe, ret := if c.flag then STREX_CORRUPT else c.ret)
    case IncStrexLe => if c.flag then c.(pc := IncTest) else c.(pc := IncTest, ret := STREX_FAIL, monitor := false)
    case IncTest =>
      c.(pc := if c.ret == STREX_FAIL then IncLdrex else if c.ret == STREX_CORRUPT then Panicked else Idle)
    case Panicked => c
  }

  function AfterStore(c: Cpu): Cpu {
    if c.pc.DecStrexPl? then c.(pc := DecTest, ret := STREX_SUCCESS, tokens := c.tokens + 1)
    else c.(pc := IncTest, ret := STREX_SUCCESS, tokens := c.tokens - 1)
  }

  function Step(s: State, e: Event): State {
    if e.cpu >= |s.cpus| then s
    else
      var c := s.cpus[e.cpu];
      match e
      case Begin(i, inc) =>
        if c.pc.Idle? then Local(s, i, c.(pc := if inc then IncLdrex else DecLdrex, ret := STREX_FAIL)) else s
      case Exec(i, choice) =>
        if Stores(c, choice) then Stored(s, i, c.val, AfterStore(c)) else Local(s, i, Next(c, s.val, s.limit))
      case LoseMonitor(i) => Local(s, i, c.(monitor := false))
  }

  function Run(s: State, events: seq<Event>): State
    decreases |events|
  {
    if events == [] then s else Run(Step(s, events[0]), events[1..])
  }

  function Init(n: nat, limit: int): State {
    State(limit, limit, seq(n, _ => Cpu(Idle, 0, false, STREX_FAIL, false, 0)))
  }

  /** Decrements in effect, over all CPUs. */
  function Held(cpus: seq<Cpu>): int {
    if cpus == [] then 0 else cpus[0].tokens + Held(cpus[1..])
  }

  predicate InRange(s: State) {
    0 <= s.val <= s.limit && s.val + Held(s.cpus) == s.limit
  }

  /** An increment begins only on a CPU that has a decrement of its own to undo. */
  predicate Fair(s: State, e: Event) {
    e.Begin? && e.inc && e.cpu < |s.cpus| && s.cpus[e.cpu].pc.Idle? ==> s.cpus[e.cpu].tokens > 0
  }

  predicate Disciplined(s: State, events: seq<Event>)
    decreases |events|
  {
    events == [] || (Fair(s, events[0]) && Disciplined(Step(s, events[0]), events[1..]))
  }

  /** While a CPU keeps its monitor, what it loaded is still in the word. */
  predicate Consistent(c: Cpu, val: int, limit: int) {
    match c.pc
    case DecSubs => 0 <= c.val <= limit && (c.monitor ==> c.val == val)
    case DecStrexPl => -1 <= c.val < limit && c.flag == (c.val < 0) && (c.monitor ==> c.val == val - 1)
    case IncAdd => 0 <= c.val <= limit && (c.monitor ==> c.val == val)
    case IncCmp => 0 < c.val && (c.monitor ==> c.val == val + 1)
    case IncMovGt => 0 < c.val && c.flag == (c.val > limit) && (c.monitor ==> c.val == val + 1)
    case IncStrexLe => 0 < c.val && c.flag == (c.val > limit) && (c.monitor ==> c.val == val + 1)
    case _ => true
  }

  predicate Increasing(c: Cpu) {
    c.pc.IncLdrex? || c.pc.IncAdd? || c.pc.IncCmp? || c.pc.IncMovGt? || c.pc.IncStrexLe?
    || (c.pc.IncTest? && c.ret == STREX_FAIL)
  }

  /** What discipline adds: an increment under way has room, so it never meets
      the limit. */
  predicate Roomy(c: Cpu, limit: int) {
    && c.tokens >= 0
    && (Increasing(c) ==> c.tokens > 0)
    && (Increasing(c) || c.pc.IncTest? ==> c.ret == STREX_FAIL || (c.pc.IncTest? && c.ret == STREX_SUCCESS))
    && (c.pc.IncAdd? ==> c.val < limit)
    && (c.pc.IncCmp? || c.pc.IncMovGt? || c.pc.IncStrexLe? ==> c.val <= limit)
    && (c.pc.IncMovGt? || c.pc.IncStrexLe? ==> !c.flag)
    && !c.pc.Panicked?
  }

  ghost predicate AllRoomy(s: State) {
    forall i :: 0 <= i < |s.cpus| ==> Roomy(s.cpus[i], s.limit)
  }

  ghost predicate AllConsistent(s: State) {
    forall i :: 0 <= i < |s.cpus| ==> Consistent(s.cpus[i], s.val, s.limit)
  }

  ghost predicate Inv(s: State) {
    InRange(s) && AllConsistent(s)
  }

  lemma {:induction false} HeldUpdate(cpus: seq<Cpu>, i: nat, c: Cpu)
    requires i < |cpus|
    ensures Held(cpus[i := c]) == Held(cpus) - cpus[i].tokens + c.tokens
  {
    if i == 0 {
      assert cpus[i := c][1..] == cpus[1..];
    } else {
      assert cpus[i := c][1..] == cpus[1..][i - 1 := c];
      HeldUpdate(cpus[1..], i - 1, c);
    }
  }

  lemma {:induction false} HeldNoMonitors(cpus: seq<Cpu>)
    ensures Held(NoMonitors(cpus)) == Held(cpus)
  {
    if cpus != [] {
      assert NoMonitors(cpus)[1..] == NoMonitors(cpus[1..]);
      HeldNoMonitors(cpus[1..]);
    }
  }

  lemma {:induction false} HeldAtLeast(cpus: seq<Cpu>, i: nat)
    requires i < |cpus|
    requires forall k :: 0 <= k < |cpus| ==> cpus[k].tokens >= 0
    ensures cpus[i].tokens <= Held(cpus) && 0 <= Held(cpus)
    decreases |cpus|
  {
    if |cpus| == 1 {
      assert Held(cpus[1..]) == 0;
    } else {
      HeldAtLeast(cpus[1..], if i == 0 then 0 else i - 1);
    }
  }

  lemma {:induction false} HeldNone(n: nat, limit: int)
    ensures Held(Init(n, limit).cpus) == 0
  {
    if n > 0 {
      assert Init(n, limit).cpus[1..] == Init(n - 1, limit).cpus;
      HeldNone(n - 1, limit);
    }
  }

  lemma LocalInv(s: State, i: nat, c: Cpu)
    requires Inv(s) && i < |s.cpus| && c.tokens == s.cpus[i].tokens
    requires Consistent(c, s.val, s.limit)
    ensures Inv(Local(s, i, c))
  {
    hide Consistent;
    HeldUpdate(s.cpus, i, c);
  }

  lemma WithoutMonitor(c: Cpu, val: int, val': int, limit: int)
    requires Consistent(c, val, limit)
    ensures Consistent(c.(monitor := false), val', limit)
  {
  }

  lemma StoredInv(s: State, i: nat, val: int, c: Cpu)
    requires Inv(s) && i < |s.cpus| && 0 <= val <= s.limit
    requires val + c.tokens == s.val + s.cpus[i].tokens
    requires Consistent(c, val, s.limit)
    ensures Inv(Stored(s, i, val, c))
  {
    hide Consistent;
    var t := Stored(s, i, val, c);
    forall k | 0 <= k < |s.cpus|
      ensures Consistent(t.cpus[k], val, s.limit)
    {
      if k == i {
        WithoutMonitor(c, val, val, s.limit);
      } else {
        WithoutMonitor(s.cpus[k], s.val, val, s.limit);
      }
    }
    HeldNoMonitors(s.cpus);
    HeldUpdate(NoMonitors(s.cpus), i, c.(monitor := false));
  }

  /** One step keeps the count and the range, if the addition cannot wrap. */
  lemma StepInv(s: State, e: Event)
    requires Inv(s) && s.limit <= INT_MAX && (s.limit < INT_MAX || AllRoomy(s))
    ensures Inv(Step(s, e))
  {
    hide Held, AllRoomy;
    if e.cpu < |s.cpus| {
      var c := s.cpus[e.cpu];
      InvFacts(s, e.cpu);
      match e
      case Begin(i, inc) =>
        LocalInv(s, i, c.(pc := if inc then IncLdrex else DecLdrex, ret := STREX_FAIL));
      case Exec(i, choice) =>
        if Stores(c, choice) {
          StoredInv(s, i, c.val, AfterStore(c));
        } else {
          LocalInv(s, i, Next(c, s.val, s.limit));
        }
      case LoseMonitor(i) =>
        WithoutMonitor(c, s.val, s.val, s.limit);
        LocalInv(s, i, c.(monitor := false));
    }
  }

  lemma InvFacts(s: State, i: nat)
    requires Inv(s) && i < |s.cpus| && (s.limit < INT_MAX || AllRoomy(s))
    ensures 0 <= s.val <= s.limit && Consistent(s.cpus[i], s.val, s.limit)
    ensures s.limit < INT_MAX || Roomy(s.cpus[i], s.limit)
  {
  }

  lemma RoomyStore(c: Cpu, choice: bool, limit: int)
    requires Roomy(c, limit) && Stores(c, choice)
    ensures Roomy(AfterStore(c).(monitor := false), limit)
  {
  }

  lemma RoomyNext(c: Cpu, val: int, limit: int)
    requires Roomy(c, limit) && limit <= INT_MAX
    requires c.pc.IncLdrex? ==> val < limit
    ensures Roomy(Next(c, val, limit), limit)
  {
  }

  lemma StepRoomy(s: State, e: Event)
    requires Inv(s) && AllRoomy(s) && Fair(s, e) && s.limit <= INT_MAX
    ensures AllRoomy(Step(s, e))
  {
    if e.cpu < |s.cpus| {
      var c := s.cpus[e.cpu];
      HeldAtLeast(s.cpus, e.cpu);
      assert Roomy(c, s.limit);
      match e
      case Begin(i, inc) =>
      case Exec(i, choice) =>
        if Stores(c, choice) {
          RoomyStore(c, choice, s.limit);
        } else {
          RoomyNext(c, s.val, s.limit);
        }
      case LoseMonitor(i) =>
    }
  }

  lemma {:induction false} RunInv(s: State, events: seq<Event>)
    requires Inv(s) && s.limit < INT_MAX
    ensures Inv(Run(s, events))
    decreases |events|
  {
    hide Inv;
    if events != [] {
      StepInv(s, events[0]);
      RunInv(Step(s, events[0]), events[1..]);
    }
  }

  lemma {:induction false} DisciplinedInv(s: State, events: seq<Event>)
    requires Inv(s) && AllRoomy(s) && Disciplined(s, events) && s.limit <= INT_MAX
    ensures Inv(Run(s, events)) && AllRoomy(Run(s, events))
    decreases |events|
  {
    hide Inv, AllRoomy;
    if events != [] {
      StepInv(s, events[0]);
      StepRoomy(s, events[0]);
      DisciplinedInv(Step(s, events[0]), events[1..]);
    }
  }

  lemma InitInv(n: nat, limit: int)
    requires 0 <= limit
    ensures Inv(Init(n, limit)) && AllRoomy(Init(n, limit))
  {
    HeldNone(n, limit);
  }

  /** With a limit below `INT_MAX` every interleaving keeps the count. */
  lemma AlwaysInRange(n: nat, limit: int, events: seq<Event>)
    requires 0 <= limit < INT_MAX
    ensures InRange(Run(Init(n, limit), events))
  {
    InitInv(n, limit);
    RunInv(Init(n, limit), events);
  }

  // Every call that returns has taken effect exactly once.

  /** What the call an event begins on CPU `i` is to add to its tokens. */
  function Worth(s: State, e: Event, i: nat): int {
    if e.Begin? && e.cpu == i < |s.cpus| && s.cpus[i].pc.Idle? then (if e.inc then -1 else 1) else 0
  }

  /** Decrements less increments begun on CPU `i` in a run. */
  function Balance(s: State, events: seq<Event>, i: nat): int
    decreases |events|
  {
    if events == [] then 0 else Worth(s, events[0], i) + Balance(Step(s, events[0]), events[1..], i)
  }

  /** The call under way is counted in `b`, and has taken effect exactly from the
      store until the return. Retries, lost monitors and skipped stores leave no
      trace; a panic leaves the increment without effect. */
  predicate Effect(c: Cpu, b: int) {
    match c.pc
    case Idle => c.tokens == b
    case DecLdrex => c.tokens == b - 1 && c.ret == STREX_FAIL
    case DecSubs => c.tokens == b - 1 && c.ret == STREX_FAIL
    case DecStrexPl => c.tokens == b - 1 && c.ret == STREX_FAIL
    case DecTest => c.tokens == b - (if c.ret == STREX_SUCCESS then 0 else 1)
                    && (c.ret == STREX_SUCCESS || c.ret == STREX_FAIL)
    case IncLdrex => c.tokens == b + 1 && c.ret == STREX_FAIL
    case IncAdd => c.tokens == b + 1 && c.ret == STREX_FAIL
    case IncCmp => c.tokens == b + 1 && c.ret == STREX_FAIL
    case IncMovGt => c.tokens == b + 1 && c.ret == STREX_FAIL
    case IncStrexLe => c.tokens == b + 1 && c.ret == if c.flag then STREX_CORRUPT else STREX_FAIL
    case IncTest => c.tokens == b + (if c.ret == STREX_SUCCESS then 0 else 1)
                    && (c.ret == STREX_SUCCESS || c.ret == STREX_FAIL || c.ret == STREX_CORRUPT)
    case Panicked => c.tokens == b + 1
  }

  lemma StepEffect(s: State, e: Event, i: nat, b: int)
    requires i < |s.cpus| && Effect(s.cpus[i], b)
    ensures |Step(s, e).cpus| == |s.cpus| && Effect(Step(s, e).cpus[i], b + Worth(s, e, i))
  {
  }

  lemma {:induction false} RunEffect(s: State, events: seq<Event>, i: nat, b: int)
    requires i < |s.cpus| && Effect(s.cpus[i], b)
    ensures |Run(s, events).cpus| == |s.cpus| && Effect(Run(s, events).cpus[i], b + Balance(s, events, i))
    decreases |events|
  {
    hide Effect, Step, Worth;
    if events != [] {
      StepEffect(s, events[0], i, b);
      RunEffect(Step(s, events[0]), events[1..], i, b + Worth(s, events[0], i));
    }
  }

  /** In every interleaving, with stores failing and monitors lost at will, a CPU
      between calls has one unit more for every decrement it began and one less
      for every increment. */
  lemma CallsTakeEffect(n: nat, limit: int, events: seq<Event>, i: nat)
    requires i < n
    ensures var s := Run(Init(n, limit), events);
      && |s.cpus| == n
      && (s.cpus[i].pc.Idle? ==> s.cpus[i].tokens == Balance(Init(n, limit), events, i))
      && (s.cpus[i].pc.Panicked? ==> s.cpus[i].tokens == Balance(Init(n, limit), events, i) + 1)
  {
    RunEffect(Init(n, limit), events, i, 0);
  }

  /** A call is under way from its beginning to its return: only then does the
      CPU come back to rest, and its tokens have changed by the call. */
  lemma ReturnTakesEffect(s: State, i: nat, inc: bool, events: seq<Event>)
    requires i < |s.cpus| && s.cpus[i].pc.Idle?
    requires forall k :: 0 <= k < |events| && events[k].Begin? ==> events[k].cpu != i
    ensures var t := Run(Step(s, Begin(i, inc)), events);
      && |t.cpus| == |s.cpus|
      && (t.cpus[i].pc.Idle? ==> t.cpus[i].tokens == s.cpus[i].tokens + if inc then -1 else 1)
      && (t.cpus[i].pc.Panicked? ==> inc && t.cpus[i].tokens == s.cpus[i].tokens)
  {
    hide Run;
    var b := s.cpus[i].tokens;
    StepEffect(s, Begin(i, inc), i, b);
    RunEffect(Step(s, Begin(i, inc)), events, i, b + if inc then -1 else 1);
    NoneBegun(Step(s, Begin(i, inc)), events, i);
    RunKind(Step(s, Begin(i, inc)), events, i, inc);
  }

  lemma {:induction false} NoneBegun(s: State, events: seq<Event>, i: nat)
    requires forall k :: 0 <= k < |events| && events[k].Begin? ==> events[k].cpu != i
    ensures Balance(s, events, i) == 0
    decreases |events|
  {
    hide Step;
    if events != [] {
      NoneBegun(Step(s, events[0]), events[1..], i);
    }
  }

  predicate OfKind(pc: Pc, inc: bool) {
    || pc.Idle?
    || (if inc then
          || pc.IncLdrex? || pc.IncAdd? || pc.IncCmp? || pc.IncMovGt? || pc.IncStrexLe? || pc.IncTest? || pc.Panicked?
        else pc.DecLdrex? || pc.DecSubs? || pc.DecStrexPl? || pc.DecTest?)
  }

  lemma {:induction false} RunKind(s: State, events: seq<Event>, i: nat, inc: bool)
    requires i < |s.cpus| && OfKind(s.cpus[i].pc, inc)
    requires forall k :: 0 <= k < |events| && events[k].Begin? ==> events[k].cpu != i
    ensures |Run(s, events).cpus| == |s.cpus| && OfKind(Run(s, events).cpus[i].pc, inc)
    decreases |events|
  {
    if events != [] {
      StepKind(s, events[0], i, inc);
      hide Step, OfKind;
      RunKind(Step(s, events[0]), events[1..], i, inc);
    }
  }

  lemma StepKind(s: State, e: Event, i: nat, inc: bool)
    requires i < |s.cpus| && OfKind(s.cpus[i].pc, inc) && (e.Begin? ==> e.cpu != i)
    ensures |Step(s, e).cpus| == |s.cpus| && OfKind(Step(s, e).cpus[i].pc, inc)
  {
  }

  /** Decrements less increments begun on all CPUs in a run. */
  function Total(s: State, events: seq<Event>): int
    decreases |events|
  {
    if events == [] then 0
    else
      var e := events[0];
      (if e.cpu < |s.cpus| then Worth(s, e, e.cpu) else 0) + Total(Step(s, e), events[1..])
  }

  function SumBalance(s: State, events: seq<Event>, m: nat): int {
    if m == 0 then 0 else SumBalance(s, events, m - 1) + Balance(s, events, m - 1)
  }

  lemma {:induction false} SumStep(s: State, events: seq<Event>, m: nat)
    requires events != [] && m <= |s.cpus|
    ensures SumBalance(s, events, m) == SumBalance(Step(s, events[0]), events[1..], m)
      + if events[0].cpu < m then Worth(s, events[0], events[0].cpu) else 0
    decreases m
  {
    hide Step;
    if m > 0 {
      SumStep(s, events, m - 1);
    }
  }

  lemma {:induction false} SumNone(s: State, m: nat)
    ensures SumBalance(s, [], m) == 0
  {
    if m > 0 {
      SumNone(s, m - 1);
    }
  }

  lemma {:induction false} SumIsTotal(s: State, events: seq<Event>)
    ensures SumBalance(s, events, |s.cpus|) == Total(s, events)
    decreases |events|
  {
    if events == [] {
      SumNone(s, |s.cpus|);
    } else {
      var t := Step(s, events[0]);
      assert |t.cpus| == |s.cpus|;
      hide Step, Worth;
      SumStep(s, events, |s.cpus|);
      SumIsTotal(t, events[1..]);
    }
  }

  lemma {:induction false} HeldAppend(cpus: seq<Cpu>, c: Cpu)
    ensures Held(cpus + [c]) == Held(cpus) + c.tokens
    decreases |cpus|
  {
    if cpus != [] {
      assert (cpus + [c])[1..] == cpus[1..] + [c];
      HeldAppend(cpus[1..], c);
    } else {
      assert ([c])[1..] == [];
      assert [] + [c] == [c];
    }
  }

  lemma {:induction false} HeldIsSum(s: State, events: seq<Event>, cpus: seq<Cpu>)
    requires forall i :: 0 <= i < |cpus| ==> cpus[i].tokens == Balance(s, events, i)
    ensures Held(cpus) == SumBalance(s, events, |cpus|)
    decreases |cpus|
  {
    hide Balance;
    if cpus != [] {
      var m := |cpus| - 1;
      HeldIsSum(s, events, cpus[..m]);
      HeldAppend(cpus[..m], cpus[m]);
      assert cpus[..m] + [cpus[m]] == cpus;
    }
  }

  /** Once every call of an interleaving has returned, the word is the limit less
      the decrements begun, plus the increments begun. */
  lemma WordWhenQuiet(n: nat, limit: int, events: seq<Event>)
    requires 0 <= limit < INT_MAX
    requires var s := Run(Init(n, limit), events); forall i :: 0 <= i < |s.cpus| ==> s.cpus[i].pc.Idle?
    ensures Run(Init(n, limit), events).val == limit - Total(Init(n, limit), events)
  {
    hide Run, Held, Balance, SumBalance, Total;
    var s0 := Init(n, limit);
    var s := Run(s0, events);
    AlwaysInRange(n, limit, events);
    RunSameShape(s0, events);
    forall i: nat | i < n ensures s.cpus[i].tokens == Balance(s0, events, i) {
      CallsTakeEffect(n, limit, events, i);
    }
    HeldIsSum(s0, events, s.cpus);
    SumIsTotal(s0, events);
  }

  lemma {:induction false} RunSameShape(s: State, events: seq<Event>)
    ensures |Run(s, events).cpus| == |s.cpus| && Run(s, events).limit == s.limit
    decreases |events|
  {
    if events != [] {
      RunSameShape(Step(s, events[0]), events[1..]);
    }
  }

  /** `n` instructions of CPU `i` alone, its exclusive stores going through. */
  function Alone(i: nat, n: nat): seq<Event> {
    if n == 0 then [] else [Exec(i, true)] + Alone(i, n - 1)
  }

  lemma RunAlone(s: State, i: nat, n: nat)
    ensures n == 0 ==> Run(s, Alone(i, n)) == s
    ensures n > 0 ==> Run(s, Alone(i, n)) == Run(Step(s, Exec(i, true)), Alone(i, n - 1))
  {
    assert n > 0 ==> Alone(i, n)[1..] == Alone(i, n - 1);
  }

  /** Only CPU `i` moved, other than by losing monitors. */
  ghost predicate Became(s: State, t: State, i: nat, val: int, pc: Pc, tokens: int)
    requires i < |s.cpus|
  {
    && t.val == val && t.limit == s.limit && |t.cpus| == |s.cpus|
    && t.cpus[i].pc == pc && t.cpus[i].tokens == tokens
    && forall k :: 0 <= k < |s.cpus| && k != i ==> t.cpus[k].(monitor := false) == s.cpus[k].(monitor := false)
  }

  lemma LocalStep(s: State, i: nat, c: Cpu)
    requires i < |s.cpus|
    ensures Step(Local(s, i, c), Exec(i, true))
      == if Stores(c, true) then Stored(s, i, c.val, AfterStore(c)) else Local(s, i, Next(c, s.val, s.limit))
  {
    var d := AfterStore(c).(monitor := false);
    assert NoMonitors(s.cpus[i := c])[i := d] == NoMonitors(s.cpus)[i := d];
  }

  lemma StoredStep(s: State, i: nat, val: int, c: Cpu)
    requires i < |s.cpus| && (c.pc.DecTest? || c.pc.IncTest?)
    ensures Step(Stored(s, i, val, c), Exec(i, true)) == Stored(s, i, val, Next(c, val, s.limit))
  {
  }

  lemma LocalSame(s: State, i: nat)
    requires i < |s.cpus|
    ensures Local(s, i, s.cpus[i]) == s
  {
  }

  lemma BecameLocal(s: State, i: nat, c: Cpu)
    requires i < |s.cpus|
    ensures Became(s, Local(s, i, c), i, s.val, c.pc, c.tokens)
  {
  }

  lemma BecameStored(s: State, i: nat, val: int, c: Cpu)
    requires i < |s.cpus|
    ensures Became(s, Stored(s, i, val, c), i, val, c.pc, c.tokens)
  {
  }

  /** A decrement that runs alone takes one unit if there is one, and goes round
      its loop without effect if there is none. */
  lemma DecrementAlone(s: State, i: nat)
    requires i < |s.cpus| && s.cpus[i].pc.DecLdrex? && s.cpus[i].ret == STREX_FAIL
    requires 0 <= s.val
    ensures s.val > 0 ==> Became(s, Run(s, Alone(i, 4)), i, s.val - 1, Idle, s.cpus[i].tokens + 1)
    ensures s.val == 0 ==> Became(s, Run(s, Alone(i, 4)), i, s.val, DecLdrex, s.cpus[i].tokens)
  {
    hide Alone, Run, Step, Local, Stored, Became;
    var c := s.cpus[i];
    var c1 := Next(c, s.val, s.limit);
    var c2 := Next(c1, s.val, s.limit);
    LocalSame(s, i);
    LocalStep(s, i, c);
    LocalStep(s, i, c1);
    LocalStep(s, i, c2);
    RunAlone(s, i, 4);
    RunAlone(Local(s, i, c1), i, 3);
    RunAlone(Local(s, i, c2), i, 2);
    if s.val > 0 {
      var c3 := AfterStore(c2);
      StoredStep(s, i, s.val - 1, c3);
      RunAlone(Stored(s, i, s.val - 1, c3), i, 1);
      RunAlone(Stored(s, i, s.val - 1, c3.(pc := Idle)), i, 0);
      BecameStored(s, i, s.val - 1, c3.(pc := Idle));
    } else {
      var c3 := Next(c2, s.val, s.limit);
      LocalStep(s, i, c3);
      RunAlone(Local(s, i, c3), i, 1);
      RunAlone(Local(s, i, c3.(pc := DecLdrex)), i, 0);
      BecameLocal(s, i, c3.(pc := DecLdrex));
    }
  }

  /** The CPU of an increment that reached its store undisturbed. */
  function AtStore(c: Cpu, val: int, limit: int): Cpu {
    Cpu(IncStrexLe, val + 1, val >= limit, if val >= limit then STREX_CORRUPT else c.ret, true, c.tokens)
  }

  lemma IncrementToStore(s: State, i: nat)
    requires i < |s.cpus| && s.cpus[i].pc.IncLdrex? && s.val < INT_MAX
    ensures Run(s, Alone(i, 6)) == Run(Local(s, i, AtStore(s.cpus[i], s.val, s.limit)), Alone(i, 2))
  {
    hide Alone, Run, Step, Local, Stored;
    var c := s.cpus[i];
    var c1 := Next(c, s.val, s.limit);
    var c2 := Next(c1, s.val, s.limit);
    var c3 := Next(c2, s.val, s.limit);
    LocalSame(s, i);
    LocalStep(s, i, c);
    LocalStep(s, i, c1);
    LocalStep(s, i, c2);
    LocalStep(s, i, c3);
    RunAlone(s, i, 6);
    RunAlone(Local(s, i, c1), i, 5);
    RunAlone(Local(s, i, c2), i, 4);
    RunAlone(Local(s, i, c3), i, 3);
  }

  /** An increment that runs alone gives one unit back below the limit, and
      panics at it. */
  lemma IncrementAlone(s: State, i: nat)
    requires i < |s.cpus| && s.cpus[i].pc.IncLdrex? && s.cpus[i].ret == STREX_FAIL
    requires s.val <= s.limit < INT_MAX
    ensures s.val < s.limit ==> Became(s, Run(s, Alone(i, 6)), i, s.val + 1, Idle, s.cpus[i].tokens - 1)
    ensures s.val == s.limit ==> Became(s, Run(s, Alone(i, 6)), i, s.val, Panicked, s.cpus[i].tokens)
  {
    hide Alone, Run, Step, Local, Stored, Became;
    var c4 := AtStore(s.cpus[i], s.val, s.limit);
    IncrementToStore(s, i);
    LocalStep(s, i, c4);
    RunAlone(Local(s, i, c4), i, 2);
    if s.val < s.limit {
      var c5 := AfterStore(c4);
      StoredStep(s, i, s.val + 1, c5);
      RunAlone(Stored(s, i, s.val + 1, c5), i, 1);
      RunAlone(Stored(s, i, s.val + 1, c5.(pc := Idle)), i, 0);
      BecameStored(s, i, s.val + 1, c5.(pc := Idle));
    } else {
      var c5 := Next(c4, s.val, s.limit);
      LocalStep(s, i, c5);
      RunAlone(Local(s, i, c5), i, 1);
      RunAlone(Local(s, i, c5.(pc := Panicked)), i, 0);
      BecameLocal(s, i, c5.(pc := Panicked));
    }
  }

  // From any point of a call, after whatever happened to it so far.

  /** Instructions to the next load, or to the end. */
  function Rank(pc: Pc): nat {
    match pc
    case DecSubs => 3
    case DecStrexPl => 2
    case DecTest => 1
    case IncAdd => 5
    case IncCmp => 4
    case IncMovGt => 3
    case IncStrexLe => 2
    case IncTest => 1
    case _ => 0
  }

  lemma StepRank(s: State, i: nat, b: int)
    requires i < |s.cpus| && Effect(s.cpus[i], b) && Rank(s.cpus[i].pc) > 0
    ensures var t := Step(s, Exec(i, true));
      && |t.cpus| == |s.cpus| && t.limit == s.limit && Rank(t.cpus[i].pc) == Rank(s.cpus[i].pc) - 1
      && Effect(t.cpus[i], b)
      && (t.val == s.val || ((t.cpus[i].pc.DecTest? || t.cpus[i].pc.IncTest?) && t.cpus[i].ret == STREX_SUCCESS))
      && (s.cpus[i].ret == STREX_SUCCESS ==> t.cpus[i].pc.Idle?)
      && (t.cpus[i].pc.DecLdrex? ==> s.cpus[i].pc.DecTest?)
      && (t.cpus[i].pc.IncLdrex? || t.cpus[i].pc.Panicked? ==> s.cpus[i].pc.IncTest?)
      && (forall inc :: OfKind(s.cpus[i].pc, inc) ==> OfKind(t.cpus[i].pc, inc))
  {
  }

  /** A call that runs alone comes back to its load with the word unchanged, or
      ends. */
  lemma {:induction false} ComesRound(s: State, i: nat, b: int) returns (m: nat)
    requires i < |s.cpus| && Effect(s.cpus[i], b)
    ensures m <= 5
    ensures var t := Run(s, Alone(i, m));
      && m == Rank(s.cpus[i].pc) && (m == 0 ==> t == s) && |t.cpus| == |s.cpus| && t.limit == s.limit
      && Effect(t.cpus[i], b) && Rank(t.cpus[i].pc) == 0
      && (t.cpus[i].pc.DecLdrex? || t.cpus[i].pc.IncLdrex? ==> t.val == s.val)
      && (s.cpus[i].pc.DecTest? || s.cpus[i].pc.IncTest? ==> s.cpus[i].ret == STREX_SUCCESS ==> t.cpus[i].pc.Idle?)
      && (forall inc :: OfKind(s.cpus[i].pc, inc) ==> OfKind(t.cpus[i].pc, inc))
    decreases Rank(s.cpus[i].pc)
  {
    hide Step, Effect, OfKind, Run, Alone;
    m := Rank(s.cpus[i].pc);
    RunAlone(s, i, m);
    if m > 0 {
      StepRank(s, i, b);
      var k := ComesRound(Step(s, Exec(i, true)), i, b);
    }
  }

  lemma {:induction false} RunOn(s: State, i: nat, m: nat, n: nat)
    ensures Run(s, Alone(i, m + n)) == Run(Run(s, Alone(i, m)), Alone(i, n))
    decreases m
  {
    RunAlone(s, i, m + n);
    RunAlone(s, i, m);
    if m > 0 {
      hide Step, Alone, Run;
      RunOn(Step(s, Exec(i, true)), i, m - 1, n);
    }
  }

  /** A decrement under way, left alone with a unit to take, returns within seven
      instructions. */
  lemma DecrementFinishes(s: State, i: nat, b: int) returns (m: nat)
    requires i < |s.cpus| && Effect(s.cpus[i], b) && OfKind(s.cpus[i].pc, false) && s.val > 0
    ensures m <= 7
    ensures var t := Run(s, Alone(i, m)); |t.cpus| == |s.cpus| && t.cpus[i].pc.Idle? && t.cpus[i].tokens == b
  {
    hide Run, Alone, Step;
    m := ComesRound(s, i, b);
    var t := Run(s, Alone(i, m));
    if t.cpus[i].pc.DecLdrex? {
      DecrementAlone(t, i);
      RunOn(s, i, m, 4);
      m := m + 4;
    }
  }

  /** An increment under way, left alone, returns or panics within eleven. */
  lemma IncrementFinishes(s: State, i: nat, b: int) returns (m: nat)
    requires i < |s.cpus| && Effect(s.cpus[i], b) && OfKind(s.cpus[i].pc, true) && s.val <= s.limit < INT_MAX
    ensures m <= 11
    ensures var t := Run(s, Alone(i, m));
      && |t.cpus| == |s.cpus|
      && ((t.cpus[i].pc.Idle? && t.cpus[i].tokens == b) || t.cpus[i].pc.Panicked?)
  {
    hide Run, Alone, Step;
    m := ComesRound(s, i, b);
    var t := Run(s, Alone(i, m));
    if t.cpus[i].pc.IncLdrex? {
      IncrementAlone(t, i);
      RunOn(s, i, m, 6);
      m := m + 6;
    }
  }

  lemma RunBegin(s: State, e: Event, rest: seq<Event>)
    ensures Run(s, [e] + rest) == Run(Step(s, e), rest)
  {
    assert ([e] + rest)[1..] == rest;
  }

  /** An increment of a full semaphore whose limit is `INT_MAX` wraps, passes
      the signed comparison and is stored. */
  lemma FullIncrementWraps(n: nat)
    requires n >= 1
    ensures !InRange(Run(Init(n, INT_MAX), [Begin(0, true)] + Alone(0, 5)))
    ensures Run(Init(n, 0x7fff_ffff), [Begin(0, true)] + Alone(0, 5)).val == -0x8000_0000
  {
    hide Held, Alone, Run;
    var e, s := Exec(0, true), Init(n, INT_MAX);
    var s0 := Step(s, Begin(0, true));
    var s1 := Step(s0, e);
    var s2 := Step(s1, e);
    var s3 := Step(s2, e);
    var s4 := Step(s3, e);
    var s5 := Step(s4, e);
    assert s5.val == -0x8000_0000;
    RunBegin(s, Begin(0, true), Alone(0, 5));
    RunAlone(s0, 0, 5);
    RunAlone(s1, 0, 4);
    RunAlone(s2, 0, 3);
    RunAlone(s3, 0, 2);
    RunAlone(s4, 0, 1);
    RunAlone(s5, 0, 0);
  }

  /** The count is kept in every interleaving exactly when the limit is below
      `INT_MAX`. */
  lemma InRangeIff(n: nat, limit: int)
    requires n >= 1 && 0 <= limit <= INT_MAX
    ensures (forall events :: InRange(Run(Init(n, limit), events))) <==> limit < INT_MAX
  {
    if limit < INT_MAX {
      forall events ensures InRange(Run(Init(n, limit), events)) {
        AlwaysInRange(n, limit, events);
      }
    } else {
      FullIncrementWraps(n);
    }
  }

  /** If each increment follows its caller's own decrement, the count is kept
      for every limit and the panic is never reached. */
  lemma DisciplinedNeverPanics(n: nat, limit: int, events: seq<Event>)
    requires 0 <= limit <= INT_MAX && Disciplined(Init(n, limit), events)
    ensures var s := Run(Init(n, limit), events);
      && InRange(s)
      && (forall i :: 0 <= i < |s.cpus| ==> !s.cpus[i].pc.Panicked? && s.cpus[i].tokens >= 0)
  {
    InitInv(n, limit);
    DisciplinedInv(Init(n, limit), events);
    var s := Run(Init(n, limit), events);
    assert forall i :: 0 <= i < |s.cpus| ==> Roomy(s.cpus[i], s.limit);
  }
}
