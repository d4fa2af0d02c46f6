/** The recursive lock as a state machine: threads interleave one shared-memory access at a time. */
module RecursiveMutex {
  datatype Call = Lock | TryLock | Unlock | TryUnlock

  datatype Failure = SubmutexNotLocked | DepthNotPositive | NotLocked | NotOwner

  /** Where a thread is. `Leave` is about to release the inner lock and return `result`; `gain` is
      what the call adds to the thread's acquisitions. A failed assertion halts the thread. */
  datatype PC =
    | Idle
    | EnterSub(call: Call)
    | TestLocked(call: Call)
    | TestOwner(call: Call)
    | Deepen(call: Call)
    | LeaveToSpin
    | Spin
    | Reenter
    | TakeLocked
    | SetOwner(call: Call)
    | SetDepth(call: Call)
    | CheckDepth(call: Call)
    | Decrement(call: Call)
    | ClearOwner(call: Call)
    | ClearLocked(call: Call)
    | Leave(call: Call, result: bool, gain: int)
    | Halted(why: Failure)

  /** The fields of the lock; `sub` is the inner mutex. */
  datatype Fields = Fields(locked: bool, owner: nat, depth: int, sub: bool)

  /** Per thread: its place in the code, and the acquisitions its returned calls have left it with. */
  datatype State = State(mem: Fields, pcs: map<nat, PC>, held: map<nat, int>)

  datatype Effect = Effect(mem: Fields, pc: PC, held: int)

  /** One access of thread `t`, which is at `pc`; an idle thread starts `call`. */
  function Access(m: Fields, pc: PC, held: int, t: nat, call: Call): Effect {
    match pc
    case Idle => Effect(m, EnterSub(call), held)
    case EnterSub(c) => if m.sub then Effect(m, pc, held) else Effect(m.(sub := true), TestLocked(c), held)
    case TestLocked(c) => Effect(m, AfterLocked(c, m.locked), held)
    case TestOwner(c) => Effect(m, AfterOwner(c, m.owner == t), held)
    case Deepen(c) => Effect(m.(depth := m.depth + 1), Leave(c, true, 1), held)
    case LeaveToSpin =>
      if m.sub then Effect(m.(sub := false), Spin, held) else Effect(m, Halted(SubmutexNotLocked), held)
    case Spin => if m.locked then Effect(m, pc, held) else Effect(m.(locked := true), Reenter, held)
    case Reenter => if m.sub then Effect(m, pc, held) else Effect(m.(sub := true), SetOwner(Lock), held)
    case TakeLocked =>
      if m.locked then Effect(m, Leave(TryLock, false, 0), held)
      else Effect(m.(locked := true), SetOwner(TryLock), held)
    case SetOwner(c) => Effect(m.(owner := t), SetDepth(c), held)
    case SetDepth(c) => Effect(m.(depth := 1), Leave(c, true, 1), held)
    case CheckDepth(c) => Effect(m, if m.depth > 0 then Decrement(c) else Halted(DepthNotPositive), held)
    case Decrement(c) =>
      Effect(m.(depth := m.depth - 1), if m.depth == 1 then ClearOwner(c) else Leave(c, false, -1), held)
    case ClearOwner(c) => Effect(m.(owner := 0), ClearLocked(c), held)
    case ClearLocked(c) => Effect(m.(locked := false), Leave(c, true, -1), held)
    case Leave(c, result, gain) =>
      if m.sub then Effect(m.(sub := false), Idle, held + gain) else Effect(m, Halted(SubmutexNotLocked), held)
    case Halted(_) => Effect(m, pc, held)
  }

  ghost predicate Threads(s: State) {
    0 !in s.pcs && s.pcs.Keys == s.held.Keys
  }

  function Act(s: State, t: nat, call: Call): (s': State)
    requires Threads(s) && t in s.pcs
    ensures Threads(s') && s'.pcs.Keys == s.pcs.Keys
  {
    var e := Access(s.mem, s.pcs[t], s.held[t], t, call);
    State(e.mem, s.pcs[t := e.pc], s.held[t := e.held])
  }

  function AfterLocked(c: Call, locked: bool): PC {
    match c
    case Lock => if !locked then TestOwner(c) else LeaveToSpin
    case TryLock => if locked then TestOwner(c) else TakeLocked
    case Unlock => if locked then TestOwner(c) else Halted(NotLocked)
    case TryUnlock => if locked then TestOwner(c) else Leave(c, false, 0)
  }

  function AfterOwner(c: Call, mine: bool): PC {
    match c
    case Lock => if mine then Deepen(c) else LeaveToSpin
    case TryLock => if mine then Deepen(c) else TakeLocked
    case Unlock => if mine then CheckDepth(c) else Halted(NotOwner)
    case TryUnlock => if mine then CheckDepth(c) else Leave(c, false, 0)
  }

  ghost predicate Init(s: State) {
    && Threads(s) && s.mem == Fields(false, 0, 0, false)
    && forall t | t in s.pcs :: s.pcs[t] == Idle && s.held[t] == 0
  }

  /** Some thread takes a step. */
  ghost predicate Next(s: State, s': State) {
    Threads(s) && exists t, call :: t in s.pcs && s' == Act(s, t, call)
  }

  // ---------------------------------------------------------------- the invariant

  /** Between taking the inner lock and giving it back. */
  predicate InSub(pc: PC) {
    match pc
    case Idle => false
    case EnterSub(_) => false
    case Spin => false
    case Reenter => false
    case Halted(_) => true
    case _ => true
  }

  /** Holding `locked` while the owner field does not say so. */
  predicate InWindow(pc: PC) {
    pc.Reenter? || pc.SetOwner? || pc.ClearLocked?
  }

  /** What the running call has already done to the depth. */
  function Pending(pc: PC): int {
    match pc
    case Leave(_, _, gain) => gain
    case ClearOwner(_) => -1
    case ClearLocked(_) => -1
    case _ => 0
  }

  /** What being at a place in the code says about the fields and the thread's acquisitions. */
  predicate AtPlace(m: Fields, pc: PC, held: int, t: nat) {
    match pc
    case TestOwner(c) => c == Lock ==> m.owner == 0
    case Deepen(c) => m.owner == t && c == TryLock
    case SetOwner(c) => c == Lock || c == TryLock
    case SetDepth(c) => m.owner == t && m.depth == 0 && (c == Lock || c == TryLock)
    case CheckDepth(c) => m.owner == t && m.depth > 0 && (c == Unlock || c == TryUnlock)
    case Decrement(c) => m.owner == t && m.depth > 0 && (c == Unlock || c == TryUnlock)
    case ClearOwner(c) => m.owner == t && m.depth == 0 && (c == Unlock || c == TryUnlock)
    case ClearLocked(c) => held == 1 && (c == Unlock || c == TryUnlock)
    case Leave(c, result, gain) => Returns(c, result, gain, held)
    case Halted(why) => (why == NotLocked || why == NotOwner) && held == 0
    case _ => true
  }

  /** A call's result against what it did: taking succeeds if it gained one; releasing reports true
      exactly when it gave back the last one. */
  predicate Returns(c: Call, result: bool, gain: int, held: int) {
    match c
    case Lock => result && gain == 1 && held == 0
    case TryLock => gain == if result then 1 else 0
    case Unlock => gain == -1 && (result <==> held == 1)
    case TryUnlock => (gain == 0 && held == 0 && !result) || (gain == -1 && (result <==> held == 1))
  }

  /** What the invariant says from the point of view of one thread. */
  predicate View(m: Fields, pc: PC, held: int, t: nat) {
    && t != 0 && held >= 0 && held + Pending(pc) == (if m.owner == t then m.depth else 0)
    && (m.owner == 0 ==> m.depth == 0) && (!m.locked ==> m.owner == 0)
    && (m.owner == t && !pc.SetDepth? && !pc.ClearOwner? ==> m.depth > 0)
    && (InSub(pc) ==> m.sub) && (InWindow(pc) ==> m.owner == 0 && m.locked)
    && AtPlace(m, pc, held, t)
  }

  predicate SubMoves(m: Fields, pc: PC, e: Effect) {
    || (InSub(e.pc) == InSub(pc) && e.mem.sub == m.sub)
    || (!InSub(pc) && InSub(e.pc) && !m.sub && e.mem.sub)
    || (InSub(pc) && !InSub(e.pc) && !e.mem.sub)
  }

  /** The five ways an access can bear on who holds the lock. */
  predicate LockMoves(m: Fields, pc: PC, e: Effect, t: nat) {
    || (e.mem.locked == m.locked && e.mem.owner == m.owner && InWindow(e.pc) == InWindow(pc))
    || (!m.locked && e.mem.locked && e.mem.owner == m.owner && InWindow(e.pc) && !InWindow(pc))
    || (InWindow(pc) && !InWindow(e.pc) && e.mem.owner == t && e.mem.locked == m.locked)
    || (m.owner == t && e.mem.owner == 0 && InWindow(e.pc) && e.mem.locked == m.locked)
    || (InWindow(pc) && !InWindow(e.pc) && e.mem.owner == m.owner && !e.mem.locked)
  }

  /** Owner and depth change only inside the inner lock, and only from or to the acting thread. */
  predicate Guarded(m: Fields, pc: PC, e: Effect, t: nat) {
    && (e.mem.owner != m.owner ==>
          InSub(pc) && (m.owner == 0 || m.owner == t) && (e.mem.owner == 0 || e.mem.owner == t))
    && (e.mem.depth != m.depth ==> InSub(pc) && m.owner == t)
  }

  /** Each access keeps the acting thread's view. */
  lemma AccessKeepsView(m: Fields, pc: PC, held: int, t: nat, call: Call)
    requires View(m, pc, held, t)
    ensures var e := Access(m, pc, held, t, call);
            && View(e.mem, e.pc, e.held, t) && SubMoves(m, pc, e) && LockMoves(m, pc, e, t) && Guarded(m, pc, e, t)
  {
  }

  /** `h` is the thread inside the inner lock, or 0. */
  ghost predicate SubHeld(sub: bool, pcs: map<nat, PC>, h: nat) {
    && (sub <==> h != 0) && (h == 0 || h in pcs)
    && forall t | t in pcs :: InSub(pcs[t]) <==> t == h
  }

  /** `k` is the thread that holds the lock, or 0; only its id can be in the owner field, and until
      it is there, or once it has been cleared, the thread is in the window. */
  ghost predicate LockHeld(m: Fields, pcs: map<nat, PC>, k: nat) {
    && (m.locked <==> k != 0) && (k == 0 || k in pcs) && (m.owner == 0 || m.owner == k)
    && (k != 0 && m.owner == 0 ==> InWindow(pcs[k]))
    && forall t | t in pcs && InWindow(pcs[t]) :: t == k
  }

  ghost predicate InvAt(s: State, h: nat, k: nat) {
    && Threads(s) && SubHeld(s.mem.sub, s.pcs, h) && LockHeld(s.mem, s.pcs, k)
    && forall t | t in s.pcs :: View(s.mem, s.pcs[t], s.held[t], t)
  }

  ghost predicate Inv(s: State) {
    exists h, k :: InvAt(s, h, k)
  }

  lemma SubKept(m: Fields, pcs: map<nat, PC>, t: nat, e: Effect, h: nat) returns (h': nat)
    requires SubHeld(m.sub, pcs, h) && t in pcs && 0 !in pcs && SubMoves(m, pcs[t], e)
    ensures SubHeld(e.mem.sub, pcs[t := e.pc], h')
  {
    h' := if InSub(e.pc) then t else if InSub(pcs[t]) then 0 else h;
  }

  lemma LockKept(m: Fields, pcs: map<nat, PC>, t: nat, e: Effect, k: nat) returns (k': nat)
    requires LockHeld(m, pcs, k) && t in pcs && 0 !in pcs && LockMoves(m, pcs[t], e, t)
    requires InWindow(pcs[t]) ==> m.owner == 0
    ensures LockHeld(e.mem, pcs[t := e.pc], k')
  {
    k' := if e.mem.locked == m.locked then k else if e.mem.locked then t else 0;
  }

  lemma OtherView(m: Fields, pc: PC, held: int, u: nat, t: nat, pct: PC, e: Effect)
    requires View(m, pc, held, u) && u != t && Guarded(m, pct, e, t) && !(InSub(pc) && InSub(pct))
    requires InSub(pc) ==> e.mem.sub
    requires InWindow(pc) ==> e.mem.locked && e.mem.owner != t
    requires !e.mem.locked ==> e.mem.owner == 0
    requires e.mem.owner == 0 ==> e.mem.depth == 0
    ensures View(e.mem, pc, held, u)
  {
  }

  /** Every step of every thread keeps the invariant. */
  lemma StepKeepsInv(s: State, t: nat, call: Call)
    requires Inv(s) && Threads(s) && t in s.pcs
    ensures Inv(Act(s, t, call))
  {
    var h, k :| InvAt(s, h, k);
    var e := Access(s.mem, s.pcs[t], s.held[t], t, call);
    var s' := Act(s, t, call);
    AccessKeepsView(s.mem, s.pcs[t], s.held[t], t, call);
    ViewParts(s.mem, s.pcs[t], s.held[t], t);
    ViewParts(e.mem, e.pc, e.held, t);
    var h' := SubKept(s.mem, s.pcs, t, e, h);
    var k' := LockKept(s.mem, s.pcs, t, e, k);
    hide View, Access, SubMoves, LockMoves, Guarded, InSub, InWindow;
    forall u | u in s'.pcs
      ensures View(s'.mem, s'.pcs[u], s'.held[u], u)
    {
      if u != t {
        ViewParts(s.mem, s.pcs[u], s.held[u], u);
        OtherView(s.mem, s.pcs[u], s.held[u], u, t, s.pcs[t], e);
      }
    }
    assert InvAt(s', h', k');
  }

  lemma ViewParts(m: Fields, pc: PC, held: int, t: nat)
    requires View(m, pc, held, t)
    ensures t != 0 && (InWindow(pc) ==> m.owner == 0) && (m.owner == 0 ==> m.depth == 0)
  {
  }

  lemma InitInv(s: State)
    requires Init(s)
    ensures Inv(s)
  {
    assert InvAt(s, 0, 0);
  }

  // ---------------------------------------------------------------- whole runs

  /** Any interleaving of any calls of any threads. */
  ghost predicate Run(run: seq<State>) {
    && |run| > 0 && Init(run[0])
    && forall i | 0 <= i < |run| - 1 :: Next(run[i], run[i + 1])
  }

  lemma {:induction false} RunKeepsInv(run: seq<State>, i: nat)
    requires Run(run) && i < |run|
    ensures Inv(run[i])
  {
    if i == 0 {
      InitInv(run[0]);
    } else {
      RunKeepsInv(run, i - 1);
      assert Next(run[i - 1], run[i - 1 + 1]);
      var t, call :| t in run[i - 1].pcs && run[i] == Act(run[i - 1], t, call);
      StepKeepsInv(run[i - 1], t, call);
    }
  }

  /** A thread's acquisitions minus its releases, the running call counted from its effect on. */
  function Count(s: State, t: nat): int
    requires Threads(s) && t in s.pcs
  {
    s.held[t] + Pending(s.pcs[t])
  }

  lemma CountIsHolder(s: State, h: nat, k: nat, t: nat)
    requires InvAt(s, h, k) && t in s.pcs
    ensures Count(s, t) > 0 ==> t == k && s.mem.owner == t
  {
    assert View(s.mem, s.pcs[t], s.held[t], t);
  }

  /** The lock belongs to at most one thread, also while the owner field has not been set yet. */
  lemma MutualExclusion(run: seq<State>, i: nat, t: nat, u: nat)
    requires Run(run) && i < |run| && t in run[i].pcs && u in run[i].pcs
    ensures Threads(run[i])
    ensures Count(run[i], t) > 0 && Count(run[i], u) > 0 ==> t == u
    ensures InWindow(run[i].pcs[t]) && InWindow(run[i].pcs[u]) ==> t == u
    ensures InWindow(run[i].pcs[t]) ==> Count(run[i], u) == 0
  {
    RunKeepsInv(run, i);
    var s := run[i];
    var h, k :| InvAt(s, h, k);
    CountIsHolder(s, h, k, t);
    CountIsHolder(s, h, k, u);
    assert View(s.mem, s.pcs[t], s.held[t], t);
    assert View(s.mem, s.pcs[u], s.held[u], u);
  }

  /** The fields mean what they say, in every state of every run. */
  lemma FieldsMean(run: seq<State>, i: nat, t: nat)
    requires Run(run) && i < |run| && t in run[i].pcs
    ensures var s := run[i];
            && Threads(s)
            && (!s.mem.locked ==> s.mem.owner == 0)
            && (s.mem.owner == 0 ==> s.mem.depth == 0)
            && s.held[t] + Pending(s.pcs[t]) == (if s.mem.owner == t then s.mem.depth else 0)
            && (s.pcs[t].Halted? ==> s.pcs[t].why != SubmutexNotLocked && s.pcs[t].why != DepthNotPositive)
            && (s.pcs[t].Halted? ==> s.held[t] == 0)
            && (s.pcs[t].Leave? ==> Returns(s.pcs[t].call, s.pcs[t].result, s.pcs[t].gain, s.held[t]))
  {
    RunKeepsInv(run, i);
    var h, k :| InvAt(run[i], h, k);
    assert View(run[i].mem, run[i].pcs[t], run[i].held[t], t);
  }

  /** The re-entry branch of `lock` is never taken. */
  lemma LockNeverReenters(run: seq<State>, i: nat, t: nat)
    requires Run(run) && i < |run| && t in run[i].pcs
    ensures run[i].pcs[t] != Deepen(Lock)
  {
    RunKeepsInv(run, i);
    var h, k :| InvAt(run[i], h, k);
    assert View(run[i].mem, run[i].pcs[t], run[i].held[t], t);
  }

  /** A thread on its way to wait for a lock that it owns, or waiting. */
  predicate WaitsForItself(s: State, t: nat) {
    && t in s.pcs && s.mem.owner == t
    && (s.pcs[t] == EnterSub(Lock) || s.pcs[t] == TestLocked(Lock) || s.pcs[t] == LeaveToSpin || s.pcs[t] == Spin)
  }

  /** No step of any thread lets it out. */
  lemma StuckStays(s: State, u: nat, call: Call, t: nat)
    requires Inv(s) && Threads(s) && u in s.pcs && WaitsForItself(s, t)
    ensures WaitsForItself(Act(s, u, call), t)
  {
    var h, k :| InvAt(s, h, k);
    assert View(s.mem, s.pcs[t], s.held[t], t);
    assert View(s.mem, s.pcs[u], s.held[u], u);
    if u != t {
      AccessKeepsView(s.mem, s.pcs[u], s.held[u], u, call);
      hide Access, View;
    }
  }

  lemma LastStep(run: seq<State>, j: nat) returns (t: nat, call: Call)
    requires Run(run) && 0 < j < |run|
    ensures Inv(run[j - 1]) && Threads(run[j - 1]) && t in run[j - 1].pcs && run[j] == Act(run[j - 1], t, call)
  {
    RunKeepsInv(run, j - 1);
    assert Next(run[j - 1], run[j - 1 + 1]);
    t, call :| t in run[j - 1].pcs && run[j] == Act(run[j - 1], t, call);
  }

  lemma {:induction false} StaysStuck(run: seq<State>, i: nat, j: nat, t: nat)
    requires Run(run) && i <= j < |run| && WaitsForItself(run[i], t)
    ensures WaitsForItself(run[j], t)
    decreases j - i
  {
    hide WaitsForItself, Inv, Act;
    if i < j {
      StaysStuck(run, i, j - 1, t);
      var u, call := LastStep(run, j);
      StuckStays(run[j - 1], u, call, t);
    }
  }

  /** A thread that holds the lock and calls `lock` again never comes back from that call. */
  lemma StuckForever(run: seq<State>, i: nat, j: nat, t: nat)
    requires Run(run) && i < j < |run| && t in run[i].pcs && Threads(run[i])
    requires run[i].pcs[t] == Idle && run[i].held[t] > 0 && run[i + 1] == Act(run[i], t, Lock)
    ensures WaitsForItself(run[j], t)
  {
    RunKeepsInv(run, i);
    var h, k :| InvAt(run[i], h, k);
    assert View(run[i].mem, run[i].pcs[t], run[i].held[t], t);
    StaysStuck(run, i + 1, j, t);
  }

  /** What the `n`-th access of a thread 1 that is alone and always calls `lock` leaves. */
  function Alone(n: nat): Effect {
    if n == 0 then Effect(Fields(false, 0, 0, false), Idle, 0)
    else Access(Alone(n - 1).mem, Alone(n - 1).pc, Alone(n - 1).held, 1, Lock)
  }

  function AloneAt(n: nat): State {
    State(Alone(n).mem, map[1 := Alone(n).pc], map[1 := Alone(n).held])
  }

  lemma AloneSteps(n: nat)
    ensures Threads(AloneAt(n)) && AloneAt(n + 1) == Act(AloneAt(n), 1, Lock) && Next(AloneAt(n), AloneAt(n + 1))
  {
    hide Access;
    assert AloneAt(n + 1) == Act(AloneAt(n), 1, Lock);
  }

  lemma AloneNext(n: nat, e: Effect)
    requires e == Access(Alone(n).mem, Alone(n).pc, Alone(n).held, 1, Lock)
    ensures Alone(n + 1) == e
  {
  }

  lemma AloneTakes()
    ensures Alone(5) == Effect(Fields(false, 0, 0, false), Spin, 0)
  {
    assert Alone(0) == Effect(Fields(false, 0, 0, false), Idle, 0);
    hide Alone;
    AloneNext(0, Effect(Fields(false, 0, 0, false), EnterSub(Lock), 0));
    AloneNext(1, Effect(Fields(false, 0, 0, true), TestLocked(Lock), 0));
    AloneNext(2, Effect(Fields(false, 0, 0, true), TestOwner(Lock), 0));
    AloneNext(3, Effect(Fields(false, 0, 0, true), LeaveToSpin, 0));
    AloneNext(4, Effect(Fields(false, 0, 0, false), Spin, 0));
  }

  lemma AloneOwns()
    ensures Alone(10) == Effect(Fields(true, 1, 1, false), Idle, 1)
  {
    AloneTakes();
    hide Alone;
    AloneNext(5, Effect(Fields(true, 0, 0, false), Reenter, 0));
    AloneNext(6, Effect(Fields(true, 0, 0, true), SetOwner(Lock), 0));
    AloneNext(7, Effect(Fields(true, 1, 0, true), SetDepth(Lock), 0));
    AloneNext(8, Effect(Fields(true, 1, 1, true), Leave(Lock, true, 1), 0));
    AloneNext(9, Effect(Fields(true, 1, 1, false), Idle, 1));
  }

  lemma AloneSpins()
    ensures Alone(14) == Effect(Fields(true, 1, 1, false), Spin, 1)
  {
    AloneOwns();
    hide Alone;
    AloneNext(10, Effect(Fields(true, 1, 1, false), EnterSub(Lock), 1));
    AloneNext(11, Effect(Fields(true, 1, 1, true), TestLocked(Lock), 1));
    AloneNext(12, Effect(Fields(true, 1, 1, true), LeaveToSpin, 1));
    AloneNext(13, Effect(Fields(true, 1, 1, false), Spin, 1));
  }

  /** Such a call happens: one thread alone locks twice, and waits for itself. */
  lemma LocksTwice() returns (run: seq<State>)
    ensures Run(run) && |run| == 15 && 1 in run[10].pcs && Threads(run[10]) && 1 in run[14].pcs
    ensures run[10].pcs[1] == Idle && run[10].held[1] > 0 && run[11] == Act(run[10], 1, Lock)
    ensures run[14].pcs[1] == Spin && WaitsForItself(run[14], 1)
  {
    AloneOwns();
    AloneSpins();
    run := seq(15, n requires 0 <= n < 15 => AloneAt(n));
    assert Init(run[0]);
    hide Alone, Access;
    forall i | 0 <= i < |run| - 1
      ensures Next(run[i], run[i + 1])
    {
      AloneSteps(i);
    }
    AloneSteps(10);
  }

  /** A thread that halted stays where it is, with the inner lock taken. */
  predicate HaltedIn(s: State, t: nat) {
    t in s.pcs && s.pcs[t].Halted?
  }

  lemma HaltStays(s: State, u: nat, call: Call, t: nat)
    requires Threads(s) && u in s.pcs && HaltedIn(s, t)
    ensures HaltedIn(Act(s, u, call), t)
  {
  }

  lemma HaltShuts(s: State, t: nat, u: nat)
    requires Inv(s) && HaltedIn(s, t) && u in s.pcs && u != t
    ensures s.mem.sub && !InSub(s.pcs[u])
  {
    var h, k :| InvAt(s, h, k);
    assert InSub(s.pcs[t]);
  }

  /** After a failed assertion no other thread gets past the inner lock again. */
  lemma {:induction false} HaltBlocks(run: seq<State>, i: nat, j: nat, t: nat, u: nat)
    requires Run(run) && i <= j < |run| && HaltedIn(run[i], t)
    ensures HaltedIn(run[j], t)
    ensures u in run[j].pcs && u != t ==> run[j].mem.sub && !InSub(run[j].pcs[u])
    decreases j - i
  {
    hide HaltedIn, Inv, Act;
    if i < j {
      HaltBlocks(run, i, j - 1, t, u);
      var v, call := LastStep(run, j);
      HaltStays(run[j - 1], v, call, t);
    }
    RunKeepsInv(run, j);
    if u in run[j].pcs && u != t {
      HaltShuts(run[j], t, u);
    }
  }

  // ---------------------------------------------------------------- calls that nothing interrupts

  /** What `n` accesses of thread `t` in a row leave. */
  function Steps(e: Effect, t: nat, n: nat): Effect
    decreases n
  {
    if n == 0 then e else Steps(Access(e.mem, e.pc, e.held, t, Lock), t, n - 1)
  }

  /** Started with the inner lock free, and not interrupted, the call returns `result` and leaves `m'` and
      `held'`. */
  ghost predicate Does(m: Fields, held: int, t: nat, call: Call, result: bool, m': Fields, held': int) {
    exists n: nat, gain ::
      && Steps(Effect(m, EnterSub(call), held), t, n) == Effect(m'.(sub := true), Leave(call, result, gain), held)
      && Steps(Effect(m, EnterSub(call), held), t, n + 1) == Effect(m', Idle, held')
  }

  lemma {:induction false} StepsMore(e: Effect, t: nat, n: nat)
    ensures Steps(e, t, n + 1)
            == var f := Steps(e, t, n); Access(f.mem, f.pc, f.held, t, Lock)
    decreases n
  {
    if n > 0 {
      StepsMore(Access(e.mem, e.pc, e.held, t, Lock), t, n - 1);
    }
  }

  lemma Returning(m: Fields, held: int, t: nat, call: Call, n: nat, result: bool, gain: int, m': Fields)
    requires !m'.sub
    requires Steps(Effect(m, EnterSub(call), held), t, n) == Effect(m'.(sub := true), Leave(call, result, gain), held)
    ensures Does(m, held, t, call, result, m', held + gain)
  {
    StepsMore(Effect(m, EnterSub(call), held), t, n);
    hide Steps;
    assert m'.(sub := true).(sub := false) == m';
  }

  /** `try_lock` takes a free lock, deepens the caller's own, and reports failure for another's. */
  lemma TryLockAlone(m: Fields, held: int, t: nat)
    requires !m.sub
    ensures !m.locked ==> Does(m, held, t, TryLock, true, Fields(true, t, 1, false), held + 1)
    ensures m.locked && m.owner == t ==> Does(m, held, t, TryLock, true, m.(depth := m.depth + 1), held + 1)
    ensures m.locked && m.owner != t ==> Does(m, held, t, TryLock, false, m, held)
  {
    var e := Effect(m, EnterSub(TryLock), held);
    if !m.locked {
      assert Steps(e, t, 5) == Effect(Fields(true, t, 1, true), Leave(TryLock, true, 1), held);
      Returning(m, held, t, TryLock, 5, true, 1, Fields(true, t, 1, false));
    } else if m.owner == t {
      assert Steps(e, t, 4) == Effect(m.(depth := m.depth + 1).(sub := true), Leave(TryLock, true, 1), held);
      Returning(m, held, t, TryLock, 4, true, 1, m.(depth := m.depth + 1));
    } else {
      assert Steps(e, t, 4) == Effect(m.(sub := true), Leave(TryLock, false, 0), held);
      Returning(m, held, t, TryLock, 4, false, 0, m);
    }
  }

  /** `lock` takes a free lock. */
  lemma LockAlone(m: Fields, held: int, t: nat)
    requires !m.sub && !m.locked && m.owner != t
    ensures Does(m, held, t, Lock, true, Fields(true, t, 1, false), held + 1)
  {
    var e := Effect(m, EnterSub(Lock), held);
    assert Steps(e, t, 5) == Effect(m.(locked := true), Reenter, held);
    StepsMore(e, t, 5);
    StepsMore(e, t, 6);
    StepsMore(e, t, 7);
    hide Steps;
    Returning(m, held, t, Lock, 8, true, 1, Fields(true, t, 1, false));
  }

  /** `unlock` and `try_unlock` give back the caller's own: the last one frees the lock, and `try_unlock`
      reports that alone. */
  lemma UnlockAlone(m: Fields, held: int, t: nat, call: Call)
    requires !m.sub && m.locked && m.owner == t && m.depth > 0 && (call == Unlock || call == TryUnlock)
    ensures m.depth == 1 ==> Does(m, held, t, call, true, Fields(false, 0, 0, false), held - 1)
    ensures m.depth > 1 ==> Does(m, held, t, call, false, m.(depth := m.depth - 1), held - 1)
  {
    var e := Effect(m, EnterSub(call), held);
    if m.depth == 1 {
      assert Steps(e, t, 5) == Effect(m.(sub := true, depth := 0), ClearOwner(call), held);
      StepsMore(e, t, 5);
      StepsMore(e, t, 6);
      hide Steps;
      Returning(m, held, t, call, 7, true, -1, Fields(false, 0, 0, false));
    } else {
      assert Steps(e, t, 5) == Effect(m.(sub := true, depth := m.depth - 1), Leave(call, false, -1), held);
      Returning(m, held, t, call, 5, false, -1, m.(depth := m.depth - 1));
    }
  }

  /** Without owning the lock, `try_unlock` changes nothing, and `unlock` halts in the inner lock. */
  lemma UnlockOther(m: Fields, held: int, t: nat)
    requires !m.sub && !(m.locked && m.owner == t)
    ensures Does(m, held, t, TryUnlock, false, m, held)
    ensures exists n, why :: Steps(Effect(m, EnterSub(Unlock), held), t, n)
                             == Effect(m.(sub := true), Halted(why), held)
  {
    var e, f := Effect(m, EnterSub(TryUnlock), held), Effect(m, EnterSub(Unlock), held);
    if m.locked {
      assert Steps(e, t, 3) == Effect(m.(sub := true), Leave(TryUnlock, false, 0), held);
      Returning(m, held, t, TryUnlock, 3, false, 0, m);
      assert Steps(f, t, 3) == Effect(m.(sub := true), Halted(NotOwner), held);
    } else {
      assert Steps(e, t, 2) == Effect(m.(sub := true), Leave(TryUnlock, false, 0), held);
      Returning(m, held, t, TryUnlock, 2, false, 0, m);
      assert Steps(f, t, 2) == Effect(m.(sub := true), Halted(NotLocked), held);
    }
  }
}
