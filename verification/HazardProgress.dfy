/** Progress of the hazard-pointer stack: which operations return, and within how many steps. */
module HazardProgress {
  import opened HazardCalls
  import opened HazardInvariant
  import opened HazardPointer
  import opened HazardResults
  import opened Options

  // ---------- How many own steps are left ----------

  /** The exchange of the pop has succeeded. */
  predicate Past(pc: PC) {
    pc.PopRelease? || pc.PopTake? || pc.Retire? || pc.ScanCount? || pc.ScanSlot? || pc.Sweep?
  }

  /** From the retirement on: one step, and a scan with its sweep if the list is long. */
  function ToRetire(retired: nat): nat {
    1 + if retired + 1 >= RETIRE_THRESHOLD then MAX_THREADS + retired + 4 else 0
  }

  function ToScan(t: Thread): nat {
    match t.pc
    case PopRelease(_) => ToRetire(|t.retired|) + 2
    case PopTake(_) => ToRetire(|t.retired|) + 1
    case Retire(_, _) => ToRetire(|t.retired|)
    case ScanCount(_) => MAX_THREADS + |t.retired| + 3
    case ScanSlot(_, n, i, _) => (if i <= n then n - i else 0) + |t.retired| + 2
    case Sweep(_, _, j, _) => if j <= |t.retired| then |t.retired| - j + 1 else 1
    case _ => 0
  }

  /** From the reading of the head on. */
  function ToLoad(head: Addr, t: Thread): nat {
    if head == NULL then 1 else ToRetire(|t.retired|) + if t.slot < 0 then 8 else 7
  }

  /** From the publication of a node on, when `ahead` steps lead to its revalidation or
      exchange: either the head is that node, or the pop has to begin again. */
  function ToCas(head: Addr, t: Thread, top: Addr, ahead: nat, retry: nat): nat {
    if head == top then ToRetire(|t.retired|) + ahead else ToLoad(head, t) + retry
  }

  function Left(s: State, p: nat): nat
    requires p < |s.threads|
  {
    var t := s.threads[p];
    match t.pc
    case Idle => 0
    case PushLoad(_, _) => 2
    case PushCas(node, _) => if node in s.heap && s.heap[node].next == s.head then 1 else 2
    case PopLoad => ToLoad(s.head, t)
    case PopRegister(top) => ToCas(s.head, t, top, 7, 4)
    case PopPublish(top) => ToCas(s.head, t, top, 6, 3)
    case PopValidate(top) => ToCas(s.head, t, top, 5, 2)
    case PopRetract => ToLoad(s.head, t) + 1
    case PopNext(top, _) => ToCas(s.head, t, top, 4, 3)
    case PopCas(top, _, _) => ToCas(s.head, t, top, 3, 2)
    case _ => ToScan(t)
  }

  /** The thread has a hazard slot, or there is one left for it. */
  predicate HasSlot(s: State, p: nat)
    requires p < |s.threads|
  {
    s.threads[p].slot >= 0 || s.count < MAX_THREADS
  }

  /** Nothing but a missing hazard slot can keep the thread from going on. */
  predicate Unblocked(s: State, p: nat)
    requires p < |s.threads|
  {
    s.threads[p].pc.PushLoad? || s.threads[p].pc.PushCas? || HasSlot(s, p)
  }

  lemma LeftIsBounded(s: State, p: nat)
    requires Inv(s) && p < |s.threads|
    ensures Left(s, p) <= 112 && (s.threads[p].pc.PopLoad? ==> Left(s, p) <= 108)
    ensures Past(s.threads[p].pc) ==> Left(s, p) <= 102
    ensures Left(s, p) == 0 ==> s.threads[p].pc.Idle?
  {
    hide Owns, Protects, Covered, Reports, Carries, SharedOk;
    assert ThreadOk(s, p);
    assert s.count <= MAX_THREADS by { CountIsBounded(s); }
  }

  lemma CountIsBounded(s: State)
    requires SharedOk(s)
    ensures s.count <= MAX_THREADS
  {
    hide IsChain, OwnersOk, LogOk, LoggedBy;
  }

  // ---------- Own steps bring an operation closer to its end ----------

  /** What an own step of p achieves. */
  ghost predicate Closer(s: State, p: nat, o: Outcome)
    requires p < |s.threads|
  {
    && o.Ran? && p < |o.state.threads|
    && (!o.state.threads[p].pc.Idle? ==> Left(o.state, p) < Left(s, p) && Unblocked(o.state, p))
  }

  lemma PushCloser(s: State, p: nat, c: Choice)
    requires Inv(s) && p < |s.threads| && (s.threads[p].pc.PushLoad? || s.threads[p].pc.PushCas?) && !c.spurious
    ensures Closer(s, p, Step(s, p, c))
  {
    hide Owns, Protects, Covered, Reports, RetireBound, Registered, SharedOk;
    assert ThreadOk(s, p);
  }

  /** What the invariant says of a pop before its exchange. */
  lemma PopFacts(s: State, p: nat)
    requires Inv(s) && p < |s.threads|
    ensures var pc, t := s.threads[p].pc, s.threads[p];
            && (NeedsSlot(pc) ==> t.slot >= 0) && (pc.PopRegister? ==> t.slot == -1)
            && (IsProtecting(pc) ==> pc.top in s.heap && pc.top != NULL)
            && (pc.PopRegister? || pc.PopPublish? || pc.PopValidate? ==> pc.top != NULL)
  {
    hide Owns, Covered, Reports, RetireBound, Carries, SightingHolds, IsChain, OwnersOk, LogOk, LoggedBy;
    assert ThreadOk(s, p);
  }

  lemma EarlyPopCloser(s: State, p: nat, c: Choice)
    requires Inv(s) && p < |s.threads| && HasSlot(s, p)
    requires s.threads[p].pc.PopLoad? || s.threads[p].pc.PopRegister? || s.threads[p].pc.PopPublish?
    ensures Closer(s, p, Step(s, p, c))
  {
    hide Inv, Start, DoPushLoad, DoPushCas, DoPopValidate, DoPopNext, DoPopCas, DoPopTake, DoRetire, DoScanSlot,
      DoSweep, ToRetire, ToScan;
    PopFacts(s, p);
  }

  lemma LatePopCloser(s: State, p: nat, c: Choice)
    requires Inv(s) && p < |s.threads| && !c.spurious
    requires s.threads[p].pc.PopValidate? || s.threads[p].pc.PopRetract? || IsProtecting(s.threads[p].pc)
    ensures Closer(s, p, Step(s, p, c))
  {
    hide Inv, Start, DoPushLoad, DoPushCas, DoPopLoad, DoPopRegister, DoPopTake, DoRetire, DoScanSlot, DoSweep,
      ToRetire;
    PopFacts(s, p);
  }

  lemma PastFacts(s: State, p: nat)
    requires Inv(s) && p < |s.threads| && Past(s.threads[p].pc)
    ensures s.threads[p].slot >= 0 && s.count <= MAX_THREADS
    ensures s.threads[p].pc.ScanSlot? ==> s.threads[p].pc.i <= s.threads[p].pc.n
    ensures s.threads[p].pc.Sweep? ==> s.threads[p].pc.j <= |s.threads[p].retired|
  {
    hide SharedOk, Protects, Covered, Reports, Carries;
    assert ThreadOk(s, p);
    CountIsBounded(s);
  }

  lemma PastCloser(s: State, p: nat, c: Choice)
    requires Inv(s) && p < |s.threads| && Past(s.threads[p].pc)
    ensures Closer(s, p, Step(s, p, c))
  {
    hide Inv, Start, DoPushLoad, DoPushCas, DoPopLoad, DoPopRegister, DoPopValidate, DoPopNext, DoPopCas;
    StepIsSafe(s, p, c);
    PastFacts(s, p);
  }

  lemma PopKinds(pc: PC)
    ensures pc.Idle? || pc.PushLoad? || pc.PushCas? || Past(pc) || pc.PopLoad? || pc.PopRegister? || pc.PopPublish?
            || pc.PopValidate? || pc.PopRetract? || IsProtecting(pc)
  {
  }

  lemma OwnStep(s: State, p: nat, c: Choice)
    requires Inv(s) && p < |s.threads| && !s.threads[p].pc.Idle?
    requires Past(s.threads[p].pc) || (Unblocked(s, p) && !c.spurious)
    ensures Closer(s, p, Step(s, p, c))
  {
    hide Closer, Inv, Step, Past;
    PopKinds(s.threads[p].pc);
    if Past(s.threads[p].pc) {
      PastCloser(s, p, c);
    } else if s.threads[p].pc.PushLoad? || s.threads[p].pc.PushCas? {
      PushCloser(s, p, c);
    } else {
      if s.threads[p].pc.PopLoad? || s.threads[p].pc.PopRegister? || s.threads[p].pc.PopPublish? {
        EarlyPopCloser(s, p, c);
      } else {
        LatePopCloser(s, p, c);
      }
    }
  }

  // ---------- Steps of others only matter when they change the head ----------

  lemma OthersKeepNode(s: State, p: nat, q: nat, c: Choice, a: Addr)
    requires Inv(s) && p < |s.threads| && p != q && IsPushing(s.threads[p].pc, a) && Step(s, q, c).Ran?
    ensures a in s.heap && a in Step(s, q, c).state.heap && Step(s, q, c).state.heap[a] == s.heap[a]
  {
    hide Replay, OperationsOf, LogOk, IsChain, OwnersOk, Covered, RetireBound, Reports, SightingHolds, Protects, HeldBy;
    assert ThreadOk(s, p);
    PusherOwns(s, p, a);
    OnlyHolderFrees(s, q, c, a);
    if q < |s.threads| && (s.threads[q].pc.PushLoad? || s.threads[q].pc.PushCas?) {
      assert ThreadOk(s, q);
      PusherOwns(s, q, s.threads[q].pc.node);
    }
  }

  lemma OthersStep(s: State, p: nat, q: nat, c: Choice)
    requires Inv(s) && p < |s.threads| && p != q && Step(s, q, c).Ran?
    requires Past(s.threads[p].pc) || Step(s, q, c).state.head == s.head
    ensures p < |Step(s, q, c).state.threads| && Step(s, q, c).state.threads[p] == s.threads[p]
    ensures Left(Step(s, q, c).state, p) == Left(s, p)
  {
    hide Inv, Step;
    StepLeavesOthers(s, q, c);
    if s.threads[p].pc.PushLoad? || s.threads[p].pc.PushCas? {
      OthersKeepNode(s, p, q, c, s.threads[p].pc.node);
    }
  }

  /** How many moves of the schedule are p's. */
  function MovesOf(p: nat, schedule: Schedule): nat {
    if schedule == [] then 0 else (if schedule[0].0 == p then 1 else 0) + MovesOf(p, schedule[1..])
  }

  /** Until p has finished its operation or its exchange has succeeded, no weak exchange of p
      fails spuriously and no other thread changes the head, or registers while p has to. */
  ghost predicate Undisturbed(s: State, p: nat, schedule: Schedule)
    decreases |schedule|
  {
    schedule != [] && p < |s.threads| && !s.threads[p].pc.Idle? ==>
      var (q, c) := schedule[0];
      var s' := After(s, q, c);
      && (!Past(s.threads[p].pc) && q == p ==> !c.spurious)
      && (!Past(s.threads[p].pc) && q != p ==> s'.head == s.head && (s.threads[p].slot < 0 ==> s'.count == s.count))
      && Undisturbed(s', p, schedule[1..])
  }

  lemma ReturnedStep(s: State, p: nat, q: nat, c: Choice)
    requires p < |s.threads| && Step(s, q, c).Ran?
    ensures p < |Step(s, q, c).state.threads| && s.threads[p].returned <= Step(s, q, c).state.threads[p].returned
    ensures p == q && !s.threads[p].pc.Idle? && Step(s, q, c).state.threads[p].pc.Idle? ==>
              |Step(s, q, c).state.threads[p].returned| > |s.threads[p].returned|
  {
    hide Step;
    StepLeavesOthers(s, q, c);
    if p == q {
      StepMoves(s, q, c);
    }
  }

  lemma {:induction false} ReturnedGrows(s: State, p: nat, schedule: Schedule)
    requires p < |s.threads| && Run(s, schedule).Ran?
    ensures p < |Run(s, schedule).state.threads|
    ensures s.threads[p].returned <= Run(s, schedule).state.threads[p].returned
    decreases |schedule|
  {
    hide Step;
    if schedule != [] {
      var (q, c) := schedule[0];
      if Step(s, q, c).Ran? {
        ReturnedStep(s, p, q, c);
      }
      ReturnedGrows(After(s, q, c), p, schedule[1..]);
    }
  }

  /** Lock freedom: an operation that moves `Left` times, which is at most 112, returns unless
      another thread's exchange takes effect meanwhile. So whenever it has to try again, some
      other operation has made progress. */
  lemma {:induction false} Returns(s: State, p: nat, schedule: Schedule)
    requires Inv(s) && p < |s.threads| && !s.threads[p].pc.Idle? && (Past(s.threads[p].pc) || Unblocked(s, p))
    requires Undisturbed(s, p, schedule) && MovesOf(p, schedule) >= Left(s, p)
    ensures Run(s, schedule).Ran? && p < |Run(s, schedule).state.threads|
    ensures s.threads[p].returned <= Run(s, schedule).state.threads[p].returned
    ensures |Run(s, schedule).state.threads[p].returned| > |s.threads[p].returned|
    decreases |schedule|
  {
    hide Inv, Step, Left, Unblocked, Past;
    RunKeepsInv(s, schedule);
    LeftIsBounded(s, p);
    ReturnedGrows(s, p, schedule);
    assert schedule != [];
    var (q, c) := schedule[0];
    var s', rest := After(s, q, c), schedule[1..];
    StepIsSafe(s, q, c);
    if q == p {
      OwnStep(s, p, c);
      ReturnedStep(s, p, q, c);
      if s'.threads[p].pc.Idle? {
        ReturnedGrows(s', p, rest);
      } else {
        Returns(s', p, rest);
      }
    } else {
      if Step(s, q, c).Ran? {
        ReturnedStep(s, p, q, c);
        OthersStep(s, p, q, c);
      }
      SlotStays(s, s', p);
      Returns(s', p, rest);
    }
  }

  lemma SlotStays(s: State, s': State, p: nat)
    requires p < |s.threads| && p < |s'.threads| && s'.threads[p] == s.threads[p]
    requires Past(s.threads[p].pc) || Unblocked(s, p)
    requires Past(s.threads[p].pc) || (s.threads[p].slot < 0 ==> s'.count == s.count)
    ensures Past(s'.threads[p].pc) || Unblocked(s', p)
  {
  }

  // ---------- A pop whose exchange has succeeded is wait-free ----------

  lemma {:induction false} PastIsUndisturbed(s: State, p: nat, schedule: Schedule)
    requires Inv(s) && p < |s.threads| && (Past(s.threads[p].pc) || s.threads[p].pc.Idle?)
    ensures Undisturbed(s, p, schedule)
    decreases |schedule|
  {
    hide Inv, Step;
    if schedule != [] && !s.threads[p].pc.Idle? {
      var (q, c) := schedule[0];
      StepIsSafe(s, q, c);
      if Step(s, q, c).Ran? {
        StepLeavesOthers(s, q, c);
        if q == p {
          StaysPast(s, p, c);
        }
      }
      PastIsUndisturbed(After(s, q, c), p, schedule[1..]);
    }
  }

  lemma StaysPast(s: State, p: nat, c: Choice)
    requires p < |s.threads| && Past(s.threads[p].pc) && Step(s, p, c).Ran?
    ensures p < |Step(s, p, c).state.threads|
    ensures Past(Step(s, p, c).state.threads[p].pc) || Step(s, p, c).state.threads[p].pc.Idle?
  {
    hide Start, DoPushLoad, DoPushCas, DoPopLoad, DoPopRegister, DoPopValidate, DoPopNext, DoPopCas;
  }

  lemma {:induction false} OperationsGrow(log: seq<Event>, log': seq<Event>, p: nat)
    requires log <= log'
    ensures OperationsOf(log, p) <= OperationsOf(log', p)
    decreases |log'|
  {
    if |log| < |log'| {
      OperationsGrow(log, log'[..|log'| - 1], p);
    } else {
      assert log == log';
    }
  }

  /** Whatever the other threads do, a pop whose exchange has succeeded reports the value it has
      popped by the time it has moved 102 times. */
  lemma PopFinishes(s: State, p: nat, schedule: Schedule)
    requires Reachable(s) && p < |s.threads| && Past(s.threads[p].pc) && MovesOf(p, schedule) >= 102
    ensures Run(s, schedule).Ran? && p < |Run(s, schedule).state.threads|
    ensures OperationsOf(s.history.log, p) <= Run(s, schedule).state.threads[p].returned
    ensures |OperationsOf(s.history.log, p)| == |s.threads[p].returned| + 1
  {
    hide Inv, Left, OperationsOf, Undisturbed, Reachable;
    ReachableInv(s);
    LeftIsBounded(s, p);
    PastIsUndisturbed(s, p, schedule);
    RunKeepsInv(s, schedule);
    Returns(s, p, schedule);
    LogGrows(s, schedule);
    var s' := Run(s, schedule).state;
    OperationsGrow(s.history.log, s'.history.log, p);
    ReportsNow(s, p);
    ReportsNow(s', p);
  }

  lemma ReportsNow(s: State, p: nat)
    requires Inv(s) && p < |s.threads|
    ensures s.threads[p].returned <= OperationsOf(s.history.log, p)
    ensures Past(s.threads[p].pc) ==> |OperationsOf(s.history.log, p)| == |s.threads[p].returned| + 1
  {
    hide SharedOk, Protects, Covered, RetireBound, Carries, OperationsOf;
    assert ThreadOk(s, p);
    if s.threads[p].pc.PopRelease? || s.threads[p].pc.PopTake? {
      UsedIsAllocated(s, p, s.threads[p].pc.top);
    }
  }

  // ---------- Operations that move alone ----------

  /** n moves of p, none of which meets a spurious failure. */
  function Alone(p: nat, c: Choice, n: nat): Schedule {
    seq(n, _ => (p, c))
  }

  ghost predicate LoggedOnlyBy(log: seq<Event>, log': seq<Event>, p: nat) {
    log <= log' && forall i :: |log| <= i < |log'| ==> log'[i].thread == p
  }

  lemma {:induction false} FinishAlone(s: State, p: nat, c: Choice) returns (n: nat, s': State)
    requires Inv(s) && p < |s.threads| && !s.threads[p].pc.Idle? && Unblocked(s, p) && !c.spurious
    ensures n <= Left(s, p) && Run(s, Alone(p, c, n)) == Ran(s')
    ensures p < |s'.threads| == |s.threads| && s'.threads[p].pc.Idle? && s'.threads[p].calls == s.threads[p].calls
    ensures forall q :: 0 <= q < |s.threads| && q != p ==> s'.threads[q] == s.threads[q]
    ensures LoggedOnlyBy(s.history.log, s'.history.log, p)
    decreases Left(s, p)
  {
    hide Inv, Step, Left, Unblocked, Past;
    OwnStep(s, p, c);
    StepIsSafe(s, p, c);
    StepLeavesOthers(s, p, c);
    StepMoves(s, p, c);
    StepLog(s, p, c);
    LeftIsBounded(s, p);
    var s1 := Step(s, p, c).state;
    if s1.threads[p].pc.Idle? {
      n, s' := 1, s1;
    } else {
      n, s' := FinishAlone(s1, p, c);
      n := n + 1;
    }
    assert Alone(p, c, n)[1..] == Alone(p, c, n - 1) && Alone(p, c, n)[0] == (p, c);
    assert Run(s1, Alone(p, c, 0)) == Ran(s1);
  }

  lemma {:induction false} OnlyOwnOperations(log: seq<Event>, log': seq<Event>, p: nat)
    requires LoggedOnlyBy(log, log', p)
    ensures OperationsOf(log', p) == OperationsOf(log, p) + log'[|log|..]
    decreases |log'|
  {
    if |log| < |log'| {
      var before := log'[..|log'| - 1];
      OnlyOwnOperations(log, before, p);
      assert log'[|log|..] == before[|log|..] + [log'[|log'| - 1]];
    } else {
      assert log' == log && log'[|log|..] == [];
    }
  }

  /** An operation that starts and moves alone returns, and logs and reports just itself. */
  lemma OperationAlone(s: State, p: nat, c: Choice) returns (n: nat, s': State)
    requires Reachable(s) && p < |s.threads| && s.threads[p].pc.Idle? && !c.spurious
    requires Step(s, p, c).Ran? && (c.op.Pop? ==> HasSlot(s, p))
    ensures n <= 1 + Left(Step(s, p, c).state, p) && Run(s, Alone(p, c, n)) == Ran(s') && Reachable(s')
    ensures |s'.threads| == |s.threads| && s'.threads[p].pc.Idle?
    ensures forall q :: 0 <= q < |s.threads| && q != p ==> s'.threads[q] == s.threads[q]
    ensures exists e :: && AnswersCall(c.op, e, p) && s'.threads[p].returned == s.threads[p].returned + [e]
                        && s'.history.log == s.history.log + [e]
  {
    ReachableInv(s);
    StepIsSafe(s, p, c);
    StepLeavesOthers(s, p, c);
    Started(s, p, c);
    var s1 := Step(s, p, c).state;
    hide Inv, Step, Left, HasSlot, Unblocked, OperationsOf, Run, Reachable, LegalStackHistory;
    n, s' := FinishAlone(s1, p, c);
    n := n + 1;
    RunFirst(s, p, c, n, s');
    ReachRun(s, Alone(p, c, n));
    Linearizable(s);
    Linearizable(s');
    OneEvent(s.history.log, s'.history.log, s.threads[p].returned, s'.threads[p].returned, s.threads[p].calls, c.op, p);
  }

  /** The only call that was answered meanwhile is the only operation that was logged. */
  lemma OneEvent(log: seq<Event>, log': seq<Event>, returned: seq<Event>, returned': seq<Event>,
                 calls: seq<Operation>, op: Operation, p: nat)
    requires LoggedOnlyBy(log, log', p) && OperationsOf(log, p) == returned && OperationsOf(log', p) == returned'
    requires Answers(calls + [op], returned', p) && |calls| == |returned| && |calls| + 1 == |returned'|
    ensures exists e :: AnswersCall(op, e, p) && returned' == returned + [e] && log' == log + [e]
  {
    hide OperationsOf, AnswersCall;
    OnlyOwnOperations(log, log', p);
    var e := returned'[|returned|];
    assert (calls + [op])[|returned|] == op && AnswersCall(op, e, p);
    assert log'[|log|..] == [e];
    assert log' == log + log'[|log|..];
  }

  lemma Started(s: State, p: nat, c: Choice)
    requires p < |s.threads| && s.threads[p].pc.Idle? && Step(s, p, c).Ran?
    ensures var s' := Step(s, p, c).state;
            && p < |s'.threads| && !s'.threads[p].pc.Idle? && s'.threads[p].calls == s.threads[p].calls + [c.op]
            && s'.history.log == s.history.log && (c.op.Pop? && HasSlot(s, p) ==> Unblocked(s', p))
            && (c.op.Pop? ==> s'.threads[p].pc.PopLoad?)
            && (c.op.Push? ==> s'.threads[p].pc.PushLoad? && Unblocked(s', p))
  {
  }

  lemma RunFirst(s: State, p: nat, c: Choice, n: nat, s': State)
    requires n > 0 && Step(s, p, c).Ran? && Run(Step(s, p, c).state, Alone(p, c, n - 1)) == Ran(s')
    ensures Run(s, Alone(p, c, n)) == Ran(s')
  {
    hide Step;
    assert Alone(p, c, n)[1..] == Alone(p, c, n - 1) && Alone(p, c, n)[0] == (p, c);
  }

  lemma {:induction false} ReachRun(s: State, schedule: Schedule)
    requires Reachable(s) && Run(s, schedule).Ran?
    ensures Reachable(Run(s, schedule).state)
    decreases |schedule|
  {
    hide Step, Reachable;
    if schedule != [] {
      var (q, c) := schedule[0];
      if Step(s, q, c).Ran? {
        ReachStep(s, q, c);
      }
      ReachRun(After(s, q, c), schedule[1..]);
    }
  }

  /** A pop that moves alone returns within 109 steps what is on top of the stack: registration,
      a scan of all hazard slots and the sweep of a full retire list included. */
  lemma PopReturns(s: State, p: nat, c: Choice) returns (n: nat, s': State)
    requires Reachable(s) && p < |s.threads| && s.threads[p].pc.Idle? && HasSlot(s, p)
    requires c.op.Pop? && !c.spurious
    ensures n <= 109 && Run(s, Alone(p, c, n)) == Ran(s') && Reachable(s')
    ensures |s'.threads| == |s.threads| && s'.threads[p].pc.Idle?
    ensures forall q :: 0 <= q < |s.threads| && q != p ==> s'.threads[q] == s.threads[q]
    ensures var e := Popped(p, Top(Replay(s.history.log)));
            && s'.threads[p].returned == s.threads[p].returned + [e] && s'.history.log == s.history.log + [e]
  {
    hide Reachable, Inv, Run, Replay, OperationsOf, Left, ListHolds, Answers;
    assert Step(s, p, c).Ran?;
    Started(s, p, c);
    ReachableInv(s);
    StepIsSafe(s, p, c);
    LeftIsBounded(Step(s, p, c).state, p);
    n, s' := OperationAlone(s, p, c);
    Linearizable(s');
    var k := |s.history.log|;
    assert s'.history.log[..k] == s.history.log;
    assert s'.history.log[k].Popped?;
  }

  /** A push that moves alone returns after three steps, with its argument on the stack. */
  lemma PushReturns(s: State, p: nat, c: Choice) returns (n: nat, s': State)
    requires Reachable(s) && p < |s.threads| && s.threads[p].pc.Idle?
    requires c.op.Push? && !c.spurious && c.unused != NULL && c.unused !in s.heap
    ensures n <= 3 && Run(s, Alone(p, c, n)) == Ran(s') && Reachable(s')
    ensures |s'.threads| == |s.threads| && s'.threads[p].pc.Idle?
    ensures forall q :: 0 <= q < |s.threads| && q != p ==> s'.threads[q] == s.threads[q]
    ensures var e := Pushed(p, c.op.value);
            && s'.threads[p].returned == s.threads[p].returned + [e] && s'.history.log == s.history.log + [e]
  {
    hide Reachable, Inv, Run;
    assert Step(s, p, c).Ran?;
    Started(s, p, c);
    n, s' := OperationAlone(s, p, c);
  }
}
