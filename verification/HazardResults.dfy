module HazardResults {
  // Memory safety, linearizability, conservation and bounded garbage of the hazard-pointer stack.

  import opened Counting
  import opened HazardCalls
  import opened HazardInvariant
  import opened HazardPointer
  import opened Options

  // ---------- Main results ----------

  lemma StepIsSafe(s: State, p: nat, c: Choice)
    requires Inv(s)
    ensures Safe(Step(s, p, c))
  {
    hide Inv, ThreadOk, SharedOk, Start, DoPushLoad, DoPushCas, DoPopLoad, DoPopRegister, DoPublish, DoPopValidate,
      DoPopNext, DoPopCas, DoPopTake, DoRetire, DoScanSlot, DoSweep;
    if p < |s.threads| {
      match s.threads[p].pc
      case Idle => if c.op.Push? { StartPushKeeps(s, p, c); } else { StartPopKeeps(s, p, c); }
      case PushLoad(_, _) => PushLoadKeeps(s, p);
      case PushCas(_, _) => PushCasKeeps(s, p, c.spurious);
      case PopLoad => if s.head == NULL { PopEmptyKeeps(s, p); } else { PopLoadKeeps(s, p); }
      case PopRegister(top) => RegisterIsSafe(s, p);
      case PopPublish(top) => PopPublishKeeps(s, p);
      case PopValidate(top) => PopValidateKeeps(s, p);
      case PopRetract => PopRetractKeeps(s, p);
      case PopNext(top, seen) => PopNextKeeps(s, p);
      case PopCas(top, next, _) => PopCasKeeps(s, p, c.spurious);
      case PopRelease(top) => PopReleaseKeeps(s, p);
      case PopTake(top) => PopTakeKeeps(s, p);
      case Retire(top, v) => RetireKeeps(s, p);
      case ScanCount(v) => ScanCountKeeps(s, p);
      case ScanSlot(v, n, i, hazards) => ScanSlotKeeps(s, p);
      case Sweep(v, hazards, j, kept) => SweepKeeps(s, p);
    }
  }

  lemma RegisterIsSafe(s: State, p: nat)
    requires p < |s.threads| && s.threads[p].pc.PopRegister? && Inv(s)
    ensures Safe(DoPopRegister(s, p, s.threads[p].pc.top))
  {
    hide Inv, ThreadOk, SharedOk;
    if s.count < MAX_THREADS {
      PopRegisterKeeps(s, p);
    }
  }

  lemma {:induction false} RunKeepsInv(s: State, schedule: Schedule)
    requires Inv(s)
    ensures Run(s, schedule).Ran? && Inv(Run(s, schedule).state)
    decreases |schedule|
  {
    hide Inv, Step;
    if schedule != [] {
      StepIsSafe(s, schedule[0].0, schedule[0].1);
      var o := Step(s, schedule[0].0, schedule[0].1);
      RunKeepsInv(if o.Ran? then o.state else s, schedule[1..]);
    }
  }

  /** Memory safety: whatever the threads do and however they interleave, no freed node is
      touched and none is freed twice. */
  lemma NoRunFaults(threads: nat, schedule: Schedule)
    ensures !Run(Init(threads), schedule).UseAfterFree? && !Run(Init(threads), schedule).DoubleFree?
  {
    InitInv(threads);
    RunKeepsInv(Init(threads), schedule);
  }

  ghost predicate Reachable(s: State) {
    exists threads: nat, schedule: Schedule :: Run(Init(threads), schedule) == Ran(s)
  }

  lemma ReachableInv(s: State)
    requires Reachable(s)
    ensures Inv(s) && AllCallsOk(s)
  {
    hide Inv, Run, CallsOk;
    var threads: nat, schedule: Schedule :| Run(Init(threads), schedule) == Ran(s);
    InitInv(threads);
    RunKeepsInv(Init(threads), schedule);
    NothingCalled(threads);
    RunKeepsCalls(Init(threads), schedule);
  }

  lemma NothingCalled(threads: nat)
    ensures AllCallsOk(Init(threads))
  {
  }

  // ---------- Nodes keep their identity ----------

  /** A thread that may touch the node, from the allocation of the node up to the exchange
      that links it, or from its revalidation up to its retirement. */
  predicate Uses(t: Thread, a: Addr) {
    || IsPushing(t.pc, a)
    || ((IsProtecting(t.pc) || t.pc.PopRelease? || t.pc.PopTake? || t.pc.Retire?) && t.pc.top == a)
  }

  /** A node in use is allocated, and it is its user's own unless the use is a protected one. */
  lemma UsedIsAllocated(s: State, p: nat, a: Addr)
    requires Inv(s) && p < |s.threads| && Uses(s.threads[p], a)
    ensures a in s.heap && a in s.history.owner
    ensures IsProtecting(s.threads[p].pc) || s.history.owner[a] == Private(p) || s.history.owner[a] == Held(p)
  {
    hide Replay, OperationsOf, LogOk, IsChain, OwnersOk, Covered, RetireBound, Reports, SightingHolds;
    assert ThreadOk(s, p);
    if !IsPushing(s.threads[p].pc, a) && !IsProtecting(s.threads[p].pc) {
      assert a in HeldBy(s.threads[p]);
    }
  }

  /** Only the thread that has popped a node frees it, and nobody takes it away from there. */
  lemma OnlyHolderFrees(s: State, q: nat, c: Choice, a: Addr)
    requires Inv(s) && Step(s, q, c).Ran? && a in s.heap
    ensures a !in Step(s, q, c).state.heap ==> Frees(s, q) && a == s.threads[q].retired[s.threads[q].pc.j]
    ensures a !in Step(s, q, c).state.heap ==> a in s.history.owner && s.history.owner[a] == Held(q)
    ensures a in Step(s, q, c).state.heap ==> Step(s, q, c).state.heap[a].value == s.heap[a].value
  {
    hide Replay, OperationsOf, LogOk, IsChain, OwnersOk, ThreadOk;
    if Frees(s, q) {
      assert ThreadOk(s, q);
      FreedOwner(s, q);
    }
  }

  /** No step frees a node that some thread uses. */
  lemma UsedStays(s: State, p: nat, a: Addr, q: nat, c: Choice)
    requires Inv(s) && p < |s.threads| && Uses(s.threads[p], a) && Step(s, q, c).Ran?
    ensures a in s.heap && a in Step(s, q, c).state.heap
    ensures Step(s, q, c).state.heap[a].value == s.heap[a].value
  {
    UsedIsAllocated(s, p, a);
    OnlyHolderFrees(s, q, c, a);
    if a !in Step(s, q, c).state.heap {
      FreedOther(s, q, p);
      hide Step, Replay, OperationsOf, LogOk, IsChain, OwnersOk, Owns, Covered, Reports, SightingHolds;
    }
  }

  /** The state after a move; a blocked one changes nothing. */
  function After(s: State, p: nat, c: Choice): State {
    var o := Step(s, p, c);
    if o.Ran? then o.state else s
  }

  ghost predicate UsesThroughout(s: State, p: nat, a: Addr, schedule: Schedule)
    decreases |schedule|
  {
    && p < |s.threads| && Uses(s.threads[p], a)
    && (schedule != [] ==> UsesThroughout(After(s, schedule[0].0, schedule[0].1), p, a, schedule[1..]))
  }

  /** The address is allocated, for that value, at the start, at the end and all the while.
      As a step never both frees and allocates, this is one node and not two in turn. */
  ghost predicate StaysAllocated(s: State, a: Addr, v: Value, schedule: Schedule)
    decreases |schedule|
  {
    && a in s.heap && s.heap[a].value == v
    && (schedule != [] ==> StaysAllocated(After(s, schedule[0].0, schedule[0].1), a, v, schedule[1..]))
  }

  /** While a thread uses a node, the node is not freed, so that its address cannot come to
      stand for another node. */
  lemma {:induction false} UsedNodeIsNeverFreed(s: State, p: nat, a: Addr, schedule: Schedule)
    requires Inv(s) && UsesThroughout(s, p, a, schedule)
    ensures a in s.heap && StaysAllocated(s, a, s.heap[a].value, schedule)
    decreases |schedule|
  {
    hide Inv, Step, Uses;
    UsedIsAllocated(s, p, a);
    if schedule != [] {
      var (q, c) := schedule[0];
      StepIsSafe(s, q, c);
      if Step(s, q, c).Ran? {
        UsedStays(s, p, a, q, c);
      }
      UsedNodeIsNeverFreed(After(s, q, c), p, a, schedule[1..]);
    }
  }

  /** The values a walk from `head_` would meet. */
  ghost predicate ListHolds(head: Addr, heap: map<Addr, Node>, values: seq<Value>)
    decreases |values|
  {
    if values == [] then head == NULL
    else head != NULL && head in heap && heap[head].value == values[0] && ListHolds(heap[head].next, heap, values[1..])
  }

  lemma {:induction false} ChainHolds(head: Addr, heap: map<Addr, Node>, stack: seq<Addr>, values: seq<Value>)
    requires IsChain(head, heap, stack) && NULL !in heap && |values| == |stack|
    requires forall i :: 0 <= i < |stack| ==> stack[i] in heap && values[i] == heap[stack[i]].value
    ensures ListHolds(head, heap, values)
    decreases |stack|
  {
    if stack != [] {
      ChainHolds(heap[head].next, heap, stack[1..], values[1..]);
    }
  }

  /** Linearizability. The log is a history of a sequential stack that leaves exactly the
      values now linked from `head_`. A thread's part of it answers its calls in order, a
      push with the argument of the call, and what the thread was told is this part, except
      that at most its last operation has taken effect before it is reported. */
  lemma Linearizable(s: State)
    requires Reachable(s)
    ensures LegalStackHistory(s.history.log)
    ensures ListHolds(s.head, s.heap, Replay(s.history.log))
    ensures forall p :: 0 <= p < |s.threads| ==>
              && Answers(s.threads[p].calls, OperationsOf(s.history.log, p), p)
              && s.threads[p].returned <= OperationsOf(s.history.log, p)
              && |s.threads[p].calls| <= |s.threads[p].returned| + 1
    ensures forall p :: 0 <= p < |s.threads| && s.threads[p].pc.Idle? ==>
              && OperationsOf(s.history.log, p) == s.threads[p].returned
              && |s.threads[p].calls| == |s.threads[p].returned|
  {
    ReachableInv(s);
    LinearizableNow(s);
  }

  lemma LinearizableNow(s: State)
    requires Inv(s) && AllCallsOk(s)
    ensures LegalStackHistory(s.history.log)
    ensures ListHolds(s.head, s.heap, Replay(s.history.log))
    ensures forall p :: 0 <= p < |s.threads| ==>
              && Answers(s.threads[p].calls, OperationsOf(s.history.log, p), p)
              && s.threads[p].returned <= OperationsOf(s.history.log, p)
              && |s.threads[p].calls| <= |s.threads[p].returned| + 1
    ensures forall p :: 0 <= p < |s.threads| && s.threads[p].pc.Idle? ==>
              && OperationsOf(s.history.log, p) == s.threads[p].returned
              && |s.threads[p].calls| == |s.threads[p].returned|
  {
    hide Replay, OperationsOf, Owns, Protects, Covered, RetireBound, OwnersOk, LegalStackHistory, Answers;
    ChainHolds(s.head, s.heap, s.history.stack, Replay(s.history.log));
    forall p | 0 <= p < |s.threads|
      ensures OperationsOf(s.history.log, p) == s.threads[p].returned + Pending(p, s.threads[p], s.heap)
      ensures CallsOk(s.threads[p], p)
      ensures Answers(s.threads[p].calls, OperationsOf(s.history.log, p), p)
    {
      assert ThreadOk(s, p);
      PendingAnswers(p, s.threads[p], s.heap);
    }
  }

  /** Operations are never reordered later: the log only grows, so an operation that
      returned before another started also precedes it in the log. */
  lemma {:induction false} LogGrows(s: State, schedule: Schedule)
    requires Run(s, schedule).Ran?
    ensures s.history.log <= Run(s, schedule).state.history.log
    decreases |schedule|
  {
    if schedule != [] {
      var o := Step(s, schedule[0].0, schedule[0].1);
      hide Step;
      if o.Ran? {
        StepLog(s, schedule[0].0, schedule[0].1);
        LogGrows(o.state, schedule[1..]);
      } else {
        assert o.Blocked?;
        LogGrows(s, schedule[1..]);
      }
    }
  }

  /** Real-time order. When a thread is idle, the operations it has reported are all that it
      has in the log; whatever it does later is logged behind that point. What any thread
      has reported by then stands before it. */
  lemma RealTimeOrder(s: State, p: nat, schedule: Schedule)
    requires Reachable(s) && p < |s.threads| && s.threads[p].pc.Idle?
    ensures Run(s, schedule).Ran?
    ensures var log, now := Run(s, schedule).state.history.log, |s.history.log|;
            && now <= |log| && OperationsOf(log[..now], p) == s.threads[p].returned
            && forall q :: 0 <= q < |s.threads| ==> s.threads[q].returned <= OperationsOf(log[..now], q)
  {
    ReachableInv(s);
    Linearizable(s);
    hide Reachable, Inv, OperationsOf, LegalStackHistory;
    RunKeepsInv(s, schedule);
    LogGrows(s, schedule);
    var log := Run(s, schedule).state.history.log;
    assert log[..|s.history.log|] == s.history.log;
  }

  /** A step logs at most one operation, and that operation is by the thread that moved. */
  lemma StepLog(s: State, p: nat, c: Choice)
    requires Step(s, p, c).Ran?
    ensures var log, log' := s.history.log, Step(s, p, c).state.history.log;
            log' == log || exists e :: log' == log + [e] && e.thread == p
  {
  }

  lemma LegalBefore(log: seq<Event>)
    requires log != [] && LegalStackHistory(log)
    ensures var before, last := log[..|log| - 1], log[|log| - 1];
            && LegalStackHistory(before) && log == before + [last]
            && (last.Popped? ==> last.result == Top(Replay(before)))
  {
    hide Replay;
    var before := log[..|log| - 1];
    forall i | 0 <= i < |before|
      ensures log[..i] == before[..i] && log[i] == before[i]
    {
    }
  }

  lemma NothingLogged()
    ensures ValuesPushed([]) == ValuesPopped([]) == multiset{} && Replay([]) == []
  {
  }

  lemma {:induction false} LegalConserves(log: seq<Event>)
    requires LegalStackHistory(log)
    ensures ValuesPushed(log) == ValuesPopped(log) + multiset(Replay(log))
    decreases |log|
  {
    hide Replay, LegalStackHistory, ValuesPushed, ValuesPopped;
    if log == [] {
      NothingLogged();
    } else {
      var before, last := log[..|log| - 1], log[|log| - 1];
      LegalBefore(log);
      LegalConserves(before);
      LogStep(before, last);
      ValuesStep(before, last);
      if Replay(before) != [] {
        FirstAndRest(Replay(before));
      }
    }
  }

  lemma FirstAndRest(values: seq<Value>)
    requires values != []
    ensures multiset(values) == multiset{values[0]} + multiset(values[1..])
  {
    assert values == [values[0]] + values[1..];
  }

  /** The arguments of all pushes that the threads were asked for. */
  function AllPushed(threads: seq<Thread>): multiset<Value> {
    if threads == [] then multiset{}
    else AllPushed(threads[..|threads| - 1]) + Arguments(threads[|threads| - 1].calls)
  }

  /** The results of all their pops. */
  function AllPopped(threads: seq<Thread>): multiset<Value> {
    if threads == [] then multiset{}
    else AllPopped(threads[..|threads| - 1]) + ValuesPopped(threads[|threads| - 1].returned)
  }

  /** The values the first `n` threads pushed, according to `log`. */
  function PushedBelow(log: seq<Event>, n: nat): multiset<Value> {
    if n == 0 then multiset{} else PushedBelow(log, n - 1) + ValuesPushed(OperationsOf(log, n - 1))
  }

  function PoppedBelow(log: seq<Event>, n: nat): multiset<Value> {
    if n == 0 then multiset{} else PoppedBelow(log, n - 1) + ValuesPopped(OperationsOf(log, n - 1))
  }

  function Given(e: Event): multiset<Value> {
    if e.Pushed? then multiset{e.value} else multiset{}
  }

  function Taken(e: Event): multiset<Value> {
    if e.Popped? && e.result.Some? then multiset{e.result.value} else multiset{}
  }

  lemma ValuesStep(log: seq<Event>, e: Event)
    ensures ValuesPushed(log + [e]) == ValuesPushed(log) + Given(e)
    ensures ValuesPopped(log + [e]) == ValuesPopped(log) + Taken(e)
  {
    assert (log + [e])[..|log|] == log;
  }

  lemma Regroup(a: multiset<Value>, x: multiset<Value>, b: multiset<Value>, y: multiset<Value>)
    ensures (a + x) + (b + y) == (a + b) + (x + y)
    ensures x + multiset{} == x == multiset{} + x && b + multiset{} == b
  {
  }

  lemma {:induction false} PushedBelowStep(log: seq<Event>, log': seq<Event>, e: Event, n: nat)
    requires forall q :: OperationsOf(log', q) == OperationsOf(log, q) + (if q == e.thread then [e] else [])
    ensures PushedBelow(log', n) == PushedBelow(log, n) + (if e.thread < n then Given(e) else multiset{})
    decreases n
  {
    hide OperationsOf, ValuesPushed, Given;
    if n > 0 {
      PushedBelowStep(log, log', e, n - 1);
      var below, ours := PushedBelow(log, n - 1), OperationsOf(log, n - 1);
      if e.thread == n - 1 {
        ValuesStep(ours, e);
        Regroup(below, multiset{}, ValuesPushed(ours), Given(e));
      } else {
        assert ours + [] == ours;
        Regroup(below, if e.thread < n - 1 then Given(e) else multiset{}, ValuesPushed(ours), multiset{});
      }
    }
  }

  lemma {:induction false} PoppedBelowStep(log: seq<Event>, log': seq<Event>, e: Event, n: nat)
    requires forall q :: OperationsOf(log', q) == OperationsOf(log, q) + (if q == e.thread then [e] else [])
    ensures PoppedBelow(log', n) == PoppedBelow(log, n) + (if e.thread < n then Taken(e) else multiset{})
    decreases n
  {
    hide OperationsOf, ValuesPopped, Taken;
    if n > 0 {
      PoppedBelowStep(log, log', e, n - 1);
      var below, ours := PoppedBelow(log, n - 1), OperationsOf(log, n - 1);
      if e.thread == n - 1 {
        ValuesStep(ours, e);
        Regroup(below, multiset{}, ValuesPopped(ours), Taken(e));
      } else {
        assert ours + [] == ours;
        Regroup(below, if e.thread < n - 1 then Taken(e) else multiset{}, ValuesPopped(ours), multiset{});
      }
    }
  }

  lemma {:induction false} BelowNothing(n: nat)
    ensures PushedBelow([], n) == multiset{} == PoppedBelow([], n)
  {
    if n > 0 {
      BelowNothing(n - 1);
    }
  }

  /** Every operation in the log is some thread's. */
  lemma {:induction false} BelowAll(log: seq<Event>, n: nat)
    requires LoggedBy(log, n)
    ensures PushedBelow(log, n) == ValuesPushed(log) && PoppedBelow(log, n) == ValuesPopped(log)
    decreases |log|
  {
    if log == [] {
      BelowNothing(n);
    } else {
      var before, last := log[..|log| - 1], log[|log| - 1];
      assert log == before + [last];
      forall q: nat
        ensures OperationsOf(log, q) == OperationsOf(before, q) + (if q == last.thread then [last] else [])
      {
      }
      BelowAll(before, n);
      PushedBelowStep(before, log, last, n);
      PoppedBelowStep(before, log, last, n);
    }
  }

  lemma {:induction false} ReturnedIsLogged(threads: seq<Thread>, log: seq<Event>)
    requires forall p :: 0 <= p < |threads| ==>
               && threads[p].returned == OperationsOf(log, p)
               && Answers(threads[p].calls, threads[p].returned, p) && |threads[p].calls| == |threads[p].returned|
    ensures AllPushed(threads) == PushedBelow(log, |threads|) && AllPopped(threads) == PoppedBelow(log, |threads|)
    decreases |threads|
  {
    if threads != [] {
      var n := |threads| - 1;
      ReturnedIsLogged(threads[..n], log);
      ArgumentsArePushed(threads[n].calls, threads[n].returned, n);
    }
  }

  /** Conservation, as the callers see it: once every thread is idle, the arguments of all
      pushes are the results of all pops and the values still linked from `head_`. */
  lemma Conserved(s: State)
    requires Reachable(s) && (forall p :: 0 <= p < |s.threads| ==> s.threads[p].pc.Idle?)
    ensures ListHolds(s.head, s.heap, Replay(s.history.log))
    ensures AllPushed(s.threads) == AllPopped(s.threads) + multiset(Replay(s.history.log))
  {
    Linearizable(s);
    assert LoggedBy(s.history.log, |s.threads|) by {
      hide Replay, OperationsOf, ThreadOk, IsChain, OwnersOk, LogOk, LoggedBy, Reachable;
      ReachableInv(s);
    }
    hide Reachable, Replay, OperationsOf, LegalStackHistory;
    LegalConserves(s.history.log);
    BelowAll(s.history.log, |s.threads|);
    ReturnedIsLogged(s.threads, s.history.log);
  }

  /** What a successful pop relies on. Between revalidation and the compare-exchange other
      threads may have pushed and popped, but the stack is again exactly the one that was
      revalidated: the node never left it, and its successor is the one that was read. */
  lemma CasFindsRevalidatedStack(s: State, p: nat, spurious: bool)
    requires Reachable(s) && p < |s.threads| && s.threads[p].pc.PopCas?
    requires CasSucceeds(s, s.threads[p].pc.top, spurious)
    ensures var pc := s.threads[p].pc;
            && s.history.stack == pc.seen.stack && s.history.stack != [] && s.history.stack[0] == pc.top
            && pc.top in s.heap && s.heap[pc.top].next == pc.next
  {
    ReachableInv(s);
    SuccessfulCas(s, p);
  }

  /** The head need not have stayed at the node throughout. It did exactly when no push
      took effect in between. */
  lemma HeadStayedIffNoPush(s: State, p: nat, spurious: bool)
    requires Reachable(s) && p < |s.threads| && s.threads[p].pc.PopCas?
    requires CasSucceeds(s, s.threads[p].pc.top, spurious)
    ensures var pc := s.threads[p].pc;
            (forall i :: pc.seen.heads <= i < |s.history.heads| ==> s.history.heads[i] == pc.top)
            <==> s.history.pushes == pc.seen.pushes
  {
    ReachableInv(s);
    SuccessfulCas(s, p);
  }

  lemma SuccessfulCas(s: State, p: nat)
    requires Inv(s) && p < |s.threads| && s.threads[p].pc.PopCas? && s.head == s.threads[p].pc.top
    ensures var pc := s.threads[p].pc;
            && s.history.stack == pc.seen.stack && pc.seen.stack != [] && pc.seen.stack[0] == pc.top
            && pc.top in s.heap && s.heap[pc.top].next == pc.next
            && ((forall i :: pc.seen.heads <= i < |s.history.heads| ==> s.history.heads[i] == pc.top)
                <==> s.history.pushes == pc.seen.pushes)
  {
    hide Replay, OperationsOf, LogOk, Owns, OwnersOk, Covered, Reports;
    assert ThreadOk(s, p);
    assert SightingHolds(s.history, s.threads[p].pc.top, s.threads[p].pc.seen);
    UnlinkedChain(s, p);
    UnlinkedTop(s, p);
    var stack, seen := s.history.stack, s.threads[p].pc.seen;
    assert stack[|stack| - |seen.stack|] == seen.stack[0];
    assert Distinct(stack);
    assert |stack| == |seen.stack|;
  }

  // ---------- How much memory waits to be reclaimed ----------

  /** The nodes thread `t` has allocated and not pushed yet, or popped and not freed yet. */
  function Mine(t: Thread): set<Addr> {
    HeldBy(t) + (if t.pc.PushLoad? || t.pc.PushCas? then {t.pc.node} else {})
  }

  lemma SweepIsSmall(kept: seq<Addr>, retired: seq<Addr>, j: nat)
    requires j <= |retired| && Members(kept) <= Members(retired[..j])
    ensures |Members(kept) + Members(retired[j..])| <= |Members(retired)|
  {
    forall a | a in Members(kept) + Members(retired[j..])
      ensures a in Members(retired)
    {
      assert a in retired[..j] || a in retired[j..];
    }
    SubsetSize(Members(kept) + Members(retired[j..]), Members(retired));
  }

  lemma MineIsSmall(p: nat, t: Thread, owner: map<Addr, Owner>, count: nat)
    requires Owns(p, t, owner) && RetireBound(t, count)
    ensures |Mine(t)| <= RETIRE_THRESHOLD
  {
    MembersSize(t.retired);
    if t.pc.Sweep? {
      SweepIsSmall(t.pc.kept, t.retired, t.pc.j);
    } else if t.pc.PopRelease? || t.pc.PopTake? || t.pc.Retire? {
      assert Mine(t) == Members(t.retired) + {t.pc.top};
    } else if t.pc.PushLoad? || t.pc.PushCas? {
      assert Mine(t) == Members(t.retired) + {t.pc.node};
    } else {
      assert Mine(t) == Members(t.retired);
    }
  }

  function MineBelow(threads: seq<Thread>): set<Addr> {
    if threads == [] then {} else MineBelow(threads[..|threads| - 1]) + Mine(threads[|threads| - 1])
  }

  lemma {:induction false} MineBelowIsSmall(threads: seq<Thread>)
    requires forall p :: 0 <= p < |threads| ==> |Mine(threads[p])| <= RETIRE_THRESHOLD
    ensures |MineBelow(threads)| <= RETIRE_THRESHOLD * |threads|
    ensures forall p :: 0 <= p < |threads| ==> Mine(threads[p]) <= MineBelow(threads)
    decreases |threads|
  {
    hide Mine;
    if threads != [] {
      MineBelowIsSmall(threads[..|threads| - 1]);
    }
  }

  /** Every thread delays the release of at most RETIRE_THRESHOLD nodes: allocated memory
      never exceeds the live elements by more than that. */
  lemma GarbageIsBounded(s: State)
    requires Reachable(s)
    ensures |s.heap| <= |Replay(s.history.log)| + RETIRE_THRESHOLD * |s.threads|
  {
    ReachableInv(s);
    hide Replay, OperationsOf, LegalStackHistory, Protects, Covered, Reports, Registered, Reachable, LoggedBy;
    var h := s.history;
    forall p | 0 <= p < |s.threads|
      ensures |Mine(s.threads[p])| <= RETIRE_THRESHOLD
    {
      assert ThreadOk(s, p);
      MineIsSmall(p, s.threads[p], h.owner, s.count);
    }
    MineBelowIsSmall(s.threads);
    forall a | a in s.heap
      ensures a in Members(h.stack) + MineBelow(s.threads)
    {
      EveryNodeIsOwned(s, a);
    }
    MembersSize(h.stack);
    SubsetSize(s.heap.Keys, Members(h.stack) + MineBelow(s.threads));
  }

  lemma EveryNodeIsOwned(s: State, a: Addr)
    requires Inv(s) && a in s.heap
    ensures a in s.history.stack || exists p :: 0 <= p < |s.threads| && a in Mine(s.threads[p])
  {
    hide Replay, OperationsOf, LogOk, IsChain, Protects, Covered, Reports, Registered, RetireBound, LoggedBy;
    var o := s.history.owner[a];
    if o != InStack {
      assert ThreadOk(s, o.p);
      assert a in Mine(s.threads[o.p]);
    }
  }

  // ---------- A run in which the head leaves the node and comes back ----------

  lemma {:induction false} RunAppend(s: State, schedule: Schedule, move: (nat, Choice))
    requires Run(s, schedule).Ran?
    ensures Run(s, schedule + [move]) ==
            match Step(Run(s, schedule).state, move.0, move.1)
            case Ran(s') => Ran(s')
            case Blocked => Run(s, schedule)
            case fault => fault
    decreases |schedule|
  {
    hide Step;
    if schedule == [] {
      assert schedule + [move] == [move];
      assert [move][1..] == [];
    } else {
      assert (schedule + [move])[1..] == schedule[1..] + [move];
      var o := Step(s, schedule[0].0, schedule[0].1);
      RunAppend(if o.Ran? then o.state else s, schedule[1..], move);
    }
  }

  lemma ReachStep(s: State, p: nat, c: Choice)
    requires Reachable(s) && Step(s, p, c).Ran?
    ensures Reachable(Step(s, p, c).state)
  {
    hide Step, Run;
    var threads: nat, schedule: Schedule :| Run(Init(threads), schedule) == Ran(s);
    RunAppend(Init(threads), schedule, (p, c));
    assert Run(Init(threads), schedule + [(p, c)]) == Step(s, p, c);
  }

  /** A push that runs alone takes effect. */
  lemma PushAlone(s: State, p: nat, a: Addr, v: Value) returns (s': State)
    requires Reachable(s) && p < |s.threads| && s.threads[p].pc.Idle? && a != NULL && a !in s.heap
    ensures Reachable(s') && s'.head == a && s'.history.heads == s.history.heads + [a] && s'.count == s.count
    ensures s'.heap == s.heap[a := Node(v, s.head)]
    ensures |s'.threads| == |s.threads| && s'.threads[p].pc.Idle? && s'.threads[p].slot == s.threads[p].slot
    ensures forall q :: 0 <= q < |s.threads| && q != p ==> s'.threads[q] == s.threads[q]
  {
    var c := Choice(Push(v), a, false);
    hide Reachable;
    ReachStep(s, p, c);
    var s1 := Step(s, p, c).state;
    ReachStep(s1, p, c);
    var s2 := Step(s1, p, c).state;
    ReachStep(s2, p, c);
    s' := Step(s2, p, c).state;
  }

  /** A pop that runs alone gets to its compare-exchange. */
  lemma PopAlone(s: State, p: nat, c: Choice) returns (s': State)
    requires Reachable(s) && p < |s.threads| && s.threads[p].pc.Idle? && s.threads[p].slot == -1
    requires s.head in s.heap && s.head != NULL && s.count < MAX_THREADS && c == Choice(Pop, NULL, false)
    ensures Reachable(s') && s'.head == s.head && s'.heap == s.heap && s'.count == s.count + 1
    ensures s'.history.heads == s.history.heads
    ensures |s'.threads| == |s.threads| && s'.threads[p].pc.PopCas? && s'.threads[p].pc.top == s.head
    ensures s'.threads[p].pc.next == s.heap[s.head].next && s'.threads[p].pc.seen.heads == |s.history.heads|
    ensures forall q :: 0 <= q < |s.threads| && q != p ==> s'.threads[q] == s.threads[q]
  {
    hide Reachable;
    ReachStep(s, p, c);
    var s1 := Step(s, p, c).state;
    ReachStep(s1, p, c);
    var s2 := Step(s1, p, c).state;
    ReachStep(s2, p, c);
    var s3 := Step(s2, p, c).state;
    ReachStep(s3, p, c);
    var s4 := Step(s3, p, c).state;
    ReachStep(s4, p, c);
    var s5 := Step(s4, p, c).state;
    ReachStep(s5, p, c);
    s' := Step(s5, p, c).state;
  }

  /** Thread 0 revalidates node 1; thread 1 pushes node 2 and pops it again; then the
      compare-exchange of thread 0 succeeds although the head was not node 1 throughout. */
  lemma HeadMayLeaveAndReturn(v: Value, w: Value)
    ensures exists s: State ::
              && Reachable(s) && |s.threads| == 2 && s.threads[0].pc.PopCas?
              && CasSucceeds(s, s.threads[0].pc.top, false)
              && exists i :: s.threads[0].pc.seen.heads <= i < |s.history.heads| &&
                    s.history.heads[i] != s.threads[0].pc.top
  {
    var s0 := Init(2);
    assert Reachable(s0) by { assert Run(Init(2), []) == Ran(s0); }
    hide Reachable;
    var s1 := PushAlone(s0, 0, 1, v);
    var c := Choice(Pop, NULL, false);
    var s2 := PopAlone(s1, 0, c);
    var s3 := PushAlone(s2, 1, 2, w);
    var s4 := PopAlone(s3, 1, c);
    ReachStep(s4, 1, c);
    var s5 := Step(s4, 1, c).state;
    assert s5.threads[0] == s2.threads[0];
    assert s5.history.heads[|s2.history.heads|] == 2;
  }

  // ---------- The destructor ----------

  /** The destructor, after all threads have finished. Every node it deletes is allocated,
      and what it leaves allocated is exactly what the retire lists still hold. */
  method Destroy(s: State) returns (heap: map<Addr, Node>)
    requires Reachable(s) && forall p :: 0 <= p < |s.threads| ==> s.threads[p].pc.Idle?
    ensures forall a :: a in heap <==> exists p :: 0 <= p < |s.threads| && a in s.threads[p].retired
    ensures forall a :: a in heap ==> a in s.heap && heap[a] == s.heap[a]
  {
    hide Inv, Reachable, HeldBy, OwnersOk;
    StackIsAllocated(s);
    heap := s.heap;
    var n := s.head;
    ghost var i := 0;
    ghost var stack := s.history.stack;
    ghost var held := s.heap.Keys - Members(stack);
    while n != NULL
      invariant 0 <= i <= |stack| && n == At(stack, i)
      invariant IsChain(s.head, s.heap, stack) && NULL !in s.heap
      invariant heap.Keys == held + Members(stack[i..]) && held !! Members(stack)
      invariant forall a :: a in heap ==> a in s.heap && heap[a] == s.heap[a]
      decreases |stack| - i
    {
      assert n == stack[i] && stack[i] in Members(stack[i..]);
      assert n in heap;
      var next := heap[n].next;
      SplitAt(stack, i);
      assert stack[i] !in Members(stack[i + 1..]);
      heap := heap - {n};
      n := next;
      i := i + 1;
    }
    QuiescentHeld(s);
  }

  lemma StackIsAllocated(s: State)
    requires Reachable(s)
    ensures IsChain(s.head, s.heap, s.history.stack) && NULL !in s.heap
    ensures Members(s.history.stack) <= s.heap.Keys
  {
    ReachableInv(s);
    hide Replay, OperationsOf, LogOk, ThreadOk, LoggedBy;
  }

  lemma QuiescentHeld(s: State)
    requires Reachable(s) && forall p :: 0 <= p < |s.threads| ==> s.threads[p].pc.Idle?
    ensures forall a :: a in s.heap && a !in s.history.stack <==>
              exists p :: 0 <= p < |s.threads| && a in s.threads[p].retired
  {
    ReachableInv(s);
    hide Replay, OperationsOf, LogOk, IsChain, Protects, Covered, Reports, Registered, RetireBound, LoggedBy, Reachable;
    forall a | a in s.heap && a !in s.history.stack
      ensures exists p :: 0 <= p < |s.threads| && a in s.threads[p].retired
    {
      EveryNodeIsOwned(s, a);
    }
    forall p, a | 0 <= p < |s.threads| && a in s.threads[p].retired
      ensures a in s.heap && a !in s.history.stack
    {
      assert ThreadOk(s, p);
      assert a in HeldBy(s.threads[p]);
    }
  }
}
