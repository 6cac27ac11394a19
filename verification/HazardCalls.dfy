/** What each thread was asked for, and that its reports answer that. */
module HazardCalls {
  import opened HazardInvariant
  import opened HazardPointer
  import opened Options

  /** The event reports the operation: a push with its argument, a pop with some result. */
  predicate AnswersCall(op: Operation, e: Event, p: nat) {
    e.thread == p && match op case Push(v) => e == Pushed(p, v) case Pop => e.Popped?
  }

  ghost predicate Answers(calls: seq<Operation>, events: seq<Event>, p: nat) {
    |events| <= |calls| && forall i :: 0 <= i < |events| ==> AnswersCall(calls[i], events[i], p)
  }

  /** The operation in progress. */
  function Current(pc: PC): Operation {
    if pc.PushLoad? || pc.PushCas? then Push(pc.value) else Pop
  }

  /** A thread has answered all calls but the one in progress. */
  ghost predicate CallsOk(t: Thread, p: nat) {
    && Answers(t.calls, t.returned, p)
    && if t.pc.Idle? then |t.calls| == |t.returned|
       else |t.calls| == |t.returned| + 1 && t.calls[|t.returned|] == Current(t.pc)
  }

  lemma OneMoreAnswer(calls: seq<Operation>, events: seq<Event>, e: Event, p: nat)
    requires Answers(calls, events, p) && |events| < |calls| && AnswersCall(calls[|events|], e, p)
    ensures Answers(calls, events + [e], p)
  {
  }

  lemma OneMoreCall(calls: seq<Operation>, events: seq<Event>, op: Operation, p: nat)
    requires Answers(calls, events, p)
    ensures Answers(calls + [op], events, p)
  {
  }

  /** How a step may change a thread: it is called, it goes on, or it reports. */
  ghost predicate Moves(t: Thread, t': Thread, p: nat) {
    || (t.pc.Idle? && !t'.pc.Idle? && t'.returned == t.returned && t'.calls == t.calls + [Current(t'.pc)])
    || (!t.pc.Idle? && !t'.pc.Idle? && t'.returned == t.returned && t'.calls == t.calls &&
          Current(t'.pc) == Current(t.pc))
    || (!t.pc.Idle? && t'.pc.Idle? && t'.calls == t.calls
        && exists e :: t'.returned == t.returned + [e] && AnswersCall(Current(t.pc), e, p))
  }

  lemma MovesKeepCalls(t: Thread, t': Thread, p: nat)
    requires CallsOk(t, p) && Moves(t, t', p)
    ensures CallsOk(t', p)
  {
    hide Answers;
    if t.pc.Idle? {
      OneMoreCall(t.calls, t.returned, Current(t'.pc), p);
      assert |t.calls| == |t.returned|;
    } else if t'.pc.Idle? {
      var e :| t'.returned == t.returned + [e] && AnswersCall(Current(t.pc), e, p);
      OneMoreAnswer(t.calls, t.returned, e, p);
    }
  }

  lemma StepLeavesOthers(s: State, p: nat, c: Choice)
    requires Step(s, p, c).Ran?
    ensures var s' := Step(s, p, c).state;
            && p < |s.threads| == |s'.threads|
            && forall q :: 0 <= q < |s.threads| && q != p ==> s'.threads[q] == s.threads[q]
  {
  }

  lemma PushMoves(s: State, p: nat, c: Choice)
    requires p < |s.threads| && (s.threads[p].pc.Idle? || s.threads[p].pc.PushLoad? || s.threads[p].pc.PushCas?)
    requires Step(s, p, c).Ran? && p < |Step(s, p, c).state.threads|
    ensures Moves(s.threads[p], Step(s, p, c).state.threads[p], p)
  {
    hide DoPopLoad, DoPopRegister, DoPublish, DoPopValidate, DoPopNext, DoPopCas, DoPopTake, DoRetire, DoScanSlot,
      DoSweep;
    var t, t' := s.threads[p], Step(s, p, c).state.threads[p];
    if t.pc.PushCas? && t'.pc.Idle? {
      assert t'.returned == t.returned + [Pushed(p, t.pc.value)];
    }
  }

  lemma PopMoves(s: State, p: nat, c: Choice)
    requires p < |s.threads| && !s.threads[p].pc.Idle? && !s.threads[p].pc.PushLoad? && !s.threads[p].pc.PushCas?
    requires !s.threads[p].pc.Retire? && !s.threads[p].pc.Sweep?
    requires Step(s, p, c).Ran? && p < |Step(s, p, c).state.threads|
    ensures Moves(s.threads[p], Step(s, p, c).state.threads[p], p)
  {
    hide Start, DoPushLoad, DoPushCas, DoRetire, DoSweep;
    var t, t' := s.threads[p], Step(s, p, c).state.threads[p];
    if t.pc.PopLoad? && t'.pc.Idle? {
      assert t'.returned == t.returned + [Popped(p, None)];
    }
  }

  lemma RetireMoves(s: State, p: nat, c: Choice)
    requires p < |s.threads| && (s.threads[p].pc.Retire? || s.threads[p].pc.Sweep?)
    requires Step(s, p, c).Ran? && p < |Step(s, p, c).state.threads|
    ensures Moves(s.threads[p], Step(s, p, c).state.threads[p], p)
  {
    hide Start, DoPushLoad, DoPushCas, DoPopLoad, DoPopRegister, DoPublish, DoPopValidate, DoPopNext, DoPopCas,
      DoPopTake, DoScanSlot;
    var t, t' := s.threads[p], Step(s, p, c).state.threads[p];
    if t'.pc.Idle? {
      assert t'.returned == t.returned + [Popped(p, Some(t.pc.value))];
    }
  }

  lemma StepMoves(s: State, p: nat, c: Choice)
    requires Step(s, p, c).Ran?
    ensures p < |s.threads| == |Step(s, p, c).state.threads|
    ensures Moves(s.threads[p], Step(s, p, c).state.threads[p], p)
  {
    hide *;
    StepLeavesOthers(s, p, c);
    var pc := s.threads[p].pc;
    if pc.Idle? || pc.PushLoad? || pc.PushCas? {
      PushMoves(s, p, c);
    } else if pc.Retire? || pc.Sweep? {
      RetireMoves(s, p, c);
    } else {
      PopMoves(s, p, c);
    }
  }

  ghost predicate AllCallsOk(s: State) {
    forall p :: 0 <= p < |s.threads| ==> CallsOk(s.threads[p], p)
  }

  lemma {:induction false} RunKeepsCalls(s: State, schedule: Schedule)
    requires AllCallsOk(s) && Run(s, schedule).Ran?
    ensures AllCallsOk(Run(s, schedule).state)
    decreases |schedule|
  {
    hide CallsOk, Step;
    if schedule != [] {
      var (p, c) := schedule[0];
      var o := Step(s, p, c);
      if o.Ran? {
        StepLeavesOthers(s, p, c);
        StepMoves(s, p, c);
        hide Moves;
        forall q | 0 <= q < |s.threads|
          ensures CallsOk(o.state.threads[q], q)
        {
          if q == p {
            MovesKeepCalls(s.threads[p], o.state.threads[p], p);
          }
        }
        RunKeepsCalls(o.state, schedule[1..]);
      } else {
        assert o.Blocked?;
        RunKeepsCalls(s, schedule[1..]);
      }
    }
  }

  /** What has taken effect answers the calls too, also before it is reported. */
  lemma PendingAnswers(p: nat, t: Thread, heap: map<Addr, Node>)
    requires CallsOk(t, p)
    ensures Answers(t.calls, t.returned + Pending(p, t, heap), p)
  {
    hide Answers;
    if Pending(p, t, heap) != [] {
      OneMoreAnswer(t.calls, t.returned, Pending(p, t, heap)[0], p);
      assert t.returned + Pending(p, t, heap) == t.returned + [Pending(p, t, heap)[0]];
    } else {
      assert t.returned + Pending(p, t, heap) == t.returned;
    }
  }

  // ---------- The values of the calls ----------

  /** The arguments of the pushes among the calls. */
  function Arguments(calls: seq<Operation>): multiset<Value> {
    if calls == [] then multiset{}
    else
      var before, last := Arguments(calls[..|calls| - 1]), calls[|calls| - 1];
      if last.Push? then before + multiset{last.value} else before
  }

  lemma {:induction false} ArgumentsArePushed(calls: seq<Operation>, events: seq<Event>, p: nat)
    requires Answers(calls, events, p) && |calls| == |events|
    ensures Arguments(calls) == ValuesPushed(events)
    decreases |calls|
  {
    if calls != [] {
      var n := |calls| - 1;
      ArgumentsArePushed(calls[..n], events[..n], p);
      assert AnswersCall(calls[n], events[n], p);
    }
  }
}
