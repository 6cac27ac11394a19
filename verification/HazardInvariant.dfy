/** What every reachable state of the hazard-pointer stack satisfies, and why each step
    keeps it.

    Shared state: the list from `head_` is the stack of the history, and every allocated
    node has one owner, which is the stack, the thread that is about to push it, or the
    thread that has popped it. Each thread holds exactly the nodes that are its own. A pop
    that has revalidated its node has it published, and whoever pops that node meanwhile
    meets the publication in every scan that could free it: either the scan has recorded
    the node already, or it has not read that slot yet. */
module HazardInvariant {
  import opened Counting
  import opened HazardPointer
  import opened Options

  // ---------- Invariant ----------

  function At(stack: seq<Addr>, i: nat): Addr {
    if i < |stack| then stack[i] else NULL
  }

  /** The linked list from `head_` is exactly the history's stack. */
  ghost predicate IsChain(head: Addr, heap: map<Addr, Node>, stack: seq<Addr>) {
    && head == At(stack, 0)
    && Distinct(stack)
    && (forall i :: 0 <= i < |stack| ==> stack[i] in heap && heap[stack[i]].next == At(stack, i + 1))
  }

  /** Every allocated node has exactly one owner. */
  ghost predicate OwnersOk(stack: seq<Addr>, owner: map<Addr, Owner>, threads: nat) {
    && (forall a :: a in stack <==> a in owner && owner[a] == InStack)
    && (forall a :: a in owner && owner[a] != InStack ==> owner[a].p < threads)
  }

  /** The addresses a thread has popped and not freed. */
  function HeldBy(t: Thread): set<Addr> {
    match t.pc
    case PopRelease(top) => Members(t.retired) + {top}
    case PopTake(top) => Members(t.retired) + {top}
    case Retire(top, _) => Members(t.retired) + {top}
    case Sweep(_, _, j, kept) => Members(kept) + (if j <= |t.retired| then Members(t.retired[j..]) else {})
    case _ => Members(t.retired)
  }

  predicate IsPushing(pc: PC, a: Addr) {
    (pc.PushLoad? || pc.PushCas?) && pc.node == a
  }

  /** Thread `p` holds exactly the nodes the history says it holds, each of them once. */
  ghost predicate Owns(p: nat, t: Thread, owner: map<Addr, Owner>) {
    && (forall a :: IsPushing(t.pc, a) <==> a in owner && owner[a] == Private(p))
    && (forall a :: a in HeldBy(t) <==> a in owner && owner[a] == Held(p))
    && Distinct(t.retired)
    && (match t.pc
        case PopRelease(top) => top !in t.retired
        case PopTake(top) => top !in t.retired
        case Retire(top, _) => top !in t.retired
        case Sweep(_, _, j, kept) => j <= |t.retired| && Distinct(kept) && Members(kept) <= Members(t.retired[..j])
        case _ => true)
  }

  predicate NeedsSlot(pc: PC) {
    !(pc.Idle? || pc.PushLoad? || pc.PushCas? || pc.PopLoad? || pc.PopRegister?)
  }

  /** Thread `p` owns the slot it writes, and is never about to publish a null pointer. */
  ghost predicate Registered(p: nat, t: Thread, registered: seq<nat>) {
    && -1 <= t.slot < |registered|
    && (0 <= t.slot ==> registered[t.slot] == p)
    && (NeedsSlot(t.pc) ==> 0 <= t.slot)
    && (t.pc.PopRegister? ==> t.slot == -1)
    && (t.pc.PopRegister? || t.pc.PopPublish? || t.pc.PopValidate? ==> t.pc.top != NULL)
  }

  predicate IsProtecting(pc: PC) { pc.PopNext? || pc.PopCas? }

  /** Since the sighting `top` was popped, or everything that was on the stack then is
      still there in place, below whatever later pushes put on top of it. */
  ghost predicate SightingHolds(h: History, top: Addr, seen: Sighting) {
    && seen.stack != [] && seen.stack[0] == top
    && 0 < seen.heads <= |h.heads| && h.heads[seen.heads - 1] == top
    && seen.pushes <= h.pushes
    && (top in h.owner && h.owner[top] == InStack ==>
          && |seen.stack| <= |h.stack|
          && h.stack[|h.stack| - |seen.stack|..] == seen.stack
          && (h.pushes == seen.pushes ==> |h.heads| == seen.heads && h.stack == seen.stack)
          && (h.pushes > seen.pushes ==> exists i :: seen.heads <= i < |h.heads| && h.heads[i] != top))
  }

  /** A pop that has published its node, and after validation the node is allocated and
      its next field is fixed. */
  ghost predicate Protects(t: Thread, hp: seq<Addr>, heap: map<Addr, Node>, h: History) {
    && (t.pc.PopValidate? || IsProtecting(t.pc) ==> 0 <= t.slot < |hp| && hp[t.slot] == t.pc.top)
    && (IsProtecting(t.pc) ==>
          && t.pc.top in heap
          && t.pc.top in h.owner && !h.owner[t.pc.top].Private?
          && SightingHolds(h, t.pc.top, t.pc.seen))
    && (t.pc.PopCas? ==> heap[t.pc.top].next == t.pc.next)
  }

  /** The scan by `u` has either seen the node `a` that slot `slot` protects, or will. */
  ghost predicate ScanCovers(u: Thread, a: Addr, slot: int) {
    match u.pc
    case ScanSlot(_, n, i, hazards) => a in hazards || i <= slot < n
    case Sweep(_, hazards, _, _) => a in hazards
    case _ => true
  }

  /** Whoever has popped the node that `t` protects will not free it in this scan. */
  ghost predicate Covered(t: Thread, owner: map<Addr, Owner>, threads: seq<Thread>) {
    IsProtecting(t.pc) && t.pc.top in owner && owner[t.pc.top].Held? && owner[t.pc.top].p < |threads|
    ==> ScanCovers(threads[owner[t.pc.top].p], t.pc.top, t.slot)
  }

  /** Retire lists stay short, because a scan keeps at most one node per hazard slot. */
  ghost predicate RetireBound(t: Thread, count: nat) {
    match t.pc
    case ScanCount(_) => |t.retired| <= RETIRE_THRESHOLD
    case ScanSlot(_, n, i, hazards) => |t.retired| <= RETIRE_THRESHOLD && i <= n <= count && |hazards| <= i
    case Sweep(_, hazards, j, kept) =>
      |t.retired| <= RETIRE_THRESHOLD && |hazards| <= MAX_THREADS && Members(kept) <= hazards
    case _ => |t.retired| < RETIRE_THRESHOLD
  }

  /** The operation of `t` that took effect but has not returned yet. */
  function Pending(p: nat, t: Thread, heap: map<Addr, Node>): seq<Event> {
    match t.pc
    case PopRelease(top) => if top in heap then [Popped(p, Some(heap[top].value))] else []
    case PopTake(top) => if top in heap then [Popped(p, Some(heap[top].value))] else []
    case Retire(_, v) => [Popped(p, Some(v))]
    case ScanCount(v) => [Popped(p, Some(v))]
    case ScanSlot(v, _, _, _) => [Popped(p, Some(v))]
    case Sweep(v, _, _, _) => [Popped(p, Some(v))]
    case _ => []
  }

  ghost predicate Reports(p: nat, t: Thread, heap: map<Addr, Node>, log: seq<Event>) {
    OperationsOf(log, p) == t.returned + Pending(p, t, heap)
  }

  /** The node a thread is about to push holds the argument of the call. */
  ghost predicate Carries(t: Thread, heap: map<Addr, Node>) {
    t.pc.PushLoad? || t.pc.PushCas? ==> t.pc.node in heap && heap[t.pc.node].value == t.pc.value
  }

  /** The log is a legal stack history that ends in the values now on the stack. */
  ghost predicate LogOk(heap: map<Addr, Node>, stack: seq<Addr>, log: seq<Event>) {
    && LegalStackHistory(log)
    && |Replay(log)| == |stack|
    && (forall i :: 0 <= i < |stack| ==> stack[i] in heap && Replay(log)[i] == heap[stack[i]].value)
  }

  ghost predicate ThreadOk(s: State, p: nat)
    requires p < |s.threads|
  {
    var t := s.threads[p];
    var h := s.history;
    && Owns(p, t, h.owner)
    && Registered(p, t, h.registered)
    && Protects(t, s.hp, s.heap, h)
    && Covered(t, h.owner, s.threads)
    && RetireBound(t, s.count)
    && Reports(p, t, s.heap, h.log)
    && Carries(t, s.heap)
  }

  ghost predicate LoggedBy(log: seq<Event>, threads: nat) {
    forall e :: e in log ==> e.thread < threads
  }

  ghost predicate SharedOk(s: State) {
    var h := s.history;
    && |s.hp| == MAX_THREADS && s.count == |h.registered| <= MAX_THREADS
    && LoggedBy(h.log, |s.threads|)
    && NULL !in s.heap && h.owner.Keys == s.heap.Keys
    && h.heads != [] && h.heads[|h.heads| - 1] == s.head
    && IsChain(s.head, s.heap, h.stack)
    && OwnersOk(h.stack, h.owner, |s.threads|)
    && LogOk(s.heap, h.stack, h.log)
  }

  ghost predicate Inv(s: State) {
    && SharedOk(s)
    && (forall p :: 0 <= p < |s.threads| ==> ThreadOk(s, p))
  }

  ghost predicate Safe(o: Outcome) {
    match o
    case Ran(s') => Inv(s')
    case Blocked => true
    case _ => false
  }

  lemma InitInv(threads: nat)
    ensures Inv(Init(threads))
  {
    var s := Init(threads);
    forall p | 0 <= p < threads
      ensures ThreadOk(s, p)
    {
      hide LegalStackHistory, SharedOk;
    }
    assert SharedOk(s) by { hide ThreadOk, OperationsOf; }
    hide ThreadOk, SharedOk;
  }

  // ---------- Each step keeps the invariant ----------

  /** A step is checked in three parts: the shared state, the thread that moved, and an
      arbitrary other thread. */
  lemma Assemble(s: State, s': State, p: nat)
    requires p < |s.threads| == |s'.threads|
    requires SharedOk(s') && ThreadOk(s', p)
    requires forall q :: 0 <= q < |s.threads| && q != p ==> ThreadOk(s', q)
    ensures Inv(s')
  {
    hide ThreadOk, SharedOk;
  }

  /** Nothing shared changed except that `p` may have registered or written its slot. */
  ghost predicate OnlyThread(s: State, s': State, p: nat)
    requires p < |s.threads|
  {
    && |s'.threads| == |s.threads| && s'.threads == s.threads[p := s'.threads[p]]
    && s'.head == s.head && s'.heap == s.heap
    && s'.history.(registered := s.history.registered) == s.history
    && s.history.registered <= s'.history.registered && s.count <= s'.count
    && |s'.hp| == |s.hp| && (forall i :: 0 <= i < |s.hp| && i != s.threads[p].slot ==> s'.hp[i] == s.hp[i])
  }

  /** `p` still covers whatever `q` protects. */
  ghost predicate StillCovers(s: State, t: Thread, p: nat, q: nat)
    requires q < |s.threads|
  {
    var pc := s.threads[q].pc;
    IsProtecting(pc) && pc.top in s.history.owner && s.history.owner[pc.top] == Held(p)
    ==> ScanCovers(t, pc.top, s.threads[q].slot)
  }

  lemma OtherAfterLocal(s: State, s': State, p: nat, q: nat)
    requires p < |s.threads| && q < |s.threads| && p != q
    requires OnlyThread(s, s', p)
    requires Registered(p, s.threads[p], s.history.registered)
    requires ThreadOk(s, q) && StillCovers(s, s'.threads[p], p, q)
    ensures ThreadOk(s', q)
  {
    hide Replay, OperationsOf;
  }

  lemma SightingNow(s: State)
    requires SharedOk(s) && s.head != NULL
    ensures var h := s.history; var seen := Sighting(h.stack, |h.heads|, h.pushes);
            s.head in h.owner && h.owner[s.head] == InStack && SightingHolds(h, s.head, seen)
  {
    hide LogOk, LoggedBy, IsChain, OwnersOk;
    HeadIsStacked(s);
    assert s.history.stack[0..] == s.history.stack;
  }

  lemma HeadIsStacked(s: State)
    requires SharedOk(s) && s.head != NULL
    ensures s.history.stack != [] && s.history.stack[0] == s.head
    ensures s.head in s.history.owner && s.history.owner[s.head] == InStack
  {
    hide LogOk, LoggedBy;
  }

  predicate Plain(pc: PC) {
    !(pc.PushLoad? || pc.PushCas? || pc.PopRelease? || pc.PopTake? || pc.Retire? || pc.Sweep?)
  }

  lemma OwnsPlain(p: nat, t: Thread, t': Thread, owner: map<Addr, Owner>)
    requires Owns(p, t, owner) && Plain(t.pc) && Plain(t'.pc) && t'.retired == t.retired
    ensures Owns(p, t', owner)
  {
  }

  lemma LocalStep(s: State, s': State, p: nat)
    requires p < |s.threads| && Inv(s) && OnlyThread(s, s', p)
    requires SharedOk(s') && ThreadOk(s', p)
    requires forall q :: 0 <= q < |s.threads| && q != p ==> StillCovers(s, s'.threads[p], p, q)
    ensures Inv(s')
  {
    hide SharedOk, StillCovers, Owns, Protects, Covered, RetireBound, Reports;
    assert ThreadOk(s, p);
    forall q | 0 <= q < |s.threads| && q != p
      ensures ThreadOk(s', q)
    {
      OtherAfterLocal(s, s', p, q);
    }
    Assemble(s, s', p);
  }

  lemma StartPopThread(s: State, p: nat, c: Choice)
    requires p < |s.threads| && s.threads[p].pc.Idle? && SharedOk(s) && ThreadOk(s, p) && c.op.Pop?
    ensures var o := Start(s, p, c);
            o.Ran? && OnlyThread(s, o.state, p) && SharedOk(o.state) && ThreadOk(o.state, p)
  {
    hide Replay, OperationsOf, IsChain, OwnersOk, LogOk, Owns;
    OwnsPlain(p, s.threads[p], Start(s, p, c).state.threads[p], s.history.owner);
  }

  lemma StartPopKeeps(s: State, p: nat, c: Choice)
    requires p < |s.threads| && s.threads[p].pc.Idle? && Inv(s) && c.op.Pop?
    ensures Safe(Start(s, p, c))
  {
    hide SharedOk, ThreadOk;
    StartPopThread(s, p, c);
    LocalStep(s, Start(s, p, c).state, p);
  }

  lemma PopLoadThread(s: State, p: nat)
    requires p < |s.threads| && s.threads[p].pc.PopLoad? && SharedOk(s) && ThreadOk(s, p) && s.head != NULL
    ensures var o := DoPopLoad(s, p);
            o.Ran? && OnlyThread(s, o.state, p) && SharedOk(o.state) && ThreadOk(o.state, p)
  {
    hide Replay, OperationsOf, IsChain, OwnersOk, LogOk, Owns;
    OwnsPlain(p, s.threads[p], DoPopLoad(s, p).state.threads[p], s.history.owner);
  }

  lemma PopLoadKeeps(s: State, p: nat)
    requires p < |s.threads| && s.threads[p].pc.PopLoad? && Inv(s) && s.head != NULL
    ensures Safe(DoPopLoad(s, p))
  {
    hide SharedOk, ThreadOk;
    PopLoadThread(s, p);
    LocalStep(s, DoPopLoad(s, p).state, p);
  }

  lemma PopRegisterThread(s: State, p: nat)
    requires p < |s.threads| && s.threads[p].pc.PopRegister? && SharedOk(s) && ThreadOk(s, p) && s.count < MAX_THREADS
    ensures var o := DoPopRegister(s, p, s.threads[p].pc.top);
            o.Ran? && OnlyThread(s, o.state, p) && SharedOk(o.state) && ThreadOk(o.state, p)
  {
    hide Replay, OperationsOf, IsChain, OwnersOk, LogOk, Owns;
    OwnsPlain(p, s.threads[p], DoPopRegister(s, p, s.threads[p].pc.top).state.threads[p], s.history.owner);
  }

  lemma PopRegisterKeeps(s: State, p: nat)
    requires p < |s.threads| && s.threads[p].pc.PopRegister? && Inv(s) && s.count < MAX_THREADS
    ensures Safe(DoPopRegister(s, p, s.threads[p].pc.top))
  {
    hide SharedOk, ThreadOk;
    PopRegisterThread(s, p);
    LocalStep(s, DoPopRegister(s, p, s.threads[p].pc.top).state, p);
  }

  lemma PopPublishThread(s: State, p: nat)
    requires p < |s.threads| && s.threads[p].pc.PopPublish? && SharedOk(s) && ThreadOk(s, p)
    ensures var o := DoPublish(s, p, s.threads[p].pc.top, PopValidate(s.threads[p].pc.top));
            o.Ran? && OnlyThread(s, o.state, p) && SharedOk(o.state) && ThreadOk(o.state, p)
  {
    hide Replay, OperationsOf, IsChain, OwnersOk, LogOk, Owns;
    OwnsPlain(p, s.threads[p], DoPublish(s, p, s.threads[p].pc.top,
            PopValidate(s.threads[p].pc.top)).state.threads[p], s.history.owner);
  }

  lemma PopPublishKeeps(s: State, p: nat)
    requires p < |s.threads| && s.threads[p].pc.PopPublish? && Inv(s)
    ensures Safe(DoPublish(s, p, s.threads[p].pc.top, PopValidate(s.threads[p].pc.top)))
  {
    hide SharedOk, ThreadOk;
    PopPublishThread(s, p);
    LocalStep(s, DoPublish(s, p, s.threads[p].pc.top, PopValidate(s.threads[p].pc.top)).state, p);
  }

  lemma PopValidateThread(s: State, p: nat)
    requires p < |s.threads| && s.threads[p].pc.PopValidate? && SharedOk(s) && ThreadOk(s, p)
    ensures var o := DoPopValidate(s, p, s.threads[p].pc.top);
            o.Ran? && OnlyThread(s, o.state, p) && SharedOk(o.state) && ThreadOk(o.state, p)
  {
    hide Replay, OperationsOf, LogOk, Owns, IsChain, OwnersOk, SightingHolds;
    OwnsPlain(p, s.threads[p], DoPopValidate(s, p, s.threads[p].pc.top).state.threads[p], s.history.owner);
    if s.head == s.threads[p].pc.top {
      SightingNow(s);
    }
  }

  lemma PopValidateKeeps(s: State, p: nat)
    requires p < |s.threads| && s.threads[p].pc.PopValidate? && Inv(s)
    ensures Safe(DoPopValidate(s, p, s.threads[p].pc.top))
  {
    hide SharedOk, ThreadOk;
    PopValidateThread(s, p);
    LocalStep(s, DoPopValidate(s, p, s.threads[p].pc.top).state, p);
  }

  lemma PopRetractThread(s: State, p: nat)
    requires p < |s.threads| && s.threads[p].pc.PopRetract? && SharedOk(s) && ThreadOk(s, p)
    ensures var o := DoPublish(s, p, NULL, PopLoad);
            o.Ran? && OnlyThread(s, o.state, p) && SharedOk(o.state) && ThreadOk(o.state, p)
  {
    hide Replay, OperationsOf, IsChain, OwnersOk, LogOk, Owns;
    OwnsPlain(p, s.threads[p], DoPublish(s, p, NULL, PopLoad).state.threads[p], s.history.owner);
  }

  lemma PopRetractKeeps(s: State, p: nat)
    requires p < |s.threads| && s.threads[p].pc.PopRetract? && Inv(s)
    ensures Safe(DoPublish(s, p, NULL, PopLoad))
  {
    hide SharedOk, ThreadOk;
    PopRetractThread(s, p);
    LocalStep(s, DoPublish(s, p, NULL, PopLoad).state, p);
  }

  lemma PopNextThread(s: State, p: nat)
    requires p < |s.threads| && s.threads[p].pc.PopNext? && SharedOk(s) && ThreadOk(s, p)
    ensures var o := DoPopNext(s, p, s.threads[p].pc.top, s.threads[p].pc.seen);
            o.Ran? && OnlyThread(s, o.state, p) && SharedOk(o.state) && ThreadOk(o.state, p)
  {
    hide Replay, OperationsOf, IsChain, OwnersOk, LogOk, Owns, SightingHolds;
    OwnsPlain(p, s.threads[p], DoPopNext(s, p, s.threads[p].pc.top, s.threads[p].pc.seen).state.threads[p],
            s.history.owner);
  }

  lemma PopNextKeeps(s: State, p: nat)
    requires p < |s.threads| && s.threads[p].pc.PopNext? && Inv(s)
    ensures Safe(DoPopNext(s, p, s.threads[p].pc.top, s.threads[p].pc.seen))
  {
    hide SharedOk, ThreadOk;
    PopNextThread(s, p);
    LocalStep(s, DoPopNext(s, p, s.threads[p].pc.top, s.threads[p].pc.seen).state, p);
  }

  lemma PopCasFailThread(s: State, p: nat, spurious: bool)
    requires p < |s.threads| && s.threads[p].pc.PopCas? && SharedOk(s) && ThreadOk(s, p) &&
            !CasSucceeds(s, s.threads[p].pc.top, spurious)
    ensures var o := DoPopCas(s, p, s.threads[p].pc.top, s.threads[p].pc.next, spurious);
            o.Ran? && OnlyThread(s, o.state, p) && SharedOk(o.state) && ThreadOk(o.state, p)
  {
    hide Replay, OperationsOf, IsChain, OwnersOk, LogOk, Owns, SightingHolds;
    OwnsPlain(p, s.threads[p], DoPopCas(s, p, s.threads[p].pc.top, s.threads[p].pc.next, spurious).state.threads[p],
            s.history.owner);
  }

  lemma PopCasFailKeeps(s: State, p: nat, spurious: bool)
    requires p < |s.threads| && s.threads[p].pc.PopCas? && Inv(s) && !CasSucceeds(s, s.threads[p].pc.top, spurious)
    ensures Safe(DoPopCas(s, p, s.threads[p].pc.top, s.threads[p].pc.next, spurious))
  {
    hide SharedOk, ThreadOk;
    PopCasFailThread(s, p, spurious);
    LocalStep(s, DoPopCas(s, p, s.threads[p].pc.top, s.threads[p].pc.next, spurious).state, p);
  }

  lemma PopReleaseThread(s: State, p: nat)
    requires p < |s.threads| && s.threads[p].pc.PopRelease? && SharedOk(s) && ThreadOk(s, p)
    ensures var o := DoPublish(s, p, NULL, PopTake(s.threads[p].pc.top));
            o.Ran? && OnlyThread(s, o.state, p) && SharedOk(o.state) && ThreadOk(o.state, p)
  {
    hide Replay, OperationsOf, IsChain, OwnersOk, LogOk;
  }

  lemma PopReleaseKeeps(s: State, p: nat)
    requires p < |s.threads| && s.threads[p].pc.PopRelease? && Inv(s)
    ensures Safe(DoPublish(s, p, NULL, PopTake(s.threads[p].pc.top)))
  {
    hide SharedOk, ThreadOk;
    PopReleaseThread(s, p);
    LocalStep(s, DoPublish(s, p, NULL, PopTake(s.threads[p].pc.top)).state, p);
  }

  lemma PopTakeThread(s: State, p: nat)
    requires p < |s.threads| && s.threads[p].pc.PopTake? && SharedOk(s) && ThreadOk(s, p)
    ensures var o := DoPopTake(s, p, s.threads[p].pc.top);
            o.Ran? && OnlyThread(s, o.state, p) && SharedOk(o.state) && ThreadOk(o.state, p)
  {
    hide Replay, OperationsOf, IsChain, OwnersOk, LogOk;
  }

  lemma PopTakeKeeps(s: State, p: nat)
    requires p < |s.threads| && s.threads[p].pc.PopTake? && Inv(s)
    ensures Safe(DoPopTake(s, p, s.threads[p].pc.top))
  {
    hide SharedOk, ThreadOk;
    PopTakeThread(s, p);
    LocalStep(s, DoPopTake(s, p, s.threads[p].pc.top).state, p);
  }

  lemma RetireThread(s: State, p: nat)
    requires p < |s.threads| && s.threads[p].pc.Retire? && SharedOk(s) && ThreadOk(s, p)
    ensures var o := DoRetire(s, p, s.threads[p].pc.top, s.threads[p].pc.value);
            o.Ran? && OnlyThread(s, o.state, p) && SharedOk(o.state) && ThreadOk(o.state, p)
  {
    hide Replay, OperationsOf, IsChain, OwnersOk, LogOk;
  }

  lemma RetireKeeps(s: State, p: nat)
    requires p < |s.threads| && s.threads[p].pc.Retire? && Inv(s)
    ensures Safe(DoRetire(s, p, s.threads[p].pc.top, s.threads[p].pc.value))
  {
    hide SharedOk, ThreadOk;
    RetireThread(s, p);
    LocalStep(s, DoRetire(s, p, s.threads[p].pc.top, s.threads[p].pc.value).state, p);
  }

  lemma ScanCountThread(s: State, p: nat)
    requires p < |s.threads| && s.threads[p].pc.ScanCount? && SharedOk(s) && ThreadOk(s, p)
    ensures var o := Ran(Goto(s, p, ScanSlot(s.threads[p].pc.value, s.count, 0, {})));
            o.Ran? && OnlyThread(s, o.state, p) && SharedOk(o.state) && ThreadOk(o.state, p)
  {
    hide Replay, OperationsOf, IsChain, OwnersOk, LogOk, Owns;
    OwnsPlain(p, s.threads[p], Ran(Goto(s, p, ScanSlot(s.threads[p].pc.value, s.count, 0, {}))).state.threads[p],
            s.history.owner);
  }

  lemma ScanCountCovers(s: State, p: nat, q: nat)
    requires p < |s.threads| && s.threads[p].pc.ScanCount? && SharedOk(s) && ThreadOk(s, p)
    requires q < |s.threads| && q != p && ThreadOk(s, q)
    ensures StillCovers(s, Ran(Goto(s, p, ScanSlot(s.threads[p].pc.value, s.count, 0, {}))).state.threads[p], p, q)
  {
    hide Replay, OperationsOf, IsChain, OwnersOk, LogOk;
  }

  lemma ScanCountKeeps(s: State, p: nat)
    requires p < |s.threads| && s.threads[p].pc.ScanCount? && Inv(s)
    ensures Safe(Ran(Goto(s, p, ScanSlot(s.threads[p].pc.value, s.count, 0, {}))))
  {
    hide SharedOk, ThreadOk;
    ScanCountThread(s, p);
    forall q | 0 <= q < |s.threads| && q != p
      ensures StillCovers(s, Ran(Goto(s, p, ScanSlot(s.threads[p].pc.value, s.count, 0, {}))).state.threads[p], p, q)
    {
      ScanCountCovers(s, p, q);
    }
    LocalStep(s, Ran(Goto(s, p, ScanSlot(s.threads[p].pc.value, s.count, 0, {}))).state, p);
  }

  lemma SweepBegins(p: nat, t: Thread, pc: PC, owner: map<Addr, Owner>)
    requires Owns(p, t, owner) && t.pc.ScanSlot? && pc.Sweep? && pc.j == 0 && pc.kept == []
    ensures Owns(p, t.(pc := pc), owner)
  {
    assert t.retired[0..] == t.retired;
  }

  lemma ScanSlotThread(s: State, p: nat)
    requires p < |s.threads| && s.threads[p].pc.ScanSlot? && SharedOk(s) && ThreadOk(s, p)
    ensures var o := DoScanSlot(s, p, s.threads[p].pc.value, s.threads[p].pc.n, s.threads[p].pc.i,
            s.threads[p].pc.hazards);
            o.Ran? && OnlyThread(s, o.state, p) && SharedOk(o.state) && ThreadOk(o.state, p)
  {
    hide Replay, OperationsOf, IsChain, OwnersOk, LogOk, Owns, SightingHolds;
    var t := s.threads[p];
    if t.pc.i >= t.pc.n {
      SweepBegins(p, t, Sweep(t.pc.value, t.pc.hazards, 0, []), s.history.owner);
    } else {
      OwnsPlain(p, t, DoScanSlot(s, p, t.pc.value, t.pc.n, t.pc.i, t.pc.hazards).state.threads[p], s.history.owner);
    }
  }

  lemma ScanSlotCovers(s: State, p: nat, q: nat)
    requires p < |s.threads| && s.threads[p].pc.ScanSlot? && SharedOk(s) && ThreadOk(s, p)
    requires q < |s.threads| && q != p && ThreadOk(s, q)
    ensures StillCovers(s, DoScanSlot(s, p, s.threads[p].pc.value, s.threads[p].pc.n, s.threads[p].pc.i,
            s.threads[p].pc.hazards).state.threads[p], p, q)
  {
    hide Replay, OperationsOf, IsChain, OwnersOk, LogOk;
  }

  lemma ScanSlotKeeps(s: State, p: nat)
    requires p < |s.threads| && s.threads[p].pc.ScanSlot? && Inv(s)
    ensures Safe(DoScanSlot(s, p, s.threads[p].pc.value, s.threads[p].pc.n, s.threads[p].pc.i, s.threads[p].pc.hazards))
  {
    hide SharedOk, ThreadOk;
    ScanSlotThread(s, p);
    forall q | 0 <= q < |s.threads| && q != p
      ensures StillCovers(s, DoScanSlot(s, p, s.threads[p].pc.value, s.threads[p].pc.n, s.threads[p].pc.i,
              s.threads[p].pc.hazards).state.threads[p], p, q)
    {
      ScanSlotCovers(s, p, q);
    }
    LocalStep(s, DoScanSlot(s, p, s.threads[p].pc.value, s.threads[p].pc.n, s.threads[p].pc.i,
            s.threads[p].pc.hazards).state, p);
  }

  /** `owner'` differs from `owner` only in entries of `p`, of the stack, or of nobody. */
  ghost predicate OnlyMovesOwn(owner: map<Addr, Owner>, owner': map<Addr, Owner>, p: nat) {
    && (forall a :: a in owner && owner[a] != InStack && owner[a].p != p ==> a in owner' && owner'[a] == owner[a])
    && (forall a :: a in owner' && owner'[a] != InStack && owner'[a].p != p ==> a in owner && owner[a] == owner'[a])
  }

  lemma OwnsOther(q: nat, t: Thread, owner: map<Addr, Owner>, owner': map<Addr, Owner>, p: nat)
    requires Owns(q, t, owner) && OnlyMovesOwn(owner, owner', p) && p != q
    ensures Owns(q, t, owner')
  {
    hide HeldBy, Members;
  }

  // The steps that touch the list, the heap or the log.

  lemma OperationsSame(log: seq<Event>, e: Event, q: nat)
    requires e.thread != q
    ensures OperationsOf(log + [e], q) == OperationsOf(log, q)
  {
    assert (log + [e])[..|log|] == log;
  }

  lemma OperationsOwn(log: seq<Event>, e: Event)
    ensures OperationsOf(log + [e], e.thread) == OperationsOf(log, e.thread) + [e]
  {
    assert (log + [e])[..|log|] == log;
  }

  lemma LogStep(log: seq<Event>, e: Event)
    requires LegalStackHistory(log)
    requires e.Popped? ==> e.result == Top(Replay(log))
    ensures LegalStackHistory(log + [e])
    ensures var before := Replay(log);
            Replay(log + [e]) == if e.Pushed? then [e.value] + before else if before == [] then [] else before[1..]
  {
    var log' := log + [e];
    assert log'[..|log|] == log;
    forall i | 0 <= i < |log'| && log'[i].Popped?
      ensures log'[i].result == Top(Replay(log'[..i]))
    {
      if i < |log| {
        assert log'[..i] == log[..i];
      }
    }
  }

  // A push allocates its node.

  function Allocated(s: State, p: nat, a: Addr, v: Value): State
    requires p < |s.threads|
  {
    Call(s, p, Push(v), PushLoad(a, v)).(heap := s.heap[a := Node(v, NULL)],
                                         history := s.history.(owner := s.history.owner[a := Private(p)]))
  }

  lemma AllocatedShared(s: State, p: nat, a: Addr, v: Value)
    requires p < |s.threads| && SharedOk(s) && a != NULL && a !in s.heap
    ensures SharedOk(Allocated(s, p, a, v))
  {
    hide IsChain, OwnersOk, LogOk, LoggedBy;
    RewriteShared(s, a, Node(v, NULL), Private(p));
  }

  /** Writing a node that is not on the stack leaves the stack alone. */
  lemma RewriteShared(s: State, a: Addr, node: Node, o: Owner)
    requires SharedOk(s) && (a in s.heap ==> s.history.owner[a] != InStack)
    requires o != InStack && o.p < |s.threads|
    ensures IsChain(s.head, s.heap[a := node], s.history.stack)
    ensures OwnersOk(s.history.stack, s.history.owner[a := o], |s.threads|)
    ensures LogOk(s.heap[a := node], s.history.stack, s.history.log)
  {
    NotStacked(s, a);
    RewriteChain(s, a, node);
    RewriteOwners(s, a, o);
    RewriteLog(s, a, node);
  }

  lemma RewriteChain(s: State, a: Addr, node: Node)
    requires SharedOk(s) && forall i :: 0 <= i < |s.history.stack| ==> s.history.stack[i] != a
    ensures IsChain(s.head, s.heap[a := node], s.history.stack)
  {
    hide Replay, OperationsOf, LogOk, OwnersOk, LoggedBy;
  }

  lemma RewriteOwners(s: State, a: Addr, o: Owner)
    requires SharedOk(s) && (a in s.heap ==> s.history.owner[a] != InStack)
    requires o != InStack && o.p < |s.threads|
    ensures OwnersOk(s.history.stack, s.history.owner[a := o], |s.threads|)
  {
    hide Replay, OperationsOf, LogOk, IsChain, LoggedBy;
  }

  lemma RewriteLog(s: State, a: Addr, node: Node)
    requires SharedOk(s) && forall i :: 0 <= i < |s.history.stack| ==> s.history.stack[i] != a
    ensures LogOk(s.heap[a := node], s.history.stack, s.history.log)
  {
    hide Replay, OperationsOf, LegalStackHistory, IsChain, OwnersOk, LoggedBy;
  }

  lemma AllocatedThread(s: State, p: nat, a: Addr, v: Value)
    requires p < |s.threads| && SharedOk(s) && ThreadOk(s, p) && s.threads[p].pc.Idle? && a !in s.heap
    ensures ThreadOk(Allocated(s, p, a, v), p)
  {
    hide Replay, OperationsOf, LogOk, IsChain, OwnersOk;
  }

  lemma AllocatedOther(s: State, p: nat, a: Addr, v: Value, q: nat)
    requires p < |s.threads| && q < |s.threads| && p != q
    requires SharedOk(s) && ThreadOk(s, q) && a !in s.heap
    ensures ThreadOk(Allocated(s, p, a, v), q)
  {
    hide Replay, OperationsOf, LogOk, IsChain, OwnersOk, Owns, Protects, Reports;
    OwnsOther(q, s.threads[q], s.history.owner, Allocated(s, p, a, v).history.owner, p);
    AllocatedReports(s, p, a, v, q);
    AllocatedProtects(s, p, a, v, q);
  }

  lemma AllocatedReports(s: State, p: nat, a: Addr, v: Value, q: nat)
    requires q < |s.threads| && s.history.owner.Keys == s.heap.Keys && a !in s.heap
    requires Owns(q, s.threads[q], s.history.owner) && Reports(q, s.threads[q], s.heap, s.history.log)
    ensures Reports(q, s.threads[q], s.heap[a := Node(v, NULL)], s.history.log)
  {
    hide OperationsOf;
    var pc := s.threads[q].pc;
    if pc.PopRelease? || pc.PopTake? {
      assert pc.top in HeldBy(s.threads[q]);
    }
  }

  lemma AllocatedProtects(s: State, p: nat, a: Addr, v: Value, q: nat)
    requires q < |s.threads| && s.history.owner.Keys == s.heap.Keys && a !in s.heap
    requires Protects(s.threads[q], s.hp, s.heap, s.history)
    ensures Protects(s.threads[q], s.hp, s.heap[a := Node(v, NULL)],
            s.history.(owner := s.history.owner[a := Private(p)]))
  {
  }

  lemma StartPushKeeps(s: State, p: nat, c: Choice)
    requires p < |s.threads| && s.threads[p].pc.Idle? && Inv(s) && c.op.Push?
    ensures Safe(Start(s, p, c))
  {
    hide SharedOk, ThreadOk;
    if Start(s, p, c).Ran? {
      var a, v := c.unused, c.op.value;
      AllocatedShared(s, p, a, v);
      AllocatedThread(s, p, a, v);
      forall q | 0 <= q < |s.threads| && q != p
        ensures ThreadOk(Allocated(s, p, a, v), q)
      {
        AllocatedOther(s, p, a, v, q);
      }
      Assemble(s, Allocated(s, p, a, v), p);
    }
  }

  // A push aims its node at the head it has just read.

  function Aimed(s: State, p: nat, a: Addr, v: Value): State
    requires p < |s.threads| && a in s.heap
  {
    Goto(s, p, PushCas(a, v)).(heap := s.heap[a := s.heap[a].(next := s.head)])
  }

  lemma NotStacked(s: State, a: Addr)
    requires SharedOk(s) && (a in s.heap ==> s.history.owner[a] != InStack)
    ensures forall i :: 0 <= i < |s.history.stack| ==> s.history.stack[i] != a
  {
    hide Replay, OperationsOf, LogOk, IsChain, LoggedBy;
  }

  lemma AimedShared(s: State, p: nat, a: Addr, v: Value)
    requires p < |s.threads| && SharedOk(s) && a in s.heap && s.history.owner[a] == Private(p)
    ensures SharedOk(Aimed(s, p, a, v))
  {
    hide IsChain, OwnersOk, LogOk, LoggedBy;
    RewriteShared(s, a, s.heap[a].(next := s.head), Private(p));
  }

  lemma AimedThread(s: State, p: nat, a: Addr, v: Value)
    requires p < |s.threads| && SharedOk(s) && ThreadOk(s, p) && IsPushing(s.threads[p].pc, a) && a in s.heap
    requires v == s.threads[p].pc.value
    ensures ThreadOk(Aimed(s, p, a, v), p)
  {
    hide Replay, OperationsOf, LogOk, IsChain, OwnersOk;
  }

  lemma AimedOther(s: State, p: nat, a: Addr, v: Value, q: nat)
    requires p < |s.threads| && q < |s.threads| && p != q && SharedOk(s) && ThreadOk(s, q)
    requires a in s.heap && s.history.owner[a] == Private(p)
    ensures ThreadOk(Aimed(s, p, a, v), q)
  {
    hide Replay, OperationsOf, LogOk, IsChain, OwnersOk, SightingHolds;
  }

  lemma AimKeeps(s: State, p: nat, a: Addr, v: Value)
    requires p < |s.threads| && Inv(s) && IsPushing(s.threads[p].pc, a) && v == s.threads[p].pc.value
    ensures a in s.heap && Inv(Aimed(s, p, a, v))
  {
    PusherOwns(s, p, a);
    hide SharedOk, ThreadOk;
    AimedShared(s, p, a, v);
    AimedThread(s, p, a, v);
    forall q | 0 <= q < |s.threads| && q != p
      ensures ThreadOk(Aimed(s, p, a, v), q)
    {
      AimedOther(s, p, a, v, q);
    }
    Assemble(s, Aimed(s, p, a, v), p);
  }

  lemma PusherOwns(s: State, p: nat, a: Addr)
    requires p < |s.threads| && SharedOk(s) && ThreadOk(s, p) && IsPushing(s.threads[p].pc, a)
    ensures a in s.heap && a in s.history.owner && s.history.owner[a] == Private(p)
    ensures s.heap[a].value == s.threads[p].pc.value
  {
    hide Replay, OperationsOf, LogOk, IsChain, OwnersOk;
  }

  lemma PushLoadKeeps(s: State, p: nat)
    requires p < |s.threads| && s.threads[p].pc.PushLoad? && Inv(s)
    ensures Safe(DoPushLoad(s, p, s.threads[p].pc.node, s.threads[p].pc.value))
  {
    hide SharedOk, ThreadOk;
    AimKeeps(s, p, s.threads[p].pc.node, s.threads[p].pc.value);
  }

  // A push links its node in.

  function Linked(s: State, p: nat, a: Addr, v: Value): State
    requires p < |s.threads| && a in s.heap
  {
    DoPushCas(s.(head := s.heap[a].next), p, a, v, false).state
  }

  lemma LinkedShared(s: State, p: nat, a: Addr, v: Value)
    requires p < |s.threads| && SharedOk(s) && a in s.heap && s.history.owner[a] == Private(p)
    requires s.head == s.heap[a].next && s.heap[a].value == v
    ensures SharedOk(Linked(s, p, a, v))
  {
    hide IsChain, LogOk, OwnersOk;
    LinkedChain(s, a);
    LinkedLog(s, a, Pushed(p, v));
    LinkedOwners(s, a);
  }

  lemma LinkedChain(s: State, a: Addr)
    requires SharedOk(s) && a in s.heap && s.history.owner[a] != InStack && s.head == s.heap[a].next
    ensures IsChain(a, s.heap, [a] + s.history.stack)
  {
    NotStacked(s, a);
    hide Replay, OperationsOf, LogOk, OwnersOk;
  }

  lemma LinkedOwners(s: State, a: Addr)
    requires SharedOk(s) && a in s.heap
    ensures OwnersOk([a] + s.history.stack, s.history.owner[a := InStack], |s.threads|)
  {
    hide Replay, OperationsOf, LogOk, IsChain;
  }

  lemma LinkedLog(s: State, a: Addr, e: Event)
    requires SharedOk(s) && a in s.heap && e.Pushed? && e.value == s.heap[a].value
    ensures LogOk(s.heap, [a] + s.history.stack, s.history.log + [e])
  {
    hide OperationsOf, OwnersOk, IsChain, LoggedBy;
    PushedLog(s.heap, s.history.stack, s.history.log, a, e);
  }

  lemma PushedLog(heap: map<Addr, Node>, stack: seq<Addr>, log: seq<Event>, a: Addr, e: Event)
    requires LogOk(heap, stack, log) && a in heap && e.Pushed? && e.value == heap[a].value
    ensures LogOk(heap, [a] + stack, log + [e])
  {
    hide Replay, LegalStackHistory;
    LogStep(log, e);
  }

  lemma LinkedThread(s: State, p: nat, a: Addr, v: Value)
    requires p < |s.threads| && SharedOk(s) && ThreadOk(s, p) && IsPushing(s.threads[p].pc, a) && a in s.heap
    requires s.history.owner[a] == Private(p)
    ensures ThreadOk(Linked(s, p, a, v), p)
  {
    hide Replay, OperationsOf, LogOk, IsChain, OwnersOk, LoggedBy, SightingHolds;
    OperationsOwn(s.history.log, Pushed(p, v));
  }

  lemma LinkedOther(s: State, p: nat, a: Addr, v: Value, q: nat)
    requires p < |s.threads| && q < |s.threads| && p != q && SharedOk(s) && ThreadOk(s, q)
    requires a in s.heap && s.history.owner[a] == Private(p)
    ensures ThreadOk(Linked(s, p, a, v), q)
  {
    hide Replay, OperationsOf, LogOk, IsChain, OwnersOk, SightingHolds, Owns;
    OperationsSame(s.history.log, Pushed(p, v), q);
    OwnsOther(q, s.threads[q], s.history.owner, Linked(s, p, a, v).history.owner, p);
    var pc := s.threads[q].pc;
    if IsProtecting(pc) {
      LinkedSighting(s.history, Linked(s, p, a, v).history, p, a, pc.top, pc.seen);
    }
  }

  lemma LinkedSighting(h: History, h': History, p: nat, a: Addr, top: Addr, seen: Sighting)
    requires SightingHolds(h, top, seen) && top != a
    requires h'.stack == [a] + h.stack && h'.owner == h.owner[a := InStack]
    requires h'.heads == h.heads + [a] && h'.pushes == h.pushes + 1
    ensures SightingHolds(h', top, seen)
  {
    if top in h.owner && h.owner[top] == InStack {
      assert h'.stack[|h'.stack| - |seen.stack|..] == h.stack[|h.stack| - |seen.stack|..];
      assert h'.heads[|h.heads|] != top;
    }
  }

  lemma PushCasKeeps(s: State, p: nat, spurious: bool)
    requires p < |s.threads| && s.threads[p].pc.PushCas? && Inv(s)
    ensures Safe(DoPushCas(s, p, s.threads[p].pc.node, s.threads[p].pc.value, spurious))
  {
    var a, v := s.threads[p].pc.node, s.threads[p].pc.value;
    PusherOwns(s, p, a);
    hide SharedOk, ThreadOk;
    if spurious || s.head != s.heap[a].next {
      AimKeeps(s, p, a, v);
      assert s.threads[p := s.threads[p].(pc := PushCas(a, v))] == s.threads;
    } else {
      assert s.(head := s.heap[a].next) == s;
      LinkedShared(s, p, a, v);
      LinkedThread(s, p, a, v);
      forall q | 0 <= q < |s.threads| && q != p
        ensures ThreadOk(Linked(s, p, a, v), q)
      {
        LinkedOther(s, p, a, v, q);
      }
      Assemble(s, Linked(s, p, a, v), p);
    }
  }

  // A pop unlinks the head.

  lemma UnlinkedShared(s: State, p: nat)
    requires p < |s.threads| && s.threads[p].pc.PopCas? && SharedOk(s) && ThreadOk(s, p)
    requires s.head == s.threads[p].pc.top
    ensures SharedOk(Unlinked(s, p))
  {
    hide IsChain, LogOk, OwnersOk, ThreadOk;
    UnlinkedChain(s, p);
    UnlinkedTop(s, p);
    UnlinkedLog(s, p);
    UnlinkedOwners(s, p);
  }

  function Unlinked(s: State, p: nat): State
    requires p < |s.threads| && s.threads[p].pc.PopCas?
  {
    var top := s.threads[p].pc.top;
    DoPopCas(s.(head := top), p, top, s.threads[p].pc.next, false).state
  }

  lemma UnlinkedChain(s: State, p: nat)
    requires p < |s.threads| && s.threads[p].pc.PopCas? && SharedOk(s) && ThreadOk(s, p)
    requires s.head == s.threads[p].pc.top
    ensures s.history.stack != [] && s.history.stack[0] == s.head
    ensures IsChain(s.threads[p].pc.next, s.heap, s.history.stack[1..])
  {
    hide Replay, OperationsOf, LogOk, OwnersOk, LoggedBy, IsChain, Owns, Covered, RetireBound, Reports, Carries;
    assert s.head in s.heap && s.heap[s.head].next == s.threads[p].pc.next && NULL !in s.heap;
    ChainTail(s.head, s.heap, s.history.stack);
  }

  lemma ChainTail(head: Addr, heap: map<Addr, Node>, stack: seq<Addr>)
    requires IsChain(head, heap, stack) && head in heap && NULL !in heap
    ensures stack != [] && stack[0] == head && IsChain(heap[head].next, heap, stack[1..])
  {
    var rest := stack[1..];
    forall i | 0 <= i < |rest|
      ensures rest[i] == stack[i + 1] && At(rest, i + 1) == At(stack, i + 2)
    {
    }
  }

  lemma UnlinkedOwners(s: State, p: nat)
    requires p < |s.threads| && SharedOk(s) && s.history.stack != []
    ensures OwnersOk(s.history.stack[1..], s.history.owner[s.history.stack[0] := Held(p)], |s.threads|)
  {
    hide Replay, OperationsOf, LogOk;
  }

  lemma UnlinkedLog(s: State, p: nat)
    requires SharedOk(s) && s.history.stack != [] && s.history.stack[0] in s.heap
    ensures LogOk(s.heap, s.history.stack[1..], s.history.log + [Popped(p, Some(s.heap[s.history.stack[0]].value))])
  {
    hide OperationsOf, OwnersOk, IsChain, LegalStackHistory;
    LogStep(s.history.log, Popped(p, Some(s.heap[s.history.stack[0]].value)));
    hide Replay;
  }

  lemma UnlinkedTop(s: State, p: nat)
    requires SharedOk(s) && s.history.stack != [] && s.history.stack[0] == s.head
    ensures s.head in s.heap && s.head in s.history.owner && s.history.owner[s.head] == InStack
  {
    hide Replay, OperationsOf, LogOk, IsChain;
  }

  lemma UnlinkedOwns(p: nat, t: Thread, t': Thread, owner: map<Addr, Owner>, top: Addr)
    requires Owns(p, t, owner) && Plain(t.pc) && top in owner && owner[top] == InStack
    requires t' == t.(pc := PopRelease(top))
    ensures Owns(p, t', owner[top := Held(p)])
  {
  }

  lemma UnlinkedThread(s: State, p: nat)
    requires p < |s.threads| && s.threads[p].pc.PopCas? && SharedOk(s) && ThreadOk(s, p)
    requires s.head == s.threads[p].pc.top
    ensures ThreadOk(Unlinked(s, p), p)
  {
    hide Replay, OperationsOf, LogOk, IsChain, OwnersOk, SightingHolds, Owns;
    UnlinkedChain(s, p);
    UnlinkedTop(s, p);
    OperationsOwn(s.history.log, Popped(p, Some(s.heap[s.head].value)));
    UnlinkedOwns(p, s.threads[p], Unlinked(s, p).threads[p], s.history.owner, s.head);
  }

  lemma UnlinkedOther(s: State, p: nat, q: nat)
    requires p < |s.threads| && s.threads[p].pc.PopCas? && SharedOk(s) && ThreadOk(s, p)
    requires s.head == s.threads[p].pc.top && q < |s.threads| && p != q && ThreadOk(s, q)
    ensures ThreadOk(Unlinked(s, p), q)
  {
    hide Replay, OperationsOf, LogOk, IsChain, SightingHolds, Owns;
    UnlinkedChain(s, p);
    UnlinkedTop(s, p);
    OperationsSame(s.history.log, Popped(p, Some(s.heap[s.head].value)), q);
    OwnsOther(q, s.threads[q], s.history.owner, Unlinked(s, p).history.owner, p);
    var pc := s.threads[q].pc;
    if IsProtecting(pc) {
      UnlinkedSighting(s.history, Unlinked(s, p).history, p, pc.top, pc.seen);
    }
  }

  lemma UnlinkedSighting(h: History, h': History, p: nat, top: Addr, seen: Sighting)
    requires SightingHolds(h, top, seen) && h.stack != []
    requires h'.stack == h.stack[1..] && h'.owner == h.owner[h.stack[0] := Held(p)]
    requires |h'.heads| == |h.heads| + 1 && h'.heads[..|h.heads|] == h.heads && h'.pushes == h.pushes
    ensures SightingHolds(h', top, seen)
  {
    if top in h'.owner && h'.owner[top] == InStack {
      assert h.stack[|h.stack| - |seen.stack|] == seen.stack[0];
      assert |seen.stack| < |h.stack|;
      assert h'.stack[|h'.stack| - |seen.stack|..] == h.stack[|h.stack| - |seen.stack|..];
      var i :| seen.heads <= i < |h.heads| && h.heads[i] != top;
      assert h'.heads[i] == h'.heads[..|h.heads|][i];
    }
  }

  lemma PopCasKeeps(s: State, p: nat, spurious: bool)
    requires p < |s.threads| && s.threads[p].pc.PopCas? && Inv(s)
    ensures Safe(DoPopCas(s, p, s.threads[p].pc.top, s.threads[p].pc.next, spurious))
  {
    hide SharedOk, ThreadOk;
    var top := s.threads[p].pc.top;
    if !CasSucceeds(s, top, spurious) {
      PopCasFailKeeps(s, p, spurious);
    } else {
      assert s.(head := top) == s;
      UnlinkedShared(s, p);
      UnlinkedThread(s, p);
      forall q | 0 <= q < |s.threads| && q != p
        ensures ThreadOk(Unlinked(s, p), q)
      {
        UnlinkedOther(s, p, q);
      }
      Assemble(s, Unlinked(s, p), p);
    }
  }

  // A pop that finds the stack empty.

  lemma PopEmptyKeeps(s: State, p: nat)
    requires p < |s.threads| && s.threads[p].pc.PopLoad? && Inv(s) && s.head == NULL
    ensures Safe(DoPopLoad(s, p))
  {
    hide SharedOk, ThreadOk;
    var s' := DoPopLoad(s, p).state;
    EmptyShared(s, p);
    EmptyThread(s, p);
    forall q | 0 <= q < |s.threads| && q != p
      ensures ThreadOk(s', q)
    {
      EmptyOther(s, p, q);
    }
    Assemble(s, s', p);
  }

  lemma EmptyShared(s: State, p: nat)
    requires p < |s.threads| && SharedOk(s) && s.head == NULL
    ensures SharedOk(DoPopLoad(s, p).state)
  {
    hide OperationsOf, OwnersOk, IsChain, LogOk;
    NullHeadIsEmpty(s);
    EmptyLog(s.heap, s.history.log, Popped(p, None));
  }

  lemma EmptyLog(heap: map<Addr, Node>, log: seq<Event>, e: Event)
    requires LogOk(heap, [], log) && e.Popped? && e.result == None
    ensures LogOk(heap, [], log + [e])
  {
    hide Replay, LegalStackHistory;
    LogStep(log, e);
  }

  lemma NullHeadIsEmpty(s: State)
    requires SharedOk(s) && s.head == NULL
    ensures s.history.stack == []
  {
    hide Replay, OperationsOf, LogOk, OwnersOk;
  }

  lemma EmptyThread(s: State, p: nat)
    requires p < |s.threads| && s.threads[p].pc.PopLoad? && s.head == NULL && ThreadOk(s, p)
    ensures ThreadOk(DoPopLoad(s, p).state, p)
  {
    hide Replay, OperationsOf, LegalStackHistory, Owns;
    OperationsOwn(s.history.log, Popped(p, None));
    OwnsPlain(p, s.threads[p], DoPopLoad(s, p).state.threads[p], s.history.owner);
  }

  lemma EmptyOther(s: State, p: nat, q: nat)
    requires p < |s.threads| && q < |s.threads| && p != q && s.head == NULL && ThreadOk(s, q)
    ensures ThreadOk(DoPopLoad(s, p).state, q)
  {
    hide Replay, OperationsOf, LegalStackHistory, Owns;
    OperationsSame(s.history.log, Popped(p, None), q);
  }

  // A sweep keeps or frees one retired node.

  lemma SweptOwns(p: nat, t: Thread, owner: map<Addr, Owner>)
    requires Owns(p, t, owner) && t.pc.Sweep? && t.pc.j == |t.retired|
    ensures Owns(p, Finish(t.(retired := t.pc.kept), p, t.pc.value), owner)
  {
    assert t.retired[t.pc.j..] == [];
  }

  lemma KeptOwns(p: nat, t: Thread, t': Thread, owner: map<Addr, Owner>)
    requires Owns(p, t, owner) && t.pc.Sweep? && t.pc.j < |t.retired|
    requires t' == t.(pc := t.pc.(j := t.pc.j + 1, kept := t.pc.kept + [t.retired[t.pc.j]]))
    ensures Owns(p, t', owner)
  {
    var j := t.pc.j;
    SplitAt(t.retired, j);
    assert Members(t'.pc.kept) == Members(t.pc.kept) + {t.retired[j]};
    assert HeldBy(t') == HeldBy(t);
    assert t.retired[j] !in Members(t.retired[..j]);
    assert forall a :: a in t.pc.kept ==> a in Members(t.pc.kept);
  }

  lemma SplitAt(xs: seq<Addr>, j: nat)
    requires j < |xs|
    ensures Members(xs[j..]) == {xs[j]} + Members(xs[j + 1..])
    ensures Members(xs[..j + 1]) == Members(xs[..j]) + {xs[j]}
  {
    assert xs[j..] == [xs[j]] + xs[j + 1..];
    assert xs[..j + 1] == xs[..j] + [xs[j]];
  }

  lemma FreedOwns(p: nat, t: Thread, t': Thread, owner: map<Addr, Owner>)
    requires Owns(p, t, owner) && t.pc.Sweep? && t.pc.j < |t.retired|
    requires t' == t.(pc := t.pc.(j := t.pc.j + 1))
    ensures t.retired[t.pc.j] in owner && owner[t.retired[t.pc.j]] == Held(p)
    ensures Owns(p, t', owner - {t.retired[t.pc.j]})
  {
    var j, a := t.pc.j, t.retired[t.pc.j];
    SplitAt(t.retired, j);
    assert a !in Members(t.retired[..j]);
    assert a !in Members(t.retired[j + 1..]);
    assert HeldBy(t') == HeldBy(t) - {a};
  }

  lemma SweepKeepThread(s: State, p: nat)
    requires p < |s.threads| && s.threads[p].pc.Sweep? && SharedOk(s) && ThreadOk(s, p)
    requires var t := s.threads[p]; t.pc.j < |t.retired| && t.retired[t.pc.j] in t.pc.hazards
    ensures var pc := s.threads[p].pc; var o := DoSweep(s, p, pc.value, pc.hazards, pc.j, pc.kept);
            o.Ran? && OnlyThread(s, o.state, p) && SharedOk(o.state) && ThreadOk(o.state, p)
  {
    hide Replay, OperationsOf, LogOk, IsChain, OwnersOk, Owns, SightingHolds;
    var t := s.threads[p];
    var t' := t.(pc := t.pc.(j := t.pc.j + 1, kept := t.pc.kept + [t.retired[t.pc.j]]));
    KeptOwns(p, t, t', s.history.owner);
    assert Members(t'.pc.kept) <= t.pc.hazards;
  }

  lemma SweepEndThread(s: State, p: nat)
    requires p < |s.threads| && s.threads[p].pc.Sweep? && SharedOk(s) && ThreadOk(s, p)
    requires s.threads[p].pc.j >= |s.threads[p].retired|
    ensures var pc := s.threads[p].pc; var o := DoSweep(s, p, pc.value, pc.hazards, pc.j, pc.kept);
            o.Ran? && OnlyThread(s, o.state, p) && SharedOk(o.state) && ThreadOk(o.state, p)
  {
    hide Replay, OperationsOf, LogOk, IsChain, OwnersOk, Owns, SightingHolds, Members;
    var t := s.threads[p];
    SweepIndex(s, p);
    DistinctSize(t.pc.kept);
    SubsetSize(Members(t.pc.kept), t.pc.hazards);
    SweptOwns(p, t, s.history.owner);
  }

  lemma SweepIndex(s: State, p: nat)
    requires p < |s.threads| && s.threads[p].pc.Sweep? && ThreadOk(s, p)
    ensures s.threads[p].pc.j <= |s.threads[p].retired| && Distinct(s.threads[p].pc.kept)
  {
    hide Replay, OperationsOf;
  }

  function Freed(s: State, p: nat): State
    requires p < |s.threads| && s.threads[p].pc.Sweep? && s.threads[p].pc.j < |s.threads[p].retired|
  {
    var pc := s.threads[p].pc;
    var a := s.threads[p].retired[pc.j];
    Goto(s, p, pc.(j := pc.j + 1)).(heap := s.heap - {a}, history := s.history.(owner := s.history.owner - {a}))
  }

  predicate Frees(s: State, p: nat) {
    && p < |s.threads| && s.threads[p].pc.Sweep?
    && s.threads[p].pc.j < |s.threads[p].retired|
    && s.threads[p].retired[s.threads[p].pc.j] !in s.threads[p].pc.hazards
  }

  lemma FreedShared(s: State, p: nat)
    requires Frees(s, p) && SharedOk(s) && ThreadOk(s, p)
    ensures s.threads[p].retired[s.threads[p].pc.j] in s.heap
    ensures SharedOk(Freed(s, p))
  {
    hide ThreadOk, IsChain, OwnersOk, LogOk, LoggedBy;
    FreedOwner(s, p);
    WithoutShared(s, s.threads[p].retired[s.threads[p].pc.j]);
  }

  lemma WithoutShared(s: State, a: Addr)
    requires SharedOk(s) && a in s.history.owner && s.history.owner[a] != InStack
    ensures IsChain(s.head, s.heap - {a}, s.history.stack)
    ensures OwnersOk(s.history.stack, s.history.owner - {a}, |s.threads|)
    ensures LogOk(s.heap - {a}, s.history.stack, s.history.log)
  {
    hide Replay, OperationsOf, LegalStackHistory;
    NotStacked(s, a);
  }

  lemma FreedOwner(s: State, p: nat)
    requires Frees(s, p) && ThreadOk(s, p)
    ensures var a := s.threads[p].retired[s.threads[p].pc.j];
            a in s.history.owner && s.history.owner[a] == Held(p)
  {
    hide Replay, OperationsOf, Owns;
    var t := s.threads[p];
    FreedOwns(p, t, t.(pc := t.pc.(j := t.pc.j + 1)), s.history.owner);
  }

  lemma FreedThread(s: State, p: nat)
    requires Frees(s, p) && SharedOk(s) && ThreadOk(s, p)
    ensures ThreadOk(Freed(s, p), p)
  {
    hide Replay, OperationsOf, LogOk, IsChain, OwnersOk, Owns;
    var t := s.threads[p];
    FreedOwns(p, t, t.(pc := t.pc.(j := t.pc.j + 1)), s.history.owner);
  }

  /** The heart of the scheme: a node that `q` validated and may still touch is in the
      hazards of every finished scan that could free it. */
  lemma FreedOther(s: State, p: nat, q: nat)
    requires Frees(s, p) && SharedOk(s) && ThreadOk(s, p)
    requires q < |s.threads| && p != q && ThreadOk(s, q)
    ensures ThreadOk(Freed(s, p), q)
  {
    hide LoggedBy, Replay, OperationsOf, LogOk, IsChain, OwnersOk, Owns, Protects, Covered, Reports, Carries;
    FreedOwner(s, p);
    FreedCarries(s, p, q);
    OwnsOther(q, s.threads[q], s.history.owner, Freed(s, p).history.owner, p);
    HeldApart(s, p, q);
    FreedReport(s, p, q);
    FreedProtects(s, p, q);
  }

  lemma FreedProtects(s: State, p: nat, q: nat)
    requires Frees(s, p) && SharedOk(s) && ThreadOk(s, p)
    requires q < |s.threads| && p != q && ThreadOk(s, q)
    ensures Protects(s.threads[q], s.hp, Freed(s, p).heap, Freed(s, p).history)
    ensures Covered(s.threads[q], Freed(s, p).history.owner, Freed(s, p).threads)
  {
    hide LoggedBy, Replay, OperationsOf, LogOk, IsChain, OwnersOk, Owns, Reports;
    FreedOwner(s, p);
  }

  lemma FreedReport(s: State, p: nat, q: nat)
    requires Frees(s, p) && q < |s.threads| && p != q && ThreadOk(s, q)
    requires s.threads[p].retired[s.threads[p].pc.j] !in HeldBy(s.threads[q])
    ensures Reports(q, s.threads[q], Freed(s, p).heap, s.history.log)
  {
    hide OperationsOf, Replay, Owns, SightingHolds;
  }

  lemma FreedCarries(s: State, p: nat, q: nat)
    requires Frees(s, p) && ThreadOk(s, p) && q < |s.threads| && p != q && ThreadOk(s, q)
    ensures Carries(s.threads[q], Freed(s, p).heap)
  {
    hide Replay, OperationsOf, Covered, Protects, Reports, SightingHolds;
    FreedOwner(s, p);
    var pc := s.threads[q].pc;
    if pc.PushLoad? || pc.PushCas? {
      assert IsPushing(pc, pc.node);
    }
  }

  lemma HeldApart(s: State, p: nat, q: nat)
    requires Frees(s, p) && ThreadOk(s, p) && q < |s.threads| && p != q && ThreadOk(s, q)
    ensures s.threads[p].retired[s.threads[p].pc.j] !in HeldBy(s.threads[q])
  {
    hide Replay, OperationsOf;
    FreedOwner(s, p);
  }

  lemma SweepKeeps(s: State, p: nat)
    requires p < |s.threads| && s.threads[p].pc.Sweep? && Inv(s)
    ensures var pc := s.threads[p].pc; Safe(DoSweep(s, p, pc.value, pc.hazards, pc.j, pc.kept))
  {
    hide SharedOk, ThreadOk;
    var pc := s.threads[p].pc;
    if Frees(s, p) {
      FreedShared(s, p);
      FreedThread(s, p);
      forall q | 0 <= q < |s.threads| && q != p
        ensures ThreadOk(Freed(s, p), q)
      {
        FreedOther(s, p, q);
      }
      Assemble(s, Freed(s, p), p);
    } else {
      if pc.j < |s.threads[p].retired| {
        SweepKeepThread(s, p);
      } else {
        SweepEndThread(s, p);
      }
      var s' := DoSweep(s, p, pc.value, pc.hazards, pc.j, pc.kept).state;
      forall q | 0 <= q < |s.threads| && q != p
        ensures StillCovers(s, s'.threads[p], p, q)
      {
        SweepCovers(s, p, q);
      }
      LocalStep(s, s', p);
    }
  }

  lemma SweepCovers(s: State, p: nat, q: nat)
    requires p < |s.threads| && s.threads[p].pc.Sweep? && q < |s.threads| && q != p && ThreadOk(s, q)
    ensures var pc := s.threads[p].pc; var o := DoSweep(s, p, pc.value, pc.hazards, pc.j, pc.kept);
            o.Ran? ==> StillCovers(s, o.state.threads[p], p, q)
  {
    hide Replay, OperationsOf, Owns, SightingHolds;
  }
}
