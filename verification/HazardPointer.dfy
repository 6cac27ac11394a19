/** A Treiber stack whose popped nodes are reclaimed through hazard pointers, as a
    transition system: any number of threads, one shared-memory access per step.

    Addresses are numbers and a freed address may be handed out again by the allocator,
    so a dangling pointer really can alias a new node. Touching an address that is not
    allocated, or freeing one, ends a run with a fault; `NoRunFaults` shows that no
    schedule ever does. */
module HazardPointer {
  import opened Options

  const MAX_THREADS: nat := 32
  const RETIRE_THRESHOLD: nat := 64

  /** The element type of the stack. */
  type Value(==, !new)

  type Addr = nat
  const NULL: Addr := 0

  datatype Node = Node(value: Value, next: Addr)

  // ---------- Sequential specification ----------

  /** What a linearized operation did, and on behalf of which thread. */
  datatype Event = Pushed(thread: nat, value: Value) | Popped(thread: nat, result: Option<Value>)

  function Top(contents: seq<Value>): Option<Value> {
    if contents == [] then None else Some(contents[0])
  }

  /** The contents of a sequential stack after the operations of `log`. */
  function Replay(log: seq<Event>): seq<Value> {
    if log == [] then []
    else
      var before := Replay(log[..|log| - 1]);
      match log[|log| - 1]
      case Pushed(_, v) => [v] + before
      case Popped(_, _) => if before == [] then [] else before[1..]
  }

  /** Every pop in `log` returned what a sequential stack would have returned. */
  ghost predicate LegalStackHistory(log: seq<Event>) {
    forall i :: 0 <= i < |log| && log[i].Popped? ==> log[i].result == Top(Replay(log[..i]))
  }

  function OperationsOf(log: seq<Event>, p: nat): seq<Event> {
    if log == [] then []
    else
      var before := OperationsOf(log[..|log| - 1], p);
      var last := log[|log| - 1];
      if last.thread == p then before + [last] else before
  }

  function ValuesPushed(log: seq<Event>): multiset<Value> {
    if log == [] then multiset{}
    else
      var before := ValuesPushed(log[..|log| - 1]);
      var last := log[|log| - 1];
      if last.Pushed? then before + multiset{last.value} else before
  }

  function ValuesPopped(log: seq<Event>): multiset<Value> {
    if log == [] then multiset{}
    else
      var before := ValuesPopped(log[..|log| - 1]);
      var last := log[|log| - 1];
      if last.Popped? && last.result.Some? then before + multiset{last.result.value} else before
  }

  // ---------- Program state ----------

  /** What the history remembers of the moment a pop revalidated its node. */
  datatype Sighting = Sighting(stack: seq<Addr>, heads: nat, pushes: nat)

  /** The next access a thread will make. */
  datatype PC =
    | Idle
    | PushLoad(node: Addr, value: Value)               // read head_ into new_node->next
    | PushCas(node: Addr, value: Value)                // compare_exchange_weak
    | PopLoad                                          // read head_ into old_top
    | PopRegister(top: Addr)                           // thread_count.fetch_add
    | PopPublish(top: Addr)                            // hazard_acquire
    | PopValidate(top: Addr)                           // reread head_
    | PopRetract                                       // hazard_release, then try again
    | PopNext(top: Addr, seen: Sighting)               // read old_top->next
    | PopCas(top: Addr, next: Addr, seen: Sighting)    // compare_exchange_weak
    | PopRelease(top: Addr)                            // hazard_release after success
    | PopTake(top: Addr)                               // read old_top->value
    | Retire(top: Addr, value: Value)                  // retire_list.push_back
    | ScanCount(value: Value)                          // read thread_count
    | ScanSlot(value: Value, n: nat, i: nat, hazards: set<Addr>)         // read hp_table[i]
    | Sweep(value: Value, hazards: set<Addr>, j: nat, kept: seq<Addr>)   // free or keep retire_list[j]

  datatype Operation = Push(value: Value) | Pop

  /** `calls` and `returned` are histories: the operations the thread was asked for, with
      their arguments, and what it has reported of them. */
  datatype Thread = Thread(slot: int, pc: PC, retired: seq<Addr>, calls: seq<Operation>, returned: seq<Event>)

  datatype Owner = InStack | Private(p: nat) | Held(p: nat)

  /** History variables: no step's choice of branch depends on them. `heads` lists every
      value `head_` has taken, `log` the operations in the order they took effect, and
      `registered` the thread that took each hazard slot. */
  datatype History = History(stack: seq<Addr>, owner: map<Addr, Owner>, heads: seq<Addr>,
                             pushes: nat, log: seq<Event>, registered: seq<nat>)

  datatype State = State(head: Addr, heap: map<Addr, Node>, hp: seq<Addr>, count: nat,
                         threads: seq<Thread>, history: History)

  /** What the environment decides: the operation an idle thread starts, the address a
      `new` returns, and whether a weak compare-exchange fails spuriously. */
  datatype Choice = Choice(op: Operation, unused: Addr, spurious: bool)

  datatype Outcome = Ran(state: State) | Blocked | UseAfterFree | DoubleFree

  function Init(threads: nat): State {
    State(NULL, map[], seq(MAX_THREADS, _ => NULL), 0,
          seq(threads, _ => Thread(-1, Idle, [], [], [])),
          History([], map[], [NULL], 0, [], []))
  }

  function Goto(s: State, p: nat, pc: PC): State
    requires p < |s.threads|
  {
    s.(threads := s.threads[p := s.threads[p].(pc := pc)])
  }

  // ---------- Steps ----------

  /** An idle thread is asked for an operation. */
  function Call(s: State, p: nat, op: Operation, pc: PC): State
    requires p < |s.threads|
  {
    s.(threads := s.threads[p := s.threads[p].(pc := pc, calls := s.threads[p].calls + [op])])
  }

  function Start(s: State, p: nat, c: Choice): Outcome
    requires p < |s.threads|
  {
    match c.op
    case Push(v) =>
      if c.unused == NULL || c.unused in s.heap then Blocked
      else Ran(Call(s, p, c.op, PushLoad(c.unused, v)).(
                 heap := s.heap[c.unused := Node(v, NULL)],
                 history := s.history.(owner := s.history.owner[c.unused := Private(p)])))
    case Pop => Ran(Call(s, p, c.op, PopLoad))
  }

  function DoPushLoad(s: State, p: nat, node: Addr, value: Value): Outcome
    requires p < |s.threads|
  {
    if node !in s.heap then UseAfterFree
    else Ran(Goto(s, p, PushCas(node, value)).(heap := s.heap[node := s.heap[node].(next := s.head)]))
  }

  function DoPushCas(s: State, p: nat, node: Addr, value: Value, spurious: bool): Outcome
    requires p < |s.threads|
  {
    if node !in s.heap then UseAfterFree
    else if spurious || s.head != s.heap[node].next then
      // a failed exchange stores the head it saw into new_node->next
      Ran(s.(heap := s.heap[node := s.heap[node].(next := s.head)]))
    else
      var e := Pushed(p, value);
      var t := s.threads[p].(pc := Idle, returned := s.threads[p].returned + [e]);
      Ran(s.(head := node, threads := s.threads[p := t],
             history := s.history.(stack := [node] + s.history.stack,
                                   owner := s.history.owner[node := InStack],
                                   heads := s.history.heads + [node],
                                   pushes := s.history.pushes + 1,
                                   log := s.history.log + [e])))
  }

  function DoPopLoad(s: State, p: nat): Outcome
    requires p < |s.threads|
  {
    if s.head == NULL then
      var e := Popped(p, None);
      var t := s.threads[p].(pc := Idle, returned := s.threads[p].returned + [e]);
      Ran(s.(threads := s.threads[p := t], history := s.history.(log := s.history.log + [e])))
    else if s.threads[p].slot < 0 then Ran(Goto(s, p, PopRegister(s.head)))
    else Ran(Goto(s, p, PopPublish(s.head)))
  }

  function DoPopRegister(s: State, p: nat, top: Addr): Outcome
    requires p < |s.threads|
  {
    if s.count >= MAX_THREADS then Blocked
    else
      var t := s.threads[p].(slot := s.count, pc := PopPublish(top));
      Ran(s.(count := s.count + 1, threads := s.threads[p := t],
             history := s.history.(registered := s.history.registered + [p])))
  }

  /** Store `a` in the hazard slot of `p`, then go on at `pc`. */
  function DoPublish(s: State, p: nat, a: Addr, pc: PC): Outcome
    requires p < |s.threads|
  {
    var i := s.threads[p].slot;
    Ran(Goto(if 0 <= i < |s.hp| then s.(hp := s.hp[i := a]) else s, p, pc))
  }

  function DoPopValidate(s: State, p: nat, top: Addr): Outcome
    requires p < |s.threads|
  {
    if s.head != top then Ran(Goto(s, p, PopRetract))
    else Ran(Goto(s, p, PopNext(top, Sighting(s.history.stack, |s.history.heads|, s.history.pushes))))
  }

  function DoPopNext(s: State, p: nat, top: Addr, seen: Sighting): Outcome
    requires p < |s.threads|
  {
    if top !in s.heap then UseAfterFree
    else Ran(Goto(s, p, PopCas(top, s.heap[top].next, seen)))
  }

  predicate CasSucceeds(s: State, top: Addr, spurious: bool) {
    !spurious && s.head == top
  }

  function DoPopCas(s: State, p: nat, top: Addr, next: Addr, spurious: bool): Outcome
    requires p < |s.threads|
  {
    if !CasSucceeds(s, top, spurious) then Ran(Goto(s, p, PopRetract))
    else
      var e := Popped(p, if top in s.heap then Some(s.heap[top].value) else None);
      Ran(Goto(s, p, PopRelease(top)).(
            head := next,
            history := s.history.(stack := if s.history.stack == [] then [] else s.history.stack[1..],
                                  owner := s.history.owner[top := Held(p)],
                                  heads := s.history.heads + [next],
                                  log := s.history.log + [e])))
  }

  function DoPopTake(s: State, p: nat, top: Addr): Outcome
    requires p < |s.threads|
  {
    if top !in s.heap then UseAfterFree
    else Ran(Goto(s, p, Retire(top, s.heap[top].value)))
  }

  function Finish(t: Thread, p: nat, value: Value): Thread {
    t.(pc := Idle, returned := t.returned + [Popped(p, Some(value))])
  }

  function DoRetire(s: State, p: nat, top: Addr, value: Value): Outcome
    requires p < |s.threads|
  {
    var t := s.threads[p].(retired := s.threads[p].retired + [top]);
    var t' := if |t.retired| >= RETIRE_THRESHOLD then t.(pc := ScanCount(value)) else Finish(t, p, value);
    Ran(s.(threads := s.threads[p := t']))
  }

  function DoScanSlot(s: State, p: nat, value: Value, n: nat, i: nat, hazards: set<Addr>): Outcome
    requires p < |s.threads|
  {
    if i >= n then Ran(Goto(s, p, Sweep(value, hazards, 0, [])))
    else
      var a := if i < |s.hp| then s.hp[i] else NULL;
      Ran(Goto(s, p, ScanSlot(value, n, i + 1, if a == NULL then hazards else hazards + {a})))
  }

  function DoSweep(s: State, p: nat, value: Value, hazards: set<Addr>, j: nat, kept: seq<Addr>): Outcome
    requires p < |s.threads|
  {
    var t := s.threads[p];
    if j >= |t.retired| then
      Ran(s.(threads := s.threads[p := Finish(t.(retired := kept), p, value)]))
    else
      var a := t.retired[j];
      if a in hazards then Ran(Goto(s, p, Sweep(value, hazards, j + 1, kept + [a])))
      else if a !in s.heap then DoubleFree
      else Ran(Goto(s, p, Sweep(value, hazards, j + 1, kept)).(
                 heap := s.heap - {a},
                 history := s.history.(owner := s.history.owner - {a})))
  }

  /** One access by thread `p`. */
  function Step(s: State, p: nat, c: Choice): Outcome {
    if p >= |s.threads| then Blocked
    else
      match s.threads[p].pc
      case Idle => Start(s, p, c)
      case PushLoad(node, v) => DoPushLoad(s, p, node, v)
      case PushCas(node, v) => DoPushCas(s, p, node, v, c.spurious)
      case PopLoad => DoPopLoad(s, p)
      case PopRegister(top) => DoPopRegister(s, p, top)
      case PopPublish(top) => DoPublish(s, p, top, PopValidate(top))
      case PopValidate(top) => DoPopValidate(s, p, top)
      case PopRetract => DoPublish(s, p, NULL, PopLoad)
      case PopNext(top, seen) => DoPopNext(s, p, top, seen)
      case PopCas(top, next, _) => DoPopCas(s, p, top, next, c.spurious)
      case PopRelease(top) => DoPublish(s, p, NULL, PopTake(top))
      case PopTake(top) => DoPopTake(s, p, top)
      case Retire(top, v) => DoRetire(s, p, top, v)
      case ScanCount(v) => Ran(Goto(s, p, ScanSlot(v, s.count, 0, {})))
      case ScanSlot(v, n, i, hazards) => DoScanSlot(s, p, v, n, i, hazards)
      case Sweep(v, hazards, j, kept) => DoSweep(s, p, v, hazards, j, kept)
  }

  /** A schedule names the thread that moves and the environment's choice. A blocked
      move leaves the state alone. */
  type Schedule = seq<(nat, Choice)>

  function Run(s: State, schedule: Schedule): Outcome
    decreases |schedule|
  {
    if schedule == [] then Ran(s)
    else
      match Step(s, schedule[0].0, schedule[0].1)
      case Ran(s') => Run(s', schedule[1..])
      case Blocked => Run(s, schedule[1..])
      case fault => fault
  }
}
