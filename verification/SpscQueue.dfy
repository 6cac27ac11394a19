/** A single-producer single-consumer ring, one access to shared memory per step. */
module SpscQueue {
  import opened Masking

  type Value(==, !new)

  /** The producer: read head_, read tail_, write the cell, store head_. */
  datatype Producer =
    | Idle
    | LoadTail(value: Value, head: nat, next: nat)
    | WriteCell(value: Value, head: nat, next: nat)
    | StoreHead(value: Value, next: nat)

  /** The consumer: read tail_, read head_, read the cell, store tail_. */
  datatype Consumer =
    | Ready
    | LoadHead(tail: nat)
    | ReadCell(tail: nat)
    | StoreTail(value: Value, tail: nat)

  /** `pushed` and `popped` are histories: what completed calls have put in and got out. */
  datatype State = State(head: nat, tail: nat, buffer: seq<Value>, producer: Producer, consumer: Consumer,
                         pushed: seq<Value>, popped: seq<Value>)

  /** Either side acts on an index of the other that may be stale by then. `Move` says which
      side moves; a producer that is idle starts to push the given value. */
  datatype Move = Produce(value: Value) | Consume

  function Advance(i: nat, capacity: nat): nat
    requires capacity > 0
  {
    And(i + 1, capacity - 1)
  }

  /** size(): from a head_ and a tail_ that were read one after the other. */
  function SizeOf(head: nat, tail: nat, capacity: nat): nat
    requires tail <= head + capacity && capacity > 0
  {
    And(head - tail + capacity, capacity - 1)
  }

  function Step(s: State, m: Move): State
    requires s.buffer != []
  {
    var n := |s.buffer|;
    match m
    case Produce(v) =>
      (match s.producer
       case Idle => s.(producer := LoadTail(v, s.head, Advance(s.head, n)))
       case LoadTail(x, h, next) =>
         if next == s.tail then s.(producer := Idle) else s.(producer := WriteCell(x, h, next))
       case WriteCell(x, h, next) =>
         if h < n then s.(buffer := s.buffer[h := x], producer := StoreHead(x, next)) else s
       case StoreHead(x, next) => s.(head := next, producer := Idle, pushed := s.pushed + [x]))
    case Consume =>
      match s.consumer
      case Ready => s.(consumer := LoadHead(s.tail))
      case LoadHead(t) => if t == s.head then s.(consumer := Ready) else s.(consumer := ReadCell(t))
      case ReadCell(t) => if t < n then s.(consumer := StoreTail(s.buffer[t], t)) else s
      case StoreTail(x, t) => s.(tail := Advance(t, n), consumer := Ready, popped := s.popped + [x])
  }

  function Run(s: State, moves: seq<Move>): (r: State)
    requires s.buffer != []
    ensures |r.buffer| == |s.buffer|
  {
    if moves == [] then s else Step(Run(s, moves[..|moves| - 1]), moves[|moves| - 1])
  }

  function Init(buffer: seq<Value>): State {
    State(0, 0, buffer, Idle, Ready, [], [])
  }

  // ---------- What the ring holds ----------

  function Cell(t: nat, i: nat, n: nat): (c: nat)
    requires t < n && i < n
    ensures c < n
  {
    if t + i < n then t + i else t + i - n
  }

  /** The values from tail up to head. */
  function Held(buffer: seq<Value>, t: nat, h: nat): (r: seq<Value>)
    requires t < |buffer| && h < |buffer|
    ensures |r| == Distance(t, h, |buffer|)
  {
    seq(Distance(t, h, |buffer|), i requires 0 <= i < Distance(t, h, |buffer|) => buffer[Cell(t, i, |buffer|)])
  }

  ghost predicate ProducerOk(s: State)
    requires s.buffer != [] && s.head < |s.buffer|
  {
    var n := |s.buffer|;
    match s.producer
    case Idle => true
    case LoadTail(_, h, next) => h == s.head && next == Next(s.head, n)
    case WriteCell(_, h, next) => h == s.head && next == Next(s.head, n) && next != s.tail
    case StoreHead(x, next) => s.buffer[s.head] == x && next == Next(s.head, n) && next != s.tail
  }

  ghost predicate ConsumerOk(s: State)
    requires s.buffer != [] && s.tail < |s.buffer|
  {
    match s.consumer
    case Ready => true
    case LoadHead(t) => t == s.tail
    case ReadCell(t) => t == s.tail && t != s.head
    case StoreTail(x, t) => t == s.tail && t != s.head && x == s.buffer[t]
  }

  ghost predicate Inv(s: State) {
    && IsPowerOfTwo(|s.buffer|) && s.head < |s.buffer| && s.tail < |s.buffer|
    && ProducerOk(s) && ConsumerOk(s)
    && s.pushed == s.popped + Held(s.buffer, s.tail, s.head)
  }

  // ---------- Ring arithmetic ----------

  /** The cell after the last one held joins the ring. */
  lemma HeldGrows(buffer: seq<Value>, t: nat, h: nat)
    requires t < |buffer| && h < |buffer| && Next(h, |buffer|) != t
    ensures Held(buffer, t, Next(h, |buffer|)) == Held(buffer, t, h) + [buffer[h]]
  {
  }

  /** The oldest cell leaves it. */
  lemma HeldShrinks(buffer: seq<Value>, t: nat, h: nat)
    requires t < |buffer| && h < |buffer| && t != h
    ensures Held(buffer, t, h) == [buffer[t]] + Held(buffer, Next(t, |buffer|), h)
  {
  }

  /** Writing the cell at head does not touch what is held. */
  lemma HeldUntouched(buffer: seq<Value>, t: nat, h: nat, x: Value)
    requires t < |buffer| && h < |buffer|
    ensures Held(buffer[h := x], t, h) == Held(buffer, t, h)
  {
  }

  lemma ProducerKeepsInv(s: State, v: Value)
    requires Inv(s)
    ensures Inv(Step(s, Produce(v)))
  {
    hide Held, And, IsPowerOfTwo;
    if s.producer.Idle? {
      MaskIsNext(s.head, |s.buffer|);
    } else if s.producer.WriteCell? {
      HeldUntouched(s.buffer, s.tail, s.head, s.producer.value);
    } else if s.producer.StoreHead? {
      HeldGrows(s.buffer, s.tail, s.head);
      assert s.pushed + [s.producer.value] == s.popped + (Held(s.buffer, s.tail, s.head) + [s.producer.value]);
    }
  }

  lemma ConsumerKeepsInv(s: State)
    requires Inv(s)
    ensures Inv(Step(s, Consume))
  {
    hide Held, And, IsPowerOfTwo;
    if s.consumer.StoreTail? {
      MaskIsNext(s.tail, |s.buffer|);
      HeldShrinks(s.buffer, s.tail, s.head);
    }
  }

  lemma StepKeepsInv(s: State, m: Move)
    requires Inv(s)
    ensures Inv(Step(s, m))
  {
    hide *;
    match m
    case Produce(v) => ProducerKeepsInv(s, v);
    case Consume => ConsumerKeepsInv(s);
  }

  lemma {:induction false} RunKeepsInv(s: State, moves: seq<Move>)
    requires Inv(s)
    ensures Inv(Run(s, moves))
  {
    if moves != [] {
      RunKeepsInv(s, moves[..|moves| - 1]);
      StepKeepsInv(Run(s, moves[..|moves| - 1]), moves[|moves| - 1]);
    }
  }

  // ---------- Main results ----------

  /** In every interleaving the values popped, followed by those still buffered, are the
      values pushed, in order; the ring never holds more than capacity - 1. */
  lemma FirstInFirstOut(buffer: seq<Value>, moves: seq<Move>)
    requires IsPowerOfTwo(|buffer|)
    ensures var s := Run(Init(buffer), moves);
            && s.head < |s.buffer| == |buffer| && s.tail < |buffer|
            && s.pushed == s.popped + Held(s.buffer, s.tail, s.head)
            && |s.pushed| - |s.popped| <= |buffer| - 1
  {
    RunKeepsInv(Init(buffer), moves);
  }

  /** The producer never writes the cell that the consumer is about to read, and the
      consumer's value is still in its cell when it gives the cell back. */
  lemma NoOverlap(buffer: seq<Value>, moves: seq<Move>)
    requires IsPowerOfTwo(|buffer|)
    ensures var s := Run(Init(buffer), moves);
            && (s.producer.WriteCell? && s.consumer.ReadCell? ==> s.producer.head != s.consumer.tail)
            && (s.producer.WriteCell? && s.consumer.StoreTail? ==> s.producer.head != s.consumer.tail)
            && (s.consumer.StoreTail? ==> s.consumer.tail < |s.buffer| && s.buffer[s.consumer.tail] == s.consumer.value)
            && (s.producer.WriteCell? ==> s.producer.head < |s.buffer|)
            && (s.consumer.ReadCell? ==> s.consumer.tail < |s.buffer|)
  {
    RunKeepsInv(Init(buffer), moves);
  }

  /** A push gives up exactly when the ring is full at the moment it reads tail_, a pop
      exactly when it is empty at the moment it reads head_. */
  lemma FailsOnlyWhenFullOrEmpty(buffer: seq<Value>, moves: seq<Move>, v: Value)
    requires IsPowerOfTwo(|buffer|)
    ensures var s := Run(Init(buffer), moves);
            && (s.producer.LoadTail? ==>
                  (Step(s, Produce(v)).producer.Idle? <==> |s.pushed| - |s.popped| == |buffer| - 1))
            && (s.consumer.LoadHead? ==>
                  (Step(s, Consume).consumer.Ready? <==> s.pushed == s.popped))
  {
    RunKeepsInv(Init(buffer), moves);
    var s := Run(Init(buffer), moves);
    hide Run;
    assert Distance(s.tail, s.head, |buffer|) == |s.pushed| - |s.popped|;
  }

  // ---------- Calls return, with the right outcome ----------

  function Consumes(moves: seq<Move>): nat {
    if moves == [] then 0
    else Consumes(moves[..|moves| - 1]) + if moves[|moves| - 1].Consume? then 1 else 0
  }

  /** The values given to the producer; all but the first of a call are ignored. */
  function Offered(moves: seq<Move>): seq<Value> {
    if moves == [] then []
    else Offered(moves[..|moves| - 1]) + if moves[|moves| - 1].Produce? then [moves[|moves| - 1].value] else []
  }

  /** How many moves a pop still takes when it finds a value. */
  function ConsumerLeft(c: Consumer): (k: nat)
    ensures k > 0
  {
    match c case Ready => 4 case LoadHead(_) => 3 case ReadCell(_) => 2 case StoreTail(_, _) => 1
  }

  function ProducerLeft(q: Producer): (k: nat)
    ensures k > 0
  {
    match q case Idle => 4 case LoadTail(_, _, _) => 3 case WriteCell(_, _, _) => 2 case StoreHead(_, _) => 1
  }

  lemma Buffered(s: State)
    requires Inv(s)
    ensures s.popped <= s.pushed && |s.pushed| - |s.popped| == Distance(s.tail, s.head, |s.buffer|)
    ensures |s.pushed| - |s.popped| <= |s.buffer| - 1
    ensures s.pushed != s.popped <==> s.head != s.tail
    ensures s.head != s.tail ==> s.pushed[|s.popped|] == s.buffer[s.tail]
    ensures |s.pushed| - |s.popped| < |s.buffer| - 1 <==> Next(s.head, |s.buffer|) != s.tail
  {
  }

  /** What the other side does leaves a side alone and only adds to the values. */
  lemma ProducerAside(s: State, m: Move)
    requires Inv(s) && m.Produce?
    ensures var r := Step(s, m); r.consumer == s.consumer && r.popped == s.popped && r.tail == s.tail
    ensures s.pushed <= Step(s, m).pushed
  {
  }

  lemma ConsumerAside(s: State, m: Move)
    requires Inv(s) && m.Consume?
    ensures var r := Step(s, m); r.producer == s.producer && r.pushed == s.pushed && r.head == s.head
    ensures s.popped <= Step(s, m).popped
  {
  }

  lemma ConsumerStep(s: State)
    requires Inv(s) && s.pushed != s.popped
    ensures var r, left := Step(s, Consume), ConsumerLeft(s.consumer);
            && r.pushed == s.pushed
            && if left == 1 then r.consumer.Ready? && r.popped == s.popped + [s.pushed[|s.popped|]]
               else ConsumerLeft(r.consumer) == left - 1 && r.popped == s.popped
  {
    hide Held, And, IsPowerOfTwo;
    Buffered(s);
  }

  /** A pop that finds a value finishes in four moves of the consumer, whatever the producer does
      in between, and gets the oldest value that was not popped. */
  lemma {:induction false} PopSucceeds(s: State, moves: seq<Move>)
    requires Inv(s) && s.pushed != s.popped && Consumes(moves) <= ConsumerLeft(s.consumer)
    ensures var r, left := Run(s, moves), ConsumerLeft(s.consumer);
            && s.popped <= s.pushed <= r.pushed
            && if Consumes(moves) == left then r.consumer.Ready? && r.popped == s.popped + [s.pushed[|s.popped|]]
               else ConsumerLeft(r.consumer) == left - Consumes(moves) && r.popped == s.popped
  {
    hide Step, Inv, ConsumerLeft;
    Buffered(s);
    if moves != [] {
      var before, m := moves[..|moves| - 1], moves[|moves| - 1];
      PopSucceeds(s, before);
      RunKeepsInv(s, before);
      var r := Run(s, before);
      if m.Consume? {
        ConsumerStep(r);
      } else {
        ProducerAside(r, m);
      }
    }
  }

  lemma {:induction false} PopStarts(s: State, moves: seq<Move>)
    requires Inv(s) && s.consumer.Ready? && Consumes(moves) <= 1
    ensures var r := Run(s, moves);
            r.popped == s.popped && if Consumes(moves) == 0 then r.consumer.Ready? else r.consumer.LoadHead?
  {
    if moves != [] {
      var before, m := moves[..|moves| - 1], moves[|moves| - 1];
      PopStarts(s, before);
      RunKeepsInv(s, before);
      if m.Produce? {
        ProducerAside(Run(s, before), m);
      }
      hide Inv;
    }
  }

  /** A pop reads tail_ in its first move and head_ in its second. If the ring is empty then, it
      fails at once; otherwise it takes two more moves and gets the oldest value. */
  lemma PopOutcome(s: State, before: seq<Move>, rest: seq<Move>)
    requires Inv(s) && s.consumer.Ready? && Consumes(before) == 1
    ensures var r := Run(s, before);
            var q := Step(r, Consume);
            && (r.pushed == r.popped ==> q.consumer.Ready? && q.popped == s.popped)
            && (r.pushed != r.popped && Consumes(rest) == 2 ==>
                  && |s.popped| < |r.pushed|
                  && Run(q, rest).consumer.Ready? && Run(q, rest).popped == s.popped + [r.pushed[|s.popped|]])
  {
    hide Step, Inv, Held;
    PopStarts(s, before);
    RunKeepsInv(s, before);
    var r := Run(s, before);
    StepKeepsInv(r, Consume);
    Buffered(r);
    if r.pushed != r.popped {
      ConsumerStep(r);
      if Consumes(rest) == 2 {
        PopSucceeds(Step(r, Consume), rest);
      }
    } else {
      PopOfNothing(r);
    }
  }

  lemma PopOfNothing(s: State)
    requires Inv(s) && s.consumer.LoadHead? && s.pushed == s.popped
    ensures Step(s, Consume).consumer.Ready? && Step(s, Consume).popped == s.popped
  {
    Buffered(s);
  }

  /** The value a push under way is to add, or the one it is called with. */
  function Argument(q: Producer, moves: seq<Move>): Value
    requires q.Idle? ==> Offered(moves) != []
  {
    if q.Idle? then Offered(moves)[0] else q.value
  }

  lemma ProducerStep(s: State, v: Value)
    requires Inv(s) && |s.pushed| - |s.popped| < |s.buffer| - 1
    ensures var r, left := Step(s, Produce(v)), ProducerLeft(s.producer);
            && r.popped == s.popped && |r.buffer| == |s.buffer|
            && if left == 1 then r.producer.Idle? && r.pushed == s.pushed + [s.producer.value]
               else ProducerLeft(r.producer) == left - 1 && !r.producer.Idle? && r.pushed == s.pushed
                    && r.producer.value == if s.producer.Idle? then v else s.producer.value
  {
    hide Held, And, IsPowerOfTwo;
    Buffered(s);
    MaskIsNext(s.head, |s.buffer|);
  }

  /** A push that finds room finishes in four moves of the producer, whatever the consumer does
      in between, and adds its argument. */
  lemma {:induction false} PushSucceeds(s: State, moves: seq<Move>)
    requires Inv(s) && |s.pushed| - |s.popped| < |s.buffer| - 1 && |Offered(moves)| <= ProducerLeft(s.producer)
    ensures var r, left, n := Run(s, moves), ProducerLeft(s.producer), |Offered(moves)|;
            && s.popped <= r.popped
            && if n == left then r.producer.Idle? && r.pushed == s.pushed + [Argument(s.producer, moves)]
               else ProducerLeft(r.producer) == left - n && r.pushed == s.pushed
                    && if n == 0 then r.producer == s.producer
                       else !r.producer.Idle? && r.producer.value == Argument(s.producer, moves)
  {
    hide Step, Inv;
    if moves != [] {
      var before, m := moves[..|moves| - 1], moves[|moves| - 1];
      PushSucceeds(s, before);
      RunKeepsInv(s, before);
      var r := Run(s, before);
      if m.Produce? {
        ProducerStep(r, m.value);
      } else {
        ConsumerAside(r, m);
      }
    }
  }

  lemma {:induction false} PushStarts(s: State, moves: seq<Move>)
    requires Inv(s) && s.producer.Idle? && |Offered(moves)| <= 1
    ensures var r := Run(s, moves);
            && r.pushed == s.pushed
            && if |Offered(moves)| == 0 then r.producer.Idle?
               else r.producer.LoadTail? && r.producer.value == Offered(moves)[0]
  {
    if moves != [] {
      var before, m := moves[..|moves| - 1], moves[|moves| - 1];
      PushStarts(s, before);
      RunKeepsInv(s, before);
      if m.Consume? {
        ConsumerAside(Run(s, before), m);
      }
      hide Inv;
    }
  }

  /** A push reads head_ in its first move and tail_ in its second. If the ring is full then, it
      fails at once; otherwise it takes two more moves and adds its argument. */
  lemma PushOutcome(s: State, before: seq<Move>, v: Value, rest: seq<Move>)
    requires Inv(s) && s.producer.Idle? && |Offered(before)| == 1
    ensures var r := Run(s, before);
            var q := Step(r, Produce(v));
            && (|r.pushed| - |r.popped| == |s.buffer| - 1 ==> q.producer.Idle? && q.pushed == s.pushed)
            && (|r.pushed| - |r.popped| != |s.buffer| - 1 && |Offered(rest)| == 2 ==>
                  Run(q, rest).producer.Idle? && Run(q, rest).pushed == s.pushed + Offered(before))
  {
    hide Step, Inv, Held;
    PushStarts(s, before);
    RunKeepsInv(s, before);
    var r := Run(s, before);
    StepKeepsInv(r, Produce(v));
    Buffered(r);
    if |r.pushed| - |r.popped| == |s.buffer| - 1 {
      PushOfFull(r, v);
    } else {
      ProducerStep(r, v);
      if |Offered(rest)| == 2 {
        PushSucceeds(Step(r, Produce(v)), rest);
      }
    }
  }

  lemma PushOfFull(s: State, v: Value)
    requires Inv(s) && s.producer.LoadTail? && |s.pushed| - |s.popped| == |s.buffer| - 1
    ensures Step(s, Produce(v)).producer.Idle? && Step(s, Produce(v)).pushed == s.pushed
  {
    Buffered(s);
  }

  // ---------- size() ----------

  /** The two indices count the completed calls around the ring. */
  ghost predicate Counted(s: State) {
    s.buffer != [] && s.head == |s.pushed| % |s.buffer| && s.tail == |s.popped| % |s.buffer|
  }

  lemma CountOneMore(k: nat, n: nat)
    requires n > 0
    ensures (k + 1) % n == Next(k % n, n)
  {
    var q, r := k / n, k % n;
    if r + 1 == n {
      assert k + 1 == n * (q + 1);
      RemainderIs(k + 1, n, q + 1, 0);
    } else {
      RemainderIs(k + 1, n, q, r + 1);
    }
  }

  lemma StepCounts(s: State, m: Move)
    requires Inv(s) && Counted(s)
    ensures Counted(Step(s, m)) && |s.popped| <= |Step(s, m).popped|
  {
    hide Held, And, IsPowerOfTwo;
    var n := |s.buffer|;
    match m
    case Produce(_) =>
      if s.producer.StoreHead? {
        CountOneMore(|s.pushed|, n);
      }
    case Consume =>
      if s.consumer.StoreTail? {
        CountOneMore(|s.popped|, n);
        MaskIsNext(s.tail, n);
      }
  }

  lemma {:induction false} RunCounts(s: State, moves: seq<Move>)
    requires Inv(s) && Counted(s)
    ensures Counted(Run(s, moves))
    ensures |s.popped| <= |Run(s, moves).popped|
  {
    if moves != [] {
      var r := Run(s, moves[..|moves| - 1]);
      RunCounts(s, moves[..|moves| - 1]);
      RunKeepsInv(s, moves[..|moves| - 1]);
      StepCounts(r, moves[|moves| - 1]);
      hide Step, Inv, Counted;
    }
  }

  /** size() reads head_, then tail_ after any number of steps in between. What it returns
      is, modulo the capacity, the number of values pushed by the first read and not popped
      by the second; it is that number except exactly when the consumer has meanwhile popped
      beyond the head that was read. */
  lemma SizeUnlessOvertaken(buffer: seq<Value>, before: seq<Move>, between: seq<Move>)
    requires IsPowerOfTwo(|buffer|)
    ensures var s := Run(Init(buffer), before);
            var t := Run(s, between);
            && s.head < |buffer| && t.tail < |buffer|
            && SizeOf(s.head, t.tail, |buffer|) == (|s.pushed| - |t.popped|) % |buffer|
            && (SizeOf(s.head, t.tail, |buffer|) == |s.pushed| - |t.popped| <==> |t.popped| <= |s.pushed|)
  {
    hide Run, Held, And, IsPowerOfTwo, Inv, Counted, SizeOf;
    CountedFromStart(buffer);
    var n, s := |buffer|, Run(Init(buffer), before);
    var t := Run(s, between);
    RunKeepsInv(Init(buffer), before);
    RunKeepsInv(s, between);
    RunCounts(Init(buffer), before);
    RunCounts(s, between);
    CountsMean(s);
    CountsMean(t);
    SizeIsRemainder(|s.pushed|, |t.popped|, n);
    if |t.popped| <= |s.pushed| {
      RemainderIs(|s.pushed| - |t.popped|, n, 0, |s.pushed| - |t.popped|);
    }
  }

  lemma {:induction false} OneSideMoves(s: State, moves: seq<Move>)
    requires s.buffer != []
    ensures (forall i :: 0 <= i < |moves| ==> moves[i].Consume?) ==> Run(s, moves).pushed == s.pushed
    ensures (forall i :: 0 <= i < |moves| ==> moves[i].Produce?) ==> Run(s, moves).popped == s.popped
  {
    if moves != [] {
      OneSideMoves(s, moves[..|moves| - 1]);
    }
  }

  /** Called by the producer, between whose own operations only the consumer moves, size()
      is the number of values buffered at its second read. */
  lemma SizeForProducer(buffer: seq<Value>, before: seq<Move>, between: seq<Move>)
    requires IsPowerOfTwo(|buffer|) && forall i :: 0 <= i < |between| ==> between[i].Consume?
    ensures var s := Run(Init(buffer), before);
            var t := Run(s, between);
            && s.head < |buffer| && t.tail < |buffer|
            && SizeOf(s.head, t.tail, |buffer|) == |t.pushed| - |t.popped|
  {
    hide Run, Held, And, IsPowerOfTwo, Inv, SizeOf;
    BufferKept(buffer, before, between);
    var s := Run(Init(buffer), before);
    SizeUnlessOvertaken(buffer, before, between);
    OneSideMoves(s, between);
  }

  /** Called by the consumer it is the number of values buffered at its first read. */
  lemma SizeForConsumer(buffer: seq<Value>, before: seq<Move>, between: seq<Move>)
    requires IsPowerOfTwo(|buffer|) && forall i :: 0 <= i < |between| ==> between[i].Produce?
    ensures var s := Run(Init(buffer), before);
            var t := Run(s, between);
            && s.head < |buffer| && t.tail < |buffer|
            && SizeOf(s.head, t.tail, |buffer|) == |s.pushed| - |s.popped|
  {
    hide Run, Held, And, IsPowerOfTwo, Inv, SizeOf;
    BufferKept(buffer, before, between);
    var s := Run(Init(buffer), before);
    SizeUnlessOvertaken(buffer, before, between);
    OneSideMoves(s, between);
  }

  lemma BufferKept(buffer: seq<Value>, before: seq<Move>, between: seq<Move>)
    requires IsPowerOfTwo(|buffer|)
    ensures buffer != []
    ensures var s := Run(Init(buffer), before);
            var t := Run(s, between);
            && |s.popped| <= |s.pushed| && |t.popped| <= |t.pushed|
  {
    RunKeepsInv(Init(buffer), before);
    RunKeepsInv(Run(Init(buffer), before), between);
  }

  /** A third thread can be wrong. On capacity 2 it reads head_ of the empty ring, one value
      goes in and out, it reads tail_, and size() is 1 although the ring is empty at both
      reads. */
  lemma ThirdThreadMiscounts(buffer: seq<Value>, v: Value)
    requires |buffer| == 2
    ensures var s := Init(buffer);
            var t := Run(s, [Produce(v), Produce(v), Produce(v), Produce(v), Consume, Consume, Consume, Consume]);
            && s.pushed == s.popped && t.pushed == t.popped && |t.popped| == |s.pushed| + 1
            && t.tail < 2 && SizeOf(s.head, t.tail, 2) == 1
  {
    var s := Init(buffer);
    var p, c := Produce(v), Consume;
    MasksOfTwo();
    RunFour(s, p);
    var t := Run(s, [p, p, p, p]);
    assert t == State(1, 0, buffer[0 := v], Idle, Ready, [v], []) by { hide And, Run; }
    RunFour(t, c);
    var u := Run(t, [c, c, c, c]);
    assert u == State(1, 1, buffer[0 := v], Idle, Ready, [v], [v]) by { hide And, Run; }
    RunConcat(s, [p, p, p, p], [c, c, c, c]);
    assert [p, p, p, p, c, c, c, c] == [p, p, p, p] + [c, c, c, c];
  }

  lemma MasksOfTwo()
    ensures And(1, 1) == 1 && And(2, 1) == 0
  {
    MaskIsRemainder(1, 2);
    MaskIsRemainder(2, 2);
  }

  lemma {:induction false} RunConcat(s: State, a: seq<Move>, b: seq<Move>)
    requires s.buffer != []
    ensures Run(s, a + b) == Run(Run(s, a), b)
    decreases |b|
  {
    if b == [] {
      assert a + b == a;
    } else {
      RunConcat(s, a, b[..|b| - 1]);
      assert (a + b)[..|a + b| - 1] == a + b[..|b| - 1];
    }
  }

  lemma RunFour(s: State, m: Move)
    requires s.buffer != []
    ensures Run(s, [m, m, m, m]) == Step(Step(Step(Step(s, m), m), m), m)
  {
    hide Step;
    assert [m, m, m, m][..3] == [m, m, m] && [m, m, m][..2] == [m, m] && [m, m][..1] == [m] && [m][..0] == [];
    assert Run(s, [m]) == Step(s, m);
    assert Run(s, [m, m]) == Step(Run(s, [m]), m);
    assert Run(s, [m, m, m]) == Step(Run(s, [m, m]), m);
  }

  lemma CountedFromStart(buffer: seq<Value>)
    requires IsPowerOfTwo(|buffer|)
    ensures buffer != [] && Inv(Init(buffer)) && Counted(Init(buffer))
  {
    RemainderIs(0, |buffer|, 0, 0);
  }

  lemma CountsMean(s: State)
    requires Inv(s) && Counted(s)
    ensures |s.buffer| > 0 && s.head == |s.pushed| % |s.buffer| && s.tail == |s.popped| % |s.buffer|
    ensures s.head < |s.buffer| && s.tail < |s.buffer|
    ensures |s.popped| <= |s.pushed| < |s.popped| + |s.buffer|
  {
  }

  lemma SizeIsRemainder(pushes: nat, pops: nat, n: nat)
    requires IsPowerOfTwo(n)
    ensures SizeOf(pushes % n, pops % n, n) == (pushes - pops) % n
  {
    var x := pushes % n - pops % n + n;
    MaskIsRemainder(x, n);
    hide And, IsPowerOfTwo;
    DropMultiples(pushes, pops, n);
  }

  lemma DropMultiples(x: nat, y: nat, n: nat)
    requires n > 0
    ensures (x % n - y % n + n) % n == (x - y) % n
  {
    var k := 1 - x / n + y / n;
    assert x % n - y % n + n == x - y + n * k by {
      Distribute(n, x / n, y / n);
    }
    AddMultiple(x - y, n, k);
  }

  lemma Distribute(n: int, a: int, b: int)
    ensures n * (1 - a + b) == n - n * a + n * b
  {
  }

  lemma AddMultiple(x: int, n: int, k: int)
    requires n > 0
    ensures (x + n * k) % n == x % n
  {
    var q := x / n;
    assert n * (q + k) == n * q + n * k;
    RemainderIs(x + n * k, n, q + k, x % n);
  }
}
