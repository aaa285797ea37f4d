// One producer broadcasts a message to N consumers in rounds, through a shared counter, a
// semaphore that counts the consumers ready for the next round, a mutex and a condition
// variable. Every operation on them is one step of one thread.
module Broadcast {

  datatype ProducerPc = PLoop | PTake(i: nat) | PLock | PSend | PBroadcast | PUnlock | PDone

  // CAsleep is inside pthread_cond_wait, CWoken on the way out, waiting for the mutex.
  datatype ConsumerPc = CLoop | CLock | CPost | CTest | CAsleep | CWoken | CPrint | CUnlock | CStore | CDone

  // `count` is what the loop counter still holds; `received` is history: the messages printed.
  datatype Consumer = Consumer(pc: ConsumerPc, local: nat, count: nat, received: seq<nat>)

  datatype Owner = Nobody | Producer | ConsumerNo(c: nat)

  datatype State = State(
    rounds: nat, message: nat, sem: nat, mutex: Owner, producer: ProducerPc, count: nat, consumers: seq<Consumer>)

  // What the scheduler lets happen next; a sleeping consumer may wake up for no reason.
  datatype Action = AdvanceProducer | AdvanceConsumer(c: nat) | SpuriousWakeup(c: nat)

  function Init(consumers: nat, rounds: nat): State {
    State(rounds, 0, 0, Nobody, PLoop, rounds, seq(consumers, _ => Consumer(CLoop, 0, rounds, [])))
  }

  function Wake(c: Consumer): Consumer {
    if c.pc.CAsleep? then c.(pc := CWoken) else c
  }

  function StepProducer(s: State): State {
    match s.producer
    case PLoop => if s.count == 0 then s.(producer := PDone) else s.(producer := PTake(0), count := s.count - 1)
    case PTake(i) =>
      if i >= |s.consumers| then s.(producer := PLock)
      else if s.sem == 0 then s
      else s.(producer := PTake(i + 1), sem := s.sem - 1)
    case PLock => if s.mutex.Nobody? then s.(producer := PSend, mutex := Producer) else s
    case PSend => s.(producer := PBroadcast, message := s.message + 1)
    case PBroadcast =>
      s.(producer := PUnlock,
         consumers := seq(|s.consumers|, c requires 0 <= c < |s.consumers| => Wake(s.consumers[c])))
    case PUnlock => s.(producer := PLoop, mutex := Nobody)
    case PDone => s
  }

  function Put(s: State, c: nat, x: Consumer): State
    requires c < |s.consumers|
  {
    s.(consumers := s.consumers[c := x])
  }

  function StepConsumer(s: State, c: nat): State
    requires c < |s.consumers|
  {
    var x := s.consumers[c];
    match x.pc
    case CLoop => if x.count == 0 then Put(s, c, x.(pc := CDone)) else Put(s, c, x.(pc := CLock, count := x.count - 1))
    case CLock => if s.mutex.Nobody? then Put(s, c, x.(pc := CPost)).(mutex := ConsumerNo(c)) else s
    case CPost => Put(s, c, x.(pc := CTest)).(sem := s.sem + 1)
    case CTest =>
      if x.local == s.message then Put(s, c, x.(pc := CAsleep)).(mutex := Nobody) else Put(s, c, x.(pc := CPrint))
    case CAsleep => s
    case CWoken => if s.mutex.Nobody? then Put(s, c, x.(pc := CTest)).(mutex := ConsumerNo(c)) else s
    case CPrint => Put(s, c, x.(pc := CUnlock, received := x.received + [s.message]))
    case CUnlock => Put(s, c, x.(pc := CStore)).(mutex := Nobody)
    case CStore => Put(s, c, x.(pc := CLoop, local := s.message))
    case CDone => s
  }

  function Step(s: State, a: Action): State {
    match a
    case AdvanceProducer => StepProducer(s)
    case AdvanceConsumer(c) => if c < |s.consumers| then StepConsumer(s, c) else s
    case SpuriousWakeup(c) => if c < |s.consumers| then Put(s, c, Wake(s.consumers[c])) else s
  }

  function Run(s: State, schedule: seq<Action>): State {
    if schedule == [] then s else Step(Run(s, schedule[..|schedule| - 1]), schedule[|schedule| - 1])
  }

  // ---------------------------------------------------------------- invariant

  predicate Printed(x: Consumer) { x.pc.CUnlock? || x.pc.CStore? }

  // The consumer has posted in its current round and not yet printed.
  predicate Ready(x: Consumer) { x.pc.CTest? || x.pc.CAsleep? || x.pc.CWoken? || x.pc.CPrint? }

  predicate InRound(x: Consumer) { Ready(x) || x.pc.CLock? || x.pc.CPost? }

  // How often the consumer has posted the semaphore.
  function Posts(x: Consumer): nat {
    |x.received| + if Ready(x) then 1 else 0
  }

  ghost predicate ConsumerOk(rounds: nat, message: nat, broadcasting: bool, x: Consumer) {
    && (forall k :: 0 <= k < |x.received| ==> x.received[k] == k + 1)
    && x.count + |x.received| + (if InRound(x) then 1 else 0) == rounds
    && (if Printed(x) then x.local + 1 == |x.received| else x.local == |x.received|)
    && message <= Posts(x) <= message + 1
    && |x.received| <= message
    && (x.pc.CPrint? ==> x.local != message)
    && (x.pc.CAsleep? ==> x.local == message || broadcasting)
    && (x.pc.CDone? ==> x.count == 0)
  }

  ghost predicate ConsumersOk(s: State) {
    forall c :: 0 <= c < |s.consumers| ==> ConsumerOk(s.rounds, s.message, s.producer.PBroadcast?, s.consumers[c])
  }

  // Consumers that are ready for the round after the current message.
  function Ahead(consumers: seq<Consumer>, message: nat): nat {
    if consumers == [] then 0
    else Ahead(consumers[1..], message) + if Posts(consumers[0]) == message + 1 then 1 else 0
  }

  ghost predicate MutexOk(s: State) {
    && (s.mutex.Producer? <==> s.producer.PSend? || s.producer.PBroadcast? || s.producer.PUnlock?)
    && (forall c :: 0 <= c < |s.consumers| ==>
          (s.mutex == ConsumerNo(c) <==>
             s.consumers[c].pc.CPost? || s.consumers[c].pc.CTest? ||
             s.consumers[c].pc.CPrint? || s.consumers[c].pc.CUnlock?))
    && (s.mutex.ConsumerNo? ==> s.mutex.c < |s.consumers|)
  }

  // Semaphore tokens the producer has taken for the coming message.
  function Taken(s: State): nat {
    match s.producer
    case PTake(i) => i
    case PLock => |s.consumers|
    case PSend => |s.consumers|
    case _ => 0
  }

  ghost predicate ProducerOk(s: State) {
    && s.sem + Taken(s) == Ahead(s.consumers, s.message)
    && s.count + s.message + (if s.producer.PTake? || s.producer.PLock? || s.producer.PSend? then 1 else 0) == s.rounds
    && (s.producer.PTake? ==> s.producer.i <= |s.consumers|)
    && (s.producer.PDone? ==> s.count == 0)
  }

  ghost predicate Inv(s: State) {
    ProducerOk(s) && MutexOk(s) && ConsumersOk(s)
  }

  lemma {:induction false} AheadUpdate(consumers: seq<Consumer>, c: nat, x: Consumer, message: nat)
    requires c < |consumers|
    ensures Ahead(consumers[c := x], message) == Ahead(consumers, message)
      - (if Posts(consumers[c]) == message + 1 then 1 else 0) + (if Posts(x) == message + 1 then 1 else 0)
  {
    if c > 0 {
      AheadUpdate(consumers[1..], c - 1, x, message);
      assert consumers[c := x][1..] == consumers[1..][c - 1 := x];
    } else {
      assert consumers[0 := x][1..] == consumers[1..];
    }
  }

  // If as many consumers are ahead as there are, all are.
  lemma {:induction false} AheadBounds(consumers: seq<Consumer>, message: nat)
    ensures Ahead(consumers, message) <= |consumers|
    ensures Ahead(consumers, message) == |consumers| <==>
      forall c :: 0 <= c < |consumers| ==> Posts(consumers[c]) == message + 1
    ensures Ahead(consumers, message) == 0 <==>
      forall c :: 0 <= c < |consumers| ==> Posts(consumers[c]) != message + 1
  {
    if consumers != [] {
      AheadBounds(consumers[1..], message);
      assert forall c :: 0 <= c < |consumers| - 1 ==> consumers[1..][c] == consumers[c + 1];
      assert forall c :: 0 < c < |consumers| ==> consumers[c] == consumers[1..][c - 1];
    }
  }

  lemma InitInv(consumers: nat, rounds: nat)
    ensures Inv(Init(consumers, rounds))
  {
    AheadBounds(Init(consumers, rounds).consumers, 0);
  }

  lemma ConsumerKeepsMutex(s: State, c: nat)
    requires MutexOk(s) && c < |s.consumers|
    ensures MutexOk(StepConsumer(s, c))
  {
  }

  lemma ConsumerKeepsConsumers(s: State, c: nat)
    requires Inv(s) && c < |s.consumers|
    ensures ConsumersOk(StepConsumer(s, c))
  {
    assert ConsumerOk(s.rounds, s.message, s.producer.PBroadcast?, s.consumers[c]);
    ConsumerKeepsItself(s, c);
    hide ConsumerOk, MutexOk, ProducerOk;
    var r := StepConsumer(s, c);
    assert r.consumers == s.consumers[c := r.consumers[c]];
    assert r.rounds == s.rounds && r.message == s.message && r.producer == s.producer;
  }

  lemma ConsumerKeepsItself(s: State, c: nat)
    requires MutexOk(s) && c < |s.consumers|
    requires ConsumerOk(s.rounds, s.message, s.producer.PBroadcast?, s.consumers[c])
    ensures var r := StepConsumer(s, c);
      |r.consumers| == |s.consumers| && ConsumerOk(s.rounds, s.message, s.producer.PBroadcast?, r.consumers[c])
  {
    if s.consumers[c].pc.CTest? { assert s.mutex == ConsumerNo(c) && !s.producer.PBroadcast?; }
    hide MutexOk;
  }

  lemma ConsumerKeepsTokens(s: State, c: nat)
    requires Inv(s) && c < |s.consumers|
    ensures ProducerOk(StepConsumer(s, c))
  {
    hide Ahead;
    var r := StepConsumer(s, c);
    assert ConsumerOk(s.rounds, s.message, s.producer.PBroadcast?, s.consumers[c]);
    AheadUpdate(s.consumers, c, r.consumers[c], s.message);
    assert r.consumers == s.consumers[c := r.consumers[c]];
  }

  lemma ProducerKeepsMutex(s: State)
    requires MutexOk(s)
    ensures MutexOk(StepProducer(s))
  {
  }

  lemma ProducerKeepsConsumers(s: State)
    requires Inv(s)
    ensures ConsumersOk(StepProducer(s))
  {
    var r := StepProducer(s);
    AheadBounds(s.consumers, s.message);
    forall c | 0 <= c < |r.consumers|
      ensures ConsumerOk(r.rounds, r.message, r.producer.PBroadcast?, r.consumers[c])
    {
      ProducerKeepsConsumer(s, c);
    }
  }

  // While the producer sends, every consumer is ready for the message and none is printing.
  lemma ProducerKeepsConsumer(s: State, c: nat)
    requires MutexOk(s) && c < |s.consumers|
    requires ConsumerOk(s.rounds, s.message, s.producer.PBroadcast?, s.consumers[c])
    requires s.producer.PSend? ==> Posts(s.consumers[c]) == s.message + 1
    ensures var r := StepProducer(s);
      |r.consumers| == |s.consumers| && ConsumerOk(r.rounds, r.message, r.producer.PBroadcast?, r.consumers[c])
  {
    if s.producer.PSend? { assert !s.consumers[c].pc.CPrint?; }
  }

  lemma ProducerKeepsTokens(s: State)
    requires Inv(s)
    ensures ProducerOk(StepProducer(s))
  {
    var r := StepProducer(s);
    AheadBounds(s.consumers, s.message);
    if s.producer.PSend? {
      AheadBounds(r.consumers, r.message);
    } else if s.producer.PBroadcast? {
      AheadWakes(s.consumers, r.consumers, s.message);
    }
  }

  lemma {:induction false} AheadWakes(xs: seq<Consumer>, ys: seq<Consumer>, message: nat)
    requires |xs| == |ys| && forall c :: 0 <= c < |xs| ==> ys[c] == Wake(xs[c])
    ensures Ahead(xs, message) == Ahead(ys, message)
  {
    if xs != [] { AheadWakes(xs[1..], ys[1..], message); }
  }

  lemma WakeupKeeps(s: State, c: nat)
    requires Inv(s) && c < |s.consumers|
    ensures Inv(Put(s, c, Wake(s.consumers[c])))
  {
    hide Ahead;
    assert ConsumerOk(s.rounds, s.message, s.producer.PBroadcast?, s.consumers[c]);
    AheadUpdate(s.consumers, c, Wake(s.consumers[c]), s.message);
  }

  lemma StepKeeps(s: State, a: Action)
    requires Inv(s)
    ensures Inv(Step(s, a))
  {
    hide MutexOk, ConsumersOk, ProducerOk;
    match a
    case AdvanceProducer =>
      ProducerKeepsMutex(s);
      ProducerKeepsConsumers(s);
      ProducerKeepsTokens(s);
    case AdvanceConsumer(c) =>
      if c < |s.consumers| {
        ConsumerKeepsMutex(s, c);
        ConsumerKeepsConsumers(s, c);
        ConsumerKeepsTokens(s, c);
      }
    case SpuriousWakeup(c) =>
      if c < |s.consumers| { WakeupKeeps(s, c); }
  }

  lemma StepSizes(s: State, a: Action)
    ensures |Step(s, a).consumers| == |s.consumers| && Step(s, a).rounds == s.rounds
  {
  }

  lemma {:induction false} RunKeeps(consumers: nat, rounds: nat, schedule: seq<Action>)
    ensures Inv(Run(Init(consumers, rounds), schedule))
    ensures var s := Run(Init(consumers, rounds), schedule); |s.consumers| == consumers && s.rounds == rounds
  {
    hide Inv, Step;
    if schedule == [] {
      InitInv(consumers, rounds);
    } else {
      var n := |schedule| - 1;
      RunKeeps(consumers, rounds, schedule[..n]);
      StepSizes(Run(Init(consumers, rounds), schedule[..n]), schedule[n]);
      StepKeeps(Run(Init(consumers, rounds), schedule[..n]), schedule[n]);
    }
  }

  // ---------------------------------------------------------------- main results

  // Whatever the interleaving and the spurious wakeups, every consumer has printed the
  // messages 1, 2, 3, ... in order, each exactly once and none that was not sent; and the
  // unlocked read at the end of a round finds the message just printed.
  lemma ReceivedInOrder(consumers: nat, rounds: nat, schedule: seq<Action>, c: nat)
    requires c < consumers
    ensures var s := Run(Init(consumers, rounds), schedule);
      && |s.consumers| == consumers
      && var x := s.consumers[c];
      && (forall k :: 0 <= k < |x.received| ==> x.received[k] == k + 1)
      && |x.received| <= s.message <= |x.received| + 1
      && s.message <= rounds
      && (x.pc.CStore? ==> |x.received| > 0 && s.message == x.received[|x.received| - 1])
  {
    RunKeeps(consumers, rounds, schedule);
    var s := Run(Init(consumers, rounds), schedule);
    assert ConsumerOk(s.rounds, s.message, s.producer.PBroadcast?, s.consumers[c]);
  }

  // Nobody can move without a spurious wakeup.
  ghost predicate Stuck(s: State) {
    StepProducer(s) == s && forall c :: 0 <= c < |s.consumers| ==> StepConsumer(s, c) == s
  }

  // No reachable unfinished state is stuck: if nobody can move, the producer has sent every
  // message and every consumer has printed every one.
  lemma NeverDeadlocked(consumers: nat, rounds: nat, schedule: seq<Action>)
    requires Stuck(Run(Init(consumers, rounds), schedule))
    ensures var s := Run(Init(consumers, rounds), schedule);
      && s.producer.PDone? && s.message == rounds
      && forall c :: 0 <= c < |s.consumers| ==> s.consumers[c].pc.CDone? && |s.consumers[c].received| == rounds
  {
    RunKeeps(consumers, rounds, schedule);
    var s := Run(Init(consumers, rounds), schedule);
    assert s.mutex.Nobody? by { HolderMoves(s); }
    assert s.producer.PTake? || s.producer.PDone?;
    forall c | 0 <= c < |s.consumers|
      ensures s.consumers[c].pc.CAsleep? || s.consumers[c].pc.CDone?
      ensures ConsumerOk(s.rounds, s.message, s.producer.PBroadcast?, s.consumers[c])
    {
      ConsumerMoves(s, c);
    }
    AheadBounds(s.consumers, s.message);
  }

  lemma HolderMoves(s: State)
    requires MutexOk(s) && Stuck(s)
    ensures s.mutex.Nobody?
  {
    assert s.mutex.ConsumerNo? ==> s.mutex.c < |s.consumers| && StepConsumer(s, s.mutex.c) == s;
  }

  lemma ConsumerMoves(s: State, c: nat)
    requires s.mutex.Nobody? && MutexOk(s) && c < |s.consumers| && StepConsumer(s, c) == s
    ensures s.consumers[c].pc.CAsleep? || s.consumers[c].pc.CDone?
  {
    assert StepConsumer(s, c).consumers[c] == s.consumers[c];
  }

  // ---------------------------------------------------------------- termination

  // A bound on the steps a consumer can still make if nobody wakes it up.
  function ConsumerLeft(x: Consumer): nat {
    7 * x.count +
    match x.pc
    case CDone => 0
    case CLoop => 1
    case CStore => 2
    case CUnlock => 3
    case CPrint => 4
    case CAsleep => 4
    case CTest => 5
    case CWoken => 6
    case CPost => 6
    case CLock => 7
  }

  function ConsumersLeft(consumers: seq<Consumer>): nat {
    if consumers == [] then 0 else ConsumerLeft(consumers[0]) + ConsumersLeft(consumers[1..])
  }

  // The same for the producer of n consumers; a broadcast may cost each of them two more steps.
  function ProducerLeft(pc: ProducerPc, n: nat): int {
    match pc
    case PDone => 0
    case PLoop => 1
    case PUnlock => 2
    case PBroadcast => 2 * n + 3
    case PSend => 2 * n + 4
    case PLock => 2 * n + 5
    case PTake(i) => 3 * n + 6 - i
  }

  function RoundSteps(n: nat): nat { 3 * n + 6 }

  function StepsLeft(s: State): int {
    s.count * RoundSteps(|s.consumers|) + ProducerLeft(s.producer, |s.consumers|) + ConsumersLeft(s.consumers)
  }

  lemma {:induction false} ConsumersLeftUpdate(consumers: seq<Consumer>, c: nat, x: Consumer)
    requires c < |consumers|
    ensures ConsumersLeft(consumers[c := x]) == ConsumersLeft(consumers) - ConsumerLeft(consumers[c]) + ConsumerLeft(x)
  {
    hide ConsumerLeft;
    if c > 0 {
      ConsumersLeftUpdate(consumers[1..], c - 1, x);
      assert consumers[c := x][1..] == consumers[1..][c - 1 := x];
    } else {
      assert consumers[0 := x][1..] == consumers[1..];
    }
  }

  lemma {:induction false} BroadcastCosts(xs: seq<Consumer>, ys: seq<Consumer>)
    requires |xs| == |ys| && forall c :: 0 <= c < |xs| ==> ys[c] == Wake(xs[c])
    ensures ConsumersLeft(ys) <= ConsumersLeft(xs) + 2 * |xs|
  {
    if xs != [] { BroadcastCosts(xs[1..], ys[1..]); }
  }

  lemma RoundBegins(count: nat, n: nat)
    requires count > 0
    ensures count * RoundSteps(n) == (count - 1) * RoundSteps(n) + 3 * n + 6
  {
  }

  lemma ProducerSpends(s: State)
    requires ProducerOk(s) && StepProducer(s) != s
    ensures StepsLeft(StepProducer(s)) < StepsLeft(s)
  {
    hide RoundSteps, Ahead, ConsumersLeft;
    var r := StepProducer(s);
    if s.producer.PLoop? && s.count > 0 { RoundBegins(s.count, |s.consumers|); }
    if s.producer.PBroadcast? { BroadcastCosts(s.consumers, r.consumers); }
  }

  lemma ConsumerSpends(s: State, c: nat)
    requires c < |s.consumers| && StepConsumer(s, c) != s
    ensures StepsLeft(StepConsumer(s, c)) < StepsLeft(s)
  {
    hide RoundSteps, ConsumersLeft, ProducerLeft;
    var r := StepConsumer(s, c);
    ConsumersLeftUpdate(s.consumers, c, r.consumers[c]);
    assert r.consumers == s.consumers[c := r.consumers[c]];
  }

  // A step that changes the state spends at least one, but a spurious wakeup may give two.
  lemma StepSpends(s: State, a: Action)
    requires Inv(s) && Step(s, a) != s
    ensures StepsLeft(Step(s, a)) <= StepsLeft(s) + if a.SpuriousWakeup? then 2 else -1
  {
    match a
    case AdvanceProducer => ProducerSpends(s);
    case AdvanceConsumer(c) => ConsumerSpends(s, c);
    case SpuriousWakeup(c) => ConsumersLeftUpdate(s.consumers, c, Wake(s.consumers[c]));
  }

  // The steps of a schedule that change the state, and its spurious wakeups.
  function Moves(s: State, schedule: seq<Action>): nat {
    if schedule == [] then 0
    else
      var n := |schedule| - 1;
      var r := Run(s, schedule[..n]);
      Moves(s, schedule[..n]) + if Step(r, schedule[n]) != r then 1 else 0
  }

  function Wakeups(schedule: seq<Action>): nat {
    if schedule == [] then 0
    else
      var n := |schedule| - 1;
      Wakeups(schedule[..n]) + if schedule[n].SpuriousWakeup? then 1 else 0
  }

  lemma {:induction false} MovesSpend(consumers: nat, rounds: nat, schedule: seq<Action>)
    ensures var s := Init(consumers, rounds);
      Moves(s, schedule) + StepsLeft(Run(s, schedule)) <= StepsLeft(s) + 3 * Wakeups(schedule)
  {
    hide StepsLeft, Step, Inv;
    if schedule != [] {
      var n := |schedule| - 1;
      MovesSpend(consumers, rounds, schedule[..n]);
      RunKeeps(consumers, rounds, schedule[..n]);
      var r := Run(Init(consumers, rounds), schedule[..n]);
      if Step(r, schedule[n]) != r { StepSpends(r, schedule[n]); }
    }
  }

  lemma {:induction false} ConsumersLeftAtStart(consumers: seq<Consumer>, rounds: nat)
    requires forall c :: 0 <= c < |consumers| ==> consumers[c] == Consumer(CLoop, 0, rounds, [])
    ensures ConsumersLeft(consumers) == |consumers| * (7 * rounds + 1)
  {
    if consumers != [] {
      ConsumersLeftAtStart(consumers[1..], rounds);
      OneMore(|consumers| - 1, 7 * rounds + 1);
    }
  }

  lemma OneMore(n: nat, k: nat)
    ensures (n + 1) * k == n * k + k
  {
  }

  // No run moves forever: the steps that change the state are bounded by the numbers of
  // consumers, rounds and spurious wakeups. With NeverDeadlocked, every run that goes on as long
  // as somebody can move, and has finitely many spurious wakeups, ends with all messages printed.
  lemma MovesBounded(consumers: nat, rounds: nat, schedule: seq<Action>)
    ensures Moves(Init(consumers, rounds), schedule)
      <= rounds * (3 * consumers + 6) + consumers * (7 * rounds + 1) + 1 + 3 * Wakeups(schedule)
  {
    var s := Init(consumers, rounds);
    ConsumersLeftAtStart(s.consumers, rounds);
    MovesSpend(consumers, rounds, schedule);
    RunKeeps(consumers, rounds, schedule);
    LeftIsNatural(Run(s, schedule));
  }

  lemma LeftIsNatural(s: State)
    requires ProducerOk(s)
    ensures StepsLeft(s) >= 0
  {
  }
}
