// Producers and consumers on a ring buffer guarded by two counting semaphores, with one lock
// for enqueuing and another for dequeuing. Every semaphore operation, lock operation and
// shared access is one step of one thread.
module SemaphoreRing {
  import opened Shared
  import opened Rings

  // The next instruction of a thread.
  datatype Pc =
    | PWait | PLock | PAdvance | PStore | PCount | PUnlock | PPost | PDone
    | CWait | CLock | CAdvance | CLoad | CUnlock(data: int) | CPost(data: int) | CDone(data: int)

  // `enqueued` and `dequeued` are history: the values stored and loaded, in order.
  datatype State = State(
    capacity: nat,
    arr: seq<int>,
    write: nat,
    read: nat,
    counter: int,
    semRead: nat,
    semWrite: nat,
    lockEnq: Option<nat>,
    lockDeq: Option<nat>,
    threads: seq<Pc>,
    enqueued: seq<int>,
    dequeued: seq<int>)

  // The cell of the k-th value, counted from 0: both indices are advanced before use.
  function Slot(k: nat, capacity: nat): (i: nat)
    requires capacity > 0
    ensures i < capacity
  {
    Cell(k + 1, capacity)
  }

  predicate WellFormed(s: State) {
    s.capacity > 0 && |s.arr| == s.capacity
  }

  // `roles` says which threads are producers.
  function Init(capacity: nat, roles: seq<bool>): State {
    State(capacity, seq(capacity, _ => 0), 0, 0, 1, 0, capacity, None, None,
          seq(|roles|, t requires 0 <= t < |roles| => if roles[t] then PWait else CWait), [], [])
  }

  // Thread t executes its next instruction; it leaves the state alone if it is blocked or done.
  function Step(s: State, t: nat): (r: State)
    requires WellFormed(s)
    ensures WellFormed(r) && r.capacity == s.capacity && |r.threads| == |s.threads|
  {
    if t >= |s.threads| then s else
    match s.threads[t]
    case PWait => if s.semWrite == 0 then s else Goto(s, t, PLock).(semWrite := s.semWrite - 1)
    case PLock => if s.lockEnq.Some? then s else Goto(s, t, PAdvance).(lockEnq := Some(t))
    case PAdvance => Goto(s, t, PStore).(write := Cell(s.write + 1, s.capacity))
    case PStore =>
      if s.write >= s.capacity then s
      else Goto(s, t, PCount).(arr := s.arr[s.write := s.counter], enqueued := s.enqueued + [s.counter])
    case PCount => Goto(s, t, PUnlock).(counter := s.counter + 1)
    case PUnlock => Goto(s, t, PPost).(lockEnq := None)
    case PPost => Goto(s, t, PDone).(semRead := s.semRead + 1)
    case CWait => if s.semRead == 0 then s else Goto(s, t, CLock).(semRead := s.semRead - 1)
    case CLock => if s.lockDeq.Some? then s else Goto(s, t, CAdvance).(lockDeq := Some(t))
    case CAdvance => Goto(s, t, CLoad).(read := Cell(s.read + 1, s.capacity))
    case CLoad =>
      if s.read >= s.capacity then s
      else Goto(s, t, CUnlock(s.arr[s.read])).(dequeued := s.dequeued + [s.arr[s.read]])
    case CUnlock(data) => Goto(s, t, CPost(data)).(lockDeq := None)
    case CPost(data) => Goto(s, t, CDone(data)).(semWrite := s.semWrite + 1)
    case PDone => s
    case CDone(_) => s
  }

  function Goto(s: State, t: nat, pc: Pc): State
    requires t < |s.threads|
  {
    s.(threads := s.threads[t := pc])
  }

  function Run(s: State, schedule: seq<nat>): (r: State)
    requires WellFormed(s)
    ensures WellFormed(r) && r.capacity == s.capacity
  {
    if schedule == [] then s else Step(Run(s, schedule[..|schedule| - 1]), schedule[|schedule| - 1])
  }

  // ---------------------------------------------------------------- counting threads

  // How far a thread is: before its sem_wait, between it and its store or load, between that
  // and its sem_post, or after it.
  datatype Stage = PIdle | PTook | PStored | PLeft | CIdle | CTook | CLoaded | CLeft

  function StageOf(pc: Pc): Stage {
    match pc
    case PWait => PIdle
    case PLock => PTook
    case PAdvance => PTook
    case PStore => PTook
    case PCount => PStored
    case PUnlock => PStored
    case PPost => PStored
    case PDone => PLeft
    case CWait => CIdle
    case CLock => CTook
    case CAdvance => CTook
    case CLoad => CTook
    case CUnlock(_) => CLoaded
    case CPost(_) => CLoaded
    case CDone(_) => CLeft
  }

  function Count(threads: seq<Pc>, stage: Stage): nat {
    if threads == [] then 0
    else Count(threads[1..], stage) + if StageOf(threads[0]) == stage then 1 else 0
  }

  lemma {:induction false} CountUpdate(threads: seq<Pc>, t: nat, pc: Pc, stage: Stage)
    requires t < |threads|
    ensures Count(threads[t := pc], stage)
      == Count(threads, stage)
        - (if StageOf(threads[t]) == stage then 1 else 0) + (if StageOf(pc) == stage then 1 else 0)
  {
    if t > 0 {
      CountUpdate(threads[1..], t - 1, pc, stage);
      assert threads[t := pc][1..] == threads[1..][t - 1 := pc];
    } else {
      assert threads[0 := pc][1..] == threads[1..];
    }
  }

  lemma {:induction false} CountPositive(threads: seq<Pc>, t: nat)
    requires t < |threads|
    ensures Count(threads, StageOf(threads[t])) > 0
  {
    if t > 0 { CountPositive(threads[1..], t - 1); }
  }

  // ---------------------------------------------------------------- invariant

  predicate Enqueuing(pc: Pc) { pc.PAdvance? || pc.PStore? || pc.PCount? || pc.PUnlock? }

  predicate Dequeuing(pc: Pc) { pc.CAdvance? || pc.CLoad? || pc.CUnlock? }

  ghost predicate LocksOk(s: State) {
    && (forall t :: 0 <= t < |s.threads| ==> (Enqueuing(s.threads[t]) <==> s.lockEnq == Some(t)))
    && (forall t :: 0 <= t < |s.threads| ==> (Dequeuing(s.threads[t]) <==> s.lockDeq == Some(t)))
    && (s.lockEnq.Some? ==> s.lockEnq.value < |s.threads|)
    && (s.lockDeq.Some? ==> s.lockDeq.value < |s.threads|)
  }

  // Each semaphore's tokens are either in it or with a thread.
  ghost predicate TokensOk(s: State) {
    && s.semRead + Count(s.threads, PStored) + Count(s.threads, CTook) == |s.enqueued| - |s.dequeued|
    && s.semWrite + Count(s.threads, PTook) + Count(s.threads, CLoaded) == s.capacity - (|s.enqueued| - |s.dequeued|)
    && Count(s.threads, PStored) + Count(s.threads, PLeft) == |s.enqueued|
    && Count(s.threads, CLoaded) + Count(s.threads, CLeft) == |s.dequeued|
  }

  ghost predicate Holder(s: State, lock: Option<nat>, pc: Pc) {
    lock.Some? && lock.value < |s.threads| && s.threads[lock.value] == pc
  }

  ghost predicate IndicesOk(s: State)
    requires WellFormed(s)
  {
    && s.write == Cell(|s.enqueued| + (if Holder(s, s.lockEnq, PStore) then 1 else 0), s.capacity)
    && s.read == Cell(|s.dequeued| + (if Holder(s, s.lockDeq, CLoad) then 1 else 0), s.capacity)
    && s.counter == |s.enqueued| + (if Holder(s, s.lockEnq, PCount) then 0 else 1)
  }

  ghost predicate ContentsOk(s: State)
    requires WellFormed(s)
  {
    && |s.dequeued| <= |s.enqueued| <= |s.dequeued| + s.capacity
    && s.dequeued == s.enqueued[..|s.dequeued|]
    && (forall k :: 0 <= k < |s.enqueued| ==> s.enqueued[k] == k + 1)
    && (forall k :: |s.dequeued| <= k < |s.enqueued| ==> s.arr[Slot(k, s.capacity)] == s.enqueued[k])
  }

  // The values consumers hold or have returned, each as often as there are such consumers.
  function Held(threads: seq<Pc>): multiset<int> {
    if threads == [] then multiset{} else HeldBy(threads[0]) + Held(threads[1..])
  }

  function HeldBy(pc: Pc): multiset<int> {
    if pc.CUnlock? || pc.CPost? || pc.CDone? then multiset{pc.data} else multiset{}
  }

  ghost predicate Inv(s: State) {
    && WellFormed(s) && LocksOk(s) && TokensOk(s) && IndicesOk(s) && ContentsOk(s)
    && Held(s.threads) == multiset(s.dequeued)
  }

  predicate IsProducer(pc: Pc) {
    pc.PWait? || pc.PLock? || pc.PAdvance? || pc.PStore? || pc.PCount? || pc.PUnlock? || pc.PPost? || pc.PDone?
  }

  lemma ProducerKeepsLocks(s: State, t: nat)
    requires WellFormed(s) && LocksOk(s) && t < |s.threads| && IsProducer(s.threads[t])
    ensures LocksOk(Step(s, t))
  {
  }

  lemma ConsumerKeepsLocks(s: State, t: nat)
    requires WellFormed(s) && LocksOk(s) && t < |s.threads| && !IsProducer(s.threads[t])
    ensures LocksOk(Step(s, t))
  {
  }

  lemma LocksKeep(s: State, t: nat)
    requires WellFormed(s) && LocksOk(s)
    ensures LocksOk(Step(s, t))
  {
    hide LocksOk;
    if t < |s.threads| {
      if IsProducer(s.threads[t]) { ProducerKeepsLocks(s, t); } else { ConsumerKeepsLocks(s, t); }
    }
  }

  // A step moves thread t from one stage to another and no other thread.
  lemma StageMoves(s: State, t: nat)
    requires WellFormed(s) && t < |s.threads|
    ensures forall stage: Stage ::
      Count(Step(s, t).threads, stage) == Count(s.threads, stage)
        - (if StageOf(s.threads[t]) == stage then 1 else 0) + (if StageOf(Step(s, t).threads[t]) == stage then 1 else 0)
  {
    hide Count, Cell, StageOf;
    var r := Step(s, t);
    assert r.threads == s.threads[t := r.threads[t]];
    if r != s {
      forall stage: Stage
        ensures Count(r.threads, stage) == Count(s.threads, stage)
          - (if StageOf(s.threads[t]) == stage then 1 else 0) + (if StageOf(r.threads[t]) == stage then 1 else 0)
      {
        CountUpdate(s.threads, t, r.threads[t], stage);
      }
    }
  }

  lemma ProducerKeepsTokens(s: State, t: nat)
    requires WellFormed(s) && TokensOk(s) && t < |s.threads| && IsProducer(s.threads[t])
    ensures TokensOk(Step(s, t))
  {
    hide Count, Cell;
    StageMoves(s, t);
  }

  lemma ConsumerKeepsTokens(s: State, t: nat)
    requires WellFormed(s) && TokensOk(s) && t < |s.threads| && !IsProducer(s.threads[t])
    ensures TokensOk(Step(s, t))
  {
    hide Count, Cell;
    StageMoves(s, t);
  }

  lemma TokensKeep(s: State, t: nat)
    requires WellFormed(s) && TokensOk(s)
    ensures TokensOk(Step(s, t))
  {
    hide TokensOk;
    if t < |s.threads| {
      if IsProducer(s.threads[t]) { ProducerKeepsTokens(s, t); } else { ConsumerKeepsTokens(s, t); }
    }
  }

  // A thread that may store has a free cell to store into, one that may load has a stored
  // cell to load from.
  lemma TokenInHand(s: State, t: nat)
    requires Inv(s) && t < |s.threads|
    ensures StageOf(s.threads[t]) == PTook ==> |s.enqueued| < |s.dequeued| + s.capacity
    ensures StageOf(s.threads[t]) == CTook ==> |s.dequeued| < |s.enqueued|
  {
    CountPositive(s.threads, t);
  }

  lemma AtStoreOrLoad(s: State, t: nat)
    requires Inv(s) && t < |s.threads|
    ensures s.threads[t].PStore? ==> s.write == Slot(|s.enqueued|, s.capacity) && s.counter == |s.enqueued| + 1
    ensures s.threads[t].CLoad? ==> s.read == Slot(|s.dequeued|, s.capacity)
  {
  }

  // Whoever is not inside a critical section is not its lock's holder.
  lemma ProducerKeepsIndices(s: State, t: nat)
    requires WellFormed(s) && LocksOk(s) && IndicesOk(s) && t < |s.threads| && IsProducer(s.threads[t])
    ensures IndicesOk(Step(s, t))
  {
    hide Cell;
    CellStep(|s.enqueued|, s.capacity);
    assert s.lockDeq.Some? ==> s.lockDeq.value != t;
  }

  lemma ConsumerKeepsIndices(s: State, t: nat)
    requires WellFormed(s) && LocksOk(s) && IndicesOk(s) && t < |s.threads| && !IsProducer(s.threads[t])
    ensures IndicesOk(Step(s, t))
  {
    hide Cell;
    CellStep(|s.dequeued|, s.capacity);
    assert s.lockEnq.Some? ==> s.lockEnq.value != t;
  }

  lemma IndicesKeep(s: State, t: nat)
    requires Inv(s)
    ensures IndicesOk(Step(s, t))
  {
    hide LocksOk, IndicesOk, ContentsOk, TokensOk;
    if t < |s.threads| {
      if IsProducer(s.threads[t]) { ProducerKeepsIndices(s, t); } else { ConsumerKeepsIndices(s, t); }
    }
  }

  lemma StoreKeepsContents(s: State, t: nat)
    requires Inv(s) && t < |s.threads| && s.threads[t].PStore?
    ensures ContentsOk(Step(s, t))
  {
    TokenInHand(s, t);
    AtStoreOrLoad(s, t);
    hide Cell, Count, LocksOk, TokensOk, IndicesOk, Slot;
    var n := |s.enqueued|;
    var r := Step(s, t);
    forall k | |s.dequeued| <= k < |r.enqueued|
      ensures r.arr[Slot(k, s.capacity)] == r.enqueued[k]
    {
      if k < n { SlotsApart(k, n, s.capacity); }
    }
  }

  lemma SlotsApart(k: nat, n: nat, capacity: nat)
    requires capacity > 0 && k < n < k + capacity
    ensures Slot(k, capacity) != Slot(n, capacity)
  {
    if Slot(k, capacity) == Slot(n, capacity) { SameCell(k + 1, n + 1, capacity); }
  }

  lemma LoadKeepsContents(s: State, t: nat)
    requires Inv(s) && t < |s.threads| && s.threads[t].CLoad?
    ensures ContentsOk(Step(s, t))
  {
    TokenInHand(s, t);
    AtStoreOrLoad(s, t);
    hide Cell, Count, LocksOk, TokensOk, IndicesOk, Slot;
    assert Step(s, t).dequeued == s.enqueued[..|s.dequeued|] + [s.enqueued[|s.dequeued|]];
  }

  lemma ContentsKeep(s: State, t: nat)
    requires Inv(s)
    ensures ContentsOk(Step(s, t))
  {
    hide Cell, Count, LocksOk, TokensOk, IndicesOk, Slot;
    if t < |s.threads| {
      if s.threads[t].PStore? { StoreKeepsContents(s, t); }
      else if s.threads[t].CLoad? { LoadKeepsContents(s, t); }
    }
  }

  lemma {:induction false} HeldUpdate(threads: seq<Pc>, t: nat, pc: Pc)
    requires t < |threads|
    ensures Held(threads[t := pc]) + HeldBy(threads[t]) == Held(threads) + HeldBy(pc)
  {
    hide HeldBy;
    var rest, after := threads[1..], threads[t := pc];
    if t > 0 {
      HeldUpdate(rest, t - 1, pc);
      assert after[1..] == rest[t - 1 := pc];
      AddInFront(HeldBy(threads[0]), Held(after[1..]), HeldBy(threads[t]), Held(rest), HeldBy(pc));
    } else {
      assert after[1..] == rest;
      assert (HeldBy(pc) + Held(rest)) + HeldBy(threads[0]) == (HeldBy(threads[0]) + Held(rest)) + HeldBy(pc);
    }
  }

  lemma AddInFront(a: multiset<int>, x: multiset<int>, c: multiset<int>, y: multiset<int>, d: multiset<int>)
    requires x + c == y + d
    ensures (a + x) + c == (a + y) + d
  {
    assert (a + x) + c == a + (x + c) && (a + y) + d == a + (y + d);
  }

  lemma Cancel(x: multiset<int>, y: multiset<int>, c: multiset<int>)
    requires x + c == y + c
    ensures x == y
  {
    assert x == (x + c) - c && y == (y + c) - c;
  }

  // A load adds its value to both sides, every other step leaves both alone.
  lemma HeldKeeps(s: State, t: nat)
    requires WellFormed(s) && Held(s.threads) == multiset(s.dequeued)
    ensures Held(Step(s, t).threads) == multiset(Step(s, t).dequeued)
  {
    if t >= |s.threads| {
      OnlyThreads(s, t);
    } else if Step(s, t) != s {
      hide Held, HeldBy, Step, Left;
      var r := Step(s, t);
      HeldUpdate(s.threads, t, r.threads[t]);
      if IsProducer(s.threads[t]) {
        ProducerMove(s, t);
        ProducerHolds(s, t);
      } else {
        ConsumerMove(s, t);
        ConsumerHolds(s, t);
      }
      Cancel(Held(r.threads), multiset(r.dequeued), HeldBy(s.threads[t]));
    }
  }

  lemma ProducerHolds(s: State, t: nat)
    requires WellFormed(s) && t < |s.threads| && IsProducer(s.threads[t])
    ensures Step(s, t).dequeued == s.dequeued && HeldBy(s.threads[t]) == HeldBy(Step(s, t).threads[t]) == multiset{}
  {
    hide Cell, HeldBy;
    var r := Step(s, t);
    assert r.dequeued == s.dequeued && IsProducer(r.threads[t]);
    ProducersHoldNothing(s.threads[t]);
    ProducersHoldNothing(r.threads[t]);
    hide Step;
  }

  lemma ProducersHoldNothing(pc: Pc)
    requires IsProducer(pc)
    ensures HeldBy(pc) == multiset{}
  {
  }

  lemma ConsumerHolds(s: State, t: nat)
    requires WellFormed(s) && t < |s.threads| && !IsProducer(s.threads[t]) && Step(s, t) != s
    ensures var r := Step(s, t);
      multiset(r.dequeued) + HeldBy(s.threads[t]) == multiset(s.dequeued) + HeldBy(r.threads[t])
  {
    hide Cell;
    if s.threads[t].CLoad? {
      LoadHolds(s, t);
    } else {
      var r := Step(s, t);
      assert r.dequeued == s.dequeued && HeldBy(s.threads[t]) == HeldBy(r.threads[t]);
    }
  }

  lemma LoadHolds(s: State, t: nat)
    requires WellFormed(s) && t < |s.threads| && s.threads[t].CLoad? && Step(s, t) != s
    ensures var r := Step(s, t);
      multiset(r.dequeued) + HeldBy(s.threads[t]) == multiset(s.dequeued) + HeldBy(r.threads[t])
  {
    hide Cell;
    var v := s.arr[s.read];
    assert Step(s, t).dequeued == s.dequeued + [v] && HeldBy(Step(s, t).threads[t]) == multiset{v};
    assert HeldBy(s.threads[t]) == multiset{};
    assert multiset(s.dequeued + [v]) == multiset(s.dequeued) + multiset{v};
  }

  lemma {:induction false} HeldNone(threads: seq<Pc>)
    requires forall t :: 0 <= t < |threads| ==> HeldBy(threads[t]) == multiset{}
    ensures Held(threads) == multiset{}
  {
    if threads != [] { HeldNone(threads[1..]); }
  }

  lemma InitInv(capacity: nat, roles: seq<bool>)
    requires capacity > 0
    ensures Inv(Init(capacity, roles))
  {
    var s := Init(capacity, roles);
    HeldNone(s.threads);
    forall stage: Stage | stage != PIdle && stage != CIdle ensures Count(s.threads, stage) == 0 {
      CountNone(s.threads, stage);
    }
  }

  lemma {:induction false} CountNone(threads: seq<Pc>, stage: Stage)
    requires forall t :: 0 <= t < |threads| ==> StageOf(threads[t]) != stage
    ensures Count(threads, stage) == 0
  {
    if threads != [] { CountNone(threads[1..], stage); }
  }

  lemma {:induction false} RunKeeps(s: State, schedule: seq<nat>)
    requires Inv(s)
    ensures Inv(Run(s, schedule))
  {
    if schedule != [] {
      var n := |schedule| - 1;
      RunKeeps(s, schedule[..n]);
      var r := Run(s, schedule[..n]);
      LocksKeep(r, schedule[n]);
      TokensKeep(r, schedule[n]);
      IndicesKeep(r, schedule[n]);
      ContentsKeep(r, schedule[n]);
      HeldKeeps(r, schedule[n]);
    }
  }

  // ---------------------------------------------------------------- main results

  // In every interleaving: the semaphores' tokens and the threads between their wait and
  // their post add up to the capacity; the values dequeued are a prefix of the values
  // enqueued, which are 1, 2, 3, ...; at most a capacity of them is unread, and those lie
  // untouched in their cells.
  lemma RingCorrect(capacity: nat, roles: seq<bool>, schedule: seq<nat>)
    requires capacity > 0
    ensures var s := Run(Init(capacity, roles), schedule);
      && s.semRead + s.semWrite + Count(s.threads, PTook) + Count(s.threads, PStored)
         + Count(s.threads, CTook) + Count(s.threads, CLoaded) == capacity
      && |s.dequeued| <= |s.enqueued| <= |s.dequeued| + capacity
      && s.dequeued == s.enqueued[..|s.dequeued|]
      && (forall k :: 0 <= k < |s.enqueued| ==> s.enqueued[k] == k + 1)
      && (forall k :: |s.dequeued| <= k < |s.enqueued| ==> s.arr[Slot(k, capacity)] == k + 1)
      && Held(s.threads) == multiset(s.dequeued)
  {
    hide Held, Cell, Count, Run, LocksOk, IndicesOk, Step;
    InitInv(capacity, roles);
    RunKeeps(Init(capacity, roles), schedule);
  }

  // Two consumers never hold or return the same value: each value enqueued goes to one consumer
  // at most.
  lemma ConsumersHoldDifferentValues(capacity: nat, roles: seq<bool>, schedule: seq<nat>, t: nat, u: nat)
    requires capacity > 0 && t != u
    requires var s := Run(Init(capacity, roles), schedule);
      t < |s.threads| && u < |s.threads| && HeldBy(s.threads[t]) != multiset{} && HeldBy(s.threads[u]) != multiset{}
    ensures var s := Run(Init(capacity, roles), schedule);
      HeldBy(s.threads[t]) != HeldBy(s.threads[u])
  {
    var s := Run(Init(capacity, roles), schedule);
    RingCorrect(capacity, roles, schedule);
    HeldTwo(s.threads, t, u);
    var v := s.threads[t].data;
    NoValueTwice(s.dequeued, v);
    hide Held;
  }

  lemma {:induction false} HeldOne(threads: seq<Pc>, t: nat)
    requires t < |threads|
    ensures HeldBy(threads[t]) <= Held(threads)
  {
    if t > 0 { HeldOne(threads[1..], t - 1); }
  }

  lemma {:induction false} HeldTwo(threads: seq<Pc>, t: nat, u: nat)
    requires t < |threads| && u < |threads| && t != u
    ensures HeldBy(threads[t]) + HeldBy(threads[u]) <= Held(threads)
  {
    hide HeldBy;
    var first, rest := HeldBy(threads[0]), threads[1..];
    if t == 0 {
      HeldOne(rest, u - 1);
      AddBelow(first, HeldBy(threads[u]), Held(rest));
    } else if u == 0 {
      HeldOne(rest, t - 1);
      AddBelow(first, HeldBy(threads[t]), Held(rest));
    } else {
      HeldTwo(rest, t - 1, u - 1);
      AddBelow(first, HeldBy(threads[t]) + HeldBy(threads[u]), Held(rest));
    }
  }

  lemma AddBelow(a: multiset<int>, b: multiset<int>, c: multiset<int>)
    requires b <= c
    ensures a + b <= a + c && b + a <= a + c && b <= a + c
  {
  }

  // The numbers 1, 2, 3, ... without repetition.
  function Numbers(n: nat): (s: seq<int>)
    ensures |s| == n && forall k :: 0 <= k < n ==> s[k] == k + 1
  {
    if n == 0 then [] else Numbers(n - 1) + [n]
  }

  lemma {:induction false} NoValueTwice(s: seq<int>, v: int)
    requires forall k :: 0 <= k < |s| ==> s[k] == k + 1
    ensures multiset(s)[v] <= 1
  {
    if s != [] {
      var n := |s| - 1;
      assert s == s[..n] + [s[n]];
      NoValueTwice(s[..n], v);
      if v == n + 1 { assert v !in s[..n]; }
    }
  }

  // Although they hold different locks, a thread about to store and a thread about to load
  // use different cells; the store hits no unread cell, the load no unwritten one.
  lemma StoreAndLoadApart(s: State, t: nat)
    requires Inv(s) && t < |s.threads|
    ensures s.threads[t].PStore? ==>
      s.write < s.capacity && forall k :: |s.dequeued| <= k < |s.enqueued| ==> Slot(k, s.capacity) != s.write
    ensures s.threads[t].CLoad? ==>
      |s.dequeued| < |s.enqueued| && s.read == Slot(|s.dequeued|, s.capacity)
      && s.arr[s.read] == s.enqueued[|s.dequeued|]
    ensures forall u :: 0 <= u < |s.threads| && s.threads[t].PStore? && s.threads[u].CLoad? ==> s.write != s.read
  {
    TokenInHand(s, t);
    AtStoreOrLoad(s, t);
    forall k | |s.dequeued| <= k < |s.enqueued| && s.threads[t].PStore?
      ensures Slot(k, s.capacity) != s.write
    {
      SlotsApart(k, |s.enqueued|, s.capacity);
    }
    forall u | 0 <= u < |s.threads| && s.threads[t].PStore? && s.threads[u].CLoad?
      ensures s.write != s.read
    {
      TokenInHand(s, u);
      AtStoreOrLoad(s, u);
      assert Slot(|s.dequeued|, s.capacity) != s.write;
    }
  }

  // ---------------------------------------------------------------- progress

  function Producers(threads: seq<Pc>): nat {
    Count(threads, PIdle) + Count(threads, PTook) + Count(threads, PStored) + Count(threads, PLeft)
  }

  function Consumers(threads: seq<Pc>): nat {
    Count(threads, CIdle) + Count(threads, CTook) + Count(threads, CLoaded) + Count(threads, CLeft)
  }

  ghost predicate AllDone(s: State) {
    forall t :: 0 <= t < |s.threads| ==> s.threads[t].PDone? || s.threads[t].CDone?
  }

  // No thread can move.
  ghost predicate Stuck(s: State)
    requires WellFormed(s)
  {
    forall t :: 0 <= t < |s.threads| ==> Step(s, t) == s
  }

  lemma StuckThread(s: State, t: nat)
    requires Inv(s) && Stuck(s) && t < |s.threads|
    ensures s.threads[t].PDone? || s.threads[t].CDone?
      || (s.threads[t].PWait? && s.semWrite == 0) || (s.threads[t].CWait? && s.semRead == 0)
  {
    hide Cell, Count, TokensOk, ContentsOk;
    assert Step(s, t) == s;
    assert !Enqueuing(s.threads[t]) && !Dequeuing(s.threads[t]) by { HolderMoves(s, t); }
    if s.threads[t].PLock? { HolderMoves(s, s.lockEnq.value); }
    if s.threads[t].CLock? { HolderMoves(s, s.lockDeq.value); }
  }

  // A thread inside a critical section is never blocked.
  lemma HolderMoves(s: State, t: nat)
    requires Inv(s) && t < |s.threads|
    ensures Enqueuing(s.threads[t]) || Dequeuing(s.threads[t]) ==> Step(s, t) != s
  {
    hide Cell, Count, TokensOk, ContentsOk, LocksOk;
    if Enqueuing(s.threads[t]) || Dequeuing(s.threads[t]) {
      assert s.write < s.capacity && s.read < s.capacity;
      assert Step(s, t).threads[t] != s.threads[t];
    }
  }

  lemma {:induction false} CountWitness(threads: seq<Pc>, stage: Stage) returns (t: nat)
    requires Count(threads, stage) > 0
    ensures t < |threads| && StageOf(threads[t]) == stage
  {
    if StageOf(threads[0]) == stage { t := 0; }
    else {
      t := CountWitness(threads[1..], stage);
      t := t + 1;
    }
  }

  // When no thread can move, all have finished exactly if the producers number at least the
  // consumers and at most a capacity more; otherwise some wait forever.
  lemma StuckMeansFinished(s: State)
    requires Inv(s) && Stuck(s)
    ensures AllDone(s) <==> Consumers(s.threads) <= Producers(s.threads) <= Consumers(s.threads) + s.capacity
  {
    hide LocksOk, IndicesOk, ContentsOk, Held, Step, Cell;
    forall t | 0 <= t < |s.threads|
      ensures StageOf(s.threads[t]) in {PIdle, PLeft, CIdle, CLeft}
    {
      StuckThread(s, t);
    }
    CountNone(s.threads, PTook);
    CountNone(s.threads, PStored);
    CountNone(s.threads, CTook);
    CountNone(s.threads, CLoaded);
    if Count(s.threads, PIdle) > 0 {
      var t := CountWitness(s.threads, PIdle);
      StuckThread(s, t);
    }
    if Count(s.threads, CIdle) > 0 {
      var t := CountWitness(s.threads, CIdle);
      StuckThread(s, t);
    }
    forall t | 0 <= t < |s.threads|
      ensures Count(s.threads, StageOf(s.threads[t])) > 0
    {
      CountPositive(s.threads, t);
    }
    if AllDone(s) {
      CountNone(s.threads, PIdle);
      CountNone(s.threads, CIdle);
    }
  }

  // The numbers of producers and consumers never change.
  lemma {:induction false} RolesFixed(s: State, schedule: seq<nat>)
    requires WellFormed(s)
    ensures Producers(Run(s, schedule).threads) == Producers(s.threads)
    ensures Consumers(Run(s, schedule).threads) == Consumers(s.threads)
  {
    if schedule != [] {
      var n := |schedule| - 1;
      RolesFixed(s, schedule[..n]);
      var r := Run(s, schedule[..n]);
      RoleStays(r, schedule[n]);
    }
  }

  lemma RoleStays(s: State, t: nat)
    requires WellFormed(s)
    ensures Producers(Step(s, t).threads) == Producers(s.threads)
    ensures Consumers(Step(s, t).threads) == Consumers(s.threads)
  {
    if t >= |s.threads| {
      OnlyThreads(s, t);
    } else {
      StageMoves(s, t);
      StageKeepsRole(s, t);
    }
    hide Step, Count, StageOf;
  }

  lemma StageKeepsRole(s: State, t: nat)
    requires WellFormed(s) && t < |s.threads|
    ensures StageOf(s.threads[t]) in {PIdle, PTook, PStored, PLeft}
      <==> StageOf(Step(s, t).threads[t]) in {PIdle, PTook, PStored, PLeft}
  {
  }

  // ---------------------------------------------------------------- termination of whole runs

  // How many of the threads are producers.
  function ProducerRoles(roles: seq<bool>): (n: nat)
    ensures n <= |roles|
  {
    if roles == [] then 0 else ProducerRoles(roles[1..]) + if roles[0] then 1 else 0
  }

  lemma {:induction false} RolesCount(threads: seq<Pc>, roles: seq<bool>)
    requires |threads| == |roles| && forall t :: 0 <= t < |roles| ==> threads[t] == if roles[t] then PWait else CWait
    ensures Producers(threads) == ProducerRoles(roles) && Consumers(threads) == |roles| - ProducerRoles(roles)
  {
    if roles != [] { RolesCount(threads[1..], roles[1..]); }
  }

  // Whenever, in any interleaving, nobody can move any more, all threads have finished if and
  // only if there are at least as many producers as consumers and at most a capacity more.
  lemma FinishesExactly(capacity: nat, roles: seq<bool>, schedule: seq<nat>)
    requires capacity > 0 && Stuck(Run(Init(capacity, roles), schedule))
    ensures var s := Run(Init(capacity, roles), schedule);
      var p, c := ProducerRoles(roles), |roles| - ProducerRoles(roles);
      AllDone(s) <==> c <= p <= c + capacity
  {
    hide Run, Count;
    var init := Init(capacity, roles);
    InitInv(capacity, roles);
    RunKeeps(init, schedule);
    RolesFixed(init, schedule);
    RolesCount(init.threads, roles);
    StuckMeansFinished(Run(init, schedule));
  }

  // Instructions a thread has left.
  function Left(pc: Pc): nat {
    match pc
    case PWait => 7
    case PLock => 6
    case PAdvance => 5
    case PStore => 4
    case PCount => 3
    case PUnlock => 2
    case PPost => 1
    case PDone => 0
    case CWait => 6
    case CLock => 5
    case CAdvance => 4
    case CLoad => 3
    case CUnlock(_) => 2
    case CPost(_) => 1
    case CDone(_) => 0
  }

  function AllLeft(threads: seq<Pc>): nat {
    if threads == [] then 0 else Left(threads[0]) + AllLeft(threads[1..])
  }

  lemma {:induction false} AllLeftUpdate(threads: seq<Pc>, t: nat, pc: Pc)
    requires t < |threads|
    ensures AllLeft(threads[t := pc]) == AllLeft(threads) - Left(threads[t]) + Left(pc)
  {
    if t > 0 {
      AllLeftUpdate(threads[1..], t - 1, pc);
      assert threads[t := pc][1..] == threads[1..][t - 1 := pc];
    } else {
      assert threads[0 := pc][1..] == threads[1..];
    }
  }

  // Steps of the schedule in which the thread was not blocked.
  function Moves(s: State, schedule: seq<nat>): nat
    requires WellFormed(s)
  {
    if schedule == [] then 0
    else
      var n := |schedule| - 1;
      var r := Run(s, schedule[..n]);
      Moves(s, schedule[..n]) + if Step(r, schedule[n]) != r then 1 else 0
  }

  lemma MoveTakesOne(s: State, t: nat)
    requires WellFormed(s) && Step(s, t) != s
    ensures AllLeft(Step(s, t).threads) + 1 == AllLeft(s.threads)
  {
    if t >= |s.threads| { OnlyThreads(s, t); }
    hide Step, AllLeft, Left;
    if IsProducer(s.threads[t]) { ProducerMove(s, t); } else { ConsumerMove(s, t); }
    AllLeftUpdate(s.threads, t, Step(s, t).threads[t]);
  }

  // A step of thread t executes one of its instructions and moves nobody else.
  lemma ProducerMove(s: State, t: nat)
    requires WellFormed(s) && t < |s.threads| && Step(s, t) != s && IsProducer(s.threads[t])
    ensures var r := Step(s, t);
      r.threads == s.threads[t := r.threads[t]] && Left(r.threads[t]) + 1 == Left(s.threads[t])
  {
    hide Cell;
  }

  lemma ConsumerMove(s: State, t: nat)
    requires WellFormed(s) && t < |s.threads| && Step(s, t) != s && !IsProducer(s.threads[t])
    ensures var r := Step(s, t);
      r.threads == s.threads[t := r.threads[t]] && Left(r.threads[t]) + 1 == Left(s.threads[t])
  {
    hide Cell;
  }

  lemma OnlyThreads(s: State, t: nat)
    requires WellFormed(s) && t >= |s.threads|
    ensures Step(s, t) == s
  {
  }

  lemma {:induction false} MovesTakeInstructions(s: State, schedule: seq<nat>)
    requires WellFormed(s)
    ensures Moves(s, schedule) + AllLeft(Run(s, schedule).threads) == AllLeft(s.threads)
  {
    if schedule != [] {
      var n := |schedule| - 1;
      MovesTakeInstructions(s, schedule[..n]);
      var r := Run(s, schedule[..n]);
      if Step(r, schedule[n]) != r { MoveTakesOne(r, schedule[n]); }
    }
  }

  lemma {:induction false} AllLeftBound(threads: seq<Pc>)
    ensures AllLeft(threads) <= 7 * |threads|
  {
    if threads != [] { AllLeftBound(threads[1..]); }
  }

  // No run moves forever: every schedule has at most seven effective steps a thread.
  lemma MovesBounded(capacity: nat, roles: seq<bool>, schedule: seq<nat>)
    requires capacity > 0
    ensures Moves(Init(capacity, roles), schedule) <= 7 * |roles|
  {
    MovesTakeInstructions(Init(capacity, roles), schedule);
    AllLeftBound(Init(capacity, roles).threads);
  }

  // When all have finished, the consumers have returned exactly the values 1, 2, ... up to their
  // number, one each.
  lemma ConsumersReturnFirstValues(capacity: nat, roles: seq<bool>, schedule: seq<nat>)
    requires capacity > 0 && AllDone(Run(Init(capacity, roles), schedule))
    ensures Held(Run(Init(capacity, roles), schedule).threads) == multiset(Numbers(|roles| - ProducerRoles(roles)))
  {
    hide Run, Count, Held, Numbers, Stuck, LocksOk, IndicesOk;
    var init := Init(capacity, roles);
    var s := Run(init, schedule);
    InitInv(capacity, roles);
    RunKeeps(init, schedule);
    RolesFixed(init, schedule);
    RolesCount(init.threads, roles);
    NobodyUnderway(s);
    assert |s.dequeued| == |roles| - ProducerRoles(roles) && |s.dequeued| <= |s.enqueued|;
    assert s.dequeued == Numbers(|s.dequeued|);
  }

  lemma NobodyUnderway(s: State)
    requires AllDone(s)
    ensures Count(s.threads, CIdle) == Count(s.threads, CTook) == Count(s.threads, CLoaded) == 0
  {
    CountNone(s.threads, CIdle);
    CountNone(s.threads, CTook);
    CountNone(s.threads, CLoaded);
  }
}
