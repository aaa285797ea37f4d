// What the queue promises over whole runs: a bounded FIFO that delivers every item once.
module MpmcDelivery {
  import opened Shared
  import opened Rings
  import opened MpmcQueue

  // The content of the queue as its claims define it: claimed by an enqueuer and not yet by
  // a dequeuer, in ticket order.
  ghost function Contents<T>(s: State<T>): seq<T>
    requires s.dequeuePos <= |s.tickets|
  {
    seq(|s.tickets| - s.dequeuePos, i requires 0 <= i < |s.tickets| - s.dequeuePos => s.tickets[s.dequeuePos + i].item)
  }

  // Whatever the interleaving of any number of producers and consumers: the dequeue that
  // claimed ticket p returned exactly what the enqueue that claimed p stored, no ticket is
  // delivered twice, and the positions never drift apart by more than the capacity.
  lemma DeliveredOnceInTicketOrder<T>(data: seq<T>, threadCount: nat, schedule: Schedule<T>)
    requires |data| >= 2
    ensures var s := Run(Init(data, threadCount), schedule);
      && s.dequeuePos <= s.enqueuePos == |s.tickets|
      && s.enqueuePos <= s.dequeuePos + |data|
      && (forall k :: 0 <= k < |s.returned| ==>
            s.returned[k].0 < s.dequeuePos && s.returned[k].1 == s.tickets[s.returned[k].0].item)
      && (forall j, k :: 0 <= j < k < |s.returned| ==> s.returned[j].0 != s.returned[k].0)
  {
    InitInv(data, threadCount);
    RunKeeps(Init(data, threadCount), schedule);
    var s := Run(Init(data, threadCount), schedule);
    PositionsWithinCapacity(s);
  }

  lemma PositionsWithinCapacity<T>(s: State<T>)
    requires Inv(s)
    ensures s.enqueuePos <= s.dequeuePos + s.capacity
  {
    assert s.dequeuePos < |s.tickets| ==>
      s.tickets[s.dequeuePos].phase != Reading && s.tickets[s.dequeuePos].phase != Released;
  }

  // No two threads between claim and publication (or claim and release) use the same cell,
  // so the unprotected accesses to `data` never race.
  lemma OwnersHaveDistinctCells<T>(data: seq<T>, threadCount: nat, schedule: Schedule<T>, t: nat, u: nat)
    requires |data| >= 2 && t != u
    requires var s := Run(Init(data, threadCount), schedule);
      t < |s.threads| && u < |s.threads| && Owning(s.threads[t]) && Owning(s.threads[u])
    ensures var s := Run(Init(data, threadCount), schedule);
      Cell(s.threads[t].pos, |data|) != Cell(s.threads[u].pos, |data|)
  {
    InitInv(data, threadCount);
    RunKeeps(Init(data, threadCount), schedule);
    var s := Run(Init(data, threadCount), schedule);
    assert ThreadOk(s, s.threads[t]) && ThreadOk(s, s.threads[u]);
    OwnedCell(s, s.threads[t].pos);
    OwnedCell(s, s.threads[u].pos);
  }

  // The queue refines a bounded FIFO: a successful enqueue claim appends its item to a
  // queue that is not full, a successful dequeue claim removes the head (which, by
  // DeliveredOnceInTicketOrder, is what it will return), and no other step changes it.
  lemma RefinesBoundedFifo<T>(s: State<T>, t: nat, a: Action<T>)
    requires Inv(s) && s.capacity >= 2
    ensures var r := Step(s, t, a);
      && r.dequeuePos <= |r.tickets|
      && |Contents(r)| <= s.capacity
      && if r.enqueuePos != s.enqueuePos then
           t < |s.threads| && s.threads[t].EnqCas? && |Contents(s)| < s.capacity
           && Contents(r) == Contents(s) + [s.threads[t].item]
         else if r.dequeuePos != s.dequeuePos then
           t < |s.threads| && s.threads[t].DeqCas? && Contents(s) != []
           && Contents(r) == Contents(s)[1..] && r.tickets[s.threads[t].pos].item == Contents(s)[0]
         else Contents(r) == Contents(s)
  {
    StepItems(s, t, a);
    hide CellsOk, ReturnsOk, Cell, Step;
    var r := Step(s, t, a);
    StepKeeps(s, t, a);
    PositionsWithinCapacity(s);
    PositionsWithinCapacity(r);
    if t < |s.threads| {
      assert ThreadOk(s, s.threads[t]);
    }
  }

  // What a step does to the claims.
  lemma StepItems<T>(s: State<T>, t: nat, a: Action<T>)
    requires WellFormed(s)
    ensures var r := Step(s, t, a);
      && r.capacity == s.capacity
      && |r.tickets| >= |s.tickets| && (forall p :: 0 <= p < |s.tickets| ==> r.tickets[p].item == s.tickets[p].item)
      && (r.enqueuePos != s.enqueuePos ==>
            && t < |s.threads| && s.threads[t].EnqCas? && r.dequeuePos == s.dequeuePos
            && |r.tickets| == |s.tickets| + 1 && r.tickets[|s.tickets|].item == s.threads[t].item)
      && (r.enqueuePos == s.enqueuePos ==> |r.tickets| == |s.tickets|)
      && (r.dequeuePos != s.dequeuePos ==>
            && t < |s.threads| && s.threads[t].DeqCas? && s.threads[t].pos == s.dequeuePos
            && r.dequeuePos == s.dequeuePos + 1)
  {
    hide Cell;
  }

  // A false return means what it says at the moment of the sequence read: for an enqueue, the
  // previous use of the cell was not released; for a dequeue, the ticket was not published.
  lemma FalseReturnMeans<T>(s: State<T>, t: nat)
    requires Inv(s) && s.capacity >= 2 && t < |s.threads|
    requires s.threads[t].EnqReadSeq? || s.threads[t].DeqReadSeq?
    ensures AdvanceThread(s, t).threads[t].Idle? <==>
      var pos := s.threads[t].pos;
      if s.threads[t].EnqReadSeq? then pos >= s.capacity && !IsReleased(s.tickets, pos - s.capacity)
      else !Published(s.tickets, pos)
  {
    EnqueueReadMeans(s, s.threads[t].pos);
    DequeueReadMeans(s, s.threads[t].pos);
  }

  // ---------------------------------------------------------------- nothing is lost

  // Thread t is between claim and publication, or claim and release, of ticket p.
  predicate Owns<T>(s: State<T>, t: nat, p: nat) {
    t < |s.threads| && Owning(s.threads[t]) && s.threads[t].pos == p
  }

  // Return number k delivered ticket p.
  predicate Delivers<T>(s: State<T>, k: nat, p: nat) {
    k < |s.returned| && s.returned[k].0 == p
  }

  ghost predicate Delivered<T>(s: State<T>, p: nat) { exists k: nat :: Delivers(s, k, p) }

  // A ticket being written or read is in some thread's hands, a released one was delivered.
  ghost predicate Accounted<T>(s: State<T>, p: nat)
    requires p < |s.tickets|
  {
    match s.tickets[p].phase
    case Full => true
    case Released => Delivered(s, p)
    case _ => exists t: nat :: Owns(s, t, p)
  }

  ghost predicate AllAccounted<T>(s: State<T>) {
    forall p :: 0 <= p < |s.tickets| ==> Accounted(s, p)
  }

  // What a step leaves of the records about tickets that thread t does not move.
  lemma RecordsStay<T>(s: State<T>, t: nat, a: Action<T>, p: nat)
    requires WellFormed(s) && t < |s.threads| && p < |s.tickets| && Accounted(s, p)
    requires p < |Step(s, t, a).tickets| && Step(s, t, a).tickets[p] == s.tickets[p]
    requires Owning(s.threads[t]) && s.threads[t].pos == p ==>
      Owning(Step(s, t, a).threads[t]) && Step(s, t, a).threads[t].pos == p
    ensures Accounted(Step(s, t, a), p)
  {
    hide Cell;
    var r := Step(s, t, a);
    if s.tickets[p].phase.Released? {
      var k: nat :| Delivers(s, k, p);
      assert Delivers(r, k, p);
    } else if !s.tickets[p].phase.Full? {
      var u: nat :| Owns(s, u, p);
      assert Owns(r, u, p);
    }
  }

  lemma StepAccounts<T>(s: State<T>, t: nat, a: Action<T>)
    requires Inv(s) && AllAccounted(s)
    ensures AllAccounted(Step(s, t, a))
  {
    var r := Step(s, t, a);
    if t < |s.threads| && r != s {
      assert ThreadOk(s, s.threads[t]);
      forall p | 0 <= p < |r.tickets| ensures Accounted(r, p) {
        if p < |s.tickets| && r.tickets[p] == s.tickets[p] && !MovesTicket(s, t, a, p) {
          RecordsStay(s, t, a, p);
        } else {
          TicketMoved(s, t, a, p);
        }
      }
    }
  }

  // The steps that claim, publish or release ticket p.
  predicate MovesTicket<T>(s: State<T>, t: nat, a: Action<T>, p: nat) {
    && a.Advance? && t < |s.threads|
    && match s.threads[t]
       case EnqCas(_, pos) => pos == p == s.enqueuePos
       case EnqPublish(_, pos) => pos == p
       case DeqCas(pos) => pos == p == s.dequeuePos
       case DeqRelease(pos, _) => pos == p
       case _ => false
  }

  lemma TicketMoved<T>(s: State<T>, t: nat, a: Action<T>, p: nat)
    requires Inv(s) && t < |s.threads| && ThreadOk(s, s.threads[t]) && p < |Step(s, t, a).tickets|
    requires MovesTicket(s, t, a, p) || p >= |s.tickets| || Step(s, t, a).tickets[p] != s.tickets[p]
    ensures Accounted(Step(s, t, a), p)
  {
    hide CellOk, CellsOk, ReturnsOk, ThreadsOk, Cell;
    var r := Step(s, t, a);
    if s.threads[t].DeqRelease? {
      assert Delivers(r, |s.returned|, p);
    } else if s.threads[t].EnqCas? || s.threads[t].DeqCas? {
      assert Owns(r, t, p);
    }
  }

  lemma {:induction false} RunAccounts<T>(s: State<T>, schedule: Schedule<T>)
    requires Inv(s) && s.capacity >= 2 && AllAccounted(s)
    ensures AllAccounted(Run(s, schedule))
  {
    if schedule != [] {
      var n := |schedule| - 1;
      RunKeeps(s, schedule[..n]);
      RunAccounts(s, schedule[..n]);
      StepAccounts(Run(s, schedule[..n]), schedule[n].0, schedule[n].1);
    }
  }

  ghost predicate AllIdle<T>(s: State<T>) { forall t :: 0 <= t < |s.threads| ==> s.threads[t].Idle? }

  lemma DeliveredIsPassed<T>(s: State<T>, p: nat)
    requires Inv(s) && AllAccounted(s) && AllIdle(s)
    ensures p < s.dequeuePos <==> Delivered(s, p)
  {
    if p < s.dequeuePos {
      forall t: nat ensures !Owns(s, t, p) { assert t < |s.threads| ==> s.threads[t].Idle?; }
      assert Accounted(s, p);
    }
    if Delivered(s, p) {
      var k: nat :| Delivers(s, k, p);
      assert IsReleased(s.tickets, s.returned[k].0);
    }
  }

  // Once all calls have returned, the tickets delivered are exactly those the dequeue position
  // has passed, each once and with its item, and the others wait in their cells: nothing is
  // lost and nothing is made up.
  lemma NothingLost<T>(data: seq<T>, threadCount: nat, schedule: Schedule<T>)
    requires |data| >= 2
    requires AllIdle(Run(Init(data, threadCount), schedule))
    ensures var s := Run(Init(data, threadCount), schedule);
      && (forall p: nat :: p < s.dequeuePos <==> Delivered(s, p))
      && (forall k :: 0 <= k < |s.returned| ==>
            s.returned[k].0 < |s.tickets| && s.returned[k].1 == s.tickets[s.returned[k].0].item)
      && (forall j, k :: 0 <= j < k < |s.returned| ==> s.returned[j].0 != s.returned[k].0)
      && (forall p :: s.dequeuePos <= p < |s.tickets| ==>
            s.sequence[Cell(p, |data|)] == p + 1 && s.data[Cell(p, |data|)] == s.tickets[p].item)
  {
    var init := Init(data, threadCount);
    InitInv(data, threadCount);
    RunKeeps(init, schedule);
    RunAccounts(init, schedule);
    var s := Run(init, schedule);
    PositionsWithinCapacity(s);
    forall p: nat ensures p < s.dequeuePos <==> Delivered(s, p) { DeliveredIsPassed(s, p); }
    forall p | s.dequeuePos <= p < |s.tickets|
      ensures s.sequence[Cell(p, |data|)] == p + 1 && s.data[Cell(p, |data|)] == s.tickets[p].item
    {
      assert Accounted(s, p) && CellOk(s, p);
    }
  }

  // ---------------------------------------------------------------- progress

  // Thread t executes n instructions with nobody in between.
  function Alone<T>(s: State<T>, t: nat, n: nat): (r: State<T>)
    requires WellFormed(s)
    ensures WellFormed(r) && |r.threads| == |s.threads|
    decreases n
  {
    if n == 0 then s else Alone(Step(s, t, Advance), t, n - 1)
  }

  // The state after thread t called `enqueue(item)`, or `dequeue`, and ran undisturbed.
  function EnqueueRun<T>(s: State<T>, t: nat, item: T): State<T>
    requires WellFormed(s)
  {
    Alone(Step(s, t, StartEnqueue(item)), t, 5)
  }

  function DequeueRun<T>(s: State<T>, t: nat): State<T>
    requires WellFormed(s)
  {
    Alone(Step(s, t, StartDequeue), t, 5)
  }

  // The cell of the next ticket is free: its previous use was released.
  ghost predicate Room<T>(s: State<T>) {
    s.enqueuePos >= s.capacity ==> IsReleased(s.tickets, s.enqueuePos - s.capacity)
  }

  lemma {:induction false} AloneIdle<T>(s: State<T>, t: nat, n: nat)
    requires WellFormed(s) && t < |s.threads| && s.threads[t].Idle?
    ensures Alone(s, t, n) == s
  {
    if n > 0 { AloneIdle(s, t, n - 1); }
  }

  lemma OneAlone<T>(s: State<T>, t: nat, n: nat)
    requires WellFormed(s) && n > 0
    ensures Alone(s, t, n) == Alone(Step(s, t, Advance), t, n - 1)
  {
  }

  // From any reachable state an undisturbed enqueue returns; it returns true, with its item
  // published under the next ticket, exactly when the previous use of that ticket's cell was
  // released, and otherwise false, having changed nothing.
  lemma EnqueueReturns<T>(s: State<T>, t: nat, item: T)
    requires Inv(s) && s.capacity >= 2 && t < |s.threads| && s.threads[t].Idle?
    ensures var r := EnqueueRun(s, t, item);
      var i := Cell(s.enqueuePos, s.capacity);
      r == if Room(s)
           then s.(enqueuePos := s.enqueuePos + 1, tickets := s.tickets + [Ticket(item, Full)],
                   data := s.data[i := item], sequence := s.sequence[i := s.enqueuePos + 1])
           else s
  {
    var pos := s.enqueuePos;
    var started := Step(s, t, StartEnqueue(item));
    var loaded := s.(threads := s.threads[t := EnqReadSeq(item, pos)]);
    EnqueueReadMeans(s, pos);
    assert Step(started, t, Advance) == loaded;
    hide Cell;
    OneAlone(started, t, 5);
    OneAlone(loaded, t, 4);
    if Room(s) {
      assert s.sequence[Cell(pos, s.capacity)] == pos;
      var claiming := s.(threads := s.threads[t := EnqCas(item, pos)]);
      assert Step(loaded, t, Advance) == claiming;
      StoresAlone(s, claiming, t, item);
    } else {
      assert Step(loaded, t, Advance) == s by { assert s.threads[t := Idle] == s.threads; }
      AloneIdle(s, t, 3);
    }
  }

  lemma StoresAlone<T>(s: State<T>, claiming: State<T>, t: nat, item: T)
    requires WellFormed(s) && t < |s.threads| && s.threads[t].Idle? && |s.tickets| == s.enqueuePos
    requires claiming == s.(threads := s.threads[t := EnqCas(item, s.enqueuePos)])
    ensures var i := Cell(s.enqueuePos, s.capacity);
      Alone(claiming, t, 3) ==
        s.(enqueuePos := s.enqueuePos + 1, tickets := s.tickets + [Ticket(item, Full)],
           data := s.data[i := item], sequence := s.sequence[i := s.enqueuePos + 1])
  {
    hide Cell;
    var pos := s.enqueuePos;
    var i := Cell(pos, s.capacity);
    var claimed := s.(threads := s.threads[t := EnqStore(item, pos)], enqueuePos := pos + 1,
                      tickets := s.tickets + [Ticket(item, Writing)]);
    var stored := claimed.(threads := s.threads[t := EnqPublish(item, pos)], data := s.data[i := item]);
    OneAlone(claiming, t, 3);
    assert Step(claiming, t, Advance) == claimed;
    OneAlone(claimed, t, 2);
    assert Step(claimed, t, Advance) == stored;
    OneAlone(stored, t, 1);
    assert SetPhase(stored.tickets, pos, Full) == s.tickets + [Ticket(item, Full)];
    assert stored.threads[t := Idle] == s.threads;
  }

  // The same for a dequeue: it returns true, with the item of the ticket at the dequeue position,
  // exactly when that ticket is published, and otherwise false, having changed nothing.
  lemma DequeueReturns<T>(s: State<T>, t: nat)
    requires Inv(s) && s.capacity >= 2 && t < |s.threads| && s.threads[t].Idle?
    ensures var r := DequeueRun(s, t);
      var pos := s.dequeuePos;
      if Published(s.tickets, pos)
      then r == s.(dequeuePos := pos + 1, tickets := SetPhase(s.tickets, pos, Released),
                   sequence := s.sequence[Cell(pos, s.capacity) := pos + s.capacity],
                   returned := s.returned + [(pos, s.tickets[pos].item)])
      else r == s
  {
    var pos := s.dequeuePos;
    var started := Step(s, t, StartDequeue);
    var loaded := s.(threads := s.threads[t := DeqReadSeq(pos)]);
    DequeueReadMeans(s, pos);
    PositionsWithinCapacity(s);
    assert Step(started, t, Advance) == loaded;
    assert pos < |s.tickets| ==> CellOk(s, pos);
    hide Cell;
    OneAlone(started, t, 5);
    OneAlone(loaded, t, 4);
    if Published(s.tickets, pos) {
      var claiming := s.(threads := s.threads[t := DeqCas(pos)]);
      assert Step(loaded, t, Advance) == claiming;
      FetchesAlone(s, claiming, t);
    } else {
      assert Step(loaded, t, Advance) == s by { assert s.threads[t := Idle] == s.threads; }
      AloneIdle(s, t, 3);
    }
  }

  lemma FetchesAlone<T>(s: State<T>, claiming: State<T>, t: nat)
    requires WellFormed(s) && t < |s.threads| && s.threads[t].Idle? && s.dequeuePos < |s.tickets|
    requires claiming == s.(threads := s.threads[t := DeqCas(s.dequeuePos)])
    requires s.data[Cell(s.dequeuePos, s.capacity)] == s.tickets[s.dequeuePos].item
    ensures var pos := s.dequeuePos;
      Alone(claiming, t, 3) ==
        s.(dequeuePos := pos + 1, tickets := SetPhase(s.tickets, pos, Released),
           sequence := s.sequence[Cell(pos, s.capacity) := pos + s.capacity],
           returned := s.returned + [(pos, s.tickets[pos].item)])
  {
    hide Cell;
    var pos, item := s.dequeuePos, s.tickets[s.dequeuePos].item;
    var claimed := s.(threads := s.threads[t := DeqFetch(pos)], dequeuePos := pos + 1,
                      tickets := SetPhase(s.tickets, pos, Reading));
    var fetched := claimed.(threads := s.threads[t := DeqRelease(pos, item)]);
    OneAlone(claiming, t, 3);
    assert Step(claiming, t, Advance) == claimed;
    OneAlone(claimed, t, 2);
    assert Step(claimed, t, Advance) == fetched;
    OneAlone(fetched, t, 1);
    assert SetPhase(fetched.tickets, pos, Released) == SetPhase(s.tickets, pos, Released);
    assert fetched.threads[t := Idle] == s.threads;
  }

  // Steps a thread needs at most to return if nobody else moves. A stale position costs one
  // failed attempt.
  function Distance<T>(s: State<T>, pc: Pc<T>): nat {
    match pc
    case Idle => 0
    case EnqPublish(_, _) => 1
    case EnqStore(_, _) => 2
    case EnqCas(_, pos) => if pos == s.enqueuePos then 3 else 5
    case EnqReadSeq(_, pos) => if pos == s.enqueuePos then 4 else 6
    case EnqLoad(_) => 5
    case DeqRelease(_, _) => 1
    case DeqFetch(_) => 2
    case DeqCas(pos) => if pos == s.dequeuePos then 3 else 5
    case DeqReadSeq(pos) => if pos == s.dequeuePos then 4 else 6
    case DeqLoad => 5
  }

  lemma StepComesCloser<T>(s: State<T>, t: nat)
    requires Inv(s) && s.capacity >= 2 && t < |s.threads| && !s.threads[t].Idle?
    ensures var r := Step(s, t, Advance); Distance(r, r.threads[t]) < Distance(s, s.threads[t])
  {
    if s.threads[t].EnqReadSeq? { EnqueueReadMeans(s, s.threads[t].pos); }
    if s.threads[t].DeqReadSeq? { DequeueReadMeans(s, s.threads[t].pos); }
    hide CellsOk, ThreadsOk, ReturnsOk, Cell;
  }

  lemma {:induction false} ReturnsAlone<T>(s: State<T>, t: nat, n: nat)
    requires Inv(s) && s.capacity >= 2 && t < |s.threads| && Distance(s, s.threads[t]) <= n
    ensures Alone(s, t, n).threads[t].Idle?
    decreases n
  {
    hide TicketsOk, CellsOk, ThreadsOk, ReturnsOk, Distance, Step;
    NothingLeft(s, t);
    if s.threads[t].Idle? {
      AloneIdle(s, t, n);
    } else {
      StepComesCloser(s, t);
      StepKeeps(s, t, Advance);
      ReturnsAlone(Step(s, t, Advance), t, n - 1);
    }
  }

  lemma NothingLeft<T>(s: State<T>, t: nat)
    requires t < |s.threads|
    ensures Distance(s, s.threads[t]) <= 6 && (Distance(s, s.threads[t]) == 0 <==> s.threads[t].Idle?)
  {
  }

  // Nobody can keep a thread from returning except by moving: from any reachable state and in
  // the middle of any call, a thread that runs undisturbed returns within six steps.
  lemma ReturnsWithinSix<T>(s: State<T>, t: nat)
    requires Inv(s) && s.capacity >= 2 && t < |s.threads|
    ensures Alone(s, t, 6).threads[t].Idle?
  {
    NothingLeft(s, t);
    ReturnsAlone(s, t, 6);
  }

  // ---------------------------------------------------------------- returns and arguments

  // A call ends in no other way than these, whatever the others do and however often a
  // compare-and-swap fails: true after the publication or the release, false at a sequence
  // number that shows the queue full or empty.
  lemma EndsOnlySo<T>(s: State<T>, t: nat, u: nat, a: Action<T>)
    requires Inv(s) && s.capacity >= 2 && t < |s.threads| && !s.threads[t].Idle?
    requires Step(s, u, a).threads[t].Idle?
    ensures u == t && a.Advance?
    ensures match s.threads[t]
      case EnqPublish(_, _) => true
      case DeqRelease(_, _) => true
      case EnqReadSeq(_, pos) => pos >= s.capacity && !IsReleased(s.tickets, pos - s.capacity)
      case DeqReadSeq(pos) => !Published(s.tickets, pos)
      case _ => false
  {
    if s.threads[t].EnqReadSeq? || s.threads[t].DeqReadSeq? { FalseReturnMeans(s, t); }
    hide Inv, Cell;
  }

  // Every attempt begins at the position of that moment, after a failed compare-and-swap too.
  lemma AttemptsAreFresh<T>(s: State<T>, t: nat, u: nat, a: Action<T>)
    requires WellFormed(s) && t < |s.threads| && Step(s, u, a).threads[t] != s.threads[t]
    ensures var pc := Step(s, u, a).threads[t];
      (pc.EnqReadSeq? ==> pc.pos == s.enqueuePos) && (pc.DeqReadSeq? ==> pc.pos == s.dequeuePos)
  {
    hide Cell;
  }

  // What a thread was called with.
  datatype Call<T> = Enqueue(item: T) | Dequeue

  function CallOf<T>(pc: Pc<T>): Option<Call<T>> {
    match pc
    case Idle => None
    case EnqLoad(item) => Some(Enqueue(item))
    case EnqReadSeq(item, _) => Some(Enqueue(item))
    case EnqCas(item, _) => Some(Enqueue(item))
    case EnqStore(item, _) => Some(Enqueue(item))
    case EnqPublish(item, _) => Some(Enqueue(item))
    case _ => Some(Dequeue)
  }

  // The last call thread t made in a schedule; a start while a call is running is none.
  function LastCall<T>(init: State<T>, schedule: Schedule<T>, t: nat): Option<Call<T>>
    requires WellFormed(init)
  {
    if schedule == [] then None
    else
      var n := |schedule| - 1;
      var s := Run(init, schedule[..n]);
      var (u, a) := schedule[n];
      if u == t && t < |s.threads| && s.threads[t].Idle? && a.StartEnqueue? then Some(Enqueue(a.item))
      else if u == t && t < |s.threads| && s.threads[t].Idle? && a.StartDequeue? then Some(Dequeue)
      else LastCall(init, schedule[..n], t)
  }

  lemma StepKeepsCall<T>(s: State<T>, u: nat, a: Action<T>, t: nat)
    requires WellFormed(s) && t < |s.threads| && !Step(s, u, a).threads[t].Idle?
    ensures CallOf(Step(s, u, a).threads[t]) ==
      if u == t && s.threads[t].Idle? && a.StartEnqueue? then Some(Enqueue(a.item))
      else if u == t && s.threads[t].Idle? && a.StartDequeue? then Some(Dequeue)
      else CallOf(s.threads[t])
    ensures s.threads[t].Idle? ==> u == t && (a.StartEnqueue? || a.StartDequeue?)
  {
    hide Cell;
  }

  // In any run a thread works on its last call, with the arguments of that call.
  lemma {:induction false} WorksOnLastCall<T>(init: State<T>, schedule: Schedule<T>, t: nat)
    requires WellFormed(init) && t < |init.threads| && forall u :: 0 <= u < |init.threads| ==> init.threads[u].Idle?
    ensures var s := Run(init, schedule);
      |s.threads| == |init.threads| && (!s.threads[t].Idle? ==> CallOf(s.threads[t]) == LastCall(init, schedule, t))
  {
    if schedule != [] {
      var n := |schedule| - 1;
      WorksOnLastCall(init, schedule[..n], t);
      var s := Run(init, schedule[..n]);
      var (u, a) := schedule[n];
      if !Step(s, u, a).threads[t].Idle? { StepKeepsCall(s, u, a, t); }
    }
  }

  // The item stored under a new ticket is the argument of the last call of the thread that
  // claimed it, and only an enqueue claims one.
  lemma TicketCarriesArgument<T>(data: seq<T>, threadCount: nat, schedule: Schedule<T>, t: nat, a: Action<T>)
    requires |data| >= 1
    requires var s := Run(Init(data, threadCount), schedule);
      t < |s.threads| && |Step(s, t, a).tickets| != |s.tickets|
    ensures var init := Init(data, threadCount);
      var s := Run(init, schedule);
      var r := Step(s, t, a);
      && |r.tickets| == |s.tickets| + 1
      && LastCall(init, schedule, t) == Some(Enqueue(r.tickets[|s.tickets|].item))
  {
    var init := Init(data, threadCount);
    var s := Run(init, schedule);
    RunThreads(init, schedule);
    WorksOnLastCall(init, schedule, t);
    NewTicketItem(s, t, a);
  }

  lemma {:induction false} RunThreads<T>(init: State<T>, schedule: Schedule<T>)
    requires WellFormed(init)
    ensures |Run(init, schedule).threads| == |init.threads|
  {
    if schedule != [] { RunThreads(init, schedule[..|schedule| - 1]); }
  }

  lemma NewTicketItem<T>(s: State<T>, t: nat, a: Action<T>)
    requires WellFormed(s) && t < |s.threads| && |Step(s, t, a).tickets| != |s.tickets|
    ensures var r := Step(s, t, a);
      |r.tickets| == |s.tickets| + 1 && CallOf(s.threads[t]) == Some(Enqueue(r.tickets[|s.tickets|].item))
  {
    hide Cell;
  }
}
