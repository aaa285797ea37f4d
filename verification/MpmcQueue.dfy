// The bounded multi-producer multi-consumer queue as a transition system.
//
// A cell is claimed by a compare-and-swap on `enqueuePos` or `dequeuePos` and handed
// over through its sequence number. Every atomic load, compare-and-swap, store and
// data access is one step of one thread; a schedule chooses freely which thread moves
// next, so a statement about all schedules is a statement about all interleavings.
module MpmcQueue {
  import opened Rings

  // What has happened so far to the item that was stored under a ticket.
  datatype Phase = Writing | Full | Reading | Released

  // History of one ticket: the item its enqueuer brought, and its phase.
  datatype Ticket<T> = Ticket(item: T, phase: Phase)

  // Program counters of `enqueue` and `dequeue`.
  datatype Pc<T> =
    | Idle
    | EnqLoad(item: T)
    | EnqReadSeq(item: T, pos: nat)
    | EnqCas(item: T, pos: nat)
    | EnqStore(item: T, pos: nat)
    | EnqPublish(item: T, pos: nat)
    | DeqLoad
    | DeqReadSeq(pos: nat)
    | DeqCas(pos: nat)
    | DeqFetch(pos: nat)
    | DeqRelease(pos: nat, value: T)

  // What the scheduler lets a thread do. `Advance` executes the next instruction;
  // `FailCas` is a failing compare_exchange_weak, which may also fail spuriously.
  datatype Action<T> = StartEnqueue(item: T) | StartDequeue | Advance | FailCas

  // `tickets` and `returned` are history: no instruction reads them.
  datatype State<T> = State(
    capacity: nat,
    sequence: seq<nat>,
    data: seq<T>,
    enqueuePos: nat,
    dequeuePos: nat,
    threads: seq<Pc<T>>,
    tickets: seq<Ticket<T>>,
    returned: seq<(nat, T)>)

  type Schedule<T> = seq<(nat, Action<T>)>

  // The constructor: cell i starts with sequence number i; the data is uninitialised.
  function Init<T>(data: seq<T>, threadCount: nat): State<T> {
    State(|data|, seq(|data|, i requires 0 <= i => i), data, 0, 0, seq(threadCount, _ => Idle), [], [])
  }

  function SetPhase<T>(tickets: seq<Ticket<T>>, p: nat, phase: Phase): seq<Ticket<T>> {
    if p < |tickets| then tickets[p := tickets[p].(phase := phase)] else tickets
  }

  predicate WellFormed<T>(s: State<T>) {
    s.capacity > 0 && |s.sequence| == s.capacity && |s.data| == s.capacity
  }

  // One instruction of thread t. An action the thread cannot take leaves the state unchanged.
  function Step<T>(s: State<T>, t: nat, a: Action<T>): (r: State<T>)
    requires WellFormed(s)
    ensures WellFormed(r) && r.capacity == s.capacity && |r.threads| == |s.threads|
  {
    if t >= |s.threads| then s else
    match a
    case StartEnqueue(item) => if s.threads[t].Idle? then Goto(s, t, EnqLoad(item)) else s
    case StartDequeue => if s.threads[t].Idle? then Goto(s, t, DeqLoad) else s
    case FailCas =>
      (match s.threads[t]
       case EnqCas(item, _) => Goto(s, t, EnqReadSeq(item, s.enqueuePos))
       case DeqCas(_) => Goto(s, t, DeqReadSeq(s.dequeuePos))
       case _ => s)
    case Advance => AdvanceThread(s, t)
  }

  function Goto<T>(s: State<T>, t: nat, pc: Pc<T>): State<T>
    requires t < |s.threads|
  {
    s.(threads := s.threads[t := pc])
  }

  function AdvanceThread<T>(s: State<T>, t: nat): (r: State<T>)
    requires WellFormed(s) && t < |s.threads|
    ensures WellFormed(r) && r.capacity == s.capacity && |r.threads| == |s.threads|
  {
    match s.threads[t]
    case Idle => s
    case EnqLoad(item) => Goto(s, t, EnqReadSeq(item, s.enqueuePos))
    case EnqReadSeq(item, pos) =>
      var q := s.sequence[Cell(pos, s.capacity)];
      if q == pos then Goto(s, t, EnqCas(item, pos))
      else if q < pos then Goto(s, t, Idle)                      // returns false: full
      else Goto(s, t, EnqLoad(item))
    case EnqCas(item, pos) =>
      if s.enqueuePos == pos then
        Goto(s, t, EnqStore(item, pos)).(enqueuePos := pos + 1, tickets := s.tickets + [Ticket(item, Writing)])
      else Goto(s, t, EnqReadSeq(item, s.enqueuePos))
    case EnqStore(item, pos) =>
      Goto(s, t, EnqPublish(item, pos)).(data := s.data[Cell(pos, s.capacity) := item])
    case EnqPublish(item, pos) =>
      Goto(s, t, Idle).(sequence := s.sequence[Cell(pos, s.capacity) := pos + 1],
                        tickets := SetPhase(s.tickets, pos, Full))
    case DeqLoad => Goto(s, t, DeqReadSeq(s.dequeuePos))
    case DeqReadSeq(pos) =>
      var q := s.sequence[Cell(pos, s.capacity)];
      if q == pos + 1 then Goto(s, t, DeqCas(pos))
      else if q < pos + 1 then Goto(s, t, Idle)                  // returns false: empty
      else Goto(s, t, DeqLoad)
    case DeqCas(pos) =>
      if s.dequeuePos == pos then
        Goto(s, t, DeqFetch(pos)).(dequeuePos := pos + 1, tickets := SetPhase(s.tickets, pos, Reading))
      else Goto(s, t, DeqReadSeq(s.dequeuePos))
    case DeqFetch(pos) => Goto(s, t, DeqRelease(pos, s.data[Cell(pos, s.capacity)]))
    case DeqRelease(pos, value) =>
      Goto(s, t, Idle).(sequence := s.sequence[Cell(pos, s.capacity) := pos + s.capacity],
                        tickets := SetPhase(s.tickets, pos, Released),
                        returned := s.returned + [(pos, value)])
  }

  // The state after a whole schedule, last step last.
  function Run<T>(s: State<T>, schedule: Schedule<T>): (r: State<T>)
    requires WellFormed(s)
    ensures WellFormed(r) && r.capacity == s.capacity
  {
    if schedule == [] then s
    else
      var n := |schedule| - 1;
      Step(Run(s, schedule[..n]), schedule[n].0, schedule[n].1)
  }

  // ---------------------------------------------------------------- invariant

  ghost predicate PhaseIs<T>(tickets: seq<Ticket<T>>, p: int, phase: Phase) {
    0 <= p < |tickets| && tickets[p].phase == phase
  }

  // Ticket p was claimed and its item made visible to consumers.
  ghost predicate Published<T>(tickets: seq<Ticket<T>>, p: int) {
    0 <= p < |tickets| && tickets[p].phase != Writing
  }

  // Ticket p was consumed and its cell handed back.
  ghost predicate IsReleased<T>(tickets: seq<Ticket<T>>, p: int) {
    PhaseIs(tickets, p, Released)
  }

  ghost predicate TicketsOk<T>(s: State<T>) {
    && |s.tickets| == s.enqueuePos
    && s.dequeuePos <= s.enqueuePos
    && (forall p :: 0 <= p < |s.tickets| ==>
          (p < s.dequeuePos <==> s.tickets[p].phase == Reading || s.tickets[p].phase == Released))
    && (forall p :: 0 <= p < |s.tickets| - s.capacity ==> s.tickets[p].phase == Released)
  }

  // The cell of ticket p carries the sequence number and the item its phase calls for.
  ghost predicate CellOk<T>(s: State<T>, p: nat)
    requires WellFormed(s) && p < |s.tickets|
  {
    var i := Cell(p, s.capacity);
    match s.tickets[p].phase
    case Writing => s.sequence[i] == p
    case Full => s.sequence[i] == p + 1 && s.data[i] == s.tickets[p].item
    case Reading => s.sequence[i] == p + 1 && s.data[i] == s.tickets[p].item
    case Released => s.sequence[i] == p + s.capacity
  }

  ghost predicate CellsOk<T>(s: State<T>)
    requires WellFormed(s)
  {
    && (forall p :: 0 <= p < |s.tickets| <= p + s.capacity ==> CellOk(s, p))
    && (forall i :: |s.tickets| <= i < s.capacity ==> s.sequence[i] == i)
  }

  ghost predicate ThreadOk<T>(s: State<T>, pc: Pc<T>)
    requires WellFormed(s)
  {
    match pc
    case EnqCas(_, pos) => pos >= s.capacity ==> IsReleased(s.tickets, pos - s.capacity)
    case EnqStore(item, pos) => PhaseIs(s.tickets, pos, Writing) && s.tickets[pos].item == item
    case EnqPublish(item, pos) =>
      PhaseIs(s.tickets, pos, Writing) && s.tickets[pos].item == item && s.data[Cell(pos, s.capacity)] == item
    case DeqCas(pos) => Published(s.tickets, pos)
    case DeqFetch(pos) => PhaseIs(s.tickets, pos, Reading)
    case DeqRelease(pos, value) => PhaseIs(s.tickets, pos, Reading) && s.tickets[pos].item == value
    case _ => true
  }

  // The thread sits between its claim and its publication or release.
  predicate Owning<T>(pc: Pc<T>) {
    pc.EnqStore? || pc.EnqPublish? || pc.DeqFetch? || pc.DeqRelease?
  }

  ghost predicate ThreadsOk<T>(s: State<T>)
    requires WellFormed(s)
  {
    && (forall t :: 0 <= t < |s.threads| ==> ThreadOk(s, s.threads[t]))
    && (forall t, u :: 0 <= t < u < |s.threads| && Owning(s.threads[t]) && Owning(s.threads[u]) ==>
          s.threads[t].pos != s.threads[u].pos)
  }

  ghost predicate ReturnsOk<T>(s: State<T>) {
    && (forall k :: 0 <= k < |s.returned| ==>
          IsReleased(s.tickets, s.returned[k].0) && s.returned[k].1 == s.tickets[s.returned[k].0].item)
    && (forall j, k :: 0 <= j < k < |s.returned| ==> s.returned[j].0 != s.returned[k].0)
  }

  ghost predicate Inv<T>(s: State<T>) {
    WellFormed(s) && TicketsOk(s) && CellsOk(s) && ThreadsOk(s) && ReturnsOk(s)
  }

  // ---------------------------------------------------------------- arithmetic of cells

  // The ticket below `used` whose use of pos's cell is the latest, if that cell was ever used.
  lemma CurrentTicket(used: nat, capacity: nat, pos: nat) returns (p: nat)
    requires capacity > 0
    ensures Cell(p, capacity) == Cell(pos, capacity)
    ensures p == Cell(pos, capacity) >= used || p < used <= p + capacity
  {
    p := Cell(pos, capacity);
    while p + capacity < used
      invariant used <= Cell(pos, capacity) ==> p == Cell(pos, capacity)
      invariant Cell(pos, capacity) < used ==> p < used
      invariant Cell(p, capacity) == Cell(pos, capacity)
    {
      p := p + capacity;
    }
  }

  // ---------------------------------------------------------------- what a sequence number means

  // An enqueuer that reads the sequence number of ticket pos, however stale pos is, sees
  // "less" exactly when the cell's previous use was not released, and "greater" exactly
  // when ticket pos was already published.
  lemma EnqueueReadMeans<T>(s: State<T>, pos: nat)
    requires Inv(s) && s.capacity >= 2
    ensures s.sequence[Cell(pos, s.capacity)] < pos <==> pos >= s.capacity && !IsReleased(s.tickets, pos - s.capacity)
    ensures s.sequence[Cell(pos, s.capacity)] > pos <==> Published(s.tickets, pos)
  {
    var p := CurrentTicket(|s.tickets|, s.capacity, pos);
    SameCell(p, pos, s.capacity);
    if pos >= s.capacity { SameCell(p, pos - s.capacity, s.capacity); }
    if p >= |s.tickets| {
      assert s.sequence[p] == p;
    } else {
      assert CellOk(s, p);
      assert pos < |s.tickets| - s.capacity ==> s.tickets[pos].phase == Released;
      assert s.capacity <= pos < |s.tickets| ==> s.tickets[pos - s.capacity].phase == Released;
    }
  }

  // A dequeuer that reads the sequence number of ticket pos sees "less" exactly when the
  // ticket is not published, and "greater" exactly when it was consumed and released.
  lemma DequeueReadMeans<T>(s: State<T>, pos: nat)
    requires Inv(s) && s.capacity >= 2
    ensures s.sequence[Cell(pos, s.capacity)] < pos + 1 <==> !Published(s.tickets, pos)
    ensures s.sequence[Cell(pos, s.capacity)] > pos + 1 <==> IsReleased(s.tickets, pos)
  {
    var p := CurrentTicket(|s.tickets|, s.capacity, pos);
    SameCell(p, pos, s.capacity);
    if p >= |s.tickets| {
      assert s.sequence[p] == p;
    } else {
      assert CellOk(s, p);
      assert pos < |s.tickets| - s.capacity ==> s.tickets[pos].phase == Released;
      assert s.capacity <= pos < |s.tickets| ==> s.tickets[pos - s.capacity].phase == Released;
    }
  }

  // ---------------------------------------------------------------- every step keeps the invariant

  lemma InitInv<T>(data: seq<T>, threadCount: nat)
    requires |data| > 0
    ensures Inv(Init(data, threadCount))
  {
  }

  // No other ticket in the window shares the cell of an owned ticket.
  lemma OwnedCell<T>(s: State<T>, pos: nat)
    requires Inv(s) && pos < |s.tickets| && !IsReleased(s.tickets, pos)
    ensures |s.tickets| <= pos + s.capacity
    ensures forall q :: 0 <= q < |s.tickets| <= q + s.capacity && q != pos ==>
      Cell(q, s.capacity) != Cell(pos, s.capacity)
  {
    forall q | 0 <= q < |s.tickets| <= q + s.capacity && q != pos
      ensures Cell(q, s.capacity) != Cell(pos, s.capacity)
    {
      if Cell(q, s.capacity) == Cell(pos, s.capacity) { SameCell(q, pos, s.capacity); }
    }
  }

  lemma ClaimEnqueueKeeps<T>(s: State<T>, t: nat)
    requires Inv(s) && t < |s.threads| && s.threads[t].EnqCas? && s.threads[t].pos == s.enqueuePos
    ensures Inv(AdvanceThread(s, t))
  {
    assert ThreadOk(s, s.threads[t]);
    ClaimEnqueueCells(s, t);
    ClaimEnqueueThreads(s, t);
    hide CellsOk, ThreadsOk;
  }

  // The claimed cell was free: its sequence number is the new ticket.
  lemma ClaimEnqueueCells<T>(s: State<T>, t: nat)
    requires Inv(s) && t < |s.threads| && s.threads[t].EnqCas? && s.threads[t].pos == s.enqueuePos
    requires ThreadOk(s, s.threads[t])
    ensures CellsOk(AdvanceThread(s, t))
  {
    hide ThreadsOk, ReturnsOk;
    var pos := s.threads[t].pos;
    var r := AdvanceThread(s, t);
    var p := CurrentTicket(|s.tickets|, s.capacity, pos);
    SameCell(p, pos, s.capacity);
    forall q | 0 <= q < |r.tickets| <= q + r.capacity ensures CellOk(r, q) {
      if q < pos { assert CellOk(s, q); } else if p < pos { assert CellOk(s, p); }
    }
  }

  lemma ClaimEnqueueThreads<T>(s: State<T>, t: nat)
    requires Inv(s) && t < |s.threads| && s.threads[t].EnqCas? && s.threads[t].pos == s.enqueuePos
    ensures ThreadsOk(AdvanceThread(s, t))
  {
    hide CellsOk, CellOk, Cell, ReturnsOk;
    var r := AdvanceThread(s, t);
    forall u | 0 <= u < |r.threads| && u != t ensures ThreadOk(r, r.threads[u]) {
      assert ThreadOk(s, s.threads[u]);
    }
    forall u | 0 <= u < |s.threads| && Owning(s.threads[u]) ensures s.threads[u].pos < s.enqueuePos {
      assert ThreadOk(s, s.threads[u]);
    }
  }

  lemma StoreKeeps<T>(s: State<T>, t: nat)
    requires Inv(s) && t < |s.threads| && s.threads[t].EnqStore?
    ensures Inv(AdvanceThread(s, t))
  {
    var pos := s.threads[t].pos;
    var r := AdvanceThread(s, t);
    assert ThreadOk(s, s.threads[t]);
    OwnedCell(s, pos);
    forall p | 0 <= p < |r.tickets| <= p + r.capacity ensures CellOk(r, p) { assert CellOk(s, p); }
    forall u | 0 <= u < |r.threads| && u != t ensures ThreadOk(r, r.threads[u]) {
      assert ThreadOk(s, s.threads[u]);
      if s.threads[u].EnqPublish? { OwnedCell(s, s.threads[u].pos); }
    }
  }

  lemma PublishKeeps<T>(s: State<T>, t: nat)
    requires Inv(s) && t < |s.threads| && s.threads[t].EnqPublish?
    ensures Inv(AdvanceThread(s, t))
  {
    var r := AdvanceThread(s, t);
    assert ThreadOk(s, s.threads[t]);
    OwnedCell(s, s.threads[t].pos);
    forall p | 0 <= p < |r.tickets| <= p + r.capacity ensures CellOk(r, p) { assert CellOk(s, p); }
    forall u | 0 <= u < |r.threads| && u != t ensures ThreadOk(r, r.threads[u]) { assert ThreadOk(s, s.threads[u]); }
  }

  lemma ClaimDequeueKeeps<T>(s: State<T>, t: nat)
    requires Inv(s) && t < |s.threads| && s.threads[t].DeqCas? && s.threads[t].pos == s.dequeuePos
    ensures Inv(AdvanceThread(s, t))
  {
    var r := AdvanceThread(s, t);
    assert ThreadOk(s, s.threads[t]);
    OwnedCell(s, s.threads[t].pos);
    forall p | 0 <= p < |r.tickets| <= p + r.capacity ensures CellOk(r, p) { assert CellOk(s, p); }
    forall u | 0 <= u < |r.threads| && u != t ensures ThreadOk(r, r.threads[u]) { assert ThreadOk(s, s.threads[u]); }
  }

  lemma FetchKeeps<T>(s: State<T>, t: nat)
    requires Inv(s) && t < |s.threads| && s.threads[t].DeqFetch?
    ensures Inv(AdvanceThread(s, t))
  {
    var r := AdvanceThread(s, t);
    assert ThreadOk(s, s.threads[t]);
    OwnedCell(s, s.threads[t].pos);
    assert CellOk(s, s.threads[t].pos);
    forall p | 0 <= p < |r.tickets| <= p + r.capacity ensures CellOk(r, p) { assert CellOk(s, p); }
    forall u | 0 <= u < |r.threads| && u != t ensures ThreadOk(r, r.threads[u]) { assert ThreadOk(s, s.threads[u]); }
  }

  lemma ReleaseKeeps<T>(s: State<T>, t: nat)
    requires Inv(s) && t < |s.threads| && s.threads[t].DeqRelease?
    ensures Inv(AdvanceThread(s, t))
  {
    assert ThreadOk(s, s.threads[t]);
    ReleaseCells(s, t);
    ReleaseThreads(s, t);
    hide CellsOk, ThreadsOk;
  }

  lemma ReleaseCells<T>(s: State<T>, t: nat)
    requires Inv(s) && t < |s.threads| && s.threads[t].DeqRelease? && ThreadOk(s, s.threads[t])
    ensures CellsOk(AdvanceThread(s, t))
  {
    hide ThreadsOk, ReturnsOk;
    var r := AdvanceThread(s, t);
    OwnedCell(s, s.threads[t].pos);
    forall p | 0 <= p < |r.tickets| <= p + r.capacity ensures CellOk(r, p) { assert CellOk(s, p); }
  }

  lemma ReleaseThreads<T>(s: State<T>, t: nat)
    requires Inv(s) && t < |s.threads| && s.threads[t].DeqRelease? && ThreadOk(s, s.threads[t])
    ensures ThreadsOk(AdvanceThread(s, t))
  {
    hide CellsOk, CellOk, Cell, ReturnsOk;
    var r := AdvanceThread(s, t);
    forall u | 0 <= u < |r.threads| && u != t ensures ThreadOk(r, r.threads[u]) { assert ThreadOk(s, s.threads[u]); }
  }

  // A step that only moves thread t, to a program counter whose claim holds.
  lemma GotoKeeps<T>(s: State<T>, t: nat, pc: Pc<T>)
    requires Inv(s) && t < |s.threads| && !Owning(pc) && ThreadOk(s, pc)
    ensures Inv(Goto(s, t, pc))
  {
    var r := Goto(s, t, pc);
    forall p | 0 <= p < |r.tickets| <= p + r.capacity ensures CellOk(r, p) { assert CellOk(s, p); }
    forall u | 0 <= u < |r.threads| && u != t ensures ThreadOk(r, r.threads[u]) { assert ThreadOk(s, s.threads[u]); }
  }

  lemma StepKeeps<T>(s: State<T>, t: nat, a: Action<T>)
    requires Inv(s) && s.capacity >= 2
    ensures Inv(Step(s, t, a))
  {
    hide CellsOk, TicketsOk, ReturnsOk, Cell;
    if t < |s.threads| && Step(s, t, a) != s {
      var pc := s.threads[t];
      if a.Advance? && pc.EnqCas? && pc.pos == s.enqueuePos { ClaimEnqueueKeeps(s, t); }
      else if a.Advance? && pc.EnqStore? { StoreKeeps(s, t); }
      else if a.Advance? && pc.EnqPublish? { PublishKeeps(s, t); }
      else if a.Advance? && pc.DeqCas? && pc.pos == s.dequeuePos { ClaimDequeueKeeps(s, t); }
      else if a.Advance? && pc.DeqFetch? { FetchKeeps(s, t); }
      else if a.Advance? && pc.DeqRelease? { ReleaseKeeps(s, t); }
      else {
        if pc.EnqReadSeq? { EnqueueReadMeans(s, pc.pos); }
        if pc.DeqReadSeq? { DequeueReadMeans(s, pc.pos); }
        GotoKeeps(s, t, Step(s, t, a).threads[t]);
      }
    }
  }

  // Every state of every interleaving.
  lemma {:induction false} RunKeeps<T>(s: State<T>, schedule: Schedule<T>)
    requires Inv(s) && s.capacity >= 2
    ensures Inv(Run(s, schedule))
  {
    if schedule != [] {
      var n := |schedule| - 1;
      RunKeeps(s, schedule[..n]);
      StepKeeps(Run(s, schedule[..n]), schedule[n].0, schedule[n].1);
    }
  }
}
