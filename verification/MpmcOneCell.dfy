// The queue with a single cell. A published cell (sequence pos + 1) looks free to the next
// producer, so neither the bound nor right delivery holds.
module MpmcOneCell {
  import opened Rings
  import opened MpmcQueue
  import opened MpmcDelivery

  lemma RunOne<T>(s: State<T>, schedule: Schedule<T>, t: nat, a: Action<T>) returns (longer: Schedule<T>)
    requires WellFormed(s)
    ensures Run(s, longer) == Step(Run(s, schedule), t, a)
  {
    longer := schedule + [(t, a)];
    assert longer[..|schedule|] == schedule;
  }

  // Thread 0, undisturbed, with a single cell, runs `enqueue(item)` from call to return.
  lemma EnqueueAlone<T>(init: State<T>, schedule: Schedule<T>, item: T) returns (longer: Schedule<T>)
    requires WellFormed(init)
    requires var s := Run(init, schedule);
      && s.capacity == 1 && |s.threads| > 0 && s.threads[0].Idle?
      && s.sequence == [s.enqueuePos] && |s.tickets| == s.enqueuePos
    ensures var s := Run(init, schedule);
      Run(init, longer) == s.(sequence := [s.enqueuePos + 1], data := [item], enqueuePos := s.enqueuePos + 1,
                              tickets := s.tickets + [Ticket(item, Full)])
  {
    var s := Run(init, schedule);
    longer := ClaimTicketAlone(init, schedule, item);
    hide Run;
    longer := PublishAlone(init, longer, item);
    assert Run(init, longer).tickets == s.tickets + [Ticket(item, Full)];
    assert Run(init, longer).threads == s.threads;
  }

  lemma PublishAlone<T>(init: State<T>, schedule: Schedule<T>, item: T) returns (longer: Schedule<T>)
    requires WellFormed(init)
    requires var s := Run(init, schedule);
      s.capacity == 1 && |s.threads| > 0 && s.enqueuePos > 0 && s.threads[0] == EnqStore(item, s.enqueuePos - 1)
    ensures var s := Run(init, schedule);
      Run(init, longer) == s.(threads := s.threads[0 := Idle], sequence := [s.enqueuePos], data := [item],
                              tickets := SetPhase(s.tickets, s.enqueuePos - 1, Full))
  {
    assert Cell(Run(init, schedule).enqueuePos - 1, 1) == 0;
    longer := RunOne(init, schedule, 0, Advance);
    longer := RunOne(init, longer, 0, Advance);
  }

  lemma ClaimTicketAlone<T>(init: State<T>, schedule: Schedule<T>, item: T) returns (longer: Schedule<T>)
    requires WellFormed(init)
    requires var s := Run(init, schedule);
      s.capacity == 1 && |s.threads| > 0 && s.threads[0].Idle? && s.sequence == [s.enqueuePos]
    ensures var s := Run(init, schedule);
      Run(init, longer) == s.(threads := s.threads[0 := EnqStore(item, s.enqueuePos)], enqueuePos := s.enqueuePos + 1,
                              tickets := s.tickets + [Ticket(item, Writing)])
  {
    var s := Run(init, schedule);
    assert Cell(s.enqueuePos, 1) == 0;
    longer := RunOne(init, schedule, 0, StartEnqueue(item));
    longer := RunOne(init, longer, 0, Advance);
    assert Run(init, longer) == s.(threads := s.threads[0 := EnqReadSeq(item, s.enqueuePos)]);
    longer := RunOne(init, longer, 0, Advance);
    longer := RunOne(init, longer, 0, Advance);
  }

  // The bound on the positions holds in every run exactly when there are at least two cells.
  // With a single cell a published cell (sequence pos + 1) looks free to the next producer,
  // so two enqueues in a row both succeed and the first item is overwritten.
  lemma BoundedExactlyFromTwoCells<T(!new)>(data: seq<T>, threadCount: nat)
    requires |data| > 0 && threadCount > 0
    ensures |data| >= 2 <==>
      forall schedule: Schedule<T> ::
        var s := Run(Init(data, threadCount), schedule); s.enqueuePos <= s.dequeuePos + |data|
  {
    var init := Init(data, threadCount);
    if |data| >= 2 {
      forall schedule
        ensures var s := Run(init, schedule); s.enqueuePos <= s.dequeuePos + |data|
      {
        DeliveredOnceInTicketOrder(data, threadCount, schedule);
      }
    } else {
      assert init.sequence == [0];
      var schedule := EnqueueAlone(init, [], data[0]);
      schedule := EnqueueAlone(init, schedule, data[0]);
      assert Run(init, schedule).enqueuePos == 2 && Run(init, schedule).dequeuePos == 0;
    }
  }

  // Every item returned is the one its ticket's enqueuer brought.
  ghost predicate DeliversRight<T>(s: State<T>) {
    forall k :: 0 <= k < |s.returned| ==>
      s.returned[k].0 < |s.tickets| && s.returned[k].1 == s.tickets[s.returned[k].0].item
  }

  // With one cell, thread 1 claims the ticket of x, thread 0 stores y over it, and thread 1
  // returns y.
  lemma OverwrittenBeforeFetch<T>(data: seq<T>, threadCount: nat, x: T, y: T) returns (schedule: Schedule<T>)
    requires |data| == 1 && threadCount >= 2
    ensures var s := Run(Init(data, threadCount), schedule);
      s.returned == [(0, y)] && |s.tickets| == 2 && s.tickets[0].item == x
  {
    var init := Init(data, threadCount);
    assert init.sequence == [0] && Cell(0, 1) == 0;
    schedule := EnqueueAlone(init, [], x);
    schedule := ClaimAlone(init, schedule, x);
    schedule := EnqueueAlone(init, schedule, y);
    schedule := FetchAlone(init, schedule, y);
  }

  lemma FetchAlone<T>(init: State<T>, schedule: Schedule<T>, y: T) returns (longer: Schedule<T>)
    requires WellFormed(init)
    requires var s := Run(init, schedule);
      s.capacity == 1 && |s.threads| > 1 && s.threads[1] == DeqFetch(0) && s.data == [y]
    ensures var s := Run(init, schedule);
      var r := Run(init, longer);
      r.returned == s.returned + [(0, y)] && r.tickets == SetPhase(s.tickets, 0, Released)
  {
    assert Cell(0, 1) == 0;
    longer := RunOne(init, schedule, 1, Advance);
    longer := RunOne(init, longer, 1, Advance);
  }

  lemma ClaimAlone<T>(init: State<T>, schedule: Schedule<T>, x: T) returns (longer: Schedule<T>)
    requires WellFormed(init)
    requires var s := Run(init, schedule);
      s.capacity == 1 && |s.threads| > 1 && s.threads[1].Idle? && s.sequence == [1] && s.dequeuePos == 0
      && s.tickets == [Ticket(x, Full)]
    ensures var s := Run(init, schedule);
      Run(init, longer) == s.(threads := s.threads[1 := DeqFetch(0)], dequeuePos := 1, tickets := [Ticket(x, Reading)])
  {
    var s := Run(init, schedule);
    assert Cell(0, 1) == 0;
    longer := RunOne(init, schedule, 1, StartDequeue);
    longer := RunOne(init, longer, 1, Advance);
    assert Run(init, longer) == s.(threads := s.threads[1 := DeqReadSeq(0)]);
    longer := RunOne(init, longer, 1, Advance);
    longer := RunOne(init, longer, 1, Advance);
  }

  // Right delivery, too, holds in every run exactly from two cells on.
  lemma DeliversRightExactlyFromTwoCells<T(!new)>(data: seq<T>, threadCount: nat, x: T, y: T)
    requires |data| > 0 && threadCount >= 2 && x != y
    ensures |data| >= 2 <==> forall schedule: Schedule<T> :: DeliversRight(Run(Init(data, threadCount), schedule))
  {
    if |data| >= 2 {
      forall schedule ensures DeliversRight(Run(Init(data, threadCount), schedule)) {
        DeliveredOnceInTicketOrder(data, threadCount, schedule);
      }
    } else {
      var schedule := OverwrittenBeforeFetch(data, threadCount, x, y);
      var s := Run(Init(data, threadCount), schedule);
      assert s.returned[0] == (0, y) && !DeliversRight(s);
    }
  }
}
