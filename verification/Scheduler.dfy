// The task scheduler on its sorted-list priority queue. The comparison adds one to keep equal
// tasks in order of arrival, and the list skips while the comparison is not negative; together
// they let a task stand behind one that is due at most one second later.
module Scheduler {
  import opened Shared

  datatype Task = Task(uid: nat, interval: nat, time: int)

  // ComparFunc: positive or zero while the new task belongs behind the queued one.
  function Compare(queued: Task, added: Task): int {
    added.time - queued.time + 1
  }

  // Where SortedListInsert stops.
  function InsertPosition(queue: seq<Task>, t: Task): (p: nat)
    ensures p <= |queue|
    ensures forall i :: 0 <= i < p ==> queue[i].time <= t.time + 1
    ensures p < |queue| ==> queue[p].time > t.time + 1
  {
    if queue == [] || Compare(queue[0], t) < 0 then 0 else 1 + InsertPosition(queue[1..], t)
  }

  function Insert(queue: seq<Task>, t: Task): seq<Task> {
    var p := InsertPosition(queue, t);
    queue[..p] + [t] + queue[p..]
  }

  // The position of the task with this uid, or the length.
  function Find(queue: seq<Task>, uid: nat): (p: nat)
    ensures p <= |queue| && (p < |queue| ==> queue[p].uid == uid)
    ensures forall i :: 0 <= i < p ==> queue[i].uid != uid
  {
    if queue == [] || queue[0].uid == uid then 0 else 1 + Find(queue[1..], uid)
  }

  function Erase(queue: seq<Task>, p: nat): seq<Task>
    requires p < |queue|
  {
    queue[..p] + queue[p + 1..]
  }

  // No task stands before one that is due more than one second earlier.
  ghost predicate WithinOneSecond(queue: seq<Task>) {
    forall i, j :: 0 <= i < j < |queue| ==> queue[i].time <= queue[j].time + 1
  }

  lemma InsertKeepsOrder(queue: seq<Task>, t: Task)
    requires WithinOneSecond(queue)
    ensures WithinOneSecond(Insert(queue, t))
  {
    var p, r := InsertPosition(queue, t), Insert(queue, t);
    forall i, j | 0 <= i < j < |r| ensures r[i].time <= r[j].time + 1 {
      if i == p { assert queue[p].time <= queue[j - 1].time + 1 || j - 1 == p; }
    }
  }

  // ---------------------------------------------------------------- whole runs

  // What a client, or a running task's function, may ask for.
  datatype Request = Add(now: int, interval: nat) | Remove(uid: nat) | Pause | Clear

  // Dispatch takes the front task, Finish ends its function, which asks to be run again or not.
  datatype Event = Ask(request: Request) | Dispatch | Finish(now: int, again: bool)

  // `running` is the task whose function is executing; `destroyed` is history. The next uid is
  // the number of tasks created.
  datatype State = State(queue: seq<Task>, running: Option<Task>, destroyed: set<nat>, created: nat, stopped: bool)

  const INITIAL := State([], None, {}, 0, false)

  function Uids(queue: seq<Task>): set<nat> {
    set i | 0 <= i < |queue| :: queue[i].uid
  }

  function Serve(s: State, r: Request): State {
    match r
    case Add(now, interval) =>
      s.(queue := Insert(s.queue, Task(s.created, interval, now + interval)), created := s.created + 1)
    case Remove(uid) =>
      var p := Find(s.queue, uid);
      if p == |s.queue| then s else s.(queue := Erase(s.queue, p), destroyed := s.destroyed + {uid})
    case Pause => s.(stopped := true)
    case Clear => s.(queue := [], destroyed := s.destroyed + Uids(s.queue))
  }

  function Step(s: State, e: Event): State {
    match e
    case Ask(r) => Serve(s, r)
    case Dispatch =>
      if s.running.Some? || s.queue == [] then s else s.(queue := s.queue[1..], running := Some(s.queue[0]))
    case Finish(now, again) =>
      if s.running.None? then s
      else
        var t := s.running.value;
        if again then s.(queue := Insert(s.queue, t.(time := now + t.interval)), running := None)
        else s.(running := None, destroyed := s.destroyed + {t.uid})
  }

  function Run(events: seq<Event>): State {
    if events == [] then INITIAL else Step(Run(events[..|events| - 1]), events[|events| - 1])
  }

  function RunningUids(s: State): set<nat> {
    if s.running.Some? then {s.running.value.uid} else {}
  }

  ghost predicate DistinctUids(queue: seq<Task>) {
    forall i, j :: 0 <= i < j < |queue| ==> queue[i].uid != queue[j].uid
  }

  // Every task ever created is queued, running or destroyed, and in one of these only once.
  ghost predicate Conserved(s: State) {
    && DistinctUids(s.queue)
    && Uids(s.queue) !! RunningUids(s) && Uids(s.queue) !! s.destroyed && RunningUids(s) !! s.destroyed
    && (forall u :: u in Uids(s.queue) || u in RunningUids(s) || u in s.destroyed <==> 0 <= u < s.created)
  }

  lemma InsertUids(queue: seq<Task>, t: Task)
    ensures Uids(Insert(queue, t)) == Uids(queue) + {t.uid}
    ensures DistinctUids(queue) && t.uid !in Uids(queue) ==> DistinctUids(Insert(queue, t))
  {
    hide InsertPosition;
    var p, r := InsertPosition(queue, t), Insert(queue, t);
    forall i | 0 <= i < |queue| ensures queue[i].uid in Uids(r) {
      assert queue[i] == if i < p then r[i] else r[i + 1];
    }
    forall i | 0 <= i < |r| ensures r[i].uid in Uids(queue) + {t.uid} {
      assert r[i] == if i < p then queue[i] else if i == p then t else queue[i - 1];
    }
    assert r[p] == t;
  }

  lemma EraseUids(queue: seq<Task>, p: nat)
    requires p < |queue| && DistinctUids(queue)
    ensures Uids(queue) == Uids(Erase(queue, p)) + {queue[p].uid}
    ensures queue[p].uid !in Uids(Erase(queue, p)) && DistinctUids(Erase(queue, p))
  {
    var r := Erase(queue, p);
    forall i | 0 <= i < |r| ensures r[i].uid in Uids(queue) && r[i].uid != queue[p].uid {
      assert r[i] == queue[if i < p then i else i + 1];
    }
    forall i | 0 <= i < |queue| && i != p ensures queue[i].uid in Uids(r) {
      assert queue[i] == r[if i < p then i else i - 1];
    }
  }

  lemma EraseKeepsOrder(queue: seq<Task>, p: nat)
    requires p < |queue| && WithinOneSecond(queue)
    ensures WithinOneSecond(Erase(queue, p))
  {
  }

  lemma AddConserves(s: State, now: int, interval: nat)
    requires Conserved(s)
    ensures Conserved(Serve(s, Add(now, interval)))
  {
    hide Uids, DistinctUids, Insert;
    assert s.created !in Uids(s.queue);
    InsertUids(s.queue, Task(s.created, interval, now + interval));
  }

  lemma RemoveConserves(s: State, uid: nat)
    requires Conserved(s)
    ensures Conserved(Serve(s, Remove(uid)))
  {
    hide Uids, DistinctUids, Erase;
    var p := Find(s.queue, uid);
    if p < |s.queue| { EraseUids(s.queue, p); }
  }

  lemma ClearConserves(s: State)
    requires Conserved(s)
    ensures Conserved(Serve(s, Clear))
  {
    assert Uids([]) == {} && DistinctUids([]);
    hide Uids, DistinctUids;
  }

  lemma DispatchConserves(s: State)
    requires Conserved(s)
    ensures Conserved(Step(s, Dispatch))
  {
    hide Uids, DistinctUids;
    if s.queue != [] {
      EraseUids(s.queue, 0);
      FrontErased(s.queue);
    }
  }

  lemma FinishConserves(s: State, now: int, again: bool)
    requires Conserved(s)
    ensures Conserved(Step(s, Finish(now, again)))
  {
    hide Uids, DistinctUids, Insert;
    if s.running.Some? { InsertUids(s.queue, s.running.value.(time := now + s.running.value.interval)); }
  }

  lemma StepConserves(s: State, e: Event)
    requires Conserved(s)
    ensures Conserved(Step(s, e))
  {
    hide Conserved;
    match e
    case Ask(r) =>
      match r {
        case Add(now, interval) => AddConserves(s, now, interval);
        case Remove(uid) => RemoveConserves(s, uid);
        case Pause => PauseConserves(s);
        case Clear => ClearConserves(s);
      }
    case Dispatch => DispatchConserves(s);
    case Finish(now, again) => FinishConserves(s, now, again);
  }

  lemma PauseConserves(s: State)
    requires Conserved(s)
    ensures Conserved(Serve(s, Pause))
  {
  }

  lemma FrontErased(queue: seq<Task>)
    requires queue != []
    ensures Erase(queue, 0) == queue[1..]
  {
  }

  lemma RemoveKeepsOrder(s: State, uid: nat)
    requires WithinOneSecond(s.queue)
    ensures WithinOneSecond(Serve(s, Remove(uid)).queue)
  {
    hide WithinOneSecond, Insert, InsertPosition, Uids, Erase;
    var p := Find(s.queue, uid);
    if p < |s.queue| { EraseKeepsOrder(s.queue, p); }
  }

  lemma ServeKeepsOrder(s: State, r: Request)
    requires WithinOneSecond(s.queue)
    ensures WithinOneSecond(Serve(s, r).queue)
  {
    match r
    case Add(now, interval) => InsertKeepsOrder(s.queue, Task(s.created, interval, now + interval));
    case Remove(uid) => RemoveKeepsOrder(s, uid);
    case Pause =>
    case Clear =>
  }

  lemma FinishKeepsOrder(s: State, now: int, again: bool)
    requires WithinOneSecond(s.queue)
    ensures WithinOneSecond(Step(s, Finish(now, again)).queue)
  {
    hide Insert, InsertPosition, WithinOneSecond;
    if s.running.Some? { InsertKeepsOrder(s.queue, s.running.value.(time := now + s.running.value.interval)); }
  }

  lemma StepKeepsOrder(s: State, e: Event)
    requires WithinOneSecond(s.queue)
    ensures WithinOneSecond(Step(s, e).queue)
  {
    match e
    case Ask(r) => ServeKeepsOrder(s, r);
    case Dispatch =>
    case Finish(now, again) => FinishKeepsOrder(s, now, again);
  }

  // Over any run, whatever the clock shows and whatever tasks ask for while they run: the
  // queue is ordered up to one second, and no task is lost or duplicated.
  lemma {:induction false} RunCorrect(events: seq<Event>)
    ensures WithinOneSecond(Run(events).queue) && Conserved(Run(events))
  {
    if events != [] {
      RunCorrect(events[..|events| - 1]);
      StepConserves(Run(events[..|events| - 1]), events[|events| - 1]);
      StepKeepsOrder(Run(events[..|events| - 1]), events[|events| - 1]);
    }
  }

  // ---------------------------------------------------------------- what each request achieves

  // t was added to the queue, and the others kept their order.
  ghost predicate AddedTo(was: seq<Task>, now: seq<Task>, t: Task) {
    exists p :: 0 <= p <= |was| && now == was[..p] + [t] + was[p..]
  }

  // The task with this uid was taken out of the queue, and the others kept their order.
  ghost predicate TakenFrom(was: seq<Task>, now: seq<Task>, uid: nat) {
    exists p :: 0 <= p < |was| && was[p].uid == uid && now == was[..p] + was[p + 1..]
  }

  lemma InsertAdds(queue: seq<Task>, t: Task)
    ensures AddedTo(queue, Insert(queue, t), t)
  {
    var p := InsertPosition(queue, t);
    assert Insert(queue, t) == queue[..p] + [t] + queue[p..];
  }

  // A new task gets the next uid and is queued, due `interval` after now; nothing else changes.
  lemma AddAchieves(s: State, now: int, interval: nat)
    ensures var r := Serve(s, Add(now, interval));
      && AddedTo(s.queue, r.queue, Task(s.created, interval, now + interval))
      && r == s.(queue := r.queue, created := s.created + 1)
  {
    hide Insert, AddedTo;
    InsertAdds(s.queue, Task(s.created, interval, now + interval));
  }

  // No queued task has the removed uid any more; if one had it, it is destroyed.
  lemma RemoveAchieves(s: State, uid: nat)
    requires Conserved(s)
    ensures var r := Serve(s, Remove(uid));
      && uid !in Uids(r.queue)
      && if uid in Uids(s.queue) then
           TakenFrom(s.queue, r.queue, uid) && r == s.(queue := r.queue, destroyed := s.destroyed + {uid})
         else r == s
  {
    var p := Find(s.queue, uid);
    if p < |s.queue| {
      EraseUids(s.queue, p);
      assert Erase(s.queue, p) == s.queue[..p] + s.queue[p + 1..];
    }
  }

  lemma ClearAchieves(s: State)
    ensures var r := Serve(s, Clear);
      r.queue == [] && r == s.(queue := [], destroyed := r.destroyed)
      && forall i :: 0 <= i < |s.queue| ==> s.queue[i].uid in r.destroyed
  {
  }

  // A task that asks to run again is queued again, due its interval after now, and not
  // destroyed; one that does not is destroyed and not queued. Either way it no longer runs.
  lemma FinishAchieves(s: State, now: int, again: bool)
    requires Conserved(s) && s.running.Some?
    ensures var t := s.running.value;
      var r := Step(s, Finish(now, again));
      && r.running.None? && r.created == s.created && r.stopped == s.stopped
      && if again then
           && AddedTo(s.queue, r.queue, Task(t.uid, t.interval, now + t.interval))
           && r.destroyed == s.destroyed && t.uid !in r.destroyed
         else r.queue == s.queue && t.uid !in Uids(r.queue) && r.destroyed == s.destroyed + {t.uid}
  {
    hide Uids, DistinctUids, AddedTo, Insert;
    var t := s.running.value;
    InsertAdds(s.queue, Task(t.uid, t.interval, now + t.interval));
    assert t.uid in RunningUids(s);
  }

  // The task dispatched is due at most one second after any task left in the queue.
  lemma DispatchWithinOneSecond(events: seq<Event>)
    requires Run(events).queue != [] && Run(events).running.None?
    ensures var s := Run(events);
      var r := Step(s, Dispatch);
      forall i :: 0 <= i < |r.queue| ==> r.running.value.time <= r.queue[i].time + 1
  {
    RunCorrect(events);
  }

  // The bound is met: of two tasks due at 5 and 4, added in this order, the later is dispatched.
  lemma BoundIsTight()
    ensures var s := Run([Ask(Add(0, 5)), Ask(Add(0, 4)), Dispatch]);
      s.running == Some(Task(0, 5, 5)) && s.queue == [Task(1, 4, 4)]
  {
    var events := [Ask(Add(0, 5)), Ask(Add(0, 4)), Dispatch];
    assert events[..2] == [Ask(Add(0, 5)), Ask(Add(0, 4))] && events[..2][..1] == [Ask(Add(0, 5))];
    assert events[..2][..1][..0] == [];
    assert Run(events[..2][..1]).queue == [Task(0, 5, 5)];
    assert Run(events[..2]).queue == [Task(0, 5, 5), Task(1, 4, 4)];
  }

  // ---------------------------------------------------------------- the program

  // What one execution of a task's function does: the requests it makes of the scheduler,
  // whether it asks to be run again, and the clock when it returns.
  datatype Execution = Execution(requests: seq<Request>, again: bool, now: int)

  datatype RunStatus = FinishAllWork | Stopped

  function ServeAll(s: State, requests: seq<Request>): State
    decreases |requests|
  {
    if requests == [] then s else ServeAll(Serve(s, requests[0]), requests[1..])
  }

  // One iteration of the loop of SchedulerRun.
  function Execute(s: State, x: Execution): State {
    Step(ServeAll(Step(s, Dispatch), x.requests), Finish(x.now, x.again))
  }

  // The loop of SchedulerRun: until nothing is queued or a task paused the scheduler.
  function ExecuteAll(s: State, script: seq<Execution>): State
    decreases |script|
  {
    if script == [] || s.queue == [] || s.stopped then s else ExecuteAll(Execute(s, script[0]), script[1..])
  }

  lemma {:induction false} ServeAllKeeps(s: State, requests: seq<Request>)
    requires Conserved(s) && WithinOneSecond(s.queue)
    ensures Conserved(ServeAll(s, requests)) && WithinOneSecond(ServeAll(s, requests).queue)
    decreases |requests|
  {
    if requests != [] {
      StepConserves(s, Ask(requests[0]));
      StepKeepsOrder(s, Ask(requests[0]));
      ServeAllKeeps(Serve(s, requests[0]), requests[1..]);
    }
  }

  lemma {:induction false} ServeAllKeepsRunning(s: State, requests: seq<Request>)
    ensures ServeAll(s, requests).running == s.running
    decreases |requests|
  {
    if requests != [] { ServeAllKeepsRunning(Serve(s, requests[0]), requests[1..]); }
  }

  lemma ExecuteKeeps(s: State, x: Execution)
    requires Conserved(s) && WithinOneSecond(s.queue)
    ensures Conserved(Execute(s, x)) && WithinOneSecond(Execute(s, x).queue)
  {
    hide Conserved, WithinOneSecond, Step;
    var d := Step(s, Dispatch);
    StepConserves(s, Dispatch);
    StepKeepsOrder(s, Dispatch);
    ServeAllKeeps(d, x.requests);
    StepConserves(ServeAll(d, x.requests), Finish(x.now, x.again));
    StepKeepsOrder(ServeAll(d, x.requests), Finish(x.now, x.again));
  }

  // One execution: the front task, unless it is to run again, ends destroyed; otherwise it is
  // queued, due its interval after the clock at its return, whatever it asked for meanwhile.
  lemma ExecuteAchieves(s: State, x: Execution)
    requires Conserved(s) && WithinOneSecond(s.queue) && s.queue != [] && s.running.None?
    ensures var t := s.queue[0];
      var r := Execute(s, x);
      && r.running.None?
      && if x.again then Task(t.uid, t.interval, x.now + t.interval) in r.queue && t.uid !in r.destroyed
         else t.uid in r.destroyed && t.uid !in Uids(r.queue)
  {
    hide ServeAll, Insert, Uids, Conserved, WithinOneSecond;
    var t := s.queue[0];
    var d := Step(s, Dispatch);
    var m := ServeAll(d, x.requests);
    StepConserves(s, Dispatch);
    StepKeepsOrder(s, Dispatch);
    ServeAllKeeps(d, x.requests);
    ServeAllKeepsRunning(d, x.requests);
    FinishAchieves(m, x.now, x.again);
    var r := Execute(s, x);
    if x.again {
      var again := Task(t.uid, t.interval, x.now + t.interval);
      var p :| 0 <= p <= |m.queue| && r.queue == m.queue[..p] + [again] + m.queue[p..];
      assert r.queue[p] == again;
    }
  }

  lemma {:induction false} ServeAllStops(s: State, requests: seq<Request>)
    ensures ServeAll(s, requests).stopped <==> s.stopped || Pause in requests
    decreases |requests|
  {
    if requests != [] {
      ServeAllStops(Serve(s, requests[0]), requests[1..]);
      assert requests == [requests[0]] + requests[1..];
    }
  }

  // After a task's function pauses the scheduler the task is finished and no other is
  // dispatched; as long as none does, the script goes on while tasks are queued.
  lemma PauseStopsTheLoop(s: State, x: Execution, script: seq<Execution>)
    requires s.queue != [] && !s.stopped
    ensures var r := Execute(s, x);
      && (r.stopped <==> Pause in x.requests)
      && ExecuteAll(s, [x] + script) == if r.stopped || r.queue == [] then r else ExecuteAll(r, script)
  {
    ServeAllStops(Step(s, Dispatch), x.requests);
    assert ([x] + script)[1..] == script;
  }

  class Scheduler {
    var queue: seq<Task>
    var running: Option<Task>
    var created: nat
    var stopFlag: bool
    ghost var destroyed: set<nat>

    ghost function Abs(): State
      reads this
    {
      State(queue, running, destroyed, created, stopFlag)
    }

    ghost predicate Valid()
      reads this
    {
      Conserved(Abs()) && WithinOneSecond(queue)
    }

    constructor ()
      ensures Valid() && Abs() == INITIAL
    {
      queue, running, created, stopFlag, destroyed := [], None, 0, false, {};
    }

    method SortedListInsert(t: Task)
      modifies this`queue
      ensures queue == Insert(old(queue), t)
    {
      var runner := 0;
      while runner != |queue| && 0 <= Compare(queue[runner], t)
        invariant 0 <= runner <= |queue|
        invariant InsertPosition(queue, t) == runner + InsertPosition(queue[runner..], t)
      {
        runner := runner + 1;
      }
      queue := queue[..runner] + [t] + queue[runner..];
    }

    method SortedListFindIf(uid: nat) returns (runner: nat)
      ensures runner == Find(queue, uid)
    {
      runner := 0;
      while runner != |queue| && queue[runner].uid != uid
        invariant 0 <= runner <= |queue|
        invariant Find(queue, uid) == runner + Find(queue[runner..], uid)
      {
        runner := runner + 1;
      }
    }

    method SchedulerAdd(now: int, interval: nat) returns (uid: nat)
      requires Valid()
      modifies this
      ensures Valid() && Abs() == Serve(old(Abs()), Add(now, interval)) && uid == old(created)
      ensures AddedTo(old(queue), queue, Task(uid, interval, now + interval))
    {
      AddAchieves(Abs(), now, interval);
      hide Conserved, WithinOneSecond, Insert, InsertPosition, Find, Erase, Uids;
      StepConserves(Abs(), Ask(Add(now, interval)));
      StepKeepsOrder(Abs(), Ask(Add(now, interval)));
      uid := created;
      SortedListInsert(Task(uid, interval, now + interval));
      created := created + 1;
    }

    method SchedulerRemove(uid: nat) returns (notFound: bool)
      requires Valid()
      modifies this
      ensures Valid() && Abs() == Serve(old(Abs()), Remove(uid))
      ensures notFound <==> uid !in Uids(old(queue))
      ensures uid !in Uids(queue)
    {
      RemoveAchieves(Abs(), uid);
      hide Conserved, WithinOneSecond, Insert, InsertPosition;
      StepConserves(Abs(), Ask(Remove(uid)));
      StepKeepsOrder(Abs(), Ask(Remove(uid)));
      var p := SortedListFindIf(uid);
      notFound := p == |queue|;
      if !notFound {
        queue := queue[..p] + queue[p + 1..];
        destroyed := destroyed + {uid};
      }
    }

    method SchedulerPause()
      modifies this`stopFlag
      ensures Abs() == Serve(old(Abs()), Pause)
    {
      stopFlag := true;
    }

    method SchedulerClear()
      requires Valid()
      modifies this
      ensures Valid() && Abs() == Serve(old(Abs()), Clear)
    {
      StepConserves(Abs(), Ask(Clear));
      StepKeepsOrder(Abs(), Ask(Clear));
      ghost var all := Uids(queue);
      while queue != []
        invariant Abs() == old(Abs()).(queue := queue, destroyed := destroyed)
        invariant destroyed + Uids(queue) == old(destroyed) + all
        decreases |queue|
      {
        FrontUid(queue);
        destroyed := destroyed + {queue[0].uid};
        queue := queue[1..];
      }
    }

    method MakeRequest(r: Request)
      requires Valid()
      modifies this
      ensures Valid() && Abs() == Serve(old(Abs()), r)
    {
      match r
      case Add(now, interval) => var _ := SchedulerAdd(now, interval);
      case Remove(uid) => var _ := SchedulerRemove(uid);
      case Pause => SchedulerPause();
      case Clear => SchedulerClear();
    }

    // SchedulerRun for as many executions as the script holds; without a status if the
    // script ends first. The task dispatched is never more than a second behind the earliest.
    method SchedulerRun(script: seq<Execution>) returns (status: Option<RunStatus>)
      requires Valid() && running.None?
      modifies this
      ensures Valid() && running.None?
      ensures Abs() == ExecuteAll(old(Abs()).(stopped := false), script)
      ensures status.None? <==> queue != [] && !stopFlag
      ensures status.Some? ==> (status.value.FinishAllWork? <==> queue == []) && (status.value.Stopped? ==> stopFlag)
    {
      stopFlag := false;
      assert Conserved(Abs());
      var k := 0;
      while queue != [] && !stopFlag
        invariant 0 <= k <= |script| && Valid() && running.None?
        invariant ExecuteAll(Abs(), script[k..]) == ExecuteAll(old(Abs()).(stopped := false), script)
        decreases |script| - k
      {
        if k == |script| { return None; }
        RunOnce(script[k]);
        k := k + 1;
      }
      status := Some(if queue == [] then FinishAllWork else Stopped);
    }

    method RunOnce(x: Execution)
      requires Valid() && running.None? && queue != []
      modifies this
      ensures Valid() && running.None? && Abs() == Execute(old(Abs()), x)
    {
      hide Conserved, WithinOneSecond, Insert, InsertPosition, Find, Erase, Uids, Serve;
      ghost var s := Abs();
      ExecuteKeeps(s, x);
      ServeAllKeepsRunning(Step(s, Dispatch), x.requests);
      StepConserves(s, Dispatch);
      StepKeepsOrder(s, Dispatch);
      var task := queue[0];
      queue, running := queue[1..], Some(task);
      var i := 0;
      while i < |x.requests|
        invariant 0 <= i <= |x.requests| && Valid()
        invariant ServeAll(Abs(), x.requests[i..]) == ServeAll(Step(s, Dispatch), x.requests)
      {
        MakeRequest(x.requests[i]);
        i := i + 1;
      }
      if x.again {
        SortedListInsert(task.(time := x.now + task.interval));
      } else {
        destroyed := destroyed + {task.uid};
      }
      running := None;
    }
  }

  lemma FrontUid(queue: seq<Task>)
    requires queue != []
    ensures Uids(queue) == Uids(queue[1..]) + {queue[0].uid}
  {
    forall i | 0 <= i < |queue| ensures queue[i].uid in Uids(queue[1..]) + {queue[0].uid} {
      if i > 0 { assert queue[i] == queue[1..][i - 1]; }
    }
  }
}
