// Prisoners and a lamp: the leader counts, by the lamp, how many others have been in the room.
module Prisoners {

  datatype Prisoner = Prisoner(visits: nat, turnedOnOnce: bool)

  datatype State = State(prisoners: seq<Prisoner>, lampOn: bool, leader: nat, leaderCount: nat)

  function Initial(n: nat, leader: nat): State {
    State(seq(n, _ => Prisoner(0, false)), false, leader, 0)
  }

  function Visit(s: State, idx: nat): State
    requires idx < |s.prisoners|
  {
    var p := s.prisoners[idx];
    var counted := p.(visits := p.visits + 1);
    if idx == s.leader then
      s.(prisoners := s.prisoners[idx := counted], lampOn := false,
         leaderCount := s.leaderCount + if s.lampOn then 1 else 0)
    else if !p.turnedOnOnce && !s.lampOn then
      s.(prisoners := s.prisoners[idx := counted.(turnedOnOnce := true)], lampOn := true)
    else s.(prisoners := s.prisoners[idx := counted])
  }

  // Stop once every prisoner but the leader has been counted.
  predicate ShouldStop(s: State) { s.leaderCount + 1 >= |s.prisoners| }

  function Run(n: nat, leader: nat, schedule: seq<nat>): (s: State)
    requires leader < n && forall i :: 0 <= i < |schedule| ==> schedule[i] < n
    ensures |s.prisoners| == n && s.leader == leader
  {
    if schedule == [] then Initial(n, leader)
    else Visit(Run(n, leader, schedule[..|schedule| - 1]), schedule[|schedule| - 1])
  }

  // How many prisoners have turned the lamp on.
  function Lighters(prisoners: seq<Prisoner>): nat {
    if prisoners == [] then 0 else Lighters(prisoners[1..]) + if prisoners[0].turnedOnOnce then 1 else 0
  }

  lemma {:induction false} LightersUpdate(prisoners: seq<Prisoner>, i: nat, p: Prisoner)
    requires i < |prisoners|
    ensures Lighters(prisoners[i := p])
      == Lighters(prisoners) - (if prisoners[i].turnedOnOnce then 1 else 0) + (if p.turnedOnOnce then 1 else 0)
  {
    if i > 0 {
      LightersUpdate(prisoners[1..], i - 1, p);
      assert prisoners[i := p][1..] == prisoners[1..][i - 1 := p];
    } else {
      assert prisoners[0 := p][1..] == prisoners[1..];
    }
  }

  // With the leader never among them, at most all the others have lit the lamp, and if as
  // many have, it was each of them.
  lemma {:induction false} LightersBound(prisoners: seq<Prisoner>, leader: int)
    requires leader < |prisoners| && (leader >= 0 ==> !prisoners[leader].turnedOnOnce)
    ensures Lighters(prisoners) <= |prisoners| - (if leader >= 0 then 1 else 0)
    ensures Lighters(prisoners) == |prisoners| - (if leader >= 0 then 1 else 0) <==>
      forall i :: 0 <= i < |prisoners| && i != leader ==> prisoners[i].turnedOnOnce
  {
    if prisoners != [] {
      LightersBound(prisoners[1..], if leader > 0 then leader - 1 else -1);
      assert forall i :: 0 < i < |prisoners| ==> prisoners[i] == prisoners[1..][i - 1];
    }
  }

  ghost predicate Inv(s: State) {
    && s.leader < |s.prisoners| && !s.prisoners[s.leader].turnedOnOnce
    && s.leaderCount + (if s.lampOn then 1 else 0) == Lighters(s.prisoners)
    && (forall i :: 0 <= i < |s.prisoners| && s.prisoners[i].turnedOnOnce ==> s.prisoners[i].visits > 0)
    && (s.leaderCount > 0 ==> s.prisoners[s.leader].visits > 0)
  }

  lemma VisitKeeps(s: State, idx: nat)
    requires Inv(s) && idx < |s.prisoners|
    ensures Inv(Visit(s, idx))
  {
    LightersUpdate(s.prisoners, idx, Visit(s, idx).prisoners[idx]);
  }

  lemma {:induction false} NoLighters(prisoners: seq<Prisoner>)
    requires forall i :: 0 <= i < |prisoners| ==> !prisoners[i].turnedOnOnce
    ensures Lighters(prisoners) == 0
  {
    if prisoners != [] { NoLighters(prisoners[1..]); }
  }

  lemma {:induction false} RunKeeps(n: nat, leader: nat, schedule: seq<nat>)
    requires leader < n && forall i :: 0 <= i < |schedule| ==> schedule[i] < n
    ensures Inv(Run(n, leader, schedule))
  {
    if schedule == [] {
      NoLighters(Initial(n, leader).prisoners);
    } else {
      RunKeeps(n, leader, schedule[..|schedule| - 1]);
      VisitKeeps(Run(n, leader, schedule[..|schedule| - 1]), schedule[|schedule| - 1]);
    }
  }

  // For any number of prisoners above one and any schedule: the leader's count and the lamp
  // together count those who have lit it, the count never exceeds the others' number, and
  // when the leader stops, everyone has been in the room.
  lemma StopMeansAllVisited(n: nat, leader: nat, schedule: seq<nat>)
    requires n >= 2 && leader < n && forall i :: 0 <= i < |schedule| ==> schedule[i] < n
    ensures var s := Run(n, leader, schedule);
      && s.leaderCount + (if s.lampOn then 1 else 0) == Lighters(s.prisoners) <= n - 1
      && (ShouldStop(s) ==> forall i :: 0 <= i < n ==> s.prisoners[i].visits > 0)
  {
    RunKeeps(n, leader, schedule);
    LightersBound(Run(n, leader, schedule).prisoners, leader);
  }

  // The leader stops exactly when every other prisoner has turned the lamp on and the lamp is off,
  // that is, has been counted.
  lemma StopsExactly(n: nat, leader: nat, schedule: seq<nat>)
    requires leader < n && forall i :: 0 <= i < |schedule| ==> schedule[i] < n
    ensures var s := Run(n, leader, schedule);
      ShouldStop(s) <==> !s.lampOn && forall i :: 0 <= i < n && i != leader ==> s.prisoners[i].turnedOnOnce
  {
    RunKeeps(n, leader, schedule);
    LightersBound(Run(n, leader, schedule).prisoners, leader);
  }

  lemma RunVisit(n: nat, leader: nat, schedule: seq<nat>, idx: nat)
    requires leader < n && idx < n && forall i :: 0 <= i < |schedule| ==> schedule[i] < n
    ensures Run(n, leader, schedule + [idx]) == Visit(Run(n, leader, schedule), idx)
  {
    assert (schedule + [idx])[..|schedule|] == schedule;
  }

  // Visit number k turns the lamp on, or off.
  predicate TurnsOn(n: nat, leader: nat, schedule: seq<nat>, k: nat)
    requires leader < n && k < |schedule| && forall i :: 0 <= i < |schedule| ==> schedule[i] < n
  {
    !Run(n, leader, schedule[..k]).lampOn && Run(n, leader, schedule[..k + 1]).lampOn
  }

  predicate TurnsOff(n: nat, leader: nat, schedule: seq<nat>, k: nat)
    requires leader < n && k < |schedule| && forall i :: 0 <= i < |schedule| ==> schedule[i] < n
  {
    Run(n, leader, schedule[..k]).lampOn && !Run(n, leader, schedule[..k + 1]).lampOn
  }

  // How often the lamp was turned off.
  function TimesOff(n: nat, leader: nat, schedule: seq<nat>): nat
    requires leader < n && forall i :: 0 <= i < |schedule| ==> schedule[i] < n
  {
    if schedule == [] then 0
    else
      var k := |schedule| - 1;
      TimesOff(n, leader, schedule[..k]) + if TurnsOff(n, leader, schedule, k) then 1 else 0
  }

  // The lamp was turned on at one of this prisoner's visits.
  ghost predicate LitBy(n: nat, leader: nat, schedule: seq<nat>, idx: nat)
    requires leader < n && forall i :: 0 <= i < |schedule| ==> schedule[i] < n
  {
    exists k :: 0 <= k < |schedule| && schedule[k] == idx && TurnsOn(n, leader, schedule, k)
  }

  lemma SamePast(n: nat, leader: nat, schedule: seq<nat>, m: nat, k: nat)
    requires leader < n && k < m <= |schedule| && forall i :: 0 <= i < |schedule| ==> schedule[i] < n
    ensures TurnsOn(n, leader, schedule, k) <==> TurnsOn(n, leader, schedule[..m], k)
    ensures TurnsOff(n, leader, schedule, k) <==> TurnsOff(n, leader, schedule[..m], k)
  {
    assert schedule[..k] == schedule[..m][..k] && schedule[..k + 1] == schedule[..m][..k + 1];
  }

  // What the last visit does to the mark of a prisoner, the count and the lamp.
  lemma LastVisit(n: nat, leader: nat, schedule: seq<nat>, idx: nat)
    requires leader < n && idx < n && schedule != [] && forall i :: 0 <= i < |schedule| ==> schedule[i] < n
    ensures var m := |schedule| - 1;
      var s, r := Run(n, leader, schedule[..m]), Run(n, leader, schedule);
      && (r.prisoners[idx].turnedOnOnce <==>
            s.prisoners[idx].turnedOnOnce || (schedule[m] == idx && TurnsOn(n, leader, schedule, m)))
      && r.leaderCount == s.leaderCount + (if TurnsOff(n, leader, schedule, m) then 1 else 0)
      && (TurnsOff(n, leader, schedule, m) ==> schedule[m] == leader)
  {
    var m := |schedule| - 1;
    assert schedule[..m + 1] == schedule;
    assert Run(n, leader, schedule) == Visit(Run(n, leader, schedule[..m]), schedule[m]);
    hide Run;
  }

  // The marks and the count tell the lamp's history: a prisoner is marked exactly if the lamp was
  // turned on at one of its visits, and the count is how often the lamp was turned off.
  lemma {:induction false} LampHistory(n: nat, leader: nat, schedule: seq<nat>, idx: nat)
    requires leader < n && idx < n && forall i :: 0 <= i < |schedule| ==> schedule[i] < n
    ensures var s := Run(n, leader, schedule);
      && (s.prisoners[idx].turnedOnOnce <==> LitBy(n, leader, schedule, idx))
      && s.leaderCount == TimesOff(n, leader, schedule)
  {
    if schedule != [] {
      hide Run, Visit, TurnsOn, TurnsOff;
      var m := |schedule| - 1;
      var before := schedule[..m];
      LampHistory(n, leader, before, idx);
      LastVisit(n, leader, schedule, idx);
      forall k | 0 <= k < m
        ensures TurnsOn(n, leader, schedule, k) <==> TurnsOn(n, leader, before, k)
      {
        SamePast(n, leader, schedule, m, k);
      }
      if LitBy(n, leader, before, idx) {
        var k :| 0 <= k < m && before[k] == idx && TurnsOn(n, leader, before, k);
        assert schedule[k] == idx && TurnsOn(n, leader, schedule, k);
      }
    }
  }

  // Each visit is counted.
  lemma {:induction false} VisitsCounted(n: nat, leader: nat, schedule: seq<nat>, idx: nat)
    requires leader < n && idx < n && forall i :: 0 <= i < |schedule| ==> schedule[i] < n
    ensures Run(n, leader, schedule).prisoners[idx].visits == multiset(schedule)[idx]
  {
    if schedule != [] {
      var m := |schedule| - 1;
      VisitsCounted(n, leader, schedule[..m], idx);
      assert schedule == schedule[..m] + [schedule[m]];
    }
  }

  // Every run can be continued until the leader stops: the leader looks, and then each other
  // prisoner and the leader take turns.
  lemma CanStop(n: nat, leader: nat, schedule: seq<nat>) returns (longer: seq<nat>)
    requires leader < n && forall i :: 0 <= i < |schedule| ==> schedule[i] < n
    ensures schedule <= longer && forall i :: 0 <= i < |longer| ==> longer[i] < n
    ensures ShouldStop(Run(n, leader, longer))
  {
    hide Run, ShouldStop;
    longer := schedule + [leader];
    RunVisit(n, leader, schedule, leader);
    var idx := 0;
    while idx < n
      invariant 0 <= idx <= n && schedule <= longer && forall i :: 0 <= i < |longer| ==> longer[i] < n
      invariant AllCounted(Run(n, leader, longer), idx)
    {
      if idx != leader {
        RunVisit(n, leader, longer, idx);
        RunVisit(n, leader, longer + [idx], leader);
        TurnCounts(Run(n, leader, longer), idx);
        longer := longer + [idx] + [leader];
      }
      idx := idx + 1;
    }
    StopsExactly(n, leader, longer);
  }

  // The first k prisoners, but for the leader, have turned the lamp on, and it is off.
  ghost predicate AllCounted(s: State, k: nat) {
    k <= |s.prisoners| && !s.lampOn && forall i :: 0 <= i < k && i != s.leader ==> s.prisoners[i].turnedOnOnce
  }

  lemma TurnCounts(s: State, idx: nat)
    requires idx < |s.prisoners| && s.leader < |s.prisoners| && idx != s.leader && AllCounted(s, idx)
    ensures AllCounted(Visit(Visit(s, idx), s.leader), idx + 1)
  {
  }

  class Simulation {
    var prisoners: seq<Prisoner>
    var lampOn: bool
    const leader: nat
    var leaderCount: nat

    ghost function Abs(): State
      reads this
    {
      State(prisoners, lampOn, leader, leaderCount)
    }

    constructor (n: nat, leader: nat)
      ensures Abs() == Initial(n, leader)
    {
      prisoners := seq(n, _ => Prisoner(0, false));
      lampOn, leaderCount := false, 0;
      this.leader := leader;
    }

    method HandleVisit(idx: nat)
      requires idx < |prisoners|
      modifies this
      ensures Abs() == Visit(old(Abs()), idx)
    {
      if idx == leader {
        if lampOn {
          lampOn := false;
          leaderCount := leaderCount + 1;
        }
      } else if !prisoners[idx].turnedOnOnce && !lampOn {
        lampOn := true;
        prisoners := prisoners[idx := prisoners[idx].(turnedOnOnce := true)];
      }
      prisoners := prisoners[idx := prisoners[idx].(visits := prisoners[idx].visits + 1)];
    }
  }
}
