// The Josephus array: players[i] is the next living player after i. Each round the player at
// i removes the next one and passes on to the one after it.
module Josephus {

  import opened Shared

  // The game on the queue of living players, the one to strike first in front.
  function Survivor(queue: seq<nat>): nat
    requires queue != []
    decreases |queue|
  {
    if |queue| == 1 then queue[0] else Survivor(queue[2..] + [queue[0]])
  }

  function Numbers(n: nat): seq<nat> { seq(n, i => i) }

  // The largest power of two that is at most n.
  function PowerBelow(n: nat): (p: nat)
    requires n > 0
    ensures p <= n < 2 * p
  {
    if n == 1 then 1 else 2 * PowerBelow(n / 2)
  }

  predicate IsPowerOfTwo(p: nat) { p == 1 || (p > 0 && p % 2 == 0 && IsPowerOfTwo(p / 2)) }

  lemma {:induction false} PowerBelowIsPower(n: nat)
    requires n > 0
    ensures IsPowerOfTwo(PowerBelow(n))
  {
    if n > 1 { PowerBelowIsPower(n / 2); }
  }

  lemma {:induction false} PowersApart(p: nat, q: nat)
    requires IsPowerOfTwo(p) && IsPowerOfTwo(q) && p < q
    ensures 2 * p <= q
  {
    if p > 1 { PowersApart(p / 2, q / 2); }
  }

  // The power below grows only when n reaches the next one.
  lemma PowerBelowNext(n: nat)
    requires n > 1
    ensures PowerBelow(n) == if n == 2 * PowerBelow(n - 1) then n else PowerBelow(n - 1)
  {
    var p, q := PowerBelow(n - 1), PowerBelow(n);
    PowerBelowIsPower(n - 1);
    PowerBelowIsPower(n);
    if p < q { PowersApart(p, q); } else if q < p { PowersApart(q, p); }
  }

  // The survivor of any queue of n players stands 2 * (n - 2^floor(log2 n)) places from the front.
  lemma {:induction false} SurvivorPlace(queue: seq<nat>)
    requires queue != []
    ensures 2 * (|queue| - PowerBelow(|queue|)) < |queue|
    ensures Survivor(queue) == queue[2 * (|queue| - PowerBelow(|queue|))]
    decreases |queue|
  {
    var n := |queue|;
    if n > 1 {
      SurvivorPlace(queue[2..] + [queue[0]]);
      PowerBelowNext(n);
    }
  }

  // The array links the living players in a circle, in queue order.
  ghost predicate Circle(players: seq<nat>, queue: seq<nat>) {
    && queue != []
    && (forall j :: 0 <= j < |queue| ==> queue[j] < |players|)
    && (forall j :: 0 <= j < |queue| - 1 ==> players[queue[j]] == queue[j + 1])
    && players[queue[|queue| - 1]] == queue[0]
    && (forall j, k :: 0 <= j < k < |queue| ==> queue[j] != queue[k])
  }

  // The filling loop in size_t arithmetic, where n - 2 wraps around for n < 2. It stops at the
  // first index outside the array, if there is one.
  method FillCircle(n: nat) returns (players: array<nat>, bad: Option<nat>)
    requires n < SIZE_T_RANGE
    ensures fresh(players) && players.Length == n
    ensures bad == if n >= 2 then None else Some(n)
    ensures n >= 2 ==> Circle(players[..], Numbers(n))
  {
    players := new nat[n];
    bad := None;
    var i := 0;
    var last := (n - 2) % SIZE_T_RANGE;
    while i <= last
      invariant 0 <= i <= n && i <= last + 1
      invariant forall j :: 0 <= j < i ==> players[j] == j + 1
      decreases last + 1 - i
    {
      if i >= players.Length { return players, Some(i); }
      players[i] := i + 1;
      i := (i + 1) % SIZE_T_RANGE;
    }
    players[i] := 0;
  }

  // Josephus stays inside its array, and then answers with the survivor, numbered from 1,
  // exactly for n >= 2; the header promises an answer for every positive number.
  method Josephus(n: nat) returns (survivor: Option<nat>)
    requires n < SIZE_T_RANGE
    ensures survivor.None? <==> n < 2
    ensures n >= 2 ==> survivor == Some(Survivor(Numbers(n)) + 1) == Some(2 * (n - PowerBelow(n)) + 1)
  {
    var players, bad := FillCircle(n);
    if bad.Some? { return None; }
    var i := 0;
    ghost var queue := Numbers(n);
    CircleEnds(players[..], queue);
    while i != players[i]
      invariant Circle(players[..], queue) && i == queue[0]
      invariant Survivor(queue) == Survivor(Numbers(n))
      invariant players[i] == i <==> |queue| == 1
      decreases |queue|
    {
      ghost var was := players[..];
      ghost var next := queue[2..] + [queue[0]];
      assert players[queue[0]] == queue[1];
      assert was[queue[1]] == if |queue| == 2 then queue[0] else queue[2];
      players[i] := players[players[i]];
      i := players[i];
      assert players[..] == was[queue[0] := was[queue[1]]];
      StrikeKeepsCircle(was, queue);
      queue := next;
      CircleEnds(players[..], queue);
    }
    SurvivorPlace(Numbers(n));
    survivor := Some(i + 1);
  }

  lemma CircleEnds(players: seq<nat>, queue: seq<nat>)
    requires Circle(players, queue)
    ensures players[queue[0]] == queue[0] <==> |queue| == 1
  {
    assert |queue| > 1 ==> queue[0] != queue[1];
  }

  lemma StrikeKeepsCircle(players: seq<nat>, queue: seq<nat>)
    requires Circle(players, queue) && |queue| > 1
    ensures Circle(players[queue[0] := players[queue[1]]], queue[2..] + [queue[0]])
  {
    var next := queue[2..] + [queue[0]];
    forall j, k | 0 <= j < k < |next| ensures next[j] != next[k] {
      assert next[j] == queue[j + 2];
      if k < |next| - 1 { assert next[k] == queue[k + 2]; }
    }
  }
}
