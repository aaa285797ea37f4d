// The allocator's search exactly as written. Over a free block that is too small and has no
// free neighbour, FindEnoughBLockSize advances by the payload size alone and lands one
// header short of the next block. This module proves exactly when that advance is never
// taken, so that the search and VSAAlloc meet their contract whatever the payloads contain.
module VsaAsWritten {
  import opened Shared
  import opened VsaBlocks
  import opened Vsa

  // `Stopped` is a loop exit at runner; `Wild` is an access outside the arena.
  datatype Search = Stopped(mem: seq<int>, runner: nat) | Running(mem: seq<int>, runner: nat) | Wild

  // At most `steps` iterations of the loop of FindEnoughBLockSize.
  function SearchAsWritten(mem: seq<int>, runner: nat, n: nat, steps: nat): (r: Search)
    ensures r.Stopped? ==> r.runner < |r.mem| == |mem|
    decreases steps
  {
    if runner >= |mem| then Wild
    else if n <= mem[runner] || mem[runner] == 0 then Stopped(mem, runner)
    else if steps == 0 then Running(mem, runner)
    else
      var next := runner + Abs(mem[runner]) + HEADER;
      if mem[runner] < 0 then SearchAsWritten(mem, next, n, steps - 1)
      else if next >= |mem| then Wild
      else if mem[next] > 0 then
        SearchAsWritten(mem[runner := Merge(mem[runner], mem[next])], runner, n, steps - 1)
      else SearchAsWritten(mem, runner + mem[runner], n, steps - 1)
  }

  // The search as written ends at the header first fit ends at, with the same blocks.
  ghost predicate Meets(mem: seq<int>, blocks: Blocks, n: nat)
    requires n > 0
  {
    var c := Fit(Cursor([], blocks), n);
    exists steps :: var r := SearchAsWritten(mem, 0, n, steps);
      r.Stopped? && r.runner == Extent(c.passed) && Tiles(r.mem, c.All())
  }

  // What a caller can check before the call: nothing is free, or the first free run, merged,
  // is large enough.
  predicate FirstRunDecides(blocks: Blocks, n: nat)
    decreases |blocks|
  {
    if blocks == [] then true
    else if blocks[0] < 0 then FirstRunDecides(blocks[1..], n)
    else Coalesce(blocks)[0] >= n
  }

  lemma {:induction false} FollowsFit(mem: seq<int>, c: Cursor, n: nat) returns (steps: nat)
    requires n > 0 && Searching(mem, c) && FirstRunDecides(c.rest, n)
    ensures var d := Fit(c, n);
      var r := SearchAsWritten(mem, Extent(c.passed), n, steps);
      r.Stopped? && r.runner == Extent(d.passed) && Tiles(r.mem, d.All())
    decreases |c.rest|
  {
    hide Searching, Tiles, Holds;
    HeadersAhead(mem, c);
    SearchingIsTiles(mem, c);
    var s := c.rest;
    if s == [] || s[0] >= n {
      steps := 0;
    } else if s[0] < 0 {
      AdvanceKeeps(mem, c);
      steps := FollowsFit(mem, Advanced(c), n);
      steps := steps + 1;
    } else {
      assert |s| > 1 && s[1] > 0;
      MergeKeepsSearching(mem, c);
      assert Coalesce(Merged(c).rest) == Coalesce(s);
      CoalesceSeparates(Merged(c).rest);
      steps := FollowsFit(mem[Extent(c.passed) := Merge(s[0], s[1])], Merged(c), n);
      steps := steps + 1;
    }
  }

  lemma {:induction false} StopsOnce(mem: seq<int>, runner: nat, n: nat, a: nat, b: nat)
    requires SearchAsWritten(mem, runner, n, a).Stopped? && SearchAsWritten(mem, runner, n, b).Stopped?
    ensures SearchAsWritten(mem, runner, n, a) == SearchAsWritten(mem, runner, n, b)
    decreases a
  {
    if !(n <= mem[runner] || mem[runner] == 0) {
      var next := runner + Abs(mem[runner]) + HEADER;
      if mem[runner] < 0 { StopsOnce(mem, next, n, a - 1, b - 1); }
      else if mem[next] > 0 {
        StopsOnce(mem[runner := Merge(mem[runner], mem[next])], runner, n, a - 1, b - 1);
      } else { StopsOnce(mem, runner + mem[runner], n, a - 1, b - 1); }
    }
  }

  lemma {:induction false} FitGoesForward(c: Cursor, n: nat)
    requires n > 0
    ensures Extent(Fit(c, n).passed) >= Extent(c.passed)
    decreases |c.rest|
  {
    if c.rest == [] || c.rest[0] >= n {
    } else if c.rest[0] > 0 && |c.rest| > 1 && c.rest[1] > 0 {
      FitGoesForward(Merged(c), n);
    } else {
      ExtentAppend(c.passed, [c.rest[0]]);
      FitGoesForward(Advanced(c), n);
    }
  }

  // A cell inside the first block, past its header.
  lemma WriteInsideFirst(mem: seq<int>, c: Cursor, i: nat, v: int)
    requires Searching(mem, c) && c.rest != [] && Extent(c.passed) < i < Extent(c.passed) + Span(c.rest[0])
    ensures i < |mem| && Searching(mem[i := v], c)
  {
    HeadersAhead(mem, c);
    assert c.rest[..1] == [c.rest[0]] && [c.rest[0]][1..] == [];
    RewriteFirst(mem, mem[i := v], c, 1, [c.rest[0]]);
    assert [c.rest[0]] + c.rest[1..] == c.rest;
  }

  // Cell i, past the header at the cursor and short of where first fit goes on, stops the
  // search as written when it holds n.
  ghost predicate DerailsAt(mem: seq<int>, c: Cursor, n: nat, i: nat, steps: nat)
    requires n > 0
  {
    && i < |mem| && Searching(mem[i := n], c)
    && Extent(c.passed) < i < Extent(Fit(c, n).passed)
    && var r := SearchAsWritten(mem[i := n], Extent(c.passed), n, steps); r.Stopped? && r.runner == i && r.mem[i] == n
  }

  lemma DerailsBefore(mem: seq<int>, c: Cursor, n: nat, i: nat, steps: nat)
    requires n > 0 && Searching(mem, c) && c.rest != [] && c.rest[0] < 0
    requires DerailsAt(mem, Advanced(c), n, i, steps)
    ensures DerailsAt(mem, c, n, i, steps + 1)
  {
    HeadersAhead(mem, c);
    AdvanceKeeps(mem, c);
    assert Advanced(c).All() == c.All();
    SearchingIsTiles(mem[i := n], c);
    SearchingIsTiles(mem[i := n], Advanced(c));
  }

  lemma DerailsUnmerged(mem: seq<int>, c: Cursor, n: nat, i: nat, steps: nat)
    requires n > 0 && Searching(mem, c) && |c.rest| > 1 && 0 < c.rest[0] < n && c.rest[1] > 0
    requires Extent(c.passed) < |mem| && i >= Extent(c.passed) + Merge(c.rest[0], c.rest[1])
    requires DerailsAt(mem[Extent(c.passed) := Merge(c.rest[0], c.rest[1])], Merged(c), n, i, steps)
    ensures DerailsAt(mem, c, n, i, steps + 1)
  {
    hide Searching;
    var at := Extent(c.passed);
    var m := Merge(c.rest[0], c.rest[1]);
    UndoMerge(mem, c, i, n);
    assert mem[i := n][at := m] == mem[at := m][i := n];
    HeadersAhead(mem[i := n], c);
  }

  lemma DerailsHere(mem: seq<int>, c: Cursor, n: nat)
    requires n > 0 && Searching(mem, c) && c.rest != [] && 0 < c.rest[0] < n
    requires |c.rest| > 1 ==> c.rest[1] < 0
    ensures DerailsAt(mem, c, n, Extent(c.passed) + c.rest[0], 1)
  {
    var i := Extent(c.passed) + c.rest[0];
    WriteInsideFirst(mem, c, i, n);
    HeadersAhead(mem[i := n], c);
    AdvanceKeeps(mem, c);
    FitGoesForward(Advanced(c), n);
  }

  // If the first free run is too small, the search as written leaves the headers.
  // It stops one header short of block k's header.
  lemma {:induction false} Derails(mem: seq<int>, c: Cursor, n: nat) returns (i: nat, steps: nat, k: nat)
    requires n > 0 && Searching(mem, c) && !FirstRunDecides(c.rest, n)
    ensures DerailsAt(mem, c, n, i, steps)
    ensures k <= |c.rest| && i + HEADER == Extent(c.passed) + Extent(c.rest[..k])
    ensures c.rest[0] > 0 ==> i >= Extent(c.passed) + c.rest[0]
    decreases |c.rest|
  {
    hide DerailsAt, Searching, Fit;
    var s := c.rest;
    CoalesceSeparates(s);
    if s[0] < 0 {
      AdvanceKeeps(mem, c);
      i, steps, k := Derails(mem, Advanced(c), n);
      DerailsBefore(mem, c, n, i, steps);
      assert s[..k + 1] == [s[0]] + s[1..][..k];
      steps, k := steps + 1, k + 1;
    } else if |s| > 1 && s[1] > 0 {
      MergeKeepsSearching(mem, c);
      i, steps, k := Derails(mem[Extent(c.passed) := Merge(s[0], s[1])], Merged(c), n);
      DerailsUnmerged(mem, c, n, i, steps);
      PrefixUnmerged(s, k);
      steps, k := steps + 1, k + 1;
    } else {
      i, steps, k := Extent(c.passed) + s[0], 1, 1;
      assert s[..1][1..] == [];
      DerailsHere(mem, c, n);
    }
  }

  lemma PrefixUnmerged(s: Blocks, k: nat)
    requires |s| > 1 && s[0] > 0 && s[1] > 0
    requires var m := [Merge(s[0], s[1])] + s[2..]; 0 < k <= |m|
    ensures var m := [Merge(s[0], s[1])] + s[2..]; Extent(m[..k]) == Extent(s[..k + 1])
  {
    var m := [Merge(s[0], s[1])] + s[2..];
    assert m[..k][1..] == s[..k + 1][1..][1..];
  }

  lemma UndoMerge(mem: seq<int>, c: Cursor, i: nat, v: int)
    requires Searching(mem, c) && |c.rest| > 1 && c.rest[0] > 0 && c.rest[1] > 0
    requires Extent(c.passed) + Span(c.rest[0]) < i < |mem|
    requires Extent(c.passed) < |mem|
    requires Searching(mem[Extent(c.passed) := Merge(c.rest[0], c.rest[1])][i := v], Merged(c))
    ensures Searching(mem[i := v], c)
  {
    var at := Extent(c.passed);
    var mem1 := mem[at := Merge(c.rest[0], c.rest[1])][i := v];
    var two := c.rest[..2];
    HeadersAhead(mem, c);
    HeadersAhead(mem1, Merged(c));
    assert two[1..] == [c.rest[1]] && [c.rest[1]][1..] == [] && Merged(c).rest[..1][1..] == [];
    assert Extent(two) == Span(c.rest[0]) + Extent([c.rest[1]]);
    assert Holds(mem[i := v], at, two);
    RewriteFirst(mem1, mem[i := v], Merged(c), 1, two);
    assert two + Merged(c).rest[1..] == c.rest;
  }

  // As written, the search meets its contract for every content of the arena's other cells
  // exactly when the first free run decides.
  lemma AsWrittenExactly(blocks: Blocks, n: nat)
    requires n > 0
    ensures FirstRunDecides(blocks, n) <==> forall mem :: Tiles(mem, blocks) ==> Meets(mem, blocks, n)
  {
    var c := Cursor([], blocks);
    assert c.All() == blocks;
    if FirstRunDecides(blocks, n) {
      forall mem | Tiles(mem, blocks) ensures Meets(mem, blocks, n) {
        SearchingIsTiles(mem, c);
        var steps := FollowsFit(mem, c, n);
      }
    } else {
      var mem := Layout(blocks);
      SearchingIsTiles(mem, c);
      var i, steps, _ := Derails(mem, c, n);
      var bad := mem[i := n];
      SearchingIsTiles(bad, c);
      forall other | SearchAsWritten(bad, 0, n, other).Stopped?
        ensures SearchAsWritten(bad, 0, n, other).runner != Extent(Fit(c, n).passed)
      {
        StopsOnce(bad, 0, n, steps, other);
      }
      assert !Meets(bad, blocks, n);
    }
  }

  // ---------------------------------------------------------------- VSAAlloc with this search

  // `WildWrite` is a header written outside the arena, or a search that went there.
  datatype Outcome = Returned(mem: seq<int>, payload: Option<nat>) | Unfinished | WildWrite

  function AllocAsWritten(mem: seq<int>, n: nat, steps: nat): Outcome {
    match SearchAsWritten(mem, 0, n, steps)
    case Wild => WildWrite
    case Running(_, _) => Unfinished
    case Stopped(m, runner) => AllocateAt(m, runner, n)
  }

  // The end of VSAAlloc: null at the end header, otherwise AllocateBlock.
  function AllocateAt(mem: seq<int>, runner: nat, n: int): Outcome
    requires runner < |mem| && n >= 0
  {
    var b := mem[runner];
    if b == 0 then Returned(mem, None)
    else if n + HEADER >= b then Returned(mem[runner := -b], Some(runner + HEADER))
    else if runner + n + HEADER >= |mem| then WildWrite
    else Returned(mem[runner + n + HEADER := b - n - HEADER][runner := -n], Some(runner + HEADER))
  }

  // VSAAlloc as written returns what the allocation on block lists returns, and leaves its blocks.
  ghost predicate AllocMeets(mem: seq<int>, blocks: Blocks, n: nat)
    requires n > 0
  {
    var a := Alloc(blocks, n);
    var payload := if a.payload.None? then None else Some(a.payload.value.0);
    exists steps :: var r := AllocAsWritten(mem, n, steps);
      r.Returned? && r.payload == payload && Tiles(r.mem, a.blocks)
  }

  // VSAAlloc as written returns the address of block k's header, or of the end header, as memory
  // for the caller to use.
  ghost predicate ReturnsHeader(mem: seq<int>, blocks: Blocks, n: nat, steps: nat, k: nat) {
    k <= |blocks| && var r := AllocAsWritten(mem, n, steps); r.Returned? && r.payload == Some(Extent(blocks[..k]))
  }

  lemma AllocateAtMeets(mem: seq<int>, d: Cursor, n: nat)
    requires n > 0 && Searching(mem, d) && (d.rest == [] || d.rest[0] >= n)
    ensures Extent(d.passed) < |mem|
    ensures var r := AllocateAt(mem, Extent(d.passed), n);
      && r.Returned?
      && if d.rest == [] then r.payload.None? && Tiles(r.mem, d.All())
         else r.payload == Some(Place(d, n).payload.value.0) && Tiles(r.mem, Place(d, n).blocks)
  {
    HeadersAhead(mem, d);
    SearchingIsTiles(mem, d);
    if d.rest != [] {
      CarveHolds(mem, d, n);
      SearchingIsTiles(AllocateAt(mem, Extent(d.passed), n).mem, Cursor(d.passed, Carve(d.rest[0], n) + d.rest[1..]));
    }
    hide Searching, Tiles, Extent, Carve;
  }

  lemma DecidedMeets(mem: seq<int>, blocks: Blocks, n: nat)
    requires n > 0 && Tiles(mem, blocks) && FirstRunDecides(blocks, n)
    ensures AllocMeets(mem, blocks, n)
  {
    hide Tiles, Searching, Extent, Fit, FirstRunDecides, SearchAsWritten, AllocateAt, Carve;
    var c := Cursor([], blocks);
    assert c.All() == blocks;
    assert Extent([]) == 0 by { NoExtent(); }
    SearchingIsTiles(mem, c);
    var steps := FollowsFit(mem, c, n);
    var d := Fit(c, n);
    var r := SearchAsWritten(mem, 0, n, steps);
    FitKeeps(c, n);
    SearchingIsTiles(r.mem, d);
    AllocateAtMeets(r.mem, d, n);
    assert AllocAsWritten(mem, n, steps) == AllocateAt(r.mem, Extent(d.passed), n);
  }

  lemma NoExtent()
    ensures Extent([]) == 0
  {
  }

  // If the first run does not decide, some content of the payloads makes VSAAlloc as written
  // return a header.
  lemma UndecidedReturnsHeader(blocks: Blocks, n: nat) returns (mem: seq<int>, steps: nat, k: nat)
    requires n > 0 && !FirstRunDecides(blocks, n)
    ensures Tiles(mem, blocks) && ReturnsHeader(mem, blocks, n, steps, k) && !AllocMeets(mem, blocks, n)
  {
    var c := Cursor([], blocks);
    assert c.All() == blocks;
    var empty := Layout(blocks);
    SearchingIsTiles(empty, c);
    var i;
    i, steps, k := Derails(empty, c, n);
    mem := empty[i := n];
    SearchingIsTiles(mem, c);
    forall other | AllocAsWritten(mem, n, other).Returned?
      ensures AllocAsWritten(mem, n, other).payload == Some(i + HEADER)
    {
      StopsOnce(mem, 0, n, steps, other);
    }
    assert Alloc(blocks, n).payload != Some((i + HEADER, 0));
  }

  // VSAAlloc as written meets its contract in every arena of these blocks exactly when the
  // first free run decides.
  lemma AllocAsWrittenExactly(blocks: Blocks, n: nat)
    requires n > 0
    ensures FirstRunDecides(blocks, n) <==> forall mem :: Tiles(mem, blocks) ==> AllocMeets(mem, blocks, n)
  {
    if FirstRunDecides(blocks, n) {
      forall mem | Tiles(mem, blocks) ensures AllocMeets(mem, blocks, n) { DecidedMeets(mem, blocks, n); }
    } else {
      var mem, steps, k := UndecidedReturnsHeader(blocks, n);
    }
  }

  // One new arena of 132 bytes with one free block of 100, whose payload holds 200 in its last
  // header-sized part: a request for 200 is not refused but given the end header.
  lemma FreshArenaGivesTooMuch()
    ensures var mem := seq(132, i => if i == 0 then 100 else if i == 100 then 200 else 0);
      && Tiles(mem, [100]) && LargestChunk([100]) == 100
      && ReturnsHeader(mem, [100], 200, 1, 1) && Extent([100]) == 116
  {
    var mem := seq(132, i => if i == 0 then 100 else if i == 100 then 200 else 0);
    assert [100][1..] == [] && [100][..1] == [100];
    assert Coalesce([100]) == [100] + Coalesce([]);
    assert SearchAsWritten(mem, 100, 200, 0) == Stopped(mem, 100);
    assert SearchAsWritten(mem, 0, 200, 1) == Stopped(mem, 100);
  }

  // An arena for these blocks.
  lemma {:induction false} Layout(blocks: Blocks) returns (mem: seq<int>)
    ensures Tiles(mem, blocks)
  {
    if blocks == [] {
      mem := seq(HEADER, _ => 0);
    } else {
      var rest := Layout(blocks[1..]);
      var first := [blocks[0]] + seq(Span(blocks[0]) - 1, _ => 0);
      mem := first + rest;
      HoldsShift(rest, mem, 0, Span(blocks[0]), blocks[1..]);
    }
  }

  lemma {:induction false} HoldsShift(mem: seq<int>, longer: seq<int>, at: nat, shift: nat, blocks: Blocks)
    requires Holds(mem, at, blocks) && |longer| == shift + |mem| && longer[shift..] == mem
    ensures Holds(longer, at + shift, blocks)
    decreases |blocks|
  {
    if blocks != [] {
      assert longer[shift + at] == longer[shift..][at];
      HoldsShift(mem, longer, at + Span(blocks[0]), shift, blocks[1..]);
    }
  }
}
