// The variable-size allocator as the program runs it: headers rewritten in place in an
// arena. The arena is an array with one cell per byte offset; a header's size word is the
// cell at the header's offset, and every other cell is arbitrary.
module Vsa {
  import opened Shared
  import opened VsaBlocks

  // Cell by cell from `at`, the headers of these blocks.
  ghost predicate Holds(mem: seq<int>, at: nat, blocks: Blocks)
    decreases |blocks|
  {
    blocks == [] ||
    (at < |mem| && mem[at] == blocks[0] && Holds(mem, at + Span(blocks[0]), blocks[1..]))
  }

  // The blocks tile the arena exactly up to the end header.
  ghost predicate Tiles(mem: seq<int>, blocks: Blocks) {
    Holds(mem, 0, blocks) && Extent(blocks) + HEADER <= |mem| && mem[Extent(blocks)] == 0
  }

  lemma {:induction false} HoldsAppend(mem: seq<int>, at: nat, a: Blocks, b: Blocks)
    ensures Holds(mem, at, a + b) <==> Holds(mem, at, a) && Holds(mem, at + Extent(a), b)
    decreases |a|
  {
    if a == [] { assert a + b == b; } else {
      assert (a + b)[1..] == a[1..] + b;
      HoldsAppend(mem, at + Span(a[0]), a[1..], b);
    }
  }

  // A write outside the blocks does not change what the arena holds there.
  lemma {:induction false} HoldsFrame(mem: seq<int>, at: nat, blocks: Blocks, i: nat, v: int)
    requires i < |mem| && (i < at || at + Extent(blocks) <= i)
    ensures Holds(mem, at, blocks) <==> Holds(mem[i := v], at, blocks)
    decreases |blocks|
  {
    if blocks != [] { HoldsFrame(mem, at + Span(blocks[0]), blocks[1..], i, v); }
  }

  // The arena around a search: what was passed, what is left, the end header.
  ghost predicate Searching(mem: seq<int>, c: Cursor) {
    && Holds(mem, 0, c.passed)
    && Holds(mem, Extent(c.passed), c.rest)
    && Extent(c.passed) + Extent(c.rest) + HEADER <= |mem|
    && mem[Extent(c.passed) + Extent(c.rest)] == 0
  }

  lemma SearchingIsTiles(mem: seq<int>, c: Cursor)
    ensures Searching(mem, c) <==> Tiles(mem, c.All())
  {
    HoldsAppend(mem, 0, c.passed, c.rest);
    ExtentAppend(c.passed, c.rest);
  }

  // Rewriting headers inside the first blocks at the cursor, so that they become the blocks
  // `news` of the same extent.
  lemma RewriteFirst(mem: seq<int>, mem': seq<int>, c: Cursor, k: nat, news: Blocks)
    requires Searching(mem, c) && k <= |c.rest|
    requires |mem'| == |mem| && Extent(news) == Extent(c.rest[..k]) && Holds(mem', Extent(c.passed), news)
    requires forall i :: 0 <= i < |mem| && (i < Extent(c.passed) || Extent(c.passed) + Extent(news) <= i) ==>
      mem'[i] == mem[i]
    ensures Searching(mem', Cursor(c.passed, news + c.rest[k..]))
  {
    hide Holds, Extent;
    var olds, tail := c.rest[..k], c.rest[k..];
    var at := Extent(c.passed);
    assert c.rest == olds + tail;
    assert Holds(mem, at + Extent(olds), tail) by { HoldsAppend(mem, at, olds, tail); }
    assert Extent(c.rest) == Extent(olds) + Extent(tail) by { ExtentAppend(olds, tail); }
    assert Extent(news + tail) == Extent(news) + Extent(tail) by { ExtentAppend(news, tail); }
    HoldsAgree(mem, mem', 0, c.passed);
    HoldsAgree(mem, mem', at + Extent(olds), tail);
    HoldsAppend(mem', at, news, tail);
  }

  lemma {:induction false} HoldsAgree(mem: seq<int>, mem': seq<int>, at: nat, blocks: Blocks)
    requires |mem| == |mem'| && forall i :: at <= i < at + Extent(blocks) && i < |mem| ==> mem[i] == mem'[i]
    requires Holds(mem, at, blocks)
    ensures Holds(mem', at, blocks)
    decreases |blocks|
  {
    if blocks != [] { HoldsAgree(mem, mem', at + Span(blocks[0]), blocks[1..]); }
  }

  // The header at the cursor, and the one after it.
  lemma HeadersAhead(mem: seq<int>, c: Cursor)
    requires Searching(mem, c)
    ensures Extent(c.passed) < |mem| && (mem[Extent(c.passed)] == if c.rest == [] then 0 else c.rest[0])
    ensures c.rest != [] ==>
      var next := Extent(c.passed) + Span(c.rest[0]);
      next < |mem| && mem[next] == if |c.rest| > 1 then c.rest[1] else 0
  {
    if c.rest != [] {
      var next := Extent(c.passed) + Span(c.rest[0]);
      assert Holds(mem, next, c.rest[1..]);
      assert Extent(c.rest) == Span(c.rest[0]) + Extent(c.rest[1..]);
      if |c.rest| > 1 { assert c.rest[1..][0] == c.rest[1]; }
    }
  }

  function Advanced(c: Cursor): Cursor
    requires c.rest != []
  {
    Cursor(c.passed + [c.rest[0]], c.rest[1..])
  }

  lemma AdvanceKeeps(mem: seq<int>, c: Cursor)
    requires Searching(mem, c) && c.rest != []
    ensures Searching(mem, Advanced(c)) && Extent(Advanced(c).passed) == Extent(c.passed) + Span(c.rest[0])
  {
    assert [c.rest[0]][1..] == [];
    ExtentAppend(c.passed, [c.rest[0]]);
    HoldsAppend(mem, 0, c.passed, [c.rest[0]]);
  }

  function Merged(c: Cursor): Cursor
    requires |c.rest| > 1 && c.rest[0] > 0 && c.rest[1] > 0
  {
    Cursor(c.passed, [Merge(c.rest[0], c.rest[1])] + c.rest[2..])
  }

  // Writing the merged size over the first of two free headers.
  lemma MergeKeepsSearching(mem: seq<int>, c: Cursor)
    requires Searching(mem, c) && |c.rest| > 1 && c.rest[0] > 0 && c.rest[1] > 0
    ensures Extent(c.passed) < |mem|
    ensures Searching(mem[Extent(c.passed) := Merge(c.rest[0], c.rest[1])], Merged(c))
  {
    HeadersAhead(mem, c);
    var m := Merge(c.rest[0], c.rest[1]);
    var two := c.rest[..2];
    assert two[1..] == [c.rest[1]] && [c.rest[1]][1..] == [] && [m][1..] == [];
    assert Extent(two) == Span(c.rest[0]) + Extent([c.rest[1]]);
    RewriteFirst(mem, mem[Extent(c.passed) := m], c, 2, [m]);
  }

  // ---------------------------------------------------------------- contents of live payloads

  // What the owners of these payloads stored is still there.
  ghost predicate KeepsContents(was: seq<int>, now: seq<int>, live: set<(nat, nat)>) {
    |was| == |now| && forall p, i :: p in live && p.0 <= i < p.0 + p.1 && i < |was| ==> now[i] == was[i]
  }

  // A write inside the first block at the cursor, if it is free, hits no live payload.
  lemma WriteKeepsContents(was: seq<int>, now: seq<int>, c: Cursor, i: nat, v: int)
    requires c.rest != [] && c.rest[0] > 0 && KeepsContents(was, now, Live(0, c.All()))
    requires Extent(c.passed) <= i < Extent(c.passed) + Span(c.rest[0]) && i < |now|
    ensures KeepsContents(was, now[i := v], Live(0, c.All()))
  {
    var end := Extent(c.passed) + Span(c.rest[0]);
    PassedAndRest(c);
    LiveInside(0, c.passed);
    LiveInside(end, c.rest[1..]);
    hide Live, Extent;
    forall p | p in Live(0, c.All()) ensures !(p.0 <= i < p.0 + p.1) {
      assert p in Live(0, c.passed) || p in Live(end, c.rest[1..]);
    }
  }

  // A write inside a live payload hits no header.
  lemma {:induction false} PayloadWriteHolds(
    mem: seq<int>, at: nat, blocks: Blocks, p: (nat, nat), i: nat, v: int)
    requires Holds(mem, at, blocks) && p in Live(at, blocks) && p.0 <= i < p.0 + p.1 && i < |mem|
    ensures Holds(mem[i := v], at, blocks)
    decreases |blocks|
  {
    var next, rest := at + Span(blocks[0]), blocks[1..];
    LiveInside(next, rest);
    if blocks[0] < 0 && p == (at + HEADER, -blocks[0]) {
      HoldsFrame(mem, next, rest, i, v);
    } else {
      PayloadWriteHolds(mem, next, rest, p, i, v);
    }
  }

  // The header VSAFree writes lies in no live payload.
  lemma FreeKeepsContents(mem: seq<int>, blocks: Blocks, p: (nat, nat), v: int)
    requires p in Live(0, blocks) && HEADER <= p.0 && p.0 - HEADER < |mem|
    ensures KeepsContents(mem, mem[p.0 - HEADER := v], Live(0, blocks))
  {
    forall q | q in Live(0, blocks) ensures !(q.0 <= p.0 - HEADER < q.0 + q.1) {
      if q != p { LiveDisjoint(0, blocks, p, q); }
    }
  }

  lemma FreeServes(blocks: Blocks, payload: nat, size: nat)
    requires (payload, size) in Live(0, blocks)
    ensures Serve(blocks, FreeRequest(payload)) == Free(0, blocks, payload)
  {
    hide Live, Free;
    var q := (payload, size);
    assert q in Live(0, blocks) && q.0 == payload;
  }

  lemma MergedLive(c: Cursor)
    requires |c.rest| > 1 && c.rest[0] > 0 && c.rest[1] > 0
    ensures Live(0, Merged(c).All()) == Live(0, c.All())
  {
    SameAround(c.passed, c.rest, Merged(c).rest);
  }

  lemma AdvancedAll(c: Cursor)
    requires c.rest != []
    ensures Advanced(c).All() == c.All()
  {
  }

  class Allocator {
    const mem: array<int>
    ghost var blocks: Blocks

    ghost predicate Valid()
      reads this, mem
    {
      Tiles(mem[..], blocks)
    }

    // VSAInit
    static method VSAInit(memory: array<int>) returns (vsa: Allocator?)
      modifies memory
      ensures vsa == null <==> memory.Length < 2 * HEADER
      ensures vsa == null ==> memory[..] == old(memory[..])
      ensures vsa != null ==>
        && fresh(vsa) && vsa.Valid() && vsa.mem == memory
        && vsa.blocks == if memory.Length == 2 * HEADER then [] else [memory.Length - 2 * HEADER]
    {
      if memory.Length < 2 * HEADER { return null; }
      vsa := new Allocator(memory);
    }

    constructor (memory: array<int>)
      requires memory.Length >= 2 * HEADER
      modifies memory
      ensures Valid() && mem == memory
      ensures blocks == if memory.Length == 2 * HEADER then [] else [memory.Length - 2 * HEADER]
      ensures memory.Length > 2 * HEADER ==> Extent(blocks) + HEADER == memory.Length
    {
      mem := memory;
      var size := memory.Length - 2 * HEADER;
      blocks := if size == 0 then [] else [size];
      new;
      mem[0] := size;
      mem[size + HEADER] := 0;
    }
  
    method WriteCell(i: nat, v: int)
      requires i < mem.Length
      modifies mem
      ensures mem[..] == old(mem[..])[i := v]
    {
      mem[i] := v;
    }

    // GetNextBlock
    static function NextBlock(mem: seq<int>, runner: nat): nat
      requires runner < |mem|
    {
      runner + Abs(mem[runner]) + HEADER
    }

    // Merges the free block at runner with the free one after it.
    method MergeTwo(runner: nat, next: nat, ghost c: Cursor, ghost was: seq<int>) returns (ghost d: Cursor)
      requires Searching(mem[..], c) && runner == Extent(c.passed) && |c.rest| > 1 && c.rest[0] > 0 && c.rest[1] > 0
      requires runner < mem.Length && next < mem.Length && mem[runner] == c.rest[0] && mem[next] == c.rest[1]
      requires KeepsContents(was, mem[..], Live(0, c.All()))
      modifies mem
      ensures d == Merged(c) && Searching(mem[..], d) && Live(0, d.All()) == Live(0, c.All())
      ensures mem[..] == old(mem[..])[runner := Merge(c.rest[0], c.rest[1])]
      ensures KeepsContents(was, mem[..], Live(0, c.All()))
    {
      MergeKeepsSearching(mem[..], c);
      WriteKeepsContents(was, mem[..], c, runner, Merge(mem[runner], mem[next]));
      MergedLive(c);
      hide Live, Searching, KeepsContents;
      WriteCell(runner, Merge(mem[runner], mem[next]));
      d := Merged(c);
    }

    // FindEnoughBLockSize, with the header-inclusive advance of GetNextBlock.
    method FindEnoughBlockSize(n: int) returns (runner: nat, ghost c: Cursor)
      requires Valid() && n > 0
      modifies this`blocks, mem
      ensures c == Fit(Cursor([], old(blocks)), n) && blocks == c.All()
      ensures Valid() && Searching(mem[..], c) && runner == Extent(c.passed)
      ensures Live(0, blocks) == Live(0, old(blocks))
      ensures KeepsContents(old(mem[..]), mem[..], Live(0, old(blocks)))
    {
      hide Live;
      runner := 0;
      c := Cursor([], blocks);
      assert c.All() == blocks;
      SearchingIsTiles(mem[..], c);
      HeadersAhead(mem[..], c);
      while n > mem[runner] && mem[runner] != 0
        invariant Searching(mem[..], c) && runner == Extent(c.passed)
        invariant Fit(c, n) == Fit(Cursor([], old(blocks)), n)
        invariant Live(0, c.All()) == Live(0, old(blocks))
        invariant KeepsContents(old(mem[..]), mem[..], Live(0, c.All()))
        invariant c.rest == [] <==> mem[runner] == 0
        decreases |c.rest|
      {
        HeadersAhead(mem[..], c);
        runner, c := SearchTurn(runner, n, c);
        HeadersAhead(mem[..], c);
      }
      blocks := c.All();
      SearchingIsTiles(mem[..], c);
    }

    // One turn of its loop.
    method SearchTurn(runner: nat, n: int, ghost c: Cursor) returns (runner': nat, ghost d: Cursor)
      requires Searching(mem[..], c) && runner == Extent(c.passed) < mem.Length
      requires n > 0 && c.rest != [] && mem[runner] == c.rest[0] < n
      modifies mem
      ensures Searching(mem[..], d) && runner' == Extent(d.passed) && |d.rest| < |c.rest| && Fit(d, n) == Fit(c, n)
      ensures Live(0, d.All()) == Live(0, c.All()) && KeepsContents(old(mem[..]), mem[..], Live(0, c.All()))
    {
      hide Live;
      HeadersAhead(mem[..], c);
      AdvancedAll(c);
      var next := NextBlock(mem[..], runner);
      if mem[runner] < 0 {
        AdvanceKeeps(mem[..], c);
        runner', d := next, Advanced(c);
      } else if mem[next] > 0 {
        d := MergeTwo(runner, next, c, mem[..]);
        runner' := runner;
      } else {
        AdvanceKeeps(mem[..], c);
        runner', d := next, Advanced(c);
      }
    }

    method AllocateBlock(runner: nat, n: int, ghost c: Cursor) returns (payload: nat)
      requires Searching(mem[..], c) && runner == Extent(c.passed) && c.rest != [] && 0 < n <= c.rest[0]
      modifies this`blocks, mem
      ensures Valid() && blocks == Place(c, n).blocks && payload == Place(c, n).payload.value.0
      ensures KeepsContents(old(mem[..]), mem[..], Live(0, c.All()))
    {
      hide Live, KeepsContents;
      HeadersAhead(mem[..], c);
      CarveHolds(mem[..], c, n);
      CarveKeepsContents(mem[..], c, n);
      if n + HEADER >= mem[runner] {
        WriteCell(runner, -mem[runner]);
      } else {
        WriteCell(runner + n + HEADER, mem[runner] - n - HEADER);
        WriteCell(runner, -n);
      }
      ghost var d := Cursor(c.passed, Carve(c.rest[0], n) + c.rest[1..]);
      blocks := d.All();
      SearchingIsTiles(mem[..], d);
      payload := runner + HEADER;
    }

    method VSAAlloc(n: int) returns (payload: Option<nat>)
      requires Valid() && n > 0
      modifies this`blocks, mem
      ensures Valid() && blocks == Alloc(old(blocks), n).blocks == Serve(old(blocks), AllocRequest(n))
      ensures var a := Alloc(old(blocks), n);
        payload == if a.payload.None? then None else Some(a.payload.value.0)
      ensures KeepsContents(old(mem[..]), mem[..], Live(0, old(blocks)))
    {
      hide Live;
      var runner, c := FindEnoughBlockSize(n);
      HeadersAhead(mem[..], c);
      FitKeeps(Cursor([], old(blocks)), n);
      if mem[runner] == 0 {
        payload := None;
      } else {
        var p := AllocateBlock(runner, n, c);
        payload := Some(p);
      }
    }

    method VSAFree(payload: nat, ghost size: nat)
      requires Valid() && (payload, size) in Live(0, blocks)
      modifies this`blocks, mem
      ensures Valid() && blocks == Free(0, old(blocks), payload) == Serve(old(blocks), FreeRequest(payload))
      ensures KeepsContents(old(mem[..]), mem[..], Live(0, old(blocks)))
    {
      LiveInside(0, blocks);
      FreeServes(blocks, payload, size);
      hide Live, Serve;
      FreeHolds(mem[..], 0, blocks, (payload, size));
      FreeKeepsContents(mem[..], blocks, (payload, size), Abs(mem[payload - HEADER]));
      WriteCell(payload - HEADER, Abs(mem[payload - HEADER]));
      FreeCorrect(0, blocks, (payload, size));
      blocks := Free(0, blocks, payload);
    }

    // The owner of a live payload may write any of its cells.
    method UsePayload(payload: nat, ghost size: nat, k: nat, v: int)
      requires Valid() && (payload, size) in Live(0, blocks) && k < size
      modifies mem
      ensures Valid() && payload + k < mem.Length && mem[..] == old(mem[..])[payload + k := v]
    {
      LiveInside(0, blocks);
      PayloadWriteHolds(mem[..], 0, blocks, (payload, size), payload + k, v);
      WriteCell(payload + k, v);
    }

    // The inner loop of VSALargestChunkAvailable: merges the free run that starts at runner.
    method MergeRun(runner: nat, ghost c: Cursor) returns (next: nat, ghost d: Cursor)
      requires Searching(mem[..], c) && runner == Extent(c.passed) && c.rest != []
      modifies mem
      ensures Searching(mem[..], d) && d.passed == c.passed && d.rest != [] && |d.rest| <= |c.rest|
      ensures Coalesce(d.rest) == Coalesce(c.rest) == [d.rest[0]] + Coalesce(d.rest[1..])
      ensures next == runner + Span(d.rest[0])
      ensures Live(0, d.All()) == Live(0, c.All()) && KeepsContents(old(mem[..]), mem[..], Live(0, c.All()))
    {
      hide Live;
      d := c;
      HeadersAhead(mem[..], d);
      next := NextBlock(mem[..], runner);
      while mem[runner] > 0 && mem[next] > 0
        invariant Searching(mem[..], d) && d.passed == c.passed && d.rest != [] && |d.rest| <= |c.rest|
        invariant runner < mem.Length && mem[runner] == d.rest[0]
        invariant next == runner + Span(d.rest[0]) < mem.Length && mem[next] == if |d.rest| > 1 then d.rest[1] else 0
        invariant Coalesce(d.rest) == Coalesce(c.rest)
        invariant Live(0, d.All()) == Live(0, c.All()) && KeepsContents(old(mem[..]), mem[..], Live(0, d.All()))
        decreases |d.rest|
      {
        d := MergeTwo(runner, next, d, old(mem[..]));
        HeadersAhead(mem[..], d);
        next := NextBlock(mem[..], runner);
      }
    }

    // One turn of its outer loop.
    method MeasureRun(runner: nat, max: nat, ghost c: Cursor) returns (next: nat, max': nat, ghost d: Cursor)
      requires Searching(mem[..], c) && runner == Extent(c.passed) && c.rest != [] && max == MaxFree(c.passed)
      modifies mem
      ensures Searching(mem[..], d) && next == Extent(d.passed) < mem.Length && |d.rest| < |c.rest|
      ensures d.passed + Coalesce(d.rest) == c.passed + Coalesce(c.rest) && max' == MaxFree(d.passed)
      ensures d.rest == [] <==> mem[next] == 0
      ensures Live(0, d.All()) == Live(0, c.All()) && KeepsContents(old(mem[..]), mem[..], Live(0, c.All()))
    {
      hide Live, Holds, Extent;
      next, d := MergeRun(runner, c);
      HeadersAhead(mem[..], d);
      max' := if max < mem[runner] then mem[runner] else max;
      AdvanceKeeps(mem[..], d);
      MaxFreeAppend(d.passed, d.rest[0]);
      assert d.passed + Coalesce(d.rest) == Advanced(d).passed + Coalesce(Advanced(d).rest);
      AdvancedAll(d);
      d := Advanced(d);
      HeadersAhead(mem[..], d);
    }

    method VSALargestChunkAvailable() returns (max: nat)
      requires Valid()
      modifies this`blocks, mem
      ensures Valid() && max == LargestChunk(old(blocks))
      ensures blocks == Coalesce(old(blocks)) == Serve(old(blocks), LargestRequest)
      ensures KeepsContents(old(mem[..]), mem[..], Live(0, old(blocks)))
    {
      hide Live;
      max := 0;
      var runner := 0;
      ghost var c := Cursor([], blocks);
      assert c.All() == blocks;
      SearchingIsTiles(mem[..], c);
      HeadersAhead(mem[..], c);
      while mem[runner] != 0
        invariant Searching(mem[..], c) && runner == Extent(c.passed) < mem.Length
        invariant c.passed + Coalesce(c.rest) == Coalesce(old(blocks)) && max == MaxFree(c.passed)
        invariant Live(0, c.All()) == Live(0, old(blocks))
        invariant KeepsContents(old(mem[..]), mem[..], Live(0, c.All()))
        invariant c.rest == [] <==> mem[runner] == 0
        decreases |c.rest|
      {
        runner, max, c := MeasureRun(runner, max, c);
      }
      assert c.passed + Coalesce(c.rest) == c.passed == c.All();
      blocks := c.All();
      SearchingIsTiles(mem[..], c);
    }
  }

  lemma {:induction false} MaxFreeAppend(s: seq<int>, b: int)
    ensures MaxFree(s + [b]) == if MaxFree(s) < b then b else MaxFree(s)
  {
    if s == [] { assert s + [b] == [b] && [b][1..] == []; } else {
      assert (s + [b])[1..] == s[1..] + [b];
      MaxFreeAppend(s[1..], b);
    }
  }

  // The two writes of AllocateBlock.
  lemma CarveHolds(mem: seq<int>, c: Cursor, n: int)
    requires Searching(mem, c) && c.rest != [] && 0 < n <= c.rest[0]
    ensures var at := Extent(c.passed);
      var d := Cursor(c.passed, Carve(c.rest[0], n) + c.rest[1..]);
      && at + n + HEADER < |mem|
      && if n + HEADER >= c.rest[0] then Searching(mem[at := -c.rest[0]], d)
         else Searching(mem[at + n + HEADER := c.rest[0] - n - HEADER][at := -n], d)
  {
    var at, b := Extent(c.passed), c.rest[0];
    var news := Carve(b, n);
    HeadersAhead(mem, c);
    CarveKeeps(at, b, n);
    assert c.rest[..1] == [b] && [b][1..] == [];
    var mem' := if n + HEADER >= b then mem[at := -b] else mem[at + n + HEADER := b - n - HEADER][at := -n];
    assert Holds(mem', at, news) by {
      if |news| == 2 { assert news[1..] == [news[1]] && [news[1]][1..] == []; } else { assert news[1..] == []; }
    }
    RewriteFirst(mem, mem', c, 1, news);
  }

  // Both writes of AllocateBlock lie in the free block.
  lemma CarveKeepsContents(mem: seq<int>, c: Cursor, n: int)
    requires Searching(mem, c) && c.rest != [] && 0 < n <= c.rest[0] && Extent(c.passed) + n + HEADER < |mem|
    ensures var at := Extent(c.passed);
      && KeepsContents(mem, mem[at := -c.rest[0]], Live(0, c.All()))
      && (n + HEADER < c.rest[0] ==>
            KeepsContents(mem, mem[at + n + HEADER := c.rest[0] - n - HEADER][at := -n], Live(0, c.All())))
  {
    var at, b := Extent(c.passed), c.rest[0];
    WriteKeepsContents(mem, mem, c, at, -b);
    if n + HEADER < b {
      WriteKeepsContents(mem, mem, c, at + n + HEADER, b - n - HEADER);
      WriteKeepsContents(mem, mem[at + n + HEADER := b - n - HEADER], c, at, -n);
    }
  }

  // The write of VSAFree.
  lemma {:induction false} FreeHolds(mem: seq<int>, at: nat, blocks: Blocks, p: (nat, nat))
    requires Holds(mem, at, blocks) && p in Live(at, blocks) && p.0 <= |mem|
    ensures HEADER <= p.0 && p.0 - HEADER < |mem| && at <= p.0 - HEADER
    ensures Holds(mem[p.0 - HEADER := Abs(mem[p.0 - HEADER])], at, Free(at, blocks, p.0))
    decreases |blocks|
  {
    LiveInside(at, blocks);
    var i := p.0 - HEADER;
    var rest := blocks[1..];
    var next := at + Span(blocks[0]);
    LiveInside(next, rest);
    if i == at {
      HoldsFrame(mem, next, rest, i, Abs(mem[i]));
      assert Free(at, blocks, p.0)[1..] == rest;
    } else {
      FreeHolds(mem, next, rest, p);
      assert Free(at, blocks, p.0)[1..] == Free(next, rest, p.0);
    }
  }
}
