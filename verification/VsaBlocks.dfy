// The variable-size allocator on values. The arena is tiled by blocks: a header that holds
// the payload size, positive when free and negative when live, then the payload; a header
// that holds 0 ends it. Adjacent free blocks are merged lazily, while searching.
module VsaBlocks {
  import opened Shared

  const HEADER := 16   // sizeof(struct variable_sized_allocator), with the magic number

  type Blocks = s: seq<int> | forall i :: 0 <= i < |s| ==> s[i] != 0

  function Span(b: int): nat { Abs(b) + HEADER }

  function Merge(a: int, b: int): int { a + b + HEADER }

  // Bytes covered by the blocks with their headers.
  function Extent(blocks: seq<int>): nat {
    if blocks == [] then 0 else Span(blocks[0]) + Extent(blocks[1..])
  }

  lemma {:induction false} ExtentAppend(a: seq<int>, b: seq<int>)
    ensures Extent(a + b) == Extent(a) + Extent(b)
  {
    if a == [] { assert a + b == b; } else {
      assert (a + b)[1..] == a[1..] + b;
      ExtentAppend(a[1..], b);
    }
  }

  // The live payloads, as (offset, size), of blocks that start at a given offset.
  function Live(at: nat, blocks: seq<int>): set<(nat, nat)>
    decreases |blocks|
  {
    if blocks == [] then {}
    else (if blocks[0] < 0 then {(at + HEADER, -blocks[0])} else {}) + Live(at + Span(blocks[0]), blocks[1..])
  }

  lemma {:induction false} LiveAppend(at: nat, a: seq<int>, b: seq<int>)
    ensures Live(at, a + b) == Live(at, a) + Live(at + Extent(a), b)
    decreases |a|
  {
    hide Live;
    LiveNothing(at);
    if a == [] { assert a + b == b; } else {
      assert (a + b)[1..] == a[1..] + b;
      LiveAppend(at + Span(a[0]), a[1..], b);
      LiveStep(at, a);
      LiveStep(at, a + b);
    }
  }

  lemma LiveNothing(at: nat)
    ensures Live(at, []) == {}
  {
  }

  lemma LiveStep(at: nat, s: seq<int>)
    requires s != []
    ensures Live(at, s) == (if s[0] < 0 then {(at + HEADER, -s[0])} else {}) + Live(at + Span(s[0]), s[1..])
  {
  }

  lemma {:induction false} LiveInside(at: nat, blocks: seq<int>)
    ensures forall p :: p in Live(at, blocks) ==> at + HEADER <= p.0 && p.0 + p.1 <= at + Extent(blocks)
    decreases |blocks|
  {
    if blocks != [] { LiveInside(at + Span(blocks[0]), blocks[1..]); }
  }

  // Two different live payloads are a header or more apart.
  lemma {:induction false} LiveDisjoint(at: nat, blocks: seq<int>, p: (nat, nat), q: (nat, nat))
    requires p in Live(at, blocks) && q in Live(at, blocks) && p != q
    ensures p.0 + p.1 + HEADER <= q.0 || q.0 + q.1 + HEADER <= p.0
    decreases |blocks|
  {
    var rest := Live(at + Span(blocks[0]), blocks[1..]);
    LiveInside(at + Span(blocks[0]), blocks[1..]);
    if p in rest && q in rest { LiveDisjoint(at + Span(blocks[0]), blocks[1..], p, q); }
  }

  // ---------------------------------------------------------------- search

  // Where the search stands: the blocks it has passed and the rest. It has found a block if
  // the rest is not empty.
  datatype Cursor = Cursor(passed: Blocks, rest: Blocks) {
    function All(): Blocks { passed + rest }
  }

  // FindEnoughBLockSize, with the header-inclusive advance over a free block that is too
  // small and is not followed by a free block.
  function Fit(c: Cursor, n: nat): Cursor
    requires n > 0
    decreases |c.rest|
  {
    if c.rest == [] || c.rest[0] >= n then c
    else if c.rest[0] > 0 && |c.rest| > 1 && c.rest[1] > 0 then
      Fit(Cursor(c.passed, [Merge(c.rest[0], c.rest[1])] + c.rest[2..]), n)
    else Fit(Cursor(c.passed + [c.rest[0]], c.rest[1..]), n)
  }

  lemma MergeKeeps(at: nat, s: Blocks)
    requires |s| > 1 && s[0] > 0 && s[1] > 0
    ensures var m := [Merge(s[0], s[1])] + s[2..]; Extent(m) == Extent(s) && Live(at, m) == Live(at, s)
  {
    var m := [Merge(s[0], s[1])] + s[2..];
    assert m[1..] == s[2..] == s[1..][1..];
  }

  // The same for blocks with others in front.
  lemma SameAround(passed: Blocks, s: Blocks, m: Blocks)
    requires |s| > 1 && s[0] > 0 && s[1] > 0 && m == [Merge(s[0], s[1])] + s[2..]
    ensures Extent(passed + m) == Extent(passed + s) && Live(0, passed + m) == Live(0, passed + s)
  {
    hide Live, Extent;
    MergeKeeps(Extent(passed), s);
    ExtentAppend(passed, s);
    ExtentAppend(passed, m);
    LiveAppend(0, passed, s);
    LiveAppend(0, passed, m);
  }

  // The search moves and resizes nothing that is live, and covers the same arena.
  lemma {:induction false} FitKeeps(c: Cursor, n: nat)
    requires n > 0
    ensures Extent(Fit(c, n).All()) == Extent(c.All()) && Live(0, Fit(c, n).All()) == Live(0, c.All())
    ensures Fit(c, n).rest == [] || Fit(c, n).rest[0] >= n
    decreases |c.rest|
  {
    if c.rest == [] || c.rest[0] >= n {
    } else if c.rest[0] > 0 && |c.rest| > 1 && c.rest[1] > 0 {
      var d := Cursor(c.passed, [Merge(c.rest[0], c.rest[1])] + c.rest[2..]);
      SameAround(c.passed, c.rest, d.rest);
      FitKeeps(d, n);
    } else {
      var d := Cursor(c.passed + [c.rest[0]], c.rest[1..]);
      assert d.All() == c.All();
      FitKeeps(d, n);
    }
  }

  // ---------------------------------------------------------------- the largest chunk

  // VSALargestChunkAvailable merges every run of free blocks.
  function Coalesce(s: Blocks): (r: Blocks)
    ensures s != [] ==> r != []
    decreases |s|
  {
    if s == [] then []
    else if s[0] > 0 && |s| > 1 && s[1] > 0 then Coalesce([Merge(s[0], s[1])] + s[2..])
    else [s[0]] + Coalesce(s[1..])
  }

  function MaxFree(s: seq<int>): nat {
    if s == [] then 0
    else if s[0] > MaxFree(s[1..]) then s[0] else MaxFree(s[1..])
  }

  function LargestChunk(blocks: Blocks): nat { MaxFree(Coalesce(blocks)) }

  lemma {:induction false} CoalesceKeeps(at: nat, s: Blocks)
    ensures Extent(Coalesce(s)) == Extent(s) && Live(at, Coalesce(s)) == Live(at, s)
    decreases |s|
  {
    if s == [] {
    } else if s[0] > 0 && |s| > 1 && s[1] > 0 {
      MergeKeeps(at, s);
      CoalesceKeeps(at, [Merge(s[0], s[1])] + s[2..]);
    } else {
      CoalesceKeeps(at + Span(s[0]), s[1..]);
      assert Coalesce(s)[1..] == Coalesce(s[1..]);
    }
  }

  // No two neighbours are free after coalescing.
  lemma {:induction false} CoalesceSeparates(s: Blocks)
    ensures s != [] ==> Coalesce(s) != [] && (Coalesce(s)[0] > 0 <==> s[0] > 0) && Coalesce(s)[0] >= s[0]
    ensures forall i :: 0 <= i < |Coalesce(s)| - 1 ==> Coalesce(s)[i] < 0 || Coalesce(s)[i + 1] < 0
    decreases |s|
  {
    if s == [] {
    } else if s[0] > 0 && |s| > 1 && s[1] > 0 {
      CoalesceSeparates([Merge(s[0], s[1])] + s[2..]);
    } else {
      CoalesceSeparates(s[1..]);
    }
  }

  // The search is a first fit over the merged runs: what it passed is a prefix of them, all too
  // small, and where it stopped is the next run, merged as far as needed.
  lemma {:induction false} FirstFit(c: Cursor, n: nat)
    requires n > 0 && forall i :: 0 <= i < |c.passed| ==> c.passed[i] < n
    ensures var d := Fit(c, n);
      && (forall i :: 0 <= i < |d.passed| ==> d.passed[i] < n)
      && d.passed + Coalesce(d.rest) == c.passed + Coalesce(c.rest)
      && (d.rest != [] ==> d.rest[0] >= n)
    decreases |c.rest|
  {
    var s := c.rest;
    if s == [] || s[0] >= n {
    } else if s[0] > 0 && |s| > 1 && s[1] > 0 {
      FirstFit(Cursor(c.passed, [Merge(s[0], s[1])] + s[2..]), n);
    } else {
      var d := Cursor(c.passed + [s[0]], s[1..]);
      FirstFit(d, n);
      assert d.passed + Coalesce(d.rest) == c.passed + Coalesce(c.rest);
    }
  }

  // First fit finds a block exactly when the request is no larger than the largest chunk.
  lemma {:induction false} FitsExactly(c: Cursor, n: nat)
    requires n > 0
    ensures Fit(c, n).rest != [] <==> n <= LargestChunk(c.rest)
    decreases |c.rest|
  {
    var s := c.rest;
    CoalesceSeparates(s);
    if s == [] || s[0] >= n {
    } else if s[0] > 0 && |s| > 1 && s[1] > 0 {
      FitsExactly(Cursor(c.passed, [Merge(s[0], s[1])] + s[2..]), n);
    } else {
      FitsExactly(Cursor(c.passed + [s[0]], s[1..]), n);
      assert Coalesce(s)[1..] == Coalesce(s[1..]);
    }
  }

  // ---------------------------------------------------------------- allocation

  // AllocateBlock: the whole block if what would remain could not hold a header.
  function Carve(b: int, n: int): (r: Blocks)
    requires 0 < n <= b
    ensures r != [] && r[0] < 0
  {
    if n + HEADER >= b then [-b] else [-n, b - n - HEADER]
  }

  lemma CarveKeeps(at: nat, b: int, n: int)
    requires 0 < n <= b
    ensures var r := Carve(b, n);
      Extent(r) == Span(b) && Live(at, r) == {(at + HEADER, -r[0])} && n <= -r[0] <= b && -r[0] <= n + HEADER
  {
    if n + HEADER >= b {
      OneBlock(at, -b);
    } else {
      var rest := b - n - HEADER;
      OneBlock(at, -n);
      OneBlock(at + Span(-n), rest);
      LiveAppend(at, [-n], [rest]);
      ExtentAppend([-n], [rest]);
      assert Carve(b, n) == [-n] + [rest];
      hide Live, Extent;
    }
  }

  lemma OneBlock(at: nat, b: int)
    requires b != 0
    ensures Extent([b]) == Span(b) && Live(at, [b]) == if b < 0 then {(at + HEADER, -b)} else {}
  {
    assert [b][1..] == [];
  }

  // The blocks after an allocation, and the payload handed out as (offset, size).
  datatype Allocation = Allocation(blocks: Blocks, payload: Option<(nat, nat)>)

  // Carving the block the search found.
  function Place(c: Cursor, n: int): Allocation
    requires c.rest != [] && 0 < n <= c.rest[0]
  {
    var carved := Carve(c.rest[0], n);
    Allocation(c.passed + (carved + c.rest[1..]), Some((Extent(c.passed) + HEADER, -carved[0])))
  }

  function Alloc(blocks: Blocks, n: nat): Allocation
    requires n > 0
  {
    var c := Fit(Cursor([], blocks), n);
    FitKeeps(Cursor([], blocks), n);
    if c.rest == [] then Allocation(c.All(), None) else Place(c, n)
  }

  // Replacing one block by others of the same extent changes only its own live payloads.
  lemma ReplaceKeeps(c: Cursor, carved: Blocks)
    requires c.rest != [] && Extent(carved) == Span(c.rest[0])
    ensures var at, tail := Extent(c.passed), c.rest[1..];
      && Extent(c.passed + (carved + tail)) == Extent(c.All())
      && Live(0, c.passed + (carved + tail))
           == Live(0, c.passed) + (Live(at, carved) + Live(at + Span(c.rest[0]), tail))
  {
    hide Live;
    var at, tail := Extent(c.passed), c.rest[1..];
    LiveAppend(0, c.passed, carved + tail);
    LiveAppend(at, carved, tail);
    ExtentAppend(c.passed, c.rest);
    ExtentAppend(c.passed, carved + tail);
    ExtentAppend(carved, tail);
  }

  lemma PlaceKeeps(c: Cursor, n: int)
    requires c.rest != [] && 0 < n <= c.rest[0]
    ensures var a := Place(c, n);
      && Extent(a.blocks) == Extent(c.All())
      && n <= a.payload.value.1 <= n + HEADER
      && Live(0, a.blocks) == Live(0, c.All()) + {a.payload.value}
      && a.payload.value !in Live(0, c.All())
  {
    hide Carve, Extent, Live;
    var at, carved := Extent(c.passed), Carve(c.rest[0], n);
    var p := (at + HEADER, -carved[0]);
    CarveKeeps(at, c.rest[0], n);
    ReplaceKeeps(c, carved);
    PassedAndRest(c);
    AddMiddle(Live(0, c.passed), p, Live(at + Span(c.rest[0]), c.rest[1..]));
    BlockApart(c, -carved[0]);
    assert Place(c, n).payload.value == p;
  }

  lemma PassedAndRest(c: Cursor)
    requires c.rest != [] && c.rest[0] > 0
    ensures Live(0, c.All()) == Live(0, c.passed) + Live(Extent(c.passed) + Span(c.rest[0]), c.rest[1..])
  {
    LiveAppend(0, c.passed, c.rest);
  }

  // The first block the search has not passed is nobody's payload.
  lemma BlockApart(c: Cursor, size: nat)
    requires c.rest != [] && c.rest[0] > 0
    ensures (Extent(c.passed) + HEADER, size) !in Live(0, c.All())
  {
    PassedAndRest(c);
    LiveInside(0, c.passed);
    LiveInside(Extent(c.passed) + Span(c.rest[0]), c.rest[1..]);
    hide Live;
  }

  lemma AddMiddle<T>(a: set<T>, x: T, b: set<T>)
    ensures a + ({x} + b) == (a + b) + {x}
  {
  }

  // An allocation succeeds exactly when the request is no larger than the largest chunk. It
  // then adds one payload of the requested size or at most a header more, a header or more away from every
  // live one; it never moves or resizes a live payload.
  lemma AllocCorrect(blocks: Blocks, n: nat)
    requires n > 0
    ensures var a := Alloc(blocks, n);
      && (a.payload.Some? <==> n <= LargestChunk(blocks))
      && Extent(a.blocks) == Extent(blocks)
      && (a.payload.None? ==> Live(0, a.blocks) == Live(0, blocks))
      && (a.payload.Some? ==>
            && n <= a.payload.value.1 <= n + HEADER
            && Live(0, a.blocks) == Live(0, blocks) + {a.payload.value}
            && forall p :: p in Live(0, blocks) ==>
                 p.0 + p.1 + HEADER <= a.payload.value.0 || a.payload.value.0 + a.payload.value.1 + HEADER <= p.0)
  {
    var c := Fit(Cursor([], blocks), n);
    var a := Alloc(blocks, n);
    assert Cursor([], blocks).All() == blocks;
    FitKeeps(Cursor([], blocks), n);
    FitsExactly(Cursor([], blocks), n);
    if c.rest != [] {
      PlaceKeeps(c, n);
      forall p | p in Live(0, blocks)
        ensures p.0 + p.1 + HEADER <= a.payload.value.0 || a.payload.value.0 + a.payload.value.1 + HEADER <= p.0
      {
        LiveDisjoint(0, a.blocks, p, a.payload.value);
      }
    }
  }

  // ---------------------------------------------------------------- free

  // VSAFree on the payload at offset p, by the header in front of it.
  function Free(at: nat, blocks: Blocks, p: nat): Blocks
    decreases |blocks|
  {
    if blocks == [] then []
    else if at + HEADER == p then [Abs(blocks[0]) as int] + blocks[1..]
    else [blocks[0]] + Free(at + Span(blocks[0]), blocks[1..], p)
  }

  // Freeing a live payload removes exactly that payload.
  lemma {:induction false} FreeCorrect(at: nat, blocks: Blocks, p: (nat, nat))
    requires p in Live(at, blocks)
    ensures Extent(Free(at, blocks, p.0)) == Extent(blocks)
    ensures Live(at, Free(at, blocks, p.0)) == Live(at, blocks) - {p}
    decreases |blocks|
  {
    var rest := blocks[1..];
    LiveInside(at + Span(blocks[0]), rest);
    var freed := Free(at, blocks, p.0);
    if at + HEADER == p.0 {
      assert freed[1..] == rest;
    } else {
      FreeCorrect(at + Span(blocks[0]), rest, p);
      assert freed[1..] == Free(at + Span(blocks[0]), rest, p.0);
    }
  }

  // ---------------------------------------------------------------- whole runs

  datatype Request = AllocRequest(n: nat) | FreeRequest(p: nat) | LargestRequest

  // A request the header file leaves undefined (size 0, or a pointer that is not live) is
  // not made.
  function Serve(blocks: Blocks, r: Request): Blocks {
    match r
    case AllocRequest(n) => if n > 0 then Alloc(blocks, n).blocks else blocks
    case FreeRequest(p) => if exists q :: q in Live(0, blocks) && q.0 == p then Free(0, blocks, p) else blocks
    case LargestRequest => Coalesce(blocks)
  }

  function ServeAll(blocks: Blocks, requests: seq<Request>): Blocks {
    if requests == [] then blocks
    else Serve(ServeAll(blocks, requests[..|requests| - 1]), requests[|requests| - 1])
  }

  // After any run the blocks still tile the whole arena, the live payloads lie inside it and
  // are pairwise a header apart, and a live payload that the last request did not free is
  // still live, at the same place and of the same size.
  lemma {:induction false} RunKeepsArena(blocks: Blocks, requests: seq<Request>)
    ensures var after := ServeAll(blocks, requests);
      && Extent(after) == Extent(blocks)
      && (forall p :: p in Live(0, after) ==> HEADER <= p.0 && p.0 + p.1 <= Extent(blocks))
      && (forall p, q :: p in Live(0, after) && q in Live(0, after) && p != q ==>
            p.0 + p.1 + HEADER <= q.0 || q.0 + q.1 + HEADER <= p.0)
    ensures requests != [] ==>
      var last := requests[|requests| - 1];
      var before := ServeAll(blocks, requests[..|requests| - 1]);
      forall p :: p in Live(0, before) && !(last.FreeRequest? && last.p == p.0) ==>
        p in Live(0, ServeAll(blocks, requests))
  {
    var after := ServeAll(blocks, requests);
    if requests != [] {
      var before := ServeAll(blocks, requests[..|requests| - 1]);
      RunKeepsArena(blocks, requests[..|requests| - 1]);
      match requests[|requests| - 1]
      case AllocRequest(n) => if n > 0 { AllocCorrect(before, n); }
      case FreeRequest(f) => if q :| q in Live(0, before) && q.0 == f { FreeCorrect(0, before, q); }
      case LargestRequest => CoalesceKeeps(0, before);
    }
    LiveInside(0, after);
    forall p, q | p in Live(0, after) && q in Live(0, after) && p != q
      ensures p.0 + p.1 + HEADER <= q.0 || q.0 + q.1 + HEADER <= p.0
    {
      LiveDisjoint(0, after, p, q);
    }
  }
}
