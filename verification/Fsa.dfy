// The fixed-size allocator: an arena of words with a header of three, and the free blocks
// chained through their own first words by byte offsets.
module Fsa {
  import opened Shared
  import opened Remainders

  const WORD := 8              // SIZE_OF_WORD
  const HEADER_WORDS := 3      // NUM_OF_SIZE_T_IN_STRUCT
  const HEADER_BYTES := 24     // sizeof(FSA_t)

  // CALCULATE_BLOCK_SIZE
  function RoundUp(blockSize: nat): (r: nat)
    ensures r % WORD == 0 && blockSize <= r < blockSize + WORD
  {
    blockSize + (if blockSize % WORD != 0 then WORD else 0) - blockSize % WORD
  }

  function FSASuggestSize(blockSize: nat, blocks: nat): nat
    requires blockSize > 0 && blocks > 0
  {
    HEADER_BYTES + RoundUp(blockSize) * blocks
  }

  // As many blocks of this size as FSAInit makes of so much memory.
  function BlocksIn(memorySize: nat, blockSize: nat): nat
    requires blockSize > 0 && memorySize >= HEADER_BYTES
  {
    (memorySize - HEADER_BYTES) / RoundUp(blockSize)
  }

  // The suggested size is exactly the least memory of which FSAInit makes that many blocks.
  lemma SuggestIsLeast(memorySize: nat, blockSize: nat, k: nat)
    requires blockSize > 0 && k > 0
    ensures memorySize >= FSASuggestSize(blockSize, k) <==>
      memorySize >= HEADER_BYTES && BlocksIn(memorySize, blockSize) >= k
  {
    var c := RoundUp(blockSize);
    if memorySize >= HEADER_BYTES {
      var bytes := memorySize - HEADER_BYTES;
      var q := bytes / c;
      assert bytes == q * c + bytes % c;
      MultipleIsFar(k - q, c);
      assert (k - q) * c == k * c - q * c;
      if q > k { MultipleIsFar(q - k, c); assert (q - k) * c == q * c - k * c; }
    }
  }

  lemma OneBlockIsLess(blockSize: nat)
    requires blockSize > 0
    ensures FSASuggestSize(blockSize, 1) == HEADER_BYTES + RoundUp(blockSize)
  {
  }

  // The first word of block j, with `size` words a block.
  function WordOf(j: nat, size: nat): nat { HEADER_WORDS + j * size }

  lemma WordStep(k: nat, size: nat)
    ensures WordOf(0, size) == HEADER_WORDS <= WordOf(k, size) && WordOf(k + 1, size) == WordOf(k, size) + size
  {
  }

  lemma BlocksApart(i: nat, j: nat, size: nat)
    requires i < j
    ensures WordOf(i, size) + size <= WordOf(j, size)
  {
    MultipleIsFar(j - i, size);
    assert (j - i) * size == j * size - i * size;
    if j - i > 1 { MultipleIsFar(j - i - 1, size); }
  }

  lemma BlocksFit(j: nat, blocks: nat, size: nat, words: nat)
    requires j < blocks && WordOf(blocks, size) <= words
    ensures WordOf(j, size) + size <= words
  {
    BlocksApart(j, blocks, size);
  }

  // The chain that starts at byte offset `next` runs through the free blocks in this order
  // and ends with offset 0.
  ghost predicate Chained(mem: seq<int>, next: int, free: seq<nat>, size: nat)
    decreases |free|
  {
    if free == [] then next == 0
    else
      && WordOf(free[0], size) < |mem|
      && next == WordOf(free[0], size) * WORD
      && Chained(mem, mem[WordOf(free[0], size)], free[1..], size)
  }

  // A write outside the free blocks' first words does not disturb the chain.
  lemma {:induction false} ChainedFrame(mem: seq<int>, next: int, free: seq<nat>, size: nat, w: nat, v: int)
    requires Chained(mem, next, free, size) && w < |mem|
    requires forall k :: 0 <= k < |free| ==> WordOf(free[k], size) != w
    ensures Chained(mem[w := v], next, free, size)
    decreases |free|
  {
    if free != [] { ChainedFrame(mem, mem[WordOf(free[0], size)], free[1..], size, w, v); }
  }

  // Every block is either free or live.
  ghost predicate Partition(free: seq<nat>, live: set<nat>, blocks: nat) {
    && (forall j: nat :: j in free <==> j < blocks && j !in live)
    && (forall j :: j in live ==> j < blocks)
  }

  lemma PartitionPop(free: seq<nat>, live: set<nat>, blocks: nat)
    requires free != [] && Distinct(free) && Partition(free, live, blocks)
    ensures Distinct(free[1..]) && Partition(free[1..], live + {free[0]}, blocks)
  {
    assert free == [free[0]] + free[1..];
    assert free[0] !in free[1..];
    forall j: nat ensures j in free[1..] <==> j < blocks && j !in live + {free[0]} {
      assert j in free <==> j == free[0] || j in free[1..];
    }
    assert free[0] in free;
  }

  lemma PartitionPush(free: seq<nat>, live: set<nat>, blocks: nat, j: nat)
    requires j in live && Distinct(free) && Partition(free, live, blocks)
    ensures Distinct([j] + free) && Partition([j] + free, live - {j}, blocks)
  {
    assert j !in free;
    forall i: nat ensures i in [j] + free <==> i < blocks && i !in live - {j} {
      assert i in [j] + free <==> i == j || i in free;
    }
  }

  ghost predicate Distinct(s: seq<nat>) { forall i, j :: 0 <= i < j < |s| ==> s[i] != s[j] }

  // Two ranges of `size` words do not overlap.
  ghost predicate Apart(a: nat, b: nat, size: nat) { a + size <= b || b + size <= a }

  lemma OtherBlock(i: nat, j: nat, size: nat)
    requires i != j && size > 0
    ensures Apart(WordOf(i, size), WordOf(j, size), size) && WordOf(i, size) != WordOf(j, size)
  {
    if i < j { BlocksApart(i, j, size); } else { BlocksApart(j, i, size); }
  }

  lemma HeaderWritesKeepChain(mem: seq<int>, next: int, free: seq<nat>, size: nat, count: int, first: int)
    requires Chained(mem, next, free, size) && |mem| >= HEADER_WORDS
    ensures Chained(mem[1 := count][2 := first], next, free, size)
  {
    forall k | 0 <= k < |free| ensures WordOf(free[k], size) >= HEADER_WORDS { WordStep(free[k], size); }
    ChainedFrame(mem, next, free, size, 1, count);
    ChainedFrame(mem[1 := count], next, free, size, 2, first);
  }

  // The blocks from k on, in address order.
  function From(k: nat, blocks: nat): (r: seq<nat>)
    requires k <= blocks
    ensures |r| == blocks - k && forall i :: 0 <= i < |r| ==> r[i] == k + i
    decreases blocks - k
  {
    if k == blocks then [] else [k] + From(k + 1, blocks)
  }

  // The chain CreatFreeList writes.
  lemma {:induction false} FreshChain(mem: seq<int>, k: nat, blocks: nat, size: nat)
    requires k <= blocks && WordOf(blocks, size) <= |mem| && size > 0
    requires forall j :: k <= j < blocks ==>
      WordOf(j, size) < |mem| && mem[WordOf(j, size)] == if j == blocks - 1 then 0 else WordOf(j + 1, size) * WORD
    ensures Chained(mem, if k == blocks then 0 else WordOf(k, size) * WORD, From(k, blocks), size)
    decreases blocks - k
  {
    if k < blocks {
      FreshChain(mem, k + 1, blocks, size);
      assert From(k, blocks)[1..] == From(k + 1, blocks);
    }
  }

  class Allocator {
    const mem: array<int>
    ghost var blocks: nat        // number of blocks
    ghost var size: nat          // words in a block
    ghost var free: seq<nat>     // the free blocks in chain order
    ghost var live: set<nat>     // history: the blocks handed out and not given back

    ghost predicate Valid()
      reads this, mem
    {
      && size > 0 && mem.Length >= HEADER_WORDS && WordOf(blocks, size) <= mem.Length
      && mem[0] == size * WORD && mem[1] == |free|
      && Distinct(free) && Partition(free, live, blocks)
      && Chained(mem[..], mem[2], free, size)
    }

    constructor (memory: array<int>)
      ensures mem == memory
    {
      mem := memory;
      blocks, size, free, live := 0, 1, [], {};
    }

    // FSAInit on memory whose first memorySize bytes may be used.
    static method FSAInit(memory: array<int>, memorySize: nat, blockSize: nat) returns (fsa: Allocator?)
      requires blockSize > 0 && memorySize <= memory.Length * WORD
      modifies memory
      ensures fsa == null <==> memorySize < FSASuggestSize(blockSize, 1)
      ensures fsa != null ==>
        && fresh(fsa) && fsa.mem == memory && fsa.Valid()
        && fsa.size * WORD == RoundUp(blockSize) && fsa.blocks == BlocksIn(memorySize, blockSize)
        && fsa.live == {}
    {
      hide WordOf, Chained, RoundUp, FSASuggestSize, From;
      SuggestIsLeast(memorySize, blockSize, 1);
      OneBlockIsLess(blockSize);
      if memorySize < FSASuggestSize(blockSize, 1) { return null; }
      var bytes := RoundUp(blockSize);
      var n := (memorySize - HEADER_BYTES) / bytes;
      fsa := new Allocator(memory);
      fsa.blocks, fsa.size := n, bytes / WORD;
      QuotientFits(memorySize - HEADER_BYTES, bytes, memory.Length);
      memory[0], memory[1], memory[2] := bytes, n, HEADER_BYTES;
      fsa.CreateFreeList();
    }

    method CreateFreeList()
      requires size > 0 && blocks > 0 && HEADER_WORDS <= mem.Length && WordOf(blocks, size) <= mem.Length
      requires mem[0] == size * WORD && mem[1] == blocks && mem[2] == HEADER_BYTES
      modifies this`free, this`live, mem
      ensures Valid() && free == From(0, blocks) && live == {}
    {
      hide WordOf, Chained;
      WordStep(0, size);
      var numOfBlocks := mem[1];
      var offset := HEADER_BYTES;
      var runner := HEADER_WORDS;
      ghost var k: nat := 0;
      while 1 != numOfBlocks
        invariant k + numOfBlocks == blocks && numOfBlocks >= 1
        invariant runner == WordOf(k, size) && offset == runner * WORD
        invariant mem[0] == size * WORD && mem[1] == blocks && mem[2] == HEADER_BYTES
        invariant forall j :: 0 <= j < k ==>
          WordOf(j, size) < mem.Length && mem[WordOf(j, size)] == WordOf(j + 1, size) * WORD
        decreases numOfBlocks
      {
        BlocksFit(k, blocks, size, mem.Length);
        WordStep(k, size);
        forall j | 0 <= j < k ensures WordOf(j, size) != runner { BlocksApart(j, k, size); }
        offset := offset + mem[0];
        mem[runner] := offset;
        runner := runner + mem[0] / WORD;
        numOfBlocks := numOfBlocks - 1;
        k := k + 1;
      }
      BlocksFit(k, blocks, size, mem.Length);
      WordStep(k, size);
      forall j | 0 <= j < k ensures WordOf(j, size) != runner { BlocksApart(j, k, size); }
      mem[runner] := 0;
      free, live := From(0, blocks), {};
      forall j: nat | j < blocks ensures j in free { assert free[j] == j; }
      FreshChain(mem[..], 0, blocks, size);
    }

    // The returned pointer, as an index of a word: a block that was not live and overlaps no
    // live one, or null exactly when every block is live.
    method FSAAlloc() returns (block: Option<nat>, ghost j: nat)
      requires Valid()
      modifies this`free, this`live, mem
      ensures Valid() && blocks == old(blocks) && size == old(size)
      ensures block.None? <==> forall i: nat :: i < blocks ==> i in old(live)
      ensures block.None? ==> live == old(live)
      ensures block.Some? ==>
        && block.value == WordOf(j, size) && j < blocks && j !in old(live) && live == old(live) + {j}
        && block.value + size <= mem.Length
        && (forall i :: i in old(live) ==> Apart(block.value, WordOf(i, size), size))
      ensures forall i :: HEADER_WORDS <= i < mem.Length ==> mem[i] == old(mem[i])
    {
      assert mem[1] > 0 ==> free[0] in free;
      block, j := None, 0;
      if 0 < mem[1] {
        j := free[0];
        var w := mem[2] / WORD;
        block := Some(w);
        HeaderWritesKeepChain(mem[..], mem[w], free[1..], size, |free| - 1, mem[w]);
        ghost var after := mem[..][1 := |free| - 1][2 := mem[w]];
        mem[2] := mem[w];
        mem[1] := mem[1] - 1;
        assert mem[..] == after;
        BlocksFit(j, blocks, size, mem.Length);
        forall i | i in live ensures Apart(w, WordOf(i, size), size) { OtherBlock(i, j, size); }
        PartitionPop(free, live, blocks);
        free, live := free[1..], live + {j};
      }
    }

    // FSAFree on the pointer to a live block.
    method FSAFree(block: nat, ghost j: nat)
      requires Valid() && j in live && block == WordOf(j, size)
      modifies this`free, this`live, mem
      ensures Valid() && blocks == old(blocks) && size == old(size)
      ensures free == [j] + old(free) && live == old(live) - {j}
      ensures forall i :: HEADER_WORDS <= i < mem.Length && i != block ==> mem[i] == old(mem[i])
    {
      BlocksFit(j, blocks, size, mem.Length);
      forall k | 0 <= k < |free| ensures WordOf(free[k], size) != block {
        assert free[k] in free;
        OtherBlock(free[k], j, size);
      }
      ChainedFrame(mem[..], mem[2], free, size, block, mem[2]);
      ghost var linked := mem[..][block := mem[2]];
      assert Chained(linked, block * WORD, [j] + free, size) by { assert ([j] + free)[1..] == free; }
      HeaderWritesKeepChain(linked, block * WORD, [j] + free, size, |free| + 1, block * WORD);
      ghost var after := linked[1 := |free| + 1][2 := block * WORD];
      mem[block] := mem[2];
      mem[2] := block * WORD;
      mem[1] := mem[1] + 1;
      assert mem[..] == after;
      PartitionPush(free, live, blocks, j);
      free, live := [j] + free, live - {j};
    }

    method FSACountFree() returns (n: int)
      requires Valid()
      ensures n == blocks - |live|
    {
      FreeCounts(free, live, blocks);
      n := mem[1];
    }

    // The owner of a live block may write any of its words.
    method UseBlock(ghost j: nat, block: nat, k: nat, v: int)
      requires Valid() && j in live && block == WordOf(j, size) && k < size
      modifies mem
      ensures Valid() && forall i :: 0 <= i < mem.Length && i != block + k ==> mem[i] == old(mem[i])
    {
      hide WordOf, Chained;
      WordStep(j, size);
      BlocksFit(j, blocks, size, mem.Length);
      forall i | 0 <= i < |free| ensures WordOf(free[i], size) != block + k {
        assert free[i] in free;
        OtherBlock(free[i], j, size);
      }
      ChainedFrame(mem[..], mem[2], free, size, block + k, v);
      ghost var after := mem[..][block + k := v];
      mem[block + k] := v;
      assert mem[..] == after;
    }
  }

  lemma QuotientFits(bytes: nat, c: nat, words: nat)
    requires c > 0 && c % WORD == 0 && bytes >= c && bytes + HEADER_BYTES <= words * WORD
    ensures bytes / c > 0 && c / WORD > 0 && WordOf(bytes / c, c / WORD) <= words
  {
    var n, size := bytes / c, c / WORD;
    assert bytes == n * c + bytes % c && c == size * WORD;
    assert n * c == n * size * WORD;
    if n <= 0 { MultipleIsFar(n, c); }
  }

  ghost function Members(s: seq<nat>): set<nat> { set j | j in s }

  ghost function Blocks(n: nat): (r: set<nat>)
    ensures forall j: nat :: j in r <==> j < n
  {
    if n == 0 then {} else Blocks(n - 1) + {n - 1}
  }

  lemma {:induction false} MembersCount(s: seq<nat>)
    requires Distinct(s)
    ensures |Members(s)| == |s|
  {
    if s == [] {
      assert Members(s) == {};
    } else {
      MembersCount(s[1..]);
      assert s == [s[0]] + s[1..];
      assert Members(s) == Members(s[1..]) + {s[0]};
      assert s[0] !in s[1..];
    }
  }

  lemma {:induction false} BlocksCount(n: nat)
    ensures |Blocks(n)| == n
  {
    if n > 0 { BlocksCount(n - 1); }
  }

  // The length of the chain is the number of blocks that are not live.
  lemma FreeCounts(free: seq<nat>, live: set<nat>, blocks: nat)
    requires Distinct(free) && Partition(free, live, blocks)
    ensures |free| == blocks - |live|
  {
    MembersCount(free);
    BlocksCount(blocks);
    assert Blocks(blocks) == Members(free) + live;
  }
}
