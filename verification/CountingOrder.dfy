// Stable ordering of integers by a key: what one counting pass computes.
module CountingOrder {

  type Key = int -> int

  // The elements with key v, in their order.
  function Filter(s: seq<int>, key: Key, v: int): seq<int> {
    if s == [] then []
    else (if key(s[0]) == v then [s[0]] else []) + Filter(s[1..], key, v)
  }

  // How many elements have a key in lo..hi-1.
  function CountRange(s: seq<int>, key: Key, lo: int, hi: int): nat
    decreases hi - lo
  {
    if hi <= lo then 0 else |Filter(s, key, lo)| + CountRange(s, key, lo + 1, hi)
  }

  // The elements with keys lo..hi-1, key by key, each group in its order.
  function Buckets(s: seq<int>, key: Key, lo: int, hi: int): (r: seq<int>)
    ensures |r| == CountRange(s, key, lo, hi)
    decreases hi - lo
  {
    if hi <= lo then [] else Filter(s, key, lo) + Buckets(s, key, lo + 1, hi)
  }

  ghost predicate KeysWithin(s: seq<int>, key: Key, lo: int, hi: int) {
    forall i :: 0 <= i < |s| ==> lo <= key(s[i]) < hi
  }

  ghost predicate Ordered(s: seq<int>, key: Key) {
    forall i, j :: 0 <= i < j < |s| ==> key(s[i]) <= key(s[j])
  }

  // out is s put in the order of the keys, elements with equal keys in their old order.
  ghost predicate StablySorted(out: seq<int>, s: seq<int>, key: Key) {
    && Ordered(out, key)
    && (forall v :: Filter(out, key, v) == Filter(s, key, v))
  }

  lemma {:induction false} FilterAppend(a: seq<int>, b: seq<int>, key: Key, v: int)
    ensures Filter(a + b, key, v) == Filter(a, key, v) + Filter(b, key, v)
  {
    hide Filter;
    if a == [] {
      FilterNothing(key, v);
      assert a + b == b;
    } else {
      assert (a + b)[1..] == a[1..] + b;
      FilterAppend(a[1..], b, key, v);
      FilterStep(a, key, v);
      FilterStep(a + b, key, v);
    }
  }

  lemma FilterNothing(key: Key, v: int)
    ensures Filter([], key, v) == []
  {
  }

  lemma FilterStep(s: seq<int>, key: Key, v: int)
    requires s != []
    ensures Filter(s, key, v) == (if key(s[0]) == v then [s[0]] else []) + Filter(s[1..], key, v)
  {
  }

  lemma {:induction false} FilterFilter(s: seq<int>, key: Key, u: int, v: int)
    ensures Filter(Filter(s, key, u), key, v) == if u == v then Filter(s, key, u) else []
  {
    if s != [] {
      FilterFilter(s[1..], key, u, v);
      var head := if key(s[0]) == u then [s[0]] else [];
      FilterAppend(head, Filter(s[1..], key, u), key, v);
      if key(s[0]) == u { assert head[1..] == []; }
    }
  }

  lemma {:induction false} FilterKeys(s: seq<int>, key: Key, v: int)
    ensures forall i :: 0 <= i < |Filter(s, key, v)| ==> key(Filter(s, key, v)[i]) == v
  {
    if s != [] { FilterKeys(s[1..], key, v); }
  }

  lemma {:induction false} FilterEmpty(s: seq<int>, key: Key, v: int)
    requires forall i :: 0 <= i < |s| ==> key(s[i]) != v
    ensures Filter(s, key, v) == []
  {
    if s != [] { FilterEmpty(s[1..], key, v); }
  }

  lemma {:induction false} FilterBuckets(s: seq<int>, key: Key, lo: int, hi: int, v: int)
    ensures Filter(Buckets(s, key, lo, hi), key, v) == if lo <= v < hi then Filter(s, key, v) else []
    decreases hi - lo
  {
    if lo < hi {
      FilterAppend(Filter(s, key, lo), Buckets(s, key, lo + 1, hi), key, v);
      FilterFilter(s, key, lo, v);
      FilterBuckets(s, key, lo + 1, hi, v);
    }
  }

  lemma {:induction false} BucketsOrdered(s: seq<int>, key: Key, lo: int, hi: int)
    ensures KeysWithin(Buckets(s, key, lo, hi), key, lo, hi)
    ensures Ordered(Buckets(s, key, lo, hi), key)
    decreases hi - lo
  {
    if lo < hi {
      FilterKeys(s, key, lo);
      BucketsOrdered(s, key, lo + 1, hi);
      OrderedConcat(Filter(s, key, lo), Buckets(s, key, lo + 1, hi), key, lo, hi);
    }
  }

  lemma OrderedConcat(f: seq<int>, r: seq<int>, key: Key, v: int, hi: int)
    requires v < hi && (forall i :: 0 <= i < |f| ==> key(f[i]) == v)
    requires KeysWithin(r, key, v + 1, hi) && Ordered(r, key)
    ensures KeysWithin(f + r, key, v, hi) && Ordered(f + r, key)
  {
    var b := f + r;
    forall i | 0 <= i < |b| ensures v <= key(b[i]) < hi && (i < |f| <==> key(b[i]) == v) {
      if i >= |f| { assert b[i] == r[i - |f|]; }
    }
    forall i, j | 0 <= i < j < |b| ensures key(b[i]) <= key(b[j]) {
      if i >= |f| { assert b[i] == r[i - |f|] && b[j] == r[j - |f|]; }
    }
  }

  // The buckets over all keys are the stable order.
  lemma BucketsStablySorted(s: seq<int>, key: Key, lo: int, hi: int)
    requires KeysWithin(s, key, lo, hi)
    ensures StablySorted(Buckets(s, key, lo, hi), s, key)
  {
    BucketsOrdered(s, key, lo, hi);
    forall v
      ensures Filter(Buckets(s, key, lo, hi), key, v) == Filter(s, key, v)
    {
      FilterBuckets(s, key, lo, hi, v);
      if !(lo <= v < hi) { FilterEmpty(s, key, v); }
    }
  }

  // ---------------------------------------------------------------- places

  // Where the counting pass puts element i of s: after all smaller keys and after the
  // earlier elements with the same key.
  function Place(s: seq<int>, key: Key, lo: int, i: nat): nat
    requires i < |s|
  {
    CountRange(s, key, lo, key(s[i])) + |Filter(s[..i], key, key(s[i]))|
  }

  lemma {:induction false} FilterAt(s: seq<int>, key: Key, i: nat)
    requires i < |s|
    ensures var v := key(s[i]);
      |Filter(s[..i], key, v)| < |Filter(s, key, v)| && Filter(s, key, v)[|Filter(s[..i], key, v)|] == s[i]
  {
    var v := key(s[i]);
    assert s == s[..i] + ([s[i]] + s[i + 1..]);
    FilterAppend(s[..i], [s[i]] + s[i + 1..], key, v);
  }

  lemma {:induction false} CountRangeSplit(s: seq<int>, key: Key, lo: int, mid: int, hi: int)
    requires lo <= mid <= hi
    ensures CountRange(s, key, lo, hi) == CountRange(s, key, lo, mid) + CountRange(s, key, mid, hi)
    decreases mid - lo
  {
    if lo < mid { CountRangeSplit(s, key, lo + 1, mid, hi); }
  }

  lemma BucketsStep(s: seq<int>, key: Key, lo: int, hi: int)
    requires lo < hi
    ensures Buckets(s, key, lo, hi) == Filter(s, key, lo) + Buckets(s, key, lo + 1, hi)
    ensures CountRange(s, key, lo, hi) == |Filter(s, key, lo)| + CountRange(s, key, lo + 1, hi)
  {
  }

  // Element i stands at its place in the buckets.
  lemma {:induction false} BucketsAt(s: seq<int>, key: Key, lo: int, hi: int, i: nat)
    requires i < |s| && lo <= key(s[i]) < hi
    ensures Place(s, key, lo, i) < CountRange(s, key, lo, hi)
    ensures Buckets(s, key, lo, hi)[Place(s, key, lo, i)] == s[i]
    decreases hi - lo
  {
    hide Filter, Buckets, CountRange;
    BucketsStep(s, key, lo, hi);
    var f, r := Filter(s, key, lo), Buckets(s, key, lo + 1, hi);
    if lo < key(s[i]) {
      BucketsStep(s, key, lo, key(s[i]));
      BucketsAt(s, key, lo + 1, hi, i);
      var p := Place(s, key, lo + 1, i);
      assert Place(s, key, lo, i) == |f| + p;
      assert (f + r)[|f| + p] == r[p];
    } else {
      FilterAt(s, key, i);
      EmptyRange(s, key, lo);
      assert (f + r)[Place(s, key, lo, i)] == f[Place(s, key, lo, i)];
    }
  }

  lemma EmptyRange(s: seq<int>, key: Key, lo: int)
    ensures CountRange(s, key, lo, lo) == 0
  {
  }

  // Every position of a bucket is some element's place.
  lemma {:induction false} FilterSource(s: seq<int>, key: Key, v: int, t: nat) returns (i: nat)
    requires t < |Filter(s, key, v)|
    ensures i < |s| && key(s[i]) == v && |Filter(s[..i], key, v)| == t
  {
    if key(s[0]) == v && t == 0 {
      i := 0;
    } else {
      var head := if key(s[0]) == v then 1 else 0;
      i := FilterSource(s[1..], key, v, t - head);
      assert s[..i + 1] == [s[0]] + s[1..][..i];
      i := i + 1;
    }
  }

  lemma {:induction false} PlaceSource(s: seq<int>, key: Key, lo: int, hi: int, j: nat) returns (i: nat)
    requires j < CountRange(s, key, lo, hi)
    ensures i < |s| && lo <= key(s[i]) < hi && Place(s, key, lo, i) == j
    decreases hi - lo
  {
    if j < |Filter(s, key, lo)| {
      i := FilterSource(s, key, lo, j);
    } else {
      i := PlaceSource(s, key, lo + 1, hi, j - |Filter(s, key, lo)|);
    }
  }

  // All elements have a place.
  lemma {:induction false} CountAll(s: seq<int>, key: Key, lo: int, hi: int)
    requires KeysWithin(s, key, lo, hi)
    ensures CountRange(s, key, lo, hi) == |s|
  {
    if s == [] {
      CountNone(key, lo, hi);
    } else {
      CountAll(s[1..], key, lo, hi);
      CountHead(s, key, lo, hi);
    }
  }

  lemma {:induction false} CountNone(key: Key, lo: int, hi: int)
    ensures CountRange([], key, lo, hi) == 0
    decreases hi - lo
  {
    if lo < hi { CountNone(key, lo + 1, hi); }
  }

  lemma {:induction false} CountHead(s: seq<int>, key: Key, lo: int, hi: int)
    requires s != []
    ensures CountRange(s, key, lo, hi) == CountRange(s[1..], key, lo, hi) + if lo <= key(s[0]) < hi then 1 else 0
    decreases hi - lo
  {
    hide Filter;
    if lo < hi {
      CountHead(s, key, lo + 1, hi);
      FilterStep(s, key, lo);
    }
  }

  // A sequence that has every element of s at its place is the buckets.
  lemma PlacesDetermine(out: seq<int>, s: seq<int>, key: Key, lo: int, hi: int)
    requires KeysWithin(s, key, lo, hi) && |out| == |s|
    requires forall i :: 0 <= i < |s| ==> Place(s, key, lo, i) < |out| && out[Place(s, key, lo, i)] == s[i]
    ensures out == Buckets(s, key, lo, hi)
  {
    CountAll(s, key, lo, hi);
    forall j | 0 <= j < |out|
      ensures out[j] == Buckets(s, key, lo, hi)[j]
    {
      var i := PlaceSource(s, key, lo, hi, j);
      BucketsAt(s, key, lo, hi, i);
    }
  }
}
