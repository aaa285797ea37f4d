// Radix sort: one stable counting pass per decimal digit, least significant first.
module RadixSort {
  import opened Shared
  import opened Remainders
  import opened CountingOrder
  import opened StableChain

  const INT_RANGE := 0x1_0000_0000

  // An int converted to size_t, and a size_t converted back to int.
  function ToSizeT(x: int): nat { x % SIZE_T_RANGE }

  function ToInt(x: nat): int {
    var low := x % INT_RANGE;
    if low < 0x8000_0000 then low else low - INT_RANGE
  }

  // The remainder of C, which truncates toward zero.
  function Rem10(x: int): int { if x >= 0 then x % 10 else -((-x) % 10) }

  // GetKey; dividing an int by the size_t behind `param` happens in size_t.
  function GetKey(num: int, param: nat): int {
    if param == 0 then num else Rem10(ToInt(ToSizeT(num) / param))
  }

  // On non-negative numbers it is the digit at that power of ten.
  lemma GetKeyIsDigit(num: int, param: nat)
    requires 0 <= num < 0x8000_0000 && param > 0
    ensures GetKey(num, param) == num / param % 10
  {
    QuotientAtMost(num, param);
    assert ToSizeT(num) == num;
    assert ToInt(num / param) == num / param;
  }

  // An int as a size_t: negative ones lie below the end of its range.
  function Raised(num: int): int { if num < 0 then SIZE_T_RANGE + num else num }

  // The key of any int, told by multiples alone: q is how often param goes into the number as a
  // size_t, w the int with the low 32 bits of q, and d the last decimal digit of w, with the sign
  // of w.
  lemma GetKeyExactly(num: int, param: nat, q: nat, m: int, w: int, z: int, d: int)
    requires IsInt(num) && param > 0
    requires q * param <= Raised(num) < q * param + param
    requires q == m * INT_RANGE + w && IsInt(w)
    requires w == 10 * z + d && -9 <= d <= 9 && (w < 0 ==> d <= 0) && (w > 0 ==> d >= 0)
    ensures GetKey(num, param) == d
  {
    var x := Raised(num);
    assert ToSizeT(num) == x;
    DivModUnique(x, q, param, x - q * param);
    LowBits(q, m, w);
    LastDigit(w, z, d);
    hide ToInt, ToSizeT, Rem10;
  }

  lemma LowBits(q: nat, m: int, w: int)
    requires q == m * INT_RANGE + w && IsInt(w)
    ensures ToInt(q) == w
  {
    if w >= 0 { DivModUnique(q, m, INT_RANGE, w); } else { DivModUnique(q, m - 1, INT_RANGE, w + INT_RANGE); }
  }

  lemma LastDigit(w: int, z: int, d: int)
    requires w == 10 * z + d && -9 <= d <= 9 && (w < 0 ==> d <= 0) && (w > 0 ==> d >= 0)
    ensures Rem10(w) == d
  {
    if w >= 0 { DivModUnique(w, z, 10, d); } else { DivModUnique(-w, -z, 10, -d); }
  }

  lemma QuotientAtMost(x: nat, c: nat)
    requires c > 0
    ensures x / c <= x
  {
    assert x == x / c * c + x % c;
    MultipleIsFar(c - 1, x / c);
    assert (c - 1) * (x / c) == x / c * c - x / c;
    if c == 1 { DivModUnique(x, x, 1, 0); }
  }

  // One more element: its own group grows by one, and no other.
  lemma FilterNext(s: seq<int>, key: Key, r: nat)
    requires r < |s|
    ensures forall v ::
      |Filter(s[..r + 1], key, v)| == |Filter(s[..r], key, v)| + if key(s[r]) == v then 1 else 0
  {
    hide Filter;
    assert s[..r + 1] == s[..r] + [s[r]];
    forall v
      ensures |Filter(s[..r + 1], key, v)| == |Filter(s[..r], key, v)| + if key(s[r]) == v then 1 else 0
    {
      FilterAppend(s[..r], [s[r]], key, v);
      FilterStep([s[r]], key, v);
      assert [s[r]][1..] == [];
      FilterNothing(key, v);
    }
  }

  function DigitKey(param: nat): Key { x => GetKey(x, param) }

  // ---------------------------------------------------------------- one pass

  // The number of keys from the least to the greatest, and the negated least key, are ints.
  ghost predicate SpanFits(s: seq<int>, key: Key) {
    && (forall i :: 0 <= i < |s| ==> -INT_LIMIT < key(s[i]))
    && (forall i, j :: 0 <= i < |s| && 0 <= j < |s| ==> key(s[i]) - key(s[j]) + 1 < INT_LIMIT)
  }

  ghost predicate AllInts(s: seq<int>) { forall i :: 0 <= i < |s| ==> IsInt(s[i]) }

  // `ok` is false exactly when `max - min + 1` or `-min` overflows an int; what the program then
  // does is undefined, and the method stops before it.
  method CountingSort1(arr: array<int>, param: nat) returns (ok: bool)
    requires arr.Length > 0 && AllInts(arr[..])
    modifies arr
    ensures ok <==> SpanFits(old(arr[..]), DigitKey(param))
    ensures if ok then StablySorted(arr[..], old(arr[..]), DigitKey(param)) else arr[..] == old(arr[..])
  {
    hide GetKey, Filter, CountRange, Buckets, StablySorted, SpanFits;
    var key := DigitKey(param);
    ghost var s := arr[..];
    var buffer := new int[arr.Length];
    var min, max := CopyAndMeasure(arr, buffer, key);
    SpanDecides(s, key, min, max);
    ghost var at :| 0 <= at < |s| && key(s[at]) == min;
    KeyIsInt(s[at], param);
    if max - min + 1 >= INT_LIMIT || min == -INT_LIMIT { return false; }
    ok := true;
    var digits := CountDigits(arr, key, min, max);
    PlaceAll(arr, buffer, digits, key, min, max);
    BucketsStablySorted(s, key, min, max + 1);
  }

  // All keys lie between these two, which both occur.
  ghost predicate Extremes(s: seq<int>, key: Key, min: int, max: int) {
    && KeysWithin(s, key, min, max + 1)
    && (exists i :: 0 <= i < |s| && key(s[i]) == min)
    && (exists i :: 0 <= i < |s| && key(s[i]) == max)
  }

  lemma SpanDecides(s: seq<int>, key: Key, min: int, max: int)
    requires Extremes(s, key, min, max)
    ensures SpanFits(s, key) <==> max - min + 1 < INT_LIMIT && -INT_LIMIT < min
  {
    var i :| 0 <= i < |s| && key(s[i]) == max;
    var j :| 0 <= j < |s| && key(s[j]) == min;
    assert SpanFits(s, key) ==> key(s[i]) - key(s[j]) + 1 < INT_LIMIT;
  }

  // The first loop: copies the array and finds the extreme keys.
  method CopyAndMeasure(arr: array<int>, buffer: array<int>, key: Key) returns (min: int, max: int)
    requires arr != buffer && 0 < arr.Length == buffer.Length
    modifies buffer
    ensures buffer[..] == arr[..] && Extremes(arr[..], key, min, max)
  {
    max, min := key(arr[0]), key(arr[0]);
    var runner := 0;
    while runner < arr.Length
      invariant 0 <= runner <= arr.Length && buffer[..runner] == arr[..runner]
      invariant forall i :: 0 <= i < runner ==> min <= key(arr[i]) <= max
      invariant exists i :: 0 <= i < arr.Length && key(arr[..][i]) == min
      invariant exists i :: 0 <= i < arr.Length && key(arr[..][i]) == max
    {
      buffer[runner] := arr[runner];
      assert key(arr[..][runner]) == key(arr[runner]);
      if key(arr[runner]) > max { max := key(arr[runner]); }
      if key(arr[runner]) < min { min := key(arr[runner]); }
      runner := runner + 1;
    }
  }

  // digit_array after both counting loops: entry d holds how many keys are at most min + d.
  method CountDigits(arr: array<int>, key: Key, min: int, max: int) returns (digits: array<int>)
    requires min <= max && max - min + 1 < INT_LIMIT && KeysWithin(arr[..], key, min, max + 1)
    ensures fresh(digits) && digits.Length == max - min + 1
    ensures forall d :: 0 <= d < digits.Length ==> digits[d] == CountRange(arr[..], key, min, min + d + 1)
  {
    hide Filter, CountRange;
    ghost var s := arr[..];
    digits := CountKeys(arr, key, min, max);
    CountOne(s, key, min);
    var runner := 1;
    while runner < max - min + 1
      invariant 1 <= runner <= max - min + 1
      invariant forall d :: 0 <= d < runner ==> digits[d] == CountRange(s, key, min, min + d + 1)
      invariant forall d :: runner <= d < digits.Length ==> digits[d] == |Filter(s, key, min + d)|
    {
      CountRangeSplit(s, key, min, min + runner, min + runner + 1);
      CountOne(s, key, min + runner);
      digits[runner] := digits[runner] + digits[runner - 1];
      runner := runner + 1;
    }
  }

  // The first of the two loops: how many elements have each key.
  method CountKeys(arr: array<int>, key: Key, min: int, max: int) returns (digits: array<int>)
    requires min <= max && KeysWithin(arr[..], key, min, max + 1)
    ensures fresh(digits) && digits.Length == max - min + 1
    ensures forall d :: 0 <= d < digits.Length ==> digits[d] == |Filter(arr[..], key, min + d)|
  {
    hide Filter;
    var n := arr.Length;
    ghost var s := arr[..];
    digits := new int[max - min + 1](_ => 0);
    forall v ensures Filter(s[..0], key, v) == [] {
      assert s[..0] == [];
      FilterNothing(key, v);
    }
    var runner := 0;
    while runner < n
      invariant 0 <= runner <= n
      invariant forall d :: 0 <= d < digits.Length ==> digits[d] == |Filter(s[..runner], key, min + d)|
    {
      FilterNext(s, key, runner);
      digits[key(arr[runner]) - min] := digits[key(arr[runner]) - min] + 1;
      runner := runner + 1;
    }
    assert s[..n] == s;
  }

  lemma CountOne(s: seq<int>, key: Key, v: int)
    ensures CountRange(s, key, v, v + 1) == |Filter(s, key, v)|
  {
  }

  // The last loop: back to front, each element goes to the end of its group's free part.
  method PlaceAll(arr: array<int>, buffer: array<int>, digits: array<int>, key: Key, min: int, max: int)
    requires min <= max && arr.Length == buffer.Length && digits.Length == max - min + 1
    requires arr != buffer && arr != digits && buffer != digits
    requires KeysWithin(buffer[..], key, min, max + 1)
    requires forall d :: 0 <= d < digits.Length ==> digits[d] == CountRange(buffer[..], key, min, min + d + 1)
    modifies arr, digits
    ensures arr[..] == Buckets(buffer[..], key, min, max + 1)
  {
    hide Filter, CountRange, Buckets;
    var n := arr.Length;
    ghost var s := buffer[..];
    ghost var b := Buckets(s, key, min, max + 1);
    CountAll(s, key, min, max + 1);
    forall d | 0 <= d < digits.Length
      ensures digits[d] == CountRange(s, key, min, min + d) + |Filter(s[..n], key, min + d)|
    {
      assert s[..n] == s;
      CountRangeSplit(s, key, min, min + d, min + d + 1);
      CountOne(s, key, min + d);
    }
    var runner := n - 1;
    while runner >= 0
      invariant -1 <= runner < n && buffer[..] == s
      invariant forall d :: 0 <= d < digits.Length ==>
        digits[d] == CountRange(s, key, min, min + d) + |Filter(s[..runner + 1], key, min + d)|
      invariant forall i :: runner < i < n ==>
        Place(s, key, min, i) < n && arr[Place(s, key, min, i)] == b[Place(s, key, min, i)]
    {
      var curr := key(buffer[runner]) - min;
      BucketsAt(s, key, min, max + 1, runner);
      FilterNext(s, key, runner);
      assert digits[curr] - 1 == Place(s, key, min, runner);
      arr[digits[curr] - 1] := buffer[runner];
      digits[curr] := digits[curr] - 1;
      runner := runner - 1;
    }
    forall i | 0 <= i < n
      ensures Place(s, key, min, i) < n && arr[..][Place(s, key, min, i)] == s[i]
    {
      BucketsAt(s, key, min, max + 1, i);
    }
    PlacesDetermine(arr[..], s, key, min, max + 1);
  }

  // CountingSort sorts by the number itself, for any sign, exactly as long as the numbers from
  // the least to the greatest can be counted in an int and the least is not INT_MIN.
  method CountingSort(arr: array<int>) returns (ok: bool)
    requires arr.Length > 0 && AllInts(arr[..])
    modifies arr
    ensures ok <==> SpanFits(old(arr[..]), Itself())
    ensures multiset(arr[..]) == multiset(old(arr[..]))
    ensures ok ==> Sorted(arr[..])
  {
    ghost var s := arr[..];
    ok := CountingSort1(arr, 0);
    assert forall i :: 0 <= i < |s| ==> DigitKey(0)(s[i]) == Itself()(s[i]) == s[i];
    if ok {
      SameGroupsSameElements(arr[..], s, DigitKey(0));
      assert forall i :: 0 <= i < arr.Length ==> DigitKey(0)(arr[..][i]) == arr[i];
    }
  }

  function Itself(): Key { x => x }

  // Two numbers that CountingSort cannot sort.
  lemma ExtremesDoNotFit()
    ensures !SpanFits([INT_LIMIT - 1, -INT_LIMIT], Itself())
  {
    assert Itself()([INT_LIMIT - 1, -INT_LIMIT][1]) == -INT_LIMIT;
  }

  lemma KeyIsInt(x: int, param: nat)
    requires IsInt(x)
    ensures IsInt(DigitKey(param)(x))
  {
    hide ToInt, ToSizeT;
  }

  // The keys of a digit always fit.
  lemma DigitsFit(s: seq<int>, param: nat)
    requires param > 0
    ensures SpanFits(s, DigitKey(param))
  {
    forall x: int ensures -MAX_KEY <= DigitKey(param)(x) <= MAX_KEY {
      hide ToInt, ToSizeT;
    }
    hide DigitKey;
  }

  // ---------------------------------------------------------------- all passes

  lemma {:induction false} GroupHoldsElement(s: seq<int>, key: Key, x: int)
    ensures multiset(Filter(s, key, key(x)))[x] == multiset(s)[x]
  {
    if s != [] {
      GroupHoldsElement(s[1..], key, x);
      assert s == [s[0]] + s[1..];
    }
  }

  // Sequences with the same groups are permutations of each other.
  lemma SameGroupsSameElements(out: seq<int>, s: seq<int>, key: Key)
    requires StablySorted(out, s, key)
    ensures multiset(out) == multiset(s)
  {
    forall x: int ensures multiset(out)[x] == multiset(s)[x] {
      GroupHoldsElement(out, key, x);
      GroupHoldsElement(s, key, x);
    }
  }

  function Modulo(m: nat): Key
    requires m > 0
  {
    x => x % m
  }

  ghost predicate NonNegativeInts(s: seq<int>) {
    forall i :: 0 <= i < |s| ==> 0 <= s[i] && IsInt(s[i])
  }

  lemma IntsKept(out: seq<int>, s: seq<int>, param: nat)
    requires StablySorted(out, s, DigitKey(param)) && AllInts(s)
    ensures AllInts(out)
  {
    SameGroupsSameElements(out, s, DigitKey(param));
    forall i | 0 <= i < |out| ensures IsInt(out[i]) {
      assert out[i] in multiset(s);
      assert out[i] in s;
    }
  }

  lemma NonNegativeKept(out: seq<int>, s: seq<int>)
    requires multiset(out) == multiset(s) && NonNegativeInts(s)
    ensures NonNegativeInts(out)
  {
    forall i | 0 <= i < |out| ensures 0 <= out[i] && IsInt(out[i]) {
      assert out[i] in multiset(s);
      assert out[i] in s;
    }
  }

  lemma DistributeTen(e: int, f: int, p: int)
    ensures (10 * e + f) * p == e * (10 * p) + f * p && (9 - f) * p == 9 * p - f * p
    ensures f >= 0 && p >= 0 ==> f * p >= 0
  {
  }

  // The low digits and the next one decide the order of the remainders.
  lemma RemainderByDigit(x: nat, p: nat)
    requires p > 0
    ensures x % (10 * p) == x / p % 10 * p + x % p
  {
    var d := x / p;
    RemainderOfParts(x, p, x % p, d / 10, d % 10);
  }

  lemma RemainderOfParts(x: nat, p: nat, r: nat, e: nat, f: nat)
    requires r < p && f < 10 && x == (10 * e + f) * p + r
    ensures x % (10 * p) == f * p + r
  {
    DistributeTen(e, f, p);
    DistributeTen(0, 9 - f, p);
    DivModUnique(x, e, 10 * p, f * p + r);
  }

  lemma DigitOrder(x: nat, y: nat, p: nat)
    requires p > 0
    ensures x / p % 10 < y / p % 10 ==> x % (10 * p) <= y % (10 * p)
    ensures x / p % 10 == y / p % 10 && x % p <= y % p ==> x % (10 * p) <= y % (10 * p)
  {
    RemainderByDigit(x, p);
    RemainderByDigit(y, p);
    LeadingDigitDecides(x / p % 10, x % p, y / p % 10, y % p, p);
  }

  lemma LeadingDigitDecides(f: int, r: int, g: int, q: int, p: nat)
    requires 0 <= r < p && 0 <= q < p
    ensures f < g ==> f * p + r <= g * p + q
  {
    MultipleIsFar(g - f, p);
    assert (g - f) * p == g * p - f * p;
  }

  // A stable pass by the next digit turns order modulo p into order modulo 10p.
  lemma PassExtendsOrder(out: seq<int>, s: seq<int>, p: nat)
    requires p > 0 && NonNegativeInts(s) && Ordered(s, Modulo(p)) && StablySorted(out, s, DigitKey(p))
    ensures Ordered(out, Modulo(10 * p))
  {
    var key := DigitKey(p);
    SameGroupsSameElements(out, s, key);
    NonNegativeKept(out, s);
    forall i, j | 0 <= i < j < |out| ensures out[i] % (10 * p) <= out[j] % (10 * p) {
      GetKeyIsDigit(out[i], p);
      GetKeyIsDigit(out[j], p);
      DigitOrder(out[i], out[j], p);
      if key(out[i]) == key(out[j]) {
        PassKeepsRank(out, s, key, Modulo(p), i, j);
      } else {
        assert key(out[i]) <= key(out[j]);
      }
    }
  }

  function Pow10(k: nat): (p: nat)
    ensures p > 0
  {
    if k == 0 then 1 else 10 * Pow10(k - 1)
  }

  function Quotient10(n: int): int { if n >= 0 then n / 10 else -(-n / 10) }

  // The number of decimal digits; 0 has none.
  function NumOfDigit(n: int): nat
    decreases Abs(n)
  {
    if n == 0 then 0 else 1 + NumOfDigit(Quotient10(n))
  }

  method GetNumOfDigit(num: int) returns (count: nat)
    ensures count == NumOfDigit(num)
  {
    var n := num;
    count := 0;
    while n != 0
      invariant count + NumOfDigit(n) == NumOfDigit(num)
      decreases Abs(n)
    {
      n := Quotient10(n);
      count := count + 1;
    }
  }

  // So many digits suffice.
  lemma {:induction false} DigitsSuffice(n: nat)
    ensures n < Pow10(NumOfDigit(n))
  {
    if n > 0 { DigitsSuffice(n / 10); }
  }

  // And no fewer would.
  lemma {:induction false} DigitsNeeded(n: nat)
    requires n > 0
    ensures NumOfDigit(n) > 0 && Pow10(NumOfDigit(n) - 1) <= n
  {
    if n >= 10 { DigitsNeeded(n / 10); }
  }

  lemma {:induction false} SignHasNoDigit(n: int)
    requires n >= 0
    ensures NumOfDigit(-n) == NumOfDigit(n)
  {
    if n > 0 { SignHasNoDigit(n / 10); }
  }

  lemma {:induction false} LargerHasMoreDigits(x: int, y: int)
    requires 0 <= x <= y || y <= x <= 0
    ensures NumOfDigit(x) <= NumOfDigit(y)
    decreases Abs(x)
  {
    if x != 0 { LargerHasMoreDigits(Quotient10(x), Quotient10(y)); }
  }

  // How many digits the longest element has.
  function MostDigits(s: seq<int>): nat {
    if s == [] then 0
    else
      var rest := MostDigits(s[1..]);
      if NumOfDigit(s[0]) > rest then NumOfDigit(s[0]) else rest
  }

  lemma {:induction false} MostDigitsBound(s: seq<int>, k: nat)
    requires forall i :: 0 <= i < |s| ==> NumOfDigit(s[i]) <= k
    ensures MostDigits(s) <= k
  {
    if s != [] {
      assert forall i :: 0 <= i < |s[1..]| ==> s[1..][i] == s[i + 1];
      MostDigitsBound(s[1..], k);
    }
  }

  lemma {:induction false} MostDigitsCovers(s: seq<int>, i: nat)
    requires i < |s|
    ensures NumOfDigit(s[i]) <= MostDigits(s)
  {
    if i > 0 { MostDigitsCovers(s[1..], i - 1); }
  }

  // The largest and the smallest element together tell it.
  lemma ExtremesHaveMostDigits(s: seq<int>, min: int, max: int)
    requires min in s && max in s && forall i :: 0 <= i < |s| ==> min <= s[i] <= max
    ensures MostDigits(s) == Max(NumOfDigit(max), NumOfDigit(min))
  {
    var k := Max(NumOfDigit(max), NumOfDigit(min));
    forall i | 0 <= i < |s| ensures NumOfDigit(s[i]) <= k {
      if s[i] >= 0 { LargerHasMoreDigits(s[i], max); } else { LargerHasMoreDigits(s[i], min); }
    }
    MostDigitsBound(s, k);
    var a :| 0 <= a < |s| && s[a] == min;
    var b :| 0 <= b < |s| && s[b] == max;
    MostDigitsCovers(s, a);
    MostDigitsCovers(s, b);
  }

  function Base(k: nat): (c: nat)
    ensures c > 0
  {
    if k == 0 then 1 else (2 * MAX_KEY + 1) * Base(k - 1)
  }

  // The keys of the first k passes, read as one number; the last pass weighs most.
  function DigitCode(k: nat): Key {
    if k == 0 then x => 0 else Combined(DigitCode(k - 1), DigitKey(Pow10(k - 1)), Base(k - 1))
  }

  lemma {:induction false} CodeInRange(k: nat, x: int)
    ensures 0 <= DigitCode(k)(x) < Base(k)
  {
    if k > 0 {
      CodeInRange(k - 1, x);
      var g, c := GetKey(x, Pow10(k - 1)) + MAX_KEY, Base(k - 1);
      assert 0 <= g <= 2 * MAX_KEY by { hide Pow10, ToInt, ToSizeT; }
      HigherKeyWins(-1, g, c);
      HigherKeyWins(g, 2 * MAX_KEY + 1, c);
    }
  }

  lemma StartStablySorted(s: seq<int>)
    ensures StablySorted(s, s, DigitCode(0))
  {
  }

  lemma ModuloOne(s: seq<int>)
    ensures Ordered(s, Modulo(1))
  {
  }

  lemma PassExtendsCode(out: seq<int>, mid: seq<int>, s: seq<int>, k: nat)
    requires StablySorted(mid, s, DigitCode(k)) && StablySorted(out, mid, DigitKey(Pow10(k)))
    ensures StablySorted(out, s, DigitCode(k + 1))
  {
    forall x: int ensures 0 <= DigitCode(k)(x) < Base(k) { CodeInRange(k, x); }
    PassesCompose(out, mid, s, DigitCode(k), DigitKey(Pow10(k)), Base(k));
  }

  method MaxAndMin(arr: array<int>) returns (max: int, min: int)
    requires arr.Length > 0
    ensures min in arr[..] && max in arr[..] && forall i :: 0 <= i < arr.Length ==> min <= arr[i] <= max
  {
    max, min := arr[0], arr[0];
    var runner := 0;
    while runner < arr.Length
      invariant 0 <= runner <= arr.Length
      invariant min in arr[..] && max in arr[..] && forall i :: 0 <= i < runner ==> min <= arr[i] <= max
    {
      if arr[runner] > max { max := arr[runner]; }
      if arr[runner] < min { min := arr[runner]; }
      runner := runner + 1;
    }
  }

  // For every non-empty array of ints the result is the stable order by the keys of all
  // passes, a permutation; it is sorted exactly when those keys agree with the values, and
  // in particular when no element is negative.
  method RadixSort(arr: array<int>)
    requires arr.Length > 0 && AllInts(arr[..])
    modifies arr
    ensures StablySorted(arr[..], old(arr[..]), DigitCode(MostDigits(old(arr[..]))))
    ensures multiset(arr[..]) == multiset(old(arr[..]))
    ensures Sorted(arr[..]) <==> KeyAgrees(old(arr[..]), DigitCode(MostDigits(old(arr[..]))))
    ensures NonNegativeInts(old(arr[..])) ==> Sorted(arr[..])
  {
    hide StablySorted, KeyAgrees, Sorted, DigitCode, MostDigits, NumOfDigit;
    hide NonNegativeInts, Ordered, AllInts, SpanFits;
    ghost var s := arr[..];
    var max, min := MaxAndMin(arr);
    var ofMax := GetNumOfDigit(max);
    var ofMin := GetNumOfDigit(min);
    var maxDigits := Max(ofMax, ofMin);
    ghost var total := maxDigits;
    ExtremesHaveMostDigits(s, min, max);
    StartStablySorted(s);
    ModuloOne(s);
    var digits := 1;
    while 0 < maxDigits
      invariant 0 <= maxDigits <= total && digits == Pow10(total - maxDigits)
      invariant AllInts(arr[..]) && StablySorted(arr[..], s, DigitCode(total - maxDigits))
      invariant NonNegativeInts(s) ==> Ordered(arr[..], Modulo(digits))
    {
      ghost var before := arr[..];
      ghost var k := total - maxDigits;
      DigitsFit(before, digits);
      var _ := CountingSort1(arr, digits);
      IntsKept(arr[..], before, digits);
      PassExtendsCode(arr[..], before, s, k);
      if NonNegativeInts(s) { PassExtendsModulo(arr[..], before, s, k); }
      digits := digits * 10;
      maxDigits := maxDigits - 1;
    }
    SameGroupsSameElements(arr[..], s, DigitCode(total));
    SortedExactly(arr[..], s, DigitCode(total));
    if NonNegativeInts(s) {
      ModuloSuffices(s, max, ofMax, total);
      RemaindersAreValues(arr[..], s, digits);
    }
  }

  lemma PassExtendsModulo(out: seq<int>, before: seq<int>, s: seq<int>, k: nat)
    requires NonNegativeInts(s) && StablySorted(before, s, DigitCode(k)) && Ordered(before, Modulo(Pow10(k)))
    requires StablySorted(out, before, DigitKey(Pow10(k)))
    ensures Ordered(out, Modulo(Pow10(k + 1)))
  {
    SameGroupsSameElements(before, s, DigitCode(k));
    NonNegativeKept(before, s);
    PassExtendsOrder(out, before, Pow10(k));
  }

  lemma ModuloSuffices(s: seq<int>, max: int, digits: nat, total: nat)
    requires NonNegativeInts(s) && max in s && digits == NumOfDigit(max) <= total
    requires forall i :: 0 <= i < |s| ==> s[i] <= max
    ensures forall i :: 0 <= i < |s| ==> s[i] < Pow10(total)
  {
    DigitsSuffice(max);
    Pow10Monotone(digits, total);
  }

  lemma {:induction false} Pow10Monotone(a: nat, b: nat)
    requires a <= b
    ensures Pow10(a) <= Pow10(b)
  {
    if a < b { Pow10Monotone(a, b - 1); }
  }

  lemma RemaindersAreValues(out: seq<int>, s: seq<int>, m: nat)
    requires m > 0 && multiset(out) == multiset(s) && NonNegativeInts(s)
    requires Ordered(out, Modulo(m)) && forall i :: 0 <= i < |s| ==> s[i] < m
    ensures Sorted(out)
  {
    forall i | 0 <= i < |out| ensures out[i] % m == out[i] {
      assert out[i] in multiset(s);
      assert out[i] in s;
      DivModUnique(out[i], 0, m, out[i]);
    }
  }

  // ---------------------------------------------------------------- reading the condition

  function LowDigits(k: nat, x: nat): nat { x % Pow10(k) }

  // On non-negative numbers the keys of k passes order like the remainders modulo 10^k.
  lemma {:induction false} CodeFollowsRemainder(k: nat, x: nat, y: nat)
    requires IsInt(x) && IsInt(y)
    ensures LowDigits(k, x) < LowDigits(k, y) ==> DigitCode(k)(x) < DigitCode(k)(y)
    ensures LowDigits(k, x) == LowDigits(k, y) ==> DigitCode(k)(x) == DigitCode(k)(y)
  {
    if k == 0 { NoDigits(x, y); }
    hide Pow10, Base, DigitCode, InFront, LowDigits;
    if k > 0 {
      CodeFollowsRemainder(k - 1, x, y);
      CodeInRange(k - 1, x);
      CodeInRange(k - 1, y);
      var f, r := LeadingDigit(k, x);
      var g, q := LeadingDigit(k, y);
      CodesCompare(f, r, g, q, Pow10(k - 1), DigitCode(k - 1)(x), DigitCode(k - 1)(y), Base(k - 1));
    }
  }

  lemma NoDigits(x: nat, y: nat)
    ensures LowDigits(0, x) == LowDigits(0, y) && DigitCode(0)(x) == DigitCode(0)(y)
  {
  }

  // A digit of this weight in front of a lower part.
  function InFront(digit: int, weight: nat, low: int): int { digit * weight + low }

  lemma LeadingDigit(k: nat, x: nat) returns (digit: nat, rest: nat)
    requires k > 0 && IsInt(x)
    ensures rest == LowDigits(k - 1, x) < Pow10(k - 1) && LowDigits(k, x) == InFront(digit, Pow10(k - 1), rest)
    ensures DigitCode(k)(x) == InFront(digit + MAX_KEY, Base(k - 1), DigitCode(k - 1)(x))
  {
    hide GetKey;
    digit, rest := x / Pow10(k - 1) % 10, x % Pow10(k - 1);
    GetKeyIsDigit(x, Pow10(k - 1));
    RemainderByDigit(x, Pow10(k - 1));
  }

  lemma CodesCompare(f: nat, r: nat, g: nat, q: nat, p: nat, a: nat, b: nat, c: nat)
    requires r < p && q < p && a < c && b < c
    requires (r < q ==> a < b) && (r == q ==> a == b)
    ensures InFront(f, p, r) < InFront(g, p, q) ==> InFront(f + MAX_KEY, c, a) < InFront(g + MAX_KEY, c, b)
    ensures InFront(f, p, r) == InFront(g, p, q) ==> InFront(f + MAX_KEY, c, a) == InFront(g + MAX_KEY, c, b)
  {
    if f < g {
      HigherKeyWins(f + MAX_KEY, g + MAX_KEY, c);
      HigherKeyWins(f, g, p);
    } else if g < f {
      HigherKeyWins(g, f, p);
    }
  }

  // Only pairs whose smaller member is negative need testing.
  lemma OnlyNegativesDecide(s: seq<int>)
    requires AllInts(s)
    ensures var code := DigitCode(MostDigits(s));
      KeyAgrees(s, code) <==>
        forall i, j :: 0 <= i < |s| && 0 <= j < |s| && s[i] < 0 && s[i] < s[j] ==>
          code(s[i]) < code(s[j]) || (code(s[i]) == code(s[j]) && i < j)
  {
    var k := MostDigits(s);
    hide DigitCode, MostDigits;
    forall i, j | 0 <= i < |s| && 0 <= j < |s| && 0 <= s[i] < s[j]
      ensures DigitCode(k)(s[i]) < DigitCode(k)(s[j])
    {
      MostDigitsCovers(s, j);
      DigitsSuffice(s[j]);
      Pow10Monotone(NumOfDigit(s[j]), k);
      DivModUnique(s[i], 0, Pow10(k), s[i]);
      DivModUnique(s[j], 0, Pow10(k), s[j]);
      CodeFollowsRemainder(k, s[i], s[j]);
    }
  }

  // Numbers of one digit always end sorted, whatever their signs.
  lemma OneDigitAgrees(s: seq<int>)
    requires forall i :: 0 <= i < |s| ==> -9 <= s[i] <= 9
    ensures KeyAgrees(s, DigitCode(MostDigits(s)))
  {
    forall i | 0 <= i < |s|
      ensures NumOfDigit(s[i]) <= 1 && DigitCode(1)(s[i]) == s[i] + MAX_KEY
      ensures NumOfDigit(s[i]) == 0 ==> s[i] == 0
    {
      OneDigitCode(s[i]);
    }
    MostDigitsBound(s, 1);
    if MostDigits(s) == 0 {
      forall i | 0 <= i < |s| ensures s[i] == 0 { MostDigitsCovers(s, i); }
    }
  }

  lemma OneDigitCode(x: int)
    requires -9 <= x <= 9
    ensures NumOfDigit(x) == (if x == 0 then 0 else 1) && DigitCode(1)(x) == x + MAX_KEY
  {
    assert Pow10(0) == 1 && Base(0) == 1 && DigitCode(0)(x) == 0;
    assert Quotient10(x) == 0;
    OneDigitKey(x);
    hide GetKey;
  }

  lemma OneDigitKey(x: int)
    requires -9 <= x <= 9
    ensures GetKey(x, 1) == x
  {
    hide ToSizeT, ToInt;
    OneDigitConverts(x);
    assert ToSizeT(x) / 1 == ToSizeT(x);
  }

  lemma OneDigitConverts(x: int)
    requires -9 <= x <= 9
    ensures ToInt(ToSizeT(x)) == x
  {
    assert ToSizeT(x) == if x < 0 then SIZE_T_RANGE + x else x;
  }

  lemma KeysOfNegatives()
    ensures GetKey(-40, 1) == 0 && GetKey(-1, 1) == -1 && GetKey(-40, 10) == -3 && GetKey(-1, 10) == -9
  {
    var high := SIZE_T_RANGE;
    assert ToSizeT(-40) == high - 40 && ToSizeT(-1) == high - 1;
    assert ToSizeT(-40) / 10 == 0x1999_9999_9999_9995 && ToSizeT(-1) / 10 == 0x1999_9999_9999_9999;
    assert ToInt(0x1999_9999_9999_9995) == -0x6666_666B && ToInt(0x1999_9999_9999_9999) == -0x6666_6667;
  }

  lemma CodesOfNegatives()
    ensures DigitCode(2)(-40) == 6 * 19 + 9 && DigitCode(2)(-1) == 8
  {
    KeysOfNegatives();
    hide GetKey;
    assert Pow10(0) == 1 && Pow10(1) == 10 && Base(0) == 1 && Base(1) == 19;
    assert DigitCode(1)(-40) == 9 && DigitCode(1)(-1) == 8;
  }

  lemma DigitsOfNegatives()
    ensures MostDigits([-40, -1]) == 2
  {
    var s := [-40, -1];
    assert s[1..] == [-1] && [-1][1..] == [];
    assert Quotient10(-1) == 0 && Quotient10(-4) == 0 && Quotient10(-40) == -4;
    assert NumOfDigit(-1) == 1 && NumOfDigit(-40) == 2;
  }

  // With negative numbers the result need not be sorted: in size_t division -1 gets a smaller
  // tens digit than -40, so the two passes over [-40, -1] make it [-1, -40].
  lemma NegativesMisordered()
    ensures MostDigits([-40, -1]) == 2
    ensures !KeyAgrees([-40, -1], DigitCode(2))
    ensures StablySorted([-1, -40], [-40, -1], DigitCode(2))
  {
    DigitsOfNegatives();
    CodesOfNegatives();
    hide GetKey, MostDigits, DigitCode;
    var s, code := [-40, -1], DigitCode(2);
    assert s[0] < s[1];
    assert [-1, -40][1..] == [-40] && s[1..] == [-1] && [-40][1..] == [] && [-1][1..] == [];
    forall v ensures Filter([-1, -40], code, v) == Filter(s, code, v) {
      assert Filter([-40], code, v) == if v == 6 * 19 + 9 then [-40] else [];
      assert Filter([-1], code, v) == if v == 8 then [-1] else [];
    }
  }
}
