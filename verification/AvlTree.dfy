// AVL insertion on values. The field the program calls `height` is meant to hold the
// balance factor, but every rotation overwrites it with a true height; insertion is right
// because such a value is never consulted before it is recomputed.
module AvlTree {
  import opened Shared

  datatype Tree<T> = Nil | Node(left: Tree<T>, data: T, right: Tree<T>, field: int)

  // Sign of the result: positive if the first argument is the greater one.
  type Compare<!T> = (T, T) -> int

  function Height<T>(t: Tree<T>): nat {
    match t
    case Nil => 0
    case Node(l, _, r, _) => Max(1 + Height(l), 1 + Height(r))
  }

  function Size<T>(t: Tree<T>): nat {
    match t
    case Nil => 0
    case Node(l, _, r, _) => 1 + Size(l) + Size(r)
  }

  function InOrder<T>(t: Tree<T>): seq<T> {
    match t
    case Nil => []
    case Node(l, d, r, _) => InOrder(l) + ([d] + InOrder(r))
  }

  function BalanceFactor<T>(t: Tree<T>): int
    requires t.Node?
  {
    Height(t.left) - Height(t.right)
  }

  // Subtree heights differ by at most one everywhere, whatever the fields hold.
  predicate Balanced<T>(t: Tree<T>) {
    t.Node? ==> Balanced(t.left) && Balanced(t.right) && -1 <= BalanceFactor(t) <= 1
  }

  // A node over two subtrees whose field holds its true height, as rotations leave it.
  function Joined<T>(left: Tree<T>, data: T, right: Tree<T>): Tree<T> {
    Node(left, data, right, Max(1 + Height(left), 1 + Height(right)))
  }

  function RotateRight<T>(t: Tree<T>): Tree<T>
    requires t.Node? && t.left.Node?
  {
    Joined(t.left.left, t.left.data, Joined(t.left.right, t.data, t.right))
  }

  function RotateLeft<T>(t: Tree<T>): Tree<T>
    requires t.Node? && t.right.Node?
  {
    Joined(Joined(t.left, t.data, t.right.left), t.right.data, t.right.right)
  }

  // What BalanceTreeIfNeeded may be called on without following a null pointer.
  predicate Rebalanceable<T>(t: Tree<T>) {
    && t.Node?
    && (t.field > 1 ==> t.left.Node? && (t.left.field <= -1 ==> t.left.right.Node?))
    && (t.field < -1 ==> t.right.Node? && (t.right.field >= 1 ==> t.right.left.Node?))
  }

  function Rebalance<T>(t: Tree<T>): Tree<T>
    requires Rebalanceable(t)
  {
    if t.field > 1 then
      if t.left.field > -1 then RotateRight(t) else RotateRight(t.(left := RotateLeft(t.left)))
    else if t.field < -1 then
      if t.right.field < 1 then RotateLeft(t) else RotateLeft(t.(right := RotateRight(t.right)))
    else t
  }

  predicate GoesLeft<T>(cmp: Compare<T>, t: Tree<T>, x: T)
    requires t.Node?
  {
    cmp(t.data, x) > 0
  }

  // A tree that grew carries its true balance factor in the root, and leans to one side
  // unless it is a single node.
  predicate GrewFrom<T>(t: Tree<T>, r: Tree<T>) {
    && r.Node? && Height(t) <= Height(r) <= Height(t) + 1
    && (Height(r) > Height(t) ==> r.field == BalanceFactor(r) && (BalanceFactor(r) == 0 ==> Height(r) == 1))
  }

  function Insert<T>(cmp: Compare<T>, t: Tree<T>, x: T): (r: Tree<T>)
    requires Balanced(t)
    ensures Balanced(r) && GrewFrom(t, r)
    decreases t
  {
    if t.Nil? then Node(Nil, x, Nil, 0)
    else
      var n := Grafted(cmp, t, x, Insert(cmp, if GoesLeft(cmp, t, x) then t.left else t.right, x));
      RebalanceKeeps(cmp, t, x, Insert(cmp, if GoesLeft(cmp, t, x) then t.left else t.right, x));
      Rebalance(n)
  }

  // t with the subtree on the side of x replaced and the balance field recomputed.
  function Grafted<T>(cmp: Compare<T>, t: Tree<T>, x: T, sub: Tree<T>): Tree<T>
    requires t.Node?
  {
    var n := if GoesLeft(cmp, t, x) then t.(left := sub) else t.(right := sub);
    n.(field := BalanceFactor(n))
  }

  // A node two levels too heavy on the left, whose left child's field is right.
  lemma HeavyLeft<T>(n: Tree<T>)
    requires n.Node? && Balanced(n.left) && Balanced(n.right) && n.field == BalanceFactor(n) == 2
    requires n.left.field == BalanceFactor(n.left) != 0
    ensures Rebalanceable(n) && Balanced(Rebalance(n)) && Height(Rebalance(n)) == Height(n) - 1
  {
    var h := Height(n.right);
    if n.left.field > -1 {
      assert Height(n.left.left) == h + 1 && Height(n.left.right) == h;
    } else {
      assert Height(n.left.left) == h && Height(n.left.right) == h + 1;
      assert Balanced(n.left.right);
    }
  }

  lemma HeavyRight<T>(n: Tree<T>)
    requires n.Node? && Balanced(n.left) && Balanced(n.right) && n.field == BalanceFactor(n) == -2
    requires n.right.field == BalanceFactor(n.right) != 0
    ensures Rebalanceable(n) && Balanced(Rebalance(n)) && Height(Rebalance(n)) == Height(n) - 1
  {
    var h := Height(n.left);
    if n.right.field < 1 {
      assert Height(n.right.right) == h + 1 && Height(n.right.left) == h;
    } else {
      assert Height(n.right.right) == h && Height(n.right.left) == h + 1;
      assert Balanced(n.right.left);
    }
  }

  // The balance fields that BalanceTreeIfNeeded reads are true balance factors: the node's
  // own, just recomputed, and the child's, because the child grew.
  lemma RebalanceKeeps<T>(cmp: Compare<T>, t: Tree<T>, x: T, sub: Tree<T>)
    requires t.Node? && Balanced(t) && Balanced(sub)
    requires GrewFrom(if GoesLeft(cmp, t, x) then t.left else t.right, sub)
    ensures var n := Grafted(cmp, t, x, sub);
      && (n.field > 1 ==> n.left.Node? && n.left.field == BalanceFactor(n.left))
      && (n.field < -1 ==> n.right.Node? && n.right.field == BalanceFactor(n.right))
      && Rebalanceable(n) && Balanced(Rebalance(n)) && GrewFrom(t, Rebalance(n))
  {
    var n := Grafted(cmp, t, x, sub);
    if n.field > 1 {
      HeavyLeft(n);
    } else if n.field < -1 {
      HeavyRight(n);
    }
  }

  // The field of a node that a rotation lifted is a height and no balance factor: insertion
  // below a node leaves a true one in the root of the result exactly when no rotation happened
  // there.
  lemma FieldTrueUnlessRotated<T>(cmp: Compare<T>, t: Tree<T>, x: T)
    requires t.Node? && Balanced(t)
    ensures var child := if GoesLeft(cmp, t, x) then t.left else t.right;
      var n := Grafted(cmp, t, x, Insert(cmp, child, x));
      var r := Insert(cmp, t, x);
      && (r.field == BalanceFactor(r) <==> -1 <= BalanceFactor(n) <= 1)
      && (r.field != BalanceFactor(r) ==> r.field == Height(r) >= 2)
  {
    var sub := Insert(cmp, if GoesLeft(cmp, t, x) then t.left else t.right, x);
    var n := Grafted(cmp, t, x, sub);
    RebalanceKeeps(cmp, t, x, sub);
    if n.field > 1 || n.field < -1 { RotatedField(n); }
  }

  lemma RotatedField<T>(n: Tree<T>)
    requires Rebalanceable(n) && Balanced(Rebalance(n)) && !(-1 <= n.field <= 1)
    ensures var r := Rebalance(n); r.Node? && r.field == Height(r) >= 2 && r.field != BalanceFactor(r)
  {
  }

  // ---------------------------------------------------------------- order

  // A comparison function that keeps the contract of AVL_cmp_func_ty.
  ghost predicate IsOrder<T(!new)>(cmp: Compare<T>) {
    && (forall a, b :: cmp(a, b) > 0 <==> cmp(b, a) < 0)
    && (forall a, b, c :: cmp(a, b) <= 0 && cmp(b, c) <= 0 ==> cmp(a, c) <= 0)
  }

  ghost predicate Sorted<T>(cmp: Compare<T>, s: seq<T>) {
    forall i, j :: 0 <= i < j < |s| ==> cmp(s[i], s[j]) <= 0
  }

  lemma Regroup<T>(a: seq<T>, b: T, c: seq<T>, d: T, e: seq<T>)
    ensures (a + ([b] + c)) + ([d] + e) == a + ([b] + (c + ([d] + e)))
  {
  }

  lemma RotationsKeepInOrder<T>(t: Tree<T>)
    requires t.Node?
    ensures t.left.Node? ==> InOrder(RotateRight(t)) == InOrder(t)
    ensures t.right.Node? ==> InOrder(RotateLeft(t)) == InOrder(t)
  {
    hide Height;
    if t.left.Node? {
      Regroup(InOrder(t.left.left), t.left.data, InOrder(t.left.right), t.data, InOrder(t.right));
    }
    if t.right.Node? {
      Regroup(InOrder(t.left), t.data, InOrder(t.right.left), t.right.data, InOrder(t.right.right));
    }
  }

  lemma RebalanceInOrder<T>(t: Tree<T>)
    requires Rebalanceable(t)
    ensures InOrder(Rebalance(t)) == InOrder(t)
  {
    RotationsKeepInOrder(t);
    if t.field > 1 && t.left.field <= -1 {
      RotationsKeepInOrder(t.left);
      RotationsKeepInOrder(t.(left := RotateLeft(t.left)));
    } else if t.field < -1 && t.right.field >= 1 {
      RotationsKeepInOrder(t.right);
      RotationsKeepInOrder(t.(right := RotateRight(t.right)));
    }
  }

  function InsertAt<T>(s: seq<T>, k: nat, x: T): seq<T>
    requires k <= |s|
  {
    s[..k] + [x] + s[k..]
  }

  lemma InsertAtParts<T>(a: seq<T>, b: seq<T>, k: nat, x: T)
    ensures k <= |a| ==> InsertAt(a, k, x) + b == InsertAt(a + b, k, x)
    ensures k <= |b| ==> a + InsertAt(b, k, x) == InsertAt(a + b, |a| + k, x)
  {
    if k <= |a| { assert (a + b)[..k] == a[..k] && (a + b)[k..] == a[k..] + b; }
    if k <= |b| { assert (a + b)[..|a| + k] == a + b[..k] && (a + b)[|a| + k..] == b[k..]; }
  }

  // Where the descent for x leaves the tree, as an in-order position.
  function Position<T>(cmp: Compare<T>, t: Tree<T>, x: T): (k: nat)
    ensures k <= |InOrder(t)|
  {
    if t.Nil? then 0
    else if GoesLeft(cmp, t, x) then Position(cmp, t.left, x)
    else |InOrder(t.left)| + 1 + Position(cmp, t.right, x)
  }

  // Insertion adds x to the in-order sequence and moves nothing, for any tree and comparison.
  lemma {:induction false} InsertInOrder<T>(cmp: Compare<T>, t: Tree<T>, x: T)
    requires Balanced(t)
    ensures InOrder(Insert(cmp, t, x)) == InsertAt(InOrder(t), Position(cmp, t, x), x)
    decreases t
  {
    hide Height, Rebalance, InsertAt;
    if t.Nil? {
      SingletonInsert(x);
    } else {
      var child := if GoesLeft(cmp, t, x) then t.left else t.right;
      var sub := Insert(cmp, child, x);
      RebalanceKeeps(cmp, t, x, sub);
      RebalanceInOrder(Grafted(cmp, t, x, sub));
      InsertInOrder(cmp, child, x);
      GraftedInOrder(cmp, t, x, sub);
    }
  }

  lemma SingletonInsert<T>(x: T)
    ensures InsertAt([], 0, x) == [x]
  {
  }

  lemma GraftedInOrder<T>(cmp: Compare<T>, t: Tree<T>, x: T, sub: Tree<T>)
    requires t.Node?
    requires var child := if GoesLeft(cmp, t, x) then t.left else t.right;
      InOrder(sub) == InsertAt(InOrder(child), Position(cmp, child, x), x)
    ensures InOrder(Grafted(cmp, t, x, sub)) == InsertAt(InOrder(t), Position(cmp, t, x), x)
  {
    hide Height, InsertAt;
    var l, r := InOrder(t.left), [t.data] + InOrder(t.right);
    if GoesLeft(cmp, t, x) {
      InsertAtParts(l, r, Position(cmp, t.left, x), x);
    } else {
      InsertAtParts([t.data], InOrder(t.right), Position(cmp, t.right, x), x);
      InsertAtParts(l, r, 1 + Position(cmp, t.right, x), x);
    }
  }

  // The elements of s that are not greater than x are exactly its first k.
  ghost predicate Cut<T>(cmp: Compare<T>, s: seq<T>, k: nat, x: T) {
    k <= |s| && forall i :: 0 <= i < |s| ==> (cmp(s[i], x) <= 0 <==> i < k)
  }

  lemma AtMostTransitive<T(!new)>(cmp: Compare<T>, a: T, b: T, c: T)
    requires IsOrder(cmp)
    ensures cmp(a, b) <= 0 && cmp(b, c) <= 0 ==> cmp(a, c) <= 0
  {
  }

  // Around an element d of a sorted sequence: if d is greater than x so is all that follows,
  // otherwise nothing before d is greater than x.
  lemma SortedSides<T(!new)>(cmp: Compare<T>, l: seq<T>, d: T, r: seq<T>, x: T)
    requires IsOrder(cmp) && Sorted(cmp, l + ([d] + r))
    ensures Sorted(cmp, l) && Sorted(cmp, r)
    ensures cmp(d, x) > 0 ==> forall i :: 0 <= i < |r| ==> cmp(r[i], x) > 0
    ensures cmp(d, x) <= 0 ==> forall i :: 0 <= i < |l| ==> cmp(l[i], x) <= 0
  {
    hide IsOrder;
    var s := l + ([d] + r);
    assert s[|l|] == d;
    assert forall i :: 0 <= i < |l| ==> l[i] == s[i];
    assert forall i :: 0 <= i < |r| ==> r[i] == s[|l| + 1 + i];
    forall i | 0 <= i < |r| && cmp(d, x) > 0 ensures cmp(r[i], x) > 0 {
      assert cmp(s[|l|], s[|l| + 1 + i]) <= 0;
      AtMostTransitive(cmp, d, r[i], x);
    }
    forall i | 0 <= i < |l| && cmp(d, x) <= 0 ensures cmp(l[i], x) <= 0 {
      assert cmp(s[i], s[|l|]) <= 0;
      AtMostTransitive(cmp, l[i], d, x);
    }
  }

  // In a sorted tree the position is after exactly the elements that are not greater than x.
  lemma {:induction false} PositionSorted<T(!new)>(cmp: Compare<T>, t: Tree<T>, x: T)
    requires IsOrder(cmp) && Sorted(cmp, InOrder(t))
    ensures Cut(cmp, InOrder(t), Position(cmp, t, x), x)
  {
    hide IsOrder, Sorted;
    if t.Node? {
      var l, r := InOrder(t.left), InOrder(t.right);
      SortedSides(cmp, l, t.data, r, x);
      PositionSorted(cmp, if GoesLeft(cmp, t, x) then t.left else t.right, x);
      var s := l + ([t.data] + r);
      assert forall i :: 0 <= i < |s| ==> s[i] == if i < |l| then l[i] else if i == |l| then t.data else r[i - |l| - 1];
    }
  }

  lemma InsertAtSorted<T(!new)>(cmp: Compare<T>, s: seq<T>, k: nat, x: T)
    requires IsOrder(cmp) && Sorted(cmp, s) && Cut(cmp, s, k, x)
    ensures Sorted(cmp, InsertAt(s, k, x))
  {
    var r := InsertAt(s, k, x);
    forall i, j | 0 <= i < j < |r| ensures cmp(r[i], r[j]) <= 0 {
      assert i < k ==> r[i] == s[i];
      assert j > k ==> r[j] == s[j - 1];
      if i > k { assert r[i] == s[i - 1]; }
    }
  }

  // Inserting into a sorted tree leaves it sorted.
  lemma InsertKeepsSorted<T(!new)>(cmp: Compare<T>, t: Tree<T>, x: T)
    requires Balanced(t) && IsOrder(cmp) && Sorted(cmp, InOrder(t))
    ensures Sorted(cmp, InOrder(Insert(cmp, t, x)))
  {
    InsertInOrder(cmp, t, x);
    PositionSorted(cmp, t, x);
    InsertAtSorted(cmp, InOrder(t), Position(cmp, t, x), x);
  }

  // ---------------------------------------------------------------- find

  // NodeFind returns the key it was given, not the element it found.
  function Find<T>(cmp: Compare<T>, t: Tree<T>, key: T): Option<T> {
    if t.Nil? then None
    else if cmp(t.data, key) == 0 then Some(key)
    else Find(cmp, if GoesLeft(cmp, t, key) then t.left else t.right, key)
  }

  // The comparison calls some element of s equal to the key.
  ghost predicate Has<T>(cmp: Compare<T>, s: seq<T>, key: T) {
    exists i :: 0 <= i < |s| && cmp(s[i], key) == 0
  }

  // Around an element that differs from the key, only one side can have the key.
  lemma HasOnSide<T(!new)>(cmp: Compare<T>, l: seq<T>, d: T, r: seq<T>, key: T)
    requires IsOrder(cmp) && Sorted(cmp, l + ([d] + r)) && cmp(d, key) != 0
    ensures Has(cmp, l + ([d] + r), key) <==> Has(cmp, if cmp(d, key) > 0 then l else r, key)
  {
    var s := l + ([d] + r);
    assert s[|l|] == d;
    assert forall i :: 0 <= i < |l| ==> l[i] == s[i];
    assert forall i :: 0 <= i < |r| ==> r[i] == s[|l| + 1 + i];
    if i :| 0 <= i < |s| && cmp(s[i], key) == 0 {
      if i < |l| { assert cmp(s[i], s[|l|]) <= 0; } else { assert cmp(s[|l|], s[i]) <= 0 && s[i] == r[i - |l| - 1]; }
    }
  }

  // In a sorted tree an element equal to the key is found wherever rotations have put it.
  lemma {:induction false} FindExactly<T(!new)>(cmp: Compare<T>, t: Tree<T>, key: T)
    requires IsOrder(cmp) && Sorted(cmp, InOrder(t))
    ensures Find(cmp, t, key) == if Has(cmp, InOrder(t), key) then Some(key) else None
  {
    hide IsOrder, Sorted;
    if t.Node? {
      var l, r := InOrder(t.left), InOrder(t.right);
      if cmp(t.data, key) == 0 {
        assert InOrder(t)[|l|] == t.data;
      } else {
        HasOnSide(cmp, l, t.data, r, key);
        SortedSides(cmp, l, t.data, r, key);
        FindExactly(cmp, if GoesLeft(cmp, t, key) then t.left else t.right, key);
      }
    }
  }

  // ---------------------------------------------------------------- trees built by inserts

  function Build<T>(cmp: Compare<T>, xs: seq<T>): (t: Tree<T>)
    ensures Balanced(t)
  {
    if xs == [] then Nil else Insert(cmp, Build(cmp, xs[..|xs| - 1]), xs[|xs| - 1])
  }

  function Fib(n: nat): nat {
    if n < 2 then n else Fib(n - 1) + Fib(n - 2)
  }

  lemma {:induction false} FibMonotone(m: nat, n: nat)
    requires m <= n
    ensures Fib(m) <= Fib(n)
    decreases n
  {
    if m < n {
      if n >= 2 { FibMonotone(if m == n - 1 then m else n - 2, n - 1); }
      if m < n - 1 { FibMonotone(m, n - 1); }
    }
  }

  // A balanced tree of a given height has at least this many nodes.
  lemma {:induction false} SizeAtLeastFib<T>(t: Tree<T>)
    requires Balanced(t)
    ensures Size(t) + 1 >= Fib(Height(t) + 2)
  {
    if t.Node? {
      SizeAtLeastFib(t.left);
      SizeAtLeastFib(t.right);
      var h := Height(t);
      if Height(t.left) == h - 1 {
        FibMonotone(h, Height(t.right) + 2);
      } else {
        FibMonotone(h, Height(t.left) + 2);
      }
    }
  }

  lemma {:induction false} SizeIsLength<T>(t: Tree<T>)
    ensures |InOrder(t)| == Size(t)
  {
    if t.Node? {
      SizeIsLength(t.left);
      SizeIsLength(t.right);
    }
  }

  lemma InsertAtMultiset<T>(s: seq<T>, k: nat, x: T)
    requires k <= |s|
    ensures multiset(InsertAt(s, k, x)) == multiset(s) + multiset{x}
  {
    assert s == s[..k] + s[k..];
  }

  lemma InsertHolds<T>(cmp: Compare<T>, t: Tree<T>, x: T)
    requires Balanced(t)
    ensures multiset(InOrder(Insert(cmp, t, x))) == multiset(InOrder(t)) + multiset{x}
    ensures Size(Insert(cmp, t, x)) == Size(t) + 1
  {
    InsertInOrder(cmp, t, x);
    InsertAtMultiset(InOrder(t), Position(cmp, t, x), x);
    SizeIsLength(t);
    SizeIsLength(Insert(cmp, t, x));
  }

  lemma {:induction false} BuildHolds<T>(cmp: Compare<T>, xs: seq<T>)
    ensures multiset(InOrder(Build(cmp, xs))) == multiset(xs) && Size(Build(cmp, xs)) == |xs|
  {
    hide Insert, Balanced, GrewFrom, Height, InOrder, Size;
    if xs == [] {
      BuildNothing(cmp);
      assert xs == [];
    } else {
      var n := |xs| - 1;
      var before := Build(cmp, xs[..n]);
      BuildHolds(cmp, xs[..n]);
      InsertHolds(cmp, before, xs[n]);
      assert multiset(xs) == multiset(xs[..n]) + multiset{xs[n]} by { assert xs == xs[..n] + [xs[n]]; }
    }
  }

  lemma BuildNothing<T>(cmp: Compare<T>)
    ensures InOrder(Build(cmp, [])) == [] && Size(Build(cmp, [])) == 0
  {
  }

  lemma {:induction false} BuildSorted<T(!new)>(cmp: Compare<T>, xs: seq<T>)
    requires IsOrder(cmp)
    ensures Sorted(cmp, InOrder(Build(cmp, xs)))
  {
    if xs != [] {
      BuildSorted(cmp, xs[..|xs| - 1]);
      InsertKeepsSorted(cmp, Build(cmp, xs[..|xs| - 1]), xs[|xs| - 1]);
    }
  }

  // Any tree built by inserts is balanced, holds exactly the inserted elements in order,
  // finds exactly what was inserted, and is of logarithmic height.
  lemma BuiltTree<T(!new)>(cmp: Compare<T>, xs: seq<T>, key: T)
    requires IsOrder(cmp)
    ensures var t := Build(cmp, xs);
      && Balanced(t) && Sorted(cmp, InOrder(t)) && multiset(InOrder(t)) == multiset(xs)
      && |xs| + 1 >= Fib(Height(t) + 2)
      && (Find(cmp, t, key) == Some(key) <==> Has(cmp, xs, key))
  {
    hide *;
    BuildHolds(cmp, xs);
    BuildSorted(cmp, xs);
    ContentsDecide(cmp, Build(cmp, xs), xs, key);
  }

  lemma ContentsDecide<T(!new)>(cmp: Compare<T>, t: Tree<T>, xs: seq<T>, key: T)
    requires IsOrder(cmp) && Balanced(t) && Sorted(cmp, InOrder(t))
    requires multiset(InOrder(t)) == multiset(xs) && Size(t) == |xs|
    ensures |xs| + 1 >= Fib(Height(t) + 2)
    ensures Find(cmp, t, key) == Some(key) <==> Has(cmp, xs, key)
  {
    SizeAtLeastFib(t);
    FindExactly(cmp, t, key);
    HasDependsOnElements(cmp, InOrder(t), xs, key);
    HasDependsOnElements(cmp, xs, InOrder(t), key);
  }

  lemma HasDependsOnElements<T>(cmp: Compare<T>, s: seq<T>, s': seq<T>, key: T)
    requires multiset(s) == multiset(s')
    ensures Has(cmp, s, key) ==> Has(cmp, s', key)
  {
    if i :| 0 <= i < |s| && cmp(s[i], key) == 0 {
      assert s[i] in multiset(s');
      assert s[i] in s';
    }
  }
}
