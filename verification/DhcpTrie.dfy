// The address trie of the DHCP server on values: one level per host bit, built lazily, with
// a cached fullness flag in every node. At level 0 the flag is the lease itself.
module DhcpTrie {
  import opened Shared
  import opened Remainders

  datatype Trie = Null | Node(zero: Trie, one: Trie, full: bool)

  const FRESH := Node(Null, Null, false)

  function Pow2(k: nat): (p: nat)
    ensures p > 0
  {
    if k == 0 then 1 else 2 * Pow2(k - 1)
  }

  // The highest of k bits of a, and the bits below it.
  predicate High(k: nat, a: nat)
    requires 0 < k && a < Pow2(k)
  {
    a >= Pow2(k - 1)
  }

  function Low(k: nat, a: nat): (r: nat)
    requires 0 < k && a < Pow2(k)
    ensures r < Pow2(k - 1)
  {
    if High(k, a) then a - Pow2(k - 1) else a
  }

  function Child(t: Trie, high: bool): Trie
    requires t.Node?
  {
    if high then t.one else t.zero
  }

  function WithChild(t: Trie, high: bool, c: Trie): Trie
    requires t.Node?
  {
    if high then t.(one := c) else t.(zero := c)
  }

  // Address a of the k-bit space below t is leased.
  predicate Leased(t: Trie, k: nat, a: nat)
    requires a < Pow2(k)
  {
    t.Node? && if k == 0 then t.full else Leased(Child(t, High(k, a)), k - 1, Low(k, a))
  }

  // CountOccupied
  function Count(t: Trie, k: nat): (c: nat)
    ensures c <= Pow2(k)
  {
    if t.Null? then 0
    else if k == 0 then if t.full then 1 else 0
    else Count(t.zero, k - 1) + Count(t.one, k - 1)
  }

  // The trie is no deeper than k, and a node is full exactly when every address below it
  // is leased.
  predicate Ok(t: Trie, k: nat) {
    t.Node? ==>
      && (t.full <==> Count(t, k) == Pow2(k))
      && (if k == 0 then t.zero.Null? && t.one.Null? else Ok(t.zero, k - 1) && Ok(t.one, k - 1))
  }

  ghost function LeasedSet(t: Trie, k: nat): set<nat> {
    set a: nat | a < Pow2(k) && Leased(t, k, a)
  }

  ghost function Shifted(s: set<nat>, h: nat): set<nat> {
    set a | a in s :: a + h
  }

  // CountOccupied counts the leased addresses.
  lemma {:induction false} CountIsLeased(t: Trie, k: nat)
    ensures Count(t, k) == |LeasedSet(t, k)|
  {
    if t.Null? {
      assert LeasedSet(t, k) == {};
    } else if k == 0 {
      assert LeasedSet(t, 0) == if t.full then {0} else {} by {
        assert forall a: nat :: a in LeasedSet(t, 0) ==> a == 0;
        assert t.full ==> Leased(t, 0, 0);
      }
    } else {
      CountIsLeased(t.zero, k - 1);
      CountIsLeased(t.one, k - 1);
      ShiftCardinality(LeasedSet(t.one, k - 1), Pow2(k - 1));
      LeasedSplits(t, k);
    }
  }

  lemma LeasedSplits(t: Trie, k: nat)
    requires t.Node? && k > 0
    ensures var z := LeasedSet(t.zero, k - 1);
      var o := Shifted(LeasedSet(t.one, k - 1), Pow2(k - 1));
      z !! o && LeasedSet(t, k) == z + o
  {
    var z, h := LeasedSet(t.zero, k - 1), Pow2(k - 1);
    var o := Shifted(LeasedSet(t.one, k - 1), h);
    forall a: nat
      ensures a in LeasedSet(t, k) <==> a in z + o
    {
      InShifted(LeasedSet(t.one, k - 1), h, a);
      assert Pow2(k) == 2 * h;
      if a < h { assert Low(k, a) == a; } else if a < 2 * h { assert Low(k, a) == a - h && a !in z; }
    }
    forall a | a in z ensures a !in o { InShifted(LeasedSet(t.one, k - 1), h, a); }
  }

  lemma InShifted(s: set<nat>, h: nat, a: nat)
    ensures a in Shifted(s, h) <==> a >= h && a - h in s
  {
    if a >= h { assert a - h + h == a; }
  }

  lemma {:induction false} ShiftCardinality(s: set<nat>, h: nat)
    ensures |Shifted(s, h)| == |s|
  {
    if s == {} {
      assert Shifted(s, h) == {};
    } else {
      var x :| x in s;
      ShiftCardinality(s - {x}, h);
      forall a: nat
        ensures a in Shifted(s, h) <==> a in Shifted(s - {x}, h) + {x + h}
      {
        InShifted(s, h, a);
        InShifted(s - {x}, h, a);
      }
      InShifted(s - {x}, h, x + h);
      assert Shifted(s, h) == Shifted(s - {x}, h) + {x + h};
    }
  }

  lemma {:induction false} FullLeasesAll(t: Trie, k: nat, a: nat)
    requires Count(t, k) == Pow2(k) && a < Pow2(k)
    ensures Leased(t, k, a)
  {
    if k > 0 { FullLeasesAll(Child(t, High(k, a)), k - 1, Low(k, a)); }
  }

  // ---------------------------------------------------------------- allocation

  // UpdateFullness only ever sets the flag.
  function UpdateFullness(t: Trie): Trie
    requires t.Node?
  {
    if t.zero.Node? && t.zero.full && t.one.Node? && t.one.full then t.(full := true) else t
  }

  function AllocateSpecific(t: Trie, k: nat, a: nat): (r: Trie)
    requires t.Node? && a < Pow2(k)
    ensures r.Node?
    decreases k
  {
    if k == 0 then t.(full := true)
    else
      var c := Child(t, High(k, a));
      UpdateFullness(WithChild(t, High(k, a), AllocateSpecific(if c.Null? then FRESH else c, k - 1, Low(k, a))))
  }

  lemma {:induction false} SpecificLeases(t: Trie, k: nat, a: nat, b: nat)
    requires t.Node? && a < Pow2(k) && b < Pow2(k)
    ensures Leased(AllocateSpecific(t, k, a), k, b) <==> b == a || Leased(t, k, b)
    decreases k
  {
    if k > 0 && High(k, a) == High(k, b) {
      var c := Child(t, High(k, a));
      SpecificLeases(if c.Null? then FRESH else c, k - 1, Low(k, a), Low(k, b));
    }
  }

  lemma FreshIsEmpty(k: nat)
    ensures Ok(FRESH, k) && Count(FRESH, k) == 0
  {
  }

  lemma FreshLeasesNone(k: nat, a: nat)
    requires a < Pow2(k)
    ensures !Leased(FRESH, k, a)
  {
  }

  lemma {:induction false} SpecificKeeps(t: Trie, k: nat, a: nat)
    requires t.Node? && Ok(t, k) && a < Pow2(k)
    ensures Ok(AllocateSpecific(t, k, a), k)
    ensures Count(AllocateSpecific(t, k, a), k) == Count(t, k) + if Leased(t, k, a) then 0 else 1
    decreases k
  {
    if k > 0 {
      var high := High(k, a);
      var c := Child(t, high);
      FreshIsEmpty(k - 1);
      FreshLeasesNone(k - 1, Low(k, a));
      SpecificKeeps(if c.Null? then FRESH else c, k - 1, Low(k, a));
      GraftKeeps(t, k, high, AllocateSpecific(if c.Null? then FRESH else c, k - 1, Low(k, a)));
    }
  }

  // Replacing a child by one with at least as many leases.
  lemma GraftKeeps(t: Trie, k: nat, high: bool, c: Trie)
    requires k > 0 && t.Node? && Ok(t, k) && c.Node? && Ok(c, k - 1)
    requires Count(Child(t, high), k - 1) <= Count(c, k - 1)
    ensures var r := UpdateFullness(WithChild(t, high, c));
      && Ok(r, k)
      && Count(r, k) == Count(t, k) - Count(Child(t, high), k - 1) + Count(c, k - 1)
  {
  }

  // The trie after AllocateSmallestIp and the host number it leased, as the path it took.
  function AllocateSmallest(t: Trie, k: nat): Option<(Trie, nat)>
    requires t.Node?
    decreases k
  {
    if t.full then None
    else if k == 0 then Some((t.(full := true), 0))
    else
      var high := t.zero.Node? && t.zero.full;
      var c := Child(t, high);
      match AllocateSmallest(if c.Null? then FRESH else c, k - 1)
      case None => None
      case Some((c', a)) =>
        Some((UpdateFullness(WithChild(t, high, c')), if high then Pow2(k - 1) + a else a))
  }

  // It fails exactly when nothing is unleased; otherwise it leases the least unleased
  // address, as a request for that address would.
  lemma {:induction false} SmallestIsLeast(t: Trie, k: nat)
    requires t.Node? && Ok(t, k)
    ensures AllocateSmallest(t, k).None? <==> Count(t, k) == Pow2(k)
    ensures AllocateSmallest(t, k).Some? ==>
      var (r, a) := AllocateSmallest(t, k).value;
      && a < Pow2(k) && !Leased(t, k, a) && (forall b: nat :: b < a ==> Leased(t, k, b))
      && r == AllocateSpecific(t, k, a)
    decreases k
  {
    if k > 0 && !t.full {
      var high := t.zero.Node? && t.zero.full;
      var c := Child(t, high);
      FreshIsEmpty(k - 1);
      SmallestIsLeast(if c.Null? then FRESH else c, k - 1);
      var (c', a') := AllocateSmallest(if c.Null? then FRESH else c, k - 1).value;
      var (r, a) := AllocateSmallest(t, k).value;
      forall b: nat | b < a
        ensures Leased(t, k, b)
      {
        if high && b < Pow2(k - 1) { FullLeasesAll(t.zero, k - 1, b); }
        else if c.Null? { assert Leased(FRESH, k - 1, Low(k, b)); FreshLeasesNone(k - 1, Low(k, b)); }
      }
    }
  }

  // ---------------------------------------------------------------- lookup

  // IsOccupied: the loop ends at a full node, at a missing child, or below level 0; when it
  // ends at a missing child with no bits left it still answers OCCUPIED.
  predicate Occupied(t: Trie, k: nat, a: nat)
    requires a < Pow2(k)
  {
    if t.Null? then k == 0
    else t.full || (k > 0 && Occupied(Child(t, High(k, a)), k - 1, Low(k, a)))
  }

  // Every node on the way to address a exists, except the last.
  predicate OnlyLastMissing(t: Trie, k: nat, a: nat)
    requires a < Pow2(k)
  {
    if t.Null? then k == 0 else k > 0 && OnlyLastMissing(Child(t, High(k, a)), k - 1, Low(k, a))
  }

  // Every node on the way to address a exists.
  predicate HasPath(t: Trie, k: nat, a: nat)
    requires a < Pow2(k)
  {
    t.Node? && (k > 0 ==> HasPath(Child(t, High(k, a)), k - 1, Low(k, a)))
  }

  lemma {:induction false} LeasedHasPath(t: Trie, k: nat, a: nat)
    requires a < Pow2(k)
    ensures Leased(t, k, a) ==> HasPath(t, k, a)
    ensures HasPath(t, k, a) ==> !OnlyLastMissing(t, k, a)
  {
    if t.Node? && k > 0 { LeasedHasPath(Child(t, High(k, a)), k - 1, Low(k, a)); }
  }

  // IsOccupied is right about an address unless only its last node is missing; then it says
  // OCCUPIED although the address is not leased.
  lemma {:induction false} OccupiedExactly(t: Trie, k: nat, a: nat)
    requires Ok(t, k) && a < Pow2(k)
    ensures Occupied(t, k, a) <==> Leased(t, k, a) || OnlyLastMissing(t, k, a)
  {
    if t.Node? {
      if t.full { FullLeasesAll(t, k, a); }
      if k > 0 { OccupiedExactly(Child(t, High(k, a)), k - 1, Low(k, a)); }
    }
  }

  // ---------------------------------------------------------------- free

  // FreeIp clears the flag of every node on the way; it follows a null pointer if one is missing.
  function Release(t: Trie, k: nat, a: nat): (r: Trie)
    requires a < Pow2(k) && HasPath(t, k, a)
    ensures r.Node?
  {
    var c := if k == 0 then t else WithChild(t, High(k, a), Release(Child(t, High(k, a)), k - 1, Low(k, a)));
    c.(full := false)
  }

  lemma {:induction false} ReleaseLeases(t: Trie, k: nat, a: nat, b: nat)
    requires a < Pow2(k) && b < Pow2(k) && HasPath(t, k, a)
    ensures Leased(Release(t, k, a), k, b) <==> b != a && Leased(t, k, b)
  {
    if k > 0 && High(k, a) == High(k, b) {
      ReleaseLeases(Child(t, High(k, a)), k - 1, Low(k, a), Low(k, b));
    }
  }

  lemma {:induction false} ReleaseKeeps(t: Trie, k: nat, a: nat)
    requires Ok(t, k) && a < Pow2(k) && HasPath(t, k, a)
    ensures Ok(Release(t, k, a), k)
    ensures Count(Release(t, k, a), k) == Count(t, k) - if Leased(t, k, a) then 1 else 0
    ensures Count(Release(t, k, a), k) < Pow2(k)
  {
    if k > 0 { ReleaseKeeps(Child(t, High(k, a)), k - 1, Low(k, a)); }
  }

  // ---------------------------------------------------------------- which nodes exist

  // No node above level 0 is without children.
  predicate Grown(t: Trie, k: nat) {
    t.Node? && k > 0 ==> (t.zero.Node? || t.one.Node?) && Grown(t.zero, k - 1) && Grown(t.one, k - 1)
  }

  // The host number that differs from a in its last bit.
  function Sibling(a: nat): nat { if a % 2 == 0 then a + 1 else a - 1 }

  lemma SiblingBelow(k: nat, a: nat)
    requires k > 0 && a < Pow2(k)
    ensures Sibling(a) < Pow2(k)
    ensures k > 1 ==> High(k, Sibling(a)) == High(k, a) && Low(k, Sibling(a)) == Sibling(Low(k, a))
  {
    hide Sibling;
    var m, b := Halves(a);
    SiblingOf(m, b);
    if k > 1 {
      assert Pow2(k - 1) == 2 * Pow2(k - 2);
      SiblingSide(m, b, Pow2(k - 2));
    }
  }

  lemma Halves(a: nat) returns (m: nat, b: nat)
    ensures b < 2 && a == 2 * m + b
  {
    m, b := a / 2, a % 2;
  }

  lemma SiblingOf(m: nat, b: nat)
    requires b < 2
    ensures Sibling(2 * m + b) == 2 * m + 1 - b
  {
    DivModUnique(2 * m + b, m, 2, b);
  }

  // Both siblings lie on the same side of an even boundary, and are siblings seen from there.
  lemma SiblingSide(m: nat, b: nat, quarter: nat)
    requires b < 2
    ensures var a, half := 2 * m + b, 2 * quarter;
      && (a >= half <==> Sibling(a) >= half)
      && (a >= half ==> Sibling(a) - half == Sibling(a - half))
  {
    hide Sibling;
    SiblingOf(m, b);
    if m >= quarter {
      SiblingOf(m - quarter, b);
      assert 2 * (m - quarter) + b == 2 * m + b - 2 * quarter;
    }
  }

  // Only the last node on the way to an address is missing exactly when the way to its
  // sibling is complete and its own is not.
  lemma {:induction false} OnlyLastMissingExactly(t: Trie, k: nat, a: nat)
    requires k > 0 && a < Pow2(k) && Grown(t, k)
    ensures Sibling(a) < Pow2(k)
    ensures OnlyLastMissing(t, k, a) <==> !HasPath(t, k, a) && HasPath(t, k, Sibling(a))
  {
    SiblingBelow(k, a);
    if k > 1 && t.Node? {
      OnlyLastMissingExactly(Child(t, High(k, a)), k - 1, Low(k, a));
    } else if t.Node? {
      assert Pow2(1) == 2 && Low(1, a) == 0 == Low(1, Sibling(a));
    }
  }

  lemma FreshHasNoPath(k: nat, a: nat)
    requires 0 < k && a < Pow2(k)
    ensures !HasPath(FRESH, k, a)
  {
  }

  // Leasing an address creates the nodes on its way and no others.
  lemma {:induction false} SpecificPaths(t: Trie, k: nat, a: nat, b: nat)
    requires t.Node? && a < Pow2(k) && b < Pow2(k)
    ensures HasPath(AllocateSpecific(t, k, a), k, b) <==> b == a || HasPath(t, k, b)
    decreases k
  {
    if k > 0 && High(k, a) == High(k, b) {
      var c := Child(t, High(k, a));
      if c.Null? && k > 1 { FreshHasNoPath(k - 1, Low(k, b)); }
      SpecificPaths(if c.Null? then FRESH else c, k - 1, Low(k, a), Low(k, b));
    }
  }

  lemma {:induction false} SpecificGrows(t: Trie, k: nat, a: nat)
    requires t.Node? && a < Pow2(k) && (Grown(t, k) || t == FRESH)
    ensures Grown(AllocateSpecific(t, k, a), k)
    decreases k
  {
    if k > 0 {
      var c := Child(t, High(k, a));
      SpecificGrows(if c.Null? then FRESH else c, k - 1, Low(k, a));
    }
  }

  // Freeing an address removes no node.
  lemma {:induction false} ReleasePaths(t: Trie, k: nat, a: nat, b: nat)
    requires a < Pow2(k) && b < Pow2(k) && HasPath(t, k, a)
    ensures HasPath(Release(t, k, a), k, b) <==> HasPath(t, k, b)
    ensures Grown(t, k) ==> Grown(Release(t, k, a), k)
  {
    if k > 0 {
      var low := if High(k, a) == High(k, b) then Low(k, b) else 0;
      ReleasePaths(Child(t, High(k, a)), k - 1, Low(k, a), low);
    }
  }

  // ---------------------------------------------------------------- creation

  // A chain of nodes that ends in one leased address: the lowest, or the highest.
  function Chain(k: nat, high: bool): Trie {
    if k == 0 then Node(Null, Null, true) else WithChild(FRESH, high, Chain(k - 1, high))
  }

  // DhcpInit
  function Initial(k: nat): Trie {
    if k == 0 then Node(Null, Null, true) else Node(Chain(k - 1, false), Chain(k - 1, true), false)
  }

  lemma {:induction false} ChainLeases(k: nat, high: bool, a: nat)
    requires a < Pow2(k)
    ensures Leased(Chain(k, high), k, a) <==> a == if high then Pow2(k) - 1 else 0
    ensures Ok(Chain(k, high), k) && Count(Chain(k, high), k) == 1
  {
    if k > 0 {
      ChainLeases(k - 1, high, Low(k, a));
      assert !Leased(Null, k - 1, Low(k, a));
    }
  }

  lemma {:induction false} ChainPaths(k: nat, high: bool, a: nat)
    requires a < Pow2(k)
    ensures HasPath(Chain(k, high), k, a) <==> a == if high then Pow2(k) - 1 else 0
    ensures Grown(Chain(k, high), k)
  {
    if k > 0 { ChainPaths(k - 1, high, Low(k, a)); }
  }

  lemma InitialPaths(k: nat, a: nat)
    requires k > 0 && a < Pow2(k)
    ensures HasPath(Initial(k), k, a) <==> a == 0 || a == Pow2(k) - 1
    ensures Grown(Initial(k), k)
  {
    ChainPaths(k - 1, false, Low(k, a));
    ChainPaths(k - 1, true, Low(k, a));
  }

  // A new trie leases the network and the broadcast address and nothing else. Its flags are
  // right unless there is a single host bit, where the root has both children full but is
  // not marked full.
  lemma InitialLeases(k: nat, a: nat)
    requires k > 0 && a < Pow2(k)
    ensures Leased(Initial(k), k, a) <==> a == 0 || a == Pow2(k) - 1
    ensures Count(Initial(k), k) == 2
    ensures Ok(Initial(k), k) <==> k >= 2
  {
    ChainLeases(k - 1, false, Low(k, a));
    ChainLeases(k - 1, true, Low(k, a));
  }
}
