// The DHCP server as the program runs it: trie nodes changed in place, the address assembled
// bit by bit in a 32-bit register. Each method is proved against DhcpTrie and DhcpServer.
module Dhcp {
  import opened Shared
  import opened Remainders
  import opened DhcpTrie
  import opened DhcpServer

  const IP_LENGTH := 32
  const WORD := 0x1_0000_0000

  class TrieNode {
    var zero: TrieNode?
    var one: TrieNode?
    var isFull: bool
    ghost var Repr: set<object>
    ghost var Value: Trie

    ghost predicate Valid()
      reads this, Repr
      ensures Valid() ==> this in Repr && Value.Node?
      decreases Repr
    {
      && this in Repr
      && (zero != null ==> zero in Repr && zero.Repr <= Repr && this !in zero.Repr && zero.Valid())
      && (one != null ==> one in Repr && one.Repr <= Repr && this !in one.Repr && one.Valid())
      && (zero != null && one != null ==> zero.Repr !! one.Repr)
      && Value == Node(if zero == null then Null else zero.Value, if one == null then Null else one.Value, isFull)
    }

    // NodeCreate
    constructor ()
      ensures Valid() && fresh(Repr) && Value == FRESH
    {
      zero, one, isFull := null, null, false;
      Repr := {this};
      Value := FRESH;
    }
  }

  ghost predicate ValidTrie(node: TrieNode?)
    reads node, if node == null then {} else node.Repr
  {
    node != null ==> node.Valid()
  }

  ghost function Value(node: TrieNode?): Trie
    reads node
  {
    if node == null then Null else node.Value
  }

  ghost function Repr(node: TrieNode?): set<object>
    reads node
  {
    if node == null then {} else node.Repr
  }

  // Bit k - 1 of an address, as the shifts of the code compute it.
  predicate Bit(ip: nat, k: nat)
    requires k > 0
  {
    ip / Pow2(k - 1) % 2 == 1
  }

  lemma BitIsHigh(ip: nat, k: nat)
    requires k > 0
    ensures Bit(ip, k) == High(k, HostPart(ip, k)) && HostPart(ip, k - 1) == Low(k, HostPart(ip, k))
  {
    TopBit(ip, Pow2(k - 1));
  }

  // Puts a child in place and recomputes the ghost fields.
  method SetChild(node: TrieNode, high: bool, c: TrieNode)
    requires c.Valid() && ValidTrie(if high then node.zero else node.one)
    requires var other := if high then node.zero else node.one;
      c.Repr !! Repr(other) && node !in c.Repr && node !in Repr(other)
    modifies node
    ensures node.Valid() && node.isFull == old(node.isFull)
    ensures var other := if high then old(node.zero) else old(node.one);
      && node.Repr <= {node} + old(c.Repr) + old(Repr(other))
      && node.Value == if high then Node(old(Value(other)), old(c.Value), node.isFull)
                       else Node(old(c.Value), old(Value(other)), node.isFull)
  {
    if high { node.one := c; } else { node.zero := c; }
    node.Repr := {node} + Repr(node.zero) + Repr(node.one);
    node.Value := Node(Value(node.zero), Value(node.one), node.isFull);
  }

  method SetFull(node: TrieNode, full: bool)
    requires node.Valid()
    modifies node`isFull, node`Value
    ensures node.Valid() && node.Value == old(node.Value).(full := full)
  {
    node.isFull := full;
    node.Value := node.Value.(full := full);
  }

  method UpdateNodeFullness(node: TrieNode)
    requires node.Valid()
    modifies node`isFull, node`Value
    ensures node.Valid() && node.Value == UpdateFullness(old(node.Value))
  {
    if node.zero != null && node.zero.isFull && node.one != null && node.one.isFull {
      SetFull(node, true);
    }
  }

  // Puts a child in place on the way back from it; what was leased below may have filled the node.
  method ReturnToNode(node: TrieNode, high: bool, c: TrieNode, leased: bool)
    requires c.Valid() && ValidTrie(if high then node.zero else node.one)
    requires var other := if high then node.zero else node.one;
      c.Repr !! Repr(other) && node !in c.Repr && node !in Repr(other)
    modifies node
    ensures node.Valid()
    ensures var other := if high then old(node.zero) else old(node.one);
      var t := if high then Node(old(Value(other)), old(c.Value), old(node.isFull))
               else Node(old(c.Value), old(Value(other)), old(node.isFull));
      && node.Repr <= {node} + old(c.Repr) + old(Repr(other))
      && node.Value == if leased then UpdateFullness(t) else t
  {
    SetChild(node, high, c);
    if leased { UpdateNodeFullness(node); }
  }

  method AllocateSpecificIp(node: TrieNode, reqIp: nat, numOfBits: nat)
    requires node.Valid()
    modifies node.Repr
    ensures node.Valid() && fresh(node.Repr - old(node.Repr))
    ensures node.Value == AllocateSpecific(old(node.Value), numOfBits, HostPart(reqIp, numOfBits))
    decreases numOfBits
  {
    if numOfBits == 0 {
      SetFull(node, true);
    } else {
      BitIsHigh(reqIp, numOfBits);
      var high := Bit(reqIp, numOfBits);
      var c := if high then node.one else node.zero;
      if c == null { c := new TrieNode(); }
      AllocateSpecificIp(c, reqIp, numOfBits - 1);
      ReturnToNode(node, high, c, true);
    }
  }

  lemma {:induction false} Pow2Sum(a: nat, b: nat)
    ensures Pow2(a + b) == Pow2(a) * Pow2(b)
  {
    if a > 0 {
      Pow2Sum(a - 1, b);
      assert Pow2(a) * Pow2(b) == 2 * (Pow2(a - 1) * Pow2(b));
    }
  }

  lemma WordIsPow2()
    ensures Pow2(IP_LENGTH) == WORD
  {
    assert Pow2(8) == 0x100;
    Pow2Sum(8, 8);
    Pow2Sum(16, 16);
  }

  // The register after the path of host number a was shifted in from the top.
  function Assembled(a: nat, reg: nat, k: nat): nat
    requires k <= IP_LENGTH
  {
    AboveAndBelow(a, Pow2(IP_LENGTH - k), reg, Pow2(k))
  }

  function AboveAndBelow(a: nat, q: nat, reg: nat, p: nat): nat
    requires p > 0
  {
    a * q + reg / p
  }

  lemma Pow2Doubles(k: nat)
    requires k > 0
    ensures Pow2(k) == 2 * Pow2(k - 1)
  {
  }

  // One shift to the right with the path's bit entering at the top of the register.
  lemma AssembleBit(a: nat, reg: nat, k: nat, high: bool)
    requires 0 < k <= IP_LENGTH
    ensures Assembled(a, reg, k - 1) / 2 + (if high then Pow2(IP_LENGTH - 1) else 0)
         == Assembled(if high then Pow2(k - 1) + a else a, reg, k)
  {
    hide Pow2;
    var q, p := Pow2(IP_LENGTH - k), Pow2(k - 1);
    Pow2Doubles(k);
    Pow2Doubles(IP_LENGTH - (k - 1));
    TopBit(reg, p);
    Pow2Sum(k - 1, IP_LENGTH - k);
    assert a * (2 * q) == 2 * (a * q);
    assert (p + a) * q == p * q + a * q;
  }

  // The register after k shifts and the final shift by the network length holds the host
  // number alone, whatever was in it before.
  lemma AssembledHost(a: nat, reg: nat, k: nat)
    requires k <= IP_LENGTH && reg < WORD
    ensures Assembled(a, reg, k) / Pow2(IP_LENGTH - k) == a
  {
    hide Pow2;
    WordIsPow2();
    Pow2Sum(k, IP_LENGTH - k);
    AbovePart(a, Pow2(IP_LENGTH - k), reg, Pow2(k));
  }

  lemma AbovePart(a: nat, q: nat, reg: nat, p: nat)
    requires p > 0 && reg < p * q
    ensures q > 0 && AboveAndBelow(a, q, reg, p) / q == a
  {
    QuotientBound(reg, p, q);
    DivModUnique(AboveAndBelow(a, q, reg, p), a, q, reg / p);
  }

  lemma QuotientBound(x: nat, p: nat, q: nat)
    requires p > 0 && x < p * q
    ensures x / p < q
  {
  }

  lemma {:induction false} FreshHasRoom(k: nat)
    ensures AllocateSmallest(FRESH, k).Some?
  {
    if k > 0 { FreshHasRoom(k - 1); }
  }

  lemma AssembledStart(reg: nat)
    ensures Assembled(0, reg, 0) == reg
  {
  }

  // One level of the search.
  lemma SmallestBelow(t: Trie, k: nat)
    requires t.Node? && !t.full && k > 0
    ensures var high := t.zero.Node? && t.zero.full;
      var c := Child(t, high);
      var below := AllocateSmallest(if c.Null? then FRESH else c, k - 1);
      && (c.Null? ==> below.Some?)
      && AllocateSmallest(t, k) ==
           if below.None? then None
           else Some((UpdateFullness(WithChild(t, high, below.value.0)),
                      if high then Pow2(k - 1) + below.value.1 else below.value.1))
  {
    FreshHasRoom(k - 1);
  }

  lemma SmallestHere(t: Trie, k: nat)
    requires t.Node? && (t.full || k == 0)
    ensures AllocateSmallest(t, k) == if t.full then None else Some((t.(full := true), 0))
  {
  }

  // AllocateSmallestIp; reg is *allocated_ip, shifted once per level on the way back.
  method AllocateSmallestIp(node: TrieNode, reg: nat, numOfBits: nat) returns (ok: bool, reg': nat)
    requires node.Valid() && numOfBits <= IP_LENGTH
    modifies node.Repr
    ensures node.Valid() && fresh(node.Repr - old(node.Repr))
    ensures match AllocateSmallest(old(node.Value), numOfBits)
      case None => !ok && node.Value == old(node.Value) && reg' == reg
      case Some((t, a)) => ok && node.Value == t && reg' == Assembled(a, reg, numOfBits)
    decreases numOfBits
  {
    hide Pow2, Assembled, AllocateSmallest, UpdateFullness;
    if node.isFull || numOfBits == 0 {
      SmallestHere(node.Value, numOfBits);
    } else {
      SmallestBelow(node.Value, numOfBits);
    }
    if node.isFull { return false, reg; }
    if numOfBits == 0 {
      SetFull(node, true);
      assert Assembled(0, reg, 0) == reg by { AssembledStart(reg); }
      return true, reg;
    }
    var high := node.zero != null && node.zero.isFull;
    var c := if high then node.one else node.zero;
    if c == null {
      c := new TrieNode();
    }
    ghost var before := c.Value;
    ok, reg' := AllocateSmallestIp(c, reg, numOfBits - 1);
    ReturnToNode(node, high, c, ok);
    if ok {
      var a := AllocateSmallest(before, numOfBits - 1).value.1;
      AssembleBit(a, reg, numOfBits, high);
      reg' := reg' / 2 + if high then Pow2(IP_LENGTH - 1) else 0;
    }
  }

  method FreeIpNode(node: TrieNode, reqIp: nat, numOfBits: nat)
    requires node.Valid() && HasPath(node.Value, numOfBits, HostPart(reqIp, numOfBits))
    modifies node.Repr
    ensures node.Valid() && fresh(node.Repr - old(node.Repr))
    ensures node.Value == Release(old(node.Value), numOfBits, HostPart(reqIp, numOfBits))
    decreases numOfBits
  {
    if numOfBits > 0 {
      BitIsHigh(reqIp, numOfBits);
      var high := Bit(reqIp, numOfBits);
      var c := if high then node.one else node.zero;
      FreeIpNode(c, reqIp, numOfBits - 1);
      SetChild(node, high, c);
    }
    SetFull(node, false);
  }

  method CountOccupied(node: TrieNode?, numOfBits: int, count: nat) returns (count': nat)
    requires ValidTrie(node) && numOfBits >= -1 && (numOfBits == -1 ==> node == null)
    requires numOfBits >= 0 ==> Ok(Value(node), numOfBits)
    ensures count' == count + if numOfBits >= 0 then Count(Value(node), numOfBits) else 0
    decreases Repr(node)
  {
    if node == null { return count; }
    if numOfBits == 0 && node.isFull { return count + 1; }
    count' := CountOccupied(node.zero, numOfBits - 1, count);
    count' := CountOccupied(node.one, numOfBits - 1, count');
  }

  // Bitwise or, as in `sub_net | host`.
  function Or(x: nat, y: nat): nat {
    if x == 0 then y else if y == 0 then x
    else 2 * Or(x / 2, y / 2) + if x % 2 == 1 || y % 2 == 1 then 1 else 0
  }

  // A bit of the result is set exactly if it is set in one of the two.
  lemma {:induction false} OrByBits(x: nat, y: nat, k: nat)
    requires k > 0
    ensures Bit(Or(x, y), k) <==> Bit(x, k) || Bit(y, k)
  {
    hide Bit, Or, Pow2;
    var h, i := x / 2, y / 2;
    OrHalves(x, y);
    BitHalf(x, k);
    BitHalf(y, k);
    BitHalf(Or(x, y), k);
    if k > 1 { OrByBits(h, i, k - 1); }
  }

  lemma OrHalves(x: nat, y: nat)
    ensures Or(x, y) / 2 == Or(x / 2, y / 2) && (Or(x, y) % 2 == 1 <==> x % 2 == 1 || y % 2 == 1)
  {
    if x == 0 { assert Or(0, y / 2) == y / 2; }
    else if y == 0 { assert Or(x / 2, 0) == x / 2; }
  }

  lemma BitHalf(x: nat, k: nat)
    requires k > 0
    ensures Bit(x, k) <==> if k == 1 then x % 2 == 1 else Bit(x / 2, k - 1)
  {
    if k == 1 { assert Pow2(0) == 1 && x / 1 == x; } else { HalfFirst(x, k - 1); }
  }

  lemma HalfFirst(x: nat, j: nat)
    requires j > 0
    ensures x / Pow2(j) == x / 2 / Pow2(j - 1)
  {
    Pow2Doubles(j);
    QuotientOfHalf(x, Pow2(j - 1));
  }

  lemma QuotientOfHalf(x: nat, p: nat)
    requires p > 0
    ensures x / (2 * p) == x / 2 / p
  {
    var h, b := x / 2, x % 2;
    var q, r := h / p, h % p;
    assert h == q * p + r;
    assert 2 * (q * p) == q * (2 * p);
    DivModUnique(x, q, 2 * p, 2 * r + b);
  }

  // With a network part that is clear in the host bits, the address is network plus host.
  lemma {:induction false} OrIsSum(host: nat, net: nat, k: nat)
    requires host < Pow2(k) && net % Pow2(k) == 0
    ensures Or(host, net) == host + net
  {
    if host != 0 && net != 0 {
      TopBit(net, 1);
      EvenQuotient(net, Pow2(k - 1));
      OrIsSum(host / 2, net / 2, k - 1);
    }
  }

  lemma EvenQuotient(x: nat, p: nat)
    requires p > 0 && x % (2 * p) == 0
    ensures x % 2 == 0 && x / 2 % p == 0
  {
    var q := x / (2 * p);
    assert x == q * (2 * p) == 2 * (q * p);
    DivModUnique(x / 2, q, p, 0);
  }

  class DhcpService {
    const root: TrieNode
    const subNet: nat
    const hostBits: nat

    ghost predicate Valid()
      reads root, root.Repr
    {
      root.Valid() && Ok(root.Value, hostBits) && 2 <= hostBits <= IP_LENGTH
    }

    // The chain DhcpInit hangs below one child of the root.
    static method NewChain(k: nat, high: bool) returns (node: TrieNode)
      ensures node.Valid() && fresh(node.Repr) && node.Value == Chain(k, high)
    {
      node := new TrieNode();
      if k == 0 {
        SetFull(node, true);
      } else {
        var c := NewChain(k - 1, high);
        SetChild(node, high, c);
      }
    }

    // DhcpInit
    static method NewRoot(k: nat) returns (node: TrieNode)
      requires k > 0
      ensures node.Valid() && fresh(node.Repr) && node.Value == Initial(k)
    {
      hide Chain;
      var zero := NewChain(k - 1, false);
      var one := NewChain(k - 1, true);
      node := new TrieNode();
      SetChild(node, false, zero);
      SetChild(node, true, one);
    }

    // DhcpCreate
    constructor (subNet: nat, hostBits: nat)
      requires 2 <= hostBits <= IP_LENGTH
      ensures Valid() && fresh(root.Repr) && root.Value == Initial(hostBits)
      ensures this.subNet == subNet && this.hostBits == hostBits
    {
      var r := DhcpService.NewRoot(hostBits);
      root := r;
      this.subNet := subNet;
      this.hostBits := hostBits;
      new;
      InitialLeases(hostBits, 0);
    }

    // requested_ip << SUBNET_LENGTH >> SUBNET_LENGTH in 32 bits
    method MaskHost(ip: nat) returns (req: nat)
      requires hostBits <= IP_LENGTH
      ensures req == HostPart(ip, hostBits)
    {
      hide Pow2;
      WordIsPow2();
      Pow2Sum(hostBits, IP_LENGTH - hostBits);
      DivModTimes(ip, Pow2(IP_LENGTH - hostBits), Pow2(hostBits));
      req := ip * Pow2(IP_LENGTH - hostBits) % WORD / Pow2(IP_LENGTH - hostBits);
    }

    method IsOccupied(reqIp: nat) returns (occupied: bool)
      requires Valid()
      ensures occupied == Occupied(root.Value, hostBits, HostPart(reqIp, hostBits))
    {
      var runner: TrieNode? := root;
      var numOfBits: int := hostBits;
      while 0 < numOfBits + 1 && runner != null
        invariant -1 <= numOfBits <= hostBits && ValidTrie(runner)
        invariant numOfBits == -1 ==> runner == null
        invariant numOfBits >= 0 ==> Ok(Value(runner), numOfBits)
        invariant Occupied(root.Value, hostBits, HostPart(reqIp, hostBits))
          <==> numOfBits >= 0 && Occupied(Value(runner), numOfBits, HostPart(reqIp, numOfBits))
        decreases numOfBits
      {
        if runner.isFull { return true; }
        if numOfBits == 0 {
          runner := runner.zero;   // a leaf has no children, whichever bit is read
        } else {
          BitIsHigh(reqIp, numOfBits);
          runner := if Bit(reqIp, numOfBits) then runner.one else runner.zero;
        }
        numOfBits := numOfBits - 1;
      }
      occupied := numOfBits == 0;
    }

    // reg is what *allocated_ip holds before the call.
    method DhcpAllocateIp(requestedIp: nat, reg: nat) returns (ok: bool, address: nat)
      requires Valid() && reg < WORD
      modifies root.Repr
      ensures Valid() && fresh(root.Repr - old(root.Repr))
      ensures var a := AllocateIp(old(root.Value), hostBits, requestedIp);
        && root.Value == a.trie && (ok <==> a.host.Some?)
        && address == Or(if ok then a.host.value else reg / Pow2(IP_LENGTH - hostBits), subNet)
    {
      hide Pow2, AllocateSmallest, AllocateSpecific, Ok, Count, Leased, Assembled, Or, OnlyLastMissing;
      var reqIp := MaskHost(requestedIp);
      var occupied := IsOccupied(reqIp);
      AllocateIpCorrect(root.Value, hostBits, requestedIp);
      HostPartTwice(requestedIp, hostBits);
      ghost var t := root.Value;
      if requestedIp == 0 || occupied {
        ok, address := AllocateSmallestIp(root, reg, hostBits);
        if ok {
          AssembledHost(AllocateSmallest(t, hostBits).value.1, reg, hostBits);
          SpecificKeeps(t, hostBits, AllocateSmallest(t, hostBits).value.1);
        }
        address := address / Pow2(IP_LENGTH - hostBits);
        address := Or(address, subNet);
      } else {
        AllocateSpecificIp(root, reqIp, hostBits);
        SpecificKeeps(t, hostBits, HostPart(requestedIp, hostBits));
        ok, address := true, Or(reqIp, subNet);
      }
    }

    method DhcpFreeIp(ip: nat) returns (status: FreeStatus)
      requires Valid()
      modifies root.Repr
      ensures Valid() && fresh(root.Repr - old(root.Repr))
      ensures var f := FreeIp(old(root.Value), hostBits, ip); root.Value == f.trie && status == f.status
    {
      var broadcast := Pow2(hostBits) - 1;
      var reqIp := MaskHost(ip);
      HostPartTwice(ip, hostBits);
      if reqIp == 0 || reqIp == broadcast { return FreeFailure; }
      var occupied := IsOccupied(reqIp);
      if !occupied { return DoubleFree; }
      FreeIpCorrect(root.Value, hostBits, ip);
      if !NodePath(root, reqIp, hostBits) { return Crashed; }
      ReleaseKeeps(root.Value, hostBits, reqIp);
      FreeIpNode(root, reqIp, hostBits);
      status := Freed;
    }

    method DhcpCountFree() returns (free: int)
      requires Valid()
      ensures free == Pow2(hostBits) - Count(root.Value, hostBits)
    {
      var count := CountOccupied(root, hostBits, 0);
      free := Pow2(hostBits) - count;
    }
  }

  lemma HostPartTwice(ip: nat, k: nat)
    ensures HostPart(HostPart(ip, k), k) == HostPart(ip, k)
  {
    hide Pow2;
    DivModUnique(ip % Pow2(k), 0, Pow2(k), ip % Pow2(k));
  }

  // Whether the recursion of FreeIp finds a node at every level.
  predicate NodePath(node: TrieNode?, reqIp: nat, k: nat)
    reads node, if node == null then {} else node.Repr
    requires ValidTrie(node)
    ensures NodePath(node, reqIp, k) <==> HasPath(Value(node), k, HostPart(reqIp, k))
    decreases k
  {
    if node == null then false
    else if k == 0 then true
    else
      BitIsHigh(reqIp, k);
      NodePath(if Bit(reqIp, k) then node.one else node.zero, reqIp, k - 1)
  }
}
