// Requests to the DHCP server on values, and what every run of them keeps.
module DhcpServer {
  import opened Shared
  import opened Remainders
  import opened DhcpTrie

  // `Crashed` is the null pointer FreeIp follows when a node on the way is missing.
  datatype FreeStatus = Freed | DoubleFree | FreeFailure | Crashed

  datatype Allocated = Allocated(host: Option<nat>, trie: Trie)

  datatype Released = Released(status: FreeStatus, trie: Trie)

  function HostPart(ip: nat, k: nat): (a: nat)
    ensures a < Pow2(k)
  {
    ip % Pow2(k)
  }

  // DhcpAllocateIp, up to the assembly of the address from the host number.
  function AllocateIp(t: Trie, k: nat, requested: nat): Allocated
    requires t.Node?
  {
    var a := HostPart(requested, k);
    if requested == 0 || Occupied(t, k, a) then
      match AllocateSmallest(t, k)
      case None => Allocated(None, t)
      case Some((r, host)) => Allocated(Some(host), r)
    else Allocated(Some(a), AllocateSpecific(t, k, a))
  }

  // The network and the broadcast address.
  predicate Reserved(k: nat, a: nat) { a == 0 || a == Pow2(k) - 1 }

  // DhcpFreeIp
  function FreeIp(t: Trie, k: nat, ip: nat): Released {
    var a := HostPart(ip, k);
    if Reserved(k, a) then Released(FreeFailure, t)
    else if !Occupied(t, k, a) then Released(DoubleFree, t)
    else if !HasPath(t, k, a) then Released(Crashed, t)
    else Released(Freed, Release(t, k, a))
  }

  // An allocation fails exactly when every address is leased. Otherwise it leases one address
  // that was not leased and nothing else: the requested one, unless it is 0, leased, or the
  // one whose last node is missing; then the least unleased one.
  lemma AllocateIpCorrect(t: Trie, k: nat, requested: nat)
    requires t.Node? && Ok(t, k)
    ensures var r := AllocateIp(t, k, requested);
      var a := HostPart(requested, k);
      && (r.host.None? <==> Count(t, k) == Pow2(k))
      && (r.host.None? ==> r.trie == t)
      && (r.host.Some? ==>
            && r.host.value < Pow2(k) && !Leased(t, k, r.host.value)
            && r.trie == AllocateSpecific(t, k, r.host.value)
            && if requested != 0 && !Leased(t, k, a) && !OnlyLastMissing(t, k, a) then r.host.value == a
               else forall b: nat :: b < r.host.value ==> Leased(t, k, b))
  {
    var a := HostPart(requested, k);
    OccupiedExactly(t, k, a);
    SmallestIsLeast(t, k);
    if Count(t, k) == Pow2(k) { FullLeasesAll(t, k, a); }
  }

  // Which answer FreeIp gives to which address. DOUBLE_FREE, promised for every free
  // address, is not given for one whose last node is missing.
  lemma FreeIpCorrect(t: Trie, k: nat, ip: nat)
    requires Ok(t, k)
    ensures var r := FreeIp(t, k, ip);
      var a := HostPart(ip, k);
      var reserved := Reserved(k, a);
      && (r.status.FreeFailure? <==> reserved)
      && (r.status.Freed? <==> !reserved && Leased(t, k, a))
      && (r.status.DoubleFree? <==> !reserved && !Leased(t, k, a) && !OnlyLastMissing(t, k, a))
      && (r.status.Crashed? <==> !reserved && OnlyLastMissing(t, k, a))
      && (!r.status.Freed? ==> r.trie == t)
      && (r.status.Freed? ==> HasPath(t, k, a) && r.trie == Release(t, k, a))
  {
    var a := HostPart(ip, k);
    OccupiedExactly(t, k, a);
    LeasedHasPath(t, k, a);
  }

  // On a new server the first host address is such an address: nothing has leased it, and
  // freeing it is not answered with DOUBLE_FREE.
  lemma FreeingFirstHostCrashes(k: nat)
    requires k >= 2
    ensures !Leased(Initial(k), k, 1) && FreeIp(Initial(k), k, 1).status.Crashed?
  {
    Pow2AtLeastFour(k);
    InitialLeases(k, 1);
    FirstHostMissing(k - 1);
    FreeIpCorrect(Initial(k), k, 1);
  }

  lemma Pow2AtLeastFour(k: nat)
    requires k >= 2
    ensures Pow2(k) >= 4 && 1 % Pow2(k) == 1
  {
  }

  lemma {:induction false} FirstHostMissing(k: nat)
    requires k >= 1
    ensures 1 < Pow2(k) && OnlyLastMissing(Chain(k, false), k, 1)
  {
    if k >= 2 { FirstHostMissing(k - 1); }
  }

  // ---------------------------------------------------------------- whole runs

  datatype Request = Allocate(ip: nat) | Free(ip: nat)

  // `live` and `handed` are history: the host numbers handed out and not freed since, and
  // those ever handed out.
  datatype Server = Server(trie: Trie, live: set<nat>, handed: set<nat>)

  function Serve(s: Server, k: nat, r: Request): Server
    requires s.trie.Node?
  {
    match r
    case Allocate(ip) =>
      var a := AllocateIp(s.trie, k, ip);
      var added := if a.host.Some? then {a.host.value} else {};
      Server(a.trie, s.live + added, s.handed + added)
    case Free(ip) =>
      var f := FreeIp(s.trie, k, ip);
      Server(f.trie, if f.status.Freed? then s.live - {HostPart(ip, k)} else s.live, s.handed)
  }

  ghost predicate Consistent(s: Server, k: nat) {
    && s.trie.Node? && Ok(s.trie, k)
    && (forall a: nat :: a < Pow2(k) ==> (Leased(s.trie, k, a) <==> a in s.live || Reserved(k, a)))
    && (forall a :: a in s.live ==> 0 < a < Pow2(k) - 1)
    && Count(s.trie, k) == |s.live| + 2
  }

  lemma AllocateServes(s: Server, k: nat, ip: nat)
    requires k >= 2 && Consistent(s, k)
    ensures Consistent(Serve(s, k, Allocate(ip)), k)
  {
    AllocateIpCorrect(s.trie, k, ip);
    var r := AllocateIp(s.trie, k, ip);
    if r.host.Some? {
      var h := r.host.value;
      SpecificKeeps(s.trie, k, h);
      forall a: nat | a < Pow2(k)
        ensures Leased(r.trie, k, a) <==> a in s.live + {h} || Reserved(k, a)
      {
        SpecificLeases(s.trie, k, h, a);
      }
    }
  }

  lemma FreeServes(s: Server, k: nat, ip: nat)
    requires k >= 2 && Consistent(s, k)
    ensures Consistent(Serve(s, k, Free(ip)), k)
  {
    FreeIpCorrect(s.trie, k, ip);
    var r := FreeIp(s.trie, k, ip);
    var h := HostPart(ip, k);
    if r.status.Freed? {
      ReleaseKeeps(s.trie, k, h);
      forall a: nat | a < Pow2(k)
        ensures Leased(r.trie, k, a) <==> a in s.live - {h} || Reserved(k, a)
      {
        ReleaseLeases(s.trie, k, h, a);
      }
    }
  }

  function Run(k: nat, requests: seq<Request>): (s: Server)
    ensures s.trie.Node?
  {
    if requests == [] then Server(Initial(k), {}, {})
    else
      var s := Serve(Run(k, requests[..|requests| - 1]), k, requests[|requests| - 1]);
      ServeKeepsNode(Run(k, requests[..|requests| - 1]), k, requests[|requests| - 1]);
      s
  }

  lemma ServeKeepsNode(s: Server, k: nat, r: Request)
    requires s.trie.Node?
    ensures Serve(s, k, r).trie.Node?
  {
    SmallestIsNode(s.trie, k);
  }

  lemma SmallestIsNode(t: Trie, k: nat)
    requires t.Node?
    ensures AllocateSmallest(t, k).Some? ==> AllocateSmallest(t, k).value.0.Node?
  {
  }

  // After any run with at least two host bits: exactly the live leases, the network and the
  // broadcast address are leased, the flags are right, and DhcpCountFree is
  // 2^k - 2 - (live leases).
  lemma {:induction false} RunConserves(k: nat, requests: seq<Request>)
    requires k >= 2
    ensures Consistent(Run(k, requests), k)
    ensures Pow2(k) - Count(Run(k, requests).trie, k) == Pow2(k) - 2 - |Run(k, requests).live|
  {
    if requests == [] {
      forall a: nat | a < Pow2(k)
        ensures Leased(Initial(k), k, a) <==> Reserved(k, a)
      {
        InitialLeases(k, a);
      }
      InitialLeases(k, 0);
    } else {
      var s := Run(k, requests[..|requests| - 1]);
      RunConserves(k, requests[..|requests| - 1]);
      match requests[|requests| - 1]
      case Allocate(ip) => AllocateServes(s, k, ip);
      case Free(ip) => FreeServes(s, k, ip);
    }
  }

  // No address is handed out twice: what an allocation returns was not leased, so it was
  // neither live nor reserved.
  lemma NeverLeasedTwice(k: nat, requests: seq<Request>, ip: nat)
    requires k >= 2 && AllocateIp(Run(k, requests).trie, k, ip).host.Some?
    ensures var h := AllocateIp(Run(k, requests).trie, k, ip).host.value;
      h !in Run(k, requests).live && 0 < h < Pow2(k) - 1
  {
    RunConserves(k, requests);
    AllocateIpCorrect(Run(k, requests).trie, k, ip);
  }

  // ---------------------------------------------------------------- freeing what is free

  // The nodes of the trie are those on the way to an address that was ever leased.
  ghost predicate NodesKnown(s: Server, k: nat) {
    && s.trie.Node? && Grown(s.trie, k)
    && (forall a: nat :: a < Pow2(k) ==> (HasPath(s.trie, k, a) <==> a in s.handed || Reserved(k, a)))
  }

  lemma ServeKeepsNodes(s: Server, k: nat, r: Request)
    requires k >= 2 && Consistent(s, k) && NodesKnown(s, k)
    ensures NodesKnown(Serve(s, k, r), k)
  {
    match r
    case Allocate(ip) =>
      AllocateIpCorrect(s.trie, k, ip);
      var a := AllocateIp(s.trie, k, ip);
      if a.host.Some? {
        SpecificGrows(s.trie, k, a.host.value);
        forall b: nat | b < Pow2(k)
          ensures HasPath(a.trie, k, b) <==> b == a.host.value || HasPath(s.trie, k, b)
        {
          SpecificPaths(s.trie, k, a.host.value, b);
        }
      }
    case Free(ip) =>
      FreeIpCorrect(s.trie, k, ip);
      var f := FreeIp(s.trie, k, ip);
      if f.status.Freed? {
        ReleasePaths(s.trie, k, HostPart(ip, k), 0);
        forall b: nat | b < Pow2(k)
          ensures HasPath(f.trie, k, b) <==> HasPath(s.trie, k, b)
        {
          ReleasePaths(s.trie, k, HostPart(ip, k), b);
        }
      }
  }

  lemma {:induction false} RunKnowsNodes(k: nat, requests: seq<Request>)
    requires k >= 2
    ensures NodesKnown(Run(k, requests), k)
  {
    if requests == [] {
      InitialPaths(k, 0);
      forall a: nat | a < Pow2(k)
        ensures HasPath(Initial(k), k, a) <==> Reserved(k, a)
      {
        InitialPaths(k, a);
      }
    } else {
      var n := |requests| - 1;
      RunConserves(k, requests[..n]);
      RunKnowsNodes(k, requests[..n]);
      ServeKeepsNodes(Run(k, requests[..n]), k, requests[n]);
    }
  }

  // a was never leased, but its sibling was.
  ghost predicate OnlySiblingKnown(s: Server, k: nat, a: nat) {
    !Reserved(k, a) && a !in s.handed && (Sibling(a) in s.handed || Reserved(k, Sibling(a)))
  }

  lemma MissingExactly(k: nat, requests: seq<Request>, a: nat)
    requires k >= 2 && a < Pow2(k)
    ensures var s := Run(k, requests);
      && Consistent(s, k)
      && (OnlyLastMissing(s.trie, k, a) <==> OnlySiblingKnown(s, k, a))
  {
    RunConserves(k, requests);
    RunKnowsNodes(k, requests);
    OnlyLastMissingExactly(Run(k, requests).trie, k, a);
  }

  // Freeing an address follows a null pointer exactly when it is not reserved and was never
  // handed out, while its sibling was, or is reserved.
  lemma FreeCrashesExactly(k: nat, requests: seq<Request>, ip: nat)
    requires k >= 2
    ensures var s := Run(k, requests);
      FreeIp(s.trie, k, ip).status.Crashed? <==> OnlySiblingKnown(s, k, HostPart(ip, k))
  {
    MissingExactly(k, requests, HostPart(ip, k));
    FreeIpCorrect(Run(k, requests).trie, k, ip);
  }

  // A free address is granted on request under the opposite condition, or if it is the least
  // free one.
  lemma RequestGrantedExactly(k: nat, requests: seq<Request>, ip: nat)
    requires k >= 2 && ip != 0
    requires var s := Run(k, requests);
      var a := HostPart(ip, k);
      !Reserved(k, a) && a !in s.live
    ensures var s := Run(k, requests);
      var a := HostPart(ip, k);
      var least := forall b: nat :: b < a ==> b in s.live || Reserved(k, b);
      AllocateIp(s.trie, k, ip).host == Some(a) <==> !OnlySiblingKnown(s, k, a) || least
  {
    var s := Run(k, requests);
    MissingExactly(k, requests, HostPart(ip, k));
    RequestGranted(s, k, ip);
  }

  lemma RequestGranted(s: Server, k: nat, ip: nat)
    requires Consistent(s, k) && ip != 0
    requires var a := HostPart(ip, k); !Reserved(k, a) && a !in s.live
    ensures var a := HostPart(ip, k);
      var least := forall b: nat :: b < a ==> b in s.live || Reserved(k, b);
      AllocateIp(s.trie, k, ip).host == Some(a) <==> !OnlyLastMissing(s.trie, k, a) || least
  {
    var a := HostPart(ip, k);
    AllocateIpCorrect(s.trie, k, ip);
    NotFull(s, k, a);
    hide AllocateIp, AllocateSpecific, OnlyLastMissing, Leased, Pow2, Count, Ok;
  }

  lemma NotFull(s: Server, k: nat, a: nat)
    requires Consistent(s, k) && a < Pow2(k) && !Leased(s.trie, k, a)
    ensures Count(s.trie, k) < Pow2(k)
  {
    if Count(s.trie, k) == Pow2(k) { FullLeasesAll(s.trie, k, a); }
  }

  // On a new server with three or more host bits: once 2 is leased, a request for 3, which is
  // free, is answered with 1.
  lemma ThreeNotGranted(k: nat)
    requires k >= 3
    ensures Run(k, [Allocate(2)]).live == {2}
    ensures AllocateIp(Run(k, [Allocate(2)]).trie, k, 3).host == Some(1)
  {
    Pow2AtLeastEight(k);
    var requests := [Allocate(2)];
    assert requests[..0] == [];
    var s := Run(k, requests);
    RunConserves(k, []);
    RunConserves(k, requests);
    MissingExactly(k, [], 2);
    RequestGrantedExactly(k, [], 2);
    assert s.live == {2} && s.handed == {2};
    MissingExactly(k, requests, 3);
    AllocateIpCorrect(s.trie, k, 3);
    assert !Leased(s.trie, k, 1) && OnlySiblingKnown(s, k, 3);
    NotFull(s, k, 1);
  }

  lemma Pow2Grows(k: nat)
    requires k >= 3
    ensures Pow2(k) >= 8
  {
    assert Pow2(k) == 2 * Pow2(k - 1) && Pow2(k - 1) == 2 * Pow2(k - 2);
  }

  lemma Pow2AtLeastEight(k: nat)
    requires k >= 3
    ensures Pow2(k) >= 8 && HostPart(2, k) == 2 && HostPart(3, k) == 3
  {
    Pow2Grows(k);
    hide Pow2;
    DivModUnique(2, 0, Pow2(k), 2);
    DivModUnique(3, 0, Pow2(k), 3);
  }
}
