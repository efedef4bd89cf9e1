/** internal/dhcpv4/pool.go: the address pools of a server, one bitmap each. */
module Pool {
  import opened Bytes
  import opened Wrappers
  import opened GoText
  import opened Leases
  import opened Cidr
  import opened HaElection
  import opened HaManager

  datatype PoolSpec = PoolSpec(id: text, prefix: Prefix, start: uint32, end: uint32, leaseDuration: Duration)

  type Specs = map<text, PoolSpec>

  /** Pools are filed under their ids, and narrower than the whole IPv4 space. */
  ghost predicate WellFormed(specs: Specs)
  {
    forall id {:trigger specs[id]} :: id in specs ==>
      specs[id].id == id && specs[id].start <= specs[id].end && specs[id].end - specs[id].start < MAX
  }

  const MAX: int := 0xFFFF_FFFF

  predicate InPool(p: PoolSpec, u: uint32)
  {
    p.start <= u <= p.end
  }

  ghost predicate Apart(specs: Specs, i: text, j: text)
  {
    i in specs && j in specs && forall x: Addr :: !(In(specs[i].prefix, x) && In(specs[j].prefix, x))
  }

  ghost predicate Inside(specs: Specs, i: text)
  {
    i in specs && In(specs[i].prefix, V4(specs[i].start)) && In(specs[i].prefix, V4(specs[i].end))
  }

  /** What the configuration check asks for: no address in two prefixes, every
      pool range inside its prefix. */
  ghost predicate Separate(specs: Specs)
  {
    && (forall i, j {:trigger Apart(specs, i, j)} :: i in specs && j in specs && i != j ==> Apart(specs, i, j))
    && (forall i {:trigger Inside(specs, i)} :: i in specs ==> Inside(specs, i))
  }

  lemma PoolInPrefix(specs: Specs, id: text, u: uint32)
    requires Separate(specs) && id in specs && InPool(specs[id], u)
    ensures PrefixContains(specs[id].prefix, V4(u))
  {
    assert Inside(specs, id);
    ContainsIffIn(specs[id].prefix, V4(u));
  }

  lemma OnePrefix(specs: Specs, i: text, j: text, u: uint32)
    requires Separate(specs) && i in specs && j in specs
    requires PrefixContains(specs[i].prefix, V4(u)) && PrefixContains(specs[j].prefix, V4(u))
    ensures i == j
  {
    assert i != j ==> Apart(specs, i, j);
    ContainsIffIn(specs[i].prefix, V4(u));
    ContainsIffIn(specs[j].prefix, V4(u));
  }

  lemma OnePool(specs: Specs, i: text, j: text, u: uint32)
    requires Separate(specs) && i in specs && j in specs && InPool(specs[i], u) && InPool(specs[j], u)
    ensures i == j
  {
    PoolInPrefix(specs, i, u);
    PoolInPrefix(specs, j, u);
    OnePrefix(specs, i, j, u);
  }

  /** The text forms of IPv4 addresses: net.ParseIP with To4, and IP.String. */
  datatype IpText = IpText(parse: text -> Option<uint32>, format: uint32 -> text)

  ghost predicate Readable(t: IpText)
  {
    forall u: uint32 {:trigger t.format(u)} :: t.parse(t.format(u)) == Some(u) && TrimSpace(t.format(u)) != []
  }

  // ---------- which bits are set ----------

  /** The set bits of all bitmaps: pool and address. */
  type Marks = set<(text, uint32)>

  /** setUsed. */
  function SetBit(specs: Specs, marks: Marks, id: text, u: uint32, used: bool): Marks
    requires id in specs
  {
    if !InPool(specs[id], u) then marks
    else if used then marks + {(id, u)}
    else marks - {(id, u)}
  }

  /** The pool markAllocated and markFree touch; among several prefixes that
      hold the address the choice is open. */
  ghost predicate IsHome(specs: Specs, subnetId: text, u: uint32, home: Option<text>)
  {
    if subnetId != [] && subnetId in specs then home == Some(subnetId)
    else match home
      case Some(id) => id in specs && PrefixContains(specs[id].prefix, V4(u))
      case None => forall id {:trigger specs[id]} :: id in specs ==> !PrefixContains(specs[id].prefix, V4(u))
  }

  /** With separate pools there is one such pool. */
  lemma OneHome(specs: Specs, subnetId: text, u: uint32, a: Option<text>, b: Option<text>)
    requires Separate(specs) && IsHome(specs, subnetId, u, a) && IsHome(specs, subnetId, u, b)
    ensures a == b
  {
    if a.Some? && b.Some? && !(subnetId != [] && subnetId in specs) {
      OnePrefix(specs, a.value, b.value, u);
    }
  }

  function SetHome(specs: Specs, marks: Marks, home: Option<text>, u: uint32, used: bool): Marks
    requires home.Some? ==> home.value in specs
  {
    if home == None then marks else SetBit(specs, marks, home.value, u, used)
  }

  // ---------- rebuilding the bitmaps ----------

  /** A lease that keeps its address. */
  predicate Holds(s: LeaseState)
  {
    s == Bound || s == Renewing || s == Offered || s == Quarantined || s == Declined
  }

  predicate Marking(t: IpText, l: Lease)
  {
    Holds(l.state) && t.parse(l.ip).Some?
  }

  ghost predicate AreHomes(specs: Specs, t: IpText, leases: seq<Lease>, homes: seq<Option<text>>)
  {
    && |homes| == |leases|
    && forall i {:trigger homes[i]} :: 0 <= i < |homes| ==>
         if Marking(t, leases[i]) then IsHome(specs, leases[i].subnetId, t.parse(leases[i].ip).value, homes[i])
         else homes[i] == None
  }

  /** SyncFromLeases: the bits after marking the home of every lease, homes[i]
      being that of leases[i]. */
  ghost function Synced(specs: Specs, t: IpText, leases: seq<Lease>, homes: seq<Option<text>>): Marks
    requires AreHomes(specs, t, leases, homes)
  {
    if leases == [] then {} else
      var n := |leases| - 1;
      var before := Synced(specs, t, leases[..n], homes[..n]);
      if Marking(t, leases[n]) then SetHome(specs, before, homes[n], t.parse(leases[n].ip).value, true) else before
  }

  lemma SyncedNext(specs: Specs, t: IpText, leases: seq<Lease>, homes: seq<Option<text>>, i: nat, home: Option<text>)
    requires i < |leases| && AreHomes(specs, t, leases[..i], homes)
    requires if Marking(t, leases[i]) then IsHome(specs, leases[i].subnetId, t.parse(leases[i].ip).value, home)
             else home == None
    ensures AreHomes(specs, t, leases[..i + 1], homes + [home])
    ensures Synced(specs, t, leases[..i + 1], homes + [home])
            == var before := Synced(specs, t, leases[..i], homes);
               if Marking(t, leases[i]) then SetHome(specs, before, home, t.parse(leases[i].ip).value, true) else before
  {
    assert leases[..i + 1][..i] == leases[..i];
    assert (homes + [home])[..i] == homes;
    forall j | 0 <= j <= i
      ensures leases[..i + 1][j] == leases[j] && (homes + [home])[j] == if j < i then homes[j] else home {
      assert j < i ==> leases[..i][j] == leases[j];
    }
  }

  ghost predicate Keeps(specs: Specs, t: IpText, l: Lease, id: text, u: uint32)
  {
    Marking(t, l) && t.parse(l.ip) == Some(u) && IsHome(specs, l.subnetId, u, Some(id))
  }

  /** Some listed lease keeps this address of this pool. */
  ghost predicate KeptBy(specs: Specs, t: IpText, leases: seq<Lease>, id: text, u: uint32)
  {
    exists i {:trigger leases[i]} :: 0 <= i < |leases| && Keeps(specs, t, leases[i], id, u)
  }

  lemma KeptByLast(specs: Specs, t: IpText, leases: seq<Lease>, id: text, u: uint32)
    requires leases != []
    ensures var n := |leases| - 1;
            KeptBy(specs, t, leases, id, u)
            <==> KeptBy(specs, t, leases[..n], id, u) || Keeps(specs, t, leases[n], id, u)
  {
    var n := |leases| - 1;
    assert forall i :: 0 <= i < n ==> leases[..n][i] == leases[i];
  }

  /** After a rebuild exactly the addresses kept by a lease are marked, each in
      the pool of the lease. */
  lemma {:induction false} SyncedExact(specs: Specs, t: IpText, leases: seq<Lease>, homes: seq<Option<text>>,
                                       id: text, u: uint32)
    requires Separate(specs) && AreHomes(specs, t, leases, homes)
    ensures (id, u) in Synced(specs, t, leases, homes)
            <==> id in specs && InPool(specs[id], u) && KeptBy(specs, t, leases, id, u)
  {
    if leases != [] {
      var n := |leases| - 1;
      KeptByLast(specs, t, leases, id, u);
      SyncedExact(specs, t, leases[..n], homes[..n], id, u);
      LastHome(specs, t, leases[n], homes[n], id, u);
    }
  }

  lemma LastHome(specs: Specs, t: IpText, l: Lease, home: Option<text>, id: text, u: uint32)
    requires Separate(specs)
    requires Marking(t, l) ==> IsHome(specs, l.subnetId, t.parse(l.ip).value, home)
    ensures Keeps(specs, t, l, id, u) <==> Marking(t, l) && home == Some(id) && t.parse(l.ip).value == u
  {
    if Keeps(specs, t, l, id, u) {
      OneHome(specs, l.subnetId, u, Some(id), home);
    }
  }

  // ---------- which part of a pool may be used ----------

  /** AllocationScope of the HA manager, when there is one. */
  type Provider = Option<(text, uint32, uint32) -> Scope>

  function EffectiveRange(p: PoolSpec, provider: Provider): Option<Range>
  {
    match provider
    case None => Some((p.start, p.end))
    case Some(scope) =>
      match scope(p.id, p.start, p.end)
      case Refused => None
      case Granted((s, e)) =>
        var start := if s < p.start then p.start else s;
        var end := if e > p.end then p.end else e;
        if start > end then None else Some((start, end))
  }

  predicate Usable(p: PoolSpec, provider: Provider, u: uint32)
  {
    EffectiveRange(p, provider).Some? && InScope(EffectiveRange(p, provider).value, u)
  }

  /** Whatever a provider answers, what is used of it are exactly the granted
      addresses of the pool, so no index leaves the bitmap. */
  lemma UsableExact(p: PoolSpec, provider: Provider, u: uint32)
    ensures Usable(p, provider, u) <==>
              InPool(p, u) && (provider == None || MayAllocate(provider.value(p.id, p.start, p.end), u))
  {
  }

  // ---------- allocation on values ----------

  datatype Request = Request(mac: text, requested: Option<uint32>, relay: Option<uint32>)

  predicate Active(s: LeaseState)
  {
    s == Bound || s == Renewing || s == Offered
  }

  predicate CanReuse(specs: Specs, t: IpText, l: Lease, now: Time)
  {
    !(l.expiryTime < now) && Active(l.state) && l.subnetId in specs && t.parse(l.ip).Some?
  }

  /** The first lease of the client that is still good, and its pool. */
  function Reusable(specs: Specs, t: IpText, byMac: seq<Lease>, now: Time): Option<(text, uint32)>
  {
    if byMac == [] then None
    else if CanReuse(specs, t, byMac[0], now) then Some((byMac[0].subnetId, t.parse(byMac[0].ip).value))
    else Reusable(specs, t, byMac[1..], now)
  }

  /** Without a relay, or with one in no pool's prefix, every pool is a candidate. */
  function FirstHolding(specs: Specs, order: seq<text>, u: uint32): Option<text>
  {
    if order == [] then None
    else if order[0] in specs && PrefixContains(specs[order[0]].prefix, V4(u)) then Some(order[0])
    else FirstHolding(specs, order[1..], u)
  }

  function Candidates(specs: Specs, order: seq<text>, relay: Option<uint32>): (c: seq<text>)
    ensures forall id :: id in c ==> id in order
  {
    if relay == None then order
    else
      FirstHoldingListed(specs, order, relay.value);
      match FirstHolding(specs, order, relay.value)
      case Some(id) => [id]
      case None => order
  }

  lemma {:induction false} FirstHoldingListed(specs: Specs, order: seq<text>, u: uint32)
    ensures FirstHolding(specs, order, u).Some? ==> FirstHolding(specs, order, u).value in order
  {
    if order != [] {
      FirstHoldingListed(specs, order[1..], u);
    }
  }

  function TrySpecific(specs: Specs, marks: Marks, cands: seq<text>, provider: Provider, u: uint32): Option<text>
  {
    if cands == [] then None
    else if cands[0] in specs && Usable(specs[cands[0]], provider, u) && (cands[0], u) !in marks then Some(cands[0])
    else TrySpecific(specs, marks, cands[1..], provider, u)
  }

  /** The lowest clear bit from u to end. */
  function LowestClear(marks: Marks, id: text, u: uint32, end: uint32): Option<uint32>
    requires u <= end
    decreases end - u
  {
    if (id, u) !in marks then Some(u)
    else if u == end then None
    else LowestClear(marks, id, u + 1, end)
  }

  function NextFree(p: PoolSpec, marks: Marks, provider: Provider): Option<uint32>
    requires p.start <= p.end
  {
    match EffectiveRange(p, provider)
    case None => None
    case Some(range) => LowestClear(marks, p.id, range.0, range.1)
  }

  function FirstFree(specs: Specs, marks: Marks, cands: seq<text>, provider: Provider): Option<(text, uint32)>
    requires forall id :: id in cands && id in specs ==> specs[id].start <= specs[id].end
  {
    if cands == [] then None
    else
      var u := if cands[0] in specs then NextFree(specs[cands[0]], marks, provider) else None;
      if u.Some? then Some((cands[0], u.value)) else FirstFree(specs, marks, cands[1..], provider)
  }

  /** An address no lease of the client leads to. */
  function Fresh(specs: Specs, order: seq<text>, marks: Marks, req: Request, provider: Provider): Option<(text, uint32)>
    requires forall id :: id in order && id in specs ==> specs[id].start <= specs[id].end
  {
    var cands := Candidates(specs, order, req.relay);
    var specific := if req.requested == None then None
      else TrySpecific(specs, marks, cands, provider, req.requested.value);
    if specific.Some? then Some((specific.value, req.requested.value)) else FirstFree(specs, marks, cands, provider)
  }

  /** Allocate: the leases the store lists for the MAC, None when it fails. */
  function Allocation(specs: Specs, order: seq<text>, t: IpText, marks: Marks, byMac: Option<seq<Lease>>, req: Request,
                      provider: Provider, now: Time): Option<(text, uint32)>
    requires forall id :: id in order && id in specs ==> specs[id].start <= specs[id].end
  {
    var reuse := if req.mac == [] || byMac == None then None else Reusable(specs, t, byMac.value, now);
    if reuse.Some? then reuse else Fresh(specs, order, marks, req, provider)
  }

  // ---------- what it finds ----------

  /** nextFree gives the lowest clear address of the effective range, and fails
      only when every address of it is marked. */
  lemma {:induction false} LowestClearExact(marks: Marks, id: text, u: uint32, end: uint32)
    requires u <= end
    ensures match LowestClear(marks, id, u, end)
            case Some(f) => u <= f <= end && (id, f) !in marks && forall g: uint32 :: u <= g < f ==> (id, g) in marks
            case None => forall g: uint32 :: u <= g <= end ==> (id, g) in marks
    decreases end - u
  {
    if (id, u) in marks && u < end {
      LowestClearExact(marks, id, u + 1, end);
    }
  }

  lemma NextFreeExact(p: PoolSpec, marks: Marks, provider: Provider)
    requires p.start <= p.end
    ensures match NextFree(p, marks, provider)
            case Some(f) => Usable(p, provider, f) && (p.id, f) !in marks
                            && forall g: uint32 :: Usable(p, provider, g) && g < f ==> (p.id, g) in marks
            case None => forall g: uint32 :: Usable(p, provider, g) ==> (p.id, g) in marks
  {
    var range := EffectiveRange(p, provider);
    if range.Some? {
      LowestClearExact(marks, p.id, range.value.0, range.value.1);
    }
  }

  /** A candidate pool has an address left. */
  ghost predicate HasRoom(specs: Specs, marks: Marks, provider: Provider, id: text)
  {
    id in specs && exists u: uint32 {:trigger (id, u) in marks} :: Usable(specs[id], provider, u) && (id, u) !in marks
  }

  lemma {:induction false} FirstFreeExact(specs: Specs, marks: Marks, cands: seq<text>, provider: Provider)
    requires WellFormed(specs)
    ensures match FirstFree(specs, marks, cands, provider)
            case Some((id, u)) => id in cands && IsFirstFree(specs, marks, cands, provider, id, u)
            case None =>
              forall id {:trigger HasRoom(specs, marks, provider, id)} :: id in cands ==>
                !HasRoom(specs, marks, provider, id)
  {
    if cands != [] {
      if cands[0] in specs {
        NextFreeExact(specs[cands[0]], marks, provider);
      }
      var rest := cands[1..];
      FirstFreeExact(specs, marks, rest, provider);
      assert forall i {:trigger cands[i]} :: 0 < i < |cands| ==> cands[i] == rest[i - 1];
      var r := FirstFree(specs, marks, cands, provider);
      if r.Some? && r == FirstFree(specs, marks, rest, provider) && !HasRoom(specs, marks, provider, cands[0]) {
        var k :| 0 <= k < |rest| && rest[k] == r.value.0
                 && forall j {:trigger rest[j]} :: 0 <= j < k ==> !HasRoom(specs, marks, provider, rest[j]);
        assert cands[k + 1] == rest[k];
      }
    }
  }

  /** The lowest clear usable address of the first candidate that has any. */
  ghost predicate IsFirstFree(specs: Specs, marks: Marks, cands: seq<text>, provider: Provider, id: text, u: uint32)
  {
    && id in specs && Usable(specs[id], provider, u) && (id, u) !in marks
    && (forall g: uint32 {:trigger (id, g) in marks} :: Usable(specs[id], provider, g) && g < u ==> (id, g) in marks)
    && exists k {:trigger cands[k]} :: 0 <= k < |cands| && cands[k] == id
         && forall j {:trigger cands[j]} :: 0 <= j < k ==> !HasRoom(specs, marks, provider, cands[j])
  }

  lemma {:induction false} TrySpecificExact(specs: Specs, marks: Marks, cands: seq<text>, provider: Provider, u: uint32)
    ensures match TrySpecific(specs, marks, cands, provider, u)
            case Some(id) => id in cands && id in specs && Usable(specs[id], provider, u) && (id, u) !in marks
            case None =>
              forall id {:trigger specs[id]} ::
                id in cands && id in specs && Usable(specs[id], provider, u) ==> (id, u) in marks
  {
    if cands != [] {
      TrySpecificExact(specs, marks, cands[1..], provider, u);
    }
  }

  /** A fresh address is a clear, usable one of a candidate pool: the one asked
      for whenever that one is clear and usable, else the lowest of the first
      candidate with room. There is none exactly when no candidate has room. */
  lemma FreshExact(specs: Specs, order: seq<text>, marks: Marks, req: Request, provider: Provider)
    requires WellFormed(specs)
    ensures var cands := Candidates(specs, order, req.relay);
            match Fresh(specs, order, marks, req, provider)
            case Some((id, u)) =>
              && id in cands && id in specs && Usable(specs[id], provider, u) && (id, u) !in marks
              && (req.requested != Some(u) ==> IsFirstFree(specs, marks, cands, provider, id, u))
              && (req.requested.Some? && u != req.requested.value ==>
                    forall j {:trigger specs[j]} ::
                      j in cands && j in specs && Usable(specs[j], provider, req.requested.value) ==>
                      (j, req.requested.value) in marks)
            case None =>
              forall j {:trigger HasRoom(specs, marks, provider, j)} :: j in cands ==>
                !HasRoom(specs, marks, provider, j)
  {
    var cands := Candidates(specs, order, req.relay);
    if req.requested.Some? {
      TrySpecificExact(specs, marks, cands, provider, req.requested.value);
    }
    FirstFreeExact(specs, marks, cands, provider);
  }

  lemma {:induction false} ReusableExact(specs: Specs, t: IpText, byMac: seq<Lease>, now: Time)
    ensures match Reusable(specs, t, byMac, now)
            case Some((id, u)) =>
              exists i {:trigger byMac[i]} :: 0 <= i < |byMac| && byMac[i] in byMac && CanReuse(specs, t, byMac[i], now)
                && byMac[i].subnetId == id && t.parse(byMac[i].ip) == Some(u)
                && forall j {:trigger byMac[j]} :: 0 <= j < i ==> !CanReuse(specs, t, byMac[j], now)
            case None => forall l :: l in byMac ==> !CanReuse(specs, t, l, now)
  {
    if byMac != [] && !CanReuse(specs, t, byMac[0], now) {
      var rest := byMac[1..];
      ReusableExact(specs, t, rest, now);
      assert forall i {:trigger byMac[i]} :: 0 < i < |byMac| ==> byMac[i] == rest[i - 1];
      if Reusable(specs, t, rest, now).Some? {
        var (id, u) := Reusable(specs, t, rest, now).value;
        var i :| 0 <= i < |rest| && CanReuse(specs, t, rest[i], now)
                 && rest[i].subnetId == id && t.parse(rest[i].ip) == Some(u)
                 && forall j {:trigger rest[j]} :: 0 <= j < i ==> !CanReuse(specs, t, rest[j], now);
        assert byMac[i + 1] == rest[i];
      }
    }
  }

  /** Allocation is complete: it fails if and only if no lease of the client
      can be reused and every usable address of every candidate pool is marked. */
  lemma AllocationComplete(specs: Specs, order: seq<text>, t: IpText, marks: Marks, byMac: Option<seq<Lease>>,
                           req: Request, provider: Provider, now: Time)
    requires WellFormed(specs)
    ensures Allocation(specs, order, t, marks, byMac, req, provider, now) == None <==>
              && (req.mac == [] || byMac == None || forall l :: l in byMac.value ==> !CanReuse(specs, t, l, now))
              && forall id {:trigger HasRoom(specs, marks, provider, id)} ::
                   id in Candidates(specs, order, req.relay) ==> !HasRoom(specs, marks, provider, id)
  {
    FreshExact(specs, order, marks, req, provider);
    var found := Fresh(specs, order, marks, req, provider);
    if found.Some? {
      var (id, u) := found.value;
      assert (id, u) !in marks && HasRoom(specs, marks, provider, id);
    }
    if byMac.Some? {
      ReusableExact(specs, t, byMac.value, now);
    }
  }

  // ---------- load sharing ----------

  /** The provider a pool manager of an HA node has while its role holds. */
  function ProviderOf(fenced: bool, mode: text, peer: PeerState, role: Role): Provider
  {
    Some((id: text, start: uint32, end: uint32) => AllocationScope(fenced, mode, peer, role, start, end))
  }

  /** Some pool may freshly hand out this address. */
  ghost predicate InScopeOf(specs: Specs, provider: Provider, u: uint32)
  {
    exists id {:trigger specs[id]} :: id in specs && Usable(specs[id], provider, u)
  }

  /** The scopes of two nodes meet in a pool of both. */
  ghost predicate MeetIn(p: PoolSpec, pa: Provider, pb: Provider, u: uint32)
  {
    Usable(p, pa, u) && Usable(p, pb, u)
  }

  /** With separate pools nodes share an address only inside one pool. */
  lemma SharedInOnePool(specs: Specs, pa: Provider, pb: Provider, u: uint32)
    requires Separate(specs)
    ensures InScopeOf(specs, pa, u) && InScopeOf(specs, pb, u) ==>
              exists id {:trigger specs[id]} :: id in specs && MeetIn(specs[id], pa, pb, u)
  {
    forall i, j | i in specs && j in specs && Usable(specs[i], pa, u) && Usable(specs[j], pb, u) ensures i == j {
      UsableExact(specs[i], pa, u);
      UsableExact(specs[j], pb, u);
      OnePool(specs, i, j, u);
    }
  }

  /** In one pool: what a node in a role may use is its scope. */
  lemma ScopesMeetIff(p: PoolSpec, modeA: text, roleA: Role, fencedA: bool, modeB: text, roleB: Role, fencedB: bool)
    requires p.start <= p.end && {roleA, roleB} == {Primary, Secondary}
    ensures var pa, pb := ProviderOf(fencedA, modeA, Connected, roleA), ProviderOf(fencedB, modeB, Connected, roleB);
            (exists u: uint32 :: MeetIn(p, pa, pb, u))
            <==> !fencedA && !fencedB && MixedLead(modeA, roleA, modeB) && p.start < p.end
  {
    var pa, pb := ProviderOf(fencedA, modeA, Connected, roleA), ProviderOf(fencedB, modeB, Connected, roleB);
    var a := AllocationScope(fencedA, modeA, Connected, roleA, p.start, p.end);
    var b := AllocationScope(fencedB, modeB, Connected, roleB, p.start, p.end);
    OppositeOverlapIff(p.start, p.end, modeA, fencedA, roleA, modeB, fencedB, roleB);
    SplitExact(p.start, p.end);
    forall u: uint32 ensures MeetIn(p, pa, pb, u) <==> MayAllocate(a, u) && MayAllocate(b, u) {
      UsableExact(p, pa, u);
      UsableExact(p, pb, u);
    }
  }

  /** Of two connected nodes in opposite roles with the same separate pools,
      both may freshly hand out some address if and only if neither is fenced,
      the primary is configured active-passive, the secondary for load sharing,
      and some pool has more than one address. */
  lemma ScopesApart(specs: Specs, modeA: text, roleA: Role, fencedA: bool, modeB: text, roleB: Role, fencedB: bool)
    requires WellFormed(specs) && Separate(specs) && {roleA, roleB} == {Primary, Secondary}
    ensures var pa, pb := ProviderOf(fencedA, modeA, Connected, roleA), ProviderOf(fencedB, modeB, Connected, roleB);
            (exists u: uint32 {:trigger InScopeOf(specs, pa, u)} :: InScopeOf(specs, pa, u) && InScopeOf(specs, pb, u))
            <==> !fencedA && !fencedB && MixedLead(modeA, roleA, modeB)
                 && exists id {:trigger specs[id]} :: id in specs && specs[id].start < specs[id].end
  {
    var pa, pb := ProviderOf(fencedA, modeA, Connected, roleA), ProviderOf(fencedB, modeB, Connected, roleB);
    if u: uint32 :| InScopeOf(specs, pa, u) && InScopeOf(specs, pb, u) {
      SharedInOnePool(specs, pa, pb, u);
      var id :| id in specs && MeetIn(specs[id], pa, pb, u);
      ScopesMeetIff(specs[id], modeA, roleA, fencedA, modeB, roleB, fencedB);
    }
    if id :| id in specs && specs[id].start < specs[id].end && !fencedA && !fencedB && MixedLead(modeA, roleA, modeB) {
      ScopesMeetIff(specs[id], modeA, roleA, fencedA, modeB, roleB, fencedB);
      var u: uint32 :| MeetIn(specs[id], pa, pb, u);
      assert InScopeOf(specs, pa, u) && InScopeOf(specs, pb, u);
    }
  }

  /** Two nodes, the bits of each, and the addresses each has freshly handed out. */
  datatype Pairing = Pairing(marksA: Marks, marksB: Marks, givenA: set<uint32>, givenB: set<uint32>)

  /** A fresh allocation on one node, or any change of its bits: releases,
      reused leases, a rebuild. */
  datatype Turn = AllocateOnA(req: Request) | AllocateOnB(req: Request) | BitsOfA(marks: Marks) | BitsOfB(marks: Marks)

  function TakeTurn(specs: Specs, order: seq<text>, pa: Provider, pb: Provider, w: Pairing, turn: Turn): Pairing
    requires forall id :: id in order ==> id in specs && specs[id].start <= specs[id].end
  {
    match turn
    case AllocateOnA(req) =>
      (match Fresh(specs, order, w.marksA, req, pa)
       case None => w
       case Some((id, u)) => w.(marksA := w.marksA + {(id, u)}, givenA := w.givenA + {u}))
    case AllocateOnB(req) =>
      (match Fresh(specs, order, w.marksB, req, pb)
       case None => w
       case Some((id, u)) => w.(marksB := w.marksB + {(id, u)}, givenB := w.givenB + {u}))
    case BitsOfA(marks) => w.(marksA := marks)
    case BitsOfB(marks) => w.(marksB := marks)
  }

  function TakeTurns(specs: Specs, order: seq<text>, pa: Provider, pb: Provider, w: Pairing, turns: seq<Turn>): Pairing
    requires forall id :: id in order ==> id in specs && specs[id].start <= specs[id].end
  {
    if turns == [] then w
    else TakeTurn(specs, order, pa, pb, TakeTurns(specs, order, pa, pb, w, turns[..|turns| - 1]), turns[|turns| - 1])
  }

  lemma {:induction false} GivenInScope(specs: Specs, order: seq<text>, pa: Provider, pb: Provider, w: Pairing,
                                        turns: seq<Turn>)
    requires WellFormed(specs) && (forall id :: id in order ==> id in specs) && w.givenA == {} && w.givenB == {}
    ensures var t := TakeTurns(specs, order, pa, pb, w, turns);
            && (forall u :: u in t.givenA ==> InScopeOf(specs, pa, u))
            && (forall u :: u in t.givenB ==> InScopeOf(specs, pb, u))
  {
    if turns != [] {
      var n := |turns| - 1;
      GivenInScope(specs, order, pa, pb, w, turns[..n]);
      var t := TakeTurns(specs, order, pa, pb, w, turns[..n]);
      match turns[n]
      case AllocateOnA(req) => FreshExact(specs, order, t.marksA, req, pa);
      case AllocateOnB(req) => FreshExact(specs, order, t.marksB, req, pb);
      case _ =>
    }
  }

  /** Whatever the two providers grant: some interleaving hands out one address
      on both nodes if and only if both may use one. */
  lemma CollisionIff(specs: Specs, order: seq<text>, pa: Provider, pb: Provider, w: Pairing)
    requires WellFormed(specs) && (forall id :: id in order <==> id in specs) && w.givenA == {} && w.givenB == {}
    ensures (exists turns {:trigger TakeTurns(specs, order, pa, pb, w, turns)} ::
               var t := TakeTurns(specs, order, pa, pb, w, turns); !(t.givenA !! t.givenB))
            <==> exists u: uint32 {:trigger InScopeOf(specs, pa, u)} ::
                   InScopeOf(specs, pa, u) && InScopeOf(specs, pb, u)
  {
    forall turns | var t := TakeTurns(specs, order, pa, pb, w, turns); !(t.givenA !! t.givenB)
      ensures exists u: uint32 {:trigger InScopeOf(specs, pa, u)} :: InScopeOf(specs, pa, u) && InScopeOf(specs, pb, u)
    {
      GivenInScope(specs, order, pa, pb, w, turns);
      var t := TakeTurns(specs, order, pa, pb, w, turns);
      var u :| u in t.givenA && u in t.givenB;
      assert InScopeOf(specs, pa, u);
    }
    if u: uint32 :| InScopeOf(specs, pa, u) && InScopeOf(specs, pb, u) {
      var turns := CollidingTurns(specs, order, pa, pb, w, u);
    }
  }

  /** With its bits clear a node hands out any address it may use, on request. */
  lemma RequestedIsFresh(specs: Specs, order: seq<text>, p: Provider, u: uint32)
    requires WellFormed(specs) && (forall id :: id in order <==> id in specs) && InScopeOf(specs, p, u)
    ensures var r := Fresh(specs, order, {}, Request([], Some(u), None), p);
            r.Some? && r.value.1 == u
  {
    var clear: Marks := {};
    FreshExact(specs, order, clear, Request([], Some(u), None), p);
    var id :| id in specs && Usable(specs[id], p, u);
    assert (id, u) !in clear && HasRoom(specs, clear, p, id);
  }

  lemma CollidingTurns(specs: Specs, order: seq<text>, pa: Provider, pb: Provider, w: Pairing, u: uint32)
    returns (turns: seq<Turn>)
    requires WellFormed(specs) && (forall id :: id in order <==> id in specs)
    requires InScopeOf(specs, pa, u) && InScopeOf(specs, pb, u)
    ensures var t := TakeTurns(specs, order, pa, pb, w, turns);
            u in t.givenA && u in t.givenB
  {
    var ask := Request([], Some(u), None);
    RequestedIsFresh(specs, order, pa, u);
    RequestedIsFresh(specs, order, pb, u);
    var one, two := [BitsOfA({})], [BitsOfA({}), AllocateOnA(ask)];
    var three := two + [BitsOfB({})];
    turns := three + [AllocateOnB(ask)];
    assert turns[..3] == three && three[..2] == two && two[..1] == one && one[..0] == [];
    var t1 := TakeTurns(specs, order, pa, pb, w, one);
    var t2 := TakeTurns(specs, order, pa, pb, w, two);
    var t3 := TakeTurns(specs, order, pa, pb, w, three);
    assert t1.marksA == {} && u in t2.givenA && t3.marksB == {} && u in t3.givenA;
  }

  /** What a manager grants the pools of its node. */
  function ProviderFrom(c: Config, n: Node): Provider
  {
    ProviderOf(n.fenced, c.mode, n.peer, n.role)
  }

  /** What lets an elected pair hand out one address twice: neither node is
      fenced, the one elected primary is configured active-passive, the other
      for load sharing, and some pool has more than one address. */
  ghost predicate Colliding(specs: Specs, ca: Config, heardA: Node, cb: Config, heardB: Node)
  {
    && !heardA.fenced && !heardB.fenced && MixedLead(ca.mode, heardA.role, cb.mode)
    && exists id {:trigger specs[id]} :: id in specs && specs[id].start < specs[id].end
  }

  /** From the heartbeat to the packet: two managers that have heard from each
      other and keep their state, whose names differ ignoring case and of which
      not both are draining, hand out one address on both nodes in some
      interleaving of fresh allocations, releases and rebuilds if and only if
      their modes let them. In equal modes they never do. */
  lemma ElectedNodesCollideIff(specs: Specs, order: seq<text>, now: Time, ca: Config, a: Node, cb: Config, b: Node,
                               w: Pairing)
    requires WellFormed(specs) && Separate(specs) && (forall id :: id in order <==> id in specs)
    requires TrimSpace(ca.node) != [] && TrimSpace(cb.node) != [] && FoldName(ca.node) != FoldName(cb.node)
    requires !(IsDraining(a, now) && IsDraining(b, now))
    requires w.givenA == {} && w.givenB == {}
    ensures var heardA, heardB := Heard(ca, a, cb, IsDraining(b, now), now), Heard(cb, b, ca, IsDraining(a, now), now);
            var pa, pb := ProviderFrom(ca, heardA), ProviderFrom(cb, heardB);
            (exists turns {:trigger TakeTurns(specs, order, pa, pb, w, turns)} ::
               var t := TakeTurns(specs, order, pa, pb, w, turns); !(t.givenA !! t.givenB))
            <==> Colliding(specs, ca, heardA, cb, heardB)
    ensures NormalizeMode(ca.mode) == NormalizeMode(cb.mode) ==>
              !Colliding(specs, ca, Heard(ca, a, cb, IsDraining(b, now), now),
                         cb, Heard(cb, b, ca, IsDraining(a, now), now))
  {
    var heardA, heardB := Heard(ca, a, cb, IsDraining(b, now), now), Heard(cb, b, ca, IsDraining(a, now), now);
    ManagersTakeOppositeRoles(ca, a, cb, b, now);
    CollisionIff(specs, order, ProviderFrom(ca, heardA), ProviderFrom(cb, heardB), w);
    ScopesApart(specs, ca.mode, heardA.role, heardA.fenced, cb.mode, heardB.role, heardB.fenced);
  }

  /** Unless their modes let them, no interleaving does, also when a node walks
      only some of the pools. */
  lemma ElectedNodesNeverCollide(specs: Specs, order: seq<text>, now: Time, ca: Config, a: Node, cb: Config, b: Node,
                                 w: Pairing, turns: seq<Turn>)
    requires WellFormed(specs) && Separate(specs) && (forall id :: id in order ==> id in specs)
    requires TrimSpace(ca.node) != [] && TrimSpace(cb.node) != [] && FoldName(ca.node) != FoldName(cb.node)
    requires !(IsDraining(a, now) && IsDraining(b, now))
    requires !Colliding(specs, ca, Heard(ca, a, cb, IsDraining(b, now), now),
                        cb, Heard(cb, b, ca, IsDraining(a, now), now))
    requires w.givenA == {} && w.givenB == {}
    ensures var pa := ProviderFrom(ca, Heard(ca, a, cb, IsDraining(b, now), now));
            var pb := ProviderFrom(cb, Heard(cb, b, ca, IsDraining(a, now), now));
            var t := TakeTurns(specs, order, pa, pb, w, turns);
            t.givenA !! t.givenB
  {
    var heardA, heardB := Heard(ca, a, cb, IsDraining(b, now), now), Heard(cb, b, ca, IsDraining(a, now), now);
    ManagersTakeOppositeRoles(ca, a, cb, b, now);
    GivenInScope(specs, order, ProviderFrom(ca, heardA), ProviderFrom(cb, heardB), w, turns);
    ScopesApart(specs, ca.mode, heardA.role, heardA.fenced, cb.mode, heardB.role, heardB.fenced);
  }
}
