/** The pool manager object of internal/dhcpv4/pool.go: its bitmaps are the
    marks the rest of the model speaks of. It keeps the pools in the order
    of the configuration, one bitmap each, and a provider of scopes. */
module PoolManagers {
  import opened Bytes
  import opened Wrappers
  import opened GoText
  import opened Leases
  import opened Cidr
  import opened Pool

  class SubnetPool {
    const spec: PoolSpec
    const bitmap: array<bool>

    /** The size is computed in 32 bits: zero for a pool of all 2^32 addresses. */
    constructor (spec: PoolSpec)
      ensures this.spec == spec && fresh(bitmap)
      ensures bitmap.Length == (spec.end - spec.start + 1) % U32_LIMIT
      ensures forall i :: 0 <= i < bitmap.Length ==> !bitmap[i]
    {
      this.spec := spec;
      bitmap := new bool[(spec.end - spec.start + 1) % U32_LIMIT](i => false);
    }
  }

  /** One bit for every address of a pool, unless it is the whole IPv4 space. */
  lemma BitmapCoversPool(p: PoolSpec)
    requires p.start <= p.end
    ensures (p.end - p.start + 1) % U32_LIMIT == p.end - p.start + 1 <==> !(p.start == 0 && p.end == MAX)
  {
  }

  class PoolManager {
    const pools: map<text, SubnetPool>
    const order: seq<text>
    const names: IpText
    var scopeProvider: Provider
    ghost const specs: Specs
    ghost const bitmaps: set<array<bool>>
    ghost var marks: Marks

    /** Pools as configured, every address free. */
    constructor (pools: map<text, SubnetPool>, order: seq<text>, names: IpText, ghost specs: Specs)
      requires Built(pools, specs) && forall id :: id in order ==> id in pools
      ensures Valid() && marks == {} && scopeProvider == None
      ensures this.order == order && this.names == names && this.specs == specs
      ensures bitmaps == set id | id in pools :: pools[id].bitmap
    {
      this.pools := pools;
      this.order := order;
      this.names := names;
      this.scopeProvider := None;
      this.specs := specs;
      this.bitmaps := set id | id in pools :: pools[id].bitmap;
      this.marks := {};
    }

    /** The bitmap of a pool says which of its addresses are marked. */
    ghost predicate Tracks(id: text)
      requires id in pools && Sound(id, pools[id])
      reads this`marks, pools[id].bitmap
    {
      forall u: uint32 {:trigger (id, u) in marks} ::
        if InPool(pools[id].spec, u) then pools[id].bitmap[u - pools[id].spec.start] <==> (id, u) in marks
        else (id, u) !in marks
    }

    ghost predicate Valid()
      reads this`marks, bitmaps
    {
      && (forall id {:trigger pools[id]} :: id in pools ==>
            Sound(id, pools[id]) && pools[id].bitmap in bitmaps && Tracks(id))
      && (forall i, j {:trigger Distinct(pools, i, j)} :: i in pools && j in pools && i != j ==> Distinct(pools, i, j))
      && (forall id :: id in order ==> id in pools)
      && (forall m {:trigger m in marks} :: m in marks ==> m.0 in pools)
      && specs.Keys == pools.Keys
      && (forall id {:trigger specs[id]} :: id in specs ==> specs[id] == pools[id].spec)
    }

    /** SetScopeProvider. */
    method SetScopeProvider(provider: Provider)
      requires Valid()
      modifies this`scopeProvider
      ensures Valid() && scopeProvider == provider
    {
      scopeProvider := provider;
    }

    method SetUsed(id: text, u: uint32, used: bool)
      requires Valid() && id in pools
      modifies this`marks, bitmaps
      ensures Valid() && marks == SetBit(specs, old(marks), id, u, used)
    {
      var pool := pools[id];
      assert specs[id] == pool.spec;
      if u < pool.spec.start || u > pool.spec.end {
        return;
      }
      pool.bitmap[u - pool.spec.start] := used;
      marks := if used then marks + {(id, u)} else marks - {(id, u)};
      forall j | j in pools ensures Tracks(j) {
        if j != id {
          assert Distinct(pools, j, id);
        }
      }
    }

    /** nextFree; the loop also ends at 255.255.255.255. */
    method NextFreeIn(id: text) returns (r: Option<uint32>)
      requires Valid() && id in pools
      ensures r == NextFree(specs[id], marks, scopeProvider)
    {
      var pool := pools[id];
      assert specs[id] == pool.spec;
      var range := EffectiveRange(pool.spec, scopeProvider);
      if range == None {
        return None;
      }
      var (start, end) := range.value;
      var u := start;
      while u <= end
        invariant start <= u
        invariant LowestClear(marks, id, start, end) == if u <= end then LowestClear(marks, id, u, end) else None
        decreases end - u
      {
        var off := u - pool.spec.start;
        assert (id, u) in marks || (id, u) !in marks;
        if !pool.bitmap[off] {
          return Some(u);
        }
        if u == MAX {
          break;
        }
        u := u + 1;
      }
      return None;
    }

    method SelectCandidatePools(relay: Option<uint32>) returns (r: seq<text>)
      requires Valid()
      ensures r == Candidates(specs, order, relay)
    {
      if relay.Some? {
        assert order[0..] == order;
        for i := 0 to |order|
          invariant FirstHolding(specs, order, relay.value) == FirstHolding(specs, order[i..], relay.value)
        {
          assert order[i..][0] == order[i] && order[i..][1..] == order[i + 1..];
          assert order[i] in order;
          assert specs[order[i]] == pools[order[i]].spec;
          if PrefixContains(pools[order[i]].spec.prefix, V4(relay.value)) {
            return [order[i]];
          }
        }
      }
      return order;
    }

    method TryAllocateSpecific(cands: seq<text>, u: uint32) returns (r: Option<text>)
      requires Valid() && forall id :: id in cands ==> id in pools
      modifies this`marks, bitmaps
      ensures Valid() && r == TrySpecific(specs, old(marks), cands, scopeProvider, u)
      ensures r.Some? ==> r.value in specs && marks == SetBit(specs, old(marks), r.value, u, true)
      ensures r == None ==> marks == old(marks)
    {
      r := FindSpecific(cands, u);
      if r.Some? {
        SetUsed(r.value, u, true);
      }
    }

    /** The loop of tryAllocateSpecific over the candidate pools. */
    method FindSpecific(cands: seq<text>, u: uint32) returns (r: Option<text>)
      requires Valid() && forall id :: id in cands ==> id in pools
      ensures r == TrySpecific(specs, marks, cands, scopeProvider, u)
      ensures r.Some? ==> r.value in pools
    {
      assert cands[0..] == cands;
      for i := 0 to |cands|
        invariant TrySpecific(specs, marks, cands, scopeProvider, u)
                  == TrySpecific(specs, marks, cands[i..], scopeProvider, u)
      {
        var id := cands[i];
        assert cands[i..][0] == id && cands[i..][1..] == cands[i + 1..] && id in cands;
        var pool := pools[id];
        assert specs[id] == pool.spec;
        var range := EffectiveRange(pool.spec, scopeProvider);
        if range == None || u < range.value.0 || u > range.value.1 {
          continue;
        }
        var off := u - pool.spec.start;
        assert (id, u) in marks || (id, u) !in marks;
        if !pool.bitmap[off] {
          return Some(id);
        }
      }
      return None;
    }

    /** Allocate; `byMac` is what the store lists for the client's MAC, None
        when there is no store or it fails. */
    method Allocate(byMac: Option<seq<Lease>>, req: Request, now: Time) returns (r: Option<(text, uint32)>)
      requires Valid()
      modifies this`marks, bitmaps
      ensures Valid()
      ensures r == Allocation(specs, order, names, old(marks), byMac, req, scopeProvider, now)
      ensures r.Some? ==> r.value.0 in specs && marks == SetBit(specs, old(marks), r.value.0, r.value.1, true)
      ensures r == None ==> marks == old(marks)
    {
      if req.mac != [] && byMac.Some? {
        var leases := byMac.value;
        r := FindReusable(leases, now);
        if r.Some? {
          SetUsed(r.value.0, r.value.1, true);
          return;
        }
      }
      r := AllocateFresh(req);
    }

    /** Allocate without a lease to reuse. */
    method AllocateFresh(req: Request) returns (r: Option<(text, uint32)>)
      requires Valid()
      modifies this`marks, bitmaps
      ensures Valid()
      ensures r == Fresh(specs, order, old(marks), req, scopeProvider)
      ensures r.Some? ==> r.value.0 in specs && marks == SetBit(specs, old(marks), r.value.0, r.value.1, true)
      ensures r == None ==> marks == old(marks)
    {
      var candidates := SelectCandidatePools(req.relay);
      if req.requested.Some? {
        var specific := TryAllocateSpecific(candidates, req.requested.value);
        if specific.Some? {
          return Some((specific.value, req.requested.value));
        }
      }
      r := FindFree(candidates);
      if r.Some? {
        SetUsed(r.value.0, r.value.1, true);
      }
    }

    /** The loop of Allocate over the leases of the client. */
    method FindReusable(leases: seq<Lease>, now: Time) returns (r: Option<(text, uint32)>)
      requires Valid()
      ensures r == Reusable(specs, names, leases, now)
      ensures r.Some? ==> r.value.0 in pools
    {
      assert leases[0..] == leases;
      for i := 0 to |leases|
        invariant Reusable(specs, names, leases, now) == Reusable(specs, names, leases[i..], now)
      {
        var l := leases[i];
        assert leases[i..][0] == l && leases[i..][1..] == leases[i + 1..];
        if l.expiryTime < now {
          continue;
        }
        if l.state == Bound || l.state == Renewing || l.state == Offered {
          if l.subnetId in pools {
            var ip := names.parse(l.ip);
            if ip == None {
              continue;
            }
            return Some((l.subnetId, ip.value));
          }
        }
      }
      return None;
    }

    /** The loop of Allocate over the candidate pools. */
    method FindFree(cands: seq<text>) returns (r: Option<(text, uint32)>)
      requires Valid() && forall id :: id in cands ==> id in pools
      ensures r == FirstFree(specs, marks, cands, scopeProvider)
      ensures r.Some? ==> r.value.0 in pools
    {
      assert cands[0..] == cands;
      for i := 0 to |cands|
        invariant FirstFree(specs, marks, cands, scopeProvider) == FirstFree(specs, marks, cands[i..], scopeProvider)
      {
        assert cands[i..][0] == cands[i] && cands[i..][1..] == cands[i + 1..] && cands[i] in cands;
        var u := NextFreeIn(cands[i]);
        if u.Some? {
          return Some((cands[i], u.value));
        }
      }
      return None;
    }

    /** markAllocated and markFree: the pool the lease names, or else one whose
        prefix holds the address. */
    method MarkHome(u: uint32, subnetId: text, used: bool) returns (ghost home: Option<text>)
      requires Valid()
      modifies this`marks, bitmaps
      ensures Valid() && IsHome(specs, subnetId, u, home)
      ensures marks == SetHome(specs, old(marks), home, u, used)
    {
      if subnetId != [] {
        if subnetId in pools {
          SetUsed(subnetId, u, used);
          return Some(subnetId);
        }
      }
      var left := pools.Keys;
      while left != {}
        invariant left <= pools.Keys
        invariant forall id {:trigger specs[id]} :: id in specs && id !in left ==>
                    !PrefixContains(specs[id].prefix, V4(u))
      {
        var id :| id in left;
        assert specs[id] == pools[id].spec;
        if PrefixContains(pools[id].spec.prefix, V4(u)) {
          SetUsed(id, u, used);
          return Some(id);
        }
        left := left - {id};
      }
      return None;
    }

    /** Release. */
    method Release(u: uint32, subnetId: text) returns (ghost home: Option<text>)
      requires Valid()
      modifies this`marks, bitmaps
      ensures Valid() && IsHome(specs, subnetId, u, home)
      ensures marks == SetHome(specs, old(marks), home, u, false)
    {
      home := MarkHome(u, subnetId, false);
    }

    /** Every bit of one pool cleared. */
    method ClearPool(id: text)
      requires Valid() && id in pools
      modifies this`marks, bitmaps
      ensures Valid() && marks == old(marks) - set m | m in old(marks) && m.0 == id
    {
      var pool := pools[id];
      assert specs[id] == pool.spec;
      forall m | m in marks && m.0 == id ensures m.1 <= pool.spec.end {
        assert (id, m.1) in marks;
      }
      for i := 0 to pool.bitmap.Length
        invariant Valid()
        invariant marks == old(marks) - set m | m in old(marks) && m.0 == id && m.1 < pool.spec.start + i
      {
        ghost var was := marks;
        SetUsed(id, pool.spec.start + i, false);
      }
    }

    method ClearAll()
      requires Valid()
      modifies this`marks, bitmaps
      ensures Valid() && marks == {}
    {
      var left := pools.Keys;
      while left != {}
        invariant left <= pools.Keys && Valid()
        invariant forall m {:trigger m in marks} :: m in marks ==> m.0 in left
      {
        var id :| id in left;
        ClearPool(id);
        left := left - {id};
      }
    }

    /** SyncFromLeases; None when the store cannot list its leases. */
    method SyncFromLeases(listed: Option<seq<Lease>>) returns (ghost homes: seq<Option<text>>)
      requires Valid()
      modifies this`marks, bitmaps
      ensures Valid()
      ensures listed == None ==> marks == {}
      ensures listed.Some? ==> AreHomes(specs, names, listed.value, homes)
                               && marks == Synced(specs, names, listed.value, homes)
    {
      ClearAll();
      homes := [];
      if listed == None {
        return;
      }
      var leases := listed.value;
      for i := 0 to |leases|
        invariant Valid() && AreHomes(specs, names, leases[..i], homes)
        invariant marks == Synced(specs, names, leases[..i], homes)
      {
        ghost var home: Option<text> := None;
        if Holds(leases[i].state) {
          var ip := names.parse(leases[i].ip);
          if ip.Some? {
            home := MarkHome(ip.value, leases[i].subnetId, true);
          }
        }
        SyncedNext(specs, names, leases, homes, i, home);
        homes := homes + [home];
      }
      assert leases[..|leases|] == leases;
    }
  }

  ghost predicate Distinct(pools: map<text, SubnetPool>, i: text, j: text)
  {
    i in pools && j in pools && pools[i].bitmap != pools[j].bitmap
  }

  ghost predicate Sound(id: text, p: SubnetPool)
  {
    p.spec.id == id && p.spec.start <= p.spec.end && p.bitmap.Length == p.spec.end - p.spec.start + 1
  }
  // ---------- from the configuration ----------

  /** A subnet as configured; None is text that does not parse. */
  datatype SubnetConfig = SubnetConfig(enabled: bool, cidr: text, prefix: Option<Prefix>,
                                       start: Option<uint32>, end: Option<uint32>, leaseDuration: Duration)

  datatype ConfigError = BadCidr | BadPoolStart | BadPoolEnd | ReversedRange

  /** What is wrong with an enabled subnet, in the order it is looked at. */
  function ErrorOf(c: SubnetConfig): Option<ConfigError>
  {
    if !c.enabled then None
    else if c.prefix == None then Some(BadCidr)
    else if c.start == None then Some(BadPoolStart)
    else if c.end == None then Some(BadPoolEnd)
    else if c.end.value < c.start.value then Some(ReversedRange)
    else None
  }

  predicate Usable(c: SubnetConfig)
  {
    c.enabled && ErrorOf(c) == None
  }

  function SpecOf(c: SubnetConfig, defaultLease: Duration): PoolSpec
    requires Usable(c)
  {
    PoolSpec(c.cidr, c.prefix.value, c.start.value, c.end.value,
             if c.leaseDuration <= 0 then defaultLease else c.leaseDuration)
  }

  /** The pools of the enabled subnets; a later one with the same id wins. */
  function FiledSpecs(configs: seq<SubnetConfig>, defaultLease: Duration): Specs
  {
    if configs == [] then map[] else
      var last := configs[|configs| - 1];
      var front := FiledSpecs(configs[..|configs| - 1], defaultLease);
      if Usable(last) then front[last.cidr := SpecOf(last, defaultLease)] else front
  }

  ghost predicate Built(pools: map<text, SubnetPool>, specs: Specs)
    reads set id | id in pools :: pools[id].bitmap
  {
    && pools.Keys == specs.Keys
    && (forall id {:trigger pools[id]} :: id in pools ==>
          Sound(id, pools[id]) && pools[id].spec == specs[id]
          && forall k :: 0 <= k < pools[id].bitmap.Length ==> !pools[id].bitmap[k])
    && (forall i, j {:trigger Distinct(pools, i, j)} :: i in pools && j in pools && i != j ==> Distinct(pools, i, j))
  }

  /** The order of the pools. */
  function Ids(configs: seq<SubnetConfig>): seq<text>
  {
    if configs == [] then [] else
      var last := configs[|configs| - 1];
      Ids(configs[..|configs| - 1]) + if Usable(last) then [last.cidr] else []
  }

  lemma {:induction false} IdsFiled(configs: seq<SubnetConfig>, defaultLease: Duration)
    ensures forall id :: id in Ids(configs) <==> id in FiledSpecs(configs, defaultLease)
  {
    if configs != [] {
      IdsFiled(configs[..|configs| - 1], defaultLease);
    }
  }

  /** The first error in the list, if there is any. */
  ghost predicate IsFirstError(configs: seq<SubnetConfig>, e: ConfigError)
  {
    exists i {:trigger configs[i]} :: 0 <= i < |configs| && ErrorOf(configs[i]) == Some(e)
      && forall j {:trigger configs[j]} :: 0 <= j < i ==> ErrorOf(configs[j]) == None
  }

  ghost predicate NoError(configs: seq<SubnetConfig>)
  {
    forall i {:trigger configs[i]} :: 0 <= i < |configs| ==> ErrorOf(configs[i]) == None
  }

  /** No usable pool is the whole IPv4 space. */
  ghost predicate Narrow(configs: seq<SubnetConfig>)
  {
    forall i {:trigger configs[i]} :: 0 <= i < |configs| && Usable(configs[i]) ==>
      !(configs[i].start.value == 0 && configs[i].end.value == MAX)
  }

  method AddPool(pools: map<text, SubnetPool>, ghost specs: Specs, spec: PoolSpec) returns (more: map<text, SubnetPool>)
    requires Built(pools, specs) && spec.start <= spec.end && !(spec.start == 0 && spec.end == MAX)
    ensures Built(more, specs[spec.id := spec])
    ensures forall id {:trigger more[id]} :: id in more ==>
              fresh(more[id].bitmap) || (id in pools && more[id] == pools[id])
  {
    BitmapCoversPool(spec);
    var pool := new SubnetPool(spec);
    more := pools[spec.id := pool];
    forall i, j | i in more && j in more && i != j ensures Distinct(more, i, j) {
      assert i in pools && j in pools ==> Distinct(pools, i, j);
    }
  }

  datatype Loaded = Broken(error: ConfigError) | Pools(pools: map<text, SubnetPool>)

  /** The loop of NewPoolManager over the configured subnets, in order. */
  method BuildPools(configs: seq<SubnetConfig>, defaultLease: Duration) returns (r: Loaded)
    requires Narrow(configs)
    ensures r.Broken? ==> IsFirstError(configs, r.error)
    ensures r.Pools? ==> NoError(configs) && Built(r.pools, FiledSpecs(configs, defaultLease))
    ensures r.Pools? ==> forall id {:trigger r.pools[id]} :: id in r.pools ==> fresh(r.pools[id].bitmap)
  {
    var pools: map<text, SubnetPool> := map[];
    for i := 0 to |configs|
      invariant forall j {:trigger configs[j]} :: 0 <= j < i ==> ErrorOf(configs[j]) == None
      invariant forall id {:trigger pools[id]} :: id in pools ==> fresh(pools[id].bitmap)
      invariant Built(pools, FiledSpecs(configs[..i], defaultLease))
    {
      assert configs[..i + 1][..i] == configs[..i];
      var c := configs[i];
      if !c.enabled {
        continue;
      }
      var error := ErrorOf(c);
      if error.Some? {
        return Broken(error.value);
      }
      pools := AddPool(pools, FiledSpecs(configs[..i], defaultLease), SpecOf(c, defaultLease));
    }
    assert configs[..|configs|] == configs;
    return Pools(pools);
  }

  datatype Created = Rejected(why: ConfigError) | Created(manager: PoolManager)

  /** NewPoolManager, before it reads the leases: the first subnet in error
      stops it; disabled ones are not looked at. */
  method NewPoolManager(configs: seq<SubnetConfig>, names: IpText, defaultLease: Duration) returns (r: Created)
    requires Narrow(configs)
    ensures r.Rejected? <==> !NoError(configs)
    ensures r.Rejected? ==> IsFirstError(configs, r.why)
    ensures r.Created? ==> fresh(r.manager) && fresh(r.manager.bitmaps) && r.manager.Valid() && r.manager.marks == {}
                           && r.manager.specs == FiledSpecs(configs, defaultLease) && r.manager.order == Ids(configs)
                           && r.manager.names == names
  {
    var built := BuildPools(configs, defaultLease);
    if built.Broken? {
      return Rejected(built.error);
    }
    IdsFiled(configs, defaultLease);
    var manager := new PoolManager(built.pools, Ids(configs), names, FiledSpecs(configs, defaultLease));
    return Created(manager);
  }
}
