/** The handler and sweeper objects, step by step, and the lease store of the
    storage engine in the place of their table. */
module Server {
  import opened Bytes
  import opened Wrappers
  import opened BTree
  import opened GoText
  import opened Leases
  import opened Pool
  import opened PoolManagers
  import opened Handler
  import opened Storage
  import LeaseIndex
  import LeaseStore
  import LastWriter

  datatype Reply = NoReply | StoreFailed | NoAddress | Nak | Offer(u: uint32) | Ack(u: uint32)

  class Server {
    const pools: PoolManager
    const store: LeaseTable

    constructor (pools: PoolManager, store: LeaseTable)
      ensures this.pools == pools && this.store == store
    {
      this.pools := pools;
      this.store := store;
    }

    ghost function Site(): Handler.Site
    {
      Handler.Site(pools.specs, pools.order, pools.names)
    }

    ghost function World(): Handler.World
      reads pools, store
    {
      Handler.World(store.leases, pools.marks)
    }

    ghost predicate Ready()
      reads pools, pools.bitmaps, store
    {
      pools.Valid() && SiteOk(Site()) && Filed(Site(), store.leases)
    }

    /** What DISCOVER and REQUEST have in common. */
    method Grant(ask: Ask, state: LeaseState) returns (found: Option<(text, uint32)>, ok: bool)
      requires Ready() && ask.provider == pools.scopeProvider
      modifies pools`marks, pools.bitmaps, store
      ensures pools.Valid() && World() == Handler.Grant(Site(), old(World()), ask, state)
      ensures found == Found(Site(), old(World()), ask) && (ok <==> found.Some? && ask.outcome == Done)
    {
      ghost var w := World();
      found := AllocateFor(ask);
      if found == None {
        return None, false;
      }
      GrantFound(Site(), w, ask, state, found.value.0, found.value.1);
      ok := WriteLease(ask, state, found.value.0, found.value.1);
    }

    method AllocateFor(ask: Ask) returns (found: Option<(text, uint32)>)
      requires pools.Valid() && SiteOk(Site()) && ask.provider == pools.scopeProvider
      modifies pools`marks, pools.bitmaps
      ensures pools.Valid() && found == Found(Site(), old(World()), ask)
      ensures pools.marks == if found == None then old(pools.marks)
                             else SetBit(pools.specs, old(pools.marks), found.value.0, found.value.1, true)
    {
      found := pools.Allocate(ask.byMac, ask.req, ask.now);
    }

    /** The lease of a grant, written to the store. */
    method WriteLease(ask: Ask, state: LeaseState, id: text, u: uint32) returns (ok: bool)
      requires pools.Valid() && id in pools.specs && TrimSpace(pools.names.format(u)) != []
      modifies store
      ensures store.leases == if ask.outcome != Failed
                              then Put(old(store.leases), NewLease(Site(), id, u, ask, state), ask.now)
                              else old(store.leases)
      ensures ok <==> ask.outcome == Done
    {
      var duration := pools.pools[id].spec.leaseDuration;
      assert pools.specs[id] == pools.pools[id].spec;
      var l := Lease(pools.names.format(u), ask.req.mac, ask.clientId, state, ask.now, duration, 0, 0,
                     ask.now + duration, ZERO_TIME, id, ask.now, ZERO_TIME, ZERO_TIME, ask.rest);
      ok := store.Upsert(l, ask.now, ask.outcome);
    }

    method HandleDiscover(ask: Ask, rapidCommit: bool) returns (reply: Reply)
      requires Ready() && ask.provider == pools.scopeProvider && Possible(Site(), World(), Discover(ask, rapidCommit))
      modifies pools`marks, pools.bitmaps, store
      ensures pools.Valid() && World() == Step(Site(), old(World()), Discover(ask, rapidCommit))
      ensures var found := Found(Site(), old(World()), ask);
              reply == if found == None then NoAddress
                       else if ask.outcome != Done then StoreFailed
                       else if rapidCommit then Ack(found.value.1)
                       else Offer(found.value.1)
    {
      var found, ok := Grant(ask, if rapidCommit then Bound else Offered);
      if found == None {
        return NoAddress;
      }
      if !ok {
        return StoreFailed;
      }
      return if rapidCommit then Ack(found.value.1) else Offer(found.value.1);
    }

    method HandleRequest(ask: Ask) returns (reply: Reply)
      requires Ready() && ask.provider == pools.scopeProvider && Possible(Site(), World(), RequestFrom(ask))
      modifies pools`marks, pools.bitmaps, store
      ensures pools.Valid() && World() == Step(Site(), old(World()), RequestFrom(ask))
      ensures var found := Found(Site(), old(World()), ask);
              reply == if found == None then Nak else if ask.outcome != Done then StoreFailed else Ack(found.value.1)
    {
      var found, ok := Grant(ask, Bound);
      if found == None {
        return Nak;
      }
      if !ok {
        return StoreFailed;
      }
      return Ack(found.value.1);
    }

    method HandleRelease(ciaddr: Option<uint32>, requested: Option<uint32>, now: Time, outcome: Outcome)
      returns (ok: bool, ghost home: Option<text>)
      requires Ready()
      modifies pools`marks, pools.bitmaps, store
      ensures pools.Valid() && Possible(Site(), old(World()), Release(ciaddr, requested, now, outcome, home))
      ensures World() == Step(Site(), old(World()), Release(ciaddr, requested, now, outcome, home))
      ensures ok <==> outcome == Done || ReleaseTarget(ciaddr, requested) == None
                      || pools.names.format(ReleaseTarget(ciaddr, requested).value) !in old(store.leases)
    {
      var ip := NonZero(ciaddr);
      home := None;
      if ip == None {
        ip := requested;
      }
      if ip == None {
        return true, None;
      }
      var name := pools.names.format(ip.value);
      if name !in store.leases {
        return true, None;
      }
      var l := store.leases[name];
      home := SomeHome(pools.specs, l.subnetId, ip.value);
      assert l.ip == name;
      l := l.(state := Released, updatedAt := now, expiryTime := now);
      ok := store.Upsert(l, now, outcome);
      if ok {
        home := pools.Release(ip.value, l.subnetId);
      }
    }

    method HandleDecline(ciaddr: Option<uint32>, requested: Option<uint32>, now: Time, outcome: Outcome)
      returns (ok: bool)
      requires Ready()
      modifies store
      ensures World() == Step(Site(), old(World()), Decline(ciaddr, requested, now, outcome))
      ensures ok <==> outcome == Done || DeclineTarget(ciaddr, requested) == None
                      || pools.names.format(DeclineTarget(ciaddr, requested).value) !in old(store.leases)
    {
      var ip := requested;
      if ip == None {
        ip := ciaddr;
      }
      if ip == None || ip.value == 0 {
        return true;
      }
      var name := pools.names.format(ip.value);
      if name !in store.leases {
        return true;
      }
      var l := store.leases[name];
      assert l.ip == name;
      l := l.(state := Declined, quarantineUntil := now + 15 * 60 * SECOND, updatedAt := now);
      ok := store.Upsert(l, now, outcome);
    }
  }

  ghost function SomeHome(specs: Specs, subnetId: text, u: uint32): (home: Option<text>)
    ensures IsHome(specs, subnetId, u, home)
  {
    if subnetId != [] && subnetId in specs then Some(subnetId)
    else if id :| id in specs && Cidr.PrefixContains(specs[id].prefix, Cidr.V4(u)) then Some(id)
    else None
  }

  // ---------- the sweeper ----------

  /** One sweeper tick over the leases that are due; writes of `failed`
      addresses fail. */
  method Sweep(store: LeaseTable, due: seq<Lease>, quarantine: Duration, now: Time, failed: set<text>)
    requires Listing(store.leases, due)
    requires forall l :: l in due ==> TrimSpace(l.ip) != []
    modifies store
    ensures store.leases == AfterTick(old(store.leases), due, quarantine, now, failed)
  {
    for i := 0 to |due|
      invariant store.leases == AfterTick(old(store.leases), due[..i], quarantine, now, failed)
    {
      TickNext(old(store.leases), due, i, quarantine, now, failed);
      var l, changed := due[i], false;
      match l.state {
        case Bound | Renewing | Offered =>
          l := l.(state := Expired, quarantineUntil := now + quarantine, updatedAt := now);
          changed := true;
        case Expired =>
          if l.quarantineUntil == ZERO_TIME {
            l := l.(quarantineUntil := now + quarantine, state := Quarantined, updatedAt := now);
            changed := true;
          } else if now > l.quarantineUntil {
            l := l.(state := Free, updatedAt := now);
            changed := true;
          }
        case Quarantined =>
          if l.quarantineUntil != ZERO_TIME && now > l.quarantineUntil {
            l := l.(state := Free, updatedAt := now);
            changed := true;
          }
        case _ =>
      }
      if changed {
        assert due[i] in due;
        var _ := store.Upsert(l, now, if l.ip in failed then Failed else Done);
      }
    }
    assert due[..|due|] == due;
  }

  // ---------- the store of the storage engine ----------

  /** The leases in the primary table of an engine. */
  function LeasesOf(c: LeaseIndex.Codec, s: State): Table
  {
    var table := TreeOf(s.trees, LeaseIndex.LEASES);
    map ip | ip in table && LeaseIndex.StoredLease(c, table, ip).Some? :: LeaseIndex.StoredLease(c, table, ip).value
  }

  /** Upsert on the engine is Put on its leases. */
  lemma EngineUpsertIsPut(c: LeaseIndex.Codec, s: State, l: Lease, now: Time, silent: bool)
    requires LeaseIndex.Faithful(c) && LeaseIndex.Exact(c, s.trees) && LeaseIndex.Sized(s.trees) && !s.closed
    requires TrimSpace(l.ip) != [] && SEP !in l.ip
    requires var n := NormalizeDefaults(l, now, 12 * HOUR);
             LeaseIndex.FitsIndexes(n) && Loggable(LastWriter.Write((LeaseIndex.LEASES, n.ip), Some(c.encode(n))))
    ensures LeasesOf(c, LeaseIndex.UpsertState(c, s, l, now, silent)) == Put(LeasesOf(c, s), l, now)
  {
    LeaseIndex.UpsertKeepsExact(c, s, l, now, silent);
    assert c.decode(c.encode(NormalizeDefaults(l, now, 12 * HOUR))).Some?;
  }

  /** GetByMAC on an engine whose indexes are exact answers truthfully, when no
      stored hardware address holds the separator. */
  lemma EngineAnswersMac(c: LeaseIndex.Codec, s: State, mac: text)
    requires LeaseIndex.Exact(c, s.trees)
    requires forall ip {:trigger LeasesOf(c, s)[ip]} :: ip in LeasesOf(c, s) ==>
               SEP !in NormalizeMac(LeasesOf(c, s)[ip].mac)
    ensures var answer := LeaseStore.FetchByField(c, s, LeaseIndex.ByMac, NormalizeMac(mac));
            answer.Some? && MacAnswer(LeasesOf(c, s), mac, answer.value)
  {
    var x := NormalizeMac(mac);
    LeaseStore.LookupExact(c, s, LeaseIndex.ByMac, x);
    var table, leases := TreeOf(s.trees, LeaseIndex.LEASES), LeasesOf(c, s);
    var ls := LeaseStore.FetchByField(c, s, LeaseIndex.ByMac, x).value;
    forall l: Lease
      ensures l in ls <==> l.ip in leases && leases[l.ip] == l && l.mac != [] && SameMac(l.mac, mac) {
      assert l in ls <==> LeaseIndex.StoredLease(c, table, l.ip) == Some(l) && LeaseStore.Found(LeaseIndex.ByMac, l, x);
      if LeaseIndex.StoredLease(c, table, l.ip) == Some(l) {
        assert leases[l.ip] == l;
        assert (x + [SEP])[|x|] == SEP;
      }
    }
  }

  /** ListExpiringBefore on such an engine lists stored leases, each once. */
  lemma EngineListsDue(c: LeaseIndex.Codec, s: State, t: Time)
    requires LeaseIndex.Exact(c, s.trees)
    ensures LeaseStore.FetchExpiring(c, s, t).Some? && Listing(LeasesOf(c, s), LeaseStore.FetchExpiring(c, s, t).value)
  {
    LeaseStore.ExpiringAnswers(c, s, t);
    var ls := LeaseStore.FetchExpiring(c, s, t).value;
    forall i | 0 <= i < |ls| ensures ls[i].ip in LeasesOf(c, s) && LeasesOf(c, s)[ls[i].ip] == ls[i] {
      assert ls[i] in ls;
    }
  }
}
