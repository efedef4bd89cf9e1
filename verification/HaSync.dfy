/** internal/ha/sync.go and the sync messages of internal/ha/failover.go as they
    run on the secondary: a manager object and the lease store it writes to. */
module HaSync {
  import opened Wrappers
  import opened LastWriter
  import opened GoText
  import opened Leases
  import opened HaElection
  import opened HaManager
  import opened HaReplication

  /** Leases up to the time each was last written, which every replica write
      sets anew. */
  function Cores(m: Table): (r: Table)
    ensures r.Keys == m.Keys
  {
    map ip | ip in m :: Core(m[ip])
  }

  /** A lease whose defaults are all filled in: storing it again keeps it. */
  ghost predicate Settled(l: Lease)
  {
    forall now {:trigger NormalizeDefaults(l, now, 12 * HOUR)} :: Core(NormalizeDefaults(l, now, 12 * HOUR)) == Core(l)
  }

  /** Leases filed under their own addresses, which have no blanks around them. */
  ghost predicate Filed(m: Table)
  {
    forall ip {:trigger m[ip]} :: ip in m ==> m[ip].ip == ip && ip != [] && TrimSpace(ip) == ip && Settled(m[ip])
  }

  /** A lease as the primary stores it is settled. */
  lemma StoredIsSettled(l: Lease, now: Time)
    requires now != ZERO_TIME
    ensures Settled(NormalizeDefaults(l, now, 12 * HOUR))
  {
    forall later ensures Core(NormalizeDefaults(NormalizeDefaults(l, now, 12 * HOUR), later, 12 * HOUR))
                      == Core(NormalizeDefaults(l, now, 12 * HOUR)) {
      NormalizeTwice(l, now, later, 12 * HOUR);
    }
  }

  /** The leases of a snapshot message by address; the last one wins. */
  function Desired(leases: seq<Lease>): Table
  {
    if leases == [] then map[] else
      var n := |leases| - 1;
      var ip := TrimSpace(leases[n].ip);
      if ip == [] then Desired(leases[..n]) else Desired(leases[..n])[ip := leases[n].(ip := ip)]
  }

  /** ListAll: every lease of the table once, in some order. */
  ghost predicate Lists(leases: seq<Lease>, m: Table)
  {
    && (forall i {:trigger leases[i]} :: 0 <= i < |leases| ==> leases[i].ip in m && m[leases[i].ip] == leases[i])
    && (forall ip {:trigger m[ip]} :: ip in m ==> m[ip] in leases)
  }

  /** What the secondary makes of a snapshot is the primary's table, whatever
      the order of its leases. */
  lemma SnapshotOfTable(leases: seq<Lease>, m: Table)
    requires Filed(m) && Lists(leases, m)
    ensures Desired(leases) == m
  {
    DesiredFiled(leases, m);
    forall ip | ip in m ensures ip in Desired(leases) {
      var i :| 0 <= i < |leases| && leases[i] == m[ip];
    }
  }

  lemma {:induction false} DesiredFiled(leases: seq<Lease>, m: Table)
    requires Filed(m)
    requires forall i {:trigger leases[i]} :: 0 <= i < |leases| ==> leases[i].ip in m && m[leases[i].ip] == leases[i]
    ensures var d := Desired(leases);
            && (forall ip {:trigger d[ip]} :: ip in d ==> ip in m && d[ip] == m[ip])
            && (forall i {:trigger leases[i]} :: 0 <= i < |leases| ==> leases[i].ip in d)
  {
    if leases != [] {
      var n := |leases| - 1;
      assert forall i :: 0 <= i < n ==> leases[..n][i] == leases[i];
      DesiredFiled(leases[..n], m);
      var l := leases[n];
      assert m[l.ip].ip == l.ip;
    }
  }

  /** What a replica write and a replica delete do to the table. */
  lemma PutSettled(m: Table, l: Lease, now: Time)
    requires TrimSpace(l.ip) == l.ip != [] && Settled(l) && Filed(m)
    ensures var put := m[l.ip := NormalizeDefaults(l, now, 12 * HOUR)];
            Filed(put) && Cores(put) == Cores(m)[l.ip := Core(l)]
  {
    SettledAgain(l, now);
  }

  lemma TakeSettled(m: Table, ip: text)
    requires Filed(m)
    ensures Filed(m - {ip}) && Cores(m - {ip}) == Cores(m) - {ip}
  {
  }

  lemma SettledAgain(l: Lease, now: Time)
    requires Settled(l)
    ensures Settled(NormalizeDefaults(l, now, 12 * HOUR))
  {
    var stored := NormalizeDefaults(l, now, 12 * HOUR);
    assert Core(stored) == Core(l);
    forall later ensures Core(NormalizeDefaults(stored, later, 12 * HOUR)) == Core(stored) {
      assert Core(NormalizeDefaults(l, later, 12 * HOUR)) == Core(l);
      assert stored == l.(updatedAt := now);
      assert NormalizeDefaults(stored, later, 12 * HOUR) == NormalizeDefaults(l, later, 12 * HOUR);
    }
  }

  /** The leases while a snapshot is put over them: those in `done` are. */
  function Overlay(before: Table, target: Table, done: set<text>): (r: Table)
    requires done <= target.Keys
    ensures Mixed(before, target, r)
  {
    map k | k in before.Keys + done :: if k in done then target[k] else before[k]
  }

  /** What a snapshot makes of the leases: itself, or in load-sharing mode,
      where each node has leases of its own, itself over them. */
  function Applied(mode: Mode, before: Table, target: Table): Table
  {
    match mode
    case ActivePassive => target
    case LoadSharing => Overlay(before, target, target.Keys)
  }

  /** The leases while those the snapshot lacks are deleted: `left` are to do. */
  function Pruned(before: Table, target: Table, left: set<text>): (r: Table)
    ensures Mixed(before, target, r)
  {
    map k | k in before.Keys + target.Keys && (k in target || k in left) ::
      if k in target then target[k] else before[k]
  }

  lemma OverlayOne(before: Table, target: Table, done: set<text>, ip: text)
    requires done <= target.Keys && ip in target
    ensures Overlay(before, target, done)[ip := target[ip]] == Overlay(before, target, done + {ip})
  {
  }

  lemma PrunedOne(before: Table, target: Table, left: set<text>, ip: text)
    requires ip in left
    ensures Pruned(before, target, left - {ip})
            == if ip in target then Pruned(before, target, left) else Pruned(before, target, left) - {ip}
  {
  }

  /** Where the two loops start and end. */
  lemma RebuildEnds(before: Table, target: Table)
    ensures var all := Overlay(before, target, target.Keys);
            Pruned(before, target, all.Keys) == all
    ensures Overlay(before, target, target.Keys - target.Keys) == before
    ensures Pruned(before, target, {}) == target
  {
  }

  class Secondary {
    const manager: Manager
    const store: LeaseTable

    constructor (manager: Manager, store: LeaseTable)
      ensures this.manager == manager && this.store == store
    {
      this.manager := manager;
      this.store := store;
    }

    /** lease_upsert and lease_delete. The outcome says how the store write
        ends if there is one; true asks the primary for a snapshot. */
    method HandleIncremental(sequence: int, w: Write<text, Lease>, outcome: Outcome, now: Time) returns (resync: bool)
      requires Filed(store.leases)
      requires w.value.Some? ==> w.value.value.ip == w.key && TrimSpace(w.key) == w.key && Settled(w.value.value)
      modifies manager`snapshotDone, manager`appliedSequence, store
      ensures Filed(store.leases)
      ensures var core := Write(w.key, if w.value == None then None else Some(Core(w.value.value)));
              (manager.Now(), Cores(store.leases), resync)
              == ReceiveAt(old(manager.Now()), Cores(old(store.leases)), sequence, core, outcome)
    {
      var verdict := manager.ClassifyIncrementalSequence(sequence);
      if verdict.resync {
        return true;
      }
      if !verdict.apply {
        return false;
      }
      if TrimSpace(w.key) != [] && outcome != Failed {
        if w.value.Some? {
          PutSettled(store.leases, w.value.value, now);
          var _ := store.Upsert(w.value.value, now, outcome);
        } else {
          TakeSettled(store.leases, w.key);
          store.Delete(w.key);
        }
        if outcome == Done {
          manager.RaiseAppliedSequence(sequence);
        }
      }
      return false;
    }

    /** The first loop of applySnapshot. */
    method BuildDesired(leases: seq<Lease>) returns (desired: Table)
      ensures desired == Desired(leases)
    {
      desired := map[];
      assert leases[..0] == [];
      for i := 0 to |leases|
        invariant desired == Desired(leases[..i])
      {
        assert leases[..i + 1][..i] == leases[..i];
        var ip := TrimSpace(leases[i].ip);
        if ip == [] {
          continue;
        }
        desired := desired[ip := leases[i].(ip := ip)];
      }
      assert leases[..|leases|] == leases;
    }

    /** applySnapshot: put every lease of the snapshot, then delete every other
        one unless load is shared. `budget` writes succeed, the next fails. */
    method ApplySnapshot(leases: seq<Lease>, budget: nat, now: Time) returns (ok: bool)
      requires Filed(store.leases) && Filed(Desired(leases))
      modifies store
      ensures Filed(store.leases)
      ensures ok ==> Cores(store.leases)
                     == Applied(NormalizeMode(manager.config.mode), Cores(old(store.leases)), Cores(Desired(leases)))
      ensures Mixed(Cores(old(store.leases)), Cores(Desired(leases)), Cores(store.leases))
    {
      var desired := BuildDesired(leases);
      ghost var before := Cores(store.leases);
      var left: nat;
      ok, left := PutDesired(desired, budget, now);
      if !ok || NormalizeMode(manager.config.mode) == LoadSharing {
        return;
      }
      ok := PruneOthers(before, desired, left);
    }

    /** The second loop: writes of all leases of the snapshot. */
    method PutDesired(desired: Table, budget: nat, now: Time) returns (ok: bool, unspent: nat)
      requires Filed(store.leases) && Filed(desired)
      modifies store
      ensures Filed(store.leases)
      ensures ok ==> Cores(store.leases) == Overlay(Cores(old(store.leases)), Cores(desired), Cores(desired).Keys)
      ensures Mixed(Cores(old(store.leases)), Cores(desired), Cores(store.leases))
    {
      ghost var before, target := Cores(store.leases), Cores(desired);
      var left := desired.Keys;
      unspent := budget;
      RebuildEnds(before, target);
      while left != {}
        invariant left <= desired.Keys && Filed(store.leases)
        invariant Cores(store.leases) == Overlay(before, target, desired.Keys - left)
      {
        var ip :| ip in left;
        if unspent == 0 {
          return false, 0;
        }
        OverlayOne(before, target, desired.Keys - left, ip);
        assert desired.Keys - left + {ip} == desired.Keys - (left - {ip});
        PutSettled(store.leases, desired[ip], now);
        var _ := store.Upsert(desired[ip], now, Done);
        unspent, left := unspent - 1, left - {ip};
      }
      assert desired.Keys - left == target.Keys;
      ok := true;
    }

    /** The third loop: deletes of all others. */
    method PruneOthers(ghost before: Table, desired: Table, budget: nat) returns (ok: bool)
      requires Filed(store.leases) && Filed(desired)
      requires Cores(store.leases) == Overlay(before, Cores(desired), Cores(desired).Keys)
      modifies store
      ensures Filed(store.leases)
      ensures ok ==> Cores(store.leases) == Cores(desired)
      ensures Mixed(before, Cores(desired), Cores(store.leases))
    {
      ghost var target := Cores(desired);
      var existing, unspent := store.leases.Keys, budget;
      RebuildEnds(before, target);
      while existing != {}
        invariant existing <= store.leases.Keys && Filed(store.leases)
        invariant Cores(store.leases) == Pruned(before, target, existing)
      {
        var ip :| ip in existing;
        PrunedOne(before, target, existing, ip);
        if TrimSpace(store.leases[ip].ip) !in desired {
          if unspent == 0 {
            return false;
          }
          TakeSettled(store.leases, ip);
          store.Delete(ip);
          unspent := unspent - 1;
        }
        existing := existing - {ip};
      }
      return true;
    }

    /** snapshot_push, and the second half of requestSnapshot. */
    method HandleSnapshot(sequence: int, leases: seq<Lease>, budget: nat, now: Time) returns (ok: bool)
      requires Filed(store.leases) && Filed(Desired(leases))
      modifies manager`snapshotDone, manager`appliedSequence, store
      ensures Filed(store.leases)
      ensures ok ==> Cores(store.leases)
                     == Applied(NormalizeMode(manager.config.mode), Cores(old(store.leases)), Cores(Desired(leases)))
                     && manager.Now() == MarkSnapshotDone(old(manager.Now()), sequence)
      ensures !ok ==> Mixed(Cores(old(store.leases)), Cores(Desired(leases)), Cores(store.leases))
                      && manager.Now() == old(manager.Now())
    {
      ok := ApplySnapshot(leases, budget, now);
      if ok {
        manager.MarkSnapshotApplied(sequence);
      }
    }
  }
  /** The primary end: its manager and store, and the peer it pushes to. */
  class Primary {
    const manager: Manager
    const store: LeaseTable
    const peer: Secondary

    constructor (manager: Manager, store: LeaseTable, peer: Secondary)
      ensures this.manager == manager && this.store == store && this.peer == peer
    {
      this.manager := manager;
      this.store := store;
      this.peer := peer;
    }

    /** pushLeaseUpdateWithSequence and pushLeaseDeleteWithSequence by sendSync:
        the secondary takes the mutation, or asks for a snapshot and gets one.
        `listing` is what ListAll returns if it comes to that. */
    method Push(sequence: int, w: Write<text, Lease>, outcome: Outcome, listing: seq<Lease>, budget: nat, now: Time)
      returns (ok: bool)
      requires manager != peer.manager && store != peer.store
      requires Filed(store.leases) && Filed(peer.store.leases) && Lists(listing, store.leases)
      requires w.value.Some? ==> w.value.value.ip == w.key && TrimSpace(w.key) == w.key && Settled(w.value.value)
      modifies peer.manager`snapshotDone, peer.manager`appliedSequence, peer.store
      ensures Filed(peer.store.leases)
      ensures var core := Write(w.key, if w.value == None then None else Some(Core(w.value.value)));
              var (n, replica, resync) :=
                ReceiveAt(old(peer.manager.Now()), Cores(old(peer.store.leases)), sequence, core, outcome);
              && (!resync ==> ok && peer.manager.Now() == n && Cores(peer.store.leases) == replica)
              && (resync && ok ==> && peer.manager.Now() == MarkSnapshotDone(n, manager.syncSequence)
                                   && Cores(peer.store.leases)
                                      == Applied(NormalizeMode(peer.manager.config.mode), replica, Cores(store.leases)))
              && (resync && !ok ==> && peer.manager.Now() == n
                                    && Mixed(replica, Cores(store.leases), Cores(peer.store.leases)))
    {
      var resync := peer.HandleIncremental(sequence, w, outcome, now);
      if !resync {
        return true;
      }
      SnapshotOfTable(listing, store.leases);
      ok := peer.HandleSnapshot(manager.syncSequence, listing, budget, now);
    }
  }
}
