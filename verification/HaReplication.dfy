/** Lease replication between a fixed primary and its secondary
    (internal/ha/failover.go, internal/ha/sync.go). */
module HaReplication {
  import opened Wrappers
  import opened LastWriter
  import opened GoText
  import opened Leases
  import opened HaManager

  // Numbered mutations, gaps, snapshots, and every way a message or a replica
  // write can get lost.

  /** A numbered transaction of the primary: a lease put or deleted, or a
      transaction that touched no lease but took a number all the same. */
  type Entry<V> = Option<Write<text, V>>

  function ApplyEntry<V>(m: map<text, V>, e: Entry<V>): map<text, V>
  {
    match e case None => m case Some(w) => Apply(m, w)
  }

  /** The primary's leases after its first t transactions. */
  function After<V>(start: map<text, V>, log: seq<Entry<V>>, t: nat): map<text, V>
    requires t <= |log|
  {
    if t == 0 then start else ApplyEntry(After(start, log, t - 1), log[t - 1])
  }

  lemma {:induction false} AfterPrefix<V>(start: map<text, V>, log: seq<Entry<V>>, e: Entry<V>, t: nat)
    requires t <= |log|
    ensures After(start, log + [e], t) == After(start, log, t)
  {
    if t > 0 {
      AfterPrefix(start, log, e, t - 1);
    }
  }

  /** Both ends of the replication: the primary's numbered transactions, its
      leases and its manager, the secondary's manager and its replica of the
      leases. `strayed` are the leases a transaction stored before it failed
      without a number, with the number of transactions before the last such
      failure; `horizon` is the highest transaction the replica may already show
      something of. */
  datatype Sync<!V> = Sync(start: map<text, V>, log: seq<Entry<V>>, live: map<text, V>, strayed: map<text, nat>,
                           sender: Node, receiver: Node, replica: map<text, V>, horizon: nat)

  datatype Event<!V> =
    | Commit(entry: Entry<V>)                      // the primary commits a transaction
    | Stray(write: Write<text, V>)                 // one fails half way: stored, not numbered
    | Observed(sequence: nat)                      // the primary sees its own event; the message is lost
    | Delivered(sequence: nat, outcome: Outcome)   // ... or reaches the secondary, acknowledged or not
    | Snapshot                                     // a snapshot pull or push that succeeds
    | PartialSnapshot(replica: map<text, V>)       // one that fails after some replica writes
    | Forgotten                                    // the secondary loses its peer, or restarts

  /** A partly applied snapshot: every lease is as it was or as in the snapshot. */
  ghost predicate Mixed<V>(before: map<text, V>, snapshot: map<text, V>, now: map<text, V>)
  {
    forall k {:trigger Lookup(now, k)} :: Lookup(now, k) == Lookup(before, k) || Lookup(now, k) == Lookup(snapshot, k)
  }

  ghost predicate Possible<V>(s: Sync<V>, e: Event<V>)
  {
    match e
    case Observed(q) => 0 < q <= |s.log| && s.sender.syncSequence < q && s.log[q - 1].Some?
    case Delivered(q, _) =>
      0 < q <= |s.log| && s.sender.syncSequence < q && s.log[q - 1].Some? && TrimSpace(s.log[q - 1].value.key) != []
    case PartialSnapshot(now) => Mixed(s.replica, s.live, now)
    case _ => true
  }

  /** handleConn on lease_upsert and lease_delete: the secondary's manager and
      replica after a message, and whether it asks for a snapshot. An empty
      address is never written. */
  function ReceiveAt<V>(n: Node, replica: map<text, V>, q: int, w: Write<text, V>, outcome: Outcome)
    : (Node, map<text, V>, bool)
  {
    var (m, verdict) := Classify(n, q);
    if !verdict.apply then (m, replica, verdict.resync)
    else if outcome == Failed || TrimSpace(w.key) == [] then (m, replica, false)
    else if outcome == FailedLate then (m, Apply(replica, w), false)
    else (SetAppliedSequence(m, q), Apply(replica, w), false)
  }

  function Receive<V>(s: Sync<V>, q: nat, outcome: Outcome): Sync<V>
    requires 0 < q <= |s.log| && s.log[q - 1].Some?
  {
    var (n, now, _) := ReceiveAt(s.receiver, s.replica, q, s.log[q - 1].value, outcome);
    s.(receiver := n, replica := now,
       horizon := if Classify(s.receiver, q).1.apply && outcome != Failed && q > s.horizon then q else s.horizon)
  }

  function Step<V>(s: Sync<V>, e: Event<V>): Sync<V>
    requires e.Observed? || e.Delivered? ==> 0 < e.sequence <= |s.log| && s.log[e.sequence - 1].Some?
  {
    match e
    case Commit(entry) => s.(log := s.log + [entry], live := ApplyEntry(s.live, entry))
    case Stray(w) => s.(live := Apply(s.live, w), strayed := s.strayed[w.key := |s.log|])
    case Observed(q) => s.(sender := ObserveSyncSequence(s.sender, q))
    case Delivered(q, outcome) => Receive(s.(sender := ObserveSyncSequence(s.sender, q)), q, outcome)
    case Snapshot =>
      s.(replica := s.live,
         receiver := MarkSnapshotDone(s.receiver, s.sender.syncSequence),
         horizon := |s.log|)
    case PartialSnapshot(now) => s.(replica := now, horizon := |s.log|)
    case Forgotten => s.(receiver := Disconnect(s.receiver))
  }

  /** The numbered transaction writes the lease. */
  predicate Writes<V>(log: seq<Entry<V>>, q: nat, k: text)
  {
    0 < q <= |log| && log[q - 1].Some? && log[q - 1].value.key == k
  }

  /** The lease never strayed, or one of the first n transactions has written it
      since it last did. */
  ghost predicate Accounted<V>(s: Sync<V>, k: text, n: int)
  {
    k in s.strayed ==> exists q: nat {:trigger Writes(s.log, q, k)} :: s.strayed[k] < q <= n && Writes(s.log, q, k)
  }

  /** A key shows the primary's value after some transaction in a window. */
  ghost predicate ShownWithin<V>(s: Sync<V>, k: text, from: int, upto: nat)
  {
    upto <= |s.log| && exists t: nat {:trigger After(s.start, s.log, t)} ::
      from <= t <= upto && Lookup(s.replica, k) == Lookup(After(s.start, s.log, t), k)
  }

  ghost predicate Explained<V>(s: Sync<V>, k: text)
  {
    Accounted(s, k, s.receiver.appliedSequence) ==> ShownWithin(s, k, s.receiver.appliedSequence, s.horizon)
  }

  /** The numbers stay in order, and once a snapshot was applied every lease of
      the replica shows a value the primary had between the sequence the
      secondary reports and the horizon: unless it strayed and no transaction up
      to that sequence has written it since. */
  ghost predicate Consistent<V>(s: Sync<V>)
  {
    && 0 <= s.receiver.appliedSequence <= s.sender.syncSequence <= |s.log|
    && s.horizon <= |s.log|
    && (forall k {:trigger s.strayed[k]} :: k in s.strayed ==> s.strayed[k] <= |s.log|)
    && (forall k {:trigger Lookup(s.live, k)} ::
          Accounted(s, k, |s.log|) ==> Lookup(s.live, k) == Lookup(After(s.start, s.log, |s.log|), k))
    && (s.receiver.snapshotDone ==>
          && s.receiver.appliedSequence <= s.horizon
          && forall k {:trigger Explained(s, k)} :: Explained(s, k))
  }

  /** A lease that the last transaction of a stretch does not write has settled
      before it. */
  lemma AccountedBefore<V>(s: Sync<V>, t: Sync<V>, k: text, n: nat)
    requires s.strayed == t.strayed && s.log <= t.log && n <= |s.log|
    requires Accounted(t, k, n) || (Accounted(t, k, n + 1) && !Writes(t.log, n + 1, k))
    ensures Accounted(s, k, n)
  {
    if k in s.strayed {
      var q: nat :| s.strayed[k] < q <= n && Writes(t.log, q, k);
      assert Writes(s.log, q, k);
    }
  }

  lemma CommitConsistent<V>(s: Sync<V>, entry: Entry<V>)
    requires Consistent(s)
    ensures Consistent(Step(s, Commit(entry)))
  {
    var t := Step(s, Commit(entry));
    AfterPrefix(s.start, s.log, entry, |s.log|);
    forall k | Accounted(t, k, |t.log|) && !Writes(t.log, |t.log|, k)
      ensures Lookup(t.live, k) == Lookup(After(t.start, t.log, |t.log|), k) {
      AccountedBefore(s, t, k, |s.log|);
      assert Lookup(s.live, k) == Lookup(After(s.start, s.log, |s.log|), k);
    }
    if s.receiver.snapshotDone {
      forall k | Accounted(t, k, t.receiver.appliedSequence) ensures Explained(t, k) {
        AccountedBefore(s, t, k, s.receiver.appliedSequence);
        assert Explained(s, k);
        var i :| s.receiver.appliedSequence <= i <= s.horizon
                 && Lookup(s.replica, k) == Lookup(After(s.start, s.log, i), k);
        AfterPrefix(s.start, s.log, entry, i);
        assert Lookup(t.replica, k) == Lookup(After(t.start, t.log, i), k);
      }
    }
  }

  lemma StrayConsistent<V>(s: Sync<V>, w: Write<text, V>)
    requires Consistent(s)
    ensures Consistent(Step(s, Stray(w)))
  {
    var t := Step(s, Stray(w));
    forall k | Accounted(t, k, |t.log|) ensures Lookup(t.live, k) == Lookup(After(t.start, t.log, |t.log|), k) {
      assert Lookup(s.live, k) == Lookup(After(s.start, s.log, |s.log|), k);
    }
    if s.receiver.snapshotDone {
      forall k | Accounted(t, k, t.receiver.appliedSequence) ensures Explained(t, k) {
        assert Explained(s, k);
        var i :| s.receiver.appliedSequence <= i <= s.horizon
                 && Lookup(s.replica, k) == Lookup(After(s.start, s.log, i), k);
        assert Lookup(t.replica, k) == Lookup(After(t.start, t.log, i), k);
      }
    }
  }

  /** The next mutation moves the lower end of the window up by one. */
  lemma WriteShows<V>(s: Sync<V>, t: Sync<V>, q: nat, k: text)
    requires 0 < q <= |s.log| && s.log[q - 1].Some? && s.horizon <= |s.log|
    requires ShownWithin(s, k, q - 1, s.horizon)
    requires t.start == s.start && t.log == s.log
    requires t.replica == Apply(s.replica, s.log[q - 1].value)
    requires t.horizon == if q > s.horizon then q else s.horizon
    ensures ShownWithin(t, k, q, t.horizon)
  {
    var w := s.log[q - 1].value;
    var i :| q - 1 <= i <= s.horizon && Lookup(s.replica, k) == Lookup(After(s.start, s.log, i), k);
    if k == w.key || i == q - 1 {
      assert Lookup(t.replica, k) == Lookup(After(t.start, t.log, q), k);
    } else {
      assert Lookup(t.replica, k) == Lookup(After(t.start, t.log, i), k);
    }
  }

  /** A message the secondary applies has the next number. */
  lemma AppliedConsistent<V>(s: Sync<V>, q: nat, outcome: Outcome, k: text)
    requires Consistent(s) && s.receiver.snapshotDone && 0 < q <= |s.log| && s.log[q - 1].Some?
    requires TrimSpace(s.log[q - 1].value.key) != [] && Classify(s.receiver, q).1.apply
    ensures Explained(Receive(s, q, outcome), k)
  {
    var t := Receive(s, q, outcome);
    assert q == s.receiver.appliedSequence + 1 && Explained(s, k);
    if Accounted(t, k, t.receiver.appliedSequence) {
      if outcome == Done && Writes(s.log, q, k) {
        assert Lookup(t.replica, k) == Lookup(After(t.start, t.log, q), k);
      } else {
        AccountedBefore(s, t, k, q - 1);
        if outcome == Failed {
          var i :| q - 1 <= i <= s.horizon && Lookup(s.replica, k) == Lookup(After(s.start, s.log, i), k);
          assert Lookup(t.replica, k) == Lookup(After(t.start, t.log, i), k);
        } else {
          WriteShows(s, t, q, k);
          var i :| q <= i <= t.horizon && Lookup(t.replica, k) == Lookup(After(t.start, t.log, i), k);
        }
      }
    }
  }

  lemma ReceiveConsistent<V>(s: Sync<V>, q: nat, outcome: Outcome)
    requires Consistent(s) && 0 < q <= |s.log| && s.log[q - 1].Some?
    requires q <= s.sender.syncSequence && TrimSpace(s.log[q - 1].value.key) != []
    ensures Consistent(Receive(s, q, outcome))
  {
    var t := Receive(s, q, outcome);
    if s.receiver.snapshotDone && Classify(s.receiver, q).1.apply {
      forall k ensures Explained(t, k) {
        AppliedConsistent(s, q, outcome, k);
      }
    } else if t.receiver.snapshotDone {
      forall k | Accounted(t, k, t.receiver.appliedSequence) ensures Explained(t, k) {
        assert Explained(s, k);
        var i :| s.receiver.appliedSequence <= i <= s.horizon
                 && Lookup(s.replica, k) == Lookup(After(s.start, s.log, i), k);
        assert Lookup(t.replica, k) == Lookup(After(t.start, t.log, i), k);
      }
    }
  }

  lemma SnapshotConsistent<V>(s: Sync<V>)
    requires Consistent(s)
    ensures Consistent(Step(s, Snapshot))
  {
    var t := Step(s, Snapshot);
    forall k | Accounted(t, k, t.receiver.appliedSequence) ensures Explained(t, k) {
      assert Lookup(t.replica, k) == Lookup(s.live, k) == Lookup(After(t.start, t.log, |t.log|), k);
    }
  }

  lemma PartialConsistent<V>(s: Sync<V>, now: map<text, V>)
    requires Consistent(s) && Possible(s, PartialSnapshot(now))
    ensures Consistent(Step(s, PartialSnapshot(now)))
  {
    var t := Step(s, PartialSnapshot(now));
    if s.receiver.snapshotDone {
      forall k | Accounted(t, k, t.receiver.appliedSequence) ensures Explained(t, k) {
        assert Explained(s, k);
        var i :| s.receiver.appliedSequence <= i <= s.horizon
                 && Lookup(s.replica, k) == Lookup(After(s.start, s.log, i), k);
        assert Lookup(s.live, k) == Lookup(After(t.start, t.log, |t.log|), k);
        assert Lookup(now, k) == Lookup(After(t.start, t.log, i), k)
            || Lookup(now, k) == Lookup(After(t.start, t.log, |t.log|), k);
      }
    }
  }

  lemma StepConsistent<V>(s: Sync<V>, e: Event<V>)
    requires Consistent(s) && Possible(s, e)
    ensures Consistent(Step(s, e))
  {
    match e
    case Commit(entry) => CommitConsistent(s, entry);
    case Stray(w) => StrayConsistent(s, w);
    case Observed(q) => ObserveConsistent(s, q);
    case Delivered(q, outcome) =>
      ObserveConsistent(s, q);
      ReceiveConsistent(s.(sender := ObserveSyncSequence(s.sender, q)), q, outcome);
    case Snapshot => SnapshotConsistent(s);
    case PartialSnapshot(now) => PartialConsistent(s, now);
    case Forgotten =>
  }

  lemma ObserveConsistent<V>(s: Sync<V>, q: nat)
    requires Consistent(s) && s.sender.syncSequence < q <= |s.log|
    ensures Consistent(s.(sender := ObserveSyncSequence(s.sender, q)))
  {
    var t := s.(sender := ObserveSyncSequence(s.sender, q));
    if s.receiver.snapshotDone {
      forall k | Accounted(t, k, t.receiver.appliedSequence) ensures Explained(t, k) {
        assert Explained(s, k);
        var i :| s.receiver.appliedSequence <= i <= s.horizon
                 && Lookup(s.replica, k) == Lookup(After(s.start, s.log, i), k);
        assert Lookup(t.replica, k) == Lookup(After(t.start, t.log, i), k);
      }
    }
  }

  /** A run: states[i] is the state before events[i]. */
  ghost predicate IsRun<V>(states: seq<Sync<V>>, events: seq<Event<V>>)
  {
    && |states| == |events| + 1
    && forall i :: 0 <= i < |events| ==> Possible(states[i], events[i]) && states[i + 1] == Step(states[i], events[i])
  }

  /** Before anything was exchanged the secondary may hold any leases. */
  ghost predicate Initial<V>(s: Sync<V>)
  {
    && !s.receiver.snapshotDone && s.receiver.appliedSequence == 0
    && 0 <= s.sender.syncSequence <= |s.log| && s.horizon == 0
    && s.live == After(s.start, s.log, |s.log|) && s.strayed == map[]
  }

  lemma {:induction false} RunConsistent<V>(states: seq<Sync<V>>, events: seq<Event<V>>)
    requires IsRun(states, events) && Initial(states[0])
    ensures Consistent(states[|events|])
    decreases |events|
  {
    if events != [] {
      var n := |events| - 1;
      RunConsistent(states[..n + 1], events[..n]);
      StepConsistent(states[n], events[n]);
    }
  }

  /** Replication convergence: in every run, as soon as a snapshot was applied
      and the sequence the secondary reports has caught up with the last
      snapshot read or late write, its leases are the primary's leases after
      exactly that many transactions. All of them unless transactions of the
      primary failed half way; then those such failures never touched, and those
      a transaction the secondary applied has written since. */
  lemma Convergence<V(!new)>(states: seq<Sync<V>>, events: seq<Event<V>>)
    requires IsRun(states, events) && Initial(states[0])
    ensures var s := states[|events|];
            s.receiver.snapshotDone && s.receiver.appliedSequence >= s.horizon ==>
              && 0 <= s.receiver.appliedSequence <= |s.log|
              && (forall k {:trigger Lookup(s.replica, k)} :: Accounted(s, k, s.receiver.appliedSequence) ==>
                    Lookup(s.replica, k) == Lookup(After(s.start, s.log, s.receiver.appliedSequence), k))
              && ((forall k :: k in s.strayed ==> Accounted(s, k, s.receiver.appliedSequence)) ==>
                    s.replica == After(s.start, s.log, s.receiver.appliedSequence))
  {
    var s := states[|events|];
    RunConsistent(states, events);
    if s.receiver.snapshotDone && s.receiver.appliedSequence >= s.horizon {
      var target := After(s.start, s.log, s.receiver.appliedSequence);
      forall k | Accounted(s, k, s.receiver.appliedSequence) ensures Lookup(s.replica, k) == Lookup(target, k) {
        assert Explained(s, k);
      }
      if forall k :: k in s.strayed ==> Accounted(s, k, s.receiver.appliedSequence) {
        SameLookups(s.replica, target);
      }
    }
  }

  // ---------- between two snapshots ----------

  /** The transactions from..upto replayed over some leases. */
  function ReplayEntries<V>(m: map<text, V>, log: seq<Entry<V>>, from: nat, upto: nat): map<text, V>
    requires from <= upto <= |log|
    decreases upto - from
  {
    if from == upto then m else ApplyEntry(ReplayEntries(m, log, from, upto - 1), log[upto - 1])
  }

  lemma {:induction false} ReplayPrefix<V>(m: map<text, V>, log: seq<Entry<V>>, e: Entry<V>, from: nat, upto: nat)
    requires from <= upto <= |log|
    ensures ReplayEntries(m, log + [e], from, upto) == ReplayEntries(m, log, from, upto)
    decreases upto - from
  {
    if from < upto {
      ReplayPrefix(m, log, e, from, upto - 1);
    }
  }

  /** Nothing but commits, transactions that fail half way, lost messages and
      messages whose write succeeds or fails cleanly. */
  predicate Plain<V>(e: Event<V>)
  {
    e.Commit? || e.Stray? || e.Observed? || (e.Delivered? && e.outcome != FailedLate)
  }

  /** Until the next snapshot the replica is exactly the snapshot with the
      mutations after its stamp replayed over it, however far behind it is. The
      stamp is the last event the primary had observed when it read its leases. */
  lemma {:induction false} BetweenSnapshots<V>(before: Sync<V>, states: seq<Sync<V>>, events: seq<Event<V>>)
    requires Consistent(before)
    requires IsRun(states, events) && states[0] == Step(before, Snapshot)
    requires forall i :: 0 <= i < |events| ==> Plain(events[i])
    ensures var stamp, s := before.sender.syncSequence, states[|events|];
            s.receiver.snapshotDone ==>
              && stamp <= s.receiver.appliedSequence <= |s.log|
              && s.replica == ReplayEntries(before.live, s.log, stamp, s.receiver.appliedSequence)
    decreases |events|
  {
    SnapshotConsistent(before);
    if events != [] {
      var n := |events| - 1;
      var s := states[n];
      ConsistentAt(states, events, n);
      BetweenSnapshots(before, states[..n + 1], events[..n]);
      if states[n + 1].receiver.snapshotDone && events[n].Commit? {
        ReplayPrefix(states[0].replica, s.log, events[n].entry, before.sender.syncSequence, s.receiver.appliedSequence);
      }
    }
  }

  lemma {:induction false} ConsistentAt<V>(states: seq<Sync<V>>, events: seq<Event<V>>, n: nat)
    requires IsRun(states, events) && Consistent(states[0]) && n <= |events|
    ensures Consistent(states[n])
  {
    if n > 0 {
      ConsistentAt(states, events, n - 1);
      StepConsistent(states[n - 1], events[n - 1]);
    }
  }
  /** A snapshot read when the primary has observed all its transactions heals
      what strayed before it: if nothing strays after it, the replica is the
      primary's leases whenever the secondary has caught up. */
  lemma {:induction false} SnapshotHeals<V>(before: Sync<V>, states: seq<Sync<V>>, events: seq<Event<V>>)
    requires Consistent(before) && before.sender.syncSequence == |before.log|
    requires IsRun(states, events) && states[0] == Step(before, Snapshot)
    requires forall i :: 0 <= i < |events| ==> Plain(events[i]) && !events[i].Stray?
    ensures var s := states[|events|];
            s.receiver.snapshotDone && s.receiver.appliedSequence == |s.log| ==> s.replica == s.live
  {
    BetweenSnapshots(before, states, events);
    LiveReplays(before, states, events);
  }

  lemma {:induction false} LiveReplays<V>(before: Sync<V>, states: seq<Sync<V>>, events: seq<Event<V>>)
    requires IsRun(states, events) && states[0] == Step(before, Snapshot)
    requires forall i :: 0 <= i < |events| ==> Plain(events[i]) && !events[i].Stray?
    ensures var s := states[|events|];
            |before.log| <= |s.log| && s.live == ReplayEntries(before.live, s.log, |before.log|, |s.log|)
    decreases |events|
  {
    if events != [] {
      var n := |events| - 1;
      LiveReplays(before, states[..n + 1], events[..n]);
      if events[n].Commit? {
        ReplayPrefix(before.live, states[n].log, events[n].entry, |before.log|, |states[n].log|);
      }
    }
  }
}
