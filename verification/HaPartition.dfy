/** Two managers that cannot reach each other and share a witness file: when at
    most one of them is primary, and what two starts lead to. */
module HaPartition {
  import opened Wrappers
  import opened GoText
  import opened Leases
  import opened HaElection
  import opened HaManager

  datatype Side = A | B

  function Other(side: Side): Side
  {
    match side case A => B case B => A
  }

  /** Both nodes, the shared file, one clock, and when each node last ended a
      watchdog round or became primary. */
  datatype World = World(a: Node, b: Node, file: Witness, clock: Time, tickA: Time, tickB: Time)
  {
    function At(side: Side): Node
    {
      match side case A => a case B => b
    }

    function Tick(side: Side): Time
    {
      match side case A => tickA case B => tickB
    }

    function With(side: Side, n: Node, f: Witness): World
    {
      match side
      case A => World(n, b, f, clock, tickA, tickB)
      case B => World(a, n, f, clock, tickA, tickB)
    }

    function Ticked(side: Side): World
    {
      match side
      case A => World(a, b, file, clock, clock, tickB)
      case B => World(a, b, file, clock, tickA, clock)
    }
  }

  datatype Pair = Pair(a: Config, b: Config)
  {
    function Of(side: Side): Config
    {
      match side case A => a case B => b
    }
  }

  /** What can happen in a partition: time passes, a node runs either half of a
      watchdog round, a heartbeat to the peer fails, an operator asks for a
      failover, a process ends, a node is started: NewManager, then the renewal
      Start ends with. No message arrives. */
  datatype Event =
    | Pass(d: Duration)
    | WatchdogOn(side: Side, readOk: bool, writeOk: bool)
    | RefreshOn(side: Side, readOk: bool, writeOk: bool)
    | HeartbeatLost(side: Side)
    | FailoverOn(side: Side)
    | Stop(side: Side)
    | Start(side: Side, sequence: int, writeOk: bool)

  /** The rounds of a primary end at most the hold time of its peer apart. */
  predicate OnTime(p: Pair, w: World, clock: Time)
  {
    && (w.a.role == Primary ==> clock - w.tickA <= p.b.witnessHold)
    && (w.b.role == Primary ==> clock - w.tickB <= p.a.witnessHold)
  }

  /** A process that ended runs no rounds and leads nobody. */
  function Stopped(n: Node): Node
  {
    n.(role := Unknown, peer := PeerUnknown, lastHeartbeatAt := ZERO_TIME)
  }

  predicate Allowed(p: Pair, w: World, e: Event)
  {
    e.Pass? ==> e.d >= 0 && OnTime(p, w, w.clock + e.d)
  }

  function Step(p: Pair, w: World, e: Event): World
  {
    match e
    case Pass(d) => w.(clock := w.clock + d)
    case WatchdogOn(side, readOk, writeOk) =>
      var (n, f) := Watchdog(p.Of(side), w.At(side), w.file, readOk, writeOk, w.clock);
      if w.At(side).role != Primary && n.role == Primary then w.With(side, n, f).Ticked(side) else w.With(side, n, f)
    case RefreshOn(side, readOk, writeOk) =>
      var (n, f) := Refresh(p.Of(side), w.At(side), w.file, readOk, writeOk, w.clock);
      w.With(side, n, f).Ticked(side)
    case HeartbeatLost(side) => w.With(side, Disconnect(w.At(side)), w.file)
    case FailoverOn(side) =>
      (match ManualFailover(p.Of(side), w.At(side), w.clock)
       case None => w
       case Some(n) => w.With(side, n, w.file))
    case Stop(side) => w.With(side, Stopped(w.At(side)), w.file)
    case Start(side, sequence, writeOk) =>
      var (n, f) := Refresh(p.Of(side), NewNode(sequence), w.file, true, writeOk, w.clock);
      w.With(side, n, f).Ticked(side)
  }

  function Run(p: Pair, w: World, events: seq<Event>): World
  {
    if events == [] then w else Step(p, Run(p, w, events[..|events| - 1]), events[|events| - 1])
  }

  predicate AllowedRun(p: Pair, w: World, events: seq<Event>)
  {
    forall i :: 0 <= i < |events| ==> Allowed(p, Run(p, w, events[..i]), events[i])
  }

  /** Both nodes use a witness and are told apart by name; hold times are
      positive, as NewManager makes them. */
  predicate Sane(p: Pair)
  {
    && HasWitness(p.a) && HasWitness(p.b)
    && p.a.witnessHold > 0 && p.b.witnessHold > 0
    && Trimmed(p.a.node) && Trimmed(p.b.node)
    && !EqualFold(p.a.node, p.b.node)
  }

  /** The side is primary, unfenced, and the record in the file is its own and
      no older than the end of its last watchdog round. */
  ghost predicate Holds(p: Pair, w: World, side: Side)
  {
    && w.At(side).role == Primary && !w.At(side).fenced
    && w.file.Some? && w.file.value.node == p.Of(side).node
    && w.Tick(side) <= w.file.value.updatedAt <= w.clock
    && w.file.value.updatedAt > ZERO_TIME
  }

  ghost predicate Safe(p: Pair, w: World)
  {
    && OnTime(p, w, w.clock) && w.clock > ZERO_TIME
    && w.tickA <= w.clock && w.tickB <= w.clock
    && (w.a.role == Primary ==> Holds(p, w, A))
    && (w.b.role == Primary ==> Holds(p, w, B))
  }

  /** While one side holds the record the other one is refused. */
  lemma PeerRefused(p: Pair, w: World, side: Side, readOk: bool, writeOk: bool)
    requires Sane(p) && Safe(p, w) && Holds(p, w, Other(side))
    ensures var (n, f, ok) := CanPromote(p.Of(side), Disconnect(w.At(side)), w.file, readOk, writeOk, w.clock);
            !ok && f == w.file && n.role == w.At(side).role
  {
    TrimmedStays(w.file.value.node);
  }

  lemma WatchdogSafe(p: Pair, w: World, side: Side, readOk: bool, writeOk: bool)
    requires Sane(p) && Safe(p, w)
    ensures Safe(p, Step(p, w, WatchdogOn(side, readOk, writeOk)))
  {
    if w.At(side).role != Primary && w.At(Other(side)).role == Primary {
      RefusalSafe(p, w, side, readOk, writeOk);
    }
  }

  lemma RefusalSafe(p: Pair, w: World, side: Side, readOk: bool, writeOk: bool)
    requires Sane(p) && Safe(p, w) && w.At(side).role != Primary && w.At(Other(side)).role == Primary
    ensures Safe(p, Step(p, w, WatchdogOn(side, readOk, writeOk)))
  {
    PeerRefused(p, w, side, readOk, writeOk);
  }

  lemma RefreshSafe(p: Pair, w: World, side: Side, readOk: bool, writeOk: bool)
    requires Sane(p) && Safe(p, w)
    ensures Safe(p, Step(p, w, RefreshOn(side, readOk, writeOk)))
  {
    assert w.a.role == Primary ==> Holds(p, w, A);
    assert w.b.role == Primary ==> Holds(p, w, B);
  }

  /** A starting node that writes the record beside a primary peer: the start
      does not look whose record it overwrites. */
  predicate Usurps(w: World, e: Event)
  {
    e.Start? && e.writeOk && w.At(Other(e.side)).role == Primary
  }

  /** Every step keeps the invariant but one: a node started beside a primary. */
  lemma StepSafe(p: Pair, w: World, e: Event)
    requires Sane(p) && Safe(p, w) && Allowed(p, w, e)
    ensures Safe(p, Step(p, w, e)) <==> !Usurps(w, e)
  {
    match e
    case WatchdogOn(side, readOk, writeOk) => WatchdogSafe(p, w, side, readOk, writeOk);
    case RefreshOn(side, readOk, writeOk) => RefreshSafe(p, w, side, readOk, writeOk);
    case Start(side, sequence, writeOk) => StartSafe(p, w, side, sequence, writeOk);
    case _ =>
  }

  lemma StartSafe(p: Pair, w: World, side: Side, sequence: int, writeOk: bool)
    requires Sane(p) && Safe(p, w)
    ensures Safe(p, Step(p, w, Start(side, sequence, writeOk))) <==> !Usurps(w, Start(side, sequence, writeOk))
  {
    assert w.At(Other(side)).role == Primary ==> Holds(p, w, Other(side));
    StartSplits(p, w, side, sequence, writeOk);
  }

  /** For any configuration and any state: what a start makes of the pair. The
      node leads unless it has a witness path it cannot write; beside a primary
      that gives two, and the file names the newcomer however fresh the record
      of the other was. */
  lemma StartSplits(p: Pair, w: World, side: Side, sequence: int, writeOk: bool)
    ensures var t := Step(p, w, Start(side, sequence, writeOk));
            && (t.At(side).role == Primary <==> !HasWitness(p.Of(side)) || writeOk)
            && t.At(Other(side)) == w.At(Other(side))
            && (HasWitness(p.Of(side)) && writeOk ==> t.file == Some(OwnRecord(p.Of(side), w.clock)))
  {
  }

  predicate BothPrimary(w: World)
  {
    w.a.role == Primary && w.b.role == Primary
  }

  lemma {:induction false} RunSafe(p: Pair, w: World, events: seq<Event>)
    requires Sane(p) && Safe(p, w) && AllowedRun(p, w, events)
    requires forall i :: 0 <= i < |events| ==> !Usurps(Run(p, w, events[..i]), events[i])
    ensures Safe(p, Run(p, w, events))
    decreases |events|
  {
    if events != [] {
      var n := |events| - 1;
      forall i | 0 <= i < n
        ensures Allowed(p, Run(p, w, events[..n][..i]), events[..n][i])
        ensures !Usurps(Run(p, w, events[..n][..i]), events[..n][i])
      {
        assert events[..n][..i] == events[..i];
      }
      RunSafe(p, w, events[..n]);
      StepSafe(p, Run(p, w, events[..n]), events[n]);
    }
  }

  /** Once the invariant holds, no run in a partition has two primaries, as
      long as no node is started beside a primary: whoever is primary owns a
      record no older than the hold time of the other node. */
  lemma AtMostOnePrimary(p: Pair, w: World, events: seq<Event>)
    requires Sane(p) && Safe(p, w) && AllowedRun(p, w, events)
    requires forall i :: 0 <= i < |events| ==> !Usurps(Run(p, w, events[..i]), events[i])
    ensures var t := Run(p, w, events);
            && Safe(p, t) && !BothPrimary(t)
            && (forall side {:trigger t.At(side)} :: t.At(side).role == Primary ==>
                  && t.file.Some? && t.file.value.node == p.Of(side).node
                  && t.clock - t.file.value.updatedAt <= p.Of(Other(side)).witnessHold)
  {
    RunSafe(p, w, events);
  }

  /** And that is the exact condition: a run stays free of two primaries if and
      only if no node is started, and can write the file, beside a primary. */
  lemma NeverTwoPrimariesIff(p: Pair, w: World, events: seq<Event>)
    requires Sane(p) && Safe(p, w) && AllowedRun(p, w, events)
    ensures (forall i :: 0 <= i <= |events| ==> !BothPrimary(Run(p, w, events[..i])))
            <==> forall i :: 0 <= i < |events| ==> !Usurps(Run(p, w, events[..i]), events[i])
  {
    if forall i :: 0 <= i < |events| ==> !Usurps(Run(p, w, events[..i]), events[i]) {
      forall i | 0 <= i <= |events| ensures !BothPrimary(Run(p, w, events[..i])) {
        forall k | 0 <= k < i
          ensures Allowed(p, Run(p, w, events[..i][..k]), events[..i][k])
          ensures !Usurps(Run(p, w, events[..i][..k]), events[..i][k])
        {
          assert events[..i][..k] == events[..k];
        }
        RunSafe(p, w, events[..i]);
      }
    } else {
      var i :| 0 <= i < |events| && Usurps(Run(p, w, events[..i]), events[i]);
      assert events[..i + 1][..i] == events[..i] && events[..i + 1][i] == events[i];
      var e := events[i];
      StartSplits(p, Run(p, w, events[..i]), e.side, e.sequence, e.writeOk);
      assert BothPrimary(Run(p, w, events[..i + 1]));
    }
  }

  // ---------- a pair that starts in a partition ----------

  /** The node has heard nothing from its peer. */
  predicate Unheard(n: Node)
  {
    n.lastHeartbeatAt == ZERO_TIME && n.peer != Connected
  }

  /** The side could not write the witness file at its start or in a renewal,
      or its process ended. */
  predicate StepsDown(p: Pair, side: Side, e: Event)
  {
    match e
    case RefreshOn(s, _, writeOk) => s == side && HasWitness(p.Of(side)) && !writeOk
    case Start(s, _, writeOk) => s == side && HasWitness(p.Of(side)) && !writeOk
    case Stop(s) => s == side
    case _ => false
  }

  /** The side stepped down and was not started again since then. */
  predicate SteppedDown(p: Pair, side: Side, events: seq<Event>)
  {
    if events == [] then false
    else
      var n := |events| - 1;
      StepsDown(p, side, events[n])
      || (SteppedDown(p, side, events[..n]) && !(events[n].Start? && events[n].side == side))
  }

  lemma ApartStep(p: Pair, w: World, e: Event, side: Side)
    requires Unheard(w.At(side)) && (w.At(side).role == Primary ==> !w.At(side).fenced)
    ensures var n := Step(p, w, e).At(side);
            && Unheard(n) && (n.role == Primary ==> !n.fenced)
            && (n.role == Primary <==> (w.At(side).role == Primary || (e.Start? && e.side == side))
                                       && !StepsDown(p, side, e))
  {
  }

  /** A node as NewManager makes it, in a partition, whatever its configuration,
      its peer, the file and the clock: after every sequence of events it is
      primary unless it stepped down. The watchdog never acts, as no heartbeat
      was ever heard. */
  lemma {:induction false} StartedApart(p: Pair, w: World, events: seq<Event>, side: Side)
    requires w.At(side).role == Primary && !w.At(side).fenced && Unheard(w.At(side))
    ensures var n := Run(p, w, events).At(side);
            Unheard(n) && (n.role == Primary ==> !n.fenced)
            && (n.role == Primary <==> !SteppedDown(p, side, events))
    decreases |events|
  {
    if events != [] {
      var n := |events| - 1;
      StartedApart(p, w, events[..n], side);
      ApartStep(p, Run(p, w, events[..n]), events[n], side);
    }
  }

  /** So two primaries are what such a start leads to, witness or not, until a
      failed write or the end of a process: both are primary if and only if
      neither stepped down. */
  lemma StartedApartIff(p: Pair, w: World, sequenceA: int, sequenceB: int, events: seq<Event>)
    requires w.a == NewNode(sequenceA) && w.b == NewNode(sequenceB)
    ensures BothPrimary(Run(p, w, events)) <==> !SteppedDown(p, A, events) && !SteppedDown(p, B, events)
  {
    assert w.At(A) == w.a && w.At(B) == w.b;
    StartedApart(p, w, events, A);
    StartedApart(p, w, events, B);
  }

  // ---------- the start of a safe run ----------

  /** The starting point: one unfenced primary, whose last round has just
      written the record; the other node is not primary. */
  lemma InitialSafe(p: Pair, w: World, side: Side)
    requires w.At(side).role == Primary && !w.At(side).fenced && w.At(Other(side)).role != Primary
    requires w.file == Some(OwnRecord(p.Of(side), w.Tick(side)))
    requires ZERO_TIME < w.Tick(side) <= w.clock && w.Tick(Other(side)) <= w.clock && OnTime(p, w, w.clock)
    ensures Safe(p, w)
  {
  }

  /** After a watchdog round a node is primary if and only if it was, or its
      peer is silent and its claim to the witness succeeds. */
  lemma PromotedIff(p: Pair, w: World, side: Side, readOk: bool, writeOk: bool)
    ensures Step(p, w, WatchdogOn(side, readOk, writeOk)).At(side).role == Primary
            <==> w.At(side).role == Primary
                 || (Silent(p.Of(side), w.At(side), w.clock)
                     && ClaimSucceeds(p.Of(side), w.file, readOk, writeOk, w.clock))
  {
  }

  /** The exact step that splits the pair, for any configuration and witness: a
      node whose peer is primary becomes primary too if and only if it finds its
      peer silent and its claim succeeds. */
  lemma SplitBrainIff(p: Pair, w: World, side: Side, readOk: bool, writeOk: bool)
    requires !(w.a.role == Primary && w.b.role == Primary)
    ensures var t := Step(p, w, WatchdogOn(side, readOk, writeOk));
            t.a.role == Primary && t.b.role == Primary
            <==> w.At(Other(side)).role == Primary && Silent(p.Of(side), w.At(side), w.clock)
                 && ClaimSucceeds(p.Of(side), w.file, readOk, writeOk, w.clock)
  {
    PromotedIff(p, w, side, readOk, writeOk);
  }

  /** One node without a witness path is enough: once its peer falls silent the
      pair splits, whatever the other node and the file say. */
  lemma NoWitnessSplitBrain(p: Pair, w: World, side: Side, d: Duration, readOk: bool, writeOk: bool)
    requires !HasWitness(p.Of(side)) && w.At(Other(side)).role == Primary && w.At(side).lastHeartbeatAt != ZERO_TIME
    ensures var t := Step(p, Step(p, w, Pass(d)), WatchdogOn(side, readOk, writeOk));
            t.a.role == Primary && t.b.role == Primary
            <==> w.At(side).role == Primary || w.clock + d - w.At(side).lastHeartbeatAt > p.Of(side).timeout
  {
    PromotedIff(p, Step(p, w, Pass(d)), side, readOk, writeOk);
  }

  /** NewManager makes sane configurations of settings with a witness path on
      both sides and names that differ ignoring case. */
  lemma ConfiguredIsSane(a: Settings, b: Settings)
    requires TrimSpace(a.witnessPath) != [] && TrimSpace(b.witnessPath) != []
    requires !EqualFold(Configured(a).node, Configured(b).node)
    ensures Sane(Pair(Configured(a), Configured(b)))
  {
    TrimSpaceTrims(a.node);
    TrimSpaceTrims(b.node);
    TrimSpaceTrims(a.witnessPath);
    TrimSpaceTrims(b.witnessPath);
    TrimmedStays(TrimSpace(a.witnessPath));
    TrimmedStays(TrimSpace(b.witnessPath));
  }
}
