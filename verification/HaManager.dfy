/** internal/ha/failover.go and internal/ha/witness.go: the manager of one
    node and the witness file both nodes share. */
module HaManager {
  import opened Bytes
  import opened Wrappers
  import opened GoText
  import opened Leases
  import opened HaElection

  // Each locked method is one step; the clock and the outcome of every file
  // access are arguments.

  // ---------- the witness file ----------

  datatype WitnessRecord = WitnessRecord(node: text, priority: int, updatedAt: Time)

  /** None when there is no file. */
  type Witness = Option<WitnessRecord>

  datatype Owner = ReadFailed | NoOwner | OwnedBy(node: text)

  function WitnessOwner(file: Witness, readOk: bool, hold: Duration, now: Time): Owner
  {
    if !readOk then ReadFailed
    else match file
      case None => NoOwner
      case Some(rec) =>
        if TrimSpace(rec.node) == [] || rec.updatedAt == ZERO_TIME then NoOwner
        else if hold > 0 && now - rec.updatedAt > hold then NoOwner
        else OwnedBy(TrimSpace(rec.node))
  }

  // ---------- the state of a manager ----------

  datatype Fencing = NotFenced | WitnessUnavailable | OwnedByPeer | ClaimFailed | WriteFailed

  /** Configuration that never changes. */
  datatype Config = Config(node: text, mode: text, priority: int, timeout: Duration, peerAddr: text, witnessPath: text,
                           witnessHold: Duration)

  /** The configuration file's HA section. */
  datatype Settings = Settings(node: text, mode: text, priority: int, timeout: Duration, peerAddress: text,
                               witnessPath: text, witnessHold: Duration)

  /** The defaults NewManager fills in. */
  function Configured(s: Settings): Config
  {
    var timeout := if s.timeout <= 0 then 10 * SECOND else s.timeout;
    Config(
      if TrimSpace(s.node) == [] then Ascii("monsoon") else TrimSpace(s.node),
      if NormalizeMode(s.mode) == LoadSharing then Ascii("load-sharing") else Ascii("active-passive"),
      DefaultPriority(s.priority), timeout, TrimSpace(s.peerAddress), TrimSpace(s.witnessPath),
      if s.witnessHold > 0 then s.witnessHold
      else if 2 * timeout > 15 * SECOND then 2 * timeout
      else 15 * SECOND)
  }

  datatype Node = Node(
    role: Role, peer: PeerState, peerNode: text, lastHeartbeatAt: Time, failoverCount: int,
    snapshotDone: bool, syncSequence: int, appliedSequence: int,
    fenced: bool, fencingReason: Fencing, witnessOwner: text, manualStepDownUntil: Time)

  /** What NewManager makes: a primary that has heard nothing. */
  function NewNode(sequence: int): Node
  {
    Node(Primary, PeerUnknown, [], ZERO_TIME, 0, false, sequence, 0, false, NotFenced, [], ZERO_TIME)
  }

  function HasWitness(c: Config): bool
  {
    TrimSpace(c.witnessPath) != []
  }

  function OwnRecord(c: Config, now: Time): WitnessRecord
  {
    WitnessRecord(c.node, c.priority, now)
  }

  function Fence(n: Node, reason: Fencing, owner: text): Node
  {
    n.(fenced := true, fencingReason := reason, witnessOwner := owner)
  }

  /** canPromoteLocked: the node, the witness file and the answer after it. */
  function CanPromote(c: Config, n: Node, file: Witness, readOk: bool, writeOk: bool, now: Time)
    : (Node, Witness, bool)
  {
    var m := n.(fenced := false, fencingReason := NotFenced);
    if !HasWitness(c) then (m.(witnessOwner := []), file, true)
    else match WitnessOwner(file, readOk, c.witnessHold, now)
      case ReadFailed => (Fence(m, WitnessUnavailable, []), file, false)
      case OwnedBy(owner) =>
        if !EqualFold(owner, c.node) then (Fence(m, OwnedByPeer, owner), file, false)
        else Claim(c, m, file, writeOk, now)
      case NoOwner => Claim(c, m, file, writeOk, now)
  }

  function Claim(c: Config, n: Node, file: Witness, writeOk: bool, now: Time): (Node, Witness, bool)
  {
    if !writeOk then (Fence(n, ClaimFailed, []), file, false)
    else (n.(witnessOwner := c.node), Some(OwnRecord(c, now)), true)
  }

  /** The locked part of one watchdog round. */
  function Watchdog(c: Config, n: Node, file: Witness, readOk: bool, writeOk: bool, now: Time): (Node, Witness)
  {
    if n.lastHeartbeatAt == ZERO_TIME || now - n.lastHeartbeatAt <= c.timeout then (n, file) else
      var m := Disconnect(n);
      if n.role == Primary then (m, file) else
        var (p, after, promoted) := CanPromote(c, m, file, readOk, writeOk, now);
        if promoted then (p.(role := Primary, failoverCount := p.failoverCount + 1), after) else (p, after)
  }

  /** refreshWitnessState, which every watchdog round ends with. */
  function Refresh(c: Config, n: Node, file: Witness, readOk: bool, writeOk: bool, now: Time): (Node, Witness)
  {
    if !HasWitness(c) then (n, file)
    else if n.role != Primary || n.fenced then
      match WitnessOwner(file, readOk, c.witnessHold, now)
      case ReadFailed => (n, file)
      case NoOwner => (n.(witnessOwner := []), file)
      case OwnedBy(owner) => (n.(witnessOwner := owner), file)
    else if !writeOk then (Fence(n.(role := Secondary), WriteFailed, []), file)
    else (n.(witnessOwner := c.node, fenced := false, fencingReason := NotFenced), Some(OwnRecord(c, now)))
  }

  /** markPeerDisconnected. */
  function Disconnect(n: Node): Node
  {
    n.(peer := Disconnected, peerNode := [], snapshotDone := false, appliedSequence := 0,
       manualStepDownUntil := ZERO_TIME)
  }

  function RecordHeartbeat(n: Node, peerNode: text, now: Time): Node
  {
    n.(peer := Connected, peerNode := TrimSpace(peerNode), lastHeartbeatAt := now)
  }

  function ApplyElection(c: Config, n: Node, peerNode: text, peerPriority: int, peerDraining: bool, now: Time): Node
  {
    var m := if n.manualStepDownUntil != ZERO_TIME && now >= n.manualStepDownUntil
             then n.(manualStepDownUntil := ZERO_TIME) else n;
    m.(role := ElectRole(c.node, peerNode, c.mode, true, m.manualStepDownUntil, now, peerDraining,
                         c.priority, peerPriority))
  }

  /** How long a manual failover keeps a node down. */
  function StepDownTime(c: Config): Duration
  {
    if 2 * c.timeout > HOUR then 2 * c.timeout else HOUR
  }

  /** TriggerManualFailover; None is its error. */
  function ManualFailover(c: Config, n: Node, now: Time): Option<Node>
  {
    if TrimSpace(c.peerAddr) == [] || n.peer != Connected || n.role != Primary then None
    else Some(n.(manualStepDownUntil := now + StepDownTime(c), role := Secondary))
  }

  // ---------- hearing from the peer ----------

  /** isManualStepDownActive, which every heartbeat message carries. */
  predicate IsDraining(n: Node, now: Time)
  {
    n.manualStepDownUntil != ZERO_TIME && now < n.manualStepDownUntil
  }

  /** A successful heartbeat exchange: recordHeartbeat, then applyElection, with
      what the peer says about itself. */
  function Heard(c: Config, n: Node, peer: Config, peerDraining: bool, now: Time): Node
  {
    ApplyElection(c, RecordHeartbeat(n, peer.node, now), peer.node, peer.priority, peerDraining, now)
  }

  /** A heartbeat holds off disconnection, and with it promotion, for exactly
      the timeout. */
  lemma HeartbeatHoldsOff(c: Config, n: Node, peer: text, at: Time, file: Witness, readOk: bool, writeOk: bool,
                          now: Time)
    requires at != ZERO_TIME
    ensures var m := RecordHeartbeat(n, peer, at);
            var (after, f) := Watchdog(c, m, file, readOk, writeOk, now);
            && (after.peer == Connected <==> now - at <= c.timeout)
            && (now - at <= c.timeout ==> after == m && f == file)
            && (now - at > c.timeout ==> !after.snapshotDone && after.appliedSequence == 0 && !IsDraining(after, now))
  {
  }

  function CandidateOf(c: Config, n: Node): Candidate
  {
    Candidate(c.node, c.mode, n.manualStepDownUntil, c.priority)
  }

  /** Clearing a step-down that has run out does not change an election. */
  lemma HeardRole(c: Config, n: Node, peer: Config, p: Node, now: Time)
    ensures var after := Heard(c, n, peer, IsDraining(p, now), now);
            && after.role == RoleOf(CandidateOf(c, n), CandidateOf(peer, p), now)
            && after.peer == Connected && after.fenced == n.fenced && IsDraining(after, now) == IsDraining(n, now)
  {
  }

  /** Two managers that hear from each other take opposite roles if and only
      if not both are draining and something tells them apart: a draining one,
      their priorities, or their names ignoring case. */
  lemma ManagersTakeOppositeRoles(ca: Config, a: Node, cb: Config, b: Node, now: Time)
    requires TrimSpace(ca.node) != [] && TrimSpace(cb.node) != []
    ensures {Heard(ca, a, cb, IsDraining(b, now), now).role, Heard(cb, b, ca, IsDraining(a, now), now).role}
            == {Primary, Secondary}
            <==> !(IsDraining(a, now) && IsDraining(b, now))
                 && (IsDraining(a, now) || IsDraining(b, now)
                     || DefaultPriority(ca.priority) != DefaultPriority(cb.priority)
                     || FoldName(ca.node) != FoldName(cb.node))
  {
    HeardRole(ca, a, cb, b, now);
    HeardRole(cb, b, ca, a, now);
    OppositeRoles(CandidateOf(ca, a), CandidateOf(cb, b), now);
  }

  // ---------- the fence ----------

  /** What lets a silent peer be promoted: no witness path, or a file it can
      read and write that is absent, blank, undated, stale or its own. */
  predicate ClaimSucceeds(c: Config, file: Witness, readOk: bool, writeOk: bool, now: Time)
  {
    || !HasWitness(c)
    || (readOk && writeOk
        && match file
           case None => true
           case Some(rec) => || TrimSpace(rec.node) == [] || rec.updatedAt == ZERO_TIME
                             || (c.witnessHold > 0 && now - rec.updatedAt > c.witnessHold)
                             || EqualFold(TrimSpace(rec.node), c.node))
  }

  predicate Silent(c: Config, n: Node, now: Time)
  {
    n.lastHeartbeatAt != ZERO_TIME && now - n.lastHeartbeatAt > c.timeout
  }

  /** Everything that changes the role, the fence or the connection of a manager. */
  datatype Happening =
    | WatchdogTurn(readOk: bool, writeOk: bool)
    | Renewal(readOk: bool, writeOk: bool)
    | HeartbeatAnswered(peer: Config, draining: bool)
    | HeartbeatReceived(name: text)
    | PeerLost
    | FailoverAsked

  /** The node and the witness file after it. */
  function NodeAfter(c: Config, n: Node, file: Witness, h: Happening, now: Time): (Node, Witness)
  {
    match h
    case WatchdogTurn(readOk, writeOk) => Watchdog(c, n, file, readOk, writeOk, now)
    case Renewal(readOk, writeOk) => Refresh(c, n, file, readOk, writeOk, now)
    case HeartbeatAnswered(peer, draining) => (Heard(c, n, peer, draining, now), file)
    case HeartbeatReceived(name) => (RecordHeartbeat(n, name, now), file)
    case PeerLost => (Disconnect(n), file)
    case FailoverAsked => (if ManualFailover(c, n, now).Some? then ManualFailover(c, n, now).value else n, file)
  }

  /** A fence lifts if and only if a watchdog round finds the peer of a node
      that is not primary silent, and the claim succeeds. It rises only by a
      failed write of a primary or by a refused promotion. */
  lemma FenceExact(c: Config, n: Node, file: Witness, h: Happening, now: Time)
    ensures n.fenced ==>
              (!NodeAfter(c, n, file, h, now).0.fenced <==>
                 h.WatchdogTurn? && n.role != Primary && Silent(c, n, now)
                 && ClaimSucceeds(c, file, h.readOk, h.writeOk, now))
    ensures !n.fenced ==>
              (NodeAfter(c, n, file, h, now).0.fenced <==>
                 || (h.Renewal? && HasWitness(c) && n.role == Primary && !h.writeOk)
                 || (h.WatchdogTurn? && n.role != Primary && Silent(c, n, now)
                     && !ClaimSucceeds(c, file, h.readOk, h.writeOk, now)))
  {
  }

  function Life(c: Config, n: Node, file: Witness, hs: seq<Happening>, times: seq<Time>): (Node, Witness)
    requires |hs| == |times|
  {
    if hs == [] then (n, file) else
      var k := |hs| - 1;
      var (m, f) := Life(c, n, file, hs[..k], times[..k]);
      NodeAfter(c, m, f, hs[k], times[k])
  }

  /** A fenced primary without its peer stays a fenced primary: nothing but a
      heartbeat from a peer can ever change it. */
  lemma {:induction false} FencedPrimaryStays(c: Config, n: Node, file: Witness, hs: seq<Happening>, times: seq<Time>)
    requires |hs| == |times| && n.role == Primary && n.fenced && n.peer != Connected
    requires forall i :: 0 <= i < |hs| ==> !hs[i].HeartbeatAnswered? && !hs[i].HeartbeatReceived?
    ensures var m := Life(c, n, file, hs, times).0;
            m.role == Primary && m.fenced && m.peer != Connected
    decreases |hs|
  {
    if hs != [] {
      var k := |hs| - 1;
      FencedPrimaryStays(c, n, file, hs[..k], times[..k]);
    }
  }

  predicate Serves(c: Config, n: Node, start: uint32, end: uint32)
  {
    AllocationScope(n.fenced, c.mode, n.peer, n.role, start, end).Granted?
  }

  /** Of two active-passive managers in opposite roles somebody serves a range
      if and only if the primary is not fenced. */
  lemma ServedIff(ca: Config, a: Node, cb: Config, b: Node, start: uint32, end: uint32)
    requires NormalizeMode(ca.mode) == NormalizeMode(cb.mode) == ActivePassive
    requires {a.role, b.role} == {Primary, Secondary} && start <= end
    ensures Serves(ca, a, start, end) || Serves(cb, b, start, end)
            <==> !(if a.role == Primary then a else b).fenced
  {
    assert a.role != b.role;
  }

  /** One failed write of the witness file is enough for that: when the node it
      fenced then wins the election, nobody serves any range. */
  lemma FailedRenewalStopsService(ca: Config, a: Node, cb: Config, b: Node, file: Witness, readOk: bool, failed: Time,
                                  now: Time, start: uint32, end: uint32)
    requires NormalizeMode(ca.mode) == NormalizeMode(cb.mode) == ActivePassive && HasWitness(ca)
    requires TrimSpace(ca.node) != [] && TrimSpace(cb.node) != []
    requires a.role == Primary && !IsDraining(a, now)
    requires DefaultPriority(ca.priority) < DefaultPriority(cb.priority)
    ensures var fenced := Refresh(ca, a, file, readOk, false, failed).0;
            var heardA := Heard(ca, fenced, cb, IsDraining(b, now), now);
            var heardB := Heard(cb, b, ca, IsDraining(fenced, now), now);
            && heardA.role == Primary && heardA.fenced && heardB.role == Secondary
            && !Serves(ca, heardA, start, end) && !Serves(cb, heardB, start, end)
  {
    var fenced := Refresh(ca, a, file, readOk, false, failed).0;
    HeardRole(ca, fenced, cb, b, now);
    HeardRole(cb, b, ca, fenced, now);
    PrimaryIff(CandidateOf(ca, fenced), CandidateOf(cb, b), now);
    PrimaryIff(CandidateOf(cb, b), CandidateOf(ca, fenced), now);
  }

  // ---------- sequence numbers ----------

  datatype Verdict = Verdict(apply: bool, resync: bool)

  function Classify(n: Node, sequence: int): (Node, Verdict)
  {
    if sequence <= 0 then (n, Verdict(true, false))
    else if n.appliedSequence == 0 && sequence == 1 then (n, Verdict(true, false))
    else if n.appliedSequence == 0 && sequence > 1 then (Invalidate(n), Verdict(false, true))
    else if sequence <= n.appliedSequence then (n, Verdict(false, false))
    else if sequence == n.appliedSequence + 1 then (n, Verdict(true, false))
    else (Invalidate(n), Verdict(false, true))
  }

  function Invalidate(n: Node): Node
  {
    n.(snapshotDone := false, appliedSequence := 0)
  }

  function MarkSnapshotDone(n: Node, sequence: int): Node
  {
    n.(snapshotDone := true, appliedSequence := if sequence > n.appliedSequence then sequence else n.appliedSequence)
  }

  function SetAppliedSequence(n: Node, sequence: int): Node
  {
    if 0 < sequence && sequence > n.appliedSequence then n.(appliedSequence := sequence) else n
  }

  function ObserveSyncSequence(n: Node, sequence: int): Node
  {
    if 0 < sequence && sequence > n.syncSequence then n.(syncSequence := sequence) else n
  }

  // ---------- the manager object ----------

  class WitnessFile {
    var content: Witness

    constructor ()
      ensures content == None
    {
      content := None;
    }
  }

  class Manager {
    const config: Config
    const shared: WitnessFile
    var role: Role
    var peer: PeerState
    var peerNode: text
    var lastHeartbeatAt: Time
    var failoverCount: int
    var snapshotDone: bool
    var syncSequence: int
    var appliedSequence: int
    var fenced: bool
    var fencingReason: Fencing
    var witnessOwner: text
    var manualStepDownUntil: Time

    ghost function Now(): Node
      reads this
    {
      Node(role, peer, peerNode, lastHeartbeatAt, failoverCount, snapshotDone, syncSequence, appliedSequence,
           fenced, fencingReason, witnessOwner, manualStepDownUntil)
    }

    /** NewManager. */
    constructor (settings: Settings, shared: WitnessFile, currentSequence: int)
      ensures config == Configured(settings) && this.shared == shared
      ensures Now() == NewNode(currentSequence)
    {
      this.config := Configured(settings);
      this.shared := shared;
      role, peer, peerNode, lastHeartbeatAt, failoverCount := Primary, PeerUnknown, [], ZERO_TIME, 0;
      snapshotDone, syncSequence, appliedSequence := false, currentSequence, 0;
      fenced, fencingReason, witnessOwner, manualStepDownUntil := false, NotFenced, [], ZERO_TIME;
    }

    method CanPromoteLocked(readOk: bool, writeOk: bool, now: Time) returns (ok: bool)
      modifies this`fenced, this`fencingReason, this`witnessOwner, shared
      ensures (Now(), shared.content, ok) == CanPromote(config, old(Now()), old(shared.content), readOk, writeOk, now)
    {
      fenced, fencingReason := false, NotFenced;
      if TrimSpace(config.witnessPath) == [] {
        witnessOwner := [];
        return true;
      }
      var owner := WitnessOwner(shared.content, readOk, config.witnessHold, now);
      if owner == ReadFailed {
        fenced, fencingReason, witnessOwner := true, WitnessUnavailable, [];
        return false;
      }
      if owner.OwnedBy? && !EqualFold(owner.node, config.node) {
        fenced, fencingReason, witnessOwner := true, OwnedByPeer, owner.node;
        return false;
      }
      if !writeOk {
        fenced, fencingReason, witnessOwner := true, ClaimFailed, [];
        return false;
      }
      shared.content := Some(WitnessRecord(config.node, config.priority, now));
      witnessOwner := config.node;
      return true;
    }

    /** One round of the watchdog loop up to the end of its critical section. */
    method WatchdogRound(readOk: bool, writeOk: bool, now: Time)
      modifies this, shared
      ensures (Now(), shared.content) == Watchdog(config, old(Now()), old(shared.content), readOk, writeOk, now)
    {
      var last, was := lastHeartbeatAt, role;
      if last != ZERO_TIME && now - last > config.timeout {
        peer, peerNode := Disconnected, [];
        snapshotDone, appliedSequence := false, 0;
        manualStepDownUntil := ZERO_TIME;
        if was != Primary {
          var ok := CanPromoteLocked(readOk, writeOk, now);
          if ok {
            role := Primary;
            failoverCount := failoverCount + 1;
          }
        }
      }
    }

    method RefreshWitnessState(readOk: bool, writeOk: bool, now: Time)
      modifies this, shared
      ensures (Now(), shared.content) == Refresh(config, old(Now()), old(shared.content), readOk, writeOk, now)
    {
      if TrimSpace(config.witnessPath) == [] {
        return;
      }
      if role != Primary || fenced {
        var owner := WitnessOwner(shared.content, readOk, config.witnessHold, now);
        if owner.OwnedBy? {
          witnessOwner := owner.node;
        } else if owner == NoOwner {
          witnessOwner := [];
        }
        return;
      }
      if !writeOk {
        role, fenced, fencingReason, witnessOwner := Secondary, true, WriteFailed, [];
        return;
      }
      shared.content := Some(WitnessRecord(config.node, config.priority, now));
      witnessOwner, fenced, fencingReason := config.node, false, NotFenced;
    }

    method MarkPeerDisconnected()
      modifies this
      ensures Now() == Disconnect(old(Now()))
    {
      peer, peerNode := Disconnected, [];
      snapshotDone, appliedSequence := false, 0;
      manualStepDownUntil := ZERO_TIME;
    }

    method RecordHeartbeatFrom(node: text, now: Time)
      modifies this`peer, this`peerNode, this`lastHeartbeatAt
      ensures Now() == RecordHeartbeat(old(Now()), node, now)
    {
      peer := Connected;
      peerNode := TrimSpace(node);
      lastHeartbeatAt := now;
    }

    method TriggerManualFailover(now: Time) returns (ok: bool)
      modifies this`role, this`manualStepDownUntil
      ensures ok <==> ManualFailover(config, old(Now()), now).Some?
      ensures Now() == if ok then ManualFailover(config, old(Now()), now).value else old(Now())
    {
      if TrimSpace(config.peerAddr) == [] {
        return false;
      }
      if peer != Connected {
        return false;
      }
      if role != Primary {
        return false;
      }
      manualStepDownUntil := now + StepDownTime(config);
      role := Secondary;
      return true;
    }

    /** AllocationScope with the state of the moment. */
    method ScopeOf(start: uint32, end: uint32) returns (scope: Scope)
      ensures scope == AllocationScope(fenced, config.mode, peer, role, start, end)
    {
      if start > end {
        return Refused;
      }
      if fenced {
        return Refused;
      }
      if NormalizeMode(config.mode) == LoadSharing {
        if peer != Connected {
          return Granted((start, end));
        }
        var (lower, upper) := SplitScope(start, end);
        if role == Primary {
          return Granted(lower);
        }
        if role == Secondary {
          if upper.0 > upper.1 {
            return Refused;
          }
          return Granted(upper);
        }
        return Refused;
      }
      if role != Primary {
        return Refused;
      }
      return Granted((start, end));
    }

    method ApplyElectionTo(peerNode: text, peerPriority: int, peerDraining: bool, now: Time)
      modifies this`role, this`manualStepDownUntil
      ensures Now() == ApplyElection(config, old(Now()), peerNode, peerPriority, peerDraining, now)
    {
      if manualStepDownUntil != ZERO_TIME && !(now < manualStepDownUntil) {
        manualStepDownUntil := ZERO_TIME;
      }
      var next := ElectRole(config.node, peerNode, config.mode, true, manualStepDownUntil, now, peerDraining,
                            config.priority, peerPriority);
      if role != next {
        role := next;
      }
    }

    method ClassifyIncrementalSequence(sequence: int) returns (verdict: Verdict)
      modifies this`snapshotDone, this`appliedSequence
      ensures (Now(), verdict) == Classify(old(Now()), sequence)
    {
      if sequence <= 0 {
        return Verdict(true, false);
      }
      if appliedSequence == 0 && sequence == 1 {
        return Verdict(true, false);
      } else if appliedSequence == 0 && sequence > 1 {
        snapshotDone := false;
        appliedSequence := 0;
        return Verdict(false, true);
      } else if sequence <= appliedSequence {
        return Verdict(false, false);
      } else if sequence == appliedSequence + 1 {
        return Verdict(true, false);
      } else {
        snapshotDone := false;
        appliedSequence := 0;
        return Verdict(false, true);
      }
    }

    method MarkSnapshotApplied(sequence: int)
      modifies this`snapshotDone, this`appliedSequence
      ensures Now() == MarkSnapshotDone(old(Now()), sequence)
    {
      snapshotDone := true;
      if sequence > appliedSequence {
        appliedSequence := sequence;
      }
    }

    method RaiseAppliedSequence(sequence: int)
      modifies this`appliedSequence
      ensures Now() == SetAppliedSequence(old(Now()), sequence)
    {
      if sequence <= 0 {
        return;
      }
      if sequence > appliedSequence {
        appliedSequence := sequence;
      }
    }

    method RaiseSyncSequence(sequence: int)
      modifies this`syncSequence
      ensures Now() == ObserveSyncSequence(old(Now()), sequence)
    {
      if sequence <= 0 {
        return;
      }
      if sequence > syncSequence {
        syncSequence := sequence;
      }
    }
  }
}
