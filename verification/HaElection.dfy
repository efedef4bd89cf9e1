/** internal/ha/election.go and the pool split of internal/ha/failover.go. */
module HaElection {
  import opened Bytes
  import opened GoText
  import opened Leases

  datatype Role = Unknown | Primary | Secondary
  datatype PeerState = PeerUnknown | Connected | Disconnected
  datatype Mode = ActivePassive | LoadSharing

  function NormalizeMode(mode: text): Mode
  {
    if TrimSpace(ToLower(mode)) == Ascii("load-sharing") then LoadSharing else ActivePassive
  }

  function DefaultPriority(priority: int): int
  {
    if priority <= 0 then 100 else priority
  }

  function FoldName(node: text): text
  {
    ToLower(TrimSpace(node))
  }

  function ElectRole(localNode: text, remoteNode: text, mode: text, peerConnected: bool,
                     localStepDownUntil: Time, now: Time, peerDraining: bool,
                     localPriority: int, remotePriority: int): Role
  {
    if peerConnected && localStepDownUntil != ZERO_TIME && now < localStepDownUntil then Secondary
    else if !peerConnected || TrimSpace(remoteNode) == [] then Primary
    else if peerDraining then Primary
    else
      var mine, theirs := DefaultPriority(localPriority), DefaultPriority(remotePriority);
      if mine < theirs then Primary
      else if mine > theirs then Secondary
      else
        var local := if FoldName(localNode) == [] then Ascii("local") else FoldName(localNode);
        var remote := FoldName(remoteNode);
        if remote == [] then Primary
        else if Le(local, remote) then Primary
        else if NormalizeMode(mode) == LoadSharing then Secondary
        else Secondary
  }

  /** What one node knows about itself and tells its peer. */
  datatype Candidate = Candidate(name: text, mode: text, stepDownUntil: Time, priority: int)

  predicate Draining(c: Candidate, now: Time)
  {
    c.stepDownUntil != ZERO_TIME && now < c.stepDownUntil
  }

  /** The role a node takes when it is connected and has a true view of its peer. */
  function RoleOf(me: Candidate, peer: Candidate, now: Time): Role
  {
    ElectRole(me.name, peer.name, me.mode, true, me.stepDownUntil, now, Draining(peer, now), me.priority, peer.priority)
  }

  /** Two connected nodes with named peers and true views take opposite roles
      if and only if not both are draining and something tells them apart: a
      draining one, their priorities, or their names ignoring case. */
  lemma OppositeRoles(a: Candidate, b: Candidate, now: Time)
    requires TrimSpace(a.name) != [] && TrimSpace(b.name) != []
    ensures {RoleOf(a, b, now), RoleOf(b, a, now)} == {Primary, Secondary}
            <==> !(Draining(a, now) && Draining(b, now))
                 && (Draining(a, now) || Draining(b, now)
                     || DefaultPriority(a.priority) != DefaultPriority(b.priority)
                     || FoldName(a.name) != FoldName(b.name))
  {
    var x, y := FoldName(a.name), FoldName(b.name);
    LeTotal(x, y);
    LeTotal(x, x);
    if Le(x, y) && Le(y, x) {
      LeAntisymmetric(x, y);
    }
  }

  /** Who leads: a node that is not draining and whose peer is, or which comes
      first by priority number and then by folded name. */
  lemma PrimaryIff(a: Candidate, b: Candidate, now: Time)
    requires TrimSpace(a.name) != [] && TrimSpace(b.name) != []
    ensures RoleOf(a, b, now) == Primary <==>
              && !Draining(a, now)
              && (Draining(b, now)
                  || DefaultPriority(a.priority) < DefaultPriority(b.priority)
                  || (DefaultPriority(a.priority) == DefaultPriority(b.priority)
                      && !Lt(FoldName(b.name), FoldName(a.name))))
  {
    var x, y := FoldName(a.name), FoldName(b.name);
    LtOrGe(y, x);
  }

  // ---------- splitting a pool ----------

  type Range = (uint32, uint32)

  function SplitScope(start: uint32, end: uint32): (Range, Range)
  {
    if start > end then ((0, 0), (1, 0)) else
      var span := end - start + 1;
      var lowerCount := (span + 1) / 2;
      var lowerEnd64 := start + lowerCount - 1;
      if lowerEnd64 >= end then ((start, end), (1, 0))
      else if lowerEnd64 > 0xffff_ffff then ((start, end), (1, 0))
      else ((start, lowerEnd64), (lowerEnd64 + 1, end))
  }

  predicate InScope(r: Range, u: uint32)
  {
    r.0 <= u <= r.1
  }

  function SizeOf(r: Range): nat
  {
    if r.0 > r.1 then 0 else r.1 - r.0 + 1
  }

  /** The two halves are disjoint, cover the pool, and differ in size by at
      most one address, the odd one being in the lower half. */
  lemma SplitExact(start: uint32, end: uint32)
    requires start <= end
    ensures var (lower, upper) := SplitScope(start, end);
            && (forall u: uint32 :: InScope((start, end), u) <==> InScope(lower, u) || InScope(upper, u))
            && (forall u: uint32 :: !(InScope(lower, u) && InScope(upper, u)))
            && SizeOf(lower) == (end - start + 2) / 2
            && SizeOf(upper) == (end - start + 1) / 2
  {
  }

  /** The part of a pool range a node may allocate from; None is a refusal. */
  datatype Scope = Refused | Granted(range: Range)

  function AllocationScope(fenced: bool, mode: text, peer: PeerState, role: Role,
                           start: uint32, end: uint32): Scope
  {
    if start > end then Refused
    else if fenced then Refused
    else if NormalizeMode(mode) == LoadSharing then
      if peer != Connected then Granted((start, end))
      else
        var (lower, upper) := SplitScope(start, end);
        match role
        case Primary => Granted(lower)
        case Secondary => if upper.0 > upper.1 then Refused else Granted(upper)
        case Unknown => Refused
    else if role != Primary then Refused
    else Granted((start, end))
  }

  predicate MayAllocate(s: Scope, u: uint32)
  {
    s.Granted? && InScope(s.range, u)
  }

  /** Load sharing: two connected nodes in opposite roles never may allocate
      the same address, and unless one is fenced every address of the pool
      belongs to one of them. In active-passive mode only the primary may. */
  lemma ScopesDisjoint(fencedA: bool, fencedB: bool, mode: text, roleA: Role, roleB: Role,
                       start: uint32, end: uint32, u: uint32)
    requires {roleA, roleB} == {Primary, Secondary}
    ensures var a := AllocationScope(fencedA, mode, Connected, roleA, start, end);
            var b := AllocationScope(fencedB, mode, Connected, roleB, start, end);
            && !(MayAllocate(a, u) && MayAllocate(b, u))
            && (!fencedA && !fencedB ==> (start <= u <= end <==> MayAllocate(a, u) || MayAllocate(b, u)))
  {
    assert roleA != roleB;
    if start <= end {
      SplitExact(start, end);
    }
  }

  /** Whether one connected node has a part of a range when load is shared: the
      upper half of a single address is empty. */
  predicate HasHalf(role: Role, start: uint32, end: uint32)
  {
    role == Primary || (role == Secondary && start < end)
  }

  /** An unfenced node may allocate from the whole range: the primary of an
      active-passive pair, and in load sharing one that does not see its peer. */
  predicate Whole(mode: text, peer: PeerState, role: Role)
  {
    if NormalizeMode(mode) == ActivePassive then role == Primary else peer != Connected
  }

  /** It may allocate from the half of its role. */
  predicate Half(mode: text, peer: PeerState, role: Role, start: uint32, end: uint32)
  {
    NormalizeMode(mode) == LoadSharing && peer == Connected && HasHalf(role, start, end)
  }

  /** When two unfenced nodes may allocate a common address of a range. Each has
      a mode of its own: an election never compares them. */
  predicate Overlapping(modeA: text, peerA: PeerState, roleA: Role, modeB: text, peerB: PeerState, roleB: Role,
                        start: uint32, end: uint32)
  {
    || (Whole(modeA, peerA, roleA) && Whole(modeB, peerB, roleB))
    || (Whole(modeA, peerA, roleA) && Half(modeB, peerB, roleB, start, end))
    || (Half(modeA, peerA, roleA, start, end) && Whole(modeB, peerB, roleB))
    || (Half(modeA, peerA, roleA, start, end) && Half(modeB, peerB, roleB, start, end) && roleA == roleB)
  }

  /** The half of a role. */
  function HalfOf(role: Role, start: uint32, end: uint32): Range
  {
    if role == Primary then SplitScope(start, end).0 else SplitScope(start, end).1
  }

  /** What a node may allocate: nothing when it is fenced, else the whole range
      or its half. */
  lemma ScopeExact(start: uint32, end: uint32, mode: text, fenced: bool, peer: PeerState, role: Role, u: uint32)
    requires start <= end
    ensures MayAllocate(AllocationScope(fenced, mode, peer, role, start, end), u)
            <==> !fenced && ((Whole(mode, peer, role) && start <= u <= end)
                             || (Half(mode, peer, role, start, end) && InScope(HalfOf(role, start, end), u)))
  {
    SplitExact(start, end);
  }

  /** The exact condition for a collision, whatever the nodes believe: some
      address of the range is in the scopes of both if and only if neither is
      fenced and both have the whole range, or one the whole and the other a
      half of it, or both the same half. */
  lemma OverlapIff(start: uint32, end: uint32, modeA: text, fencedA: bool, peerA: PeerState, roleA: Role,
                   modeB: text, fencedB: bool, peerB: PeerState, roleB: Role)
    requires start <= end
    ensures var a := AllocationScope(fencedA, modeA, peerA, roleA, start, end);
            var b := AllocationScope(fencedB, modeB, peerB, roleB, start, end);
            (exists u: uint32 :: MayAllocate(a, u) && MayAllocate(b, u))
            <==> !fencedA && !fencedB && Overlapping(modeA, peerA, roleA, modeB, peerB, roleB, start, end)
  {
    forall u: uint32
      ensures MayAllocate(AllocationScope(fencedA, modeA, peerA, roleA, start, end), u)
              && MayAllocate(AllocationScope(fencedB, modeB, peerB, roleB, start, end), u)
              ==> !fencedA && !fencedB && Overlapping(modeA, peerA, roleA, modeB, peerB, roleB, start, end)
    {
      ScopeExact(start, end, modeA, fencedA, peerA, roleA, u);
      ScopeExact(start, end, modeB, fencedB, peerB, roleB, u);
      SplitExact(start, end);
    }
    if !fencedA && !fencedB && Overlapping(modeA, peerA, roleA, modeB, peerB, roleB, start, end) {
      var u := SharedAddress(start, end, modeA, peerA, roleA, modeB, peerB, roleB);
      ScopeExact(start, end, modeA, fencedA, peerA, roleA, u);
      ScopeExact(start, end, modeB, fencedB, peerB, roleB, u);
    }
  }

  /** The first address of the range, or the last one where a half is the upper. */
  lemma SharedAddress(start: uint32, end: uint32, modeA: text, peerA: PeerState, roleA: Role, modeB: text,
                      peerB: PeerState, roleB: Role) returns (u: uint32)
    requires start <= end && Overlapping(modeA, peerA, roleA, modeB, peerB, roleB, start, end)
    ensures start <= u <= end
    ensures Half(modeA, peerA, roleA, start, end) ==> InScope(HalfOf(roleA, start, end), u)
    ensures Half(modeB, peerB, roleB, start, end) ==> InScope(HalfOf(roleB, start, end), u)
  {
    SplitExact(start, end);
    var upper := || (Half(modeA, peerA, roleA, start, end) && roleA == Secondary)
                 || (Half(modeB, peerB, roleB, start, end) && roleB == Secondary);
    u := if upper then end else start;
    assert SplitScope(start, end).0.0 == start && (start < end ==> SplitScope(start, end).1.1 == end);
  }

  /** A pair in opposite roles, of which each sees the other, whose modes let
      both allocate all the same: an active-passive primary and a load-sharing
      secondary. */
  predicate MixedLead(modeA: text, roleA: Role, modeB: text)
  {
    if roleA == Primary then NormalizeMode(modeA) == ActivePassive && NormalizeMode(modeB) == LoadSharing
    else NormalizeMode(modeB) == ActivePassive && NormalizeMode(modeA) == LoadSharing
  }

  /** For connected nodes in opposite roles that is the only way to collide, and
      it takes a range of more than one address. */
  lemma OppositeOverlapIff(start: uint32, end: uint32, modeA: text, fencedA: bool, roleA: Role, modeB: text,
                           fencedB: bool, roleB: Role)
    requires start <= end && {roleA, roleB} == {Primary, Secondary}
    ensures var a := AllocationScope(fencedA, modeA, Connected, roleA, start, end);
            var b := AllocationScope(fencedB, modeB, Connected, roleB, start, end);
            (exists u: uint32 :: MayAllocate(a, u) && MayAllocate(b, u))
            <==> !fencedA && !fencedB && MixedLead(modeA, roleA, modeB) && start < end
  {
    assert roleA != roleB;
    OverlapIff(start, end, modeA, fencedA, Connected, roleA, modeB, fencedB, Connected, roleB);
  }

  /** An input: the secondary is configured for load sharing, the primary is
      not, and both may hand out address 7 of the range from 0 to 9. */
  lemma MixedModesCollide()
    ensures var primary := AllocationScope(false, Ascii("active-passive"), Connected, Primary, 0, 9);
            var secondary := AllocationScope(false, Ascii("load-sharing"), Connected, Secondary, 0, 9);
            MayAllocate(primary, 7) && MayAllocate(secondary, 7)
  {
    ModesApart();
  }

  lemma ModesApart()
    ensures NormalizeMode(Ascii("load-sharing")) == LoadSharing
    ensures NormalizeMode(Ascii("active-passive")) == ActivePassive
  {
    var mode := Ascii("load-sharing");
    assert ToLower(mode) == mode;
    assert Trimmed(mode);
    TrimmedStays(mode);
    var other := Ascii("active-passive");
    assert ToLower(other) == other;
    assert Trimmed(other);
    TrimmedStays(other);
    assert other[0] != mode[0];
  }
}
