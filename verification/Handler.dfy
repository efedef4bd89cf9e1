/** The DHCPv4 server as a state machine: internal/dhcpv4/handler.go over the
    pools and the lease store. */
module Handler {
  import opened Bytes
  import opened Wrappers
  import opened GoText
  import opened Leases
  import opened Pool

  // Beside the messages: the sweeper of internal/lease/expiry.go and the rebuild
  // of the bitmaps at a restart.

  datatype Site = Site(specs: Specs, order: seq<text>, names: IpText)

  ghost predicate SiteOk(s: Site)
  {
    WellFormed(s.specs) && Separate(s.specs) && Readable(s.names) && forall id :: id in s.order ==> id in s.specs
  }

  /** The leases and the set bits of the bitmaps. */
  datatype World = World(leases: Table, marks: Marks)

  // ---------- messages ----------

  /** What a client and the circumstances contribute to a DISCOVER or REQUEST:
      its hardware address and identifier, the leases the store lists for it,
      the scope provider of that moment, the clock, how the store write ends. */
  datatype Ask = Ask(req: Request, clientId: bytes, rest: bytes, byMac: Option<seq<Lease>>, provider: Provider,
                     now: Time, outcome: Outcome)

  datatype Event =
    | Discover(ask: Ask, rapidCommit: bool)
    | RequestFrom(ask: Ask)
    | Release(ciaddr: Option<uint32>, requested: Option<uint32>, now: Time, outcome: Outcome, home: Option<text>)
    | Decline(ciaddr: Option<uint32>, requested: Option<uint32>, now: Time, outcome: Outcome)
    | Tick(due: seq<Lease>, quarantine: Duration, now: Time, failed: set<text>)
    | Rebuild(listed: seq<Lease>, homes: seq<Option<text>>)

  /** An address that is there and not 0.0.0.0. */
  function NonZero(a: Option<uint32>): Option<uint32>
  {
    if a == Some(0) then None else a
  }

  /** ciaddr when it is set, else the requested address. */
  function ReleaseTarget(ciaddr: Option<uint32>, requested: Option<uint32>): Option<uint32>
  {
    if NonZero(ciaddr).Some? then ciaddr else requested
  }

  function DeclineTarget(ciaddr: Option<uint32>, requested: Option<uint32>): Option<uint32>
  {
    NonZero(if requested.Some? then requested else ciaddr)
  }

  function NewLease(s: Site, id: text, u: uint32, ask: Ask, state: LeaseState): Lease
    requires id in s.specs
  {
    var duration := s.specs[id].leaseDuration;
    Lease(s.names.format(u), ask.req.mac, ask.clientId, state, ask.now, duration, 0, 0, ask.now + duration, ZERO_TIME,
          id, ask.now, ZERO_TIME, ZERO_TIME, ask.rest)
  }

  function Put(leases: Table, l: Lease, now: Time): Table
  {
    leases[l.ip := NormalizeDefaults(l, now, 12 * HOUR)]
  }

  /** What Allocate finds for the client. */
  ghost function Found(s: Site, w: World, ask: Ask): (r: Option<(text, uint32)>)
    requires SiteOk(s)
    ensures r.Some? ==> r.value.0 in s.specs
  {
    FreshExact(s.specs, s.order, w.marks, ask.req, ask.provider);
    ReusableExact(s.specs, s.names, if ask.byMac == None then [] else ask.byMac.value, ask.now);
    Allocation(s.specs, s.order, s.names, w.marks, ask.byMac, ask.req, ask.provider, ask.now)
  }

  /** handleDiscover and handleRequest: allocate, then write the lease. */
  ghost function Grant(s: Site, w: World, ask: Ask, state: LeaseState): World
    requires SiteOk(s)
  {
    match Found(s, w, ask)
    case None => w
    case Some((id, u)) =>
      World(if ask.outcome != Failed then Put(w.leases, NewLease(s, id, u, ask, state), ask.now) else w.leases,
            SetBit(s.specs, w.marks, id, u, true))
  }

  lemma GrantFound(s: Site, w: World, ask: Ask, state: LeaseState, id: text, u: uint32)
    requires SiteOk(s) && Found(s, w, ask) == Some((id, u))
    ensures TrimSpace(NewLease(s, id, u, ask, state).ip) != []
    ensures Grant(s, w, ask, state)
         == World(if ask.outcome != Failed then Put(w.leases, NewLease(s, id, u, ask, state), ask.now) else w.leases,
                  SetBit(s.specs, w.marks, id, u, true))
  {
  }

  /** The bit is cleared only after a write that reports success. */
  function AfterRelease(s: Site, w: World, u: uint32, now: Time, outcome: Outcome, home: Option<text>): World
    requires home.Some? ==> home.value in s.specs
  {
    var ip := s.names.format(u);
    if ip !in w.leases || outcome == Failed then w
    else World(Put(w.leases, w.leases[ip].(state := Released, updatedAt := now, expiryTime := now), now),
               if outcome == Done then SetHome(s.specs, w.marks, home, u, false) else w.marks)
  }

  const QUARANTINE: Duration := 15 * 60 * SECOND

  function AfterDecline(s: Site, w: World, u: uint32, now: Time, outcome: Outcome): World
  {
    var ip := s.names.format(u);
    if ip !in w.leases || outcome == Failed then w
    else
      var declined := w.leases[ip].(state := Declined, quarantineUntil := now + QUARANTINE, updatedAt := now);
      w.(leases := Put(w.leases, declined, now))
  }

  /** One lease of a sweeper tick; None when it stays as it is. */
  function Swept(l: Lease, quarantine: Duration, now: Time): Option<Lease>
  {
    match l.state
    case Bound => Some(l.(state := Expired, quarantineUntil := now + quarantine, updatedAt := now))
    case Renewing => Some(l.(state := Expired, quarantineUntil := now + quarantine, updatedAt := now))
    case Offered => Some(l.(state := Expired, quarantineUntil := now + quarantine, updatedAt := now))
    case Expired =>
      if l.quarantineUntil == ZERO_TIME
      then Some(l.(state := Quarantined, quarantineUntil := now + quarantine, updatedAt := now))
      else if now > l.quarantineUntil then Some(l.(state := Free, updatedAt := now))
      else None
    case Quarantined =>
      if l.quarantineUntil != ZERO_TIME && now > l.quarantineUntil then Some(l.(state := Free, updatedAt := now))
      else None
    case _ => None
  }

  function AfterTick(leases: Table, due: seq<Lease>, quarantine: Duration, now: Time, failed: set<text>): Table
  {
    if due == [] then leases else
      var before := AfterTick(leases, due[..|due| - 1], quarantine, now, failed);
      var l := due[|due| - 1];
      match Swept(l, quarantine, now)
      case None => before
      case Some(next) => if l.ip in failed then before else Put(before, next, now)
  }

  lemma TickNext(leases: Table, due: seq<Lease>, i: nat, quarantine: Duration, now: Time, failed: set<text>)
    requires i < |due|
    ensures var before := AfterTick(leases, due[..i], quarantine, now, failed);
            AfterTick(leases, due[..i + 1], quarantine, now, failed)
            == match Swept(due[i], quarantine, now)
               case None => before
               case Some(next) => if due[i].ip in failed then before else Put(before, next, now)
  {
    assert due[..i + 1][..i] == due[..i];
  }

  // ---------- steps ----------

  predicate SameMac(a: text, b: text)
  {
    NormalizeMac(a) == NormalizeMac(b)
  }

  /** What an exact MAC index answers: the stored leases of the client, and no others. */
  ghost predicate MacAnswer(leases: Table, mac: text, ls: seq<Lease>)
  {
    forall l: Lease {:trigger l in ls} ::
      l in ls <==> l.ip in leases && leases[l.ip] == l && l.mac != [] && SameMac(l.mac, mac)
  }

  /** Stored leases, each once. */
  ghost predicate Listing(leases: Table, ls: seq<Lease>)
  {
    && (forall i {:trigger ls[i]} :: 0 <= i < |ls| ==> ls[i].ip in leases && leases[ls[i].ip] == ls[i])
    && (forall i, j {:trigger ls[i], ls[j]} :: 0 <= i < j < |ls| ==> ls[i].ip != ls[j].ip)
  }

  ghost predicate ListsAll(leases: Table, ls: seq<Lease>)
  {
    Listing(leases, ls) && forall ip {:trigger leases[ip]} :: ip in leases ==> leases[ip] in ls
  }

  /** The outside answers truthfully. */
  ghost predicate Possible(s: Site, w: World, e: Event)
  {
    match e
    case Discover(ask, _) => ask.byMac.Some? ==> MacAnswer(w.leases, ask.req.mac, ask.byMac.value)
    case RequestFrom(ask) => ask.byMac.Some? ==> MacAnswer(w.leases, ask.req.mac, ask.byMac.value)
    case Release(ciaddr, requested, _, _, home) =>
      ReleaseTarget(ciaddr, requested).Some? ==>
        var u := ReleaseTarget(ciaddr, requested).value;
        if s.names.format(u) in w.leases then IsHome(s.specs, w.leases[s.names.format(u)].subnetId, u, home)
        else home == None
    case Decline(_, _, _, _) => true
    case Tick(due, _, _, _) => Listing(w.leases, due)
    case Rebuild(listed, homes) => ListsAll(w.leases, listed) && AreHomes(s.specs, s.names, listed, homes)
  }

  ghost function Step(s: Site, w: World, e: Event): World
    requires SiteOk(s) && Possible(s, w, e)
  {
    match e
    case Discover(ask, rapidCommit) => Grant(s, w, ask, if rapidCommit then Bound else Offered)
    case RequestFrom(ask) => Grant(s, w, ask, Bound)
    case Release(ciaddr, requested, now, outcome, home) =>
      (match ReleaseTarget(ciaddr, requested) case None => w case Some(u) => AfterRelease(s, w, u, now, outcome, home))
    case Decline(ciaddr, requested, now, outcome) =>
      (match DeclineTarget(ciaddr, requested) case None => w case Some(u) => AfterDecline(s, w, u, now, outcome))
    case Tick(due, quarantine, now, failed) => w.(leases := AfterTick(w.leases, due, quarantine, now, failed))
    case Rebuild(listed, homes) => w.(marks := Synced(s.specs, s.names, listed, homes))
  }

  // ---------- the invariant ----------

  /** Leases are filed under their addresses, in the form IP.String writes. */
  ghost predicate Filed(s: Site, leases: Table)
  {
    forall ip {:trigger leases[ip]} :: ip in leases ==>
      leases[ip].ip == ip && (s.names.parse(ip).Some? ==> s.names.format(s.names.parse(ip).value) == ip)
  }

  predicate LiesIn(s: Site, ip: text, id: text)
  {
    id in s.specs && s.names.parse(ip).Some? && InPool(s.specs[id], s.names.parse(ip).value)
  }

  /** A lease that names a pool lies in no other pool's range. */
  ghost predicate Agree(s: Site, leases: Table)
  {
    forall ip, id {:trigger leases[ip], LiesIn(s, ip, id)} ::
      ip in leases && leases[ip].subnetId in s.specs && LiesIn(s, ip, id) ==> leases[ip].subnetId == id
  }

  /** Every offered, bound or renewing lease in a pool range has its bit set. */
  ghost predicate Protected(s: Site, w: World)
  {
    forall ip, id {:trigger w.leases[ip], LiesIn(s, ip, id)} ::
      ip in w.leases && Active(w.leases[ip].state) && LiesIn(s, ip, id) ==> (id, s.names.parse(ip).value) in w.marks
  }

  ghost predicate Safe(s: Site, w: World)
  {
    Filed(s, w.leases) && Agree(s, w.leases) && Protected(s, w)
  }

  /** Every address a client gets by a lease of its own already belongs to it;
      every other address it gets is clear, and usable in its pool. */
  lemma FoundExact(s: Site, w: World, ask: Ask)
    requires SiteOk(s) && Safe(s, w) && Found(s, w, ask).Some?
    requires ask.byMac.Some? ==> MacAnswer(w.leases, ask.req.mac, ask.byMac.value)
    ensures var (id, u) := Found(s, w, ask).value;
            var ip := s.names.format(u);
            || (&& ip in w.leases && Active(w.leases[ip].state) && w.leases[ip].subnetId == id
                && SameMac(w.leases[ip].mac, ask.req.mac))
            || (Usable(s.specs[id], ask.provider, u) && (id, u) !in w.marks)
  {
    FreshExact(s.specs, s.order, w.marks, ask.req, ask.provider);
    if ask.byMac.Some? {
      ReusableExact(s.specs, s.names, ask.byMac.value, ask.now);
    }
  }

  /** No stolen lease: a DISCOVER or REQUEST overwrites a lease only if it is
      inactive or of the same client. */
  lemma GrantStealsNothing(s: Site, w: World, ask: Ask)
    requires SiteOk(s) && Safe(s, w) && Found(s, w, ask).Some?
    requires ask.byMac.Some? ==> MacAnswer(w.leases, ask.req.mac, ask.byMac.value)
    ensures var ip := s.names.format(Found(s, w, ask).value.1);
            ip in w.leases && Active(w.leases[ip].state) ==> SameMac(w.leases[ip].mac, ask.req.mac)
  {
    FoundExact(s, w, ask);
    var (id, u) := Found(s, w, ask).value;
    UsableExact(s.specs[id], ask.provider, u);
    assert InPool(s.specs[id], u) ==> LiesIn(s, s.names.format(u), id);
  }

  /** Whichever pool range the found address lies in, it is that of the pool
      found, and its bit is set afterwards. */
  lemma FoundLiesIn(s: Site, w: World, ask: Ask, j: text)
    requires SiteOk(s) && Safe(s, w) && Found(s, w, ask).Some?
    requires ask.byMac.Some? ==> MacAnswer(w.leases, ask.req.mac, ask.byMac.value)
    requires LiesIn(s, s.names.format(Found(s, w, ask).value.1), j)
    ensures j == Found(s, w, ask).value.0
  {
    FoundExact(s, w, ask);
    var (id, u) := Found(s, w, ask).value;
    assert s.names.parse(s.names.format(u)) == Some(u);
    UsableExact(s.specs[id], ask.provider, u);
    if InPool(s.specs[id], u) {
      OnePool(s.specs, id, j, u);
    }
  }

  /** A write to one address, at most, that leaves it marked wherever it lies. */
  lemma MarkedWriteIsSafe(s: Site, w: World, after: World, ip: text, id: text)
    requires Safe(s, w) && w.marks <= after.marks
    requires forall k {:trigger after.leases[k]} :: k in after.leases && k != ip ==>
               k in w.leases && after.leases[k] == w.leases[k]
    requires s.names.parse(ip).Some? && s.names.format(s.names.parse(ip).value) == ip
    requires ip in after.leases ==>
               || (ip in w.leases && after.leases[ip] == w.leases[ip])
               || (after.leases[ip].ip == ip && after.leases[ip].subnetId == id)
    requires forall j :: LiesIn(s, ip, j) ==> j == id && (id, s.names.parse(ip).value) in after.marks
    ensures Safe(s, after)
  {
  }

  lemma GrantKeepsSafe(s: Site, w: World, ask: Ask, state: LeaseState)
    requires SiteOk(s) && Safe(s, w)
    requires ask.byMac.Some? ==> MacAnswer(w.leases, ask.req.mac, ask.byMac.value)
    ensures Safe(s, Grant(s, w, ask, state))
  {
    if Found(s, w, ask).Some? {
      var (id, u) := Found(s, w, ask).value;
      var after, ip := Grant(s, w, ask, state), s.names.format(u);
      GrantFound(s, w, ask, state, id, u);
      assert s.names.parse(ip) == Some(u);
      forall j | LiesIn(s, ip, j) ensures j == id && (id, u) in after.marks {
        FoundLiesIn(s, w, ask, j);
      }
      MarkedWriteIsSafe(s, w, after, ip, id);
    }
  }

  lemma ReleaseKeepsSafe(s: Site, w: World, u: uint32, now: Time, outcome: Outcome, home: Option<text>)
    requires SiteOk(s) && Safe(s, w) && (home.Some? ==> home.value in s.specs)
    ensures Safe(s, AfterRelease(s, w, u, now, outcome, home))
  {
    var after := AfterRelease(s, w, u, now, outcome, home);
    forall ip, id | ip in after.leases && Active(after.leases[ip].state) && LiesIn(s, ip, id)
      ensures (id, s.names.parse(ip).value) in after.marks
    {
      assert ip in w.leases && w.leases[ip].ip == ip;
      if s.names.format(u) in w.leases && outcome != Failed {
        assert ip != s.names.format(u);
        assert w.leases[s.names.format(u)].ip == s.names.format(u);
        assert after.leases[ip] == w.leases[ip];
      }
    }
  }

  /** The state of an expired lease becomes free only by a tick after the whole
      quarantine that the tick which expired it began. The bit of the address
      stays set all the same: see ExpiredForGood. */
  lemma QuarantineIsKept(l: Lease, quarantine: Duration, expired: Time, later: Duration, freed: Time)
    requires Active(l.state) && expired + quarantine != ZERO_TIME && Swept(l, quarantine, expired).Some?
    ensures var stored := NormalizeDefaults(Swept(l, quarantine, expired).value, expired, 12 * HOUR);
            && stored.state == Expired
            && (freed > expired + quarantine <==>
                  Swept(stored, later, freed).Some? && Swept(stored, later, freed).value.state == Free)
            && (freed <= expired + quarantine ==> Swept(stored, later, freed) == None)
  {
  }

  /** A tick leaves every lease, its address and pool in place, and makes none active. */
  lemma {:induction false} TickTames(leases: Table, due: seq<Lease>, quarantine: Duration, now: Time, failed: set<text>)
    requires Listing(leases, due)
    ensures Tamed(leases, AfterTick(leases, due, quarantine, now, failed))
  {
    if due != [] {
      var n := |due| - 1;
      assert forall i :: 0 <= i < n ==> due[..n][i] == due[i];
      TickTames(leases, due[..n], quarantine, now, failed);
      var l := due[n];
      assert leases[l.ip] == l;
      if Swept(l, quarantine, now).Some? {
        var before := AfterTick(leases, due[..n], quarantine, now, failed);
        TamedPut(leases, before, l.ip, Swept(l, quarantine, now).value, now);
      }
    }
  }

  ghost predicate Tamed(leases: Table, after: Table)
  {
    && after.Keys == leases.Keys
    && forall ip {:trigger after[ip]} {:trigger leases[ip]} :: ip in leases ==>
         after[ip] == leases[ip] || TamedLease(leases[ip], after[ip])
  }

  predicate TamedLease(l: Lease, after: Lease)
  {
    after.ip == l.ip && after.subnetId == l.subnetId && after.mac == l.mac && !Active(after.state)
    && (l.state == Declined ==> after.state == Declined)
  }

  lemma TamedPut(leases: Table, after: Table, ip: text, next: Lease, now: Time)
    requires Tamed(leases, after) && ip in leases && next.ip == ip && TamedLease(leases[ip], next)
    ensures Tamed(leases, Put(after, next, now))
  {
  }

  lemma RebuildKeepsSafe(s: Site, w: World, listed: seq<Lease>, homes: seq<Option<text>>)
    requires SiteOk(s) && Filed(s, w.leases) && Agree(s, w.leases)
    requires ListsAll(w.leases, listed) && AreHomes(s.specs, s.names, listed, homes)
    ensures Safe(s, w.(marks := Synced(s.specs, s.names, listed, homes)))
  {
    forall ip, id | ip in w.leases && Active(w.leases[ip].state) && LiesIn(s, ip, id)
      ensures (id, s.names.parse(ip).value) in Synced(s.specs, s.names, listed, homes)
    {
      var u, l := s.names.parse(ip).value, w.leases[ip];
      SyncedExact(s.specs, s.names, listed, homes, id, u);
      PoolInPrefix(s.specs, id, u);
      assert Keeps(s.specs, s.names, l, id, u);
      var i :| 0 <= i < |listed| && listed[i] == l;
    }
  }

  lemma StepKeepsSafe(s: Site, w: World, e: Event)
    requires SiteOk(s) && Safe(s, w) && Possible(s, w, e)
    ensures Safe(s, Step(s, w, e))
  {
    match e
    case Discover(ask, rapidCommit) => GrantKeepsSafe(s, w, ask, if rapidCommit then Bound else Offered);
    case RequestFrom(ask) => GrantKeepsSafe(s, w, ask, Bound);
    case Release(ciaddr, requested, now, outcome, home) =>
      if ReleaseTarget(ciaddr, requested).Some? {
        ReleaseKeepsSafe(s, w, ReleaseTarget(ciaddr, requested).value, now, outcome, home);
      }
    case Decline(ciaddr, requested, now, outcome) =>
    case Tick(due, quarantine, now, failed) => TickTames(w.leases, due, quarantine, now, failed);
    case Rebuild(listed, homes) => RebuildKeepsSafe(s, w, listed, homes);
  }

  // ---------- runs ----------

  ghost predicate IsRun(s: Site, states: seq<World>, events: seq<Event>)
    requires SiteOk(s)
  {
    && |states| == |events| + 1
    && forall i :: 0 <= i < |events| ==>
         Possible(s, states[i], events[i]) && states[i + 1] == Step(s, states[i], events[i])
  }

  lemma {:induction false} RunKeepsSafe(s: Site, states: seq<World>, events: seq<Event>)
    requires SiteOk(s) && IsRun(s, states, events) && Safe(s, states[0])
    ensures Safe(s, states[|events|])
    decreases |events|
  {
    if events != [] {
      var n := |events| - 1;
      RunKeepsSafe(s, states[..n + 1], events[..n]);
      StepKeepsSafe(s, states[n], events[n]);
    }
  }

  function AskOf(e: Event): Option<Ask>
  {
    match e
    case Discover(ask, _) => Some(ask)
    case RequestFrom(ask) => Some(ask)
    case _ => None
  }

  /** In every run from a state with leases that agree with their pools, after
      the bitmaps were built from them: at every step each active lease in a
      pool range has its bit set, and no grant takes an active lease from
      another client. */
  lemma NoStolenLease(s: Site, start: World, states: seq<World>, events: seq<Event>, i: nat)
    requires SiteOk(s) && IsRun(s, states, events) && i <= |events|
    requires Filed(s, start.leases) && Agree(s, start.leases)
    requires events != [] && events[0].Rebuild? && states[0] == start
    ensures i > 0 ==> Protected(s, states[i])
    ensures 0 < i < |events| && AskOf(events[i]).Some? && Found(s, states[i], AskOf(events[i]).value).Some? ==>
              var ip := s.names.format(Found(s, states[i], AskOf(events[i]).value).value.1);
              ip in states[i].leases && Active(states[i].leases[ip].state) ==>
                SameMac(states[i].leases[ip].mac, AskOf(events[i]).value.req.mac)
  {
    if i > 0 {
      RebuildKeepsSafe(s, start, events[0].listed, events[0].homes);
      RunKeepsSafe(s, states[1..i + 1], events[1..i]);
      if i < |events| && AskOf(events[i]).Some? && Found(s, states[i], AskOf(events[i]).value).Some? {
        GrantStealsNothing(s, states[i], AskOf(events[i]).value);
      }
    }
  }

  // ---------- what ends a lease ----------

  /** The client holds an active lease on the address. */
  ghost predicate HeldBy(s: Site, w: World, mac: text, u: uint32)
  {
    var ip := s.names.format(u);
    ip in w.leases && Active(w.leases[ip].state) && SameMac(w.leases[ip].mac, mac)
  }

  /** A RELEASE or DECLINE of the address that is written, whoever sent it, or
      a tick that finds its lease due and writes it. */
  predicate Ends(s: Site, w: World, e: Event, u: uint32)
  {
    match e
    case Release(ciaddr, requested, _, outcome, _) =>
      ReleaseTarget(ciaddr, requested) == Some(u) && outcome != Failed
    case Decline(ciaddr, requested, _, outcome) => DeclineTarget(ciaddr, requested) == Some(u) && outcome != Failed
    case Tick(due, _, _, failed) =>
      var ip := s.names.format(u);
      ip in w.leases && w.leases[ip] in due && ip !in failed
    case _ => false
  }

  /** A tick leaves alone what is not due, and what it fails to write. */
  lemma {:induction false} TickSpares(leases: Table, due: seq<Lease>, quarantine: Duration, now: Time,
                                      failed: set<text>, ip: text)
    requires ip in leases && (ip in failed || forall i :: 0 <= i < |due| ==> due[i].ip != ip)
    ensures var after := AfterTick(leases, due, quarantine, now, failed);
            ip in after && after[ip] == leases[ip]
  {
    if due != [] {
      var n := |due| - 1;
      TickSpares(leases, due[..n], quarantine, now, failed, ip);
      assert due[n].ip == ip ==> ip in failed;
    }
  }

  lemma TickEndsIff(s: Site, w: World, e: Event, u: uint32, mac: text)
    requires SiteOk(s) && Safe(s, w) && Possible(s, w, e) && e.Tick? && HeldBy(s, w, mac, u)
    ensures HeldBy(s, Step(s, w, e), mac, u) <==> !Ends(s, w, e, u)
  {
    var ip := s.names.format(u);
    if Ends(s, w, e, u) {
      var k :| 0 <= k < |e.due| && e.due[k] == w.leases[ip];
      assert w.leases[ip].ip == ip;
      TickSweeps(w.leases, e.due, e.quarantine, e.now, e.failed, k);
    } else {
      TickSpares(w.leases, e.due, e.quarantine, e.now, e.failed, ip);
    }
  }

  /** A DISCOVER or REQUEST never ends a lease: it goes to the holder, who keeps
      it, or elsewhere. */
  lemma GrantEndsNothing(s: Site, w: World, ask: Ask, state: LeaseState, id: text, u: uint32, mac: text)
    requires SiteOk(s) && Safe(s, w) && HeldBy(s, w, mac, u) && LiesIn(s, s.names.format(u), id) && Active(state)
    requires ask.byMac.Some? ==> MacAnswer(w.leases, ask.req.mac, ask.byMac.value)
    ensures HeldBy(s, Grant(s, w, ask, state), mac, u)
  {
    if Found(s, w, ask).Some? {
      var (j, v) := Found(s, w, ask).value;
      GrantFound(s, w, ask, state, j, v);
      GrantStealsNothing(s, w, ask);
      assert s.names.parse(s.names.format(v)) == Some(v) && s.names.parse(s.names.format(u)) == Some(u);
    }
  }

  /** What ends an active lease in a pool range: after a step its client still
      holds it if and only if the step is no RELEASE or DECLINE of the address,
      from whatever client, and no tick that finds it due, that is written. */
  lemma StepEndsIff(s: Site, w: World, e: Event, id: text, u: uint32, mac: text)
    requires SiteOk(s) && Safe(s, w) && Possible(s, w, e)
    requires HeldBy(s, w, mac, u) && LiesIn(s, s.names.format(u), id)
    ensures HeldBy(s, Step(s, w, e), mac, u) <==> !Ends(s, w, e, u)
  {
    match e
    case Discover(ask, rapidCommit) =>
      GrantEndsNothing(s, w, ask, if rapidCommit then Bound else Offered, id, u, mac);
    case RequestFrom(ask) => GrantEndsNothing(s, w, ask, Bound, id, u, mac);
    case Release(ciaddr, requested, _, _, _) => OneAddress(s, w, ReleaseTarget(ciaddr, requested), u);
    case Decline(ciaddr, requested, _, _) => OneAddress(s, w, DeclineTarget(ciaddr, requested), u);
    case Tick(_, _, _, _) => TickEndsIff(s, w, e, u, mac);
    case Rebuild(_, _) =>
  }

  /** Other addresses have other names, and leases are filed under them. */
  lemma OneAddress(s: Site, w: World, target: Option<uint32>, u: uint32)
    requires SiteOk(s) && Filed(s, w.leases)
    ensures target.Some? ==>
              && (s.names.format(target.value) == s.names.format(u) <==> target == Some(u))
              && (s.names.format(target.value) in w.leases ==>
                    w.leases[s.names.format(target.value)].ip == s.names.format(target.value))
  {
    assert s.names.parse(s.names.format(u)) == Some(u);
    if target.Some? {
      assert s.names.parse(s.names.format(target.value)) == target;
    }
  }

  /** So over every run a client keeps the address it holds until such a step. */
  lemma {:induction false} HeldUntilEnded(s: Site, states: seq<World>, events: seq<Event>, id: text, u: uint32,
                                          mac: text)
    requires SiteOk(s) && IsRun(s, states, events) && Safe(s, states[0])
    requires HeldBy(s, states[0], mac, u) && LiesIn(s, s.names.format(u), id)
    requires forall i :: 0 <= i < |events| ==> !Ends(s, states[i], events[i], u)
    ensures HeldBy(s, states[|events|], mac, u)
    decreases |events|
  {
    if events != [] {
      var n := |events| - 1;
      HeldUntilEnded(s, states[..n + 1], events[..n], id, u, mac);
      RunKeepsSafe(s, states[..n + 1], events[..n]);
      StepEndsIff(s, states[n], events[n], id, u, mac);
    }
  }

  // ---------- addresses that stay out ----------

  /** A marked address goes only to the client that holds an active lease on it. */
  lemma MarkedIsHeld(s: Site, w: World, ask: Ask, id: text, u: uint32)
    requires SiteOk(s) && Safe(s, w) && Found(s, w, ask) == Some((id, u)) && (id, u) in w.marks
    requires ask.byMac.Some? ==> MacAnswer(w.leases, ask.req.mac, ask.byMac.value)
    ensures var ip := s.names.format(u);
            ip in w.leases && Active(w.leases[ip].state) && SameMac(w.leases[ip].mac, ask.req.mac)
  {
    FoundExact(s, w, ask);
  }

  /** The bit of this address, of this pool, is set and nobody actively holds
      a lease on it: declined, expired, quarantined or free. */
  ghost predicate Withheld(s: Site, w: World, id: text, u: uint32)
  {
    && (id, u) in w.marks && LiesIn(s, s.names.format(u), id)
    && (s.names.format(u) in w.leases ==> !Active(w.leases[s.names.format(u)].state))
  }

  predicate Releases(e: Event, u: uint32)
  {
    e.Release? && ReleaseTarget(e.ciaddr, e.requested) == Some(u)
  }

  /** What brings a withheld address back: a RELEASE of it that finds a lease
      and is written, or a restart when no lease keeps it. */
  predicate Returns(s: Site, w: World, e: Event, u: uint32)
  {
    var ip := s.names.format(u);
    || (Releases(e, u) && e.outcome == Done && ip in w.leases)
    || (e.Rebuild? && !(ip in w.leases && Holds(w.leases[ip].state)))
  }

  lemma WithheldNotFound(s: Site, w: World, ask: Ask, id: text, u: uint32)
    requires SiteOk(s) && Safe(s, w) && Withheld(s, w, id, u) && Found(s, w, ask).Some?
    requires ask.byMac.Some? ==> MacAnswer(w.leases, ask.req.mac, ask.byMac.value)
    ensures Found(s, w, ask).value.1 != u
    ensures s.names.format(Found(s, w, ask).value.1) != s.names.format(u)
  {
    var (j, v) := Found(s, w, ask).value;
    FoundExact(s, w, ask);
    UsableExact(s.specs[j], ask.provider, v);
    assert s.names.parse(s.names.format(v)) == Some(v) && s.names.parse(s.names.format(u)) == Some(u);
    if v == u {
      OnePool(s.specs, id, j, u);
    }
  }

  lemma ReleaseReturns(s: Site, w: World, e: Event, id: text, u: uint32)
    requires SiteOk(s) && Safe(s, w) && e.Release? && Possible(s, w, e) && Withheld(s, w, id, u)
    ensures Withheld(s, Step(s, w, e), id, u) <==> !Returns(s, w, e, u)
  {
    var target := ReleaseTarget(e.ciaddr, e.requested);
    if target.Some? {
      var v := target.value;
      assert s.names.parse(s.names.format(v)) == Some(v) && s.names.parse(s.names.format(u)) == Some(u);
      assert s.names.format(v) in w.leases ==> w.leases[s.names.format(v)].ip == s.names.format(v);
      if v == u && s.names.format(u) in w.leases {
        var l := w.leases[s.names.format(u)];
        PoolInPrefix(s.specs, id, u);
        assert l.subnetId in s.specs ==> l.subnetId == id;
        OneHome(s.specs, l.subnetId, u, e.home, Some(id));
      }
    }
  }

  /** In a rebuild an address of a pool range is kept by the lease filed under
      it, or by none. */
  lemma KeptByOwn(s: Site, w: World, listed: seq<Lease>, id: text, u: uint32)
    requires SiteOk(s) && Safe(s, w) && ListsAll(w.leases, listed) && LiesIn(s, s.names.format(u), id)
    ensures KeptBy(s.specs, s.names, listed, id, u)
            <==> s.names.format(u) in w.leases && Holds(w.leases[s.names.format(u)].state)
  {
    var ip := s.names.format(u);
    assert s.names.parse(ip) == Some(u);
    forall i | 0 <= i < |listed| && Keeps(s.specs, s.names, listed[i], id, u) ensures listed[i].ip == ip {
      assert w.leases[listed[i].ip] == listed[i];
    }
    if ip in w.leases && Holds(w.leases[ip].state) {
      var i :| 0 <= i < |listed| && listed[i] == w.leases[ip];
      assert w.leases[ip].ip == ip && w.leases[ip].subnetId in s.specs ==> w.leases[ip].subnetId == id;
      PoolInPrefix(s.specs, id, u);
      assert Keeps(s.specs, s.names, listed[i], id, u);
    }
  }

  lemma RebuildReturns(s: Site, w: World, e: Event, id: text, u: uint32)
    requires SiteOk(s) && Safe(s, w) && e.Rebuild? && Possible(s, w, e) && Withheld(s, w, id, u)
    ensures Withheld(s, Step(s, w, e), id, u) <==> !Returns(s, w, e, u)
  {
    assert s.names.parse(s.names.format(u)) == Some(u);
    SyncedExact(s.specs, s.names, e.listed, e.homes, id, u);
    KeptByOwn(s, w, e.listed, id, u);
  }

  /** One step gives nobody a withheld address, and it stays withheld if and
      only if the step is not such a RELEASE or restart. */
  lemma StepWithholds(s: Site, w: World, e: Event, id: text, u: uint32)
    requires SiteOk(s) && Safe(s, w) && Possible(s, w, e) && Withheld(s, w, id, u)
    ensures Withheld(s, Step(s, w, e), id, u) <==> !Returns(s, w, e, u)
    ensures AskOf(e).Some? && Found(s, w, AskOf(e).value).Some? ==> Found(s, w, AskOf(e).value).value.1 != u
  {
    match e
    case Release(_, _, _, _, _) => ReleaseReturns(s, w, e, id, u);
    case Rebuild(_, _) => RebuildReturns(s, w, e, id, u);
    case Tick(due, quarantine, now, failed) => TickTames(w.leases, due, quarantine, now, failed);
    case Decline(ciaddr, requested, _, _) =>
      if DeclineTarget(ciaddr, requested).Some? {
        var ip := s.names.format(DeclineTarget(ciaddr, requested).value);
        assert ip in w.leases ==> w.leases[ip].ip == ip;
      }
    case _ =>
      if Found(s, w, AskOf(e).value).Some? {
        WithheldNotFound(s, w, AskOf(e).value, id, u);
      }
  }

  /** The sweeper never clears a bit: a marked address without an active lease
      is given to nobody, its last client included, in any run without a
      RELEASE of it that is written or a restart that finds no lease keeping it. */
  lemma {:induction false} WithheldForGood(s: Site, states: seq<World>, events: seq<Event>, id: text, u: uint32)
    requires SiteOk(s) && IsRun(s, states, events) && Safe(s, states[0]) && Withheld(s, states[0], id, u)
    requires forall i :: 0 <= i < |events| ==> !Returns(s, states[i], events[i], u)
    ensures Withheld(s, states[|events|], id, u)
    ensures NobodyGets(s, states, events, u)
    decreases |events|
  {
    if events != [] {
      var n := |events| - 1;
      WithheldForGood(s, states[..n + 1], events[..n], id, u);
      RunKeepsSafe(s, states[..n + 1], events[..n]);
      StepWithholds(s, states[n], events[n], id, u);
      forall i | 0 <= i < n && AskOf(events[i]).Some? && Found(s, states[i], AskOf(events[i]).value).Some?
        ensures Found(s, states[i], AskOf(events[i]).value).value.1 != u {
        assert events[..n][i] == events[i] && states[..n + 1][i] == states[i];
      }
    }
  }

  ghost predicate NobodyGets(s: Site, states: seq<World>, events: seq<Event>, u: uint32)
    requires SiteOk(s) && |states| > |events|
  {
    forall i {:trigger events[i]} ::
      0 <= i < |events| && AskOf(events[i]).Some? && Found(s, states[i], AskOf(events[i]).value).Some? ==>
        Found(s, states[i], AskOf(events[i]).value).value.1 != u
  }

  lemma {:induction false} TickSweeps(leases: Table, due: seq<Lease>, quarantine: Duration, now: Time,
                                      failed: set<text>, k: nat)
    requires Listing(leases, due) && k < |due| && due[k].ip !in failed && Swept(due[k], quarantine, now).Some?
    ensures var next := Swept(due[k], quarantine, now).value;
            AfterTick(leases, due, quarantine, now, failed)[due[k].ip := NormalizeDefaults(next, now, 12 * HOUR)]
            == AfterTick(leases, due, quarantine, now, failed)
    ensures due[k].ip in AfterTick(leases, due, quarantine, now, failed)
  {
    var n := |due| - 1;
    assert Swept(due[k], quarantine, now).value.ip == due[k].ip;
    if k < n {
      TickSweeps(leases, due[..n], quarantine, now, failed, k);
      assert due[n].ip != due[k].ip;
    }
  }

  /** An active lease in a pool range that a tick finds due is withheld from then on. */
  lemma TickWithholds(s: Site, w: World, e: Event, id: text, u: uint32)
    requires SiteOk(s) && Safe(s, w) && e.Tick? && Possible(s, w, e)
    requires var ip := s.names.format(u);
             && ip in w.leases && Active(w.leases[ip].state) && LiesIn(s, ip, id)
             && w.leases[ip] in e.due && ip !in e.failed
    ensures Withheld(s, Step(s, w, e), id, u)
  {
    var ip := s.names.format(u);
    assert s.names.parse(ip) == Some(u) && w.leases[ip].ip == ip;
    var k :| 0 <= k < |e.due| && e.due[k] == w.leases[ip];
    TickSweeps(w.leases, e.due, e.quarantine, e.now, e.failed, k);
  }

  /** So a lease that expires takes its address with it: from the tick that
      finds an offered, bound or renewing lease due, nobody gets the address
      again in any run without such a RELEASE or restart. */
  lemma ExpiredForGood(s: Site, states: seq<World>, events: seq<Event>, id: text, u: uint32)
    requires SiteOk(s) && IsRun(s, states, events) && Safe(s, states[0]) && events != [] && events[0].Tick?
    requires var ip := s.names.format(u);
             && ip in states[0].leases && Active(states[0].leases[ip].state) && LiesIn(s, ip, id)
             && states[0].leases[ip] in events[0].due && ip !in events[0].failed
    requires forall i :: 0 <= i < |events| ==> !Returns(s, states[i], events[i], u)
    ensures Withheld(s, states[|events|], id, u)
    ensures NobodyGets(s, states[1..], events[1..], u)
  {
    TickWithholds(s, states[0], events[0], id, u);
    StepKeepsSafe(s, states[0], events[0]);
    WithheldForGood(s, states[1..], events[1..], id, u);
  }

  /** A declined address whose bit is set stays declined and is withheld for
      good, not for the 15 minutes its lease says: in every run without a
      RELEASE of it, restarts included. */
  lemma {:induction false} DeclinedForGood(s: Site, states: seq<World>, events: seq<Event>, id: text, u: uint32)
    requires SiteOk(s) && IsRun(s, states, events) && Safe(s, states[0]) && Withheld(s, states[0], id, u)
    requires s.names.format(u) in states[0].leases && states[0].leases[s.names.format(u)].state == Declined
    requires forall i :: 0 <= i < |events| ==> !Releases(events[i], u)
    ensures var last := states[|events|];
            && Withheld(s, last, id, u)
            && s.names.format(u) in last.leases && last.leases[s.names.format(u)].state == Declined
    ensures NobodyGets(s, states, events, u)
    decreases |events|
  {
    if events != [] {
      var n := |events| - 1;
      DeclinedForGood(s, states[..n + 1], events[..n], id, u);
      RunKeepsSafe(s, states[..n + 1], events[..n]);
      StepWithholds(s, states[n], events[n], id, u);
      StepKeepsDeclined(s, states[n], events[n], id, u);
      forall i | 0 <= i < n && AskOf(events[i]).Some? && Found(s, states[i], AskOf(events[i]).value).Some?
        ensures Found(s, states[i], AskOf(events[i]).value).value.1 != u {
        assert events[..n][i] == events[i] && states[..n + 1][i] == states[i];
      }
    }
  }

  lemma StepKeepsDeclined(s: Site, w: World, e: Event, id: text, u: uint32)
    requires SiteOk(s) && Safe(s, w) && Possible(s, w, e) && Withheld(s, w, id, u) && !Releases(e, u)
    requires s.names.format(u) in w.leases && w.leases[s.names.format(u)].state == Declined
    ensures var t := Step(s, w, e);
            s.names.format(u) in t.leases && t.leases[s.names.format(u)].state == Declined
  {
    match e
    case Release(ciaddr, requested, _, _, _) =>
      if ReleaseTarget(ciaddr, requested).Some? {
        var v := ReleaseTarget(ciaddr, requested).value;
        assert s.names.parse(s.names.format(v)) == Some(v) && s.names.parse(s.names.format(u)) == Some(u);
        assert s.names.format(v) in w.leases ==> w.leases[s.names.format(v)].ip == s.names.format(v);
      }
    case Tick(due, quarantine, now, failed) => TickTames(w.leases, due, quarantine, now, failed);
    case Decline(ciaddr, requested, _, _) =>
      if DeclineTarget(ciaddr, requested).Some? {
        var ip := s.names.format(DeclineTarget(ciaddr, requested).value);
        assert ip in w.leases ==> w.leases[ip].ip == ip;
      }
    case Rebuild(_, _) =>
    case _ =>
      if Found(s, w, AskOf(e).value).Some? {
        WithheldNotFound(s, w, AskOf(e).value, id, u);
      }
  }

  /** A DECLINE that is written withholds the address if and only if its bit is
      set: it does not set the bit itself, so after a RELEASE the next client
      may get it. */
  lemma DeclineWithholds(s: Site, w: World, e: Event, id: text, u: uint32)
    requires SiteOk(s) && Safe(s, w)
    requires e.Decline? && e.outcome != Failed && DeclineTarget(e.ciaddr, e.requested) == Some(u)
    requires s.names.format(u) in w.leases && LiesIn(s, s.names.format(u), id)
    ensures Withheld(s, Step(s, w, e), id, u) <==> (id, u) in w.marks
  {
    assert w.leases[s.names.format(u)].ip == s.names.format(u);
  }
}
