/** The address view of internal/ipam/engine.go: what is stored, reserved and
    leased under one address merged into one record. */
module AddressMerge {
  import opened Bytes
  import opened Wrappers
  import opened GoText
  import opened Leases
  import Subnets

  datatype IpState = Available | Dhcp | Reserved | Conflict | Quarantine

  datatype Record = Record(ip: text, subnet: text, state: IpState, mac: text, hostname: text, leaseState: text,
                           source: text, updatedAt: Time)

  /** The record a map gives for a missing key. */
  const NO_RECORD: Record := Record([], [], Available, [], [], [], [], ZERO_TIME)

  function Rank(s: IpState): int
  {
    match s case Conflict => 5 case Dhcp => 4 case Quarantine => 3 case Reserved => 2 case Available => 1
  }

  function FirstSet(a: text, b: text): text
  {
    if a == [] then b else a
  }

  predicate ContainsText(s: text, t: text)
  {
    t <= s || (s != [] && ContainsText(s[1..], t))
  }

  function JoinSource(a: text, b: text): text
  {
    if a == [] then b
    else if b != [] && a != b && !ContainsText(a, b) then a + [0x2B] + b
    else a
  }

  /** mergeAddressRecord. */
  function Merge(current: Record, next: Record): Record
  {
    if current.ip == [] then next else
      var out := current.(
        subnet := FirstSet(current.subnet, next.subnet),
        hostname := FirstSet(current.hostname, next.hostname),
        mac := FirstSet(current.mac, next.mac),
        leaseState := FirstSet(current.leaseState, next.leaseState),
        source := JoinSource(current.source, next.source),
        updatedAt := if next.updatedAt > current.updatedAt then next.updatedAt else current.updatedAt);
      if out.mac != [] && next.mac != [] && out.mac != next.mac then out.(state := Conflict)
      else if Rank(next.state) > Rank(out.state) then out.(state := next.state)
      else out
  }

  function Fold(rs: seq<Record>): Record
  {
    if rs == [] then NO_RECORD else Merge(Fold(rs[..|rs| - 1]), rs[|rs| - 1])
  }

  // ---------- what a merge says ----------

  ghost predicate AllAt(rs: seq<Record>, ip: text)
  {
    forall i {:trigger rs[i]} :: 0 <= i < |rs| ==> rs[i].ip == ip
  }

  /** A record in conflict, or two that name different hardware addresses. */
  ghost predicate InConflict(rs: multiset<Record>)
  {
    || (exists r {:trigger rs[r]} :: r in rs && r.state == Conflict)
    || (exists r, s {:trigger rs[r], rs[s]} :: r in rs && s in rs && r.mac != [] && s.mac != [] && r.mac != s.mac)
  }

  ghost predicate IsHighest(rs: multiset<Record>, s: IpState)
  {
    && (exists r {:trigger rs[r]} :: r in rs && r.state == s)
    && (forall r {:trigger rs[r]} :: r in rs ==> Rank(r.state) <= Rank(s))
  }

  ghost predicate IsNewest(rs: multiset<Record>, t: Time)
  {
    && (exists r {:trigger rs[r]} :: r in rs && r.updatedAt == t)
    && (forall r {:trigger rs[r]} :: r in rs ==> r.updatedAt <= t)
  }

  /** The hardware address of a merged record is one of theirs, if there is any. */
  ghost predicate IsMac(rs: multiset<Record>, mac: text)
  {
    if mac == [] then forall r {:trigger rs[r]} :: r in rs ==> r.mac == []
    else exists r {:trigger rs[r]} :: r in rs && r.mac == mac
  }

  ghost predicate Describes(rs: multiset<Record>, ip: text, m: Record)
  {
    && m.ip == ip && IsMac(rs, m.mac) && IsNewest(rs, m.updatedAt)
    && (InConflict(rs) ==> m.state == Conflict)
    && (!InConflict(rs) ==> IsHighest(rs, m.state))
  }

  lemma DescribesNext(rs: multiset<Record>, m: Record, next: Record)
    requires m.ip != [] && next.ip == m.ip && Describes(rs, m.ip, m)
    ensures Describes(rs + multiset{next}, m.ip, Merge(m, next))
  {
    var all, out := rs + multiset{next}, Merge(m, next);
    assert next in all;
    assert forall r :: r in all <==> r in rs || r == next;
    MacNext(rs, m.mac, next);
    NewestNext(rs, m.updatedAt, next);
    ConflictNext(rs, m.mac, next);
    if !InConflict(all) {
      var r :| r in rs && r.state == m.state;
      assert r in all;
    }
  }

  lemma MacNext(rs: multiset<Record>, mac: text, next: Record)
    requires IsMac(rs, mac)
    ensures IsMac(rs + multiset{next}, FirstSet(mac, next.mac))
  {
    assert next in rs + multiset{next};
    if mac != [] {
      var r :| r in rs && r.mac == mac;
      assert r in rs + multiset{next};
    }
  }

  lemma NewestNext(rs: multiset<Record>, t: Time, next: Record)
    requires IsNewest(rs, t)
    ensures IsNewest(rs + multiset{next}, if next.updatedAt > t then next.updatedAt else t)
  {
    var all := rs + multiset{next};
    assert next in all;
    var r :| r in rs && r.updatedAt == t;
    assert r in all;
  }

  /** A further record brings a conflict of its own, or with the hardware
      address so far, or none. */
  lemma ConflictNext(rs: multiset<Record>, mac: text, next: Record)
    requires IsMac(rs, mac)
    ensures InConflict(rs + multiset{next}) <==>
              InConflict(rs) || next.state == Conflict || (mac != [] && next.mac != [] && mac != next.mac)
  {
    var all := rs + multiset{next};
    assert next in all;
    if mac != [] {
      var r :| r in rs && r.mac == mac;
      assert r in all;
    }
    assert forall r :: r in rs ==> r in all;
    if r, s :| r in all && s in all && r.mac != [] && s.mac != [] && r.mac != s.mac {
      assert (r in rs || r == next) && (s in rs || s == next);
      if !(r in rs && s in rs) && mac != [] {
        var k :| k in rs && k.mac == mac;
        assert (r in rs && k.mac != r.mac) || (s in rs && k.mac != s.mac) || mac != next.mac;
      }
    }
    if r :| r in all && r.state == Conflict {
      assert r in rs || r == next;
    }
  }

  /** Folding records of one address, in any order, gives conflict if one is in
      conflict or two name different hardware addresses, and otherwise the
      highest state among them; and the time of the newest. */
  lemma {:induction false} FoldDescribes(rs: seq<Record>, ip: text)
    requires rs != [] && AllAt(rs, ip) && ip != []
    ensures Describes(multiset(rs), ip, Fold(rs))
  {
    var n := |rs| - 1;
    assert rs == rs[..n] + [rs[n]];
    if n == 0 {
      assert rs[..0] == [] && multiset(rs) == multiset{rs[0]};
      assert rs[0] in multiset{rs[0]};
    } else {
      FoldDescribes(rs[..n], ip);
      DescribesNext(multiset(rs[..n]), Fold(rs[..n]), rs[n]);
      assert multiset(rs) == multiset(rs[..n]) + multiset{rs[n]};
    }
  }

  /** So the state and the time do not depend on the order. */
  lemma MergeOrderFree(rs: seq<Record>, ss: seq<Record>, ip: text)
    requires rs != [] && AllAt(rs, ip) && ip != [] && multiset(rs) == multiset(ss)
    ensures Fold(rs).state == Fold(ss).state && Fold(rs).updatedAt == Fold(ss).updatedAt && Fold(rs).ip == Fold(ss).ip
    ensures !InConflict(multiset(rs)) ==> Fold(rs).mac == Fold(ss).mac
  {
    assert |ss| == |multiset(ss)| == |multiset(rs)| == |rs|;
    assert AllAt(ss, ip) by {
      forall i | 0 <= i < |ss| ensures ss[i].ip == ip {
        assert ss[i] in multiset(ss);
        assert ss[i] in multiset(rs);
      }
    }
    FoldDescribes(rs, ip);
    FoldDescribes(ss, ip);
  }

  // ---------- the sources ----------

  datatype Reservation = Reservation(mac: text, ip: text, hostname: text, subnet: text, updatedAt: Time)

  /** How leases are shown: the host name in them, their state as text, and the
      subnets to look addresses up in. */
  datatype View = View(hostOf: bytes -> text, stateText: LeaseState -> text, names: Subnets.Names,
                       subnets: seq<Subnets.Subnet>)

  function OfReservation(r: Reservation): Record
  {
    Record(r.ip, r.subnet, Reserved, r.mac, r.hostname, [], Ascii("reservation"), r.updatedAt)
  }

  function LeaseToIpState(s: LeaseState): IpState
  {
    match s
    case Declined => Conflict
    case Quarantined => Quarantine
    case Expired => Quarantine
    case Released => Quarantine
    case _ => Dhcp
  }

  /** The subnet a lease names, or else the one that holds its address. */
  function SubnetOf(v: View, l: Lease, ip: text): text
  {
    var named := TrimSpace(l.subnetId);
    if named != [] then named
    else match v.names.parseAddr(ip)
      case None => named
      case Some(a) => Subnets.Infer(v.names, a, v.subnets)
  }

  function OfLease(v: View, l: Lease, subnet: text): Record
  {
    Record(l.ip, subnet, LeaseToIpState(l.state), NormalizeMac(l.mac), v.hostOf(l.rest), v.stateText(l.state),
           Ascii("lease"), l.updatedAt)
  }

  function ReservedRecords(rs: seq<Reservation>): (out: seq<Record>)
    ensures |out| == |rs|
  {
    seq(|rs|, i requires 0 <= i < |rs| => OfReservation(rs[i]))
  }

  function LeasedRecords(v: View, ls: seq<Lease>): (out: seq<Record>)
    ensures |out| == |ls|
  {
    seq(|ls|, i requires 0 <= i < |ls| => OfLease(v, ls[i], SubnetOf(v, ls[i], TrimSpace(ls[i].ip))))
  }

  // ---------- ListAddresses ----------

  type Records = map<text, Record>

  function At(m: Records, ip: text): Record
  {
    if ip in m then m[ip] else NO_RECORD
  }

  predicate Wanted(r: Record, target: text)
  {
    target == [] || r.subnet == target
  }

  /** The records under their addresses, each merged into what is there. */
  function Collect(m: Records, items: seq<Record>, target: text): Records
  {
    if items == [] then m else
      var before := Collect(m, items[..|items| - 1], target);
      var r := items[|items| - 1];
      if Wanted(r, target) then before[r.ip := Merge(At(before, r.ip), r)] else before
  }

  lemma CollectNext(m: Records, items: seq<Record>, i: nat, target: text)
    requires i < |items|
    ensures var before := Collect(m, items[..i], target);
            Collect(m, items[..i + 1], target)
            == if Wanted(items[i], target) then before[items[i].ip := Merge(At(before, items[i].ip), items[i])]
              else before
  {
    assert items[..i + 1][..i] == items[..i];
  }

  /** The three loops of ListAddresses, on all three sources in their order. */
  method CollectAll(v: View, target: text, stored: seq<Record>, reservations: seq<Reservation>,
                    leases: Option<seq<Lease>>)
    returns (records: Records)
    ensures var listed := if leases == None then [] else leases.value;
            records == Collect(Collect(Collect(map[], stored, target), ReservedRecords(reservations), target),
                               LeasedRecords(v, listed), target)
  {
    records := map[];
    for i := 0 to |stored|
      invariant records == Collect(map[], stored[..i], target)
    {
      CollectNext(map[], stored, i, target);
      if target != [] && stored[i].subnet != target {
        continue;
      }
      records := records[stored[i].ip := Merge(At(records, stored[i].ip), stored[i])];
    }
    assert stored[..|stored|] == stored;
    ghost var first, reserved := records, ReservedRecords(reservations);
    for i := 0 to |reservations|
      invariant records == Collect(first, reserved[..i], target)
    {
      CollectNext(first, reserved, i, target);
      var r := reservations[i];
      if target != [] && r.subnet != target {
        continue;
      }
      records := records[r.ip := Merge(At(records, r.ip), OfReservation(r))];
    }
    assert reserved[..|reserved|] == reserved;
    if leases.Some? {
      records := CollectLeases(v, target, records, leases.value);
    }
  }

  method CollectLeases(v: View, target: text, start: Records, leases: seq<Lease>) returns (records: Records)
    ensures records == Collect(start, LeasedRecords(v, leases), target)
  {
    records := start;
    ghost var leased := LeasedRecords(v, leases);
    for i := 0 to |leases|
      invariant records == Collect(start, leased[..i], target)
    {
      CollectNext(start, leased, i, target);
      var l := leases[i];
      var subnet := TrimSpace(l.subnetId);
      if subnet == [] {
        var addr := v.names.parseAddr(TrimSpace(l.ip));
        if addr.Some? {
          subnet := Subnets.InferSubnetForAddr(v.names, addr.value, v.subnets);
        }
      }
      if target != [] && subnet != target {
        continue;
      }
      records := records[l.ip := Merge(At(records, l.ip), OfLease(v, l, subnet))];
    }
    assert leased[..|leased|] == leased;
  }

  // ---------- GetAddress ----------

  datatype Got = InvalidIp | NotFound | Got(record: Record)

  /** The records of one address. */
  function Only(items: seq<Record>, ip: text): (out: seq<Record>)
    ensures forall i :: 0 <= i < |out| ==> out[i].ip == ip
  {
    if items == [] then [] else
      var front := Only(items[..|items| - 1], ip);
      if items[|items| - 1].ip == ip then front + [items[|items| - 1]] else front
  }

  /** Everything filed under an address, in the order GetAddress merges it. */
  function Sources(v: View, stored: map<text, Record>, reservations: seq<Reservation>, leases: Table,
                   ip: text): seq<Record>
  {
    (if ip in stored then [stored[ip]] else [])
    + Only(ReservedRecords(reservations), ip)
    + (if ip in leases then [OfLease(v, leases[ip], SubnetOf(v, leases[ip], ip))] else [])
  }

  function Looked(v: View, stored: map<text, Record>, reservations: seq<Reservation>, leases: Table, raw: text): Got
  {
    var ip := TrimSpace(raw);
    var addr := v.names.parseAddr(ip);
    if addr == None then InvalidIp
    else
      var sources := Sources(v, stored, reservations, leases, ip);
      if sources != [] then Got(Fold(sources))
      else
        var subnet := Subnets.Infer(v.names, addr.value, v.subnets);
        if subnet == [] then NotFound else Got(Record(ip, subnet, Available, [], [], [], Ascii("subnet"), ZERO_TIME))
  }

  method GetAddress(v: View, stored: map<text, Record>, reservations: seq<Reservation>, leases: Table, raw: text)
    returns (r: Got)
    ensures r == Looked(v, stored, reservations, leases, raw)
  {
    var candidate := TrimSpace(raw);
    var addr := v.names.parseAddr(candidate);
    if addr == None {
      return InvalidIp;
    }
    var found, out := candidate in stored, NO_RECORD;
    ghost var done: seq<Record> := [];
    if found {
      out := Merge(out, stored[candidate]);
      done := [stored[candidate]];
    }
    found, out, done := MergeReservations(reservations, candidate, found, out, done);
    if candidate in leases {
      var l := leases[candidate];
      var subnet := TrimSpace(l.subnetId);
      if subnet == [] {
        subnet := Subnets.InferSubnetForAddr(v.names, addr.value, v.subnets);
      }
      FoldNext(done, OfLease(v, l, subnet));
      out, found := Merge(out, OfLease(v, l, subnet)), true;
      done := done + [OfLease(v, l, subnet)];
    }
    assert done == Sources(v, stored, reservations, leases, candidate);
    if !found {
      var subnet := Subnets.InferSubnetForAddr(v.names, addr.value, v.subnets);
      if subnet == [] {
        return NotFound;
      }
      return Got(Record(candidate, subnet, Available, [], [], [], Ascii("subnet"), ZERO_TIME));
    }
    return Got(out);
  }

  /** The loop of GetAddress over the reservations; `done` are the records merged so far. */
  method MergeReservations(reservations: seq<Reservation>, ip: text, found: bool, current: Record,
                           ghost done: seq<Record>)
    returns (any: bool, out: Record, ghost all: seq<Record>)
    requires current == Fold(done) && (found <==> done != [])
    ensures all == done + Only(ReservedRecords(reservations), ip) && out == Fold(all) && (any <==> all != [])
  {
    any, out, all := found, current, done;
    ghost var reserved := ReservedRecords(reservations);
    for i := 0 to |reservations|
      invariant all == done + Only(reserved[..i], ip)
      invariant out == Fold(all) && (any <==> all != [])
    {
      OnlyNext(reserved, i, ip);
      if reservations[i].ip != ip {
        continue;
      }
      FoldNext(all, reserved[i]);
      Regroup(done, Only(reserved[..i], ip), [reserved[i]]);
      any, out, all := true, Merge(out, OfReservation(reservations[i])), all + [reserved[i]];
    }
    assert reserved[..|reserved|] == reserved;
  }

  lemma OnlyNext(items: seq<Record>, i: nat, ip: text)
    requires i < |items|
    ensures Only(items[..i + 1], ip)
            == if items[i].ip == ip then Only(items[..i], ip) + [items[i]] else Only(items[..i], ip)
  {
    assert items[..i + 1][..i] == items[..i];
  }

  lemma FoldNext(done: seq<Record>, r: Record)
    ensures Fold(done + [r]) == Merge(Fold(done), r)
  {
    assert (done + [r])[..|done|] == done;
  }

  // ---------- the list and the lookup agree ----------

  /** Under an address stands the fold of these records, or nothing if there are none. */
  ghost predicate Shows(m: Records, ip: text, rs: seq<Record>)
  {
    if rs == [] then ip !in m else ip in m && m[ip] == Fold(rs)
  }

  lemma ShowsNext(m: Records, ip: text, rs: seq<Record>, r: Record)
    requires Shows(m, ip, rs)
    ensures Shows(m[r.ip := Merge(At(m, r.ip), r)], ip, if r.ip == ip then rs + [r] else rs)
  {
    if r.ip == ip {
      FoldNext(rs, r);
      assert At(m, ip) == Fold(rs);
    }
  }

  /** What is collected under an address is the fold of its records. */
  lemma {:induction false} CollectIsFold(m: Records, rs: seq<Record>, items: seq<Record>, ip: text)
    requires Shows(m, ip, rs)
    ensures Shows(Collect(m, items, []), ip, rs + Only(items, ip))
  {
    if items == [] {
      assert rs + [] == rs;
    } else {
      var n := |items| - 1;
      CollectIsFold(m, rs, items[..n], ip);
      ShowsNext(Collect(m, items[..n], []), ip, rs + Only(items[..n], ip), items[n]);
      assert rs + (Only(items[..n], ip) + [items[n]]) == rs + Only(items[..n], ip) + [items[n]];
    }
  }

  ghost predicate ListsRecords(all: seq<Record>, m: map<text, Record>)
  {
    && (forall i {:trigger all[i]} :: 0 <= i < |all| ==> all[i].ip in m && m[all[i].ip] == all[i])
    && (forall i, j {:trigger all[i], all[j]} :: 0 <= i < j < |all| ==> all[i].ip != all[j].ip)
    && (forall ip {:trigger m[ip]} :: ip in m ==> m[ip] in all)
  }

  ghost predicate ListsLeases(all: seq<Lease>, m: Table)
  {
    && (forall i {:trigger all[i]} :: 0 <= i < |all| ==> all[i].ip in m && m[all[i].ip] == all[i])
    && (forall i, j {:trigger all[i], all[j]} :: 0 <= i < j < |all| ==> all[i].ip != all[j].ip)
    && (forall ip {:trigger m[ip]} :: ip in m ==> m[ip] in all)
  }

  lemma {:induction false} OnlyOne(items: seq<Record>, ip: text, k: nat)
    requires k < |items| && items[k].ip == ip
    requires forall i, j {:trigger items[i], items[j]} :: 0 <= i < j < |items| ==> items[i].ip != items[j].ip
    ensures Only(items, ip) == [items[k]]
  {
    var n := |items| - 1;
    if k == n {
      OnlyNone(items[..n], ip);
    } else {
      OnlyOne(items[..n], ip, k);
    }
  }

  lemma {:induction false} OnlyNone(items: seq<Record>, ip: text)
    requires forall i {:trigger items[i]} :: 0 <= i < |items| ==> items[i].ip != ip
    ensures Only(items, ip) == []
  {
    if items != [] {
      OnlyNone(items[..|items| - 1], ip);
    }
  }

  lemma OnlyStored(all: seq<Record>, m: map<text, Record>, ip: text)
    requires ListsRecords(all, m) && forall k {:trigger m[k]} :: k in m ==> m[k].ip == k
    ensures Only(all, ip) == if ip in m then [m[ip]] else []
  {
    if ip in m {
      var i :| 0 <= i < |all| && all[i] == m[ip];
      OnlyOne(all, ip, i);
    } else {
      OnlyNone(all, ip);
    }
  }

  lemma OnlyLeased(v: View, all: seq<Lease>, m: Table, ip: text)
    requires ListsLeases(all, m) && (forall k {:trigger m[k]} :: k in m ==> m[k].ip == k) && TrimSpace(ip) == ip
    ensures Only(LeasedRecords(v, all), ip) == if ip in m then [OfLease(v, m[ip], SubnetOf(v, m[ip], ip))] else []
  {
    var rs := LeasedRecords(v, all);
    assert forall i {:trigger rs[i]} :: 0 <= i < |rs| ==> rs[i].ip == all[i].ip;
    if ip in m {
      var i :| 0 <= i < |all| && all[i] == m[ip];
      OnlyOne(rs, ip, i);
    } else {
      OnlyNone(rs, ip);
    }
  }

  /** The unfiltered listing has a record for an address exactly when something
      is filed under it, and it is the record a lookup returns. */
  lemma LookupAgreesWithList(v: View, stored: map<text, Record>, storedList: seq<Record>,
                             reservations: seq<Reservation>, leases: Table, leaseList: seq<Lease>, ip: text)
    requires ip != [] && TrimSpace(ip) == ip && v.names.parseAddr(ip).Some?
    requires ListsRecords(storedList, stored) && forall k {:trigger stored[k]} :: k in stored ==> stored[k].ip == k
    requires ListsLeases(leaseList, leases) && forall k {:trigger leases[k]} :: k in leases ==> leases[k].ip == k
    ensures var records := Collect(Collect(Collect(map[], storedList, []), ReservedRecords(reservations), []),
                                   LeasedRecords(v, leaseList), []);
            && (ip in records <==> Sources(v, stored, reservations, leases, ip) != [])
            && (ip in records ==> Looked(v, stored, reservations, leases, ip) == Got(records[ip]))
  {
    var reserved, leased := ReservedRecords(reservations), LeasedRecords(v, leaseList);
    var first := Collect(map[], storedList, []);
    CollectIsFold(map[], [], storedList, ip);
    assert [] + Only(storedList, ip) == Only(storedList, ip);
    CollectIsFold(first, Only(storedList, ip), reserved, ip);
    CollectIsFold(Collect(first, reserved, []), Only(storedList, ip) + Only(reserved, ip), leased, ip);
    OnlyStored(storedList, stored, ip);
    OnlyLeased(v, leaseList, leases, ip);
  }

  // ---------- the filter "all" ----------

  lemma {:induction false} CollectedNothing(m: Records, items: seq<Record>, target: text)
    ensures Collect(m, items, target) == map[]
            <==> m == map[] && forall i {:trigger items[i]} :: 0 <= i < |items| ==> !Wanted(items[i], target)
  {
    if items != [] {
      var n := |items| - 1;
      CollectedNothing(m, items[..n], target);
      assert forall i {:trigger items[i]} :: 0 <= i < n ==> items[..n][i] == items[i];
      if Wanted(items[n], target) {
        assert items[n].ip in Collect(m, items, target);
      }
    }
  }

  /** Some of these records have this subnet. */
  ghost predicate Names(items: seq<Record>, target: text)
  {
    exists i {:trigger items[i]} :: 0 <= i < |items| && items[i].subnet == target
  }

  /** The subnet filter "all" is let through without a lookup but then compared
      like a name: it lists nothing if and only if no record names a subnet
      "all". */
  lemma AllListsNothing(v: View, stored: seq<Record>, reservations: seq<Reservation>, leases: seq<Lease>)
    ensures var all, reserved, leased := Ascii("all"), ReservedRecords(reservations), LeasedRecords(v, leases);
            Collect(Collect(Collect(map[], stored, all), reserved, all), leased, all) == map[]
            <==> !Names(stored, all) && !Names(reserved, all) && !Names(leased, all)
  {
    var all, reserved, leased := Ascii("all"), ReservedRecords(reservations), LeasedRecords(v, leases);
    assert all != [];
    var one := Collect(map[], stored, all);
    CollectedNothing(map[], stored, all);
    CollectedNothing(one, reserved, all);
    CollectedNothing(Collect(one, reserved, all), leased, all);
  }
}
