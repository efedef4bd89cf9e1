/** Stored subnets (internal/ipam/engine.go): which ones are accepted, and why
    no two of them ever share an address. */
module Subnets {
  import opened Wrappers
  import opened GoText
  import opened Leases
  import opened Cidr
  import Planner

  /** The text forms of net/netip. */
  datatype Names = Names(parsePrefix: text -> Option<Prefix>, formatPrefix: Prefix -> text,
                         parseAddr: text -> Option<Addr>)

  ghost predicate Faithful(n: Names)
  {
    forall p: Prefix {:trigger n.formatPrefix(p)} ::
      && n.parsePrefix(n.formatPrefix(p)) == Some(p) && n.formatPrefix(p) != []
      && TrimSpace(n.formatPrefix(p)) == n.formatPrefix(p)
  }

  datatype Pool = Pool(enabled: bool, start: text, end: text, leaseSeconds: int)

  datatype Subnet = Subnet(cidr: text, name: text, vlan: int, gateway: text, dns: seq<text>, dhcp: Pool,
                           createdAt: Time, updatedAt: Time)

  datatype Input = Input(cidr: text, name: text, vlan: int, gateway: text, dns: seq<text>, dhcp: Pool)

  datatype Rejection = InvalidCidr | InvalidGateway | GatewayOutside | InvalidPoolStart | InvalidPoolEnd
                     | PoolOutside | PoolReversed | VlanOutOfRange | OverlapsStored

  datatype Validated = Accepted(subnet: Subnet) | Rejected(why: Rejection)

  /** netip.Addr.Compare(a, b) > 0. */
  predicate After(a: Addr, b: Addr)
  {
    if a.is4 != b.is4 then b.is4 else a.value > b.value
  }

  function NormalizeDns(dns: seq<text>): seq<text>
  {
    if dns == [] then []
    else if TrimSpace(dns[0]) == [] then NormalizeDns(dns[1..])
    else [TrimSpace(dns[0])] + NormalizeDns(dns[1..])
  }

  /** validateSubnet: everything that does not depend on other subnets. */
  function ValidateForm(n: Names, input: Input): Validated
  {
    match n.parsePrefix(TrimSpace(input.cidr))
    case None => Rejected(InvalidCidr)
    case Some(prefix) =>
      var gateway := n.parseAddr(TrimSpace(input.gateway));
      if input.gateway != [] && gateway == None then Rejected(InvalidGateway)
      else if input.gateway != [] && !PrefixContains(prefix, gateway.value) then Rejected(GatewayOutside)
      else
        var start, end := n.parseAddr(TrimSpace(input.dhcp.start)), n.parseAddr(TrimSpace(input.dhcp.end));
        if input.dhcp.enabled && start == None then Rejected(InvalidPoolStart)
        else if input.dhcp.enabled && end == None then Rejected(InvalidPoolEnd)
        else if input.dhcp.enabled && !(PrefixContains(prefix, start.value) && PrefixContains(prefix, end.value))
        then Rejected(PoolOutside)
        else if input.dhcp.enabled && After(start.value, end.value) then Rejected(PoolReversed)
        else if input.vlan < 0 || input.vlan > 4094 then Rejected(VlanOutOfRange)
        else Accepted(Subnet(
          n.formatPrefix(Masked(prefix)), TrimSpace(input.name), input.vlan, TrimSpace(input.gateway),
          NormalizeDns(input.dns),
          Pool(input.dhcp.enabled, TrimSpace(input.dhcp.start), TrimSpace(input.dhcp.end),
               if input.dhcp.leaseSeconds <= 0 then 12 * 3600 else input.dhcp.leaseSeconds),
          ZERO_TIME, ZERO_TIME))
  }

  /** An accepted subnet is named by its block; its gateway and its pool are
      addresses of the block, the pool in order. */
  lemma FormIsSound(n: Names, input: Input)
    requires Faithful(n) && ValidateForm(n, input).Accepted?
    ensures var s := ValidateForm(n, input).subnet;
            exists p: Prefix {:trigger n.formatPrefix(p)} ::
              && s.cidr == n.formatPrefix(p) && p == Masked(p)
              && (input.gateway != [] ==> n.parseAddr(s.gateway).Some? && In(p, n.parseAddr(s.gateway).value))
              && (s.dhcp.enabled ==>
                    && n.parseAddr(s.dhcp.start).Some? && n.parseAddr(s.dhcp.end).Some?
                    && In(p, n.parseAddr(s.dhcp.start).value) && In(p, n.parseAddr(s.dhcp.end).value)
                    && n.parseAddr(s.dhcp.start).value.value <= n.parseAddr(s.dhcp.end).value.value)
  {
    var prefix := n.parsePrefix(TrimSpace(input.cidr)).value;
    var p := Masked(prefix);
    MaskedSame(prefix);
    forall a: Addr ensures PrefixContains(prefix, a) <==> In(p, a) {
      ContainsIffIn(prefix, a);
    }
    assert ValidateForm(n, input).subnet.cidr == n.formatPrefix(p);
  }

  // ---------- the stored subnets ----------

  type Table = map<text, Subnet>

  /** ListSubnets: every stored subnet once, in some order. */
  ghost predicate Lists(all: seq<Subnet>, m: Table)
  {
    && (forall i {:trigger all[i]} :: 0 <= i < |all| ==> all[i].cidr in m && m[all[i].cidr] == all[i])
    && (forall k {:trigger m[k]} :: k in m ==> m[k] in all)
  }

  /** Subnets are filed under their own names, which name blocks. */
  ghost predicate Filed(n: Names, m: Table)
  {
    forall k {:trigger m[k]} :: k in m ==> m[k].cidr == k && k != [] && TrimSpace(k) == k && IsBlockName(n, k)
  }

  predicate IsBlockName(n: Names, k: text)
  {
    n.parsePrefix(k).Some? && Masked(n.parsePrefix(k).value) == n.parsePrefix(k).value
    && n.formatPrefix(n.parsePrefix(k).value) == k
  }

  ghost predicate Shares(n: Names, j: text, k: text)
    requires n.parsePrefix(j).Some? && n.parsePrefix(k).Some?
  {
    exists x: Addr :: In(n.parsePrefix(j).value, x) && In(n.parsePrefix(k).value, x)
  }

  /** No two stored subnets share an address. */
  ghost predicate Disjoint(n: Names, m: Table)
  {
    && Filed(n, m)
    && forall j, k {:trigger Shares(n, j, k)} :: j in m && k in m && j != k ==> !Shares(n, j, k)
  }

  /** Some stored subnet under another name shares an address with this one. */
  ghost predicate Clashes(n: Names, m: Table, cidr: text)
    requires Filed(n, m) && n.parsePrefix(cidr).Some?
  {
    exists k {:trigger m[k]} :: k in m && k != cidr && Shares(n, cidr, k)
  }

  /** The loop of ValidateSubnet over the listed subnets. */
  method FindOverlap(n: Names, cidr: text, current: seq<Subnet>, ghost m: Table) returns (found: bool)
    requires n.parsePrefix(cidr).Some? && Filed(n, m) && Lists(current, m)
    ensures found <==> Clashes(n, m, cidr)
  {
    for i := 0 to |current|
      invariant forall j :: 0 <= j < i && current[j].cidr != cidr ==> !Shares(n, cidr, current[j].cidr)
    {
      var s := current[i];
      assert m[s.cidr] == s;
      if s.cidr == cidr {
        continue;
      }
      var a, b := n.parsePrefix(s.cidr), n.parsePrefix(cidr);
      OverlapsExact(a.value, b.value);
      if Overlaps(a.value, b.value) {
        return true;
      }
    }
    forall k | k in m && k != cidr ensures !Shares(n, cidr, k) {
      var i :| 0 <= i < |current| && current[i] == m[k];
    }
    return false;
  }

  /** UpsertSubnet on a table, given that its form is right. */
  ghost function UpsertState(n: Names, m: Table, input: Input, now: Time): (Table, Validated)
    requires Faithful(n) && Filed(n, m)
  {
    var form := ValidateForm(n, input);
    if form.Rejected? then (m, form)
    else
      var s := form.subnet;
      assert n.parsePrefix(s.cidr).Some? by { FormIsSound(n, input); }
      if Clashes(n, m, s.cidr) then (m, Rejected(OverlapsStored))
      else
        var stored := s.(createdAt := if s.cidr in m then m[s.cidr].createdAt else now, updatedAt := now);
        (m[s.cidr := stored], Accepted(stored))
  }

  class IpamEngine {
    const names: Names
    var subnets: Table

    constructor (names: Names)
      ensures this.names == names && subnets == map[]
    {
      this.names := names;
      subnets := map[];
    }

    /** UpsertSubnet; `current` is what ListSubnets returns. */
    method UpsertSubnet(input: Input, current: seq<Subnet>, now: Time) returns (r: Validated)
      requires Faithful(names) && Filed(names, subnets) && Lists(current, subnets)
      modifies this
      ensures (subnets, r) == UpsertState(names, old(subnets), input, now)
      ensures Filed(names, subnets)
    {
      var form := ValidateForm(names, input);
      if form.Rejected? {
        return form;
      }
      var normalized := form.subnet;
      FormIsSound(names, input);
      var clash := FindOverlap(names, normalized.cidr, current, subnets);
      if clash {
        return Rejected(OverlapsStored);
      }
      var key := TrimSpace(normalized.cidr);
      var created := if key in subnets then subnets[key].createdAt else now;
      normalized := normalized.(createdAt := created, updatedAt := now);
      subnets := subnets[normalized.cidr := normalized];
      return Accepted(normalized);
    }

    method DeleteSubnet(cidr: text)
      modifies this
      ensures subnets == old(subnets) - {TrimSpace(cidr)}
    {
      subnets := subnets - {TrimSpace(cidr)};
    }
  }

  // ---------- disjointness over every run ----------

  datatype Op = Upsert(input: Input, now: Time) | Delete(cidr: text)

  ghost function Next(n: Names, m: Table, op: Op): Table
    requires Faithful(n) && Filed(n, m)
  {
    match op
    case Upsert(input, now) => UpsertState(n, m, input, now).0
    case Delete(cidr) => m - {TrimSpace(cidr)}
  }

  lemma UpsertKeepsDisjoint(n: Names, m: Table, input: Input, now: Time)
    requires Faithful(n) && Disjoint(n, m)
    ensures Disjoint(n, UpsertState(n, m, input, now).0)
  {
    var (after, r) := UpsertState(n, m, input, now);
    if r.Accepted? {
      FormIsSound(n, input);
      var cidr := r.subnet.cidr;
      forall j, k | j in after && k in after && j != k ensures !Shares(n, j, k) {
        if k == cidr {
          assert m[j].cidr == j;
          assert !Shares(n, cidr, j);
        } else if j == cidr {
          assert m[k].cidr == k;
        }
      }
    }
  }

  /** An upsert goes through exactly when its form is right and no other
      stored subnet shares an address with it. */
  lemma UpsertAccepts(n: Names, m: Table, input: Input, now: Time)
    requires Faithful(n) && Disjoint(n, m)
    ensures UpsertState(n, m, input, now).1.Accepted? <==>
              && ValidateForm(n, input).Accepted?
              && forall k, x: Addr {:trigger m[k], PrefixContains(n.parsePrefix(TrimSpace(input.cidr)).value, x)} ::
                   k in m && In(n.parsePrefix(k).value, x)
                   && PrefixContains(n.parsePrefix(TrimSpace(input.cidr)).value, x) ==>
                     k == ValidateForm(n, input).subnet.cidr
  {
    if ValidateForm(n, input).Accepted? {
      FormIsSound(n, input);
      var prefix := n.parsePrefix(TrimSpace(input.cidr)).value;
      var cidr := ValidateForm(n, input).subnet.cidr;
      MaskedSame(prefix);
      forall x: Addr ensures PrefixContains(prefix, x) <==> In(n.parsePrefix(cidr).value, x) {
        ContainsIffIn(prefix, x);
      }
    }
  }

  ghost predicate IsRun(n: Names, states: seq<Table>, ops: seq<Op>)
    requires Faithful(n)
  {
    && |states| == |ops| + 1
    && forall i :: 0 <= i < |ops| ==> Filed(n, states[i]) && states[i + 1] == Next(n, states[i], ops[i])
  }

  lemma {:induction false} RunKeepsDisjoint(n: Names, states: seq<Table>, ops: seq<Op>)
    requires Faithful(n) && IsRun(n, states, ops) && Disjoint(n, states[0])
    ensures Disjoint(n, states[|ops|])
    decreases |ops|
  {
    if ops != [] {
      var i := |ops| - 1;
      RunKeepsDisjoint(n, states[..i + 1], ops[..i]);
      if ops[i].Upsert? {
        UpsertKeepsDisjoint(n, states[i], ops[i].input, ops[i].now);
      }
    }
  }

  // ---------- which subnet an address belongs to ----------

  method InferSubnetForAddr(n: Names, addr: Addr, all: seq<Subnet>) returns (cidr: text)
    ensures cidr == Infer(n, addr, all)
  {
    assert all[0..] == all;
    for i := 0 to |all|
      invariant Infer(n, addr, all) == Infer(n, addr, all[i..])
    {
      assert all[i..][0] == all[i] && all[i..][1..] == all[i + 1..];
      var prefix := n.parsePrefix(all[i].cidr);
      if prefix == None {
        continue;
      }
      if PrefixContains(prefix.value, addr) {
        return all[i].cidr;
      }
    }
    return [];
  }

  function Infer(n: Names, addr: Addr, all: seq<Subnet>): text
  {
    if all == [] then []
    else if n.parsePrefix(all[0].cidr).Some? && PrefixContains(n.parsePrefix(all[0].cidr).value, addr) then all[0].cidr
    else Infer(n, addr, all[1..])
  }

  lemma {:induction false} InferFinds(n: Names, addr: Addr, all: seq<Subnet>)
    ensures var r := Infer(n, addr, all);
            || (exists i :: 0 <= i < |all| && r == all[i].cidr
                            && n.parsePrefix(r).Some? && In(n.parsePrefix(r).value, addr))
            || (r == [] && forall i :: 0 <= i < |all| && n.parsePrefix(all[i].cidr).Some? ==>
                                         !In(n.parsePrefix(all[i].cidr).value, addr))
  {
    if all != [] {
      if n.parsePrefix(all[0].cidr).Some? {
        ContainsIffIn(n.parsePrefix(all[0].cidr).value, addr);
      }
      InferFinds(n, addr, all[1..]);
    }
  }

  /** With disjoint subnets an address belongs to the one subnet that holds it,
      or to none, whatever the order of the listing. */
  lemma InferExact(n: Names, m: Table, all: seq<Subnet>, addr: Addr)
    requires Disjoint(n, m) && Lists(all, m)
    ensures var r := Infer(n, addr, all);
            && (forall k {:trigger m[k]} :: k in m ==> (In(n.parsePrefix(k).value, addr) <==> r == k))
            && (r in m || r == [])
  {
    InferFinds(n, addr, all);
    var r := Infer(n, addr, all);
    forall k | k in m && In(n.parsePrefix(k).value, addr) ensures r == k {
      var i :| 0 <= i < |all| && all[i] == m[k];
      assert all[i].cidr == k;
      if r != k {
        assert r in m && m[r].cidr == r;
        assert Shares(n, r, k);
      }
    }
    if r in m {
      assert m[r].cidr == r && r != [];
    }
  }

  lemma InferOrderFree(n: Names, m: Table, one: seq<Subnet>, other: seq<Subnet>, addr: Addr)
    requires Disjoint(n, m) && Lists(one, m) && Lists(other, m)
    ensures Infer(n, addr, one) == Infer(n, addr, other)
  {
    InferExact(n, m, one, addr);
    InferExact(n, m, other, addr);
  }

  // ---------- the planner and the store agree ----------

  function Parsed(n: Names, all: seq<Subnet>): Planner.Existing
  {
    seq(|all|, i requires 0 <= i < |all| => n.parsePrefix(all[i].cidr))
  }

  /** A block the planner suggests is accepted when it is stored. */
  lemma PlannedIsAccepted(n: Names, m: Table, all: seq<Subnet>, block: Prefix, input: Input, now: Time)
    requires Faithful(n) && Disjoint(n, m) && Lists(all, m)
    requires Planner.Clear(block, Parsed(n, all)) && block == Masked(block)
    requires TrimSpace(input.cidr) == n.formatPrefix(block) && ValidateForm(n, input).Accepted?
    ensures UpsertState(n, m, input, now).1.Accepted?
  {
    var cidr := ValidateForm(n, input).subnet.cidr;
    assert cidr == n.formatPrefix(block);
    forall k | k in m && k != cidr ensures !Shares(n, cidr, k) {
      var i :| 0 <= i < |all| && all[i] == m[k];
      assert Parsed(n, all)[i] == n.parsePrefix(k);
      forall x: Addr | In(block, x) ensures !In(n.parsePrefix(k).value, x) {
      }
    }
  }
}
