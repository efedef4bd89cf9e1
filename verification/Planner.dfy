/** The IPv4 subnet planner of internal/api/mcp/handlers.go: the size of a block for
    so many hosts and their growth, the lowest free block of that size in a
    parent, its gateway and its pool. */
module Planner {
  import opened Bytes
  import opened Wrappers
  import opened Cidr

  /** What ParsePrefix makes of the stored subnets; None does not parse. */
  type Existing = seq<Option<Prefix>>

  /** A block shares no address with any stored subnet. */
  ghost predicate Clear(c: Prefix, existing: Existing)
  {
    forall i, x: Addr {:trigger In(c, x), existing[i]} ::
      0 <= i < |existing| && existing[i].Some? && In(c, x) ==> !In(existing[i].value, x)
  }

  /** A block of the given length, written by its first address, inside the parent. */
  ghost predicate BlockIn(parent: Prefix, bits: nat, c: Prefix)
  {
    c.bits == bits && c == Masked(c) && forall x: Addr {:trigger In(c, x)} :: In(c, x) ==> In(parent, x)
  }

  /** A block inside the parent starts at a multiple of its size and ends with
      the parent at the latest. */
  lemma BlockInside(parent: Prefix, bits: nat, c: Prefix)
    requires parent.addr.is4 && parent.bits <= bits && BlockIn(parent, bits, c)
    ensures c.addr.is4 && Aligned(First(c), 32 - bits)
    ensures First(parent) <= First(c) && First(c) + Size(c) <= First(parent) + Size(parent)
  {
    MaskedSame(c);
    assert In(c, c.addr);
    Nested(parent, c, c.addr);
  }

  /** The block that starts at an aligned address. */
  lemma BlockAt(bits: nat, u: uint32)
    requires bits <= 32 && Aligned(u, 32 - bits)
    ensures Masked(Cidr(V4(u), bits)) == Cidr(V4(u), bits)
  {
  }

  lemma ParentAligned(parent: Prefix, bits: nat)
    requires parent.addr.is4 && parent.bits <= bits <= 32
    ensures Aligned(First(parent), 32 - bits)
  {
    StartBelow(parent.addr.value, HostBits(parent));
    AlignedFiner(First(parent), HostBits(parent), 32 - bits);
  }

  lemma NoOverlap(c: Prefix, existing: Existing)
    requires forall i :: 0 <= i < |existing| && existing[i].Some? ==> !Overlaps(c, existing[i].value)
    ensures Clear(c, existing)
  {
    forall i, x: Addr | 0 <= i < |existing| && existing[i].Some? && In(c, x) ensures !In(existing[i].value, x) {
      OverlapsExact(c, existing[i].value);
    }
  }

  function PrefixAddressCount(bits: nat): nat
    requires bits <= 32
  {
    Pow2(32 - bits)
  }

  /** The scan over the stored subnets for one candidate. */
  method Occupied(c: Prefix, existing: Existing) returns (overlap: bool)
    ensures overlap <==> !Clear(c, existing)
  {
    overlap := false;
    for i := 0 to |existing|
      invariant forall j :: 0 <= j < i && existing[j].Some? ==> !Overlaps(c, existing[j].value)
    {
      if existing[i] == None {
        continue;
      }
      if Overlaps(c, existing[i].value) {
        OverlapsExact(c, existing[i].value);
        return true;
      }
    }
    NoOverlap(c, existing);
  }

  /** No clear block starts below an address. */
  ghost predicate NoneBelow(parent: Prefix, bits: nat, existing: Existing, u: int)
  {
    forall c: Prefix {:trigger BlockIn(parent, bits, c)} ::
      BlockIn(parent, bits, c) && First(c) < u ==> !Clear(c, existing)
  }

  lemma NoneBelowEnds(parent: Prefix, bits: nat, existing: Existing, u: int)
    requires parent.addr.is4 && parent.bits <= bits <= 32
    ensures NoneBelow(parent, bits, existing, First(parent))
    ensures NoneBelow(parent, bits, existing, u) && u + Pow2(32 - bits) > First(parent) + Size(parent) ==>
              NoneBelow(parent, bits, existing, U32_LIMIT)
  {
    forall c: Prefix | BlockIn(parent, bits, c)
      ensures First(parent) <= First(c) <= First(parent) + Size(parent) - Pow2(32 - bits)
    {
      BlockInside(parent, bits, c);
    }
  }

  /** Past a block that is not clear, or is not inside the parent. */
  lemma NoneBelowNext(parent: Prefix, bits: nat, existing: Existing, candidate: Prefix)
    requires parent.addr.is4 && parent.bits <= bits <= 32
    requires candidate.bits == bits && candidate.addr.is4 && candidate == Masked(candidate)
    requires NoneBelow(parent, bits, existing, First(candidate))
    requires BlockIn(parent, bits, candidate) ==> !Clear(candidate, existing)
    ensures NoneBelow(parent, bits, existing, First(candidate) + Size(candidate))
  {
    StartBelow(candidate.addr.value, HostBits(candidate));
    forall c: Prefix | BlockIn(parent, bits, c) && First(candidate) <= First(c) < First(candidate) + Size(candidate)
      ensures c == candidate
    {
      BlockInside(parent, bits, c);
      SameStart(First(c), First(candidate), 32 - bits);
    }
  }

  /** The lowest aligned block inside the parent that shares no address with a
      stored subnet; None exactly when there is no such block. */
  method FindCandidatePrefix(parent: Prefix, bits: nat, existing: Existing) returns (r: Option<Prefix>)
    requires parent.addr.is4 && parent.bits <= bits <= 32
    ensures r.Some? ==> BlockIn(parent, bits, r.value) && Clear(r.value, existing)
    ensures r.Some? ==> NoneBelow(parent, bits, existing, First(r.value))
    ensures r == None ==> NoneBelow(parent, bits, existing, U32_LIMIT)
  {
    var blockSize, parentCount := PrefixAddressCount(bits), AddressCount(parent);
    AddressCountExact(parent);
    NoneBelowEnds(parent, bits, existing, 0);
    ParentAligned(parent, bits);
    var offset := 0;
    while offset + blockSize <= parentCount
      invariant 0 <= offset && Aligned(First(parent) + offset, 32 - bits)
      invariant NoneBelow(parent, bits, existing, First(parent) + offset)
    {
      NthAddressExact(parent, offset);
      var nth := NthAddress(parent, offset);
      if nth == None {
        assert false;
        break;
      }
      BlockAt(bits, nth.value);
      var candidate := Masked(Cidr(V4(nth.value), bits));
      ContainsExact(parent, candidate);
      if Contains(parent, candidate) {
        var overlap := Occupied(candidate, existing);
        if !overlap {
          return Some(candidate);
        }
      }
      NoneBelowNext(parent, bits, existing, candidate);
      AlignedNext(First(parent) + offset, 32 - bits);
      offset := offset + blockSize;
    }
    NoneBelowEnds(parent, bits, existing, First(parent) + offset);
    return None;
  }

  // ---------- sizes ----------

  function UsableHosts(p: Prefix): nat
    requires p.addr.is4
  {
    if AddressCount(p) <= 2 then 0 else AddressCount(p) - 2
  }

  function Tens(bits: nat): Prefix
    requires bits <= 32
  {
    Cidr(V4(0x0A00_0000), bits)
  }

  /** The longest prefix from /30 to /1 whose usable hosts suffice. */
  method SmallestIPv4Prefix(requiredUsable: int) returns (bits: int)
    ensures bits == -1 <==> requiredUsable <= 0 || requiredUsable > 0x7FFF_FFFE
    ensures bits == -1 || (1 <= bits <= 30 && UsableHosts(Tens(bits)) >= requiredUsable)
    ensures forall b: nat {:trigger Tens(b)} :: 1 <= b <= 30 && UsableHosts(Tens(b)) >= requiredUsable > 0 ==> b <= bits
  {
    if requiredUsable <= 0 {
      return -1;
    }
    bits := 30;
    while bits >= 1
      invariant 0 <= bits <= 30
      invariant forall b: nat {:trigger Tens(b)} :: bits < b <= 30 ==> UsableHosts(Tens(b)) < requiredUsable
    {
      if UsableHosts(Tens(bits)) >= requiredUsable {
        UsableGrows(1, bits);
        return bits;
      }
      bits := bits - 1;
    }
    UsableGrows(1, 1);
    return -1;
  }

  lemma UsableOf(b: nat)
    requires b <= 30
    ensures UsableHosts(Tens(b)) == Pow2(32 - b) - 2
  {
    Pow2Grows(2, 32 - b);
    assert Pow2(2) == 4;
  }

  lemma UsableGrows(a: nat, b: nat)
    requires 1 <= a <= b <= 30
    ensures 2 <= UsableHosts(Tens(b)) <= UsableHosts(Tens(a)) <= 0x7FFF_FFFE
    ensures UsableHosts(Tens(1)) == 0x7FFF_FFFE
  {
    UsableOf(a);
    UsableOf(b);
    UsableOf(1);
    PowersBetween(a, b);
  }

  lemma PowersBetween(a: nat, b: nat)
    requires 1 <= a <= b <= 30
    ensures 4 <= Pow2(32 - b) <= Pow2(32 - a) <= Pow2(31) == 0x8000_0000
  {
    Pow2Grows(2, 32 - b);
    Pow2Grows(32 - b, 32 - a);
    Pow2Grows(32 - a, 31);
    Pow2Of32();
    assert Pow2(32) == 2 * Pow2(31) && Pow2(2) == 4;
  }

  datatype Plan = Plan(gateway: uint32, poolStart: uint32, poolEnd: uint32)

  /** netip.Addr.Next; the zero Addr, which sorts first, is None. */
  function Next(u: uint32): Option<uint32>
  {
    if u == 0xFFFF_FFFF then None else Some(u + 1)
  }

  function DefaultPlanAddresses(p: Prefix): Option<Plan>
    requires p.addr.is4
  {
    var total := AddressCount(p);
    if total < 4 then None else
      PlanParts(p);
      var gateway := NthAddress(p, 1).value;
      var lastUsable := NthAddress(p, total - 2).value;
      var startOffset := if UsableHosts(p) <= 20 then 2 else 10;
      var start := NthAddress(p, startOffset);
      if start == None || lastUsable < start.value
      then Some(Plan(gateway, if Next(gateway) == None then 0 else Next(gateway).value, lastUsable))
      else Some(Plan(gateway, start.value, lastUsable))
  }

  lemma PlanParts(p: Prefix)
    requires p.addr.is4 && AddressCount(p) >= 4
    ensures NthAddress(p, 1).Some? && NthAddress(p, AddressCount(p) - 2).Some?
  {
    AddressCountExact(p);
    NthAddressExact(p, 1);
    NthAddressExact(p, AddressCount(p) - 2);
  }

  predicate UsableHost(p: Prefix, u: uint32)
  {
    p.addr.is4 && First(p) < u < Last(p)
  }

  /** A plan for a block uses only host addresses of it: the first is the
      gateway, the pool runs to the last and leaves eight between them free
      where more than twenty are usable. There is none only for a block of
      fewer than four. */
  lemma PlanIsUsable(p: Prefix)
    requires p.addr.is4
    ensures DefaultPlanAddresses(p) == None <==> Last(p) - First(p) + 1 < 4
    ensures DefaultPlanAddresses(p).Some? ==>
              var plan := DefaultPlanAddresses(p).value;
              && UsableHost(p, plan.gateway) && plan.gateway == First(p) + 1
              && plan.poolStart - plan.gateway == (if Last(p) - First(p) - 1 <= 20 then 1 else 9)
              && plan.gateway < plan.poolStart <= plan.poolEnd
              && (forall u: uint32 :: plan.poolStart <= u <= plan.poolEnd ==> UsableHost(p, u))
              && plan.poolEnd == Last(p) - 1
  {
    AddressCountExact(p);
    if AddressCount(p) >= 4 {
      NthAddressExact(p, 1);
      NthAddressExact(p, AddressCount(p) - 2);
      NthAddressExact(p, 2);
      NthAddressExact(p, 10);
    }
  }

  // ---------- planning ----------

  datatype Outcome =
    | NoSize
    | NoSuchSize
    | ParentTooSmall
    | NoFreeBlock(bits: nat)
    | Planned(block: Prefix, plan: Option<Plan>)

  /** math.Ceil. */
  function Ceiling(x: real): int
  {
    -((-x).Floor)
  }

  /** How floating point rounds the result of an operation. */
  type Rounding = real -> real

  function Abs(x: real): real
  {
    if x < 0.0 then -x else x
  }

  const MANTISSA: real := 9007199254740992.0  // 2 to the 53rd

  predicate RoundsOne(round: Rounding, x: real)
  {
    MANTISSA * Abs(round(x) - x) <= Abs(x)
  }

  /** Double precision: the error is at most one part in 2 to the 53rd. */
  ghost predicate IsDouble(round: Rounding)
  {
    forall x: real {:trigger RoundsOne(round, x)} :: RoundsOne(round, x)
  }

  function Times(x: real, y: real): real
  {
    x * y
  }

  /** required * (1 + growth / 100), each operation rounded. */
  function Grown(required: int, growthPercent: int, round: Rounding): real
  {
    round(Times(required as real, round(1.0 + round(growthPercent as real / 100.0))))
  }

  /** The hosts to plan for: the required ones and their growth, rounded up. */
  function TargetUsable(required: int, growthPercent: int, round: Rounding): int
  {
    Ceiling(Grown(required, growthPercent, round))
  }

  lemma Scaled(r: real, s: real, t: real, m: real, k: real, b: real)
    requires m * Abs(s - t) <= k * b
    ensures m * Abs(r * s - r * t) <= k * (Abs(r) * b)
  {
    assert Abs(r * (s - t)) == Abs(r) * Abs(s - t);
    assert Abs(r) * (k * b - m * Abs(s - t)) >= 0.0;
  }

  lemma Products(r: real, s: real, factor: real, b: real) returns (y: real, z: real, size: real)
    requires MANTISSA * Abs(s - factor) <= 3.0 * b && Abs(s) <= 2.0 * b
    ensures y == r * s && z == r * factor && size == Abs(r) * b
    ensures Abs(y) <= 2.0 * size && MANTISSA * Abs(y - z) <= 3.0 * size
  {
    y, z, size := r * s, r * factor, Abs(r) * b;
    Scaled(r, s, 0.0, 1.0, 2.0, b);
    Scaled(r, s, factor, MANTISSA, 3.0, b);
  }

  /** Rounding a product whose factor is off by three units. */
  lemma ProductError(r: real, s: real, factor: real, b: real, x: real)
    requires MANTISSA * Abs(s - factor) <= 3.0 * b && Abs(s) <= 2.0 * b
    requires MANTISSA * Abs(x - r * s) <= Abs(r * s)
    ensures MANTISSA * Abs(x - r * factor) <= 5.0 * (Abs(r) * b)
  {
    var y, z, size := Products(r, s, factor, b);
    AddErrors(x, y, z, size);
  }

  lemma AddErrors(x: real, y: real, z: real, size: real)
    requires MANTISSA * Abs(x - y) <= Abs(y) && Abs(y) <= 2.0 * size && MANTISSA * Abs(y - z) <= 3.0 * size
    ensures MANTISSA * Abs(x - z) <= 5.0 * size
  {
  }

  /** The growth factor is off by at most three units of rounding. */
  lemma FactorError(a: real, round: Rounding)
    requires IsDouble(round)
    ensures var s := round(1.0 + round(a));
            MANTISSA * Abs(s - (1.0 + a)) <= 3.0 * (1.0 + Abs(a)) && Abs(s) <= 2.0 * (1.0 + Abs(a))
  {
    var q := round(a);
    assert RoundsOne(round, a) && RoundsOne(round, 1.0 + q);
  }

  /** The product is off by less than a hundredth of a host, for all sizes that
      matter: up to 2 to the 50th. */
  lemma GrownError(required: int, growthPercent: int, round: Rounding)
    requires IsDouble(round)
    requires Abs(required as real) * (100.0 + Abs(growthPercent as real)) <= 1125899906842624.0
    ensures Abs(100.0 * Grown(required, growthPercent, round) - (required * (100 + growthPercent)) as real) < 1.0
  {
    var factor, b, n := InHundredths(required, growthPercent);
    RoundedError(required as real, growthPercent as real / 100.0, factor, b, n, round);
  }

  lemma RoundedError(r: real, a: real, factor: real, b: real, n: real, round: Rounding)
    requires IsDouble(round) && factor == 1.0 + a && b == 1.0 + Abs(a)
    requires 100.0 * (r * factor) == n && 100.0 * (Abs(r) * b) <= 1125899906842624.0
    ensures Abs(100.0 * round(Times(r, round(1.0 + round(a)))) - n) < 1.0
  {
    var s := round(1.0 + round(a));
    var y := Times(r, s);
    assert RoundsOne(round, y);
    FactorError(a, round);
    ErrorBelowOne(r, s, y, factor, b, round(y), n);
  }

  lemma ErrorBelowOne(r: real, s: real, y: real, factor: real, b: real, x: real, n: real)
    requires y == r * s && MANTISSA * Abs(s - factor) <= 3.0 * b && Abs(s) <= 2.0 * b
    requires MANTISSA * Abs(x - y) <= Abs(y)
    requires 100.0 * (r * factor) == n && 100.0 * (Abs(r) * b) <= 1125899906842624.0
    ensures Abs(100.0 * x - n) < 1.0
  {
    ProductError(r, s, factor, b, x);
    BelowOne(x, r * factor, Abs(r) * b);
  }

  lemma BelowOne(x: real, z: real, size: real)
    requires MANTISSA * Abs(x - z) <= 5.0 * size && 100.0 * size <= 1125899906842624.0
    ensures Abs(100.0 * x - 100.0 * z) < 1.0
  {
  }

  lemma InHundredths(required: int, growthPercent: int) returns (factor: real, b: real, n: real)
    ensures factor == 1.0 + growthPercent as real / 100.0 && b == 1.0 + Abs(growthPercent as real / 100.0)
    ensures n == (required * (100 + growthPercent)) as real && 100.0 * (required as real * factor) == n
    ensures 100.0 * (Abs(required as real) * b) == Abs(required as real) * (100.0 + Abs(growthPercent as real))
  {
    var r, g := required as real, growthPercent as real;
    n := (required * (100 + growthPercent)) as real;
    factor, b := 1.0 + g / 100.0, 1.0 + Abs(g / 100.0);
    assert 100.0 * factor == 100.0 + g && 100.0 * b == 100.0 + Abs(g);
    assert 100.0 * (r * factor) == r * (100.0 * factor);
    assert 100.0 * (Abs(r) * b) == Abs(r) * (100.0 * b);
  }

  /** The least whole number that covers the growth; but one more where the
      growth makes a whole number and its product was rounded up. */
  lemma TargetExact(required: int, growthPercent: int, round: Rounding)
    requires IsDouble(round)
    requires Abs(required as real) * (100.0 + Abs(growthPercent as real)) <= 1125899906842624.0
    ensures var target, n := TargetUsable(required, growthPercent, round), required * (100 + growthPercent);
            if n % 100 == 0 && 100.0 * Grown(required, growthPercent, round) > n as real then 100 * (target - 1) == n
            else 100 * (target - 1) < n <= 100 * target
  {
    GrownError(required, growthPercent, round);
  }

  /** An input: with double precision 1860 hosts and 10 percent come to 2047
      hosts, and 2046 of them fit a block of 2048. */
  lemma RoundedUp(round: Rounding)
    requires round(0.1) == 3602879701896397.0 / 36028797018963968.0
    requires round(1.0 + round(0.1)) == 2476979795053773.0 / 2251799813685248.0
    requires round(1860.0 * (2476979795053773.0 / 2251799813685248.0)) == 8998403161718785.0 / 4398046511104.0
    ensures 1860 * (100 + 10) == 100 * 2046 && UsableHosts(Tens(21)) == 2046
    ensures TargetUsable(1860, 10, round) == 2047
  {
    UsableOf(21);
    assert Pow2(5) == 32 && Pow2(11) == 64 * Pow2(5);
  }

  /** The smallest blocks from /30 up that hold so many hosts. */
  ghost predicate RightSize(bits: nat, targetUsable: int)
  {
    && 1 <= bits <= 30 && UsableHosts(Tens(bits)) >= targetUsable
    && forall b: nat {:trigger Tens(b)} :: bits < b <= 30 ==> UsableHosts(Tens(b)) < targetUsable
  }

  /** planSubnet; `prompted` is the number found in the prompt, 0 for none. */
  method PlanSubnet(required: int, prompted: int, growthPercent: int, round: Rounding, parent: Prefix,
                    existing: Existing)
    returns (r: Outcome)
    requires parent.addr.is4
    ensures r == NoSize <==> required <= 0 && prompted <= 0
    ensures var target := TargetUsable(if required <= 0 then prompted else required, growthPercent, round);
            r != NoSize ==>
              && (r == NoSuchSize <==> target <= 0 || target > 0x7FFF_FFFE)
              && (r == ParentTooSmall <==>
                    && 0 < target <= 0x7FFF_FFFE
                    && forall b: nat {:trigger Tens(b)} :: 1 <= b <= 30 && parent.bits <= b ==>
                         UsableHosts(Tens(b)) < target)
              && (r.NoFreeBlock? ==> RightSize(r.bits, target) && NoneBelow(parent, r.bits, existing, U32_LIMIT))
              && (r.Planned? ==> && r.block.addr.is4 && RightSize(r.block.bits, target)
                                 && BlockIn(parent, r.block.bits, r.block) && Clear(r.block, existing)
                                 && NoneBelow(parent, r.block.bits, existing, First(r.block))
                                 && r.plan == DefaultPlanAddresses(r.block))
  {
    var wanted := if required <= 0 then prompted else required;
    if wanted <= 0 {
      return NoSize;
    }
    r := PlanFor(TargetUsable(wanted, growthPercent, round), parent, existing);
  }

  /** The part of planSubnet after the sizes are known. */
  method PlanFor(targetUsable: int, parent: Prefix, existing: Existing) returns (r: Outcome)
    requires parent.addr.is4
    ensures r != NoSize && (r == NoSuchSize <==> targetUsable <= 0 || targetUsable > 0x7FFF_FFFE)
    ensures r == ParentTooSmall <==>
              && 0 < targetUsable <= 0x7FFF_FFFE
              && forall b: nat {:trigger Tens(b)} :: 1 <= b <= 30 && parent.bits <= b ==>
                   UsableHosts(Tens(b)) < targetUsable
    ensures r.NoFreeBlock? ==> RightSize(r.bits, targetUsable) && NoneBelow(parent, r.bits, existing, U32_LIMIT)
    ensures r.Planned? ==> && r.block.addr.is4 && RightSize(r.block.bits, targetUsable)
                           && BlockIn(parent, r.block.bits, r.block) && Clear(r.block, existing)
                           && NoneBelow(parent, r.block.bits, existing, First(r.block))
                           && r.plan == DefaultPlanAddresses(r.block)
  {
    var bits := SmallestIPv4Prefix(targetUsable);
    if bits < 0 {
      return NoSuchSize;
    }
    if bits < parent.bits {
      return ParentTooSmall;
    }
    assert UsableHosts(Tens(bits)) >= targetUsable;
    var suggested := FindCandidatePrefix(Masked(parent), bits, existing);
    MaskedBlocks(parent, bits);
    match suggested
    case None => return NoFreeBlock(bits);
    case Some(block) =>
      BlockInside(Masked(parent), bits, block);
      return Planned(block, DefaultPlanAddresses(block));
  }

  lemma MaskedBlocks(parent: Prefix, bits: nat)
    ensures forall c: Prefix {:trigger BlockIn(parent, bits, c)} {:trigger BlockIn(Masked(parent), bits, c)} ::
              BlockIn(Masked(parent), bits, c) <==> BlockIn(parent, bits, c)
  {
    MaskedSame(parent);
  }
}
