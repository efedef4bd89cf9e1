/** internal/ipam/cidr.go, and the parts of net/netip it rests on: addresses of
    both families as numbers, prefixes as the blocks they name. */
module Cidr {
  import opened Bytes
  import opened Wrappers

  function Pow2(n: nat): (p: nat)
    ensures p > 0
  {
    if n == 0 then 1 else 2 * Pow2(n - 1)
  }

  lemma {:induction false} Pow2Grows(m: nat, n: nat)
    requires m <= n
    ensures Pow2(m) <= Pow2(n)
    ensures m < n ==> 2 * Pow2(m) <= Pow2(n)
  {
    if m < n {
      Pow2Grows(m, n - 1);
    }
  }

  lemma Pow2Plus8(n: nat)
    ensures Pow2(n + 8) == 0x100 * Pow2(n)
  {
    assert Pow2(n + 4) == 2 * Pow2(n + 3) == 4 * Pow2(n + 2) == 8 * Pow2(n + 1) == 16 * Pow2(n);
    assert Pow2(n + 8) == 2 * Pow2(n + 7) == 4 * Pow2(n + 6) == 8 * Pow2(n + 5) == 16 * Pow2(n + 4);
  }

  lemma Pow2Of32()
    ensures Pow2(32) == U32_LIMIT && Pow2(64) == U32_LIMIT * U32_LIMIT
  {
    Pow2Plus8(0);
    Pow2Plus8(8);
    Pow2Plus8(16);
    Pow2Plus8(24);
    Pow2Plus8(32);
    Pow2Plus8(40);
    Pow2Plus8(48);
    Pow2Plus8(56);
  }

  // ---------- blocks ----------

  /** x >> h. */
  function Shift(x: nat, h: nat): nat
  {
    if h == 0 then x else Shift(x / 2, h - 1)
  }

  /** x with its last h bits cleared. */
  function Start(x: nat, h: nat): nat
  {
    if h == 0 then x else 2 * Start(x / 2, h - 1)
  }

  predicate Aligned(x: nat, h: nat)
  {
    Start(x, h) == x
  }

  /** The numbers that agree with v in all but the last h bits are a block of 2^h. */
  lemma {:induction false} SameBlock(x: nat, v: nat, h: nat)
    ensures Shift(x, h) == Shift(v, h) <==> Start(v, h) <= x < Start(v, h) + Pow2(h)
  {
    if h > 0 {
      SameBlock(x / 2, v / 2, h - 1);
    }
  }

  lemma {:induction false} StartBelow(x: nat, h: nat)
    ensures Start(x, h) <= x < Start(x, h) + Pow2(h) && Aligned(Start(x, h), h)
  {
    if h > 0 {
      StartBelow(x / 2, h - 1);
    }
  }

  /** Blocks nest: the smaller of two that hold x lies inside the larger. */
  lemma {:induction false} StartNests(x: nat, h: nat, g: nat)
    requires h <= g
    ensures Start(x, g) <= Start(x, h) && Start(x, h) + Pow2(h) <= Start(x, g) + Pow2(g)
  {
    if h > 0 {
      StartNests(x / 2, h - 1, g - 1);
    } else {
      StartBelow(x, g);
    }
  }

  /** Numbers of one block start it together. */
  lemma {:induction false} SameStart(x: nat, v: nat, h: nat)
    requires Start(v, h) <= x < Start(v, h) + Pow2(h)
    ensures Start(x, h) == Start(v, h)
  {
    if h > 0 {
      SameStart(x / 2, v / 2, h - 1);
    }
  }

  lemma {:induction false} StartFits(x: nat, h: nat, w: nat)
    requires h <= w && x < Pow2(w)
    ensures Start(x, h) + Pow2(h) <= Pow2(w)
  {
    if h > 0 {
      StartFits(x / 2, h - 1, w - 1);
    }
  }

  lemma {:induction false} AlignedFiner(x: nat, g: nat, h: nat)
    requires h <= g && Aligned(x, g)
    ensures Aligned(x, h)
  {
    if h > 0 {
      AlignedFiner(x / 2, g - 1, h - 1);
    }
  }

  lemma {:induction false} AlignedNext(x: nat, h: nat)
    requires Aligned(x, h)
    ensures Aligned(x + Pow2(h), h)
  {
    if h > 0 {
      assert (x + Pow2(h)) / 2 == x / 2 + Pow2(h - 1);
      AlignedNext(x / 2, h - 1);
    }
  }

  // ---------- addresses and prefixes ----------

  datatype Address = Address(is4: bool, value: nat)

  function Width(is4: bool): nat
  {
    if is4 then 32 else 128
  }

  type Addr = a: Address | a.value < Pow2(Width(a.is4)) witness Address(true, 0)

  datatype Cidr = Cidr(addr: Addr, bits: nat)

  type Prefix = p: Cidr | p.bits <= Width(p.addr.is4) witness Cidr(Address(true, 0), 0)

  function V4(u: uint32): (a: Addr)
    ensures a.is4 && a.value == u
  {
    Pow2Of32();
    Address(true, u)
  }

  /** The number of bits outside the prefix. */
  function HostBits(p: Prefix): nat
  {
    Width(p.addr.is4) - p.bits
  }

  function Size(p: Prefix): (n: nat)
    ensures n > 0
  {
    Pow2(HostBits(p))
  }

  /** The lowest and the highest address of a block. */
  function First(p: Prefix): nat
  {
    Start(p.addr.value, HostBits(p))
  }

  function Last(p: Prefix): nat
  {
    First(p) + Size(p) - 1
  }

  /** The block as a set of addresses. */
  predicate In(p: Prefix, a: Addr)
  {
    a.is4 == p.addr.is4 && First(p) <= a.value <= Last(p)
  }

  /** netip.Prefix.Masked. */
  function Masked(p: Prefix): (m: Prefix)
    ensures m.bits == p.bits && m.addr.is4 == p.addr.is4 && m.addr.value == First(p)
  {
    StartBelow(p.addr.value, HostBits(p));
    Cidr(Address(p.addr.is4, First(p)), p.bits)
  }

  /** netip.Prefix.Contains: the addresses agree in the bits of the prefix. */
  predicate PrefixContains(p: Prefix, a: Addr)
  {
    a.is4 == p.addr.is4 && Shift(a.value, HostBits(p)) == Shift(p.addr.value, HostBits(p))
  }

  lemma ContainsIffIn(p: Prefix, a: Addr)
    ensures PrefixContains(p, a) <==> In(p, a)
  {
    SameBlock(a.value, p.addr.value, HostBits(p));
  }

  lemma MaskedSame(p: Prefix)
    ensures First(Masked(p)) == First(p) && Last(Masked(p)) == Last(p) && Masked(Masked(p)) == Masked(p)
    ensures First(p) <= p.addr.value <= Last(p) && In(p, Masked(p).addr)
  {
    StartBelow(p.addr.value, HostBits(p));
  }

  // ---------- cidr.go ----------

  predicate Overlaps(a: Prefix, b: Prefix)
  {
    PrefixContains(Masked(a), Masked(b).addr) || PrefixContains(Masked(b), Masked(a).addr)
  }

  predicate Contains(parent: Prefix, child: Prefix)
  {
    parent.bits <= child.bits && PrefixContains(Masked(parent), Masked(child).addr)
  }

  /** A common address puts the longer prefix inside the shorter. */
  lemma Nested(a: Prefix, b: Prefix, x: Addr)
    requires In(a, x) && In(b, x) && a.bits <= b.bits
    ensures First(a) <= First(b) && Last(b) <= Last(a)
  {
    SameStart(x.value, a.addr.value, HostBits(a));
    SameStart(x.value, b.addr.value, HostBits(b));
    StartNests(x.value, HostBits(b), HostBits(a));
  }

  /** Overlaps holds exactly when the blocks share an address. */
  lemma OverlapsExact(a: Prefix, b: Prefix)
    ensures Overlaps(a, b) <==> exists x: Addr :: In(a, x) && In(b, x)
  {
    MaskedSame(a);
    MaskedSame(b);
    ContainsIffIn(Masked(a), Masked(b).addr);
    ContainsIffIn(Masked(b), Masked(a).addr);
    if Overlaps(a, b) {
      var x := if PrefixContains(Masked(a), Masked(b).addr) then Masked(b).addr else Masked(a).addr;
      assert In(a, x) && In(b, x);
    }
    if x: Addr :| In(a, x) && In(b, x) {
      if a.bits <= b.bits {
        Nested(a, b, x);
      } else {
        Nested(b, a, x);
      }
    }
  }

  /** Two blocks of one family share an address exactly when their intervals meet. */
  lemma OverlapsInterval(a: Prefix, b: Prefix)
    ensures Overlaps(a, b) <==> a.addr.is4 == b.addr.is4 && First(a) <= Last(b) && First(b) <= Last(a)
  {
    OverlapsExact(a, b);
    MaskedSame(a);
    MaskedSame(b);
    if a.addr.is4 == b.addr.is4 && First(a) <= Last(b) && First(b) <= Last(a) {
      var x := if First(a) <= First(b) then Masked(b).addr else Masked(a).addr;
      assert In(a, x) && In(b, x);
    }
  }

  /** Contains holds exactly when every address of the child is in the parent. */
  lemma ContainsExact(parent: Prefix, child: Prefix)
    ensures Contains(parent, child) <==> forall x: Addr :: In(child, x) ==> In(parent, x)
  {
    MaskedSame(parent);
    MaskedSame(child);
    var first := Masked(child).addr;
    ContainsIffIn(Masked(parent), first);
    if Contains(parent, child) {
      Nested(parent, child, first);
    } else if parent.bits > child.bits && In(parent, first) {
      Nested(child, parent, first);
      Pow2Grows(HostBits(parent), HostBits(child));
      LastFits(child);
      var last: Addr := Address(child.addr.is4, Last(child));
      assert In(child, last);
    }
  }

  /** The last address of a block is an address of the family. */
  lemma LastFits(p: Prefix)
    ensures Last(p) < Pow2(Width(p.addr.is4))
  {
    StartFits(p.addr.value, HostBits(p), Width(p.addr.is4));
  }

  const MAX_UINT64: nat := 0xFFFF_FFFF_FFFF_FFFF

  function AddressCount(p: Prefix): nat
  {
    var bits := HostBits(p);
    if bits >= 64 then MAX_UINT64 else Pow2(bits)
  }

  /** The number of addresses in the block, as far as 64 bits can tell. */
  lemma AddressCountExact(p: Prefix)
    ensures AddressCount(p) == if Last(p) - First(p) + 1 > MAX_UINT64 then MAX_UINT64 else Last(p) - First(p) + 1
    ensures p.addr.is4 ==> AddressCount(p) == Size(p) <= U32_LIMIT
  {
    Pow2Of32();
    var bits := HostBits(p);
    if bits >= 64 {
      Pow2Grows(64, bits);
    } else {
      Pow2Grows(bits, 64);
    }
    if p.addr.is4 {
      Pow2Grows(bits, 32);
    }
  }

  function NthAddress(p: Prefix, n: nat): Option<uint32>
  {
    if !p.addr.is4 then None
    else
      var value := Masked(p).addr.value + n;
      if n >= AddressCount(p) then None
      else if value > 0xFFFF_FFFF then None
      else Some(value)
  }

  /** It counts through exactly the addresses of an IPv4 block. */
  lemma NthAddressExact(p: Prefix, n: nat)
    requires p.addr.is4
    ensures NthAddress(p, n) == if n < Size(p) then Some(First(p) + n) else None
  {
    Pow2Of32();
    AddressCountExact(p);
    LastFits(p);
  }

  lemma NthAddressOnto(p: Prefix, u: uint32)
    requires p.addr.is4
    ensures In(p, V4(u)) <==> exists k: nat {:trigger NthAddress(p, k)} :: NthAddress(p, k) == Some(u)
  {
    if In(p, V4(u)) {
      NthAddressExact(p, u - First(p));
    }
    if k: nat :| NthAddress(p, k) == Some(u) {
      NthAddressExact(p, k);
    }
  }
}
