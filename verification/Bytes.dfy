/** Byte strings, the order bytes.Compare gives them, and the big-endian
    integers the log, the snapshot file and the DHCP packets are made of. The
    keys that extend a prefix form one stretch of that order, which is what the
    prefix scans of the lease store rest on. */
module Bytes {
  type byte = n: int | 0 <= n < 0x100
  type bytes = seq<byte>

  type uint32 = n: int | 0 <= n < 0x1_0000_0000

  const U16_LIMIT: int := 0x1_0000
  const U32_LIMIT: int := 0x1_0000_0000

  // ---------- big-endian integers ----------

  function BigEndian(n: nat, width: nat): (b: bytes)
    ensures |b| == width
  {
    if width == 0 then [] else BigEndian(n / 0x100, width - 1) + [n % 0x100]
  }

  function BigEndianValue(b: bytes): nat
  {
    if b == [] then 0 else BigEndianValue(b[..|b| - 1]) * 0x100 + b[|b| - 1] as int
  }

  function Power256(width: nat): (p: nat)
    ensures p > 0
  {
    if width == 0 then 1 else 0x100 * Power256(width - 1)
  }

  /** Reading back what was written. */
  lemma {:induction false} BigEndianRoundTrip(n: nat, width: nat)
    requires n < Power256(width)
    ensures BigEndianValue(BigEndian(n, width)) == n
  {
    if width > 0 {
      BigEndianRoundTrip(n / 0x100, width - 1);
      var b := BigEndian(n, width);
      assert b[..|b| - 1] == BigEndian(n / 0x100, width - 1);
    }
  }

  /** Writing what was read gives the bytes that were read. */
  lemma {:induction false} BigEndianReverse(b: bytes)
    ensures BigEndianValue(b) < Power256(|b|)
    ensures BigEndian(BigEndianValue(b), |b|) == b
  {
    if b != [] {
      var front, last := b[..|b| - 1], b[|b| - 1];
      BigEndianReverse(front);
      assert b == front + [last];
    }
  }

  lemma Powers()
    ensures Power256(2) == U16_LIMIT && Power256(4) == U32_LIMIT
  {
    assert Power256(1) == 0x100 * Power256(0);
    assert Power256(3) == 0x100 * Power256(2);
  }

  function U16(n: nat): (b: bytes)
    requires n < U16_LIMIT
    ensures |b| == 2
  {
    BigEndian(n, 2)
  }

  function U32(n: nat): (b: bytes)
    requires n < U32_LIMIT
    ensures |b| == 4
  {
    BigEndian(n, 4)
  }

  function GetU16(b: bytes): (n: nat)
    requires |b| >= 2
    ensures n < U16_LIMIT
  {
    Powers();
    BigEndianReverse(b[..2]);
    BigEndianValue(b[..2])
  }

  function GetU32(b: bytes): (n: nat)
    requires |b| >= 4
    ensures n < U32_LIMIT
  {
    Powers();
    BigEndianReverse(b[..4]);
    BigEndianValue(b[..4])
  }

  /** Reading back what was written, whatever follows it. */
  lemma U16RoundTrip(n: nat, rest: bytes)
    requires n < U16_LIMIT
    ensures GetU16(U16(n) + rest) == n
  {
    Powers();
    BigEndianRoundTrip(n, 2);
    assert (U16(n) + rest)[..2] == U16(n);
  }

  lemma U32RoundTrip(n: nat, rest: bytes)
    requires n < U32_LIMIT
    ensures GetU32(U32(n) + rest) == n
  {
    Powers();
    BigEndianRoundTrip(n, 4);
    assert (U32(n) + rest)[..4] == U32(n);
  }

  /** Writing what was read gives the bytes that were read. */
  lemma U16Reverse(b: bytes)
    requires |b| >= 2
    ensures U16(GetU16(b)) == b[..2]
  {
    BigEndianReverse(b[..2]);
  }

  lemma U32Reverse(b: bytes)
    requires |b| >= 4
    ensures U32(GetU32(b)) == b[..4]
  {
    BigEndianReverse(b[..4]);
  }

  // ---------- byte order ----------

  /** bytes.Compare(a, b) <= 0, once the first i bytes are known to agree. */
  predicate LeFrom(a: bytes, b: bytes, i: nat)
    requires i <= |a| && i <= |b|
    decreases |a| - i
  {
    i == |a| || (i < |b| && (a[i] < b[i] || (a[i] == b[i] && LeFrom(a, b, i + 1))))
  }

  /** bytes.Compare(a, b) <= 0. */
  predicate Le(a: bytes, b: bytes)
  {
    LeFrom(a, b, 0)
  }

  /** bytes.Compare(a, b) < 0. */
  predicate Lt(a: bytes, b: bytes)
  {
    a != b && Le(a, b)
  }

  lemma {:induction false} TotalFrom(a: bytes, b: bytes, i: nat)
    requires i <= |a| && i <= |b|
    ensures LeFrom(a, b, i) || LeFrom(b, a, i)
    decreases |a| - i
  {
    if i < |a| && i < |b| && a[i] == b[i] {
      TotalFrom(a, b, i + 1);
    }
  }

  lemma {:induction false} TransitiveFrom(a: bytes, b: bytes, c: bytes, i: nat)
    requires i <= |a| && i <= |b| && i <= |c|
    requires LeFrom(a, b, i) && LeFrom(b, c, i)
    ensures LeFrom(a, c, i)
    decreases |a| - i
  {
    if i < |a| && a[i] == b[i] && b[i] == c[i] {
      TransitiveFrom(a, b, c, i + 1);
    }
  }

  lemma {:induction false} AntisymmetricFrom(a: bytes, b: bytes, i: nat)
    requires i <= |a| && i <= |b| && a[..i] == b[..i]
    requires LeFrom(a, b, i) && LeFrom(b, a, i)
    ensures a == b
    decreases |a| - i
  {
    if i < |a| {
      assert a[..i + 1] == a[..i] + [a[i]] && b[..i + 1] == b[..i] + [b[i]];
      AntisymmetricFrom(a, b, i + 1);
    } else {
      assert a == a[..i] && b == b[..i];
    }
  }

  lemma LeTotal(a: bytes, b: bytes)
    ensures Le(a, b) || Le(b, a)
  {
    TotalFrom(a, b, 0);
  }

  lemma LeTransitive(a: bytes, b: bytes, c: bytes)
    requires Le(a, b) && Le(b, c)
    ensures Le(a, c)
  {
    TransitiveFrom(a, b, c, 0);
  }

  lemma LeAntisymmetric(a: bytes, b: bytes)
    requires Le(a, b) && Le(b, a)
    ensures a == b
  {
    AntisymmetricFrom(a, b, 0);
  }

  /** Strictness survives a non-strict step on either side. */
  lemma LtLe(a: bytes, b: bytes, c: bytes)
    requires (Lt(a, b) && Le(b, c)) || (Le(a, b) && Lt(b, c))
    ensures Lt(a, c)
  {
    LeTransitive(a, b, c);
    if a == c {
      LeAntisymmetric(a, b);
    }
  }

  lemma LtOrGe(a: bytes, b: bytes)
    ensures Lt(a, b) <==> !Le(b, a)
  {
    LeTotal(a, b);
    LeTotal(a, a);
    if Lt(a, b) && Le(b, a) {
      LeAntisymmetric(a, b);
    }
  }

  /** Bytes that agree can be skipped. */
  lemma {:induction false} SkipCommon(a: bytes, b: bytes, i: nat, n: nat)
    requires i <= n <= |a| && n <= |b| && a[..n] == b[..n]
    ensures LeFrom(a, b, i) <==> LeFrom(a, b, n)
    decreases n - i
  {
    if i < n {
      assert a[i] == a[..n][i] == b[..n][i] == b[i];
      SkipCommon(a, b, i + 1, n);
    }
  }

  /** A prefix comes before every extension of it. */
  lemma PrefixLe(p: bytes, k: bytes)
    requires p <= k
    ensures Le(p, k)
  {
    assert p == p[..|p|] == k[..|p|];
    SkipCommon(p, k, 0, |p|);
  }

  lemma {:induction false} ConvexFrom(p: bytes, a: bytes, b: bytes, c: bytes, i: nat)
    requires p <= a && p <= c && i <= |p| && i <= |b| && p[..i] == b[..i]
    requires LeFrom(a, b, i) && LeFrom(b, c, i)
    ensures p <= b
    decreases |p| - i
  {
    if i < |p| {
      assert a[i] == p[i] == c[i];
      assert p[..i + 1] == p[..i] + [p[i]] && b[..i + 1] == b[..i] + [b[i]];
      ConvexFrom(p, a, b, c, i + 1);
    }
  }

  /** The keys that extend a prefix are contiguous: nothing between two of
      them lacks the prefix. */
  lemma PrefixConvex(p: bytes, a: bytes, b: bytes, c: bytes)
    requires p <= a && p <= c && Le(a, b) && Le(b, c)
    ensures p <= b
  {
    ConvexFrom(p, a, b, c, 0);
  }
}
