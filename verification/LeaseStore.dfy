/** internal/lease/store.go: runs of the store, and what its queries return. */
module LeaseStore {
  import opened Bytes
  import opened Wrappers
  import opened BTree
  import opened LastWriter
  import opened GoText
  import opened Leases
  import opened Storage
  import opened LeaseIndex

  // ---------- runs ----------

  datatype StoreOp = Upsert(lease: Lease, now: Time, silent: bool) | Delete(ip: text, silent: bool)

  function StoreStep(c: Codec, s: State, op: StoreOp): State
  {
    match op
    case Upsert(lease, now, silent) => UpsertState(c, s, lease, now, silent)
    case Delete(ip, silent) => DeleteState(c, s, ip, silent)
  }

  function StoreRun(c: Codec, s: State, ops: seq<StoreOp>): State
  {
    if ops == [] then s else StoreStep(c, StoreRun(c, s, ops[..|ops| - 1]), ops[|ops| - 1])
  }

  /** An address without the separator, and a lease whose index keys the log
      accepts (or which the log refuses altogether). */
  predicate Acceptable(c: Codec, op: StoreOp)
  {
    match op
    case Delete(_, _) => true
    case Upsert(lease, now, _) =>
      var l := NormalizeDefaults(lease, now, 12 * HOUR);
      SEP !in lease.ip && (FitsIndexes(l) || !Loggable(Write((LEASES, l.ip), Some(c.encode(l)))))
  }

  lemma StoreStepSized(c: Codec, s: State, op: StoreOp)
    requires Sized(s.trees) && !s.closed
    ensures Sized(StoreStep(c, s, op).trees) && !StoreStep(c, s, op).closed
  {
    match op
    case Upsert(lease, now, silent) =>
      var l := NormalizeDefaults(lease, now, 12 * HOUR);
      StepAllSized(s, UpsertWrites(c, l, OldLease(c, s.trees, l.ip)));
      StepAllClosed(s, UpsertWrites(c, l, OldLease(c, s.trees, l.ip)));
    case Delete(ip, silent) =>
      if OldLease(c, s.trees, ip).Some? {
        StepAllSized(s, DeleteWrites(ip, OldLease(c, s.trees, ip).value));
        StepAllClosed(s, DeleteWrites(ip, OldLease(c, s.trees, ip).value));
      }
  }

  lemma {:induction false} StepAllClosed(s: State, ms: seq<Mutation>)
    ensures StepAll(s, ms).closed == s.closed
    decreases |ms|
  {
    if ms != [] && Loggable(ms[0]) {
      StepAllClosed(StepState(s, ms[0]), ms[1..]);
    }
  }

  /** Index exactness: after any run of upserts and deletes the four secondary
      indexes hold exactly the keys derived from the primary table. */
  lemma {:induction false} RunKeepsIndexesExact(c: Codec, ops: seq<StoreOp>)
    requires Faithful(c) && forall i :: 0 <= i < |ops| ==> Acceptable(c, ops[i])
    ensures var s := StoreRun(c, EMPTY, ops);
            Exact(c, s.trees) && Sized(s.trees) && !s.closed
    decreases |ops|
  {
    if ops == [] {
      assert forall t :: TreeOf(EMPTY.trees, t) == map[];
    } else {
      var n := |ops| - 1;
      RunKeepsIndexesExact(c, ops[..n]);
      var s := StoreRun(c, EMPTY, ops[..n]);
      StoreStepSized(c, s, ops[n]);
      match ops[n]
      case Upsert(lease, now, silent) =>
        if TrimSpace(lease.ip) != [] { UpsertExactness(c, s, lease, now, silent); }
      case Delete(ip, silent) => DeleteKeepsExact(c, s, ip, silent);
    }
  }

  // ---------- queries ----------

  /** The keys of a tree that extend a prefix, in order. */
  ghost function PrefixKeys(m: Contents, p: bytes): seq<bytes>
  {
    SortedKeys(set k | k in m && p <= k)
  }

  /** The rows the callback of a prefix scan keeps. */
  function Kept(rows: seq<Row>, p: bytes): seq<Row>
  {
    if rows == [] || !(p <= rows[0].0) then [] else [rows[0]] + Kept(rows[1..], p)
  }

  lemma {:induction false} KeptVisited(rows: seq<Row>, p: bytes, more: Row -> bool)
    requires forall r :: more(r) <==> p <= r.0
    ensures Kept(Visited(rows, more), p) == Kept(rows, p)
  {
    if rows != [] && more(rows[0]) {
      KeptVisited(rows[1..], p, more);
      assert Visited(rows, more)[1..] == Visited(rows[1..], more);
    }
  }

  lemma {:induction false} KeptSorted(ks: seq<bytes>, m: Contents, p: bytes, n: nat)
    requires forall k :: k in ks ==> k in m
    requires n <= |ks|
    requires forall i :: 0 <= i < n ==> p <= ks[i]
    requires n < |ks| ==> !(p <= ks[n])
    ensures forall k :: k in ks[..n] ==> k in m
    ensures Kept(RowsAt(ks, m), p) == RowsAt(ks[..n], m)
    decreases n
  {
    if n > 0 {
      assert RowsAt(ks, m)[1..] == RowsAt(ks[1..], m);
      KeptSorted(ks[1..], m, p, n - 1);
      assert ks[..n] == [ks[0]] + ks[1..][..n - 1];
      assert RowsAt(ks[..n], m) == [(ks[0], m[ks[0]])] + RowsAt(ks[1..][..n - 1], m);
    }
  }

  /** Scanning from a prefix until a key lacks it visits exactly the keys that
      extend it: they are one stretch of the key order. */
  lemma PrefixScan(m: Contents, p: bytes, more: Row -> bool)
    requires p != [] && forall r :: more(r) <==> p <= r.0
    ensures Kept(Visited(Scan(m, p, []), more), p) == RowsAt(PrefixKeys(m, p), m)
  {
    var ks := KeysInRange(m, p, []);
    KeptVisited(Scan(m, p, []), p, more);
    var n := FirstWithout(ks, p);
    KeptSorted(ks, m, p, n);
    forall k ensures k in ks[..n] <==> k in (set j | j in m && p <= j) {
      if k in m && p <= k {
        PrefixLe(p, k);
        assert k in ks;
        var i :| 0 <= i < |ks| && ks[i] == k;
        if i >= n {
          assert p <= p;
          if i > n { assert Lt(ks[n], ks[i]); }
          LeTotal(ks[n], ks[n]);
          assert ks[n] in ks;
          PrefixConvex(p, p, ks[n], ks[i]);
        }
      }
    }
    SortedUnique(ks[..n], set j | j in m && p <= j);
  }

  lemma FirstWithout(ks: seq<bytes>, p: bytes) returns (n: nat)
    ensures n <= |ks| && forall i :: 0 <= i < n ==> p <= ks[i]
    ensures n < |ks| ==> !(p <= ks[n])
  {
    n := 0;
    while n < |ks| && p <= ks[n]
      invariant n <= |ks| && forall i :: 0 <= i < n ==> p <= ks[i]
    {
      n := n + 1;
    }
  }

  /** fetchByIPs: missing leases are skipped, an unreadable one is an error. */
  function FetchAll(c: Codec, table: Contents, ips: seq<text>): Option<seq<Lease>>
  {
    if ips == [] then Some([]) else
      match FetchAll(c, table, ips[1..])
      case None => None
      case Some(later) =>
        if ips[0] !in table then Some(later)
        else match StoredLease(c, table, ips[0])
             case None => None
             case Some(l) => Some([l] + later)
  }

  function Ips(rows: seq<Row>): (ips: seq<text>)
    ensures |ips| == |rows|
  {
    seq(|rows|, i requires 0 <= i < |rows| => rows[i].1)
  }

  /** GetByMAC, GetByClientID and ListBySubnet. */
  ghost function FetchByField(c: Codec, s: State, kind: Kind, x: text): Option<seq<Lease>>
  {
    var index := TreeOf(s.trees, Name(kind));
    FetchAll(c, TreeOf(s.trees, LEASES), Ips(RowsAt(PrefixKeys(index, x + [SEP]), index)))
  }

  ghost function FetchExpiring(c: Codec, s: State, t: Time): Option<seq<Lease>>
  {
    FetchAll(c, TreeOf(s.trees, LEASES), Ips(Scan(TreeOf(s.trees, Name(ByExpiry)), [], Padded20(Unix(t)))))
  }

  /** The index finds a lease under x: its field is x, or continues it with a
      separator. */
  predicate Found(kind: Kind, l: Lease, x: text)
  {
    match Field(kind, l)
    case None => false
    case Some(f) => f == x || x + [SEP] <= f
  }

  /** The answer to a query: every stored lease with a property once, and
      nothing else. */
  ghost predicate Answers(c: Codec, table: Contents, ls: seq<Lease>, wanted: Lease -> bool)
  {
    && (forall i, j :: 0 <= i < j < |ls| ==> ls[i].ip != ls[j].ip)
    && (forall l :: l in ls <==> StoredLease(c, table, l.ip) == Some(l) && wanted(l))
  }

  /** Index rows name distinct stored leases; fetching them gives those leases. */
  lemma {:induction false} FetchRows(c: Codec, table: Contents, kind: Kind, index: Contents, ks: seq<bytes>)
    requires TableOk(c, table) && IndexExact(c, table, kind, index)
    requires StrictlySorted(ks) && forall k :: k in ks ==> k in index
    ensures FetchAll(c, table, Ips(RowsAt(ks, index))).Some?
    ensures var ls := FetchAll(c, table, Ips(RowsAt(ks, index))).value;
            && |ls| == |ks|
            && forall i :: 0 <= i < |ls| ==> StoredLease(c, table, ls[i].ip) == Some(ls[i])
                                             && IndexKey(kind, ls[i]) == Some(ks[i])
  {
    if ks != [] {
      FetchRows(c, table, kind, index, ks[1..]);
      var rows := RowsAt(ks, index);
      assert Ips(rows)[1..] == Ips(RowsAt(ks[1..], index));
      var k := ks[0];
      assert k in ks;
      assert Lookup(index, k) == Expected(c, table, kind, k);
    }
  }

  lemma AnswersRows(c: Codec, table: Contents, kind: Kind, index: Contents, ks: seq<bytes>, wanted: Lease -> bool)
    requires TableOk(c, table) && IndexExact(c, table, kind, index)
    requires StrictlySorted(ks) && forall k :: k in ks ==> k in index
    requires forall l: Lease {:trigger wanted(l)} :: StoredLease(c, table, l.ip) == Some(l) ==>
               (wanted(l) <==> IndexKey(kind, l).Some? && IndexKey(kind, l).value in ks)
    ensures FetchAll(c, table, Ips(RowsAt(ks, index))).Some?
    ensures Answers(c, table, FetchAll(c, table, Ips(RowsAt(ks, index))).value, wanted)
  {
    FetchRows(c, table, kind, index, ks);
    var ls := FetchAll(c, table, Ips(RowsAt(ks, index))).value;
    forall i, j | 0 <= i < j < |ls| ensures ls[i].ip != ls[j].ip {
      assert Lt(ks[i], ks[j]);
    }
    forall l ensures l in ls <==> StoredLease(c, table, l.ip) == Some(l) && wanted(l) {
      if l in ls {
        var i :| 0 <= i < |ls| && ls[i] == l;
        assert ks[i] in ks;
        assert wanted(l) || !wanted(l);
      } else if StoredLease(c, table, l.ip) == Some(l) && wanted(l) {
        var k := IndexKey(kind, l).value;
        var i :| 0 <= i < |ks| && ks[i] == k;
        KeyLeadsBack(kind, Some(l), l.ip);
        KeyLeadsBack(kind, Some(ls[i]), ls[i].ip);
      }
    }
  }

  lemma SameWanted(c: Codec, table: Contents, ls: seq<Lease>, one: Lease -> bool, other: Lease -> bool)
    requires Answers(c, table, ls, one)
    requires forall l: Lease {:trigger one(l)} {:trigger other(l)} ::
               StoredLease(c, table, l.ip) == Some(l) ==> (one(l) <==> other(l))
    ensures Answers(c, table, ls, other)
  {
    forall l ensures l in ls <==> StoredLease(c, table, l.ip) == Some(l) && other(l) {
      assert l in ls <==> StoredLease(c, table, l.ip) == Some(l) && one(l);
    }
  }

  /** A lookup by MAC, client or subnet returns exactly the stored leases with
      that field, together with those whose field continues it with a
      separator. */
  lemma LookupExact(c: Codec, s: State, kind: Kind, x: text)
    requires Exact(c, s.trees)
    ensures FetchByField(c, s, kind, x).Some?
    ensures Answers(c, TreeOf(s.trees, LEASES), FetchByField(c, s, kind, x).value, l => Found(kind, l, x))
  {
    var table, index := TreeOf(s.trees, LEASES), TreeOf(s.trees, Name(kind));
    var p := x + [SEP];
    var ks := PrefixKeys(index, p);
    assert IndexExact(c, table, kind, index);
    forall l: Lease | StoredLease(c, table, l.ip) == Some(l)
      ensures Found(kind, l, x) <==> IndexKey(kind, l).Some? && IndexKey(kind, l).value in ks
    {
      if IndexKey(kind, l).Some? {
        var k := IndexKey(kind, l).value;
        FieldPrefix(x, Field(kind, l).value, l.ip);
        KeyLeadsBack(kind, Some(l), l.ip);
        assert Lookup(index, k) == Expected(c, table, kind, k);
      }
    }
    AnswersRows(c, table, kind, index, ks, l => Found(kind, l, x));
  }

  /** So a lookup is exact if and only if no stored lease has a field that
      continues the one asked for; a field without the separator never does. */
  lemma LookupExactIff(c: Codec, s: State, kind: Kind, x: text)
    requires Exact(c, s.trees)
    ensures FetchByField(c, s, kind, x).Some?
    ensures var table := TreeOf(s.trees, LEASES);
            Answers(c, table, FetchByField(c, s, kind, x).value, l => Field(kind, l) == Some(x))
            <==> (forall l: Lease {:trigger Field(kind, l)} ::
                    StoredLease(c, table, l.ip) == Some(l) && Field(kind, l).Some? ==>
                    !(x + [SEP] <= Field(kind, l).value))
  {
    LookupExact(c, s, kind, x);
    var table := TreeOf(s.trees, LEASES);
    var ls := FetchByField(c, s, kind, x).value;
    if l: Lease :| StoredLease(c, table, l.ip) == Some(l) && Field(kind, l).Some? && x + [SEP] <= Field(kind, l).value {
      assert Found(kind, l, x) && l in ls;
      assert Field(kind, l).value != x;
    } else {
      SameWanted(c, table, ls, l => Found(kind, l, x), l => Field(kind, l) == Some(x));
    }
  }

  // ---------- expiry ----------

  /** Where the key of an expiry second stands against the end of the scan for
      another second. */
  lemma ExpiryKeyOrder(e: int, t: int, ip: text)
    requires -0x8000_0000_0000_0000 <= e < 0x8000_0000_0000_0000
    requires -0x8000_0000_0000_0000 <= t < 0x8000_0000_0000_0000
    ensures (Le(Key(Padded20(e), ip), Padded20(t)) <==> e < t) <==> e >= 0 || t >= 0 || e == t
  {
    if e >= 0 && t >= 0 {
      PositiveKeyOrder(e, t, ip);
    } else if e < 0 && t < 0 {
      NegativeKeyOrder(-e, -t, ip);
    } else {
      MixedKeyOrder(e, t, ip);
    }
  }

  lemma PositiveKeyOrder(e: nat, t: nat, ip: text)
    requires e < 0x8000_0000_0000_0000 && t < 0x8000_0000_0000_0000
    ensures Le(Key(Padded20(e), ip), Padded20(t)) <==> e < t
  {
    Powers10();
    DigitsWidth(e, 20);
    DigitsWidth(t, 20);
    DigitsOrder(e, t, 20);
    KeyIsLonger(Padded20(e), Padded20(t), ip);
  }

  /** After the minus sign the larger number comes later. */
  lemma NegativeKeyOrder(e: int, t: int, ip: text)
    requires 0 < e <= 0x8000_0000_0000_0000 && 0 < t <= 0x8000_0000_0000_0000
    ensures Le(Key(Padded20(-e), ip), Padded20(-t)) <==> e < t
  {
    Powers10();
    DigitsWidth(e, 19);
    DigitsWidth(t, 19);
    DigitsOrder(e, t, 19);
    MinusOrder(e, t);
    KeyIsLonger(Padded20(-e), Padded20(-t), ip);
  }

  /** The minus sign comes before every digit. */
  lemma MixedKeyOrder(e: int, t: int, ip: text)
    requires -0x8000_0000_0000_0000 <= e < 0x8000_0000_0000_0000
    requires -0x8000_0000_0000_0000 <= t < 0x8000_0000_0000_0000
    requires e < 0 <==> t >= 0
    ensures Le(Key(Padded20(e), ip), Padded20(t)) <==> e < t
  {
    Powers10();
    DigitsWidth(if e < 0 then t else e, 20);
  }

  /** Between strings of one length, lengthening the left one makes the
      comparison strict. */
  lemma KeyIsLonger(a: bytes, b: bytes, ip: text)
    requires |a| == |b|
    ensures Le(Key(a, ip), b) <==> Lt(a, b)
  {
    assert Key(a, ip) == a + ([SEP] + ip);
    LongerFrom(a, b, [SEP] + ip, 0);
    assert a[0..] == a && b[0..] == b;
  }

  lemma Powers10()
    ensures Power10(20) > 0x8000_0000_0000_0000 && Power10(19) > 0x8000_0000_0000_0000
  {
    assert Power10(5) == 100000;
    assert Power10(10) == 100000 * Power10(5);
    assert Power10(15) == 100000 * Power10(10);
    assert Power10(19) == 10000 * Power10(15);
  }

  lemma MinusOrder(m: nat, n: nat)
    requires m < Power10(19) && n < Power10(19)
    ensures Le([0x2D] + Digits(m, 19), [0x2D] + Digits(n, 19)) <==> Le(Digits(m, 19), Digits(n, 19))
    ensures [0x2D] + Digits(m, 19) == [0x2D] + Digits(n, 19) <==> Digits(m, 19) == Digits(n, 19)
  {
    var a, b := Digits(m, 19), Digits(n, 19);
    ShiftCompare([0x2D], a, b, 0);
    assert ([0x2D] + a)[1..] == a && ([0x2D] + b)[1..] == b;
  }

  lemma {:induction false} ShiftCompare(p: bytes, a: bytes, b: bytes, i: nat)
    requires i <= |a| && i <= |b|
    ensures LeFrom(p + a, p + b, |p| + i) <==> LeFrom(a, b, i)
    decreases |a| - i
  {
    if i < |a| && i < |b| {
      ShiftCompare(p, a, b, i + 1);
    }
  }

  lemma {:induction false} LongerFrom(a: bytes, b: bytes, tail: bytes, i: nat)
    requires |a| == |b| && tail != [] && i <= |a|
    ensures LeFrom(a + tail, b, i) <==> a[i..] != b[i..] && LeFrom(a, b, i)
    decreases |a| - i
  {
    if i < |a| {
      LongerFrom(a, b, tail, i + 1);
      assert a[i..] == [a[i]] + a[i + 1..] && b[i..] == [b[i]] + b[i + 1..];
    }
  }

  predicate ExpiresBefore(l: Lease, t: Time)
  {
    l.expiryTime != ZERO_TIME && Unix(l.expiryTime) < Unix(t)
  }

  /** time.Time.Unix is a signed 64-bit number. */
  predicate Signed64(n: int)
  {
    -0x8000_0000_0000_0000 <= n < 0x8000_0000_0000_0000
  }

  /** The scan meets the expiry key of a lease. */
  predicate ScanMeets(l: Lease, t: Time)
  {
    l.expiryTime != ZERO_TIME && Le(Key(Padded20(Unix(l.expiryTime)), l.ip), Padded20(Unix(t)))
  }

  /** ListExpiringBefore returns the stored leases whose expiry keys the scan
      meets, each once, whatever their times. */
  lemma ExpiringAnswers(c: Codec, s: State, t: Time)
    requires Exact(c, s.trees)
    ensures FetchExpiring(c, s, t).Some?
    ensures Answers(c, TreeOf(s.trees, LEASES), FetchExpiring(c, s, t).value, l => ScanMeets(l, t))
  {
    var table, index := TreeOf(s.trees, LEASES), TreeOf(s.trees, Name(ByExpiry));
    var end := Padded20(Unix(t));
    var ks := KeysInRange(index, [], end);
    assert IndexExact(c, table, ByExpiry, index);
    forall l: Lease | StoredLease(c, table, l.ip) == Some(l)
      ensures ScanMeets(l, t) <==> IndexKey(ByExpiry, l).Some? && IndexKey(ByExpiry, l).value in ks
    {
      if IndexKey(ByExpiry, l).Some? {
        var k := IndexKey(ByExpiry, l).value;
        KeyLeadsBack(ByExpiry, Some(l), l.ip);
        assert Lookup(index, k) == Expected(c, table, ByExpiry, k);
        assert end != [];
      }
    }
    AnswersRows(c, table, ByExpiry, index, ks, l => ScanMeets(l, t));
  }

  /** So it returns exactly the leases whose expiry second lies strictly before
      the second asked for if and only if that second is from 1970 on, or every
      stored expiry second is from 1970 on or is that second. */
  lemma ExpiringExact(c: Codec, s: State, t: Time)
    requires Exact(c, s.trees) && Signed64(Unix(t))
    requires forall l: Lease {:trigger Unix(l.expiryTime)} ::
               StoredLease(c, TreeOf(s.trees, LEASES), l.ip) == Some(l) ==> Signed64(Unix(l.expiryTime))
    ensures FetchExpiring(c, s, t).Some?
    ensures Answers(c, TreeOf(s.trees, LEASES), FetchExpiring(c, s, t).value, l => ExpiresBefore(l, t))
            <==> Unix(t) >= 0 || forall l: Lease {:trigger Unix(l.expiryTime)} ::
                   StoredLease(c, TreeOf(s.trees, LEASES), l.ip) == Some(l) && l.expiryTime != ZERO_TIME ==>
                     Unix(l.expiryTime) >= 0 || Unix(l.expiryTime) == Unix(t)
  {
    ExpiringAnswers(c, s, t);
    var table, ls := TreeOf(s.trees, LEASES), FetchExpiring(c, s, t).value;
    forall l: Lease | StoredLease(c, table, l.ip) == Some(l)
      ensures (ScanMeets(l, t) <==> ExpiresBefore(l, t))
              <==> l.expiryTime == ZERO_TIME || Unix(t) >= 0 || Unix(l.expiryTime) >= 0 || Unix(l.expiryTime) == Unix(t)
    {
      ExpiryKeyOrder(Unix(l.expiryTime), Unix(t), l.ip);
    }
    if l: Lease :| StoredLease(c, table, l.ip) == Some(l) && !(ScanMeets(l, t) <==> ExpiresBefore(l, t)) {
      assert l in ls <==> ScanMeets(l, t);
      assert Unix(l.expiryTime) < 0;
    } else {
      SameWanted(c, table, ls, l => ScanMeets(l, t), l => ExpiresBefore(l, t));
    }
  }

  // ---------- the store object ----------

  class EngineStore {
    const eng: Engine
    const codec: Codec

    constructor (eng: Engine, codec: Codec)
      ensures this.eng == eng && this.codec == codec
    {
      this.eng := eng;
      this.codec := codec;
    }

    ghost predicate Valid()
      reads eng, eng.wal, eng.repr
    {
      eng.Valid()
    }

    method GetByIP(ip: text) returns (l: Option<Lease>, missing: bool)
      requires Valid()
      ensures missing <==> ip !in TreeOf(eng.view, LEASES)
      ensures l == OldLease(codec, eng.view, ip)
    {
      var raw, found := eng.Get(LEASES, ip);
      FlatLookup(eng.view, LEASES, ip);
      if !found {
        return None, true;
      }
      return codec.decode(raw), false;
    }

    /** Upsert and UpsertSilent: one transaction that puts the lease, takes the
        old index entries out and puts the new ones in. */
    method Upsert(lease: Lease, now: Time, silent: bool) returns (ok: bool)
      requires Valid() && eng.logOpen
      modifies eng`trees, eng`view, eng`repr, eng`sequence, eng.wal, eng.repr
      ensures Valid() && fresh(eng.repr - old(eng.repr))
      ensures eng.Now() == UpsertState(codec, old(eng.Now()), lease, now, silent)
      ensures ok <==> UpsertSucceeds(codec, old(eng.Now()), lease, now)
    {
      if TrimSpace(lease.ip) == [] {
        return false;
      }
      var l := NormalizeDefaults(lease, now, 12 * HOUR);
      ghost var s := eng.Now();
      var gone, missing := GetByIP(l.ip);
      assert gone == OldLease(codec, s.trees, l.ip);
      if !missing && gone == None {
        return false;
      }
      ok := eng.Tx(UpsertWrites(codec, l, gone), true, !silent);
    }

    /** Delete and DeleteSilent: deleting a lease that is not there succeeds. */
    method Delete(ip: text, silent: bool) returns (ok: bool)
      requires Valid() && eng.logOpen
      modifies eng`trees, eng`view, eng`repr, eng`sequence, eng.wal, eng.repr
      ensures Valid() && fresh(eng.repr - old(eng.repr))
      ensures eng.Now() == DeleteState(codec, old(eng.Now()), ip, silent)
      ensures ok <==> DeleteSucceeds(codec, old(eng.Now()), ip)
    {
      var gone, missing := GetByIP(ip);
      if missing {
        return true;
      }
      if gone == None {
        return false;
      }
      ok := eng.Tx(DeleteWrites(ip, gone.value), true, !silent);
    }

    method FetchByIPs(ips: seq<text>) returns (out: Option<seq<Lease>>)
      requires Valid()
      ensures out == FetchAll(codec, TreeOf(eng.view, LEASES), ips)
    {
      var ls: seq<Lease> := [];
      ghost var table := TreeOf(eng.view, LEASES);
      assert ips[0..] == ips;
      PrefixedEnds([], FetchAll(codec, table, ips));
      for i := 0 to |ips|
        invariant FetchAll(codec, table, ips) == Prefixed(ls, FetchAll(codec, table, ips[i..]))
      {
        assert ips[i..][0] == ips[i] && ips[i..][1..] == ips[i + 1..];
        var l, missing := GetByIP(ips[i]);
        PrefixedOne(ls, l, FetchAll(codec, table, ips[i + 1..]));
        if missing {
          continue;
        }
        if l == None {
          return None;
        }
        ls := ls + [l.value];
      }
      PrefixedEnds(ls, None);
      return Some(ls);
    }

    /** fetchBySecondaryPrefix, which GetByMAC, GetByClientID and ListBySubnet
        call with the field they look for. */
    method FetchBySecondaryPrefix(kind: Kind, x: text) returns (out: Option<seq<Lease>>)
      requires Valid()
      ensures out == FetchByField(codec, eng.Now(), kind, x)
    {
      var prefix := x + [SEP];
      var more := (r: Row) => prefix <= r.0;
      var seen, found := eng.Iterate(Name(kind), prefix, [], more);
      ghost var index := TreeOf(eng.view, Name(kind));
      if !found {
        NothingIndexed(index, prefix, []);
        return Some([]);
      }
      PrefixScan(index, prefix, more);
      var ips := PrefixedIps(seen, prefix);
      out := FetchByIPs(ips);
    }

    method ListExpiringBefore(t: Time) returns (out: Option<seq<Lease>>)
      requires Valid()
      ensures out == FetchExpiring(codec, eng.Now(), t)
    {
      var seen, found := eng.Iterate(Name(ByExpiry), [], Padded20(Unix(t)), (r: Row) => true);
      ghost var index := TreeOf(eng.view, Name(ByExpiry));
      if !found {
        NothingIndexed(index, [], Padded20(Unix(t)));
        return Some([]);
      }
      AllVisited(Scan(index, [], Padded20(Unix(t))), (r: Row) => true);
      var ips := [];
      for i := 0 to |seen|
        invariant ips == Ips(seen[..i])
      {
        ips := ips + [seen[i].1];
      }
      assert seen[..|seen|] == seen;
      out := FetchByIPs(ips);
    }
  }

  function Prefixed(ls: seq<Lease>, later: Option<seq<Lease>>): Option<seq<Lease>>
  {
    if later == None then None else Some(ls + later.value)
  }

  lemma PrefixedEnds(ls: seq<Lease>, later: Option<seq<Lease>>)
    ensures Prefixed([], later) == later && Prefixed(ls, Some([])) == Some(ls)
  {
    assert later.Some? ==> [] + later.value == later.value;
    assert ls + [] == ls;
  }

  lemma PrefixedOne(ls: seq<Lease>, l: Option<Lease>, later: Option<seq<Lease>>)
    ensures l.Some? ==> Prefixed(ls, Prefixed([l.value], later)) == Prefixed(ls + [l.value], later)
  {
    if l.Some? && later.Some? {
      assert ls + ([l.value] + later.value) == ls + [l.value] + later.value;
    }
  }

  /** The callback of fetchBySecondaryPrefix. */
  method PrefixedIps(seen: seq<Row>, prefix: bytes) returns (ips: seq<text>)
    ensures ips == Ips(Kept(seen, prefix))
  {
    ips := [];
    assert [] + Ips(Kept(seen, prefix)) == Ips(Kept(seen, prefix)) && seen[0..] == seen;
    for i := 0 to |seen|
      invariant Ips(Kept(seen, prefix)) == ips + Ips(Kept(seen[i..], prefix))
    {
      IpsStep(ips, seen, i, prefix);
      if !(prefix <= seen[i].0) {
        return;
      }
      ips := ips + [seen[i].1];
    }
    assert ips + Ips(Kept(seen[|seen|..], prefix)) == ips;
  }

  lemma NothingIndexed(m: Contents, p: bytes, end: bytes)
    requires m == map[]
    ensures PrefixKeys(m, p) == [] && KeysInRange(m, p, end) == [] && Ips(RowsAt([], m)) == []
  {
    SortedUnique([], set k | k in m && p <= k);
    SortedUnique([], set k | k in m && InRange(p, end, k));
  }

  /** One row of the prefix scan, after the addresses read so far. */
  lemma IpsStep(ips: seq<text>, rows: seq<Row>, i: nat, p: bytes)
    requires i < |rows|
    ensures ips + Ips(Kept(rows[i..], p))
            == if p <= rows[i].0 then ips + [rows[i].1] + Ips(Kept(rows[i + 1..], p)) else ips
  {
    assert rows[i..][1..] == rows[i + 1..];
    Regroup(ips, [rows[i].1], Ips(Kept(rows[i + 1..], p)));
  }

  lemma {:induction false} AllVisited(rows: seq<Row>, more: Row -> bool)
    requires forall r :: more(r)
    ensures Visited(rows, more) == rows
  {
    if rows != [] {
      AllVisited(rows[1..], more);
    }
  }
}
