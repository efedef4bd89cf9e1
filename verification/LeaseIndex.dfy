/** internal/lease/store.go: the primary lease table and its four secondary
    indexes, as queued transactions over the trees of the storage engine. */
module LeaseIndex {
  import opened Bytes
  import opened Wrappers
  import opened BTree
  import opened LastWriter
  import opened GoText
  import opened Leases
  import opened Storage
  import Snapshot

  datatype Kind = ByMac | ByClient | BySubnet | ByExpiry

  const LEASES: text := Ascii("leases")

  function Name(kind: Kind): text
  {
    match kind
    case ByMac => Ascii("leases_by_mac")
    case ByClient => Ascii("leases_by_client")
    case BySubnet => Ascii("leases_by_subnet")
    case ByExpiry => Ascii("leases_by_expiry")
  }

  /** The JSON of a lease, as far as it matters: it can be read back. */
  datatype Codec = Codec(encode: Lease -> bytes, decode: bytes -> Option<Lease>)

  ghost predicate Faithful(c: Codec)
  {
    forall l {:trigger c.encode(l)} :: c.decode(c.encode(l)) == Some(l)
  }

  // ---------- index keys ----------

  /** The part of an index key before the separator; None when the lease is
      not in the index. */
  function Field(kind: Kind, l: Lease): Option<text>
  {
    match kind
    case ByMac => if l.mac == [] then None else Some(NormalizeMac(l.mac))
    case ByClient => if l.clientId == [] then None else Some(l.clientId)
    case BySubnet => if l.subnetId == [] then None else Some(l.subnetId)
    case ByExpiry => if l.expiryTime == ZERO_TIME then None else Some(Padded20(Unix(l.expiryTime)))
  }

  function Key(field: text, ip: text): bytes
  {
    field + [SEP] + ip
  }

  function IndexKey(kind: Kind, l: Lease): Option<bytes>
  {
    match Field(kind, l)
    case None => None
    case Some(f) => Some(Key(f, l.ip))
  }

  /** What follows the last separator of an index key. */
  function IpOf(k: bytes): text
  {
    if k == [] || k[|k| - 1] == SEP then [] else IpOf(k[..|k| - 1]) + [k[|k| - 1]]
  }

  lemma {:induction false} IpOfKey(field: text, ip: text)
    requires SEP !in ip
    ensures IpOf(Key(field, ip)) == ip
    decreases |ip|
  {
    var k := Key(field, ip);
    if ip != [] {
      var n := |ip| - 1;
      assert k[..|k| - 1] == Key(field, ip[..n]);
      assert k[|k| - 1] == ip[n];
      IpOfKey(field, ip[..n]);
    }
  }

  /** A prefix scan for a field finds the keys of that field and of the fields
      that continue it with a separator. */
  lemma FieldPrefix(x: text, field: text, ip: text)
    requires SEP !in ip
    ensures x + [SEP] <= Key(field, ip) <==> field == x || x + [SEP] <= field
  {
    var k, p := Key(field, ip), x + [SEP];
    assert p[|x|] == SEP && p[..|x|] == x;
    if |x| > |field| {
      assert |field| < |x| < |k| ==> k[|x|] == ip[|x| - |field| - 1];
    } else if |x| == |field| {
      assert k[..|p|] == field + [SEP];
      assert (field + [SEP])[..|x|] == field;
    } else {
      assert k[..|p|] == field[..|p|];
    }
  }

  // ---------- the transactions ----------

  function IndexWrites(kind: Kind, l: Lease, value: Option<bytes>): seq<Mutation>
  {
    match IndexKey(kind, l)
    case None => []
    case Some(k) => [Write((Name(kind), k), value)]
  }

  function RemoveSecondaryIndexes(l: Lease): seq<Mutation>
  {
    IndexWrites(ByMac, l, None) + IndexWrites(ByClient, l, None)
    + IndexWrites(BySubnet, l, None) + IndexWrites(ByExpiry, l, None)
  }

  function AddSecondaryIndexes(l: Lease): seq<Mutation>
  {
    IndexWrites(ByMac, l, Some(l.ip)) + IndexWrites(ByClient, l, Some(l.ip))
    + IndexWrites(BySubnet, l, Some(l.ip)) + IndexWrites(ByExpiry, l, Some(l.ip))
  }

  /** The index writes for a lease that may not be there. */
  function Removals(gone: Option<Lease>): seq<Mutation>
  {
    if gone == None then [] else RemoveSecondaryIndexes(gone.value)
  }

  function Additions(came: Option<Lease>): seq<Mutation>
  {
    if came == None then [] else AddSecondaryIndexes(came.value)
  }

  function UpsertWrites(c: Codec, l: Lease, gone: Option<Lease>): seq<Mutation>
  {
    [Write((LEASES, l.ip), Some(c.encode(l)))] + Removals(gone) + Additions(Some(l))
  }

  function DeleteWrites(ip: text, l: Lease): seq<Mutation>
  {
    [Write((LEASES, ip), None)] + Removals(Some(l)) + Additions(None)
  }

  // ---------- what a transaction does to one tree ----------

  /** The writes of a transaction that go to one tree. */
  function Project(ms: seq<Mutation>, tree: bytes): seq<Write<bytes, bytes>>
  {
    if ms == [] then [] else
      (if ms[0].key.0 == tree then [Write(ms[0].key.1, ms[0].value)] else []) + Project(ms[1..], tree)
  }

  lemma {:induction false} ProjectSplit(a: seq<Mutation>, b: seq<Mutation>, tree: bytes)
    ensures Project(a + b, tree) == Project(a, tree) + Project(b, tree)
  {
    if a == [] {
      assert a + b == b;
    } else {
      assert (a + b)[0] == a[0] && (a + b)[1..] == a[1..] + b;
      ProjectSplit(a[1..], b, tree);
      if a[0].key.0 == tree {
        Regroup([Write(a[0].key.1, a[0].value)], Project(a[1..], tree), Project(b, tree));
      }
    }
  }

  lemma {:induction false} StepAllProject(s: State, ms: seq<Mutation>, tree: bytes)
    requires AllLoggable(ms)
    ensures TreeOf(StepAll(s, ms).trees, tree) == ApplyAll(TreeOf(s.trees, tree), Project(ms, tree))
    decreases |ms|
  {
    if ms != [] {
      var t := StepState(s, ms[0]);
      StepAllProject(t, ms[1..], tree);
      var first: seq<Write<bytes, bytes>> :=
        if ms[0].key.0 == tree then [Write(ms[0].key.1, ms[0].value)] else [];
      assert TreeOf(t.trees, tree) == ApplyAll(TreeOf(s.trees, tree), first) by {
        if first != [] { assert first[..0] == []; }
      }
      ApplySplit(TreeOf(s.trees, tree), first, Project(ms[1..], tree));
    }
  }

  lemma NamesDiffer(a: Kind, b: Kind)
    ensures Name(a) == Name(b) <==> a == b
    ensures Name(a) != LEASES
  {
    assert Name(a) == Name(b) ==> |Name(a)| == |Name(b)|;
    if a != b && |Name(a)| == |Name(b)| {
      assert Name(a)[10] != Name(b)[10];
    }
  }

  function KindWrites(kind: Kind, l: Lease, value: Option<bytes>): seq<Write<bytes, bytes>>
  {
    match IndexKey(kind, l)
    case None => []
    case Some(k) => [Write(k, value)]
  }

  lemma ProjectOne(kind: Kind, other: Kind, l: Lease, value: Option<bytes>)
    ensures Project(IndexWrites(other, l, value), Name(kind))
            == if kind == other then KindWrites(kind, l, value) else []
    ensures Project(IndexWrites(other, l, value), LEASES) == []
  {
    NamesDiffer(kind, other);
    match IndexKey(other, l)
    case None =>
    case Some(k) =>
      var ms: seq<Mutation> := [Write((Name(other), k), value)];
      assert ms[1..] == [];
  }

  lemma ProjectFour(kind: Kind, l: Lease, value: Option<bytes>)
    ensures var ms := IndexWrites(ByMac, l, value) + IndexWrites(ByClient, l, value)
                      + IndexWrites(BySubnet, l, value) + IndexWrites(ByExpiry, l, value);
            && Project(ms, Name(kind)) == KindWrites(kind, l, value)
            && Project(ms, LEASES) == []
  {
    var a, b, d, e := IndexWrites(ByMac, l, value), IndexWrites(ByClient, l, value),
                      IndexWrites(BySubnet, l, value), IndexWrites(ByExpiry, l, value);
    ProjectOne(kind, ByMac, l, value);
    ProjectOne(kind, ByClient, l, value);
    ProjectOne(kind, BySubnet, l, value);
    ProjectOne(kind, ByExpiry, l, value);
    ProjectSplit(a + b + d, e, Name(kind));
    ProjectSplit(a + b, d, Name(kind));
    ProjectSplit(a, b, Name(kind));
    ProjectSplit(a + b + d, e, LEASES);
    ProjectSplit(a + b, d, LEASES);
    ProjectSplit(a, b, LEASES);
  }

  // ---------- exactness ----------

  function StoredLease(c: Codec, table: Contents, ip: text): Option<Lease>
  {
    if ip in table then c.decode(table[ip]) else None
  }

  function KeyOf(kind: Kind, l: Option<Lease>): Option<bytes>
  {
    match l
    case None => None
    case Some(lease) => IndexKey(kind, lease)
  }

  /** What an index holds under a key when it follows the primary table. */
  function Expected(c: Codec, table: Contents, kind: Kind, k: bytes): Option<text>
  {
    if KeyOf(kind, StoredLease(c, table, IpOf(k))) == Some(k) then Some(IpOf(k)) else None
  }

  /** Every row of the primary table is a lease filed under its own address,
      and the address has no separator in it. */
  ghost predicate TableOk(c: Codec, table: Contents)
  {
    forall ip {:trigger ip in table} :: ip in table ==>
      c.decode(table[ip]).Some? && c.decode(table[ip]).value.ip == ip && SEP !in ip
  }

  ghost predicate IndexExact(c: Codec, table: Contents, kind: Kind, index: Contents)
  {
    forall k {:trigger Lookup(index, k)} :: Lookup(index, k) == Expected(c, table, kind, k)
  }

  /** The primary table is in order and each of the four indexes holds exactly
      the keys derived from it. */
  ghost predicate Exact(c: Codec, trees: Snapshot.Trees)
  {
    && TableOk(c, TreeOf(trees, LEASES))
    && forall kind {:trigger Name(kind)} :: IndexExact(c, TreeOf(trees, LEASES), kind, TreeOf(trees, Name(kind)))
  }

  /** A key the log accepts. */
  predicate FitsKey(tree: bytes, k: bytes)
  {
    |MakeTreeKey(tree, k)| < U16_LIMIT
  }

  /** No tree holds a key the log would not have accepted. */
  ghost predicate Sized(trees: Snapshot.Trees)
  {
    forall t, k {:trigger k in TreeOf(trees, t)} :: k in TreeOf(trees, t) ==> FitsKey(t, k)
  }

  function Replace(index: Contents, removed: Option<bytes>, added: Option<bytes>, ip: text): Contents
  {
    var less := if removed == None then index else index - {removed.value};
    if added == None then less else less[added.value := ip]
  }

  /** The key of a lease leads back to the address of the lease. */
  lemma KeyLeadsBack(kind: Kind, l: Option<Lease>, ip: text)
    requires SEP !in ip && (l.Some? ==> l.value.ip == ip)
    ensures KeyOf(kind, l).Some? ==> IpOf(KeyOf(kind, l).value) == ip
  {
    if KeyOf(kind, l).Some? {
      IpOfKey(Field(kind, l.value).value, ip);
    }
  }

  /** One index after the old key of an address is taken out and the new one
      put in. */
  lemma IndexFollows(c: Codec, table: Contents, kind: Kind, index: Contents, ip: text,
                     table': Contents, gone: Option<bytes>, came: Option<bytes>)
    requires IndexExact(c, table, kind, index)
    requires forall j {:trigger StoredLease(c, table', j)} :: j != ip ==>
               StoredLease(c, table', j) == StoredLease(c, table, j)
    requires gone == KeyOf(kind, StoredLease(c, table, ip)) && came == KeyOf(kind, StoredLease(c, table', ip))
    requires gone.Some? ==> IpOf(gone.value) == ip
    requires came.Some? ==> IpOf(came.value) == ip
    ensures IndexExact(c, table', kind, Replace(index, gone, came, ip))
  {
    var index' := Replace(index, gone, came, ip);
    forall k ensures Lookup(index', k) == Expected(c, table', kind, k) {
      assert Lookup(index, k) == Expected(c, table, kind, k);
    }
  }

  lemma ApplyUpToOne(m: Contents, ws: seq<Write<bytes, bytes>>)
    requires |ws| <= 1
    ensures ApplyAll(m, ws) == if ws == [] then m else Apply(m, ws[0])
  {
    if ws != [] {
      assert ws[..0] == [];
    }
  }

  // ---------- one upsert ----------

  /** Which of the writes of an upsert the log accepts. */
  predicate FitsIndexes(l: Lease)
  {
    forall kind {:trigger KeyOf(kind, Some(l))} ::
      KeyOf(kind, Some(l)).Some? ==> FitsKey(Name(kind), KeyOf(kind, Some(l)).value)
  }

  lemma LoggableIndexWrite(kind: Kind, l: Lease, value: Option<bytes>)
    requires value == None || value == Some(l.ip)
    ensures AllLoggable(IndexWrites(kind, l, value)) <==>
            (KeyOf(kind, Some(l)).Some? ==> FitsKey(Name(kind), KeyOf(kind, Some(l)).value))
  {
    match IndexKey(kind, l)
    case None =>
    case Some(k) =>
      var m: Mutation := Write((Name(kind), k), value);
      assert |l.ip| <= |k| < |MakeTreeKey(Name(kind), k)|;
      assert IndexWrites(kind, l, value)[0] == m;
      assert Loggable(m) <==> FitsKey(Name(kind), k);
  }

  lemma AllLoggableSplit(a: seq<Mutation>, b: seq<Mutation>)
    ensures AllLoggable(a + b) <==> AllLoggable(a) && AllLoggable(b)
  {
    if AllLoggable(a + b) {
      forall i | 0 <= i < |a| ensures Loggable(a[i]) { assert (a + b)[i] == a[i]; }
      forall i | 0 <= i < |b| ensures Loggable(b[i]) { assert (a + b)[|a| + i] == b[i]; }
    }
  }

  lemma FourLoggable(l: Lease, value: Option<bytes>)
    requires value == None || value == Some(l.ip)
    ensures AllLoggable(IndexWrites(ByMac, l, value) + IndexWrites(ByClient, l, value)
                        + IndexWrites(BySubnet, l, value) + IndexWrites(ByExpiry, l, value))
            <==> FitsIndexes(l)
  {
    var a, b, d, e := IndexWrites(ByMac, l, value), IndexWrites(ByClient, l, value),
                      IndexWrites(BySubnet, l, value), IndexWrites(ByExpiry, l, value);
    AllLoggableSplit(a + b + d, e);
    AllLoggableSplit(a + b, d);
    AllLoggableSplit(a, b);
    LoggableIndexWrite(ByMac, l, value);
    LoggableIndexWrite(ByClient, l, value);
    LoggableIndexWrite(BySubnet, l, value);
    LoggableIndexWrite(ByExpiry, l, value);
    assert FitsIndexes(l) <==>
      (forall kind | kind == ByMac || kind == ByClient || kind == BySubnet || kind == ByExpiry ::
        KeyOf(kind, Some(l)).Some? ==> FitsKey(Name(kind), KeyOf(kind, Some(l)).value));
  }

  /** The keys of a lease that is indexed already have been logged before. */
  lemma StoredFits(c: Codec, trees: Snapshot.Trees, ip: text, l: Lease)
    requires Exact(c, trees) && Sized(trees) && StoredLease(c, TreeOf(trees, LEASES), ip) == Some(l)
    ensures FitsIndexes(l) && l.ip == ip && SEP !in ip && FitsKey(LEASES, ip)
  {
    forall kind | KeyOf(kind, Some(l)).Some? ensures FitsKey(Name(kind), KeyOf(kind, Some(l)).value) {
      var k := KeyOf(kind, Some(l)).value;
      KeyLeadsBack(kind, Some(l), ip);
      assert Lookup(TreeOf(trees, Name(kind)), k) == Expected(c, TreeOf(trees, LEASES), kind, k) == Some(ip);
      assert k in TreeOf(trees, Name(kind));
    }
  }

  function Single(key: Option<bytes>, value: Option<bytes>): seq<Write<bytes, bytes>>
  {
    if key == None then [] else [Write(key.value, value)]
  }

  lemma SinglesReplace(index: Contents, removed: Option<bytes>, added: Option<bytes>, ip: text)
    ensures ApplyAll(index, Single(removed, None) + Single(added, Some(ip))) == Replace(index, removed, added, ip)
  {
    ApplySplit(index, Single(removed, None), Single(added, Some(ip)));
    ApplyUpToOne(index, Single(removed, None));
    ApplyUpToOne(ApplyAll(index, Single(removed, None)), Single(added, Some(ip)));
  }

  lemma ProjectParts(kind: Kind, primary: Mutation, gone: Option<Lease>, came: Option<Lease>, ip: text)
    requires primary.key == (LEASES, ip) && (came.Some? ==> came.value.ip == ip)
    ensures Project([primary], Name(kind)) == [] && Project([primary], LEASES) == [Write(ip, primary.value)]
    ensures Project(Removals(gone), Name(kind)) == Single(KeyOf(kind, gone), None)
    ensures Project(Additions(came), Name(kind)) == Single(KeyOf(kind, came), Some(ip))
    ensures Project(Removals(gone), LEASES) == [] && Project(Additions(came), LEASES) == []
  {
    if gone.Some? { ProjectFour(kind, gone.value, None); }
    if came.Some? { ProjectFour(kind, came.value, Some(ip)); }
    NamesDiffer(kind, kind);
    assert [primary][1..] == [];
  }

  lemma ProjectUpsert(kind: Kind, primary: Mutation, gone: Option<Lease>, came: Option<Lease>, ip: text)
    requires primary.key == (LEASES, ip) && (came.Some? ==> came.value.ip == ip)
    ensures var ms := [primary] + Removals(gone) + Additions(came);
            && Project(ms, Name(kind)) == Single(KeyOf(kind, gone), None) + Single(KeyOf(kind, came), Some(ip))
            && Project(ms, LEASES) == [Write(ip, primary.value)]
  {
    ProjectParts(kind, primary, gone, came, ip);
    ProjectSplit([primary] + Removals(gone), Additions(came), Name(kind));
    ProjectSplit([primary], Removals(gone), Name(kind));
    ProjectSplit([primary] + Removals(gone), Additions(came), LEASES);
    ProjectSplit([primary], Removals(gone), LEASES);
  }

  /** Replacing (or only removing) the index entries of one address. */
  lemma ReplaceTrees(s: State, primary: Mutation, gone: Option<Lease>, came: Option<Lease>, ip: text)
    requires primary.key == (LEASES, ip) && (came.Some? ==> came.value.ip == ip)
    requires AllLoggable([primary] + Removals(gone) + Additions(came))
    ensures var after := StepAll(s, [primary] + Removals(gone) + Additions(came)).trees;
            && TreeOf(after, LEASES) == Apply(TreeOf(s.trees, LEASES), Write(ip, primary.value))
            && forall kind {:trigger Name(kind)} ::
                 TreeOf(after, Name(kind))
                 == Replace(TreeOf(s.trees, Name(kind)), KeyOf(kind, gone), KeyOf(kind, came), ip)
  {
    var ms := [primary] + Removals(gone) + Additions(came);
    forall kind
      ensures TreeOf(StepAll(s, ms).trees, Name(kind))
           == Replace(TreeOf(s.trees, Name(kind)), KeyOf(kind, gone), KeyOf(kind, came), ip)
    {
      ProjectUpsert(kind, primary, gone, came, ip);
      StepAllProject(s, ms, Name(kind));
      SinglesReplace(TreeOf(s.trees, Name(kind)), KeyOf(kind, gone), KeyOf(kind, came), ip);
    }
    ProjectUpsert(ByMac, primary, gone, came, ip);
    StepAllProject(s, ms, LEASES);
    ApplyUpToOne(TreeOf(s.trees, LEASES), [Write(ip, primary.value)]);
  }

  // ---------- keeping the size bound ----------

  lemma {:induction false} StepAllSized(s: State, ms: seq<Mutation>)
    requires Sized(s.trees)
    ensures Sized(StepAll(s, ms).trees)
    decreases |ms|
  {
    if ms != [] {
      var t := StepState(s, ms[0]);
      forall n, k | k in TreeOf(t.trees, n) ensures FitsKey(n, k) {
        if n == ms[0].key.0 && k == ms[0].key.1 && Loggable(ms[0]) {
          assert |ToRecord(ms[0]).key| < U16_LIMIT;
        } else {
          assert k in TreeOf(s.trees, n);
        }
      }
      if Loggable(ms[0]) {
        StepAllSized(t, ms[1..]);
      }
    }
  }

  /** A tree no mutation names stays as it is, however far the transaction gets. */
  lemma {:induction false} StepAllElsewhere(s: State, ms: seq<Mutation>, tree: bytes)
    requires Elsewhere(ms, tree)
    ensures TreeOf(StepAll(s, ms).trees, tree) == TreeOf(s.trees, tree)
    decreases |ms|
  {
    if ms != [] && Loggable(ms[0]) {
      StepAllElsewhere(StepState(s, ms[0]), ms[1..], tree);
    }
  }

  // ---------- the two operations ----------

  function OldLease(c: Codec, trees: Snapshot.Trees, ip: text): Option<Lease>
  {
    StoredLease(c, TreeOf(trees, LEASES), ip)
  }

  /** Upsert and UpsertSilent. */
  function UpsertState(c: Codec, s: State, lease: Lease, now: Time, silent: bool): State
  {
    if TrimSpace(lease.ip) == [] then s else
      var l := NormalizeDefaults(lease, now, 12 * HOUR);
      if l.ip in TreeOf(s.trees, LEASES) && OldLease(c, s.trees, l.ip) == None then s
      else TxState(s, UpsertWrites(c, l, OldLease(c, s.trees, l.ip)), true, !silent)
  }

  /** Delete and DeleteSilent. */
  function DeleteState(c: Codec, s: State, ip: text, silent: bool): State
  {
    match OldLease(c, s.trees, ip)
    case None => s
    case Some(l) => TxState(s, DeleteWrites(ip, l), true, !silent)
  }

  /** An upsert needs an address, a readable old lease if there is one, an open
      engine, and room for all its writes in the log. */
  predicate UpsertSucceeds(c: Codec, s: State, lease: Lease, now: Time)
  {
    var l := NormalizeDefaults(lease, now, 12 * HOUR);
    var gone := OldLease(c, s.trees, l.ip);
    && TrimSpace(l.ip) != [] && (l.ip in TreeOf(s.trees, LEASES) ==> gone.Some?)
    && !s.closed && AllLoggable(UpsertWrites(c, l, gone))
  }

  /** Deleting nothing always succeeds. */
  predicate DeleteSucceeds(c: Codec, s: State, ip: text)
  {
    var gone := OldLease(c, s.trees, ip);
    || ip !in TreeOf(s.trees, LEASES)
    || (gone.Some? && !s.closed && AllLoggable(DeleteWrites(ip, gone.value)))
  }

  /** The trees after a whole transaction that replaced one lease. */
  lemma ExactAfter(c: Codec, trees: Snapshot.Trees, after: Snapshot.Trees, ip: text, value: Option<bytes>,
                   came: Option<Lease>)
    requires Exact(c, trees) && SEP !in ip
    requires came.Some? ==> came.value.ip == ip
    requires came == match value case None => None case Some(v) => c.decode(v)
    requires value.Some? ==> came.Some?
    requires TreeOf(after, LEASES) == Apply(TreeOf(trees, LEASES), Write(ip, value))
    requires forall kind {:trigger Name(kind)} ::
               TreeOf(after, Name(kind))
               == Replace(TreeOf(trees, Name(kind)), KeyOf(kind, OldLease(c, trees, ip)), KeyOf(kind, came), ip)
    ensures Exact(c, after)
  {
    var table, table' := TreeOf(trees, LEASES), TreeOf(after, LEASES);
    var gone := StoredLease(c, table, ip);
    forall kind ensures IndexExact(c, table', kind, TreeOf(after, Name(kind))) {
      assert IndexExact(c, table, kind, TreeOf(trees, Name(kind)));
      KeyLeadsBack(kind, gone, ip);
      KeyLeadsBack(kind, came, ip);
      IndexFollows(c, table, kind, TreeOf(trees, Name(kind)), ip, table', KeyOf(kind, gone), KeyOf(kind, came));
    }
  }

  lemma UpsertKeepsExact(c: Codec, s: State, lease: Lease, now: Time, silent: bool)
    requires Faithful(c) && Exact(c, s.trees) && Sized(s.trees) && !s.closed
    requires TrimSpace(lease.ip) != [] && SEP !in lease.ip
    requires var l := NormalizeDefaults(lease, now, 12 * HOUR);
             FitsIndexes(l) && Loggable(Write((LEASES, l.ip), Some(c.encode(l))))
    ensures var l := NormalizeDefaults(lease, now, 12 * HOUR);
            var after := UpsertState(c, s, lease, now, silent).trees;
            && Exact(c, after)
            && TreeOf(after, LEASES) == TreeOf(s.trees, LEASES)[l.ip := c.encode(l)]
  {
    var l := NormalizeDefaults(lease, now, 12 * HOUR);
    var ip, gone := l.ip, OldLease(c, s.trees, l.ip);
    var primary: Mutation := Write((LEASES, ip), Some(c.encode(l)));
    assert c.decode(c.encode(l)) == Some(l);
    FourLoggable(l, Some(ip));
    if gone.Some? {
      StoredFits(c, s.trees, ip, gone.value);
      FourLoggable(gone.value, None);
    }
    AllLoggableSplit([primary] + Removals(gone), Additions(Some(l)));
    AllLoggableSplit([primary], Removals(gone));
    ReplaceTrees(s, primary, gone, Some(l), ip);
    ExactAfter(c, s.trees, StepAll(s, UpsertWrites(c, l, gone)).trees, ip, primary.value, Some(l));
  }

  lemma MissingRow(c: Codec, trees: Snapshot.Trees, kind: Kind, k: bytes)
    requires Expected(c, TreeOf(trees, LEASES), kind, k).Some? && k !in TreeOf(trees, Name(kind))
    ensures !Exact(c, trees)
  {
    assert Lookup(TreeOf(trees, Name(kind)), k) == None;
  }

  /** The lease itself is written whatever becomes of its index entries. */
  lemma PrimaryWritten(s: State, primary: Mutation, gone: Option<Lease>, came: Lease)
    requires Loggable(primary) && primary.key == (LEASES, came.ip) && primary.value.Some?
    ensures TreeOf(StepAll(s, [primary] + Removals(gone) + Additions(Some(came))).trees, LEASES)
         == TreeOf(s.trees, LEASES)[came.ip := primary.value.value]
  {
    var rest := Removals(gone) + Additions(Some(came));
    assert [primary] + Removals(gone) + Additions(Some(came)) == [primary] + rest;
    assert ([primary] + rest)[1..] == rest;
    IndexWritesElsewhere(gone, Some(came));
    StepAllElsewhere(StepState(s, primary), rest, LEASES);
  }

  /** A lease goes in but one of its index entries is too long for the log:
      the primary table has it and that index does not. */
  lemma UpsertBreaksExact(c: Codec, s: State, lease: Lease, now: Time, silent: bool)
    requires Faithful(c) && Exact(c, s.trees) && Sized(s.trees) && !s.closed
    requires TrimSpace(lease.ip) != [] && SEP !in lease.ip
    requires var l := NormalizeDefaults(lease, now, 12 * HOUR);
             !FitsIndexes(l) && Loggable(Write((LEASES, l.ip), Some(c.encode(l))))
    ensures !Exact(c, UpsertState(c, s, lease, now, silent).trees)
  {
    var l := NormalizeDefaults(lease, now, 12 * HOUR);
    var ip, gone := l.ip, OldLease(c, s.trees, l.ip);
    var primary: Mutation := Write((LEASES, ip), Some(c.encode(l)));
    var after := StepAll(s, UpsertWrites(c, l, gone)).trees;
    PrimaryWritten(s, primary, gone, l);
    StepAllSized(s, UpsertWrites(c, l, gone));
    var kind :| KeyOf(kind, Some(l)).Some? && !FitsKey(Name(kind), KeyOf(kind, Some(l)).value);
    var k := KeyOf(kind, Some(l)).value;
    KeyLeadsBack(kind, Some(l), ip);
    assert c.decode(c.encode(l)) == Some(l);
    MissingRow(c, after, kind, k);
  }

  predicate Elsewhere(ms: seq<Mutation>, tree: bytes)
  {
    forall i :: 0 <= i < |ms| ==> ms[i].key.0 != tree
  }

  lemma FourElsewhere(l: Lease, value: Option<bytes>)
    ensures Elsewhere(IndexWrites(ByMac, l, value) + IndexWrites(ByClient, l, value)
                      + IndexWrites(BySubnet, l, value) + IndexWrites(ByExpiry, l, value), LEASES)
  {
    forall kind ensures Elsewhere(IndexWrites(kind, l, value), LEASES) { NamesDiffer(kind, kind); }
  }

  lemma IndexWritesElsewhere(gone: Option<Lease>, came: Option<Lease>)
    ensures Elsewhere(Removals(gone) + Additions(came), LEASES)
  {
    if gone.Some? { FourElsewhere(gone.value, None); }
    if came.Some? { FourElsewhere(came.value, Some(came.value.ip)); }
  }

  /** An upsert keeps the indexes exact if and only if the log accepts the
      index keys of the lease, or refuses the lease itself. */
  lemma UpsertExactness(c: Codec, s: State, lease: Lease, now: Time, silent: bool)
    requires Faithful(c) && Exact(c, s.trees) && Sized(s.trees) && !s.closed
    requires TrimSpace(lease.ip) != [] && SEP !in lease.ip
    ensures var l := NormalizeDefaults(lease, now, 12 * HOUR);
            Exact(c, UpsertState(c, s, lease, now, silent).trees)
            <==> FitsIndexes(l) || !Loggable(Write((LEASES, l.ip), Some(c.encode(l))))
  {
    var l := NormalizeDefaults(lease, now, 12 * HOUR);
    var primary: Mutation := Write((LEASES, l.ip), Some(c.encode(l)));
    if !Loggable(primary) {
      var ms := UpsertWrites(c, l, OldLease(c, s.trees, l.ip));
      assert ms[0] == primary;
      var after := StepAll(s, ms).trees;
      assert after == Touch(s.trees, LEASES);
      assert forall n :: TreeOf(after, n) == TreeOf(s.trees, n);
    } else if FitsIndexes(l) {
      UpsertKeepsExact(c, s, lease, now, silent);
    } else {
      UpsertBreaksExact(c, s, lease, now, silent);
    }
  }

  lemma DeleteKeepsExact(c: Codec, s: State, ip: text, silent: bool)
    requires Exact(c, s.trees) && Sized(s.trees) && !s.closed
    ensures Exact(c, DeleteState(c, s, ip, silent).trees)
    ensures TreeOf(DeleteState(c, s, ip, silent).trees, LEASES) == TreeOf(s.trees, LEASES) - {ip}
  {
    var gone := OldLease(c, s.trees, ip);
    if gone.Some? {
      var primary: Mutation := Write((LEASES, ip), None);
      StoredFits(c, s.trees, ip, gone.value);
      FourLoggable(gone.value, None);
      AllLoggableSplit([primary] + Removals(gone), Additions(None));
      AllLoggableSplit([primary], Removals(gone));
      ReplaceTrees(s, primary, gone, None, ip);
      ExactAfter(c, s.trees, StepAll(s, DeleteWrites(ip, gone.value)).trees, ip, None, None);
    } else {
      assert ip !in TreeOf(s.trees, LEASES);
      assert TreeOf(s.trees, LEASES) - {ip} == TreeOf(s.trees, LEASES);
    }
  }
}
