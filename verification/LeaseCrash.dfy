/** The lease store after a crash: what a log that ends inside the transaction
    of an upsert or a delete makes of the secondary indexes. */
module LeaseCrash {
  import opened Bytes
  import opened Wrappers
  import opened BTree
  import opened LastWriter
  import opened GoText
  import opened Leases
  import opened Storage
  import opened LeaseIndex
  import Snapshot

  // ---------- one index after part of a transaction ----------

  /** What a transaction writes to one index: the old key out, the new key in. */
  function Both(gone: Option<bytes>, came: Option<bytes>, ip: text): seq<Write<bytes, bytes>>
  {
    Single(gone, None) + Single(came, Some(ip))
  }

  /** A first part of those writes leaves the index as all of them would if and
      only if it is all of them, or nothing was written and nothing had to be. */
  lemma PartOfReplace(index: Contents, gone: Option<bytes>, came: Option<bytes>, ip: text,
                      part: seq<Write<bytes, bytes>>)
    requires gone.Some? ==> Lookup(index, gone.value) == Some(ip)
    requires came.Some? && came != gone ==> Lookup(index, came.value) == None
    requires part <= Both(gone, came, ip)
    ensures ApplyAll(index, part) == Replace(index, gone, came, ip)
            <==> part == Both(gone, came, ip) || (part == [] && gone == came)
  {
    var whole := Both(gone, came, ip);
    SinglesReplace(index, gone, came, ip);
    if part == [] {
      if gone.Some? {
        assert Lookup(index, gone.value) == Some(ip);
        assert gone == came ==> index[gone.value := ip] == index;
      }
      if came.Some? && gone != came {
        assert came.value in Replace(index, gone, came, ip);
      }
    } else if part != whole {
      assert gone.Some? && came.Some? && part == [Write(gone.value, None)];
      ApplyUpToOne(index, part);
      assert came.value !in ApplyAll(index, part) && came.value in Replace(index, gone, came, ip);
    }
  }

  // ---------- all indexes ----------

  /** The transaction of an upsert (came is the lease) or a delete (None). */
  function LeaseWrites(c: Codec, ip: text, gone: Option<Lease>, came: Option<Lease>): seq<Mutation>
  {
    [Write((LEASES, ip), if came == None then None else Some(c.encode(came.value)))] + Removals(gone) + Additions(came)
  }

  /** An index is done with a transaction of which the log holds the first j
      writes: all writes to it are among them, or none is and the lease keeps
      its key in it. */
  predicate IndexDone(c: Codec, ip: text, gone: Option<Lease>, came: Option<Lease>, kind: Kind, j: nat)
    requires j <= |LeaseWrites(c, ip, gone, came)|
  {
    var ms := LeaseWrites(c, ip, gone, came);
    || Project(ms[..j], Name(kind)) == Project(ms, Name(kind))
    || (Project(ms[..j], Name(kind)) == [] && KeyOf(kind, gone) == KeyOf(kind, came))
  }

  ghost predicate AllDone(c: Codec, ip: text, gone: Option<Lease>, came: Option<Lease>, j: nat)
    requires j <= |LeaseWrites(c, ip, gone, came)|
  {
    forall kind {:trigger IndexDone(c, ip, gone, came, kind, j)} :: IndexDone(c, ip, gone, came, kind, j)
  }

  lemma PartProject(ms: seq<Mutation>, j: nat, tree: bytes)
    requires j <= |ms|
    ensures Project(ms[..j], tree) <= Project(ms, tree)
    ensures (AllLoggable(ms) ==> AllLoggable(ms[..j])) && (LogNames(ms) ==> LogNames(ms[..j]))
  {
    assert ms == ms[..j] + ms[j..];
    ProjectSplit(ms[..j], ms[j..], tree);
  }

  /** The primary table changes with the first write. */
  lemma PrimaryAfter(c: Codec, s: State, ip: text, gone: Option<Lease>, came: Option<Lease>, j: nat)
    requires came.Some? ==> came.value.ip == ip
    requires AllLoggable(LeaseWrites(c, ip, gone, came)) && 0 < j <= |LeaseWrites(c, ip, gone, came)|
    ensures var ms := LeaseWrites(c, ip, gone, came);
            TreeOf(StepAll(s, ms[..j]).trees, LEASES) == Apply(TreeOf(s.trees, LEASES), Write(ip, ms[0].value))
  {
    var ms := LeaseWrites(c, ip, gone, came);
    PartProject(ms, j, LEASES);
    StepAllProject(s, ms[..j], LEASES);
    ProjectUpsert(ByMac, ms[0], gone, came, ip);
    assert ms[..j] == [ms[0]] + ms[1..j];
    ProjectSplit([ms[0]], ms[1..j], LEASES);
    assert [ms[0]][1..] == [];
    ApplyUpToOne(TreeOf(s.trees, LEASES), [Write(ip, ms[0].value)]);
  }

  /** One index after part of a transaction is exact if and only if it is done. */
  lemma IndexExactIff(c: Codec, s: State, ip: text, came: Option<Lease>, j: nat, kind: Kind)
    requires Faithful(c) && Exact(c, s.trees) && SEP !in ip && (came.Some? ==> came.value.ip == ip)
    requires var gone := OldLease(c, s.trees, ip);
             AllLoggable(LeaseWrites(c, ip, gone, came)) && 0 < j <= |LeaseWrites(c, ip, gone, came)|
    ensures var gone := OldLease(c, s.trees, ip);
            var after := StepAll(s, LeaseWrites(c, ip, gone, came)[..j]).trees;
            IndexExact(c, TreeOf(after, LEASES), kind, TreeOf(after, Name(kind)))
            <==> IndexDone(c, ip, gone, came, kind, j)
  {
    var gone := OldLease(c, s.trees, ip);
    var ms := LeaseWrites(c, ip, gone, came);
    var after := StepAll(s, ms[..j]).trees;
    var table, index := TreeOf(s.trees, LEASES), TreeOf(s.trees, Name(kind));
    var table', index' := TreeOf(after, LEASES), TreeOf(after, Name(kind));
    var oldKey, newKey := KeyOf(kind, gone), KeyOf(kind, came);
    PrimaryAfter(c, s, ip, gone, came, j);
    assert came.Some? ==> c.decode(c.encode(came.value)) == came;
    assert IndexExact(c, table, kind, index);
    KeyLeadsBack(kind, gone, ip);
    KeyLeadsBack(kind, came, ip);
    IndexFollows(c, table, kind, index, ip, table', oldKey, newKey);
    PartProject(ms, j, Name(kind));
    StepAllProject(s, ms[..j], Name(kind));
    ProjectUpsert(kind, ms[0], gone, came, ip);
    OldKeys(c, table, kind, index, ip, gone, came);
    PartOfReplace(index, oldKey, newKey, ip, Project(ms[..j], Name(kind)));
    ExactIsUnique(c, table', kind, index', Replace(index, oldKey, newKey, ip));
  }

  lemma OldKeys(c: Codec, table: Contents, kind: Kind, index: Contents, ip: text, gone: Option<Lease>,
                came: Option<Lease>)
    requires IndexExact(c, table, kind, index) && SEP !in ip && gone == StoredLease(c, table, ip)
    requires (gone.Some? ==> gone.value.ip == ip) && (came.Some? ==> came.value.ip == ip)
    ensures KeyOf(kind, gone).Some? ==> Lookup(index, KeyOf(kind, gone).value) == Some(ip)
    ensures KeyOf(kind, came).Some? && KeyOf(kind, came) != KeyOf(kind, gone) ==>
              Lookup(index, KeyOf(kind, came).value) == None
  {
    KeyLeadsBack(kind, gone, ip);
    KeyLeadsBack(kind, came, ip);
    if KeyOf(kind, gone).Some? {
      assert Lookup(index, KeyOf(kind, gone).value) == Expected(c, table, kind, KeyOf(kind, gone).value);
    }
    if KeyOf(kind, came).Some? {
      assert Lookup(index, KeyOf(kind, came).value) == Expected(c, table, kind, KeyOf(kind, came).value);
    }
  }

  lemma ExactIsUnique(c: Codec, table: Contents, kind: Kind, a: Contents, b: Contents)
    requires IndexExact(c, table, kind, b)
    ensures IndexExact(c, table, kind, a) <==> a == b
  {
    if IndexExact(c, table, kind, a) {
      forall k ensures Lookup(a, k) == Lookup(b, k) {
        assert Lookup(a, k) == Expected(c, table, kind, k) == Lookup(b, k);
      }
      SameLookups(a, b);
    }
  }

  /** Part of a lease transaction keeps the indexes exact if and only if it is
      none of it, or every index is done. */
  lemma PartExactIff(c: Codec, s: State, ip: text, came: Option<Lease>, j: nat)
    requires Faithful(c) && Exact(c, s.trees) && SEP !in ip && (came.Some? ==> came.value.ip == ip)
    requires var gone := OldLease(c, s.trees, ip);
             AllLoggable(LeaseWrites(c, ip, gone, came)) && j <= |LeaseWrites(c, ip, gone, came)|
    ensures var gone := OldLease(c, s.trees, ip);
            Exact(c, StepAll(s, LeaseWrites(c, ip, gone, came)[..j]).trees)
            <==> j == 0 || AllDone(c, ip, gone, came, j)
  {
    var gone := OldLease(c, s.trees, ip);
    var ms := LeaseWrites(c, ip, gone, came);
    if j == 0 {
      assert ms[..0] == [];
    } else {
      var after := StepAll(s, ms[..j]).trees;
      PrimaryAfter(c, s, ip, gone, came, j);
      assert came.Some? ==> c.decode(c.encode(came.value)) == came;
      assert TableOk(c, TreeOf(s.trees, LEASES)) && TableOk(c, TreeOf(after, LEASES));
      forall kind
        ensures IndexExact(c, TreeOf(after, LEASES), kind, TreeOf(after, Name(kind)))
                <==> IndexDone(c, ip, gone, came, kind, j)
      {
        IndexExactIff(c, s, ip, came, j, kind);
      }
    }
  }

  // ---------- after reopening ----------

  /** The log of part of a transaction is the log of all of it, cut. */
  lemma {:induction false} PartRecords(s: State, ms: seq<Mutation>, j: nat)
    requires AllLoggable(ms) && j <= |ms|
    ensures |StepAll(s, ms).records| == |s.records| + |ms|
    ensures StepAll(s, ms[..j]).records == StepAll(s, ms).records[..|s.records| + j]
    ensures StepAll(s, ms[..j]).snapshot == s.snapshot
    ensures s.records <= StepAll(s, ms).records
    decreases |ms|
  {
    if ms != [] {
      var t := StepState(s, ms[0]);
      if j == 0 {
        PartRecords(t, ms[1..], 0);
        assert StepAll(s, ms).records[..|s.records|] == s.records;
      } else {
        PartRecords(t, ms[1..], j - 1);
        assert ms[..j][1..] == ms[1..][..j - 1] && ms[..j][0] == ms[0];
      }
    } else {
      assert s.records[..|s.records|] == s.records;
    }
  }

  lemma NoSeparator(s: string)
    requires forall ch :: ch in s ==> ch as int % 0x100 != SEP as int
    ensures SEP !in Ascii(s)
  {
    forall i | 0 <= i < |s| ensures Ascii(s)[i] != SEP {
      assert s[i] in s;
    }
  }

  lemma TreeNamesFit(kind: Kind)
    ensures LogName(LEASES) && LogName(Name(kind))
  {
    NoSeparator("leases");
    match kind
    case ByMac => NoSeparator("leases_by_mac");
    case ByClient => NoSeparator("leases_by_client");
    case BySubnet => NoSeparator("leases_by_subnet");
    case ByExpiry => NoSeparator("leases_by_expiry");
  }

  lemma LogNamesSplit(a: seq<Mutation>, b: seq<Mutation>)
    requires LogNames(a) && LogNames(b)
    ensures LogNames(a + b)
  {
  }

  lemma IndexLogNames(l: Lease, value: Option<bytes>)
    ensures LogNames(IndexWrites(ByMac, l, value) + IndexWrites(ByClient, l, value)
                     + IndexWrites(BySubnet, l, value) + IndexWrites(ByExpiry, l, value))
  {
    forall kind ensures LogNames(IndexWrites(kind, l, value)) {
      TreeNamesFit(kind);
    }
    var a, b, d, e := IndexWrites(ByMac, l, value), IndexWrites(ByClient, l, value),
                      IndexWrites(BySubnet, l, value), IndexWrites(ByExpiry, l, value);
    LogNamesSplit(a, b);
    LogNamesSplit(a + b, d);
    LogNamesSplit(a + b + d, e);
  }

  lemma LeaseLogNames(c: Codec, ip: text, gone: Option<Lease>, came: Option<Lease>)
    ensures LogNames(LeaseWrites(c, ip, gone, came))
  {
    TreeNamesFit(ByMac);
    if gone.Some? {
      IndexLogNames(gone.value, None);
    }
    if came.Some? {
      IndexLogNames(came.value, Some(came.value.ip));
    }
    var primary := LeaseWrites(c, ip, gone, came)[..1];
    assert primary == [LeaseWrites(c, ip, gone, came)[0]];
    LogNamesSplit(primary, Removals(gone));
    LogNamesSplit(primary + Removals(gone), Additions(came));
    assert LeaseWrites(c, ip, gone, came) == primary + Removals(gone) + Additions(came);
  }

  /** Exactness is a matter of the rows. */
  lemma SameRowsExact(c: Codec, a: Snapshot.Trees, b: Snapshot.Trees)
    requires Flat(a) == Flat(b)
    ensures Exact(c, a) <==> Exact(c, b)
  {
    SameRow(a, b, LEASES);
    forall kind ensures TreeOf(a, Name(kind)) == TreeOf(b, Name(kind)) {
      SameRow(a, b, Name(kind));
    }
  }

  lemma SameRow(a: Snapshot.Trees, b: Snapshot.Trees, tree: bytes)
    requires Flat(a) == Flat(b)
    ensures TreeOf(a, tree) == TreeOf(b, tree)
  {
    forall k ensures Lookup(TreeOf(a, tree), k) == Lookup(TreeOf(b, tree), k) {
      FlatLookup(a, tree, k);
      FlatLookup(b, tree, k);
    }
    SameLookups(TreeOf(a, tree), TreeOf(b, tree));
  }

  /** A crash that cuts the log inside the transaction of an upsert or delete:
      the directory opens, and the indexes of the leases are exact if and only
      if nothing of the transaction is left or every index is done with it. */
  lemma CrashInsideLeaseWrite(c: Codec, h: History, s: State, ip: text, came: Option<Lease>, j: nat, names: seq<bytes>)
    requires Faithful(c) && Exact(c, s.trees) && SEP !in ip && (came.Some? ==> came.value.ip == ip)
    requires Durable(h, s) && h.readable && LogNames(h.log)
    requires var gone := OldLease(c, s.trees, ip);
             AllLoggable(LeaseWrites(c, ip, gone, came)) && j <= |LeaseWrites(c, ip, gone, came)|
    ensures var gone := OldLease(c, s.trees, ip);
            var whole := StepAll(s, LeaseWrites(c, ip, gone, came)).records;
            && |s.records| + j <= |whole|
            && var back := OpenedTrees(s.snapshot, names, whole[..|s.records| + j]);
               && back.Some?
               && (Exact(c, back.value)
                   <==> j == 0 || AllDone(c, ip, gone, came, j))
  {
    var gone := OldLease(c, s.trees, ip);
    var ms := LeaseWrites(c, ip, gone, came);
    var t := StepAll(s, ms[..j]);
    PartExactIff(c, s, ip, came, j);
    PartRecords(s, ms, j);
    LeaseLogNames(c, ip, gone, came);
    PartProject(ms, j, LEASES);
    PartReopens(c, h, s, ms[..j], names);
  }

  /** Reopening after some mutations gives the rows the engine had then. */
  lemma PartReopens(c: Codec, h: History, s: State, ms: seq<Mutation>, names: seq<bytes>)
    requires Durable(h, s) && h.readable && LogNames(h.log) && LogNames(ms)
    ensures var t := StepAll(s, ms);
            var back := OpenedTrees(t.snapshot, names, t.records);
            back.Some? && (Exact(c, back.value) <==> Exact(c, t.trees))
  {
    var t := StepAll(s, ms);
    var h' := DurableSteps(h, s, ms);
    ReopenDurable(h', t, names);
    SameRowsExact(c, OpenedTrees(t.snapshot, names, t.records).value, t.trees);
  }

  /** The ordinary case: a crash right after the lease itself was logged leaves
      exact indexes if and only if the upsert changes no index key. */
  lemma CrashAfterLease(c: Codec, s: State, l: Lease)
    requires Faithful(c) && Exact(c, s.trees) && SEP !in l.ip
    requires AllLoggable(LeaseWrites(c, l.ip, OldLease(c, s.trees, l.ip), Some(l)))
    ensures var gone := OldLease(c, s.trees, l.ip);
            Exact(c, StepAll(s, LeaseWrites(c, l.ip, gone, Some(l))[..1]).trees)
            <==> forall kind {:trigger KeyOf(kind, gone)} :: KeyOf(kind, gone) == KeyOf(kind, Some(l))
  {
    var gone := OldLease(c, s.trees, l.ip);
    var ms := LeaseWrites(c, l.ip, gone, Some(l));
    PartExactIff(c, s, l.ip, Some(l), 1);
    forall kind ensures IndexDone(c, l.ip, gone, Some(l), kind, 1) <==> KeyOf(kind, gone) == KeyOf(kind, Some(l)) {
      NamesDiffer(kind, kind);
      ProjectParts(kind, ms[0], gone, Some(l), l.ip);
      assert ms[..1] == [ms[0]];
      ProjectUpsert(kind, ms[0], gone, Some(l), l.ip);
      assert |Project(ms, Name(kind))|
             == |Single(KeyOf(kind, gone), None)| + |Single(KeyOf(kind, Some(l)), Some(l.ip))|;
    }
  }
}
