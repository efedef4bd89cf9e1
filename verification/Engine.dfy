/** internal/storage/engine.go: trees in memory, a log and a snapshot file. */
module Storage {
  import opened Bytes
  import opened Wrappers
  import opened BTree
  import opened LastWriter
  import Wal
  import Snapshot

  const SEP: byte := 0x1f
  const OP_PUT: byte := 1
  const OP_DEL: byte := 2

  type Place = (bytes, bytes)  // tree name and key
  type Db = map<Place, bytes>
  type Mutation = Write<Place, bytes>

  // ---------- log records ----------

  function MakeTreeKey(tree: bytes, key: bytes): bytes
  {
    tree + [SEP] + key
  }

  /** bytes.IndexByte: the first position of c, or the length when there is none. */
  function IndexByte(b: bytes, c: byte): (i: nat)
    ensures i <= |b|
    ensures forall j :: 0 <= j < i ==> b[j] != c
    ensures i < |b| ==> b[i] == c
  {
    if b == [] || b[0] == c then 0 else 1 + IndexByte(b[1..], c)
  }

  function SplitTreeKey(k: bytes): Option<Place>
  {
    var i := IndexByte(k, SEP);
    if i == 0 || i == |k| then None else Some((k[..i], k[i + 1..]))
  }

  function ToRecord(m: Mutation): Wal.Record
  {
    var k := MakeTreeKey(m.key.0, m.key.1);
    match m.value
    case Some(v) => Wal.Record(OP_PUT, k, v)
    case None => Wal.Record(OP_DEL, k, [])
  }

  function FromRecord(r: Wal.Record): Option<Mutation>
  {
    match SplitTreeKey(r.key)
    case None => None
    case Some(place) =>
      if r.op == OP_PUT then Some(Write(place, Some(r.value)))
      else if r.op == OP_DEL then Some(Write(place, None))
      else None
  }

  /** A tree name the log can carry. */
  predicate LogName(tree: bytes)
  {
    tree != [] && SEP !in tree
  }

  /** The log gives a mutation back exactly when its tree name is non-empty
      and free of the separator. */
  lemma RecordRoundTrip(m: Mutation)
    ensures FromRecord(ToRecord(m)) == Some(m) <==> LogName(m.key.0)
  {
    var tree, key := m.key.0, m.key.1;
    var k := MakeTreeKey(tree, key);
    var i := IndexByte(k, SEP);
    assert k[|tree|] == SEP;
    assert k[..|tree|] == tree && k[|tree| + 1..] == key;
    if SEP !in tree {
      assert forall j :: 0 <= j < |tree| ==> k[j] == tree[j] && tree[j] in tree;
      assert i == |tree|;
    } else {
      var j :| 0 <= j < |tree| && tree[j] == SEP;
      assert k[j] == SEP;
      assert i < |tree|;
      assert |k[..i]| != |tree|;
    }
  }

  /** The callback of OpenEngine over all records; None is its error. */
  function FromRecords(rs: seq<Wal.Record>): Option<seq<Mutation>>
  {
    if rs == [] then Some([]) else
      var n := |rs| - 1;
      match (FromRecords(rs[..n]), FromRecord(rs[n]))
      case (Some(ms), Some(m)) => Some(ms + [m])
      case _ => None
  }

  predicate LogNames(log: seq<Mutation>)
  {
    forall i :: 0 <= i < |log| ==> LogName(log[i].key.0)
  }

  // ---------- what the bytes on disk stand for ----------

  /** All trees as one map; a missing tree and an empty one look the same. */
  ghost function Flat(trees: Snapshot.Trees): Db
  {
    var places := set t, k | t in trees && k in trees[t] :: (t, k);
    map p | p in places :: trees[p.0][p.1]
  }

  lemma FlatLookup(trees: Snapshot.Trees, t: bytes, k: bytes)
    ensures Lookup(Flat(trees), (t, k)) == if t in trees then Lookup(trees[t], k) else None
  {
  }

  // ---------- the trees in memory ----------

  function TreeOf(trees: Snapshot.Trees, name: bytes): Contents
  {
    if name in trees then trees[name] else map[]
  }

  /** mustTreeUnlocked: the tree exists from now on. */
  function Touch(trees: Snapshot.Trees, name: bytes): Snapshot.Trees
  {
    trees[name := TreeOf(trees, name)]
  }

  function SetIn(trees: Snapshot.Trees, m: Mutation): Snapshot.Trees
  {
    trees[m.key.0 := Apply(TreeOf(trees, m.key.0), Write(m.key.1, m.value))]
  }

  function TouchAll(trees: Snapshot.Trees, names: seq<bytes>): Snapshot.Trees
  {
    if names == [] then trees else Touch(TouchAll(trees, names[..|names| - 1]), names[|names| - 1])
  }

  lemma FlatSetIn(trees: Snapshot.Trees, m: Mutation)
    ensures Flat(SetIn(trees, m)) == Apply(Flat(trees), m)
  {
    var after := SetIn(trees, m);
    forall p: Place ensures Lookup(Flat(after), p) == Lookup(Apply(Flat(trees), m), p) {
      FlatLookup(after, p.0, p.1);
      FlatLookup(trees, p.0, p.1);
    }
    SameLookups(Flat(after), Apply(Flat(trees), m));
  }

  lemma FlatTouch(trees: Snapshot.Trees, name: bytes)
    ensures Flat(Touch(trees, name)) == Flat(trees)
  {
    var after := Touch(trees, name);
    forall p: Place ensures Lookup(Flat(after), p) == Lookup(Flat(trees), p) {
      FlatLookup(after, p.0, p.1);
      FlatLookup(trees, p.0, p.1);
    }
    SameLookups(Flat(after), Flat(trees));
  }

  lemma {:induction false} FlatTouchAll(trees: Snapshot.Trees, names: seq<bytes>)
    ensures Flat(TouchAll(trees, names)) == Flat(trees)
    decreases |names|
  {
    if names != [] {
      var n := |names| - 1;
      FlatTouchAll(trees, names[..n]);
      FlatTouch(TouchAll(trees, names[..n]), names[n]);
    }
  }

  /** Empty trees under the given names. */
  function Blank(names: set<bytes>): Snapshot.Trees
  {
    map n | n in names :: map[]
  }

  lemma BlankMore(names: set<bytes>, left: set<bytes>, name: bytes)
    requires name in left && left <= names
    ensures Blank(names - left)[name := map[]] == Blank(names - (left - {name}))
  {
  }

  // ---------- what the log holds ----------

  predicate Loggable(m: Mutation)
  {
    Wal.Appendable(ToRecord(m))
  }

  /** The log records give back the mutations that were logged if all their
      tree names allow it, and nothing at all if one of them is empty. */
  ghost predicate Carries(records: seq<Wal.Record>, log: seq<Mutation>)
  {
    && (LogNames(log) ==> FromRecords(records) == Some(log))
    && ((exists i :: 0 <= i < |log| && log[i].key.0 == []) ==> FromRecords(records) == None)
  }

  lemma {:induction false} FromPrefix(records: seq<Wal.Record>, log: seq<Mutation>, n: nat)
    requires FromRecords(records) == Some(log) && n <= |records|
    ensures |log| == |records| && FromRecords(records[..n]) == Some(log[..n])
    decreases |records|
  {
    if records != [] {
      var m := |records| - 1;
      var front := FromRecords(records[..m]).value;
      if n <= m {
        FromPrefix(records[..m], front, n);
        assert records[..m][..n] == records[..n] && log[..n] == front[..n];
      } else {
        FromPrefix(records[..m], front, m);
        assert records[..n] == records && log[..n] == log;
      }
    }
  }

  lemma CarriesOne(records: seq<Wal.Record>, log: seq<Mutation>, m: Mutation)
    requires Carries(records, log)
    ensures Carries(records + [ToRecord(m)], log + [m])
  {
    var rs, ms := records + [ToRecord(m)], log + [m];
    assert rs[..|records|] == records && rs[|records|] == ToRecord(m);
    RecordRoundTrip(m);
    if LogNames(ms) {
      assert ms[|log|] == m;
      forall i | 0 <= i < |log| ensures LogName(log[i].key.0) { assert ms[i] == log[i]; }
    }
    if i :| 0 <= i < |ms| && ms[i].key.0 == [] {
      if i < |log| {
        assert log[i] == ms[i];
      } else {
        assert MakeTreeKey([], m.key.1)[0] == SEP;
        assert FromRecord(ToRecord(m)) == None;
      }
    }
  }

  /** What a replay accepts can be logged again and carries itself. */
  lemma {:induction false} CarriesRead(records: seq<Wal.Record>, log: seq<Mutation>)
    requires FromRecords(records) == Some(log)
    ensures LogNames(log) && Carries(records, log)
    decreases |records|
  {
    if records != [] {
      var n := |records| - 1;
      CarriesRead(records[..n], FromRecords(records[..n]).value);
      var k := records[n].key;
      var i := IndexByte(k, SEP);
      assert k[..i] != [] && SEP !in k[..i];
    }
  }

  /** Which mutations reached the disk, and where the snapshot on disk stands:
      it holds the base and the first `at` of them, unless the last attempt to
      write it failed half way. */
  datatype History = History(base: Db, log: seq<Mutation>, at: nat, readable: bool)

  ghost predicate OnDisk(h: History, snapshot: Option<Db>, records: seq<Wal.Record>)
  {
    && h.at <= |h.log|
    && Carries(records, h.log)
    && snapshot == if h.readable then Some(ApplyAll(h.base, h.log[..h.at])) else None
  }

  lemma LogOne(h: History, snapshot: Option<Db>, records: seq<Wal.Record>, m: Mutation)
    requires OnDisk(h, snapshot, records)
    ensures OnDisk(h.(log := h.log + [m]), snapshot, records + [ToRecord(m)])
    ensures ApplyAll(h.base, h.log + [m]) == Apply(ApplyAll(h.base, h.log), m)
  {
    CarriesOne(records, h.log, m);
    assert (h.log + [m])[..h.at] == h.log[..h.at];
    ApplyOne(h.base, h.log, m);
  }

  lemma SnapshotNow(h: History, snapshot: Option<Db>, records: seq<Wal.Record>)
    requires OnDisk(h, snapshot, records)
    ensures OnDisk(h.(at := |h.log|, readable := true), Some(ApplyAll(h.base, h.log)), records)
    ensures OnDisk(h.(readable := false), None, records)
  {
    assert h.log[..|h.log|] == h.log;
  }

  lemma StartFrom(db: Db)
    ensures OnDisk(History(db, [], 0, true), Some(db), [])
    ensures ApplyAll(db, []) == db
  {
    var none: seq<Mutation> := [];
    assert none[..0] == none;
  }

  // ---------- runs of the engine ----------

  /** The engine between two operations: the trees in memory, the records in
      the log and the snapshot file. */
  datatype State = State(trees: Snapshot.Trees, records: seq<Wal.Record>, snapshot: Option<bytes>,
                         sequence: nat, closed: bool)

  const EMPTY: State := State(map[], [], None, 0, false)

  /** `file` stands for the bytes an operation leaves in snapshot.bin. A
      restore may be interrupted between replacing that file and removing the
      log, of which whole segments may be gone; the next start finds both. */
  datatype Op =
    | Tx(ms: seq<Mutation>, queued: bool, notify: bool)
    | CreateSnapshot(file: bytes)
    | RestoreSnapshot(input: bytes, file: bytes)
    | InterruptedRestore(input: bytes, file: bytes, left: seq<Wal.Record>, names: seq<bytes>)
    | Close
    | Reopen(names: seq<bytes>)

  /** One mutation of a transaction: into the log, then into its tree. A
      refused one leaves an empty tree behind when its name is new. */
  function StepState(s: State, m: Mutation): State
  {
    if Loggable(m) then s.(trees := SetIn(s.trees, m), records := s.records + [ToRecord(m)])
    else s.(trees := Touch(s.trees, m.key.0))
  }

  /** The mutations one after the other, up to the first refused one. */
  function StepAll(s: State, ms: seq<Mutation>): State
    decreases |ms|
  {
    if ms == [] then s
    else if !Loggable(ms[0]) then StepState(s, ms[0])
    else StepAll(StepState(s, ms[0]), ms[1..])
  }

  /** The same on an engine whose log file may be closed: it takes nothing then. */
  function TryStep(s: State, m: Mutation, open: bool): State
  {
    if open then StepState(s, m) else s.(trees := Touch(s.trees, m.key.0))
  }

  function TryAll(s: State, ms: seq<Mutation>, open: bool): State
    decreases |ms|
  {
    if ms == [] then s
    else if !open || !Loggable(ms[0]) then TryStep(s, ms[0], open)
    else TryAll(TryStep(s, ms[0], open), ms[1..], open)
  }

  lemma {:induction false} TryOpen(s: State, ms: seq<Mutation>)
    ensures TryAll(s, ms, true) == StepAll(s, ms)
    decreases |ms|
  {
    if ms != [] && Loggable(ms[0]) {
      TryOpen(StepState(s, ms[0]), ms[1..]);
    }
  }

  /** A transaction in progress: i mutations went through, and s is the state. */
  predicate Along(was: State, ms: seq<Mutation>, open: bool, i: nat, s: State)
  {
    && i <= |ms| && TryAll(s, ms[i..], open) == TryAll(was, ms, open)
    && forall j :: 0 <= j < i ==> open && Loggable(ms[j])
  }

  lemma AlongNext(was: State, ms: seq<Mutation>, open: bool, i: nat, s: State)
    requires i < |ms| && Along(was, ms, open, i, s)
    ensures if open && Loggable(ms[i]) then Along(was, ms, open, i + 1, TryStep(s, ms[i], open))
            else !(open && AllLoggable(ms)) && TryAll(was, ms, open) == TryStep(s, ms[i], open)
  {
    assert ms[i..][0] == ms[i] && ms[i..][1..] == ms[i + 1..];
  }

  predicate AllLoggable(ms: seq<Mutation>)
  {
    forall i :: 0 <= i < |ms| ==> Loggable(ms[i])
  }

  function TxState(s: State, ms: seq<Mutation>, queued: bool, notify: bool): State
  {
    if s.closed || !queued || ms == [] then s else
      var t := StepAll(s, ms);
      if notify && AllLoggable(ms) then t.(sequence := t.sequence + 1) else t
  }

  /** What WriteSnapshot may leave behind for these trees. */
  ghost predicate Leaves(file: bytes, trees: Snapshot.Trees)
  {
    Snapshot.Parse(file) == if Snapshot.Writable(trees) then Snapshot.Got(trees, []) else Snapshot.Short
  }

  /** The trees a restore puts in place: those of the file over an empty tree
      for every name in use; None when it refuses. */
  ghost function MergedTrees(s: State, input: bytes): Option<Snapshot.Trees>
  {
    if s.closed || Snapshot.Parse(input) == Snapshot.Short then None
    else Some(Blank(s.trees.Keys) + Snapshot.Parse(input).value)
  }

  ghost predicate CanRestore(s: State, input: bytes)
  {
    MergedTrees(s, input).Some? && Snapshot.Writable(MergedTrees(s, input).value)
  }

  ghost function RestoreState(s: State, input: bytes, file: bytes): State
  {
    match MergedTrees(s, input)
    case None => s
    case Some(merged) =>
      if Snapshot.Writable(merged) then s.(trees := merged, records := [], snapshot := Some(file))
      else s.(snapshot := Some(file))
  }

  /** OpenEngine's replay callback over the records; None is its error. */
  function ReplayInto(trees: Snapshot.Trees, rs: seq<Wal.Record>): Option<Snapshot.Trees>
    decreases |rs|
  {
    if rs == [] then Some(trees) else
      match FromRecord(rs[0])
      case None => None
      case Some(m) => ReplayInto(SetIn(trees, m), rs[1..])
  }

  lemma {:induction false} ReplayIntoOne(trees: Snapshot.Trees, rs: seq<Wal.Record>, r: Wal.Record)
    ensures ReplayInto(trees, rs + [r]) ==
            match (ReplayInto(trees, rs), FromRecord(r))
            case (Some(t), Some(m)) => Some(SetIn(t, m))
            case _ => None
    decreases |rs|
  {
    if rs == [] {
      assert [r][1..] == [];
    } else {
      assert (rs + [r])[1..] == rs[1..] + [r];
      match FromRecord(rs[0])
      case None =>
      case Some(m) => ReplayIntoOne(SetIn(trees, m), rs[1..], r);
    }
  }

  /** Replaying into trees, seen on the flat map. */
  lemma {:induction false} ReplayIntoFlat(trees: Snapshot.Trees, rs: seq<Wal.Record>)
    ensures ReplayInto(trees, rs).Some? <==> FromRecords(rs).Some?
    ensures ReplayInto(trees, rs).Some? ==>
              Flat(ReplayInto(trees, rs).value) == ApplyAll(Flat(trees), FromRecords(rs).value)
    decreases |rs|
  {
    if rs != [] {
      var n := |rs| - 1;
      assert rs == rs[..n] + [rs[n]];
      ReplayIntoOne(trees, rs[..n], rs[n]);
      ReplayIntoFlat(trees, rs[..n]);
      match (ReplayInto(trees, rs[..n]), FromRecord(rs[n]))
      case (Some(t), Some(m)) =>
        FlatSetIn(t, m);
        ApplyOne(Flat(trees), FromRecords(rs[..n]).value, m);
      case _ =>
    }
  }

  /** The trees of a snapshot file; no file is the same as no trees. */
  function Loaded(snapshot: Option<bytes>): Option<Snapshot.Trees>
  {
    match snapshot
    case None => Some(map[])
    case Some(file) =>
      match Snapshot.Parse(file)
      case Short => None
      case Got(trees, _) => Some(trees)
  }

  /** The trees OpenEngine builds from a snapshot file and log records. */
  function OpenedTrees(snapshot: Option<bytes>, names: seq<bytes>, records: seq<Wal.Record>): Option<Snapshot.Trees>
  {
    match Loaded(snapshot)
    case None => None
    case Some(start) => ReplayInto(TouchAll(start, names), records)
  }

  ghost predicate Next(s: State, op: Op, t: State)
  {
    match op
    case Tx(ms, queued, notify) => t == TxState(s, ms, queued, notify)
    case CreateSnapshot(file) => Leaves(file, s.trees) && t == s.(snapshot := Some(file))
    case RestoreSnapshot(input, file) =>
      && (MergedTrees(s, input).Some? ==> Leaves(file, MergedTrees(s, input).value))
      && t == RestoreState(s, input, file)
    case InterruptedRestore(input, file, left, names) =>
      && CanRestore(s, input) && Leaves(file, MergedTrees(s, input).value)
      && (forall i :: 0 <= i < |left| ==> left[i] in s.records)
      && var back := OpenedTrees(Some(file), names, left);
         back.Some? && t == State(back.value, left, Some(file), 0, false)
    case Close => t == s.(closed := true)
    case Reopen(names) =>
      var back := OpenedTrees(s.snapshot, names, s.records);
      back.Some? && t == State(back.value, s.records, s.snapshot, 0, false)
  }

  /** A run from an empty directory; states[i] is the state before ops[i]. */
  ghost predicate IsRun(states: seq<State>, ops: seq<Op>)
  {
    && |states| == |ops| + 1
    && states[0] == EMPTY
    && forall i :: 0 <= i < |ops| ==> Next(states[i], ops[i], states[i + 1])
  }

  /** What the callers have to respect: non-empty tree names without the
      separator in transactions. */
  predicate NamesFit(op: Op)
  {
    op.Tx? ==> LogNames(op.ms)
  }

  /** The trees an operation writes to snapshot.bin; None when it writes none. */
  ghost function WrittenTrees(s: State, op: Op): Option<Snapshot.Trees>
  {
    match op
    case CreateSnapshot(_) => Some(s.trees)
    case RestoreSnapshot(input, _) => MergedTrees(s, input)
    case InterruptedRestore(input, _, _, _) => MergedTrees(s, input)
    case _ => None
  }

  /** The last operation of a run that wrote snapshot.bin found trees that fit
      the length fields of the file. */
  ghost predicate LastWriteFits(states: seq<State>, ops: seq<Op>)
    requires |states| > |ops|
  {
    if ops == [] then true
    else
      var n := |ops| - 1;
      var written := WrittenTrees(states[n], ops[n]);
      if written.Some? then Snapshot.Writable(written.value) else LastWriteFits(states, ops[..n])
  }

  ghost function SnapshotDb(snapshot: Option<bytes>): Option<Db>
  {
    match Loaded(snapshot)
    case None => None
    case Some(trees) => Some(Flat(trees))
  }

  ghost predicate Durable(h: History, s: State)
  {
    && OnDisk(h, SnapshotDb(s.snapshot), s.records)
    && Flat(s.trees) == ApplyAll(h.base, h.log)
  }

  /** Reopening a durable state gives back its contents, or an error that one
      of two earlier mistakes explains. */
  lemma ReopenDurable(h: History, s: State, names: seq<bytes>)
    requires Durable(h, s)
    ensures h.readable && LogNames(h.log) ==>
              var back := OpenedTrees(s.snapshot, names, s.records);
              back.Some? && Flat(back.value) == Flat(s.trees)
    ensures !h.readable || (exists i :: 0 <= i < |h.log| && h.log[i].key.0 == []) ==>
              OpenedTrees(s.snapshot, names, s.records) == None
  {
    match Loaded(s.snapshot)
    case None =>
    case Some(start) =>
      FlatTouchAll(start, names);
      ReplayIntoFlat(TouchAll(start, names), s.records);
      if h.readable && LogNames(h.log) {
        ReplayOver(h.base, h.log, 0, h.at, |h.log|);
        assert h.log[0..|h.log|] == h.log == h.log[..|h.log|];
      }
  }

  lemma DurableOne(h: History, s: State, m: Mutation)
    requires Durable(h, s) && Loggable(m)
    ensures Durable(h.(log := h.log + [m]), StepState(s, m))
  {
    LogOne(h, SnapshotDb(s.snapshot), s.records, m);
    FlatSetIn(s.trees, m);
  }

  lemma {:induction false} DurableSteps(h: History, s: State, ms: seq<Mutation>) returns (h': History)
    requires Durable(h, s)
    ensures Durable(h', StepAll(s, ms)) && h'.readable == h.readable
    ensures LogNames(h.log) && LogNames(ms) ==> LogNames(h'.log)
    decreases |ms|
  {
    if ms == [] {
      return h;
    }
    if !Loggable(ms[0]) {
      FlatTouch(s.trees, ms[0].key.0);
      return h;
    }
    DurableOne(h, s, ms[0]);
    h' := DurableSteps(h.(log := h.log + [ms[0]]), StepState(s, ms[0]), ms[1..]);
  }

  lemma DurableTx(h: History, s: State, ms: seq<Mutation>, queued: bool, notify: bool) returns (h': History)
    requires Durable(h, s)
    ensures Durable(h', TxState(s, ms, queued, notify)) && h'.readable == h.readable
    ensures LogNames(h.log) && LogNames(ms) ==> LogNames(h'.log)
  {
    if s.closed || !queued || ms == [] {
      return h;
    }
    h' := DurableSteps(h, s, ms);
  }

  lemma DurableSnapshot(h: History, s: State, file: bytes) returns (h': History)
    requires Durable(h, s) && Leaves(file, s.trees)
    ensures Durable(h', s.(snapshot := Some(file))) && h'.log == h.log
    ensures h'.readable == Snapshot.Writable(s.trees)
  {
    SnapshotNow(h, SnapshotDb(s.snapshot), s.records);
    if Snapshot.Writable(s.trees) {
      h' := h.(at := |h.log|, readable := true);
    } else {
      h' := h.(readable := false);
    }
  }

  /** A restore that works starts a new history from the merged trees. */
  lemma RestoredAnew(s: State, merged: Snapshot.Trees, file: bytes)
    requires Snapshot.Writable(merged) && Leaves(file, merged)
    ensures Durable(History(Flat(merged), [], 0, true), s.(trees := merged, records := [], snapshot := Some(file)))
  {
    StartFrom(Flat(merged));
  }

  /** One whose merged trees do not fit the file leaves the engine as it was. */
  lemma RestoredBadly(h: History, s: State, merged: Snapshot.Trees, file: bytes)
    requires Durable(h, s) && !Snapshot.Writable(merged) && Leaves(file, merged)
    ensures Durable(h.(readable := false), s.(snapshot := Some(file)))
  {
    SnapshotNow(h, SnapshotDb(s.snapshot), s.records);
  }

  lemma DurableRestore(h: History, s: State, input: bytes, file: bytes) returns (h': History)
    requires Durable(h, s) && Next(s, RestoreSnapshot(input, file), RestoreState(s, input, file))
    ensures Durable(h', RestoreState(s, input, file))
    ensures var written := WrittenTrees(s, RestoreSnapshot(input, file));
            h'.readable <==> if written.Some? then Snapshot.Writable(written.value) else h.readable
    ensures LogNames(h.log) ==> LogNames(h'.log)
  {
    if MergedTrees(s, input) == None {
      return h;
    }
    var merged := MergedTrees(s, input).value;
    if Snapshot.Writable(merged) {
      RestoredAnew(s, merged, file);
      h' := History(Flat(merged), [], 0, true);
    } else {
      RestoredBadly(h, s, merged, file);
      h' := h.(readable := false);
    }
  }

  /** What a start makes of the file of a restore and of what is left of the
      log: the history goes on from the merged trees with the mutations left. */
  lemma RestoredUnder(merged: Snapshot.Trees, file: bytes, left: seq<Wal.Record>, names: seq<bytes>)
    requires Snapshot.Writable(merged) && Leaves(file, merged) && FromRecords(left).Some?
    ensures var ms, back := FromRecords(left).value, OpenedTrees(Some(file), names, left);
            && back.Some? && Flat(back.value) == ApplyAll(Flat(merged), ms) && LogNames(ms)
            && Durable(History(Flat(merged), ms, 0, true), State(back.value, left, Some(file), 0, false))
  {
    FlatTouchAll(merged, names);
    ReplayIntoFlat(TouchAll(merged, names), left);
    CarriesRead(left, FromRecords(left).value);
    assert FromRecords(left).value[..0] == [];
  }

  lemma DurableInterrupted(s: State, input: bytes, file: bytes, left: seq<Wal.Record>, names: seq<bytes>, t: State)
    returns (h': History)
    requires Next(s, InterruptedRestore(input, file, left, names), t)
    ensures Durable(h', t) && LogNames(h'.log) && h'.readable
  {
    var merged := MergedTrees(s, input).value;
    ReplayIntoFlat(TouchAll(merged, names), left);
    RestoredUnder(merged, file, left, names);
    h' := History(Flat(merged), FromRecords(left).value, 0, true);
  }

  lemma DurableStep(h: History, s: State, op: Op, t: State) returns (h': History)
    requires Durable(h, s) && Next(s, op, t) && NamesFit(op) && LogNames(h.log)
    ensures Durable(h', t) && LogNames(h'.log)
    ensures var written := WrittenTrees(s, op);
            h'.readable <==> if written.Some? then Snapshot.Writable(written.value) else h.readable
  {
    match op
    case Tx(ms, queued, notify) => h' := DurableTx(h, s, ms, queued, notify);
    case CreateSnapshot(file) => h' := DurableSnapshot(h, s, file);
    case RestoreSnapshot(input, file) => h' := DurableRestore(h, s, input, file);
    case InterruptedRestore(input, file, left, names) => h' := DurableInterrupted(s, input, file, left, names, t);
    case Close => h' := h;
    case Reopen(names) =>
      ReopenDurable(h, s, names);
      h' := h;
  }

  lemma {:induction false} DurableRun(states: seq<State>, ops: seq<Op>) returns (h: History)
    requires IsRun(states, ops)
    requires forall i :: 0 <= i < |ops| ==> NamesFit(ops[i])
    ensures Durable(h, states[|ops|]) && LogNames(h.log)
    ensures h.readable <==> LastWriteFits(states, ops)
    decreases |ops|
  {
    if ops == [] {
      StartFrom(map[]);
      assert Flat(map[]) == map[];
      h := History(map[], [], 0, true);
    } else {
      var n := |ops| - 1;
      h := DurableRun(states[..n + 1], ops[..n]);
      SameWrites(states[..n + 1], states, ops[..n]);
      h := DurableStep(h, states[n], ops[n], states[n + 1]);
    }
  }

  lemma {:induction false} SameWrites(front: seq<State>, states: seq<State>, ops: seq<Op>)
    requires |ops| < |front| && front <= states
    ensures LastWriteFits(front, ops) <==> LastWriteFits(states, ops)
  {
    if ops != [] {
      SameWrites(front, states, ops[..|ops| - 1]);
    }
  }

  /** Reopen equals live: after any run of transactions, snapshots, restores
      and reopenings, failed snapshots included, the directory opens if and
      only if the last write of the snapshot file found trees that fit it; and
      then loading the snapshot and replaying the whole log over it gives every
      tree its live contents. */
  lemma ReopenEqualsLive(states: seq<State>, ops: seq<Op>, names: seq<bytes>)
    requires IsRun(states, ops)
    requires forall i :: 0 <= i < |ops| ==> NamesFit(ops[i])
    ensures var last := states[|ops|];
            var back := OpenedTrees(last.snapshot, names, last.records);
            && (back.Some? <==> LastWriteFits(states, ops))
            && (back.Some? ==> Flat(back.value) == Flat(last.trees))
  {
    var h := DurableRun(states, ops);
    ReopenDurable(h, states[|ops|], names);
  }

  // ---------- crashes ----------

  lemma {:induction false} SomeAreRead(records: seq<Wal.Record>, left: seq<Wal.Record>)
    requires FromRecords(records).Some? && forall i :: 0 <= i < |left| ==> left[i] in records
    ensures FromRecords(left).Some?
    decreases |left|
  {
    if left != [] {
      var n := |left| - 1;
      SomeAreRead(records, left[..n]);
      ReadsEach(records, left[n]);
    }
  }

  lemma {:induction false} ReadsEach(records: seq<Wal.Record>, r: Wal.Record)
    requires FromRecords(records).Some? && r in records
    ensures FromRecord(r).Some?
    decreases |records|
  {
    var n := |records| - 1;
    if r != records[n] {
      ReadsEach(records[..n], r);
    }
  }

  /** A restore interrupted after snapshot.bin was replaced and before the log
      is gone is neither done nor undone: the next start succeeds, and replays
      what is left of the old log over the restored trees. */
  lemma InterruptedRestoreOpens(h: History, s: State, input: bytes, file: bytes, left: seq<Wal.Record>,
                                names: seq<bytes>)
    requires Durable(h, s) && LogNames(h.log) && CanRestore(s, input) && Leaves(file, MergedTrees(s, input).value)
    requires forall i :: 0 <= i < |left| ==> left[i] in s.records
    ensures FromRecords(left).Some?
    ensures var back := OpenedTrees(Some(file), names, left);
            && back.Some?
            && Flat(back.value) == ApplyAll(Flat(MergedTrees(s, input).value), FromRecords(left).value)
  {
    SomeAreRead(s.records, left);
    RestoredUnder(MergedTrees(s, input).value, file, left, names);
  }

  /** With the whole log left, the directory opens to the contents from before
      the restore if and only if the restored trees agree, wherever the log
      writes nothing, with the base the log started from. */
  lemma InterruptedRestoreIff(h: History, s: State, input: bytes, file: bytes, names: seq<bytes>)
    requires Durable(h, s) && LogNames(h.log) && CanRestore(s, input) && Leaves(file, MergedTrees(s, input).value)
    ensures var restored, back := Flat(MergedTrees(s, input).value), OpenedTrees(Some(file), names, s.records);
            && back.Some?
            && (Flat(back.value) == Flat(s.trees) <==> AgreeElsewhere(restored, h.base, h.log))
  {
    WholeLogLeft(h, s, input, file, names);
    SameReplayIff(Flat(MergedTrees(s, input).value), h.base, h.log);
  }

  lemma WholeLogLeft(h: History, s: State, input: bytes, file: bytes, names: seq<bytes>)
    requires Durable(h, s) && LogNames(h.log) && CanRestore(s, input) && Leaves(file, MergedTrees(s, input).value)
    ensures var back := OpenedTrees(Some(file), names, s.records);
            back.Some? && Flat(back.value) == ApplyAll(Flat(MergedTrees(s, input).value), h.log)
    ensures Flat(s.trees) == ApplyAll(h.base, h.log)
  {
    RestoredUnder(MergedTrees(s, input).value, file, s.records, names);
  }


  /** A log that lost its last records: opening succeeds, and gives the
      snapshot with the records that are left replayed over it. Unless more was
      lost than came after the snapshot, that is the state after exactly those
      mutations. */
  lemma CrashRecovery(h: History, s: State, names: seq<bytes>, n: nat)
    requires Durable(h, s) && h.readable && LogNames(h.log) && n <= |s.records|
    ensures |h.log| == |s.records|
    ensures var back := OpenedTrees(s.snapshot, names, s.records[..n]);
            && back.Some?
            && Flat(back.value) == ApplyAll(ApplyAll(h.base, h.log[..h.at]), h.log[..n])
            && (h.at <= n ==> Flat(back.value) == ApplyAll(h.base, h.log[..n]))
  {
    FromPrefix(s.records, h.log, n);
    var start := Loaded(s.snapshot).value;
    FlatTouchAll(start, names);
    ReplayIntoFlat(TouchAll(start, names), s.records[..n]);
    if h.at <= n {
      ReplayOver(h.base, h.log, 0, h.at, n);
      assert h.log[0..n] == h.log[..n];
    }
  }

  /** Every crash that cuts the last segment of a clean log, after every run
      whose snapshot file can be read: replay ends without an error after the
      complete records, the directory opens, and each tree holds what the
      mutations of those records left over the snapshot. */
  lemma CrashReopens(states: seq<State>, ops: seq<Op>, names: seq<bytes>, crc: Wal.Checksum, files: seq<bytes>,
                     layout: seq<seq<Wal.Record>>, last: seq<Wal.Record>, cut: nat)
    returns (h: History, n: nat)
    requires IsRun(states, ops) && LastWriteFits(states, ops)
    requires forall i :: 0 <= i < |ops| ==> NamesFit(ops[i])
    requires Wal.Laid(crc, files, layout) && Wal.AllAppendable(last) && cut <= |Wal.Segment(crc, last)|
    requires states[|ops|].records == Wal.Flatten(layout) + last
    ensures Durable(h, states[|ops|]) && |h.log| == |states[|ops|].records| >= n >= |Wal.Flatten(layout)|
    ensures Wal.ReplayAll(crc, files + [Wal.Segment(crc, last)[..cut]])
            == Wal.Replayed(states[|ops|].records[..n], true)
    ensures var back := OpenedTrees(states[|ops|].snapshot, names, states[|ops|].records[..n]);
            && back.Some? && Flat(back.value) == ApplyAll(ApplyAll(h.base, h.log[..h.at]), h.log[..n])
            && (h.at <= n ==> Flat(back.value) == ApplyAll(h.base, h.log[..n]))
            && (cut == |Wal.Segment(crc, last)| ==> Flat(back.value) == Flat(states[|ops|].trees))
  {
    var s := states[|ops|];
    h := DurableRun(states, ops);
    Wal.TornTail(crc, files, layout, last, cut);
    Wal.CompletePrefix(crc, last, cut);
    var whole, rest := Wal.Flatten(layout), Wal.Complete(crc, last, cut);
    n := |whole| + |rest|;
    assert s.records[..n] == whole + rest;
    CrashRecovery(h, s, names, n);
    if cut == |Wal.Segment(crc, last)| {
      Wal.UncutIsComplete(crc, last);
      assert h.log[..n] == h.log;
    }
  }

  /** For a single put the tree name decides: reopening gives back the row
      exactly when the name is non-empty and free of the separator. */
  lemma OnePutReopens(m: Mutation)
    requires m.value.Some? && Loggable(m)
    ensures var s := TxState(EMPTY, [m], true, true);
            var back := OpenedTrees(s.snapshot, [], s.records);
            && Flat(s.trees) == map[m.key := m.value.value]
            && (back.Some? && Flat(back.value) == Flat(s.trees) <==> LogName(m.key.0))
  {
    var s := TxState(EMPTY, [m], true, true);
    assert [m][1..] == [] && [] + [ToRecord(m)] == [ToRecord(m)];
    assert StepAll(EMPTY, [m]) == StepAll(StepState(EMPTY, m), [m][1..]) == StepState(EMPTY, m);
    FlatSetIn(map[], m);
    assert Flat(map[]) == map[];
    RecordRoundTrip(m);
    var rs := [ToRecord(m)];
    assert rs[1..] == [];
    match FromRecord(rs[0])
    case None =>
    case Some(back) =>
      assert ReplayInto(map[], rs) == ReplayInto(SetIn(map[], back), rs[1..]) == Some(SetIn(map[], back));
      FlatSetIn(map[], back);
      if back != m {
        assert back.key in Apply(map[], back) && back.key !in Apply(map[], m);
      }
  }

  /** A snapshot that could not be written is fatal: whatever transactions
      follow, no open succeeds until another write of the file does. */
  lemma {:induction false} UnwritableSnapshotIsFatal(states: seq<State>, ops: seq<Op>, i: nat, names: seq<bytes>)
    requires IsRun(states, ops) && (forall j :: 0 <= j < |ops| ==> NamesFit(ops[j])) && i < |ops|
    requires var written := WrittenTrees(states[i], ops[i]); written.Some? && !Snapshot.Writable(written.value)
    requires forall j :: i < j < |ops| ==> WrittenTrees(states[j], ops[j]) == None
    ensures OpenedTrees(states[|ops|].snapshot, names, states[|ops|].records) == None
  {
    UnfitStays(states, ops, i);
    ReopenEqualsLive(states, ops, names);
  }

  lemma {:induction false} UnfitStays(states: seq<State>, ops: seq<Op>, i: nat)
    requires |states| > |ops| > i
    requires var written := WrittenTrees(states[i], ops[i]); written.Some? && !Snapshot.Writable(written.value)
    requires forall j :: i < j < |ops| ==> WrittenTrees(states[j], ops[j]) == None
    ensures !LastWriteFits(states, ops)
    decreases |ops|
  {
    if i < |ops| - 1 {
      UnfitStays(states, ops[..|ops| - 1], i);
    }
  }

  /** A tree name too long for the snapshot file gets into memory although the
      log refuses it: one such put and one snapshot attempt, and the directory
      can no longer be back. */
  lemma LongNameLosesSnapshot(name: bytes, key: bytes, value: bytes, file: bytes)
    requires |name| >= U16_LIMIT
    ensures var s := TxState(EMPTY, [Write((name, key), Some(value))], true, true);
            && Flat(s.trees) == map[] && s.records == []
            && (Leaves(file, s.trees) ==> OpenedTrees(Some(file), [], s.records) == None)
  {
    var ms: seq<Mutation> := [Write((name, key), Some(value))];
    assert |ToRecord(ms[0]).key| >= U16_LIMIT;
    assert !Loggable(ms[0]);
    var s := TxState(EMPTY, ms, true, true);
    assert s.trees == Touch(map[], name);
    FlatTouch(map[], name);
    assert Flat(map[]) == map[];
    assert name in s.trees && s.trees[name] == map[];
    assert !Snapshot.Writable(s.trees);
  }

  lemma MirrorOverlay(a: map<bytes, Tree>, va: Snapshot.Trees, ra: set<Tree>,
                      b: map<bytes, Tree>, vb: Snapshot.Trees, rb: set<Tree>)
    requires Snapshot.Mirrors(a, va, ra) && Snapshot.Mirrors(b, vb, rb)
    ensures Snapshot.Mirrors(a + b, va + vb, ra + rb)
  {
  }

  lemma TouchThenSet(trees: Snapshot.Trees, m: Mutation)
    ensures SetIn(Touch(trees, m.key.0), m) == SetIn(trees, m)
  {
  }

  /** A transaction on an engine whose log file is closed: its first mutation
      is refused after its tree was made. */
  function ClosedLogTx(s: State, ms: seq<Mutation>, queued: bool): State
  {
    if s.closed || !queued || ms == [] then s else s.(trees := Touch(s.trees, ms[0].key.0))
  }

  /** How the last part of a restore ends: with a new log, or with an error
      from closing, removing or reopening it, which leaves these segments. */
  datatype LogFate = Renewed | Stuck(left: seq<bytes>)

  // ---------- the engine object ----------

  class Engine {
    var trees: map<bytes, Tree>
    var wal: Wal.Log
    var snapshotFile: Option<bytes>
    var sequence: nat
    var closed: bool
    var logOpen: bool  // false after a restore that failed over the log
    ghost var view: Snapshot.Trees  // what the tree objects hold
    ghost var repr: set<Tree>

    ghost predicate Valid()
      reads this, wal, repr
    {
      Snapshot.Mirrors(trees, view, repr) && wal.Valid()
    }

    ghost function Now(): State
      reads this, wal
    {
      State(view, wal.records, snapshotFile, sequence, closed)
    }

    /** An engine with these trees, this log and this snapshot file. */
    constructor (trees: map<bytes, Tree>, ghost view: Snapshot.Trees, ghost repr: set<Tree>,
                 wal: Wal.Log, snapshotFile: Option<bytes>)
      requires Snapshot.Mirrors(trees, view, repr) && wal.Valid()
      ensures Valid() && this.repr == repr && this.wal == wal && logOpen
      ensures Now() == State(view, wal.records, snapshotFile, 0, false)
    {
      this.trees, this.view, this.repr := trees, view, repr;
      this.wal := wal;
      this.snapshotFile := snapshotFile;
      sequence, closed, logOpen := 0, false, true;
    }

    method MustTree(name: bytes) returns (t: Tree)
      requires Snapshot.Mirrors(trees, view, repr)
      modifies this`trees, this`view, this`repr
      ensures Snapshot.Mirrors(trees, view, repr) && view == Touch(old(view), name)
      ensures name in trees && trees[name] == t && fresh(repr - old(repr))
    {
      if name in trees {
        assert Touch(view, name) == view;
        return trees[name];
      }
      t := new Tree(name);
      Snapshot.MirrorAdd(trees, view, repr, name, t);
      trees, view, repr := trees[name := t], view[name := map[]], repr + {t};
    }

    /** Puts or deletes one row of a tree that exists. */
    method SetRow(m: Mutation)
      requires Snapshot.Mirrors(trees, view, repr) && m.key.0 in trees
      modifies repr, this`view
      ensures Snapshot.Mirrors(trees, view, repr)
      ensures view == SetIn(old(view), m)
    {
      var t := trees[m.key.0];
      if m.value.Some? {
        t.Set(m.key.1, m.value.value);
      } else {
        var _ := t.Delete(m.key.1);
      }
      view := SetIn(view, m);
    }

    /** One record of a replay. */
    method Redo(m: Mutation)
      requires Snapshot.Mirrors(trees, view, repr)
      modifies this`trees, this`view, this`repr, repr
      ensures Snapshot.Mirrors(trees, view, repr) && fresh(repr - old(repr))
      ensures view == SetIn(old(view), m)
    {
      var t := MustTree(m.key.0);
      SetRow(m);
      TouchThenSet(old(view), m);
    }

    /** The tree of a mutation looked up or made, then the record appended. */
    method LogFirst(m: Mutation) returns (ok: bool)
      requires Valid()
      modifies this`trees, this`view, this`repr, wal
      ensures Valid() && fresh(repr - old(repr)) && m.key.0 in trees && (old(wal.Clean()) ==> wal.Clean())
      ensures ok <==> logOpen && Loggable(m)
      ensures Now() == old(Now()).(trees := Touch(old(view), m.key.0),
                                   records := if ok then old(wal.records) + [ToRecord(m)] else old(wal.records))
    {
      var t := MustTree(m.key.0);
      if !logOpen {
        return false;
      }
      ok := wal.Append(ToRecord(m));
    }

    /** One mutation of a transaction: log first, then memory. */
    method Step(m: Mutation) returns (ok: bool)
      requires Valid()
      modifies this`trees, this`view, this`repr, wal, repr
      ensures Valid() && fresh(repr - old(repr)) && (old(wal.Clean()) ==> wal.Clean())
      ensures ok <==> logOpen && Loggable(m)
      ensures Now() == TryStep(old(Now()), m, logOpen)
    {
      TouchThenSet(view, m);
      ok := LogFirst(m);
      if ok {
        SetRow(m);
      }
    }

    /** The loop of a transaction. */
    method Steps(ms: seq<Mutation>) returns (ok: bool)
      requires Valid() && ms != []
      modifies this`trees, this`view, this`repr, wal, repr
      ensures Valid() && fresh(repr - old(repr)) && (old(wal.Clean()) ==> wal.Clean())
      ensures ok <==> logOpen && AllLoggable(ms)
      ensures Now() == TryAll(old(Now()), ms, logOpen)
    {
      ghost var was := Now();
      ghost var s := was;
      assert ms[0..] == ms;
      ok := true;
      for i := 0 to |ms|
        invariant Valid() && fresh(repr - old(repr)) && (old(wal.Clean()) ==> wal.Clean()) && ok
        invariant Now() == s && Along(was, ms, logOpen, i, s) && (i > 0 ==> logOpen)
      {
        AlongNext(was, ms, logOpen, i, s);
        s := TryStep(s, ms[i], logOpen);
        ok := Step(ms[i]);
        if !ok {
          return;
        }
      }
    }

    /** Tx and TxSilent: the mutations a function queued, unless it failed. */
    method Tx(ms: seq<Mutation>, queued: bool, notify: bool) returns (ok: bool)
      requires Valid()
      modifies this`trees, this`view, this`repr, this`sequence, wal, repr
      ensures Valid() && fresh(repr - old(repr)) && (old(wal.Clean()) ==> wal.Clean())
      ensures Now() == if logOpen then TxState(old(Now()), ms, queued, notify)
                       else ClosedLogTx(old(Now()), ms, queued)
      ensures ok <==> !closed && queued && AllLoggable(ms) && (logOpen || ms == [])
    {
      if closed {
        return false;
      }
      if !queued {
        return false;
      }
      if ms == [] {
        return true;
      }
      TryOpen(Now(), ms);
      ok := Steps(ms);
      if ok && notify {
        sequence := sequence + 1;
      }
    }

    /** Engine.Get: a missing tree and a missing row are both not found. */
    method Get(tree: bytes, key: bytes) returns (value: bytes, found: bool)
      requires Valid()
      ensures found <==> (tree, key) in Flat(view)
      ensures found ==> value == Flat(view)[(tree, key)]
    {
      FlatLookup(view, tree, key);
      if tree !in trees {
        return [], false;
      }
      value, found := trees[tree].Get(key);
    }

    /** Engine.Iterate: the rows of one tree in order, between two bounds. */
    method Iterate(tree: bytes, start: bytes, end: bytes, more: Row -> bool) returns (seen: seq<Row>, found: bool)
      requires Valid()
      ensures found <==> tree in view
      ensures found ==> seen == Visited(Scan(view[tree], start, end), more)
    {
      if tree !in trees {
        return [], false;
      }
      seen := trees[tree].Iterate(start, end, more);
      found := true;
    }

    /** WriteSnapshot into this engine's snapshot.bin. */
    method Save(merged: map<bytes, Tree>, ghost both: Snapshot.Trees, ghost objects: set<Tree>, flushed: nat)
      returns (ok: bool)
      requires Valid() && Snapshot.Mirrors(merged, both, objects)
      modifies this`snapshotFile
      ensures Valid()
      ensures ok <==> Snapshot.Writable(both)
      ensures snapshotFile.Some? && Leaves(snapshotFile.value, both)
    {
      var file;
      file, ok := Snapshot.WriteSnapshot(merged, both, objects, flushed);
      snapshotFile := Some(file);
    }

    method CreateSnapshot(flushed: nat) returns (ok: bool)
      requires Valid()
      modifies this`snapshotFile
      ensures Valid()
      ensures ok <==> Snapshot.Writable(view)
      ensures snapshotFile.Some? && Next(old(Now()), Op.CreateSnapshot(snapshotFile.value), Now())
    {
      ok := Save(trees, view, repr, flushed);
    }

    /** An empty tree for every name in use. */
    method BlankTrees() returns (merged: map<bytes, Tree>, ghost objects: set<Tree>)
      requires Snapshot.Mirrors(trees, view, repr)
      ensures fresh(objects) && Snapshot.Mirrors(merged, Blank(view.Keys), objects)
    {
      merged, objects := map[], {};
      var left := trees.Keys;
      while left != {}
        invariant left <= trees.Keys
        invariant fresh(objects) && Snapshot.Mirrors(merged, Blank(trees.Keys - left), objects)
      {
        var name :| name in left;
        var t := new Tree(name);
        Snapshot.MirrorAdd(merged, Blank(trees.Keys - left), objects, name, t);
        BlankMore(trees.Keys, left, name);
        merged, objects := merged[name := t], objects + {t};
        left := left - {name};
      }
      assert trees.Keys - {} == view.Keys;
    }

    /** The trees of a snapshot file over an empty tree for every name in use. */
    method Merged(input: bytes)
      returns (ok: bool, merged: map<bytes, Tree>, ghost both: Snapshot.Trees, ghost objects: set<Tree>)
      requires Snapshot.Mirrors(trees, view, repr)
      ensures ok <==> MergedTrees(Now(), input).Some?
      ensures ok ==> Some(both) == MergedTrees(Now(), input)
      ensures ok ==> fresh(objects) && Snapshot.Mirrors(merged, both, objects)
    {
      var read, fromFile, readObjects := Snapshot.ReadSnapshot(input);
      merged, both, objects := map[], map[], {};
      if !read {
        return false, merged, both, objects;
      }
      if closed {
        return false, merged, both, objects;
      }
      merged, objects := BlankTrees();
      both := Blank(view.Keys) + Snapshot.Parse(input).value;
      MirrorOverlay(merged, Blank(view.Keys), objects, fromFile, Snapshot.Parse(input).value, readObjects);
      return true, merged + fromFile, both, objects + readObjects;
    }

    /** The last lines of RestoreSnapshot: an empty log, then the other trees;
        or an error, after which the log files are what is left of them. */
    method Install(merged: map<bytes, Tree>, ghost both: Snapshot.Trees, ghost objects: set<Tree>, fate: LogFate)
      returns (ok: bool)
      requires Valid() && Snapshot.Mirrors(merged, both, objects)
      modifies this`trees, this`view, this`repr, this`wal, this`logOpen
      ensures Valid() && (ok <==> old(logOpen) && fate == Renewed) && logOpen == ok
      ensures ok ==> repr == objects && fresh(wal) && wal.Clean()
                     && Now() == State(both, [], snapshotFile, sequence, closed)
      ensures !ok ==> repr == old(repr) && Now() == old(Now()).(records := wal.records)
      ensures old(logOpen) && fate.Stuck? ==>
                fresh(wal) && wal.records == Wal.ReplayAll(old(wal).crc, fate.left).records
      ensures !old(logOpen) ==> wal == old(wal)
    {
      if !logOpen {
        return false;
      }
      if fate.Stuck? {
        logOpen := false;
        wal := new Wal.Log(wal.crc, wal.segmentSize, fate.left, []);
        return false;
      }
      wal := new Wal.Log(wal.crc, wal.segmentSize, [], []);
      trees, view, repr := merged, both, objects;
      return true;
    }

    /** The new snapshot.bin, then the new log and the trees. */
    method Replace(merged: map<bytes, Tree>, ghost both: Snapshot.Trees, ghost objects: set<Tree>, flushed: nat,
                   fate: LogFate)
      returns (ok: bool)
      requires Valid() && Snapshot.Mirrors(merged, both, objects)
      modifies this`trees, this`view, this`repr, this`wal, this`snapshotFile, this`logOpen
      ensures Valid() && (repr == old(repr) || repr == objects) && (wal == old(wal) || fresh(wal))
      ensures snapshotFile.Some? && Leaves(snapshotFile.value, both)
      ensures ok <==> Snapshot.Writable(both) && old(logOpen) && fate == Renewed
      ensures ok ==> wal.Clean() && Now() == State(both, [], snapshotFile, sequence, closed)
      ensures !ok ==> Now() == old(Now()).(snapshot := snapshotFile, records := wal.records)
      ensures logOpen == (old(logOpen) && (Snapshot.Writable(both) ==> ok))
      ensures !ok && logOpen != old(logOpen) ==> wal.records == Wal.ReplayAll(old(wal).crc, fate.left).records
      ensures !ok && logOpen == old(logOpen) ==> wal == old(wal)
    {
      ok := Save(merged, both, objects, flushed);
      if ok {
        ok := Install(merged, both, objects, fate);
      }
    }

    /** RestoreSnapshot: the trees of another snapshot file, and an empty tree
        for every name that is not in it; the log starts again. `file` is what
        it writes to snapshot.bin. An error over the log comes after that: the
        trees in memory stay, and from then on the log takes nothing. */
    method RestoreSnapshot(input: bytes, flushed: nat, fate: LogFate) returns (ok: bool, ghost file: bytes)
      requires Valid()
      modifies this`trees, this`view, this`repr, this`wal, this`snapshotFile, this`logOpen
      ensures Valid() && fresh(repr - old(repr)) && (wal == old(wal) || fresh(wal)) && (ok ==> wal.Clean())
      ensures var merged := MergedTrees(old(Now()), input);
              merged.Some? ==> Leaves(file, merged.value)
      ensures ok <==> CanRestore(old(Now()), input) && old(logOpen) && fate == Renewed
      ensures CanRestore(old(Now()), input) && !ok ==>
                Now() == old(Now()).(snapshot := Some(file), records := wal.records) && !logOpen
      ensures !CanRestore(old(Now()), input) || ok ==>
                Now() == RestoreState(old(Now()), input, file) && logOpen == old(logOpen)
      ensures logOpen != old(logOpen) ==> wal.records == Wal.ReplayAll(old(wal).crc, fate.left).records
      ensures !ok && logOpen == old(logOpen) ==> wal == old(wal)
    {
      var merged;
      ghost var both, objects;
      ok, merged, both, objects := Merged(input);
      file := [];
      if !ok {
        return;
      }
      ok := Replace(merged, both, objects, flushed, fate);
      file := snapshotFile.value;
    }

    method Close()
      requires Valid()
      modifies this`closed
      ensures Valid() && Now() == old(Now()).(closed := true)
    {
      closed := true;
    }

    method MakeTrees(names: seq<bytes>)
      requires Snapshot.Mirrors(trees, view, repr)
      modifies this`trees, this`view, this`repr
      ensures Snapshot.Mirrors(trees, view, repr) && fresh(repr - old(repr))
      ensures view == TouchAll(old(view), names)
    {
      assert names[..0] == [];
      for i := 0 to |names|
        invariant Snapshot.Mirrors(trees, view, repr) && fresh(repr - old(repr))
        invariant view == TouchAll(old(view), names[..i])
      {
        var t := MustTree(names[i]);
        assert names[..i + 1][..i] == names[..i];
      }
      assert names[..|names|] == names;
    }

    method ReplayLog(records: seq<Wal.Record>) returns (ok: bool)
      requires Snapshot.Mirrors(trees, view, repr)
      modifies this`trees, this`view, this`repr, repr
      ensures Snapshot.Mirrors(trees, view, repr) && fresh(repr - old(repr))
      ensures ReplayInto(old(view), records) == if ok then Some(view) else None
    {
      assert records[0..] == records;
      for i := 0 to |records|
        invariant Snapshot.Mirrors(trees, view, repr) && fresh(repr - old(repr))
        invariant ReplayInto(view, records[i..]) == ReplayInto(old(view), records)
      {
        assert records[i..][0] == records[i] && records[i..][1..] == records[i + 1..];
        var m := FromRecord(records[i]);
        if m == None {
          return false;
        }
        Redo(m.value);
      }
      return true;
    }

    /** The trees asked for, then the whole log over them; a damaged record is
        an error, a torn one the end of the log. */
    method Recover(names: seq<bytes>) returns (ok: bool)
      requires Valid()
      modifies this`trees, this`view, this`repr, repr
      ensures Valid() && Now() == old(Now()).(trees := view)
      ensures var replay := Wal.ReplayAll(wal.crc, wal.segments);
              var back := ReplayInto(TouchAll(old(view), names), replay.records);
              (ok <==> replay.ok && back.Some?) && (ok ==> back == Some(view))
    {
      MakeTrees(names);
      var replay := wal.Replay();
      if !replay.ok {
        return false;
      }
      ok := ReplayLog(replay.records);
    }

    /** OpenEngine: load the snapshot, make the trees asked for, then replay
        the whole log, torn or not. */
    static method OpenEngine(crc: Wal.Checksum, segmentSize: nat, snapshot: Option<bytes>, files: seq<bytes>,
                             ghost held: seq<seq<Wal.Record>>, names: seq<bytes>)
      returns (eng: Engine?)
      ensures var replay := Wal.ReplayAll(crc, files);
              var back := OpenedTrees(snapshot, names, replay.records);
              && (eng != null <==> replay.ok && back.Some?)
              && (eng != null ==> eng.Valid() && eng.logOpen
                                  && eng.Now() == State(back.value, replay.records, snapshot, 0, false))
              && (eng != null && Wal.Laid(crc, files, held) ==> eng.wal.Clean())
    {
      var read, trees := true, map[];
      ghost var start: Snapshot.Trees, objects := map[], {};
      if snapshot.Some? {
        read, trees, objects := Snapshot.ReadSnapshot(snapshot.value);
        if !read {
          return null;
        }
        start := Snapshot.Parse(snapshot.value).value;
      }
      var log := new Wal.Log(crc, segmentSize, files, held);
      eng := new Engine(trees, start, objects, log, snapshot);
      var ok := eng.Recover(names);
      if !ok {
        return null;
      }
    }
  }
}
