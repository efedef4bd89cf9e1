/** internal/storage/snapshot.go: the snapshot file as a byte string. */
module Snapshot {
  import opened Bytes
  import opened Wrappers
  import opened BTree

  const MAGIC: bytes := [0x4D, 0x4F, 0x4E, 0x53, 0x4E, 0x41, 0x50, 0x31]  // MONSNAP1

  type Trees = map<bytes, Contents>

  /** A value read off the front of some bytes, or too few bytes. */
  datatype Got<+T> = Got(value: T, rest: bytes) | Short

  // ---------- length-prefixed byte strings ----------

  function Blob16(b: bytes): bytes
    requires |b| < U16_LIMIT
  {
    U16(|b|) + b
  }

  function Blob32(b: bytes): bytes
    requires |b| < U32_LIMIT
  {
    U32(|b|) + b
  }

  function ReadN(data: bytes, n: nat): Got<bytes>
  {
    if |data| < n then Short else Got(data[..n], data[n..])
  }

  function ReadBlob16(data: bytes): Got<bytes>
  {
    if |data| < 2 then Short else ReadN(data[2..], GetU16(data))
  }

  function ReadBlob32(data: bytes): (r: Got<bytes>)
    ensures r.Got? ==> |r.rest| < |data|
  {
    if |data| < 4 then Short else ReadN(data[4..], GetU32(data))
  }

  function ReadU32(data: bytes): (r: Got<nat>)
    ensures r.Got? ==> |r.rest| < |data|
  {
    if |data| < 4 then Short else Got(GetU32(data), data[4..])
  }

  lemma CutSum(a: bytes, b: bytes, cut: nat)
    requires cut <= |a + b|
    ensures (a + b)[..cut] == if cut < |a| then a[..cut] else a + b[..cut - |a|]
  {
  }

  /** Whole or cut anywhere, a blob reads back as itself or as too short. */
  lemma Blob16Reads(b: bytes, rest: bytes, cut: nat)
    requires |b| < U16_LIMIT
    ensures ReadBlob16(Blob16(b) + rest) == Got(b, rest)
    ensures cut < |Blob16(b)| ==> ReadBlob16(Blob16(b)[..cut]) == Short
  {
    U16RoundTrip(|b|, b + rest);
    assert Blob16(b) + rest == U16(|b|) + (b + rest);
    assert (Blob16(b) + rest)[2..] == b + rest;
    if 2 <= cut < |Blob16(b)| {
      U16RoundTrip(|b|, b[..cut - 2]);
      assert Blob16(b)[..cut] == U16(|b|) + b[..cut - 2];
    }
  }

  lemma Blob32Reads(b: bytes, rest: bytes, cut: nat)
    requires |b| < U32_LIMIT
    ensures ReadBlob32(Blob32(b) + rest) == Got(b, rest)
    ensures cut < |Blob32(b)| ==> ReadBlob32(Blob32(b)[..cut]) == Short
  {
    U32RoundTrip(|b|, b + rest);
    assert Blob32(b) + rest == U32(|b|) + (b + rest);
    assert (Blob32(b) + rest)[4..] == b + rest;
    if 4 <= cut < |Blob32(b)| {
      U32RoundTrip(|b|, b[..cut - 4]);
      assert Blob32(b)[..cut] == U32(|b|) + b[..cut - 4];
    }
  }

  // ---------- rows ----------

  predicate WritableRow(row: Row)
  {
    |row.0| < U32_LIMIT && |row.1| < U32_LIMIT
  }

  predicate WritableRows(rows: seq<Row>)
  {
    |rows| < U32_LIMIT && forall i :: 0 <= i < |rows| ==> WritableRow(rows[i])
  }

  function EncodeRow(row: Row): bytes
    requires WritableRow(row)
  {
    Blob32(row.0) + Blob32(row.1)
  }

  function EncodeRows(rows: seq<Row>): bytes
    requires WritableRows(rows)
  {
    if rows == [] then [] else EncodeRow(rows[0]) + EncodeRows(rows[1..])
  }

  function SetAll(acc: Contents, rows: seq<Row>): Contents
    decreases |rows|
  {
    if rows == [] then acc else SetAll(acc[rows[0].0 := rows[0].1], rows[1..])
  }

  function ReadRow(data: bytes): (r: Got<Row>)
    ensures r.Got? ==> |r.rest| < |data|
  {
    match ReadBlob32(data)
    case Short => Short
    case Got(key, after) =>
      match ReadBlob32(after)
      case Short => Short
      case Got(value, rest) => Got((key, value), rest)
  }

  function ReadRows(data: bytes, n: nat, acc: Contents): Got<Contents>
  {
    if n == 0 then Got(acc, data) else
      match ReadRow(data)
      case Short => Short
      case Got(row, rest) => ReadRows(rest, n - 1, acc[row.0 := row.1])
  }

  lemma RowReads(row: Row, rest: bytes, cut: nat)
    requires WritableRow(row)
    ensures ReadRow(EncodeRow(row) + rest) == Got(row, rest)
    ensures cut < |EncodeRow(row)| ==> ReadRow(EncodeRow(row)[..cut]) == Short
  {
    var k, v := Blob32(row.0), Blob32(row.1);
    Regroup(k, v, rest);
    Blob32Reads(row.0, v + rest, cut);
    Blob32Reads(row.1, rest, if cut < |k| then 0 else cut - |k|);
    if cut < |k + v| {
      CutSum(k, v, cut);
    }
    if |k| <= cut < |k + v| {
      Blob32Reads(row.0, v[..cut - |k|], 0);
    }
  }

  /** Reading the first of some rows, then the others. */
  lemma RowsReadNext(rows: seq<Row>, first: bytes, tail: bytes, rest: bytes, acc: Contents)
    requires rows != [] && ReadRow(first + (tail + rest)) == Got(rows[0], tail + rest)
    requires var next := acc[rows[0].0 := rows[0].1];
             ReadRows(tail + rest, |rows| - 1, next) == Got(SetAll(next, rows[1..]), rest)
    ensures ReadRows(first + tail + rest, |rows|, acc) == Got(SetAll(acc, rows), rest)
  {
    Regroup(first, tail, rest);
    ReadRowsStep(first + (tail + rest), |rows|, acc);
  }

  lemma {:induction false} RowsRead(rows: seq<Row>, rest: bytes, acc: Contents)
    requires WritableRows(rows)
    ensures ReadRows(EncodeRows(rows) + rest, |rows|, acc) == Got(SetAll(acc, rows), rest)
  {
    if rows == [] {
      assert EncodeRows(rows) + rest == rest;
    } else {
      var first, tail := EncodeRow(rows[0]), EncodeRows(rows[1..]);
      RowReads(rows[0], tail + rest, 0);
      RowsRead(rows[1..], rest, acc[rows[0].0 := rows[0].1]);
      RowsReadNext(rows, first, tail, rest, acc);
    }
  }

  lemma {:induction false} RowsTorn(rows: seq<Row>, cut: nat, acc: Contents)
    requires WritableRows(rows) && cut < |EncodeRows(rows)|
    ensures ReadRows(EncodeRows(rows)[..cut], |rows|, acc) == Short
  {
    var first, more := EncodeRow(rows[0]), EncodeRows(rows[1..]);
    CutSum(first, more, cut);
    if cut < |first| {
      RowReads(rows[0], [], cut);
    } else {
      RowReads(rows[0], more[..cut - |first|], 0);
      ReadRowsStep(first + more[..cut - |first|], |rows|, acc);
      RowsTorn(rows[1..], cut - |first|, acc[rows[0].0 := rows[0].1]);
    }
  }

  // ---------- trees ----------

  /** A tree as it is written: its name and its rows. */
  datatype Listing = Listing(name: bytes, rows: seq<Row>)

  predicate WritableTree(t: Listing)
  {
    |t.name| < U16_LIMIT && WritableRows(t.rows)
  }

  predicate WritableTrees(ts: seq<Listing>)
  {
    |ts| < U32_LIMIT && forall i :: 0 <= i < |ts| ==> WritableTree(ts[i])
  }

  function EncodeTree(t: Listing): bytes
    requires WritableTree(t)
  {
    Blob16(t.name) + U32(|t.rows|) + EncodeRows(t.rows)
  }

  function EncodeTrees(ts: seq<Listing>): bytes
    requires WritableTrees(ts)
  {
    if ts == [] then [] else EncodeTree(ts[0]) + EncodeTrees(ts[1..])
  }

  function EncodeSnapshot(ts: seq<Listing>): bytes
    requires WritableTrees(ts)
  {
    MAGIC + U32(|ts|) + EncodeTrees(ts)
  }

  function ReadTree(data: bytes): Got<(bytes, Contents)>
  {
    match ReadBlob16(data)
    case Short => Short
    case Got(name, after) =>
      match ReadU32(after)
      case Short => Short
      case Got(n, body) =>
        match ReadRows(body, n, map[])
        case Short => Short
        case Got(m, rest) => Got((name, m), rest)
  }

  function ReadTrees(data: bytes, n: nat, acc: Trees): Got<Trees>
    decreases n
  {
    if n == 0 then Got(acc, data) else
      match ReadTree(data)
      case Short => Short
      case Got(t, rest) => ReadTrees(rest, n - 1, acc[t.0 := t.1])
  }

  /** ReadSnapshot: bytes after the last tree are not looked at. */
  function Parse(data: bytes): Got<Trees>
  {
    if |data| < 12 || data[..8] != MAGIC then Short
    else ReadTrees(data[12..], GetU32(data[8..12]), map[])
  }

  function PutAll(acc: Trees, ts: seq<Listing>): Trees
    decreases |ts|
  {
    if ts == [] then acc else PutAll(acc[ts[0].name := SetAll(map[], ts[0].rows)], ts[1..])
  }

  lemma TreeReads(t: Listing, rest: bytes)
    requires WritableTree(t)
    ensures ReadTree(EncodeTree(t) + rest) == Got((t.name, SetAll(map[], t.rows)), rest)
  {
    var name, count, rows := Blob16(t.name), U32(|t.rows|), EncodeRows(t.rows);
    assert EncodeTree(t) + rest == name + (count + (rows + rest));
    Blob16Reads(t.name, count + (rows + rest), 0);
    U32RoundTrip(|t.rows|, rows + rest);
    assert (count + (rows + rest))[4..] == rows + rest;
    RowsRead(t.rows, rest, map[]);
  }

  lemma TreeTorn(t: Listing, cut: nat)
    requires WritableTree(t) && cut < |EncodeTree(t)|
    ensures ReadTree(EncodeTree(t)[..cut]) == Short
  {
    var name, count, rows := Blob16(t.name), U32(|t.rows|), EncodeRows(t.rows);
    Regroup(name, count, rows);
    CutSum(name, count + rows, cut);
    if cut < |name| {
      Blob16Reads(t.name, [], cut);
    } else {
      var after := (count + rows)[..cut - |name|];
      Blob16Reads(t.name, after, 0);
      CutSum(count, rows, |after|);
      if |after| >= 4 {
        var body := rows[..|after| - 4];
        U32RoundTrip(|t.rows|, body);
        assert after[4..] == body;
        RowsTorn(t.rows, |body|, map[]);
      }
    }
  }


  lemma ReadTreesStep(data: bytes, n: nat, acc: Trees, t: (bytes, Contents), rest: bytes)
    requires n > 0 && ReadTree(data) == Got(t, rest)
    ensures ReadTrees(data, n, acc) == ReadTrees(rest, n - 1, acc[t.0 := t.1])
  {
  }

  lemma {:induction false} TreesRead(ts: seq<Listing>, rest: bytes, acc: Trees)
    requires WritableTrees(ts)
    ensures ReadTrees(EncodeTrees(ts) + rest, |ts|, acc) == Got(PutAll(acc, ts), rest)
  {
    if ts == [] {
      assert EncodeTrees(ts) + rest == rest;
    } else {
      var first, tail := EncodeTree(ts[0]), EncodeTrees(ts[1..]);
      Regroup(first, tail, rest);
      TreeReads(ts[0], tail + rest);
      var m := SetAll(map[], ts[0].rows);
      var next := acc[ts[0].name := m];
      ReadTreesStep(first + (tail + rest), |ts|, acc, (ts[0].name, m), tail + rest);
      TreesRead(ts[1..], rest, next);
    }
  }

  lemma {:induction false} TreesTorn(ts: seq<Listing>, cut: nat, acc: Trees)
    requires WritableTrees(ts) && cut < |EncodeTrees(ts)|
    ensures ReadTrees(EncodeTrees(ts)[..cut], |ts|, acc) == Short
  {
    var first, more := EncodeTree(ts[0]), EncodeTrees(ts[1..]);
    CutSum(first, more, cut);
    if cut < |first| {
      TreeTorn(ts[0], cut);
    } else {
      var left := more[..cut - |first|];
      TreeReads(ts[0], left);
      var t := (ts[0].name, SetAll(map[], ts[0].rows));
      ReadTreesStep(first + left, |ts|, acc, t, left);
      TreesTorn(ts[1..], cut - |first|, acc[t.0 := t.1]);
    }
  }

  lemma HeaderReads(ts: seq<Listing>, body: bytes)
    requires WritableTrees(ts)
    ensures Parse(MAGIC + U32(|ts|) + body) == ReadTrees(body, |ts|, map[])
  {
    var data := MAGIC + U32(|ts|) + body;
    assert data[..8] == MAGIC;
    assert data[8..12] == U32(|ts|) + [];
    U32RoundTrip(|ts|, []);
    assert data[12..] == body;
  }

  /** A snapshot file cut short anywhere is rejected. */
  lemma TornSnapshot(ts: seq<Listing>, cut: nat)
    requires WritableTrees(ts) && cut < |EncodeSnapshot(ts)|
    ensures Parse(EncodeSnapshot(ts)[..cut]) == Short
  {
    if cut >= 12 {
      var body := EncodeTrees(ts)[..cut - 12];
      assert EncodeSnapshot(ts)[..cut] == MAGIC + U32(|ts|) + body;
      HeaderReads(ts, body);
      TreesTorn(ts, cut - 12, map[]);
    }
  }

  // ---------- listings of a forest ----------

  /** The trees named in `order`, each with its rows in key order. */
  ghost function ListingsOf(trees: Trees, order: seq<bytes>): (ts: seq<Listing>)
    requires forall i :: 0 <= i < |order| ==> order[i] in trees
    ensures |ts| == |order|
  {
    seq(|order|, i requires 0 <= i < |order| => Listing(order[i], Rows(trees[order[i]])))
  }

  /** `order` names every tree once: any order a Go map may be walked in. */
  ghost predicate Enumerates(order: seq<bytes>, names: set<bytes>)
  {
    && (forall n :: n in order <==> n in names)
    && (forall i, j :: 0 <= i < j < |order| ==> order[i] != order[j])
  }

  /** Setting the rows of a sorted listing one after the other rebuilds the map. */
  lemma {:induction false} SetAllRebuilds(acc: Contents, ks: seq<bytes>, m: Contents)
    requires forall k :: k in ks ==> k in m
    requires forall k :: k in acc ==> k in m && acc[k] == m[k]
    requires forall k :: k in m ==> k in acc || k in ks
    ensures SetAll(acc, RowsAt(ks, m)) == m
    decreases |ks|
  {
    if ks == [] {
      assert acc == m;
    } else {
      assert ks[0] in ks;
      assert forall k :: k in ks ==> k == ks[0] || k in ks[1..];
      assert RowsAt(ks, m)[1..] == RowsAt(ks[1..], m);
      SetAllRebuilds(acc[ks[0] := m[ks[0]]], ks[1..], m);
    }
  }

  lemma RowsRebuild(m: Contents)
    ensures SetAll(map[], Rows(m)) == m
  {
    SetAllRebuilds(map[], SortedKeys(m.Keys), m);
  }

  lemma {:induction false} PutAllRebuilds(acc: Trees, order: seq<bytes>, trees: Trees)
    requires forall i :: 0 <= i < |order| ==> order[i] in trees
    requires forall n :: n in acc ==> n in trees && acc[n] == trees[n]
    requires forall n :: n in trees ==> n in acc || n in order
    ensures PutAll(acc, ListingsOf(trees, order)) == trees
    decreases |order|
  {
    if order == [] {
      assert acc == trees;
    } else {
      var n := order[0];
      RowsRebuild(trees[n]);
      assert ListingsOf(trees, order)[1..] == ListingsOf(trees, order[1..]);
      PutAllRebuilds(acc[n := trees[n]], order[1..], trees);
    }
  }

  /** Whatever order the tree map is walked in, reading a written snapshot
      gives back the same trees with the same contents. */
  lemma SnapshotRoundTrip(trees: Trees, order: seq<bytes>)
    requires Enumerates(order, trees.Keys)
    requires WritableTrees(ListingsOf(trees, order))
    ensures Parse(EncodeSnapshot(ListingsOf(trees, order))) == Got(trees, [])
  {
    var ts := ListingsOf(trees, order);
    assert EncodeTrees(ts) == EncodeTrees(ts) + [];
    HeaderReads(ts, EncodeTrees(ts));
    TreesRead(ts, [], map[]);
    PutAllRebuilds(map[], order, trees);
  }

  // ---------- the two procedures ----------

  /** Every length fits the field it is written to. */
  predicate Writable(trees: Trees)
  {
    && |trees| < U32_LIMIT
    && forall n {:trigger trees[n]} :: n in trees ==> |n| < U16_LIMIT && WritableContents(trees[n])
  }

  predicate WritableContents(m: Contents)
  {
    |m| < U32_LIMIT && forall k {:trigger m[k]} :: k in m ==> |k| < U32_LIMIT && |m[k]| < U32_LIMIT
  }

  lemma {:induction false} ListingSize(ks: seq<bytes>, s: set<bytes>)
    requires Lists(ks, s)
    ensures |ks| == |s|
  {
    if ks != [] {
      HeadLeast(ks, s);
      ListingSize(ks[1..], s - {ks[0]});
    } else {
      assert s == {};
    }
  }

  lemma WritableRowsOf(m: Contents)
    ensures |Rows(m)| == |m|
    ensures WritableContents(m) <==> WritableRows(Rows(m))
  {
    var ks := SortedKeys(m.Keys);
    ListingSize(ks, m.Keys);
    if WritableRows(Rows(m)) {
      forall k | k in m ensures |k| < U32_LIMIT && |m[k]| < U32_LIMIT {
        assert k in ks;
        var i :| 0 <= i < |ks| && ks[i] == k;
        assert WritableRow(Rows(m)[i]);
      }
    } else if WritableContents(m) {
      forall i | 0 <= i < |ks| ensures WritableRow(Rows(m)[i]) { assert ks[i] in ks; }
    }
  }

  lemma {:induction false} RowsAppend(a: seq<Row>, b: seq<Row>)
    requires WritableRows(a + b) && WritableRows(a) && WritableRows(b)
    ensures EncodeRows(a + b) == EncodeRows(a) + EncodeRows(b)
  {
    if a == [] {
      assert a + b == b;
    } else {
      assert (a + b)[1..] == a[1..] + b;
      RowsAppend(a[1..], b);
    }
  }

  lemma {:induction false} TreesAppend(a: seq<Listing>, b: seq<Listing>)
    requires WritableTrees(a + b) && WritableTrees(a) && WritableTrees(b)
    ensures EncodeTrees(a + b) == EncodeTrees(a) + EncodeTrees(b)
  {
    if a == [] {
      assert a + b == b;
    } else {
      assert (a + b)[1..] == a[1..] + b;
      TreesAppend(a[1..], b);
    }
  }

  /** Cutting before the end of one piece is cutting before the end of the whole. */
  lemma CutInside(head: bytes, done: bytes, partial: bytes, piece: bytes, more: bytes, cut: nat)
    requires |partial| < |piece| && partial == piece[..|partial|]
    requires cut <= |head + done + partial|
    ensures (head + done + partial)[..cut] == (head + (done + (piece + more)))[..cut]
  {
    var part, whole := head + done + partial, head + (done + (piece + more));
    forall i | 0 <= i < |part| ensures part[i] == whole[i] {
      if i >= |head| + |done| { assert partial[i - |head| - |done|] == piece[i - |head| - |done|]; }
    }
  }

  ghost predicate UnfinishedTree(t: Listing, partial: bytes)
  {
    WritableTree(t) && |partial| < |EncodeTree(t)| && partial == EncodeTree(t)[..|partial|]
  }

  /** The start of some tree that could be written, but not all of it. */
  ghost predicate Unfinished(partial: bytes)
  {
    exists t :: UnfinishedTree(t, partial)
  }

  /** A write that gave up inside a tree leaves a file no reader accepts,
      however much of it had reached the disk. */
  lemma AbandonedWrite(done: seq<Listing>, n: nat, partial: bytes, cut: nat)
    requires |done| < n < U32_LIMIT
    requires WritableTrees(done) && Unfinished(partial)
    requires cut <= |MAGIC + U32(n) + EncodeTrees(done) + partial|
    ensures Parse((MAGIC + U32(n) + EncodeTrees(done) + partial)[..cut]) == Short
  {
    var bad :| UnfinishedTree(bad, partial);
    var fill := seq(n - |done| - 1, _ => Listing([], []));
    var rest := [bad] + fill;
    assert rest[1..] == fill;
    var ts := done + rest;
    TreesAppend(done, rest);
    var head := MAGIC + U32(n);
    CutInside(head, EncodeTrees(done), partial, EncodeTree(bad), EncodeTrees(fill), cut);
    assert EncodeSnapshot(ts) == head + (EncodeTrees(done) + EncodeTrees(rest));
    TornSnapshot(ts, cut);
  }

  /** The rows up to i followed by one more row and empty rows. */
  function Truncated(rows: seq<Row>, i: nat, fit: Row): (r: seq<Row>)
    requires i < |rows|
    ensures |r| == |rows|
  {
    rows[..i] + ([fit] + seq(|rows| - i - 1, _ => ([], [])))
  }

  lemma StartOfTree(t: Listing, partial: bytes, tail: bytes)
    requires WritableTree(t) && EncodeTree(t) == partial + tail && tail != []
    ensures Unfinished(partial)
  {
    assert UnfinishedTree(t, partial);
  }

  lemma TruncatedRows(rows: seq<Row>, i: nat, held: bytes) returns (after: bytes)
    requires i < |rows| < U32_LIMIT && |held| < U32_LIMIT
    requires WritableRows(rows[..i])
    ensures WritableRows(Truncated(rows, i, (held, [])))
    ensures EncodeRows(Truncated(rows, i, (held, []))) == EncodeRows(rows[..i]) + (Blob32(held) + after)
    ensures after != []
  {
    var fit: Row := (held, []);
    var fill: seq<Row> := seq(|rows| - i - 1, _ => ([], []));
    var tail: seq<Row> := [fit] + fill;
    assert tail[1..] == fill;
    RowsAppend(rows[..i], tail);
    after := Blob32([]) + EncodeRows(fill);
    Regroup(Blob32(held), Blob32([]), EncodeRows(fill));
  }


  /** Giving up before a key, or after the key `held` and before its value. */
  lemma GivingUp(name: bytes, rows: seq<Row>, i: nat, held: bytes)
    requires i < |rows| < U32_LIMIT && |name| < U16_LIMIT && |held| < U32_LIMIT
    requires WritableRows(rows[..i])
    ensures var out := Blob16(name) + U32(|rows|) + EncodeRows(rows[..i]);
            Unfinished(out) && Unfinished(out + Blob32(held))
  {
    var t := Listing(name, Truncated(rows, i, (held, [])));
    var after := TruncatedRows(rows, i, held);
    var header, start, whole := Blob16(name) + U32(|rows|), EncodeRows(rows[..i]), EncodeRows(t.rows);
    Regroup(header, start, Blob32(held) + after);
    Regroup(header + start, Blob32(held), after);
    StartOfTree(t, header + start, Blob32(held) + after);
    StartOfTree(t, header + start + Blob32(held), after);
  }

  lemma GivingUpEarly(name: bytes)
    ensures Unfinished([])
    ensures |name| < U16_LIMIT ==> Unfinished(Blob16(name))
  {
    assert UnfinishedTree(Listing([], []), []);
    if |name| < U16_LIMIT {
      assert UnfinishedTree(Listing(name, []), Blob16(name));
    }
  }

  lemma RowsGrow(rows: seq<Row>, i: nat)
    requires i < |rows| && WritableRows(rows[..i]) && WritableRow(rows[i]) && |rows| < U32_LIMIT
    ensures WritableRows(rows[..i + 1])
    ensures EncodeRows(rows[..i + 1]) == EncodeRows(rows[..i]) + EncodeRow(rows[i])
  {
    var one: seq<Row> := [rows[i]];
    assert rows[..i + 1] == rows[..i] + one;
    assert one[1..] == [];
    RowsAppend(rows[..i], one);
  }

  /** Tree objects, each filed under its own name, that hold these contents. */
  ghost predicate Mirrors(trees: map<bytes, Tree>, view: Trees, repr: set<Tree>)
    reads repr
  {
    && trees.Keys == view.Keys
    && forall n {:trigger trees[n]} :: n in trees ==>
         && trees[n] in repr
         && trees[n].Valid() && trees[n].name == n && trees[n].items == view[n]
  }

  /** One tree of WriteSnapshot's outer loop. When a length does not fit, the
      bytes already written are the start of some other tree. */
  method WriteTree(name: bytes, tree: Tree) returns (out: bytes, ok: bool)
    requires tree.Valid()
    ensures ok <==> WritableTree(Listing(name, Rows(tree.items)))
    ensures ok ==> out == EncodeTree(Listing(name, Rows(tree.items)))
    ensures !ok ==> Unfinished(out)
  {
    var rows := tree.Snapshot();
    GivingUpEarly(name);
    if |name| > 0xffff {
      return [], false;
    }
    out := Blob16(name);
    if |rows| > 0xffff_ffff {
      return out, false;
    }
    var body;
    body, ok := WriteRows(name, rows);
    out := out + U32(|rows|) + body;
  }

  /** Its inner loop. */
  method WriteRows(ghost name: bytes, rows: seq<Row>) returns (out: bytes, ok: bool)
    requires |name| < U16_LIMIT && |rows| < U32_LIMIT
    ensures ok <==> WritableRows(rows)
    ensures ok ==> out == EncodeRows(rows)
    ensures !ok ==> Unfinished(Blob16(name) + U32(|rows|) + out)
  {
    out := [];
    ghost var header := Blob16(name) + U32(|rows|);
    assert rows[..0] == [];
    for i := 0 to |rows|
      invariant WritableRows(rows[..i]) && out == EncodeRows(rows[..i])
    {
      var key, value := rows[i].0, rows[i].1;
      if |key| > 0xffff_ffff {
        assert !WritableRow(rows[i]);
        GivingUp(name, rows, i, []);
        return out, false;
      }
      if |value| > 0xffff_ffff {
        assert !WritableRow(rows[i]);
        GivingUp(name, rows, i, key);
        Regroup(header, out, Blob32(key));
        return out + Blob32(key), false;
      }
      RowsGrow(rows, i);
      Regroup(out, Blob32(key), Blob32(value));
      out := out + Blob32(key) + Blob32(value);
    }
    assert rows[..|rows|] == rows;
    ok := true;
  }

  /** An order has walked all names but those left. */
  ghost predicate Walked(order: seq<bytes>, left: set<bytes>, names: set<bytes>)
  {
    left <= names && |order| + |left| == |names| && Enumerates(order, names - left)
  }

  lemma WalkOne(trees: Trees, order: seq<bytes>, left: set<bytes>, name: bytes)
    requires Walked(order, left, trees.Keys) && name in left && forall i :: 0 <= i < |order| ==> order[i] in trees
    ensures Walked(order + [name], left - {name}, trees.Keys)
    ensures ListingsOf(trees, order + [name]) == ListingsOf(trees, order) + [Listing(name, Rows(trees[name]))]
  {
  }

  lemma EncodeSingle(t: Listing)
    requires WritableTree(t)
    ensures WritableTrees([t]) && EncodeTrees([t]) == EncodeTree(t)
  {
    var one := [t];
    assert one[1..] == [];
    assert EncodeTrees(one) == EncodeTree(one[0]) + EncodeTrees(one[1..]);
  }

  lemma EncodeOne(done: seq<Listing>, next: Listing)
    requires WritableTrees(done) && WritableTree(next) && |done| + 1 < U32_LIMIT
    ensures WritableTrees(done + [next])
    ensures EncodeTrees(done + [next]) == EncodeTrees(done) + EncodeTree(next)
  {
    forall i | 0 <= i < |done| + 1 ensures WritableTree((done + [next])[i]) {
      if i < |done| {
        assert (done + [next])[i] == done[i];
      }
    }
    EncodeSingle(next);
    TreesAppend(done, [next]);
  }

  /** Listing by listing or name by name, the same length checks. */
  lemma WritableListings(trees: Trees, order: seq<bytes>)
    requires Enumerates(order, trees.Keys) && |order| == |trees|
    requires forall i :: 0 <= i < |order| ==> order[i] in trees
    requires WritableTrees(ListingsOf(trees, order))
    ensures Writable(trees)
  {
    forall n | n in trees ensures |n| < U16_LIMIT && WritableContents(trees[n]) {
      assert n in order;
      var i :| 0 <= i < |order| && order[i] == n;
      assert WritableTree(ListingsOf(trees, order)[i]);
      WritableRowsOf(trees[n]);
    }
  }

  lemma UnwritableTree(trees: Trees, name: bytes)
    requires name in trees && !WritableTree(Listing(name, Rows(trees[name])))
    ensures !Writable(trees)
  {
    WritableRowsOf(trees[name]);
  }

  /** Whatever part of this file reached the disk, no reader accepts it. */
  ghost predicate Unreadable(file: bytes)
  {
    forall cut {:trigger file[..cut]} :: 0 <= cut <= |file| ==> Parse(file[..cut]) == Short
  }

  lemma AbandonedFile(done: seq<Listing>, n: nat, partial: bytes)
    requires |done| < n < U32_LIMIT && WritableTrees(done) && Unfinished(partial)
    ensures Unreadable(MAGIC + U32(n) + (EncodeTrees(done) + partial))
  {
    var file := MAGIC + U32(n) + (EncodeTrees(done) + partial);
    Regroup(MAGIC + U32(n), EncodeTrees(done), partial);
    forall cut | 0 <= cut <= |file| ensures Parse(file[..cut]) == Short {
      AbandonedWrite(done, n, partial, cut);
    }
  }

  /** The loop over the trees. */
  method WriteTrees(trees: map<bytes, Tree>, ghost view: Trees, ghost repr: set<Tree>)
    returns (body: bytes, ok: bool, ghost order: seq<bytes>)
    requires Mirrors(trees, view, repr) && |trees| < U32_LIMIT
    ensures ok <==> Writable(view)
    ensures ok ==> Enumerates(order, trees.Keys) && WritableTrees(ListingsOf(view, order))
    ensures ok ==> |order| == |trees| && body == EncodeTrees(ListingsOf(view, order))
    ensures !ok ==> Unreadable(MAGIC + U32(|trees|) + body)
  {
    assert |trees| == |view| by { assert |trees.Keys| == |view.Keys|; }
    order, body := [], [];
    var left := trees.Keys;
    ghost var done: seq<Listing> := [];
    while left != {}
      invariant Walked(order, left, view.Keys)
      invariant forall i :: 0 <= i < |order| ==> order[i] in view
      invariant done == ListingsOf(view, order) && WritableTrees(done)
      invariant body == EncodeTrees(done)
    {
      var name :| name in left;
      var out, fine := WriteTree(name, trees[name]);
      body := body + out;
      if !fine {
        UnwritableTree(view, name);
        AbandonedFile(done, |trees|, out);
        return body, false, order;
      }
      WalkOne(view, order, left, name);
      ghost var next := Listing(name, Rows(view[name]));
      EncodeOne(done, next);
      left, order, done := left - {name}, order + [name], done + [next];
    }
    WritableListings(view, order);
    ok := true;
  }

  /** WriteSnapshot walks the tree map in some order. `flushed` says how much
      of an abandoned file had left the write buffer. */
  method WriteSnapshot(trees: map<bytes, Tree>, ghost view: Trees, ghost repr: set<Tree>, flushed: nat)
      returns (file: bytes, ok: bool)
    requires Mirrors(trees, view, repr)
    ensures ok <==> Writable(view)
    ensures Parse(file) == if ok then Got(view, []) else Short
  {
    assert |trees| == |view| by { assert |trees.Keys| == |view.Keys|; }
    file := MAGIC;
    if |trees| > 0xffff_ffff {
      return file[..if flushed < |file| then flushed else |file|], false;
    }
    ghost var order;
    var body;
    body, ok, order := WriteTrees(trees, view, repr);
    file := file + U32(|trees|) + body;
    if ok {
      SnapshotRoundTrip(view, order);
    } else {
      file := file[..if flushed < |file| then flushed else |file|];
    }
  }

  /** One row of ReadSnapshot's inner loop. */
  method ReadOneRow(data: bytes, tree: Tree) returns (ok: bool, rest: bytes)
    requires tree.Valid()
    modifies tree
    ensures tree.Valid()
    ensures ok <==> ReadRow(data).Got?
    ensures ok ==> var r := ReadRow(data); tree.items == old(tree.items)[r.value.0 := r.value.1] && rest == r.rest
  {
    var key := ReadBlob32(data);
    if key == Short {
      return false, [];
    }
    var value := ReadBlob32(key.rest);
    if value == Short {
      return false, [];
    }
    tree.Set(key.value, value.value);
    return true, value.rest;
  }

  lemma ReadTreeStep(data: bytes)
    ensures var named := ReadBlob16(data);
            ReadTree(data) ==
            if named == Short then Short else
              var counted := ReadU32(named.rest);
              if counted == Short then Short else
                var filled := ReadRows(counted.rest, counted.value, map[]);
                if filled == Short then Short else Got((named.value, filled.value), filled.rest)
  {
  }

  lemma ReadRowsStep(data: bytes, n: nat, acc: Contents)
    requires n > 0
    ensures var r := ReadRow(data);
            ReadRows(data, n, acc) ==
            if r == Short then Short else ReadRows(r.rest, n - 1, acc[r.value.0 := r.value.1])
  {
  }

  /** One round of ReadSnapshot's outer loop: a fresh tree filled row by row. */
  method ReadOneTree(data: bytes) returns (ok: bool, name: bytes, tree: Tree, rest: bytes)
    ensures fresh(tree) && tree.Valid() && tree.name == name
    ensures ReadTree(data) == if ok then Got((name, tree.items), rest) else Short
  {
    name, rest, ok := [], [], false;
    ReadTreeStep(data);
    var named := ReadBlob16(data);
    if named == Short {
      tree := new Tree(name);
      return;
    }
    name := named.value;
    tree := new Tree(name);
    var counted := ReadU32(named.rest);
    if counted == Short {
      return;
    }
    ok, rest := ReadAllRows(counted.rest, counted.value, tree);
  }

  /** ReadSnapshot's inner loop. */
  method ReadAllRows(data: bytes, n: nat, tree: Tree) returns (ok: bool, rest: bytes)
    requires tree.Valid()
    modifies tree
    ensures tree.Valid()
    ensures ReadRows(data, n, old(tree.items)) == if ok then Got(tree.items, rest) else Short
  {
    rest, ok := data, true;
    var left := n;
    while left > 0
      invariant tree.Valid()
      invariant ReadRows(data, n, old(tree.items)) == ReadRows(rest, left, tree.items)
    {
      ReadRowsStep(rest, left, tree.items);
      var fine, after := ReadOneRow(rest, tree);
      if !fine {
        return false, [];
      }
      rest, left := after, left - 1;
    }
  }

  lemma MirrorAdd(trees: map<bytes, Tree>, view: Trees, repr: set<Tree>, name: bytes, tree: Tree)
    requires Mirrors(trees, view, repr) && tree.Valid() && tree.name == name
    ensures Mirrors(trees[name := tree], view[name := tree.items], repr + {tree})
  {
    var more := trees[name := tree];
    assert forall n :: n in more && n != name ==> more[n] == trees[n];
  }

  method ReadSnapshot(data: bytes) returns (ok: bool, trees: map<bytes, Tree>, ghost repr: set<Tree>)
    ensures fresh(repr)
    ensures ok <==> Parse(data).Got?
    ensures ok ==> Mirrors(trees, Parse(data).value, repr)
  {
    trees, repr, ok := map[], {}, false;
    if |data| < 12 || data[..8] != MAGIC {
      return;
    }
    ok, trees, repr := ReadAllTrees(data[12..], GetU32(data[8..12]));
  }

  /** Its outer loop. */
  method ReadAllTrees(data: bytes, n: nat) returns (ok: bool, trees: map<bytes, Tree>, ghost repr: set<Tree>)
    ensures fresh(repr)
    ensures ok <==> ReadTrees(data, n, map[]).Got?
    ensures ok ==> Mirrors(trees, ReadTrees(data, n, map[]).value, repr)
  {
    trees, repr, ok := map[], {}, false;
    var left, rest := n, data;
    ghost var view: Trees := map[];
    while left > 0
      invariant fresh(repr) && Mirrors(trees, view, repr)
      invariant ReadTrees(data, n, map[]) == ReadTrees(rest, left, view)
    {
      var fine, name, tree, after := ReadOneTree(rest);
      if !fine {
        return;
      }
      MirrorAdd(trees, view, repr, name, tree);
      ReadTreesStep(rest, left, view, (name, tree.items), after);
      trees, view, repr := trees[name := tree], view[name := tree.items], repr + {tree};
      rest, left := after, left - 1;
    }
    ok := true;
  }
}
