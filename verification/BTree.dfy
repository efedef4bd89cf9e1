/** internal/storage/btree.go: a sorted key slice kept beside a map. */
module BTree {
  import opened Bytes

  type Contents = map<bytes, bytes>
  type Row = (bytes, bytes)

  ghost predicate StrictlySorted(ks: seq<bytes>)
  {
    forall i, j :: 0 <= i < j < |ks| ==> Lt(ks[i], ks[j])
  }

  ghost predicate Least(k: bytes, s: set<bytes>)
  {
    k in s && forall j :: j in s ==> Le(k, j)
  }

  lemma {:induction false} LeastExists(s: set<bytes>)
    requires s != {}
    ensures exists k :: Least(k, s)
  {
    var x :| x in s;
    if s == {x} {
      LeTotal(x, x);
      assert Least(x, s);
    } else {
      LeastExists(s - {x});
      var y :| Least(y, s - {x});
      LeTotal(x, y);
      LeTotal(x, x);
      if Le(x, y) {
        forall j | j in s ensures Le(x, j) {
          if j != x { LeTransitive(x, y, j); }
        }
        assert Least(x, s);
      } else {
        assert Least(y, s);
      }
    }
  }

  /** ks is a strictly sorted listing of s. */
  ghost predicate Lists(ks: seq<bytes>, s: set<bytes>)
  {
    StrictlySorted(ks) && forall k :: k in ks <==> k in s
  }

  lemma {:induction false} ListingExists(s: set<bytes>)
    ensures exists ks :: Lists(ks, s)
  {
    if s == {} {
      assert Lists([], s);
    } else {
      LeastExists(s);
      var k :| Least(k, s);
      ListingExists(s - {k});
      var rest :| Lists(rest, s - {k});
      forall i | 0 <= i < |rest| ensures Lt(k, rest[i]) { assert rest[i] in rest; }
      assert Lists([k] + rest, s);
    }
  }

  lemma {:induction false} ListingUnique(a: seq<bytes>, b: seq<bytes>, s: set<bytes>)
    requires Lists(a, s) && Lists(b, s)
    ensures a == b
  {
    if s == {} {
      if a != [] { HeadLeast(a, s); }
      if b != [] { HeadLeast(b, s); }
    } else {
      var x :| x in s;
      assert x in a && x in b;
      HeadLeast(a, s);
      HeadLeast(b, s);
      LeAntisymmetric(a[0], b[0]);
      ListingUnique(a[1..], b[1..], s - {a[0]});
      assert a == [a[0]] + a[1..] && b == [b[0]] + b[1..];
    }
  }

  lemma HeadLeast(ks: seq<bytes>, s: set<bytes>)
    requires Lists(ks, s) && ks != []
    ensures ks[0] in s && Least(ks[0], s)
    ensures Lists(ks[1..], s - {ks[0]})
  {
    assert ks[0] in ks;
    LeTotal(ks[0], ks[0]);
    forall j | j in s ensures Le(ks[0], j) {
      assert j in ks;
      var i :| 0 <= i < |ks| && ks[i] == j;
    }
    assert ks == [ks[0]] + ks[1..];
    forall i | 0 <= i < |ks[1..]| ensures ks[1..][i] != ks[0] { assert Lt(ks[0], ks[i + 1]); }
  }

  /** The keys of a set in byte order. */
  ghost function SortedKeys(s: set<bytes>): (ks: seq<bytes>)
    ensures Lists(ks, s)
  {
    ListingExists(s);
    var ks :| Lists(ks, s);
    ks
  }

  /** A strictly sorted listing of a set is the only one there is. */
  lemma SortedUnique(ks: seq<bytes>, s: set<bytes>)
    requires Lists(ks, s)
    ensures ks == SortedKeys(s)
  {
    ListingUnique(ks, SortedKeys(s), s);
  }

  function RowsAt(ks: seq<bytes>, m: Contents): (rows: seq<Row>)
    requires forall k :: k in ks ==> k in m
  {
    seq(|ks|, i requires 0 <= i < |ks| => (ks[i], m[ks[i]]))
  }

  /** All rows of a tree in key order. */
  ghost function Rows(m: Contents): seq<Row>
  {
    RowsAt(SortedKeys(m.Keys), m)
  }

  /** Whether a key lies between two inclusive bounds; an empty bound is no bound. */
  predicate InRange(start: bytes, end: bytes, k: bytes)
  {
    (start == [] || Le(start, k)) && (end == [] || Le(k, end))
  }

  ghost function KeysInRange(m: Contents, start: bytes, end: bytes): seq<bytes>
  {
    SortedKeys(set k | k in m && InRange(start, end, k))
  }

  /** The rows between the two bounds in key order. */
  ghost function Scan(m: Contents, start: bytes, end: bytes): seq<Row>
  {
    RowsAt(KeysInRange(m, start, end), m)
  }

  /** The rows a callback sees: it is called once more after each true. */
  ghost function Visited(rows: seq<Row>, more: Row -> bool): seq<Row>
  {
    if rows == [] then []
    else if more(rows[0]) then [rows[0]] + Visited(rows[1..], more)
    else [rows[0]]
  }

  /** A walk over all rows in progress: those seen, then the rest from i on. */
  ghost predicate Walking(all: seq<Row>, seen: seq<Row>, i: nat, more: Row -> bool)
  {
    i <= |all| && Visited(all, more) == seen + Visited(all[i..], more)
  }

  lemma WalkingEnds(all: seq<Row>, seen: seq<Row>, more: Row -> bool)
    ensures Walking(all, [], 0, more)
    ensures Walking(all, seen, |all|, more) ==> Visited(all, more) == seen
  {
    assert all[0..] == all && all[|all|..] == [];
    assert [] + Visited(all, more) == Visited(all, more);
    assert seen + [] == seen;
  }

  lemma RowOf(ks: seq<bytes>, m: Contents, lo: nat, hi: nat, i: nat)
    requires lo <= i < hi <= |ks| && forall k :: k in ks[lo..hi] ==> k in m
    ensures ks[i] in m && RowsAt(ks[lo..hi], m)[i - lo] == (ks[i], m[ks[i]])
  {
    assert ks[lo..hi][i - lo] == ks[i];
  }

  lemma WalkOn(seen: seq<Row>, rest: seq<Row>, more: Row -> bool)
    requires rest != []
    ensures seen + Visited(rest, more)
         == if more(rest[0]) then seen + [rest[0]] + Visited(rest[1..], more) else seen + [rest[0]]
  {
  }

  lemma WalkingNext(all: seq<Row>, seen: seq<Row>, i: nat, more: Row -> bool)
    requires i < |all| && Walking(all, seen, i, more)
    ensures if more(all[i]) then Walking(all, seen + [all[i]], i + 1, more) else Visited(all, more) == seen + [all[i]]
  {
    assert all[i..][0] == all[i] && all[i..][1..] == all[i + 1..];
    WalkOn(seen, all[i..], more);
  }

  // ---------- the list operations behind Set, Delete and Iterate ----------

  /** Where sort.Search stops: below it every key is smaller, from it on none is. */
  ghost predicate SearchPoint(ks: seq<bytes>, key: bytes, idx: nat)
  {
    && idx <= |ks|
    && (forall i :: 0 <= i < idx ==> Lt(ks[i], key))
    && (forall i :: idx <= i < |ks| ==> Le(key, ks[i]))
  }

  lemma InsertSorted(ks: seq<bytes>, s: set<bytes>, key: bytes, idx: nat)
    requires ks == SortedKeys(s) && key !in s && SearchPoint(ks, key, idx)
    ensures ks[..idx] + [key] + ks[idx..] == SortedKeys(s + {key})
  {
    var ts := ks[..idx] + [key] + ks[idx..];
    forall i | idx <= i < |ks| ensures Lt(key, ks[i]) { assert ks[i] in ks; }
    forall i, j | 0 <= i < j < |ts| ensures Lt(ts[i], ts[j]) {
      if i < idx && j > idx { LtLe(ts[i], key, ts[j]); }
    }
    assert ks == ks[..idx] + ks[idx..];
    assert forall k :: k in ts <==> k in ks || k == key;
    SortedUnique(ts, s + {key});
  }

  lemma RemoveSorted(ks: seq<bytes>, s: set<bytes>, key: bytes, idx: nat)
    requires ks == SortedKeys(s) && key in s && SearchPoint(ks, key, idx)
    ensures idx < |ks| && ks[idx] == key
    ensures ks[..idx] + ks[idx + 1..] == SortedKeys(s - {key})
  {
    assert key in ks;
    var at :| 0 <= at < |ks| && ks[at] == key;
    if idx < at { LtOrGe(ks[idx], key); }
    var ts := ks[..idx] + ks[idx + 1..];
    assert ks == ks[..idx] + [key] + ks[idx + 1..];
    forall i | 0 <= i < |ts| ensures ts[i] != key {
      assert i < idx ==> Lt(ts[i], key);
      assert i >= idx ==> ts[i] == ks[i + 1] && Lt(ks[idx], ks[i + 1]);
    }
    assert forall k :: k in ks <==> k in ts || k == key;
    SortedUnique(ts, s - {key});
  }

  /** The keys of a range are one stretch of the sorted keys. */
  lemma {:induction false} RangeIsSlice(m: Contents, ks: seq<bytes>, start: bytes, end: bytes, lo: nat, at: nat)
      returns (hi: nat)
    requires ks == SortedKeys(m.Keys)
    requires if start == [] then lo == 0 else SearchPoint(ks, start, lo)
    requires lo <= at <= |ks|
    requires end != [] ==> forall i :: lo <= i < at ==> Le(ks[i], end)
    ensures at <= hi <= |ks|
    ensures end != [] ==> forall i :: lo <= i < hi ==> Le(ks[i], end)
    ensures hi < |ks| ==> end != [] && !Le(ks[hi], end)
    ensures KeysInRange(m, start, end) == ks[lo..hi]
    decreases |ks| - at
  {
    if at < |ks| && (end == [] || Le(ks[at], end)) {
      hi := RangeIsSlice(m, ks, start, end, lo, at + 1);
    } else {
      hi := at;
      var range := set k | k in m && InRange(start, end, k);
      forall k ensures k in ks[lo..hi] <==> k in range {
        assert k in m.Keys <==> k in ks;
        if k in range {
          var i :| 0 <= i < |ks| && ks[i] == k;
          if i < lo { LtOrGe(ks[i], start); }
          if i > hi { LeTransitive(ks[hi], k, end); }
        }
      }
      SortedUnique(ks[lo..hi], range);
    }
  }

  class Tree {
    var keys: seq<bytes>
    var items: Contents
    ghost const name: bytes  // the name it is filed under: one object, one name

    ghost predicate Valid()
      reads this
    {
      keys == SortedKeys(items.Keys)
    }

    constructor (ghost name: bytes)
      ensures Valid() && items == map[] && this.name == name
    {
      this.name := name;
      keys := [];
      items := map[];
      new;
      assert items.Keys == {};
      SortedUnique([], {});
    }

    /** sort.Search for the first key not below the given one. */
    method Search(key: bytes) returns (idx: nat)
      requires Valid()
      ensures SearchPoint(keys, key, idx)
    {
      idx := 0;
      var j := |keys|;
      while idx < j
        invariant 0 <= idx <= j <= |keys|
        invariant forall i :: 0 <= i < idx ==> Lt(keys[i], key)
        invariant forall i :: j <= i < |keys| ==> Le(key, keys[i])
      {
        var h := (idx + j) / 2;
        if !Le(key, keys[h]) {
          LtOrGe(keys[h], key);
          forall i | 0 <= i < h ensures Lt(keys[i], key) { LtLe(keys[i], keys[h], key); }
          idx := h + 1;
        } else {
          forall i | h <= i < |keys| ensures Le(key, keys[i]) {
            if i != h { LeTransitive(key, keys[h], keys[i]); }
          }
          j := h;
        }
      }
    }

    method Get(key: bytes) returns (value: bytes, ok: bool)
      requires Valid()
      ensures ok <==> key in items
      ensures ok ==> value == items[key]
    {
      if key !in items {
        return [], false;
      }
      return items[key], true;
    }

    method Set(key: bytes, value: bytes)
      requires Valid()
      modifies this
      ensures Valid() && items == old(items)[key := value]
    {
      assert items[key := value].Keys == items.Keys + {key};
      if key !in items {
        var idx := Search(key);
        InsertSorted(keys, items.Keys, key, idx);
        keys := keys[..idx] + [key] + keys[idx..];
      } else {
        assert items.Keys + {key} == items.Keys;
      }
      items := items[key := value];
    }

    method Delete(key: bytes) returns (existed: bool)
      requires Valid()
      modifies this
      ensures Valid() && items == old(items) - {key}
      ensures existed <==> key in old(items)
    {
      if key !in items {
        return false;
      }
      var idx := Search(key);
      RemoveSorted(keys, items.Keys, key, idx);
      items := items - {key};
      if idx < |keys| && keys[idx] == key {
        keys := keys[..idx] + keys[idx + 1..];
      }
      return true;
    }

    method Len() returns (n: nat)
      requires Valid()
      ensures n == |items|
    {
      n := |items|;
    }

    method Snapshot() returns (out: seq<Row>)
      requires Valid()
      ensures out == Rows(items)
    {
      assert forall k :: k in keys ==> k in items;
      out := [];
      for i := 0 to |keys|
        invariant |out| == i
        invariant forall j :: 0 <= j < i ==> out[j] == (keys[j], items[keys[j]])
      {
        assert keys[i] in keys;
        out := out + [(keys[i], items[keys[i]])];
      }
      assert out == RowsAt(keys, items);
    }

    /** From the first key on; the rows up to `hi` are those of the range. */
    method WalkFrom(lo: nat, ghost hi: nat, ghost all: seq<Row>, end: bytes, more: Row -> bool) returns (seen: seq<Row>)
      requires lo <= hi <= |keys| && forall k :: k in keys[lo..hi] ==> k in items
      requires all == RowsAt(keys[lo..hi], items)
      requires end != [] ==> forall i :: lo <= i < hi ==> Le(keys[i], end)
      requires hi < |keys| ==> end != [] && !Le(keys[hi], end)
      ensures seen == Visited(all, more)
    {
      var idx := lo;
      seen := [];
      WalkingEnds(all, [], more);
      while idx < |keys|
        invariant lo <= idx <= hi
        invariant Walking(all, seen, idx - lo, more)
      {
        var k := keys[idx];
        if |end| > 0 && !Le(k, end) {
          break;
        }
        RowOf(keys, items, lo, hi, idx);
        WalkingNext(all, seen, idx - lo, more);
        seen := seen + [(k, items[k])];
        if !more((k, items[k])) {
          return;
        }
        idx := idx + 1;
      }
      WalkingEnds(all, seen, more);
    }

    /** `more` answers for the callback; `seen` are the rows it was called with. */
    method Iterate(start: bytes, end: bytes, more: Row -> bool) returns (seen: seq<Row>)
      requires Valid()
      ensures seen == Visited(Scan(items, start, end), more)
    {
      var idx := 0;
      if |start| > 0 {
        idx := Search(start);
      }
      ghost var hi := RangeIsSlice(items, keys, start, end, idx, idx);
      seen := WalkFrom(idx, hi, Scan(items, start, end), end, more);
    }
  }
}
