/** Replaying keyed writes: the law the log recovery of the storage engine and
    the lease replication of the HA pair both rest on. */
module LastWriter {
  import opened Wrappers

  /** A put, or a delete when there is no value. */
  datatype Write<K, V> = Write(key: K, value: Option<V>)

  function Lookup<K, V>(m: map<K, V>, k: K): Option<V>
  {
    if k in m then Some(m[k]) else None
  }

  function Apply<K, V>(m: map<K, V>, w: Write<K, V>): map<K, V>
  {
    match w.value
    case Some(v) => m[w.key := v]
    case None => m - {w.key}
  }

  function ApplyAll<K, V>(m: map<K, V>, ws: seq<Write<K, V>>): map<K, V>
  {
    if ws == [] then m else Apply(ApplyAll(m, ws[..|ws| - 1]), ws[|ws| - 1])
  }

  ghost predicate Touches<K, V>(ws: seq<Write<K, V>>, k: K)
  {
    exists i :: 0 <= i < |ws| && ws[i].key == k
  }

  lemma ApplyOne<K, V>(m: map<K, V>, ws: seq<Write<K, V>>, w: Write<K, V>)
    ensures ApplyAll(m, ws + [w]) == Apply(ApplyAll(m, ws), w)
  {
    assert (ws + [w])[..|ws|] == ws;
  }

  lemma {:induction false} ApplySplit<K, V>(m: map<K, V>, a: seq<Write<K, V>>, b: seq<Write<K, V>>)
    ensures ApplyAll(m, a + b) == ApplyAll(ApplyAll(m, a), b)
    decreases |b|
  {
    if b == [] {
      assert a + b == a;
    } else {
      var n := |b| - 1;
      assert a + b == (a + b[..n]) + [b[n]];
      ApplyOne(m, a + b[..n], b[n]);
      ApplySplit(m, a, b[..n]);
    }
  }

  /** A key nobody writes keeps its value. */
  lemma {:induction false} Untouched<K, V>(m: map<K, V>, ws: seq<Write<K, V>>, k: K)
    requires !Touches(ws, k)
    ensures Lookup(ApplyAll(m, ws), k) == Lookup(m, k)
    decreases |ws|
  {
    if ws != [] {
      var n := |ws| - 1;
      forall i | 0 <= i < n ensures ws[..n][i].key != k { assert ws[i].key != k; }
      Untouched(m, ws[..n], k);
    }
  }

  /** A key somebody writes forgets where the replay started from. */
  lemma {:induction false} LastWriteWins<K, V>(m: map<K, V>, m': map<K, V>, ws: seq<Write<K, V>>, k: K)
    requires Touches(ws, k)
    ensures Lookup(ApplyAll(m, ws), k) == Lookup(ApplyAll(m', ws), k)
    decreases |ws|
  {
    var n := |ws| - 1;
    if ws[n].key != k {
      var i :| 0 <= i < |ws| && ws[i].key == k;
      assert ws[..n][i].key == k;
      LastWriteWins(m, m', ws[..n], k);
    }
  }

  lemma SameLookups<K(!new), V(!new)>(a: map<K, V>, b: map<K, V>)
    requires forall k :: Lookup(a, k) == Lookup(b, k)
    ensures a == b
  {
    forall k ensures k in a <==> k in b { assert Lookup(a, k) == Lookup(b, k); }
    forall k | k in a ensures a[k] == b[k] { assert Lookup(a, k) == Lookup(b, k); }
  }

  /** Replaying the writes from..upto over a state that already holds the
      writes up to `held` gives the state after `upto`, whenever the overlap
      leaves no write out. */
  lemma ReplayOver<K(!new), V(!new)>(base: map<K, V>, ws: seq<Write<K, V>>, from: nat, held: nat, upto: nat)
    requires from <= held <= upto <= |ws|
    ensures ApplyAll(ApplyAll(base, ws[..held]), ws[from..upto]) == ApplyAll(base, ws[..upto])
  {
    var state := ApplyAll(base, ws[..held]);
    assert ws[..upto] == ws[..from] + ws[from..upto];
    ApplySplit(base, ws[..from], ws[from..upto]);
    assert ws[..held] == ws[..from] + ws[from..held];
    ApplySplit(base, ws[..from], ws[from..held]);
    forall k ensures Lookup(ApplyAll(state, ws[from..upto]), k) == Lookup(ApplyAll(base, ws[..upto]), k) {
      if Touches(ws[from..upto], k) {
        LastWriteWins(state, ApplyAll(base, ws[..from]), ws[from..upto], k);
      } else {
        Untouched(state, ws[from..upto], k);
        Untouched(ApplyAll(base, ws[..from]), ws[from..upto], k);
        forall i | 0 <= i < |ws[from..held]| ensures ws[from..held][i].key != k {
          assert ws[from..held][i] == ws[from..upto][i];
        }
        Untouched(ApplyAll(base, ws[..from]), ws[from..held], k);
      }
    }
    SameLookups(ApplyAll(state, ws[from..upto]), ApplyAll(base, ws[..upto]));
  }

  /** Two states agree on every key the writes leave alone. */
  ghost predicate AgreeElsewhere<K(!new), V(!new)>(a: map<K, V>, b: map<K, V>, ws: seq<Write<K, V>>)
  {
    forall k :: !Touches(ws, k) ==> Lookup(a, k) == Lookup(b, k)
  }

  /** Replays over two starting points agree if and only if these agree on
      every key the replay does not write. */
  lemma SameReplayIff<K(!new), V(!new)>(a: map<K, V>, b: map<K, V>, ws: seq<Write<K, V>>)
    ensures ApplyAll(a, ws) == ApplyAll(b, ws) <==> AgreeElsewhere(a, b, ws)
  {
    forall k ensures Lookup(ApplyAll(a, ws), k) == Lookup(ApplyAll(b, ws), k)
                     <==> Touches(ws, k) || Lookup(a, k) == Lookup(b, k) {
      if Touches(ws, k) {
        LastWriteWins(a, b, ws, k);
      } else {
        Untouched(a, ws, k);
        Untouched(b, ws, k);
      }
    }
    if AgreeElsewhere(a, b, ws) {
      SameLookups(ApplyAll(a, ws), ApplyAll(b, ws));
    }
  }
}
