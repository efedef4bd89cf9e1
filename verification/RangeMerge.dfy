/** Merging the address ranges of an imported subnet into one pool:
    internal/migrate/isc_dhcp.go and internal/migrate/kea.go, on IPv4. */
module RangeMerge {
  import opened Bytes
  import opened Wrappers
  import opened GoText
  import opened Cidr
  import Subnets

  datatype Span = Span(start: uint32, end: uint32)

  const MAX: int := 0xFFFF_FFFF

  predicate Covers(s: Span, u: int)
  {
    s.start <= u <= s.end
  }

  /** The union of the ranges. */
  ghost predicate InUnion(items: multiset<Span>, u: int)
  {
    exists s {:trigger items[s]} :: s in items && Covers(s, u)
  }

  ghost predicate Upright(items: multiset<Span>)
  {
    forall s {:trigger items[s]} :: s in items ==> s.start <= s.end
  }

  /** The union is one interval. */
  ghost predicate Gapless(items: multiset<Span>)
  {
    forall a, u, b {:trigger InUnion(items, a), InUnion(items, u), InUnion(items, b)} ::
      InUnion(items, a) && InUnion(items, b) && a <= u <= b ==> InUnion(items, u)
  }

  ghost predicate ByStart(p: seq<Span>)
  {
    forall i, j {:trigger p[i], p[j]} :: 0 <= i < j < |p| ==> p[i].start <= p[j].start
  }

  ghost predicate SortedPermutation(items: seq<Span>, p: seq<Span>)
  {
    multiset(p) == multiset(items) && ByStart(p)
  }

  // ---------- the sweep ----------

  /** One step: extend the range, unless there is a gap or nothing after its end. */
  function Extend(m: Span, next: Span): Option<Span>
  {
    if m.end != MAX && next.start <= m.end + 1
    then Some(Span(m.start, if next.end > m.end then next.end else m.end))
    else None
  }

  function Sweep(p: seq<Span>): Option<Span>
    requires p != []
  {
    var n := |p| - 1;
    if n == 0 then Some(p[0])
    else match Sweep(p[..n])
      case None => None
      case Some(m) => Extend(m, p[n])
  }

  lemma Split(p: seq<Span>)
    requires p != []
    ensures multiset(p) == multiset(p[..|p| - 1]) + multiset{p[|p| - 1]}
  {
    assert p == p[..|p| - 1] + [p[|p| - 1]];
  }

  lemma UnionSplit(p: seq<Span>, u: int)
    requires p != []
    ensures InUnion(multiset(p), u) <==> InUnion(multiset(p[..|p| - 1]), u) || Covers(p[|p| - 1], u)
  {
    Split(p);
    var front, last := multiset(p[..|p| - 1]), p[|p| - 1];
    assert last in multiset(p);
    assert forall s {:trigger multiset(p)[s]} {:trigger front[s]} :: s in multiset(p) <==> s in front || s == last;
  }

  lemma UprightFront(p: seq<Span>)
    requires p != [] && Upright(multiset(p))
    ensures Upright(multiset(p[..|p| - 1])) && p[|p| - 1].start <= p[|p| - 1].end
  {
    Split(p);
    assert p[|p| - 1] in multiset(p);
    forall s | s in multiset(p[..|p| - 1]) ensures s.start <= s.end {
      assert s in multiset(p);
    }
  }

  /** A sweep that succeeds gives exactly the union. */
  lemma {:induction false} SweepIsUnion(p: seq<Span>, u: int)
    requires p != [] && ByStart(p) && Upright(multiset(p)) && Sweep(p).Some?
    ensures Sweep(p).value.start == p[0].start <= Sweep(p).value.end
    ensures Covers(Sweep(p).value, u) <==> InUnion(multiset(p), u)
  {
    var n := |p| - 1;
    UnionSplit(p, u);
    UprightFront(p);
    if n > 0 {
      SweepIsUnion(p[..n], u);
      assert p[0].start <= p[n].start;
    } else {
      assert multiset(p[..0]) == multiset{};
    }
  }

  ghost predicate EarlyMax(p: seq<Span>)
  {
    exists k :: 0 <= k < |p| - 1 && p[k].end == MAX
  }

  lemma {:induction false} SweepEnd(p: seq<Span>)
    requires p != [] && Sweep(p).Some?
    ensures Sweep(p).value.end == MAX <==> exists k :: 0 <= k < |p| && p[k].end == MAX
  {
    var n := |p| - 1;
    if n > 0 {
      SweepEnd(p[..n]);
    }
  }

  /** A sweep that fails met a gap or an early range that ends at the last address. */
  lemma {:induction false} SweepFailure(p: seq<Span>)
    requires p != [] && ByStart(p) && Upright(multiset(p)) && Sweep(p) == None
    ensures EarlyMax(p) || !Gapless(multiset(p))
  {
    var n := |p| - 1;
    var front := p[..n];
    UprightFront(p);
    match Sweep(front)
    case None =>
      SweepFailure(front);
      if EarlyMax(front) {
        var k :| 0 <= k < n - 1 && front[k].end == MAX;
        assert p[k].end == MAX;
      } else {
        GapStays(p);
      }
    case Some(m) =>
      SweepEnd(front);
      if m.end == MAX {
        var k :| 0 <= k < n && front[k].end == MAX;
        assert p[k].end == MAX;
      } else {
        GapAfter(p, m);
      }
  }

  /** Later starts cannot fill a gap behind them. */
  lemma GapStays(p: seq<Span>)
    requires |p| > 1 && ByStart(p) && Upright(multiset(p)) && !Gapless(multiset(p[..|p| - 1]))
    ensures !Gapless(multiset(p))
  {
    var n := |p| - 1;
    var front := multiset(p[..n]);
    var a, u, b :| InUnion(front, a) && InUnion(front, b) && a <= u <= b && !InUnion(front, u);
    UnionSplit(p, a);
    UnionSplit(p, u);
    UnionSplit(p, b);
    var s :| s in front && Covers(s, b);
    var i :| 0 <= i < n && p[..n][i] == s;
    assert p[i].start <= p[n].start;
    assert !Covers(s, u);
  }

  lemma GapAfter(p: seq<Span>, m: Span)
    requires |p| > 1 && ByStart(p) && Upright(multiset(p))
    requires Sweep(p[..|p| - 1]) == Some(m) && p[|p| - 1].start > m.end + 1
    ensures !Gapless(multiset(p))
  {
    var n := |p| - 1;
    UprightFront(p);
    SweepIsUnion(p[..n], m.end);
    SweepIsUnion(p[..n], m.end + 1);
    UnionSplit(p, m.end);
    UnionSplit(p, m.end + 1);
    UnionSplit(p, p[n].start);
    assert InUnion(multiset(p), m.end) && InUnion(multiset(p), p[n].start) && !InUnion(multiset(p), m.end + 1);
  }

  lemma {:induction false} EarlyMaxFails(p: seq<Span>)
    requires p != [] && EarlyMax(p)
    ensures Sweep(p) == None
  {
    var n := |p| - 1;
    var k :| 0 <= k < n && p[k].end == MAX;
    if Sweep(p[..n]).Some? {
      SweepEnd(p[..n]);
      assert p[..n][k].end == MAX;
    }
  }

  /** Sorted ranges merge if and only if their union is one interval and no
      range but the last ends at 255.255.255.255. */
  lemma SweepExact(p: seq<Span>)
    requires p != [] && ByStart(p) && Upright(multiset(p))
    ensures Sweep(p).Some? <==> Gapless(multiset(p)) && !EarlyMax(p)
  {
    if EarlyMax(p) {
      EarlyMaxFails(p);
    } else if Sweep(p).Some? {
      forall a, u, b | InUnion(multiset(p), a) && InUnion(multiset(p), b) && a <= u <= b
        ensures InUnion(multiset(p), u) {
        SweepIsUnion(p, a);
        SweepIsUnion(p, u);
        SweepIsUnion(p, b);
      }
    } else {
      SweepFailure(p);
    }
  }

  // ---------- in terms of the ranges as given ----------

  ghost predicate NoMax(items: multiset<Span>)
  {
    forall s {:trigger items[s]} :: s in items ==> s.end != MAX
  }

  lemma EarlyMaxSplit(p: seq<Span>)
    requires p != []
    ensures EarlyMax(p) <==> !NoMax(multiset(p[..|p| - 1]))
  {
    var front := p[..|p| - 1];
    if EarlyMax(p) {
      var k :| 0 <= k < |p| - 1 && p[k].end == MAX;
      assert front[k] in multiset(front);
    }
    if !NoMax(multiset(front)) {
      var s :| s in multiset(front) && s.end == MAX;
      var k :| 0 <= k < |front| && front[k] == s;
      assert p[k].end == MAX;
    }
  }

  /** Whatever order equal starts come in: ranges none of which ends at the
      last address merge exactly when they leave no gap; with one that does,
      exactly when in addition no other one does and it comes last. */
  lemma MergeExact(items: seq<Span>, p: seq<Span>)
    requires items != [] && SortedPermutation(items, p) && Upright(multiset(items))
    ensures p != []
    ensures NoMax(multiset(items)) ==> (Sweep(p).Some? <==> Gapless(multiset(items)))
    ensures forall top {:trigger multiset(items)[top]} :: top in multiset(items) && top.end == MAX ==>
              (Sweep(p).Some? <==>
                 Gapless(multiset(items)) && NoMax(multiset(items) - multiset{top}) && p[|p| - 1] == top)
  {
    assert |p| == |multiset(p)| == |multiset(items)| == |items|;
    SweepExact(p);
    EarlyMaxSplit(p);
    Split(p);
    var front := multiset(p[..|p| - 1]);
    if NoMax(multiset(items)) {
      forall s | s in front ensures s.end != MAX {
        assert s in multiset(items);
      }
    }
    forall top | top in multiset(items) && top.end == MAX
      ensures NoMax(front) <==> NoMax(multiset(items) - multiset{top}) && p[|p| - 1] == top
    {
      if p[|p| - 1] == top {
        assert multiset(items) - multiset{top} == front;
      } else {
        assert top in front;
      }
    }
  }

  /** In terms of the ranges as given: with one that ends at the last address,
      they merge exactly when they leave no gap if it starts after all others;
      two never merge, nor does one followed by a later start. */
  lemma MergeByInput(items: seq<Span>, p: seq<Span>, top: Span)
    requires SortedPermutation(items, p) && Upright(multiset(items)) && top in items && top.end == MAX
    ensures p != []
    ensures var others := multiset(items) - multiset{top};
            && (NoMax(others) && (forall s {:trigger others[s]} :: s in others ==> s.start < top.start) ==>
                  (Sweep(p).Some? <==> Gapless(multiset(items))))
            && (!NoMax(others) || (exists s {:trigger others[s]} :: s in others && s.start > top.start) ==>
                  Sweep(p) == None)
  {
    assert top in multiset(items);
    MergeExact(items, p);
    Split(p);
    var last, others := p[|p| - 1], multiset(items) - multiset{top};
    if last == top {
      forall s | s in others ensures s.start <= top.start {
        assert s in multiset(p[..|p| - 1]);
        var i :| 0 <= i < |p| - 1 && p[..|p| - 1][i] == s;
        assert p[i].start <= p[|p| - 1].start;
      }
    } else {
      assert last in multiset(p) && last in others && top in multiset(p[..|p| - 1]);
      var i :| 0 <= i < |p| - 1 && p[..|p| - 1][i] == top;
      assert p[i].start <= p[|p| - 1].start;
    }
  }

  function InsertByStart(x: Span, p: seq<Span>): seq<Span>
  {
    if p == [] || x.start <= p[0].start then [x] + p else [p[0]] + InsertByStart(x, p[1..])
  }

  lemma HeadFirst(x: Span, p: seq<Span>)
    requires ByStart(p) && (p != [] ==> x.start <= p[0].start)
    ensures ByStart([x] + p)
  {
    forall k | 0 <= k < |p| ensures x.start <= p[k].start {
      assert p[0].start <= p[k].start;
    }
  }

  lemma {:induction false} InsertKeepsSorted(x: Span, p: seq<Span>)
    requires ByStart(p)
    ensures ByStart(InsertByStart(x, p)) && multiset(InsertByStart(x, p)) == multiset(p) + multiset{x}
    ensures InsertByStart(x, p)[0] == if p == [] || x.start <= p[0].start then x else p[0]
  {
    if p == [] || x.start <= p[0].start {
      HeadFirst(x, p);
    } else {
      var tail := p[1..];
      assert p == [p[0]] + tail;
      InsertKeepsSorted(x, tail);
      HeadFirst(p[0], InsertByStart(x, tail));
    }
  }

  lemma {:induction false} CanBeSorted(items: seq<Span>) returns (p: seq<Span>)
    ensures SortedPermutation(items, p)
  {
    if items == [] {
      p := [];
    } else {
      var rest := CanBeSorted(items[1..]);
      InsertKeepsSorted(items[0], rest);
      assert items == [items[0]] + items[1..];
      p := InsertByStart(items[0], rest);
    }
  }

  /** A range whose start no other exceeds can come last. */
  lemma CanComeLast(items: seq<Span>, x: Span) returns (p: seq<Span>)
    requires x in items && forall s :: s in items ==> s.start <= x.start
    ensures SortedPermutation(items, p) && p[|p| - 1] == x
  {
    var i :| 0 <= i < |items| && items[i] == x;
    assert items == items[..i] + [x] + items[i + 1..];
    var rest := CanBeSorted(items[..i] + items[i + 1..]);
    p := rest + [x];
    forall k | 0 <= k < |rest| ensures rest[k].start <= x.start {
      assert rest[k] in multiset(rest);
      assert rest[k] in multiset(items[..i] + items[i + 1..]);
    }
  }

  /** Whether the outcome hangs on how the sort leaves equal starts: with one
      range that ends at the last address and none that starts after it, and
      no gap, exactly when another range starts together with it. */
  lemma TieHangsOnSort(items: seq<Span>, top: Span)
    requires top in items && top.end == MAX && Upright(multiset(items)) && Gapless(multiset(items))
    requires NoMax(multiset(items) - multiset{top}) && forall s :: s in items ==> s.start <= top.start
    ensures exists p: seq<Span> :: SortedPermutation(items, p) && p != [] && Sweep(p).Some?
    ensures (exists q: seq<Span> :: SortedPermutation(items, q) && q != [] && Sweep(q) == None)
            <==> exists s {:trigger s in items} :: s in items && s != top && s.start == top.start
  {
    var others := multiset(items) - multiset{top};
    assert top in multiset(items);
    var p := CanComeLast(items, top);
    MergeExact(items, p);
    if s :| s in items && s != top && s.start == top.start {
      var q := CanComeLast(items, s);
      MergeExact(items, q);
    }
    forall q: seq<Span> | SortedPermutation(items, q) && q != [] && Sweep(q) == None
      ensures exists s {:trigger s in items} :: s in items && s != top && s.start == top.start
    {
      MergeExact(items, q);
      var last := q[|q| - 1];
      assert last in multiset(q) && top in multiset(q);
      assert last in items;
      var i :| 0 <= i < |q| && q[i] == top;
      assert q[i].start <= last.start;
    }
  }

  /** 0.0.0.0-255.255.255.255 and 0.0.0.0-0.0.0.5 merge in one order and not in
      the other. */
  lemma TieExample()
    ensures var all, low := Span(0, MAX), Span(0, 5);
            && SortedPermutation([all, low], [low, all]) && Sweep([low, all]) == Some(all)
            && SortedPermutation([all, low], [all, low]) && Sweep([all, low]) == None
  {
    var all, low := Span(0, MAX), Span(0, 5);
    assert [low, all][..1] == [low] && [all, low][..1] == [all];
    assert multiset([low, all]) == multiset{all, low} == multiset([all, low]);
  }

  // ---------- isc_dhcp.go ----------

  datatype Merge = NoRanges | InvalidAddress | NonContiguous | Merged(span: Span, warned: bool)

  ghost predicate PrefixSorted(s: seq<Span>, n: int)
    requires 0 <= n <= |s|
  {
    forall i, j {:trigger s[i], s[j]} :: 0 <= i < n && i < j < |s| ==> s[i].start <= s[j].start
  }

  /** The sort in progress: the first i items are in place, and item i is the
      least of those before j. */
  ghost predicate Sorting(items: seq<Span>, s: seq<Span>, i: int, j: int)
  {
    && 0 <= i < j <= |s| && multiset(s) == multiset(items) && PrefixSorted(s, i)
    && forall k {:trigger s[k]} :: i < k < j ==> s[i].start <= s[k].start
  }

  lemma SwapStep(items: seq<Span>, s: seq<Span>, i: int, j: int)
    requires Sorting(items, s, i, j) && j < |s| && s[j].start < s[i].start
    ensures Sorting(items, s[i := s[j]][j := s[i]], i, j + 1)
  {
  }

  /** The exchange sort of mergeISCRanges. */
  method ExchangeSort(items: array<Span>)
    modifies items
    ensures SortedPermutation(old(items[..]), items[..])
  {
    ghost var given := items[..];
    var i := 0;
    while i < items.Length - 1
      invariant 0 <= i <= items.Length
      invariant multiset(items[..]) == multiset(given) && PrefixSorted(items[..], i)
      decreases items.Length - i
    {
      for j := i + 1 to items.Length
        invariant Sorting(given, items[..], i, j)
      {
        if items[j].start < items[i].start {
          ghost var was := items[..];
          items[i], items[j] := items[j], items[i];
          assert items[..] == was[i := was[j]][j := was[i]];
          SwapStep(given, was, i, j);
        }
      }
      i := i + 1;
    }
  }

  /** What the sweep makes of the ranges in some sorted order. */
  predicate Outcome(p: seq<Span>, r: Merge)
  {
    if p == [] then r == NoRanges
    else match Sweep(p)
      case None => r == NonContiguous
      case Some(m) => r == Merged(m, |p| > 1)
  }

  /** netip.Addr.Next; the zero Addr is None. */
  function Next(u: uint32): Option<uint32>
  {
    if u == MAX then None else Some(u + 1)
  }

  lemma SweepStep(p: seq<Span>, n: nat)
    requires 0 < n < |p|
    ensures Sweep(p[..n + 1]) == match Sweep(p[..n]) case None => None case Some(m) => Extend(m, p[n])
  {
    assert p[..n + 1][..n] == p[..n];
  }

  lemma {:induction false} SweepStops(p: seq<Span>, n: nat)
    requires 0 < n <= |p| && Sweep(p[..n]) == None
    ensures Sweep(p) == None
    decreases |p| - n
  {
    if n < |p| {
      SweepStep(p, n);
      SweepStops(p, n + 1);
    } else {
      assert p[..n] == p;
    }
  }

  /** mergeISCRanges; a range whose addresses do not parse is None. */
  method MergeIscRanges(ranges: seq<Option<Span>>) returns (r: Merge)
    ensures r == InvalidAddress <==> None in ranges
    ensures None !in ranges ==> exists p {:trigger Outcome(p, r)} ::
              SortedPermutation(Values(ranges), p) && Outcome(p, r)
  {
    if |ranges| == 0 {
      assert Values(ranges) == [] && SortedPermutation([], []) && Outcome([], NoRanges);
      return NoRanges;
    }
    var items := new Span[|ranges|];
    for i := 0 to |ranges|
      invariant None !in ranges[..i]
      invariant forall k :: 0 <= k < i ==> ranges[k] == Some(items[k])
    {
      if ranges[i] == None {
        return InvalidAddress;
      }
      items[i] := ranges[i].value;
    }
    assert ranges[..|ranges|] == ranges;
    assert items[..] == Values(ranges);
    ExchangeSort(items);
    ghost var p := items[..];
    var start, end := items[0].start, items[0].end;
    for idx := 1 to items.Length
      invariant items[..] == p
      invariant Sweep(p[..idx]) == Some(Span(start, end))
    {
      var next := items[idx];
      SweepStep(p, idx);
      if Next(end).Some? && next.start <= Next(end).value {
        if next.end > end {
          end := next.end;
        }
        continue;
      }
      SweepStops(p, idx + 1);
      assert Outcome(p, NonContiguous);
      return NonContiguous;
    }
    assert p[..|p|] == p;
    r := Merged(Span(start, end), items.Length > 1);
    assert Outcome(p, r);
  }

  function Values(ranges: seq<Option<Span>>): (v: seq<Span>)
    requires None !in ranges
    ensures |v| == |ranges|
  {
    seq(|ranges|, i requires 0 <= i < |ranges| => ranges[i].value)
  }

  // ---------- kea.go ----------

  /** The sweep of normalizeKeaPools; `ranges` is in the order sort.Slice left. */
  method SweepKeaPools(ranges: seq<Span>) returns (r: Merge)
    requires ranges != []
    ensures Outcome(ranges, r)
  {
    var mergedStart, mergedEnd := ranges[0].start, ranges[0].end;
    for idx := 1 to |ranges|
      invariant Sweep(ranges[..idx]) == Some(Span(mergedStart, mergedEnd))
    {
      SweepStep(ranges, idx);
      var current, nextAddr := ranges[idx], Next(mergedEnd);
      if nextAddr.Some? && current.start <= nextAddr.value {
        if current.end > mergedEnd {
          mergedEnd := current.end;
        }
        continue;
      }
      SweepStops(ranges, idx + 1);
      return NonContiguous;
    }
    assert ranges[..|ranges|] == ranges;
    return Merged(Span(mergedStart, mergedEnd), |ranges| > 1);
  }

  /** Every outcome, for any sorted order: a merged range is the union of the
      ranges, and without a range that ends at 255.255.255.255 the only error
      is a gap. */
  lemma OutcomeExact(items: seq<Span>, p: seq<Span>, r: Merge)
    requires SortedPermutation(items, p) && Outcome(p, r) && Upright(multiset(items))
    ensures r.Merged? ==> forall u: int :: Covers(r.span, u) <==> InUnion(multiset(items), u)
    ensures r == NonContiguous && NoMax(multiset(items)) ==> !Gapless(multiset(items))
    ensures r == NonContiguous && Gapless(multiset(items)) ==> |items| > 1 && !NoMax(multiset(items))
    ensures r == NoRanges <==> items == []
  {
    assert |p| == |multiset(p)| == |multiset(items)| == |items|;
    if items != [] {
      MergeExact(items, p);
      if r.Merged? {
        forall u: int ensures Covers(r.span, u) <==> InUnion(multiset(items), u) {
          SweepIsUnion(p, u);
        }
      }
    }
  }

  /** lastIPv4InPrefix: the network address with all host bits set. */
  function LastIPv4InPrefix(prefix: Prefix): uint32
    requires prefix.addr.is4
  {
    Pow2Of32();
    LastFits(prefix);
    var hostBits := 32 - prefix.bits;
    var mask := if hostBits >= 32 then MAX else if hostBits > 0 then Pow2(hostBits) - 1 else 0;
    // The network address has no host bit set, so "or" is addition.
    First(prefix) + mask
  }

  datatype KeaPool = BadPool | KeaPool(start: Addr, end: Addr)

  /** The two sides of the first dash. */
  function CutDash(t: text): Option<(text, text)>
  {
    if t == [] then None
    else if t[0] == 0x2D then Some(([], t[1..]))
    else match CutDash(t[1..])
      case None => None
      case Some(cut) => Some(([t[0]] + cut.0, cut.1))
  }

  lemma {:induction false} CutDashExact(t: text)
    ensures CutDash(t) == None <==> 0x2D !in t
    ensures CutDash(t).Some? ==> t == CutDash(t).value.0 + [0x2D] + CutDash(t).value.1 && 0x2D !in CutDash(t).value.0
  {
    if t != [] {
      CutDashExact(t[1..]);
      assert t == [t[0]] + t[1..];
    }
  }

  function ParseKeaPool(n: Subnets.Names, value: text): KeaPool
  {
    var v := TrimSpace(value);
    if v == [] then BadPool
    else match CutDash(v)
      case Some((left, right)) =>
        var start, end := n.parseAddr(TrimSpace(left)), n.parseAddr(TrimSpace(right));
        if start == None || end == None || Subnets.After(start.value, end.value) then BadPool
        else KeaPool(start.value, end.value)
      case None =>
        match n.parsePrefix(v)
        case None => BadPool
        case Some(prefix) =>
          if !Masked(prefix).addr.is4 then BadPool
          else KeaPool(Masked(prefix).addr, V4(LastIPv4InPrefix(prefix)))
  }

  /** A pool that parses is upright; one written as a prefix is all of it. */
  lemma KeaPoolSound(n: Subnets.Names, value: text)
    requires ParseKeaPool(n, value).KeaPool?
    ensures var r := ParseKeaPool(n, value);
            && (r.start.is4 == r.end.is4 ==> r.start.value <= r.end.value)
            && (0x2D !in TrimSpace(value) ==>
                  && n.parsePrefix(TrimSpace(value)).Some?
                  && forall a: Addr :: In(n.parsePrefix(TrimSpace(value)).value, a) <==>
                                       a.is4 && r.start.value <= a.value <= r.end.value)
  {
    CutDashExact(TrimSpace(value));
    Pow2Of32();
    assert Pow2(0) == 1;
  }
}
