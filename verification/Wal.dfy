/** internal/storage/wal.go: a segmented log of CRC-framed records. The
    checksum is an arbitrary function of the payload; a segment file is the
    byte string it holds. */
module Wal {
  import opened Bytes
  import opened Wrappers

  datatype Record = Record(op: byte, key: bytes, value: bytes)

  type Checksum = bytes -> uint32

  /** What a replay hands to its callback, and whether it ends without an error. */
  datatype Replayed = Replayed(records: seq<Record>, ok: bool)

  // ---------- writing ----------

  /** The three length checks of Append. */
  predicate Appendable(r: Record)
  {
    && |r.key| < U16_LIMIT
    && |r.value| < U32_LIMIT
    && 7 + |r.key| + |r.value| < U32_LIMIT
  }

  function Payload(r: Record): (p: bytes)
    requires Appendable(r)
    ensures |p| == 7 + |r.key| + |r.value|
  {
    [r.op] + U16(|r.key|) + r.key + U32(|r.value|) + r.value
  }

  function Frame(crc: Checksum, r: Record): (f: bytes)
    requires Appendable(r)
    ensures |f| == 8 + |Payload(r)|
  {
    U32(|Payload(r)|) + U32(crc(Payload(r))) + Payload(r)
  }

  predicate AllAppendable(rs: seq<Record>)
  {
    forall i :: 0 <= i < |rs| ==> Appendable(rs[i])
  }

  /** A segment is the concatenation of its frames. */
  function Segment(crc: Checksum, rs: seq<Record>): bytes
    requires AllAppendable(rs)
  {
    if rs == [] then [] else Frame(crc, rs[0]) + Segment(crc, rs[1..])
  }

  // ---------- reading ----------

  function ParsePayload(p: bytes): Option<Record>
  {
    if |p| < 7 then None else
      var klen := GetU16(p[1..3]);
      if |p| < 3 + klen + 4 then None else
        var vlen := GetU32(p[3 + klen..7 + klen]);
        if |p| < 7 + klen + vlen then None
        else Some(Record(p[0], p[3..3 + klen], p[7 + klen..7 + klen + vlen]))
  }

  function Prepend(rs: seq<Record>, tail: Replayed): Replayed
  {
    Replayed(rs + tail.records, tail.ok)
  }

  /** What stands at the start of some bytes: the end of the file, damage, or
      a record and the number of bytes it takes. */
  datatype Item = Stop(ok: bool) | Next(record: Record, size: nat)

  /** A short header, a zero length or a short payload ends a file quietly; a
      wrong checksum or an unreadable payload is an error. */
  function ReadItem(crc: Checksum, data: bytes): (item: Item)
    ensures item.Next? ==> 8 <= item.size <= |data|
  {
    if |data| < 8 then Stop(true) else
      var length := GetU32(data[..4]);
      if length == 0 || |data| < 8 + length then Stop(true) else
        var payload := data[8..8 + length];
        if crc(payload) != GetU32(data[4..8]) || ParsePayload(payload).None? then Stop(false)
        else Next(ParsePayload(payload).value, 8 + length)
  }

  /** One segment file. */
  function ReplaySegment(crc: Checksum, data: bytes): Replayed
    decreases |data|
  {
    match ReadItem(crc, data)
    case Stop(ok) => Replayed([], ok)
    case Next(r, n) => Prepend([r], ReplaySegment(crc, data[n..]))
  }

  /** All segment files in order, stopping at the first error. */
  function ReplayAll(crc: Checksum, files: seq<bytes>): Replayed
  {
    if files == [] then Replayed([], true) else
      var first := ReplaySegment(crc, files[0]);
      if !first.ok then first else Prepend(first.records, ReplayAll(crc, files[1..]))
  }

  // ---------- what reading does to what was written ----------

  lemma PayloadRoundTrip(r: Record)
    requires Appendable(r)
    ensures ParsePayload(Payload(r)) == Some(r)
  {
    var p := Payload(r);
    var klen := |r.key|;
    assert p[1..3] == U16(klen) + [];
    U16RoundTrip(klen, []);
    assert p[3 + klen..7 + klen] == U32(|r.value|) + [];
    U32RoundTrip(|r.value|, []);
    assert p[3..3 + klen] == r.key;
    assert p[7 + klen..7 + klen + |r.value|] == r.value;
  }

  lemma FrameRoundTrip(crc: Checksum, r: Record, rest: bytes)
    requires Appendable(r)
    ensures ReplaySegment(crc, Frame(crc, r) + rest) == Prepend([r], ReplaySegment(crc, rest))
  {
    var p := Payload(r);
    var data := Frame(crc, r) + rest;
    assert data[..4] == U32(|p|) + [];
    U32RoundTrip(|p|, []);
    assert data[4..8] == U32(crc(p)) + [];
    U32RoundTrip(crc(p), []);
    assert data[8..8 + |p|] == p;
    assert data[8 + |p|..] == rest;
    PayloadRoundTrip(r);
    assert ReadItem(crc, data) == Next(r, 8 + |p|);
  }

  /** A frame that was cut short reads as the end of the file. */
  lemma TornFrame(crc: Checksum, r: Record, c: nat)
    requires Appendable(r) && c < |Frame(crc, r)|
    ensures ReplaySegment(crc, Frame(crc, r)[..c]) == Replayed([], true)
  {
    if c >= 8 {
      var p := Payload(r);
      assert Frame(crc, r)[..c][..4] == U32(|p|) + [];
      U32RoundTrip(|p|, []);
    }
  }

  /** The records of a segment whose last byte lies before the cut. */
  function Complete(crc: Checksum, rs: seq<Record>, cut: nat): seq<Record>
    requires AllAppendable(rs)
  {
    if rs == [] || cut < |Frame(crc, rs[0])| then []
    else [rs[0]] + Complete(crc, rs[1..], cut - |Frame(crc, rs[0])|)
  }

  lemma {:induction false} TornSegment(crc: Checksum, rs: seq<Record>, cut: nat)
    requires AllAppendable(rs) && cut <= |Segment(crc, rs)|
    ensures ReplaySegment(crc, Segment(crc, rs)[..cut]) == Replayed(Complete(crc, rs, cut), true)
  {
    if rs != [] {
      var f, rest := Frame(crc, rs[0]), Segment(crc, rs[1..]);
      if cut < |f| {
        TornFrame(crc, rs[0], cut);
        assert (f + rest)[..cut] == f[..cut];
      } else {
        TornSegment(crc, rs[1..], cut - |f|);
        FrameRoundTrip(crc, rs[0], rest[..cut - |f|]);
        assert (f + rest)[..cut] == f + rest[..cut - |f|];
      }
    }
  }

  lemma {:induction false} UncutIsComplete(crc: Checksum, rs: seq<Record>)
    requires AllAppendable(rs)
    ensures Complete(crc, rs, |Segment(crc, rs)|) == rs
  {
    if rs != [] {
      UncutIsComplete(crc, rs[1..]);
      assert rs == [rs[0]] + rs[1..];
    }
  }

  lemma WholeSegment(crc: Checksum, rs: seq<Record>)
    requires AllAppendable(rs)
    ensures ReplaySegment(crc, Segment(crc, rs)) == Replayed(rs, true)
  {
    var data := Segment(crc, rs);
    TornSegment(crc, rs, |data|);
    UncutIsComplete(crc, rs);
    assert data[..|data|] == data;
  }

  // ---------- several segments ----------

  function Flatten(layout: seq<seq<Record>>): seq<Record>
  {
    if layout == [] then [] else layout[0] + Flatten(layout[1..])
  }

  /** The segment files hold exactly these records. */
  ghost predicate Laid(crc: Checksum, files: seq<bytes>, layout: seq<seq<Record>>)
  {
    && |files| == |layout|
    && forall i :: 0 <= i < |files| ==> AllAppendable(layout[i]) && files[i] == Segment(crc, layout[i])
  }

  lemma {:induction false} FlattenSnoc(layout: seq<seq<Record>>, last: seq<Record>)
    ensures Flatten(layout + [last]) == Flatten(layout) + last
  {
    if layout == [] {
      assert [last][1..] == [];
    } else {
      FlattenSnoc(layout[1..], last);
      assert (layout + [last])[1..] == layout[1..] + [last];
    }
  }

  /** Torn-tail recovery: whatever was appended, however it was split over
      segments, and wherever the last segment is cut, replay ends without an
      error and hands over exactly the complete records, in order. */
  lemma {:induction false} TornTail(crc: Checksum, files: seq<bytes>, layout: seq<seq<Record>>, last: seq<Record>,
                                    cut: nat)
    requires Laid(crc, files, layout)
    requires AllAppendable(last) && cut <= |Segment(crc, last)|
    ensures ReplayAll(crc, files + [Segment(crc, last)[..cut]])
         == Replayed(Flatten(layout) + Complete(crc, last, cut), true)
  {
    var torn := Segment(crc, last)[..cut];
    var all := files + [torn];
    if files == [] {
      TornSegment(crc, last, cut);
      assert all[1..] == [];
    } else {
      WholeSegment(crc, layout[0]);
      TornTail(crc, files[1..], layout[1..], last, cut);
      assert all[1..] == files[1..] + [torn];
    }
  }

  /** Replay of an uncut log hands over everything that was appended. */
  lemma ReplayLaid(crc: Checksum, files: seq<bytes>, layout: seq<seq<Record>>)
    requires Laid(crc, files, layout) && files != []
    ensures ReplayAll(crc, files) == Replayed(Flatten(layout), true)
  {
    var n := |files| - 1;
    var last := Segment(crc, layout[n]);
    TornTail(crc, files[..n], layout[..n], layout[n], |last|);
    UncutIsComplete(crc, layout[n]);
    FlattenSnoc(layout[..n], layout[n]);
    assert layout == layout[..n] + [layout[n]];
    assert last[..|last|] == last;
    assert files == files[..n] + [last];
  }

  lemma {:induction false} SegmentSnoc(crc: Checksum, rs: seq<Record>, r: Record)
    requires AllAppendable(rs) && Appendable(r)
    ensures AllAppendable(rs + [r])
    ensures Segment(crc, rs + [r]) == Segment(crc, rs) + Frame(crc, r)
  {
    if rs == [] {
      assert [r][1..] == [];
    } else {
      SegmentSnoc(crc, rs[1..], r);
      assert (rs + [r])[1..] == rs[1..] + [r];
    }
  }

  lemma LaidAppend(crc: Checksum, files: seq<bytes>, layout: seq<seq<Record>>, n: nat, r: Record)
    requires Laid(crc, files, layout) && |files| == n + 1 && Appendable(r)
    ensures Laid(crc, files[n := files[n] + Frame(crc, r)], layout[n := layout[n] + [r]])
    ensures Flatten(layout[n := layout[n] + [r]]) == Flatten(layout) + [r]
  {
    var held := layout[n];
    SegmentSnoc(crc, held, r);
    FlattenSnoc(layout[..n], held);
    FlattenSnoc(layout[..n], held + [r]);
    assert layout == layout[..n] + [held];
    assert layout[n := held + [r]] == layout[..n] + [held + [r]];
    assert Flatten(layout[..n]) + (held + [r]) == Flatten(layout[..n]) + held + [r];
  }

  /** Where a frame goes: the open segment while it has room, else a new one. */
  function Written(segments: seq<bytes>, limit: nat, frame: bytes): seq<bytes>
    requires segments != []
  {
    var n := |segments| - 1;
    if |segments[n]| + |frame| <= limit then segments[n := segments[n] + frame] else segments + [frame]
  }

  lemma WrittenLast(segments: seq<bytes>, limit: nat, frame: bytes)
    requires segments != []
    ensures var n := |segments| - 1;
            var turned := if |segments[n]| + |frame| <= limit then segments else segments + [[]];
            turned[|turned| - 1 := turned[|turned| - 1] + frame] == Written(segments, limit, frame)
  {
    assert [] + frame == frame;
  }

  /** What a cut leaves of a segment are its first records. */
  lemma {:induction false} CompletePrefix(crc: Checksum, rs: seq<Record>, cut: nat)
    requires AllAppendable(rs)
    ensures var n := |Complete(crc, rs, cut)|;
            n <= |rs| && Complete(crc, rs, cut) == rs[..n]
  {
    if rs != [] && cut >= |Frame(crc, rs[0])| {
      CompletePrefix(crc, rs[1..], cut - |Frame(crc, rs[0])|);
      var n := |Complete(crc, rs, cut)|;
      assert rs[..n] == [rs[0]] + rs[1..][..n - 1];
    }
  }

  lemma PrependTwice(a: seq<Record>, b: seq<Record>, tail: Replayed)
    ensures Prepend(a, Prepend(b, tail)) == Prepend(a + b, tail)
  {
    assert a + (b + tail.records) == a + b + tail.records;
  }

  /** The slices the replay loop takes from the file are those of what is left. */
  lemma SlicesAt(data: bytes, pos: nat, n: nat)
    requires pos + 8 + n <= |data|
    ensures data[pos..][..4] == data[pos..pos + 4]
    ensures data[pos..][4..8] == data[pos + 4..pos + 8]
    ensures data[pos..][8..8 + n] == data[pos + 8..pos + 8 + n]
    ensures data[pos..][8 + n..] == data[pos + 8 + n..]
  {
  }

  /** A file is read up to a position. */
  ghost predicate ReadUpTo(crc: Checksum, data: bytes, records: seq<Record>, pos: nat)
  {
    pos <= |data| && ReplaySegment(crc, data) == Prepend(records, ReplaySegment(crc, data[pos..]))
  }

  lemma ReadOn(crc: Checksum, data: bytes, records: seq<Record>, pos: nat)
    requires ReadUpTo(crc, data, records, pos)
    ensures if |data| - pos < 8 then ReplaySegment(crc, data) == Replayed(records, true)
            else
              var length := GetU32(data[pos..pos + 4]);
              if length == 0 || |data| - pos - 8 < length then ReplaySegment(crc, data) == Replayed(records, true)
              else
                var payload := data[pos + 8..pos + 8 + length];
                if crc(payload) != GetU32(data[pos + 4..pos + 8]) || ParsePayload(payload).None?
                then ReplaySegment(crc, data) == Replayed(records, false)
                else ReadUpTo(crc, data, records + [ParsePayload(payload).value], pos + 8 + length)
  {
    SegmentStep(crc, data, pos);
    assert records + [] == records;
    if |data| - pos >= 8 {
      var length := GetU32(data[pos..pos + 4]);
      if |data| - pos - 8 >= length {
        var payload := data[pos + 8..pos + 8 + length];
        if ParsePayload(payload).Some? {
          PrependTwice(records, [ParsePayload(payload).value], ReplaySegment(crc, data[pos + 8 + length..]));
        }
      }
    }
  }

  /** Reading on from a position, in terms of the whole file. */
  lemma SegmentStep(crc: Checksum, data: bytes, pos: nat)
    requires pos <= |data|
    ensures ReplaySegment(crc, data[pos..]) ==
            if |data| - pos < 8 then Replayed([], true)
            else
              var length := GetU32(data[pos..pos + 4]);
              if length == 0 || |data| - pos - 8 < length then Replayed([], true)
              else
                var payload := data[pos + 8..pos + 8 + length];
                if crc(payload) != GetU32(data[pos + 4..pos + 8]) || ParsePayload(payload).None?
                then Replayed([], false)
                else Prepend([ParsePayload(payload).value], ReplaySegment(crc, data[pos + 8 + length..]))
  {
    if |data| - pos >= 8 {
      SlicesAt(data, pos, 0);
      var length := GetU32(data[pos..pos + 4]);
      if |data| - pos - 8 >= length {
        SlicesAt(data, pos, length);
      }
    }
  }

  // ---------- the log itself ----------

  class Log {
    const crc: Checksum
    const segmentSize: nat
    var segments: seq<bytes>  // the files in id order; the last one is open
    var offset: nat
    ghost var layout: seq<seq<Record>>
    ghost var records: seq<Record>  // what replay gave at first, and everything appended since

    ghost predicate Valid()
      reads this
    {
      segments != [] && offset == |segments[|segments| - 1]|
    }

    /** The files hold the records and nothing else: no torn or damaged bytes. */
    ghost predicate Clean()
      reads this
    {
      Laid(crc, segments, layout) && records == Flatten(layout)
    }

    /** OpenWAL on a directory that holds these segment files, torn or not. */
    constructor (crc: Checksum, segmentSize: nat, files: seq<bytes>, ghost held: seq<seq<Record>>)
      ensures Valid() && this.crc == crc && this.segmentSize == segmentSize
      ensures segments == if files == [] then [[]] else files
      ensures records == ReplayAll(crc, files).records && ReplayAll(crc, segments) == ReplayAll(crc, files)
      ensures Laid(crc, files, held) ==> Clean() && records == Flatten(held)
    {
      this.crc := crc;
      this.segmentSize := segmentSize;
      records := ReplayAll(crc, files).records;
      if files == [] {
        segments := [[]];
        layout := [[]];
        offset := 0;
        var none: seq<bytes> := [[]];
        assert none[1..] == [] && ReplaySegment(crc, none[0]) == Replayed([], true);
      } else {
        segments := files;
        layout := held;
        offset := |files[|files| - 1]|;
        if Laid(crc, files, held) {
          ReplayLaid(crc, files, held);
        }
      }
    }

    method RotateIfNeeded(next: nat)
      requires Valid()
      modifies this
      ensures Valid() && records == old(records) && (old(Clean()) ==> Clean())
      ensures segments == if old(offset) + next <= segmentSize then old(segments) else old(segments) + [[]]
    {
      if offset + next <= segmentSize {
        return;
      }
      FlattenSnoc(layout, []);
      segments := segments + [[]];
      layout := layout + [[]];
      offset := 0;
    }

    /** Appends one record to the open segment or a new one, or refuses it and
        leaves the files alone. */
    method Append(r: Record) returns (ok: bool)
      requires Valid()
      modifies this
      ensures Valid() && (old(Clean()) ==> Clean())
      ensures ok <==> Appendable(r)
      ensures records == if ok then old(records) + [r] else old(records)
      ensures segments == if ok then Written(old(segments), segmentSize, Frame(crc, r)) else old(segments)
    {
      if |r.key| > 0xffff || |r.value| > 0xffff_ffff {
        return false;
      }
      if 7 + |r.key| + |r.value| > 0xffff_ffff {
        return false;
      }
      var buf := Frame(crc, r);
      RotateIfNeeded(|buf|);
      var n := |segments| - 1;
      WrittenLast(old(segments), segmentSize, buf);
      if Clean() {
        LaidAppend(crc, segments, layout, n, r);
      }
      segments := segments[n := segments[n] + buf];
      layout := if n < |layout| then layout[n := layout[n] + [r]] else layout;
      records := records + [r];
      offset := offset + |buf|;
      return true;
    }

    /** replayFile: reads header, payload, header, payload up to the end. */
    method ReplayFile(data: bytes) returns (out: Replayed)
      ensures out == ReplaySegment(crc, data)
    {
      var records, pos := [], 0;
      assert data[0..] == data;
      while true
        invariant 0 <= pos <= |data|
        invariant ReadUpTo(crc, data, records, pos)
        decreases |data| - pos
      {
        ReadOn(crc, data, records, pos);
        if |data| - pos < 8 {
          return Replayed(records, true);
        }
        var length := GetU32(data[pos..pos + 4]);
        if length == 0 {
          return Replayed(records, true);
        }
        if |data| - pos - 8 < length {
          return Replayed(records, true);
        }
        var payload := data[pos + 8..pos + 8 + length];
        if crc(payload) != GetU32(data[pos + 4..pos + 8]) {
          return Replayed(records, false);
        }
        var record := ParsePayload(payload);
        if record == None {
          return Replayed(records, false);
        }
        records := records + [record.value];
        pos := pos + 8 + length;
      }
    }

    /** Hands the records in the files to the callback, in order, up to the
        first damaged one; whatever state the files are in. A clean log hands
        over every record. */
    method Replay() returns (out: Replayed)
      ensures out == ReplayAll(crc, segments)
      ensures Valid() && Clean() ==> out == Replayed(records, true)
    {
      if Valid() && Clean() {
        ReplayLaid(crc, segments, layout);
      }
      var done := [];
      assert Prepend(done, ReplayAll(crc, segments)) == ReplayAll(crc, segments);
      assert segments[0..] == segments;
      for i := 0 to |segments|
        invariant ReplayAll(crc, segments) == Prepend(done, ReplayAll(crc, segments[i..]))
      {
        var one := ReplayFile(segments[i]);
        assert segments[i..][1..] == segments[i + 1..];
        if !one.ok {
          return Replayed(done + one.records, false);
        }
        PrependTwice(done, one.records, ReplayAll(crc, segments[i + 1..]));
        done := done + one.records;
      }
      return Replayed(done, true);
    }
  }
}
