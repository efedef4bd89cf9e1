/** The options of internal/dhcpv4/options.go (section 2 of RFC 2132): a map,
    written out in whatever order the map is walked. */
module Dhcpv4Options {
  import opened Bytes
  import opened Wrappers

  const PAD: byte := 0
  const END: byte := 255

  type Options = map<byte, bytes>

  /** DecodeOptions, once some options were read; a later one of the same code
      replaces an earlier one. */
  function DecodeFrom(raw: bytes, read: Options): Option<Options>
    decreases |raw|
  {
    if raw == [] then Some(read)
    else if raw[0] == PAD then DecodeFrom(raw[1..], read)
    else if raw[0] == END then Some(read)
    else if |raw| < 2 then None
    else if 2 + raw[1] > |raw| then None
    else DecodeFrom(raw[2 + raw[1]..], read[raw[0] := raw[2..2 + raw[1]]])
  }

  method DecodeOptions(raw: bytes) returns (r: Option<Options>)
    ensures r == DecodeFrom(raw, map[])
  {
    var opts: Options, i := map[], 0;
    assert raw[0..] == raw;
    while i < |raw|
      invariant 0 <= i <= |raw|
      invariant DecodeFrom(raw, map[]) == DecodeFrom(raw[i..], opts)
      decreases |raw| - i
    {
      ghost var was := raw[i..];
      var code := raw[i];
      i := i + 1;
      assert was[1..] == raw[i..];
      if code == PAD {
        continue;
      } else if code == END {
        return Some(opts);
      }
      if i >= |raw| {
        return None;
      }
      var l := raw[i];
      i := i + 1;
      if i + l > |raw| {
        return None;
      }
      var val := raw[i..i + l];
      assert val == was[2..2 + l] && was[2 + l..] == raw[i + l..];
      i := i + l;
      opts := opts[code := val];
    }
    return Some(opts);
  }

  // ---------- encoding ----------

  /** The options of some codes, in that order; None is the error. */
  function EncodeCodes(order: seq<byte>, o: Options): Option<bytes>
    requires forall c :: c in order ==> c in o
  {
    if order == [] then Some([])
    else if order[0] == PAD || order[0] == END then EncodeCodes(order[1..], o)
    else
      var val := o[order[0]];
      if |val| > 255 then None
      else match EncodeCodes(order[1..], o)
        case None => None
        case Some(rest) => Some([order[0], |val|] + val + rest)
  }

  /** A walk over a map meets every key once. */
  ghost predicate IsWalk(order: seq<byte>, o: Options)
  {
    && (forall c :: c in order <==> c in o)
    && (forall i, j :: 0 <= i < j < |order| ==> order[i] != order[j])
  }

  function EncodeWalk(order: seq<byte>, o: Options): Option<bytes>
    requires forall c :: c in order ==> c in o
  {
    match EncodeCodes(order, o) case None => None case Some(out) => Some(out + [END])
  }

  /** Options.Encode; None is the nil map. */
  method Encode(options: Option<Options>) returns (r: Option<bytes>)
    ensures options == None ==> r == Some([END])
    ensures options.Some? && r.Some? ==> exists order: seq<byte> ::
              IsWalk(order, options.value) && r == EncodeWalk(order, options.value)
    ensures options.Some? ==>
              (r == None <==> exists c :: c in options.value && c != PAD && c != END && |options.value[c]| > 255)
  {
    if options == None {
      return Some([END]);
    }
    var o := options.value;
    var out: bytes, left := [], o.Keys;
    ghost var order: seq<byte> := [];
    while left != {}
      invariant left <= o.Keys
      invariant (forall c :: c in order <==> c in o && c !in left)
      invariant forall i, j :: 0 <= i < j < |order| ==> order[i] != order[j]
      invariant EncodeCodes(order, o) == Some(out)
      invariant forall c :: c in order && c != PAD && c != END ==> |o[c]| <= 255
    {
      var code :| code in left;
      left := left - {code};
      EncodeLast(order, code, o);
      order := order + [code];
      if code == PAD || code == END {
        continue;
      }
      var val := o[code];
      if |val| > 255 {
        return None;
      }
      out := out + [code, |val|] + val;
    }
    assert IsWalk(order, o);
    return Some(out + [END]);
  }

  lemma {:induction false} EncodeLast(order: seq<byte>, code: byte, o: Options)
    requires forall c :: c in order ==> c in o
    requires code in o && EncodeCodes(order, o).Some?
    ensures EncodeCodes(order + [code], o)
         == if code == PAD || code == END then EncodeCodes(order, o)
            else if |o[code]| > 255 then None
            else Some(EncodeCodes(order, o).value + [code, |o[code]|] + o[code])
  {
    if order != [] {
      assert (order + [code])[1..] == order[1..] + [code];
      EncodeLast(order[1..], code, o);
      if order[0] != PAD && order[0] != END && EncodeCodes(order + [code], o).Some? && code != PAD && code != END {
        var head, tail := [order[0], |o[order[0]]|] + o[order[0]], [code, |o[code]|];
        var rest := EncodeCodes(order[1..], o).value;
        assert head + (rest + tail + o[code]) == head + rest + tail + o[code];
      }
    } else if code != PAD && code != END && |o[code]| <= 255 {
      assert (order + [code])[1..] == [];
      assert [code, |o[code]|] + o[code] + [] == [] + [code, |o[code]|] + o[code];
    }
  }

  // ---------- round trips ----------

  predicate Fits(o: Options)
  {
    forall c :: c in o && c != PAD && c != END ==> |o[c]| <= 255
  }

  /** What can be written: PAD and END have no value on the wire. */
  function Writable(o: Options): Options
  {
    o - {PAD, END}
  }

  function Selected(order: seq<byte>, o: Options): Options
    requires forall c :: c in order ==> c in o
  {
    map c | c in order && c != PAD && c != END :: o[c]
  }

  /** Reading what the codes of a walk were written as, over what was read before. */
  lemma {:induction false} DecodeCodes(order: seq<byte>, o: Options, rest: bytes, read: Options)
    requires (forall c :: c in order ==> c in o) && EncodeCodes(order, o).Some?
    ensures DecodeFrom(EncodeCodes(order, o).value + [END] + rest, read)
         == Some(read + Selected(order, o))
    decreases |order|
  {
    if order == [] {
      assert [] + [END] + rest == [END] + rest;
      assert read + Selected(order, o) == read;
    } else if order[0] == PAD || order[0] == END {
      DecodeCodes(order[1..], o, rest, read);
      NextSelection(order, o, read);
    } else {
      var code, val := order[0], o[order[0]];
      var later := EncodeCodes(order[1..], o).value + [END] + rest;
      var raw := EncodeCodes(order, o).value + [END] + rest;
      assert raw == [code, |val|] + val + later;
      assert raw[2..2 + |val|] == val && raw[2 + |val|..] == later;
      DecodeCodes(order[1..], o, rest, read[code := val]);
      NextSelection(order, o, read);
    }
  }

  lemma NextSelection(order: seq<byte>, o: Options, read: Options)
    requires order != [] && forall c :: c in order ==> c in o
    ensures read + Selected(order, o)
            == (if order[0] == PAD || order[0] == END then read else read[order[0] := o[order[0]]])
               + Selected(order[1..], o)
  {
    assert forall c :: c in order <==> c == order[0] || c in order[1..];
  }

  lemma {:induction false} EncodesWhenFits(order: seq<byte>, o: Options)
    requires forall c :: c in order ==> c in o
    ensures EncodeCodes(order, o).Some? <==> forall c :: c in order && c != PAD && c != END ==> |o[c]| <= 255
  {
    if order != [] {
      EncodesWhenFits(order[1..], o);
      assert forall c :: c in order <==> c == order[0] || c in order[1..];
    }
  }

  /** Whatever order the map is walked in: encoding succeeds exactly when every
      value fits its length byte, and decoding gives the options back, except
      those under the codes of PAD and END, whatever follows. */
  lemma OptionsRoundTrip(order: seq<byte>, o: Options, rest: bytes)
    requires IsWalk(order, o)
    ensures EncodeWalk(order, o).Some? <==> Fits(o)
    ensures EncodeWalk(order, o).Some? ==>
              && DecodeFrom(EncodeWalk(order, o).value + rest, map[]) == Some(Writable(o))
              && (DecodeFrom(EncodeWalk(order, o).value + rest, map[]) == Some(o) <==> PAD !in o && END !in o)
  {
    EncodesWhenFits(order, o);
    if EncodeWalk(order, o).Some? {
      DecodeCodes(order, o, rest, map[]);
      assert Selected(order, o) == Writable(o);
      assert map[] + Selected(order, o) == Selected(order, o);
      assert PAD !in o && END !in o <==> Writable(o) == o;
    }
  }

  lemma {:induction false} DecodedFits(raw: bytes, read: Options)
    requires DecodeFrom(raw, read).Some? && PAD !in read && END !in read && Fits(read)
    ensures var o := DecodeFrom(raw, read).value;
            PAD !in o && END !in o && Fits(o)
    decreases |raw|
  {
    if raw != [] && raw[0] == PAD {
      DecodedFits(raw[1..], read);
    } else if raw != [] && raw[0] != END {
      DecodedFits(raw[2 + raw[1]..], read[raw[0] := raw[2..2 + raw[1]]]);
    }
  }

  /** Options that came in can always be sent on, in any order, and read the same. */
  lemma DecodedGoesOn(raw: bytes, order: seq<byte>)
    requires DecodeFrom(raw, map[]).Some? && IsWalk(order, DecodeFrom(raw, map[]).value)
    ensures var o := DecodeFrom(raw, map[]).value;
            EncodeWalk(order, o).Some? && DecodeFrom(EncodeWalk(order, o).value, map[]) == Some(o)
  {
    var o := DecodeFrom(raw, map[]).value;
    DecodedFits(raw, map[]);
    OptionsRoundTrip(order, o, []);
    assert EncodeWalk(order, o).value + [] == EncodeWalk(order, o).value;
  }
}
