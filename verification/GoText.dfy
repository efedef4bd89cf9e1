/** Go strings are byte strings; the parts of package strings used here, on
    ASCII text, and the padded decimals the expiry index is keyed by: digit
    strings of one length are ordered as their numbers are, which padding with
    zeros to twenty digits ensures. */
module GoText {
  import opened Bytes

  type text = bytes

  function Ascii(s: string): (t: text)
    ensures |t| == |s|
  {
    seq(|s|, i requires 0 <= i < |s| => (s[i] as int % 0x100) as byte)
  }

  predicate IsSpace(c: byte)
  {
    c == 0x20 || 0x09 <= c <= 0x0D
  }

  function TrimLeft(t: text): (r: text)
    ensures |r| <= |t|
  {
    if t != [] && IsSpace(t[0]) then TrimLeft(t[1..]) else t
  }

  function TrimRight(t: text): (r: text)
    ensures |r| <= |t|
  {
    if t != [] && IsSpace(t[|t| - 1]) then TrimRight(t[..|t| - 1]) else t
  }

  function TrimSpace(t: text): text
  {
    TrimRight(TrimLeft(t))
  }

  function Upper(c: byte): byte
  {
    if 0x61 <= c <= 0x7A then c - 0x20 else c
  }

  function Lower(c: byte): byte
  {
    if 0x41 <= c <= 0x5A then c + 0x20 else c
  }

  function ToUpper(t: text): (r: text)
    ensures |r| == |t|
  {
    seq(|t|, i requires 0 <= i < |t| => Upper(t[i]))
  }

  function ToLower(t: text): (r: text)
    ensures |r| == |t|
  {
    seq(|t|, i requires 0 <= i < |t| => Lower(t[i]))
  }

  /** strings.EqualFold. */
  predicate EqualFold(a: text, b: text)
  {
    ToLower(a) == ToLower(b)
  }

  /** A text TrimSpace leaves alone. */
  predicate Trimmed(t: text)
  {
    t != [] && !IsSpace(t[0]) && !IsSpace(t[|t| - 1])
  }

  lemma TrimmedStays(t: text)
    requires Trimmed(t)
    ensures TrimSpace(t) == t
  {
  }

  /** What TrimSpace leaves is empty or has no space at either end. */
  lemma {:induction false} TrimSpaceTrims(t: text)
    ensures TrimSpace(t) == [] || Trimmed(TrimSpace(t))
  {
    TrimLeftTrims(t);
    TrimRightTrims(TrimLeft(t));
  }

  lemma {:induction false} TrimLeftTrims(t: text)
    ensures TrimLeft(t) == [] || !IsSpace(TrimLeft(t)[0])
  {
    if t != [] && IsSpace(t[0]) {
      TrimLeftTrims(t[1..]);
    }
  }

  lemma {:induction false} TrimRightTrims(t: text)
    ensures var r := TrimRight(t);
            r == [] || (r[0] == t[0] && !IsSpace(r[|r| - 1]))
  {
    if t != [] && IsSpace(t[|t| - 1]) {
      TrimRightTrims(t[..|t| - 1]);
    }
  }

  // ---------- %0*d ----------

  /** Decimal digits, padded with zeros to at least the given width. */
  function Digits(n: nat, width: nat): (d: text)
    ensures |d| >= width && |d| > 0
    decreases width, n
  {
    var last := [0x30 + n % 10];
    if width > 1 then Digits(n / 10, width - 1) + last
    else if n < 10 then last
    else Digits(n / 10, 0) + last
  }

  function Power10(width: nat): (p: nat)
    ensures p > 0
  {
    if width == 0 then 1 else 10 * Power10(width - 1)
  }

  /** fmt.Sprintf("%020d", n). */
  function Padded20(n: int): text
  {
    if n >= 0 then Digits(n, 20) else [0x2D] + Digits(-n, 19)
  }

  lemma {:induction false} DigitsWidth(n: nat, width: nat)
    requires width > 0 && n < Power10(width)
    ensures |Digits(n, width)| == width
    ensures forall i :: 0 <= i < width ==> 0x30 <= Digits(n, width)[i] <= 0x39
  {
    if width > 1 {
      DigitsWidth(n / 10, width - 1);
    }
  }

  /** Comparing two byte strings of one length by all but the last byte first. */
  lemma {:induction false} CompareLast(a: text, x: byte, b: text, y: byte, i: nat)
    requires |a| == |b| && i <= |a|
    ensures LeFrom(a + [x], b + [y], i) <==> (if a[i..] == b[i..] then x <= y else LeFrom(a, b, i))
    decreases |a| - i
  {
    if i < |a| {
      CompareLast(a, x, b, y, i + 1);
      assert a[i..] == [a[i]] + a[i + 1..] && b[i..] == [b[i]] + b[i + 1..];
    }
  }

  /** Zero padding makes byte order numeric order. */
  lemma {:induction false} DigitsOrder(m: nat, n: nat, width: nat)
    requires width > 0 && m < Power10(width) && n < Power10(width)
    ensures Le(Digits(m, width), Digits(n, width)) <==> m <= n
    ensures Digits(m, width) == Digits(n, width) <==> m == n
  {
    DigitsWidth(m, width);
    DigitsWidth(n, width);
    if width == 1 {
      assert Power10(1) == 10 * Power10(0);
      var a, b := [0x30 + m], [0x30 + n];
      CompareLast([], a[0], [], b[0], 0);
      assert [] + a == a == Digits(m, 1) && [] + b == b == Digits(n, 1);
    } else {
      var a, b := Digits(m / 10, width - 1), Digits(n / 10, width - 1);
      DigitsWidth(m / 10, width - 1);
      DigitsWidth(n / 10, width - 1);
      DigitsOrder(m / 10, n / 10, width - 1);
      CompareLast(a, 0x30 + m % 10, b, 0x30 + n % 10, 0);
      assert a[0..] == a && b[0..] == b;
      assert Digits(m, width)[..width - 1] == a && Digits(n, width)[..width - 1] == b;
      assert Digits(m, width)[width - 1] == 0x30 + m % 10 && Digits(n, width)[width - 1] == 0x30 + n % 10;
    }
  }
}
