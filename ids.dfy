/** The identifiers the layout processor hands out: a one-letter prefix
    followed by a counter written in decimal and zero-padded to five digits
    (`f"N{n:05d}"`, `f"S{n:05d}"`), and the number such an id carries. */
module Ids {
  import opened StringOrder

  /** The decimal digit for `d`. */
  function DigitChar(d: nat): (c: char)
    requires d < 10
    ensures IsDigit(c)
  {
    (48 + d) as char
  }

  /** The value of a digit character; other characters count as zero. */
  function DigitValue(c: char): nat
  {
    if IsDigit(c) then c as int - 48 else 0
  }

  /** `str(n)`: the decimal digits of `n`, most significant first. */
  function Decimal(n: nat): string
    decreases n
  {
    if n < 10 then [DigitChar(n)] else Decimal(n / 10) + [DigitChar(n % 10)]
  }

  /** `str(n)` is a non-empty run of digits. */
  lemma {:induction false} DecimalDigits(n: nat)
    ensures Decimal(n) != [] && forall i :: 0 <= i < |Decimal(n)| ==> IsDigit(Decimal(n)[i])
    decreases n
  {
    if n >= 10 {
      DecimalDigits(n / 10);
    }
  }

  /** Padding with leading zeros to width `w` (the `0w` format spec). */
  function ZeroPad(s: string, w: nat): string
    decreases w - |s|
  {
    if |s| >= w then s else ZeroPad(['0'] + s, w)
  }

  /** The padded string has width `w` (or more, when `s` is longer), ends
      with `s` and starts with zeros. */
  lemma {:induction false} ZeroPadShape(s: string, w: nat)
    ensures |ZeroPad(s, w)| == if |s| >= w then |s| else w
    ensures ZeroPad(s, w)[|ZeroPad(s, w)| - |s|..] == s
    ensures forall i :: 0 <= i < |ZeroPad(s, w)| - |s| ==> ZeroPad(s, w)[i] == '0'
    decreases w - |s|
  {
    if |s| < w {
      ZeroPadShape(['0'] + s, w);
      var r := ZeroPad(['0'] + s, w);
      assert r[|r| - |s|..] == r[|r| - |s| - 1..][1..];
    }
  }

  /** The number a string of digits denotes. */
  function Value(s: string): nat
    decreases |s|
  {
    if s == [] then 0 else Value(s[..|s| - 1]) * 10 + DigitValue(s[|s| - 1])
  }

  /** `f"{prefix}{n:05d}"`. */
  function IdFor(prefix: char, n: nat): string
  {
    [prefix] + ZeroPad(Decimal(n), 5)
  }

  /** The counter an id carries: the value of what follows the prefix. */
  function IdNumber(id: string): nat
  {
    if id == [] then 0 else Value(id[1..])
  }

  /** `N%05d`: the id of the `n`-th node. */
  function NodeId(n: nat): string
  {
    IdFor('N', n)
  }

  /** `S%05d`: the id of the `n`-th segment. */
  function SegId(n: nat): string
  {
    IdFor('S', n)
  }

  lemma {:induction false} DecimalValue(n: nat)
    ensures Value(Decimal(n)) == n
    decreases n
  {
    if n >= 10 {
      var d := Decimal(n / 10) + [DigitChar(n % 10)];
      assert d[..|d| - 1] == Decimal(n / 10);
      DecimalValue(n / 10);
    }
  }

  /** A leading zero does not change the value. */
  lemma {:induction false} LeadingZero(s: string)
    ensures Value(['0'] + s) == Value(s)
    decreases |s|
  {
    if s != [] {
      var pre := s[..|s| - 1];
      assert (['0'] + s)[..|s|] == ['0'] + pre;
      LeadingZero(pre);
    }
  }

  lemma {:induction false} ZeroPadValue(s: string, w: nat)
    ensures Value(ZeroPad(s, w)) == Value(s)
    decreases w - |s|
  {
    if |s| < w {
      LeadingZero(s);
      ZeroPadValue(['0'] + s, w);
    }
  }

  /** An id gives back the counter it was made from. */
  lemma IdRoundTrip(prefix: char, n: nat)
    ensures IdNumber(IdFor(prefix, n)) == n
  {
    var id := IdFor(prefix, n);
    assert id[1..] == ZeroPad(Decimal(n), 5);
    ZeroPadValue(Decimal(n), 5);
    DecimalValue(n);
  }

  /** An id is its prefix followed by at least five digits. */
  lemma IdShape(prefix: char, n: nat)
    ensures |IdFor(prefix, n)| >= 6 && IdFor(prefix, n)[0] == prefix
    ensures forall i :: 1 <= i < |IdFor(prefix, n)| ==> IsDigit(IdFor(prefix, n)[i])
  {
    var d := Decimal(n);
    var p := ZeroPad(d, 5);
    DecimalDigits(n);
    ZeroPadShape(d, 5);
    PadDigits(d, 5);
    assert IdFor(prefix, n) == [prefix] + p;
  }

  lemma {:induction false} PadDigits(s: string, w: nat)
    requires forall i :: 0 <= i < |s| ==> IsDigit(s[i])
    ensures forall i :: 0 <= i < |ZeroPad(s, w)| ==> IsDigit(ZeroPad(s, w)[i])
    decreases w - |s|
  {
    if |s| < w {
      var t := ['0'] + s;
      forall i | 0 <= i < |t|
        ensures IsDigit(t[i])
      {
        if i > 0 {
          assert t[i] == s[i - 1];
        }
      }
      PadDigits(t, w);
    }
  }

  /** Two ids are equal exactly when their prefixes and counters are: ids
      handed out from one counter are unique, and node ids never clash with
      segment ids. */
  lemma IdInjective(p: char, n: nat, q: char, m: nat)
    ensures IdFor(p, n) == IdFor(q, m) <==> p == q && n == m
  {
    if IdFor(p, n) == IdFor(q, m) {
      IdRoundTrip(p, n);
      IdRoundTrip(q, m);
      assert IdFor(p, n)[0] == p && IdFor(q, m)[0] == q;
    }
  }

  lemma NodeIdInjective(n: nat, m: nat)
    ensures NodeId(n) == NodeId(m) <==> n == m
  {
    IdInjective('N', n, 'N', m);
  }

  lemma SegIdInjective(n: nat, m: nat)
    ensures SegId(n) == SegId(m) <==> n == m
  {
    IdInjective('S', n, 'S', m);
  }
}
