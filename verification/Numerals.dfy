/** What digits stand for, and how numbers are written out. */
module Numerals {
  import opened TextFields

  const DIGITS_L: string := "0123456789abcdef"
  const DIGITS_U: string := "0123456789ABCDEF"

  /** A character stands for d when it is at position d of one of the digit tables. */
  ghost predicate Spells(c: char, d: nat) {
    d < 16 && (c == DIGITS_L[d] || c == DIGITS_U[d])
  }

  lemma Codes(d: nat)
    requires d < 16
    ensures DIGITS_L[d] == (if d < 10 then 48 + d else 87 + d) as char
    ensures DIGITS_U[d] == (if d < 10 then 48 + d else 55 + d) as char
  {
  }

  /** The digits, and their values, are exactly those of the tables; the decimal ones are the first ten. */
  lemma DigitsExactly(c: char, d: nat)
    ensures Spells(c, d) <==> IsHexDigit(c) && HexDigit(c) == d
    ensures IsDigit(c) <==> exists k :: 0 <= k < 10 && Spells(c, k)
  {
    if d < 16 {
      Codes(d);
    }
    if k :| 0 <= k < 10 && Spells(c, k) {
      Codes(k);
    }
    if IsDigit(c) {
      Codes(c as int - 48);
      assert Spells(c, c as int - 48);
    }
  }

  function Power(base: nat, n: nat): nat {
    if n == 0 then 1 else base * Power(base, n - 1)
  }

  /** The sum of the digits, each weighed by its place. */
  function Weighed(ds: seq<nat>, base: nat): nat {
    if ds == [] then 0 else ds[0] * Power(base, |ds| - 1) + Weighed(ds[1..], base)
  }

  ghost predicate AllSpell(s: string, ds: seq<nat>) {
    |s| == |ds| && forall k :: 0 <= k < |s| ==> Spells(s[k], ds[k])
  }

  lemma {:induction false} WeighedLast(ds: seq<nat>, base: nat)
    requires ds != []
    ensures Weighed(ds, base) == Weighed(ds[..|ds| - 1], base) * base + ds[|ds| - 1]
  {
    var n := |ds| - 1;
    if n == 0 {
      assert Weighed(ds[1..], base) == 0 && Power(base, 0) == 1;
    } else {
      var front := ds[..n];
      WeighedLast(ds[1..], base);
      assert ds[1..][..n - 1] == front[1..];
      Distribute(ds[0], base, Power(base, n - 1), Weighed(front[1..], base));
    }
  }

  lemma Distribute(d: nat, base: nat, p: nat, w: nat)
    ensures d * (base * p) + w * base == (d * p + w) * base
  {
    assert d * (base * p) == (d * p) * base;
  }

  /** The number a text spells is the weighed sum of what its characters stand for. */
  lemma {:induction false} NumberIsWeighed(s: string, ds: seq<nat>, base: nat)
    requires AllSpell(s, ds)
    ensures AllHex(s) && Number(s, base) == Weighed(ds, base)
  {
    forall k | 0 <= k < |s| ensures IsHexDigit(s[k]) && HexDigit(s[k]) == ds[k] {
      DigitsExactly(s[k], ds[k]);
    }
    if s != [] {
      NumberIsWeighed(s[..|s| - 1], ds[..|ds| - 1], base);
      WeighedLast(ds, base);
    }
  }

  /** A number written out with decimal digits. */
  function Decimal(n: nat): (s: string)
    ensures s != []
  {
    if n < 10 then [DIGITS_L[n]] else Decimal(n / 10) + [DIGITS_L[n % 10]]
  }

  /** A number written out with lower-case hexadecimal digits. */
  function Hexadecimal(n: nat): (s: string)
    ensures s != []
  {
    if n < 16 then [DIGITS_L[n]] else Hexadecimal(n / 16) + [DIGITS_L[n % 16]]
  }

  lemma ReadsOneMore(s: string, c: char, base: nat)
    requires AllHex(s) && IsHexDigit(c)
    ensures AllHex(s + [c]) && Number(s + [c], base) == Number(s, base) * base + HexDigit(c)
  {
    assert (s + [c])[..|s|] == s;
  }

  lemma ReadsOne(c: char, base: nat)
    requires IsHexDigit(c)
    ensures AllHex([c]) && Number([c], base) == HexDigit(c)
  {
    ReadsOneMore([], c, base);
    assert [] + [c] == [c];
  }

  /** Both read back as the number. */
  lemma {:induction false} DecimalReadsBack(n: nat)
    ensures AllDigits(Decimal(n)) && Number(Decimal(n), 10) == n
  {
    var d := DIGITS_L[n % 10];
    DigitsExactly(d, n % 10);
    if n < 10 {
      ReadsOne(d, 10);
    } else {
      DecimalReadsBack(n / 10);
      ReadsOneMore(Decimal(n / 10), d, 10);
    }
  }

  lemma {:induction false} HexadecimalReadsBack(n: nat)
    ensures AllHex(Hexadecimal(n)) && Number(Hexadecimal(n), 16) == n
  {
    var d := DIGITS_L[n % 16];
    DigitsExactly(d, n % 16);
    if n < 16 {
      ReadsOne(d, 16);
    } else {
      HexadecimalReadsBack(n / 16);
      ReadsOneMore(Hexadecimal(n / 16), d, 16);
    }
  }

  lemma HexadecimalLength(n: nat)
    requires n < 0x1_0000
    ensures |Hexadecimal(n)| <= 4
  {
    var a, b, c := n / 16, n / 16 / 16, n / 16 / 16 / 16;
    assert |Hexadecimal(c)| == 1;
    assert |Hexadecimal(b)| <= 2 && |Hexadecimal(a)| <= 3;
  }
}
