/** Splitting text at a separator, and the numbers that its fields spell. */
module TextFields {
  function Split(s: string, sep: char): (fs: seq<string>)
    ensures |fs| > 0
  {
    if s == [] then [[]]
    else
      var front := Split(s[..|s| - 1], sep);
      var c := s[|s| - 1];
      if c == sep then front + [[]] else front[..|front| - 1] + [front[|front| - 1] + [c]]
  }

  /** The last character ends the last field, or opens an empty one. */
  lemma LastCharacter(s: string, sep: char)
    requires s != []
    ensures var fs, front, c := Split(s, sep), Split(s[..|s| - 1], sep), s[|s| - 1];
            && |front| <= |fs| && front[..|front| - 1] == fs[..|front| - 1]
            && if |front| == |fs| then fs[|front| - 1] == front[|front| - 1] + [c]
               else fs[|front| - 1] == front[|front| - 1]
  {
  }

  function Join(fs: seq<string>, sep: char): string {
    if fs == [] then []
    else if |fs| == 1 then fs[0]
    else Join(fs[..|fs| - 1], sep) + [sep] + fs[|fs| - 1]
  }

  lemma {:induction false} SplitPlain(s: string, sep: char)
    requires sep !in s
    ensures Split(s, sep) == [s]
  {
    if s != [] {
      SplitPlain(s[..|s| - 1], sep);
      assert s == s[..|s| - 1] + [s[|s| - 1]];
    }
  }

  /** The fields of a concatenation: the last field of one and the first of the other run together. */
  function Glue(f: seq<string>, g: seq<string>): seq<string>
    requires |f| > 0 && |g| > 0
  {
    f[..|f| - 1] + [f[|f| - 1] + g[0]] + g[1..]
  }

  function Extend(f: seq<string>, c: char): seq<string>
    requires |f| > 0
  {
    f[..|f| - 1] + [f[|f| - 1] + [c]]
  }

  lemma GlueExtend(f: seq<string>, g: seq<string>, c: char)
    requires |f| > 0 && |g| > 0
    ensures Glue(f, Extend(g, c)) == Extend(Glue(f, g), c)
  {
    if |g| == 1 {
      assert f[|f| - 1] + (g[0] + [c]) == (f[|f| - 1] + g[0]) + [c];
      assert Extend(g, c)[0] == g[0] + [c];
      assert Glue(f, g) == f[..|f| - 1] + [f[|f| - 1] + g[0]];
    } else {
      assert Extend(g, c)[0] == g[0];
      assert Extend(g, c)[1..] == Extend(g[1..], c);
      assert Glue(f, g)[..|Glue(f, g)| - 1] == f[..|f| - 1] + [f[|f| - 1] + g[0]] + g[1..|g| - 1];
    }
  }

  lemma {:induction false} SplitConcat(a: string, b: string, sep: char)
    ensures Split(a + b, sep) == Glue(Split(a, sep), Split(b, sep))
  {
    if b == [] {
      assert a + b == a;
      assert Split(a, sep)[|Split(a, sep)| - 1] + [] == Split(a, sep)[|Split(a, sep)| - 1];
    } else {
      var c, front := b[|b| - 1], b[..|b| - 1];
      assert (a + b)[..|a + b| - 1] == a + front;
      SplitConcat(a, front, sep);
      if c == sep {
        assert (Split(front, sep) + [[]])[1..] == Split(front, sep)[1..] + [[]];
      } else {
        GlueExtend(Split(a, sep), Split(front, sep), c);
        assert Split(b, sep) == Extend(Split(front, sep), c);
        assert Split(a + b, sep) == Extend(Split(a + front, sep), c);
      }
    }
  }

  /** The fields after one more character. */
  function Read(fs: seq<string>, sep: char, c: char): seq<string>
    requires |fs| > 0
  {
    if c == sep then fs + [[]] else Extend(fs, c)
  }

  lemma SplitStep(s: string, i: nat, sep: char)
    requires i < |s|
    ensures Split(s[..i + 1], sep) == Read(Split(s[..i], sep), sep, s[i])
  {
    assert s[..i + 1][..i] == s[..i];
  }

  lemma SplitAtSeparator(a: string, b: string, sep: char)
    ensures Split(a + [sep] + b, sep) == Split(a, sep) + Split(b, sep)
  {
    var f, g := Split(a, sep), Split(b, sep);
    assert (a + [sep])[..|a|] == a;
    assert Split(a + [sep], sep) == f + [[]];
    SplitConcat(a + [sep], b, sep);
    assert [] + g[0] == g[0] && [g[0]] + g[1..] == g;
  }

  ghost predicate NoneHolds(fs: seq<string>, sep: char) {
    forall k :: 0 <= k < |fs| ==> sep !in fs[k]
  }

  lemma {:induction false} SplitJoin(fs: seq<string>, sep: char)
    requires NoneHolds(fs, sep)
    ensures Split(Join(fs, sep), sep) == if fs == [] then [[]] else fs
  {
    if |fs| == 1 {
      SplitPlain(fs[0], sep);
    } else if |fs| > 1 {
      var front, last := fs[..|fs| - 1], fs[|fs| - 1];
      assert NoneHolds(front, sep);
      SplitJoin(front, sep);
      SplitPlain(last, sep);
      SplitAtSeparator(Join(front, sep), last, sep);
      assert Split(Join(fs, sep), sep) == front + [last];
    }
  }

  lemma {:induction false} JoinSplit(s: string, sep: char)
    ensures NoneHolds(Split(s, sep), sep)
    ensures Join(Split(s, sep), sep) == s
  {
    if s != [] {
      var fs, front := Split(s, sep), Split(s[..|s| - 1], sep);
      JoinSplit(s[..|s| - 1], sep);
      assert s == s[..|s| - 1] + [s[|s| - 1]];
      assert |fs| > 1 ==> fs[..|fs| - 1] == if s[|s| - 1] == sep then front else front[..|front| - 1];
    }
  }

  predicate IsDigit(c: char) {
    '0' <= c <= '9'
  }

  predicate IsHexDigit(c: char) {
    IsDigit(c) || 'a' <= c <= 'f' || 'A' <= c <= 'F'
  }

  function HexDigit(c: char): (d: nat)
    requires IsHexDigit(c)
    ensures d < 16
  {
    if IsDigit(c) then c as int - '0' as int
    else if 'a' <= c <= 'f' then c as int - 'a' as int + 10
    else c as int - 'A' as int + 10
  }

  predicate AllDigits(s: string) {
    forall k :: 0 <= k < |s| ==> IsDigit(s[k])
  }

  predicate AllHex(s: string) {
    forall k :: 0 <= k < |s| ==> IsHexDigit(s[k])
  }

  /** The number a digit string spells in the given base; leading zeros are allowed. */
  function Number(s: string, base: nat): nat
    requires AllHex(s)
  {
    if s == [] then 0 else Number(s[..|s| - 1], base) * base + HexDigit(s[|s| - 1])
  }

  lemma {:induction false} PrefixIsSmaller(s: string, n: nat, base: nat)
    requires AllHex(s) && n <= |s| && base > 0
    ensures Number(s[..n], base) <= Number(s, base)
    decreases |s|
  {
    if n == |s| {
      assert s[..n] == s;
    } else {
      assert s[..|s| - 1][..n] == s[..n];
      PrefixIsSmaller(s[..|s| - 1], n, base);
      assert Number(s[..|s| - 1], base) * base >= Number(s[..|s| - 1], base) by {
        MulAtLeast(Number(s[..|s| - 1], base), base);
      }
    }
  }

  lemma MulAtLeast(a: nat, b: nat)
    requires b > 0
    ensures a * b >= a
  {
  }

  /** A decimal field up to 255, read as hexadecimal, stays far below the limit of a group. */
  lemma SmallDecimalIsSmallHex(s: string)
    requires AllDigits(s) && Number(s, 10) <= 255
    ensures Number(s, 16) <= 0x299
  {
    HexOfDecimal(s);
  }

  lemma {:induction false} HexOfDecimal(s: string)
    requires AllDigits(s)
    ensures Number(s, 10) == 0 ==> Number(s, 16) == 0
    ensures Number(s, 10) <= 2 ==> Number(s, 16) <= 2
    ensures Number(s, 10) <= 25 ==> Number(s, 16) <= 0x29
    ensures Number(s, 10) <= 255 ==> Number(s, 16) <= 0x299
  {
    if s != [] {
      HexOfDecimal(s[..|s| - 1]);
      assert HexDigit(s[|s| - 1]) <= 9;
    }
  }
}
