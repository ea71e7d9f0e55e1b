/**
 The language of the IPv6 parser, stated on whole fields, and what each accepted text means.
 */
module AddressText {
  import opened Octets
  import opened Wrappers
  import opened Sequences
  import opened TextFields
  import opened InetPton4

  predicate IsGroup(f: string) {
    f != [] && AllHex(f) && Number(f, 16) <= 0xffff
  }

  function GroupBytes(f: string): (r: seq<byte>)
    requires IsGroup(f)
    ensures |r| == 2
  {
    [Number(f, 16) / 256, Number(f, 16) % 256]
  }

  function FieldBytes(f: string): seq<byte> {
    if IsGroup(f) then GroupBytes(f) else if IsQuad(f) then QuadBytes(f) else []
  }

  function Bytes(fs: seq<string>): seq<byte> {
    if fs == [] then [] else Bytes(fs[..|fs| - 1]) + FieldBytes(fs[|fs| - 1])
  }

  /** The first empty field, -1 when there is none. */
  function GapAt(fs: seq<string>): (g: int)
    ensures -1 <= g < |fs|
  {
    if fs == [] then -1
    else
      var g := GapAt(fs[..|fs| - 1]);
      if g >= 0 then g else if fs[|fs| - 1] == [] then |fs| - 1 else -1
  }

  lemma {:induction false} GapIsFirstEmpty(fs: seq<string>)
    ensures GapAt(fs) >= 0 ==> fs[GapAt(fs)] == [] && forall k :: 0 <= k < GapAt(fs) ==> fs[k] != []
    ensures GapAt(fs) == -1 ==> forall k :: 0 <= k < |fs| ==> fs[k] != []
  {
    if fs != [] {
      GapIsFirstEmpty(fs[..|fs| - 1]);
    }
  }

  /** The fields that a colon ends: groups, and at most one empty field. */
  ghost predicate InnerOk(fs: seq<string>) {
    forall k {:trigger IsGroup(fs[k])} :: 0 <= k < |fs| && k != GapAt(fs) ==> IsGroup(fs[k])
  }

  ghost predicate LastOk(f: string) {
    f == [] || IsGroup(f) || IsQuad(f)
  }

  function Zeros(n: nat): (r: seq<byte>)
    ensures |r| == n && forall k :: 0 <= k < n ==> r[k] == 0
  {
    seq(n, _ => 0)
  }

  /** The bytes before and after the gap, spread over an address; with no room left `after` is lost. */
  function Spread(before: seq<byte>, after: seq<byte>): (r: seq<byte>)
    requires |before| + |after| <= 16
    ensures |r| == 16
  {
    before + Zeros(16 - |before| - |after|) + if |before| + |after| < 16 then after else Zeros(|after|)
  }

  /** The text whose fields count: a leading colon must be doubled, and the first of the two is dropped. */
  function Body(src: string): Option<string> {
    if src == [] || src[0] != ':' then Some(src)
    else if |src| > 1 && src[1] == ':' then Some(src[1..])
    else None
  }

  ghost predicate Acceptable(fs: seq<string>) {
    && |fs| > 0 && InnerOk(fs[..|fs| - 1]) && LastOk(fs[|fs| - 1])
    && |Bytes(fs)| <= 16
    && (GapAt(fs[..|fs| - 1]) == -1 ==> |Bytes(fs)| == 16)
  }

  lemma EveryFieldOk(fs: seq<string>, k: nat)
    requires Acceptable(fs) && k < |fs|
    ensures fs[k] == [] || IsGroup(fs[k]) || (k == |fs| - 1 && IsQuad(fs[k]))
    ensures k < |fs| - 1 && fs[k] == [] ==> k == GapAt(fs[..|fs| - 1])
  {
    var inner := fs[..|fs| - 1];
    GapIsFirstEmpty(inner);
    if k < |inner| {
      assert inner[k] == fs[k];
      assert k != GapAt(inner) ==> IsGroup(inner[k]);
    }
  }

  ghost function Meaning(fs: seq<string>): (r: seq<byte>)
    requires Acceptable(fs)
    ensures |r| == 16
  {
    var g := GapAt(fs[..|fs| - 1]);
    if g == -1 then Bytes(fs)
    else
      BytesPrefix(fs, g);
      var before := Bytes(fs[..g]);
      Spread(before, Bytes(fs)[|before|..])
  }

  /** The address that a text denotes, if the parser takes it. */
  ghost function Parse6(src: string): Option<seq<byte>> {
    match Body(src)
    case None => None
    case Some(body) =>
      var fs := Split(body, ':');
      if Acceptable(fs) then Some(Meaning(fs)) else None
  }

  lemma {:induction false} BytesConcat(a: seq<string>, b: seq<string>)
    ensures Bytes(a + b) == Bytes(a) + Bytes(b)
  {
    if b == [] {
      assert a + b == a;
    } else {
      assert (a + b)[..|a + b| - 1] == a + b[..|b| - 1];
      BytesConcat(a, b[..|b| - 1]);
      ConcatAssociates(Bytes(a), Bytes(b[..|b| - 1]), FieldBytes(b[|b| - 1]));
    }
  }

  lemma BytesPrefix(fs: seq<string>, n: nat)
    requires n <= |fs|
    ensures |Bytes(fs[..n])| <= |Bytes(fs)| && Bytes(fs) == Bytes(fs[..n]) + Bytes(fs[n..])
  {
    assert fs == fs[..n] + fs[n..];
    BytesConcat(fs[..n], fs[n..]);
  }

  /** Every character of a dotted quad is a digit or a dot. */
  lemma QuadCharacters(q: string)
    requires IsQuad(q)
    ensures forall k :: 0 <= k < |q| ==> IsDigit(q[k]) || q[k] == '.'
    ensures !AllHex(q)
  {
    forall k | 0 <= k < |q| ensures IsDigit(q[k]) || q[k] == '.' {
      if !IsDigit(q[k]) && q[k] != '.' {
        SplitStep(q, k, '.');
        ReadOther(Split(q[..k], '.'), q[k]);
        DeadPrefix(q, k + 1);
      }
    }
    if AllHex(q) {
      SplitPlain(q, '.');
    }
  }

  /** Before its first dot a dotted quad is a small number, also when read as hexadecimal. */
  lemma QuadStart(q: string, n: nat)
    requires IsQuad(q) && n <= |q| && AllHex(q[..n])
    ensures Number(q[..n], 16) <= 0x299
  {
    SplitPlain(q[..n], '.');
    PrefixesAreViable(q, n);
    assert Split(q[..n], '.')[0] == q[..n];
    SmallDecimalIsSmallHex(q[..n]);
  }

  /** How the fields of a prefix of the text sit in the fields of the whole. */
  lemma FieldsOfPrefix(s: string, n: nat)
    requires n <= |s|
    ensures var f, F := Split(s[..n], ':'), Split(s, ':');
            var m := |f| - 1;
            && |F| > m && F[..m] == f[..m] && f[m] <= F[m]
            && (n == |s| ==> f == F)
  {
    assert s == s[..n] + s[n..];
    assert n == |s| ==> s[..n] == s;
    SplitConcat(s[..n], s[n..], ':');
  }

  /** The text from the start of the current field on is the last field, or it holds a colon. */
  lemma FieldsFrom(s: string, n: nat, inner: seq<string>)
    requires n <= |s| && Split(s[..n], ':') == inner + [[]]
    ensures |Split(s, ':')| > |inner| && Split(s, ':')[..|inner|] == inner
    ensures |Split(s, ':')| == |inner| + 1 ==> Split(s, ':') == inner + [s[n..]]
    ensures ':' !in s[n..] ==> Split(s, ':') == inner + [s[n..]]
  {
    var r := Split(s[n..], ':');
    assert s == s[..n] + s[n..];
    SplitConcat(s[..n], s[n..], ':');
    GlueAfterSeparator(inner, r);
    if ':' !in s[n..] {
      SplitPlain(s[n..], ':');
    }
    if |r| == 1 {
      JoinSplit(s[n..], ':');
    }
  }

  lemma GlueAfterSeparator(f: seq<string>, g: seq<string>)
    requires |g| > 0
    ensures Glue(f + [[]], g) == f + g
  {
    assert (f + [[]])[..|f|] == f;
    assert [] + g[0] == g[0];
    assert [g[0]] + g[1..] == g;
  }
}
