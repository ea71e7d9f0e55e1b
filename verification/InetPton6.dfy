/** The IPv6 text parser: the character loop, the backwards shift and the final copy. */
module InetPton6 {
  import opened Octets
  import opened Wrappers
  import opened TextFields
  import opened InetPton4
  import opened AddressText

  /** Where the gap falls among the bytes written, -1 when there is none yet. */
  function GapOffset(inner: seq<string>): int {
    if GapAt(inner) == -1 then -1 else |Bytes(inner[..GapAt(inner)])|
  }

  /** The loop's variables after reading text whose fields are fs. */
  ghost predicate Scanned(fs: seq<string>, tmp: seq<byte>, tp: nat, colonp: int, val: nat, sawXdigit: bool) {
    && |fs| > 0 && |tmp| == 16 && tp <= 16
    && InnerOk(fs[..|fs| - 1]) && tmp == Bytes(fs[..|fs| - 1]) + Zeros(16 - tp)
    && colonp == GapOffset(fs[..|fs| - 1])
    && AllHex(fs[|fs| - 1]) && val == Number(fs[|fs| - 1], 16) <= 0xffff
    && (sawXdigit <==> fs[|fs| - 1] != [])
  }

  /** Reading more text keeps the finished fields and only lengthens the current one. */
  ghost predicate Grows(f: seq<string>, F: seq<string>) {
    && 0 < |f| <= |F|
    && F[..|f| - 1] == f[..|f| - 1]
    && f[|f| - 1] <= F[|f| - 1]
  }

  lemma GrowsByOne(s: string, i: nat)
    requires i < |s|
    ensures Split(s[..i + 1], ':') == Read(Split(s[..i], ':'), ':', s[i])
    ensures Grows(Read(Split(s[..i], ':'), ':', s[i]), Split(s, ':'))
  {
    SplitStep(s, i, ':');
    FieldsOfPrefix(s, i + 1);
  }

  lemma NextToken(fs: seq<string>, ch: char)
    requires |fs| > 0
    ensures var next := Read(fs, ':', ch);
            if ch == ':' then next == next[..|next| - 1] + [[]] else next[..|next| - 1] == fs[..|fs| - 1]
  {
  }

  lemma BigGroup(f: seq<string>, F: seq<string>)
    requires Grows(f, F) && AllHex(f[|f| - 1]) && Number(f[|f| - 1], 16) > 0xffff
    ensures !Acceptable(F)
  {
    var p, q := f[|f| - 1], F[|f| - 1];
    assert q[..|p|] == p;
    assert p != [];
    if IsGroup(q) {
      PrefixIsSmaller(q, |p|, 16);
    }
    if IsQuad(q) {
      QuadStart(q, |p|);
    }
    if Acceptable(F) {
      EveryFieldOk(F, |f| - 1);
    }
  }

  lemma BadCharacter(f: seq<string>, F: seq<string>, ch: char)
    requires Grows(f, F) && f[|f| - 1] != [] && ch == f[|f| - 1][|f[|f| - 1]| - 1]
    requires !IsHexDigit(ch)
    ensures Acceptable(F) ==> ch == '.' && |F| == |f| && IsQuad(F[|F| - 1])
  {
    var p, q := f[|f| - 1], F[|f| - 1];
    assert q[|p| - 1] == ch;
    if IsQuad(q) {
      QuadCharacters(q);
    }
    if Acceptable(F) {
      EveryFieldOk(F, |f| - 1);
    }
  }

  lemma SecondGap(f: seq<string>, F: seq<string>)
    requires Grows(f, F) && |f| > 1 && f[|f| - 2] == [] && GapAt(f[..|f| - 2]) >= 0
    ensures !Acceptable(F)
  {
    var g := GapAt(f[..|f| - 2]);
    GapIsFirstEmpty(f[..|f| - 2]);
    assert F[g] == F[..|f| - 1][g] == f[g] == [];
    assert F[|f| - 2] == F[..|f| - 1][|f| - 2] == [];
    if Acceptable(F) {
      EveryFieldOk(F, g);
      EveryFieldOk(F, |f| - 2);
    }
  }

  lemma TooLong(f: seq<string>, F: seq<string>)
    requires Grows(f, F) && |Bytes(f[..|f| - 1])| > 16
    ensures !Acceptable(F)
  {
    BytesPrefix(F, |f| - 1);
  }

  lemma DigitRead(fs: seq<string>, tmp: seq<byte>, tp: nat, colonp: int, val: nat, sawXdigit: bool, ch: char)
    requires Scanned(fs, tmp, tp, colonp, val, sawXdigit) && IsHexDigit(ch)
    ensures var next, val' := Extend(fs, ch), val * 16 + HexDigit(ch);
            && AllHex(next[|next| - 1]) && Number(next[|next| - 1], 16) == val'
            && (val' <= 0xffff ==> Scanned(next, tmp, tp, colonp, val', true))
  {
    var cur, next := fs[|fs| - 1], Extend(fs, ch);
    assert next[|next| - 1] == cur + [ch] && (cur + [ch])[..|cur|] == cur;
    assert next[..|next| - 1] == fs[..|fs| - 1];
  }

  /** The bytes of one more group. */
  lemma GroupWritten(fs: seq<string>, tmp: seq<byte>, tp: nat, colonp: int, val: nat)
    requires Scanned(fs, tmp, tp, colonp, val, true) && tp + 2 <= 16
    ensures Scanned(fs + [[]], tmp[tp := val / 256][tp + 1 := val % 256], tp + 2, colonp, 0, false)
  {
    var inner, cur := fs[..|fs| - 1], fs[|fs| - 1];
    assert (fs + [[]])[..|fs|] == fs == inner + [cur];
    assert IsGroup(cur) && Bytes(fs) == Bytes(inner) + [val / 256, val % 256];
    assert GapAt(fs) == GapAt(inner);
    if GapAt(inner) >= 0 {
      assert fs[..GapAt(inner)] == inner[..GapAt(inner)];
    }
  }

  lemma GapSeen(fs: seq<string>, tmp: seq<byte>, tp: nat, val: nat)
    requires Scanned(fs, tmp, tp, -1, val, false)
    ensures Scanned(fs + [[]], tmp, tp, tp, 0, false)
  {
    var inner := fs[..|fs| - 1];
    GapIsFirstEmpty(inner);
    assert (fs + [[]])[..|fs|] == fs == inner + [[]];
    assert FieldBytes([]) == [];
    assert Bytes(fs) == Bytes(inner);
    assert GapAt(fs) == |inner| && fs[..|inner|] == inner;
  }

  /** One character of the loop other than a dot: fails when nothing acceptable can follow. */
  method ReadChar(ch: char, tmp: array<byte>, tp: nat, colonp: int, val: nat, sawXdigit: bool,
                  ghost fs: seq<string>, ghost F: seq<string>)
    returns (ok: bool, tp': nat, colonp': int, val': nat, saw': bool)
    requires tmp.Length == 16 && Scanned(fs, tmp[..], tp, colonp, val, sawXdigit) && ch != '.'
    requires Grows(Read(fs, ':', ch), F)
    modifies tmp
    ensures ok ==> Scanned(Read(fs, ':', ch), tmp[..], tp', colonp', val', saw')
    ensures !ok ==> !Acceptable(F)
  {
    ok, tp', colonp', val', saw' := true, tp, colonp, val, sawXdigit;
    if IsHexDigit(ch) {
      val' := val * 16 + HexDigit(ch);
      DigitRead(fs, tmp[..], tp, colonp, val, sawXdigit, ch);
      if val' > 0xffff {
        BigGroup(Extend(fs, ch), F);
        return false, tp, colonp, val, sawXdigit;
      }
      saw' := true;
    } else if ch == ':' {
      ok, tp', colonp', val', saw' := ReadColon(tmp, tp, colonp, val, sawXdigit, fs, F);
    } else {
      BadCharacter(Extend(fs, ch), F, ch);
      return false, tp, colonp, val, sawXdigit;
    }
  }

  /** A colon: it ends a group, or opens the gap. */
  method ReadColon(tmp: array<byte>, tp: nat, colonp: int, val: nat, sawXdigit: bool,
                   ghost fs: seq<string>, ghost F: seq<string>)
    returns (ok: bool, tp': nat, colonp': int, val': nat, saw': bool)
    requires tmp.Length == 16 && Scanned(fs, tmp[..], tp, colonp, val, sawXdigit)
    requires Grows(Read(fs, ':', ':'), F)
    modifies tmp
    ensures ok ==> Scanned(Read(fs, ':', ':'), tmp[..], tp', colonp', val', saw')
    ensures !ok ==> !Acceptable(F)
  {
    ok, tp', colonp', val', saw' := true, tp, colonp, val, sawXdigit;
    if !sawXdigit {
      if colonp >= 0 {
        assert (fs + [[]])[..|fs + [[]]| - 2] == fs[..|fs| - 1];
        SecondGap(fs + [[]], F);
        return false, tp, colonp, val, sawXdigit;
      }
      GapSeen(fs, tmp[..], tp, val);
      colonp', val' := tp, 0;
      return;
    }
    if tp + 2 > 16 {
      assert (fs + [[]])[..|fs|] == fs;
      TooLong(fs + [[]], F);
      return false, tp, colonp, val, sawXdigit;
    }
    GroupWritten(fs, tmp[..], tp, colonp, val);
    tmp[tp], tmp[tp + 1] := val / 256, val % 256;
    tp', val', saw' := tp + 2, 0, false;
  }

  lemma NoQuadAhead(body: string, fs: seq<string>, i: nat, curtok: nat, tp: nat)
    requires curtok <= i < |body| && body[i] == '.' && fs == Split(body[..i], ':')
    requires Split(body[..curtok], ':') == fs[..|fs| - 1] + [[]]
    requires tp == |Bytes(fs[..|fs| - 1])|
    requires !(tp + 4 <= 16 && IsQuad(body[curtok..]))
    ensures !Acceptable(Split(body, ':'))
  {
    GrowsByOne(body, i);
    FieldsFrom(body, curtok, fs[..|fs| - 1]);
    NoQuadFields(Split(body, ':'), fs, body[curtok..]);
  }

  lemma NoQuadFields(F: seq<string>, fs: seq<string>, rest: string)
    requires |fs| > 0 && Grows(Extend(fs, '.'), F)
    requires |F| == |fs| ==> F == fs[..|fs| - 1] + [rest]
    requires !(|Bytes(fs[..|fs| - 1])| + 4 <= 16 && IsQuad(rest))
    ensures !Acceptable(F)
  {
    BadCharacter(Extend(fs, '.'), F, '.');
    if IsQuad(rest) {
      QuadLast(fs[..|fs| - 1], rest);
    }
  }

  lemma QuadLast(inner: seq<string>, rest: string)
    requires IsQuad(rest)
    ensures Bytes(inner + [rest]) == Bytes(inner) + QuadBytes(rest)
  {
    QuadCharacters(rest);
    assert (inner + [rest])[..|inner|] == inner;
  }

  /** What the two loops leave in tmp: all bytes in order, and where the gap falls among them. */
  ghost predicate Collected(F: seq<string>, tmp: seq<byte>, tp: nat, colonp: int) {
    && |F| > 0 && |tmp| == 16 && tp <= 16
    && InnerOk(F[..|F| - 1]) && LastOk(F[|F| - 1])
    && tmp == Bytes(F) + Zeros(16 - tp) && colonp == GapOffset(F[..|F| - 1])
  }

  lemma QuadAhead(body: string, inner: seq<string>, curtok: nat, tmp: seq<byte>, tp: nat)
    requires curtok <= |body| && Split(body[..curtok], ':') == inner + [[]] && IsQuad(body[curtok..])
    requires InnerOk(inner) && tp + 4 <= 16 && tmp == Bytes(inner) + Zeros(16 - tp) && |tmp| == 16
    ensures Collected(Split(body, ':'), tmp[..tp] + QuadBytes(body[curtok..]) + tmp[tp + 4..], tp + 4, GapOffset(inner))
  {
    var rest := body[curtok..];
    QuadCharacters(rest);
    FieldsFrom(body, curtok, inner);
    var F := Split(body, ':');
    assert F[..|F| - 1] == inner && F[|F| - 1] == rest;
    QuadLast(inner, rest);
    assert tmp[tp + 4..] == Zeros(16 - tp - 4);
  }

  /** After the loop: the group that no colon ended, if there is one. */
  method LastGroup(tmp: array<byte>, tp: nat, colonp: int, val: nat, sawXdigit: bool, ghost F: seq<string>)
    returns (ok: bool, tp': nat)
    requires tmp.Length == 16 && Scanned(F, tmp[..], tp, colonp, val, sawXdigit)
    modifies tmp
    ensures ok ==> Collected(F, tmp[..], tp', colonp)
    ensures !ok ==> !Acceptable(F)
  {
    ok, tp' := true, tp;
    assert F == F[..|F| - 1] + [F[|F| - 1]];
    if sawXdigit {
      if tp + 2 > 16 {
        return false, tp;
      }
      GroupWritten(F, tmp[..], tp, colonp, val);
      assert (F + [[]])[..|F|] == F;
      tmp[tp], tmp[tp + 1] := val / 256, val % 256;
      tp' := tp + 2;
    }
  }

  /** The fields of the text before position i are fs, and the last of them starts at curtok. */
  ghost predicate AtCharacter(body: string, i: nat, curtok: nat, fs: seq<string>) {
    && curtok <= i <= |body| && fs == Split(body[..i], ':')
    && Split(body[..curtok], ':') == fs[..|fs| - 1] + [[]]
  }

  /** At a dot: the rest of the text from the current field on is a dotted quad, or nothing fits. */
  method ReadQuad(body: string, i: nat, curtok: nat, tmp: array<byte>, tp: nat, colonp: int, val: nat, sawXdigit: bool,
                  ghost fs: seq<string>) returns (ok: bool)
    requires i < |body| && body[i] == '.' && AtCharacter(body, i, curtok, fs)
    requires tmp.Length == 16 && Scanned(fs, tmp[..], tp, colonp, val, sawXdigit)
    modifies tmp
    ensures ok ==> tp + 4 <= 16 && Collected(Split(body, ':'), tmp[..], tp + 4, colonp)
    ensures !ok ==> !Acceptable(Split(body, ':'))
  {
    if tp + 4 <= 16 {
      ghost var before := tmp[..];
      var r := Pton4(body[curtok..], tmp, tp);
      if r > 0 {
        QuadAhead(body, fs[..|fs| - 1], curtok, before, tp);
        return true;
      }
    }
    NoQuadAhead(body, fs, i, curtok, tp);
    return false;
  }

  method NextChar(body: string, i: nat, curtok: nat, tmp: array<byte>, tp: nat, colonp: int, val: nat, sawXdigit: bool,
                  ghost fs: seq<string>)
    returns (ok: bool, curtok': nat, tp': nat, colonp': int, val': nat, saw': bool, ghost fs': seq<string>)
    requires i < |body| && body[i] != '.' && AtCharacter(body, i, curtok, fs)
    requires tmp.Length == 16 && Scanned(fs, tmp[..], tp, colonp, val, sawXdigit)
    modifies tmp
    ensures ok ==> AtCharacter(body, i + 1, curtok', fs') && Scanned(fs', tmp[..], tp', colonp', val', saw')
    ensures !ok ==> !Acceptable(Split(body, ':'))
  {
    var ch := body[i];
    GrowsByOne(body, i);
    NextToken(fs, ch);
    curtok' := if ch == ':' then i + 1 else curtok;
    fs' := Read(fs, ':', ch);
    ok, tp', colonp', val', saw' := ReadChar(ch, tmp, tp, colonp, val, sawXdigit, fs, Split(body, ':'));
  }

  /** Both loops: the bytes of all fields, without the gap. */
  method Scan(body: string) returns (ok: bool, tmp: array<byte>, tp: nat, colonp: int)
    ensures fresh(tmp)
    ensures ok ==> Collected(Split(body, ':'), tmp[..], tp, colonp)
    ensures !ok ==> !Acceptable(Split(body, ':'))
  {
    tmp := new byte[16](_ => 0);
    ok, tp, colonp := true, 0, -1;
    var curtok, sawXdigit, val := 0, false, 0;
    ghost var fs := Split(body[..0], ':');
    var i := 0;
    while i < |body|
      invariant i <= |body| && tmp.Length == 16
      invariant AtCharacter(body, i, curtok, fs) && Scanned(fs, tmp[..], tp, colonp, val, sawXdigit)
    {
      if body[i] == '.' {
        ok := ReadQuad(body, i, curtok, tmp, tp, colonp, val, sawXdigit, fs);
        tp := if ok then tp + 4 else tp;
        return;
      }
      ok, curtok, tp, colonp, val, sawXdigit, fs := NextChar(body, i, curtok, tmp, tp, colonp, val, sawXdigit, fs);
      if !ok {
        return;
      }
      i := i + 1;
    }
    assert body[..|body|] == body;
    ok, tp := LastGroup(tmp, tp, colonp, val, sawXdigit, fs);
  }

  /** The backwards shift by hand: the n bytes behind the gap end up at the end of the address. */
  method Shift(tmp: array<byte>, colonp: nat, tp: nat)
    requires tmp.Length == 16 && colonp <= tp <= 16 && forall p :: tp <= p < 16 ==> tmp[p] == 0
    modifies tmp
    ensures tmp[..] == old(Spread(tmp[..colonp], tmp[colonp..tp]))
  {
    var n := tp - colonp;
    for i := 1 to n + 1
      invariant forall p :: 0 <= p < 16 ==>
                  tmp[p] == if tp < 16 && 17 - i <= p then old(tmp[p - 16 + tp])
                            else if p >= tp - (i - 1) then 0 else old(tmp[p])
    {
      tmp[16 - i] := tmp[colonp + n - i];
      tmp[colonp + n - i] := 0;
    }
  }

  lemma GapRead(F: seq<string>, tmp: seq<byte>, tp: nat, colonp: nat)
    requires Collected(F, tmp, tp, colonp)
    ensures colonp <= tp && Meaning(F) == Spread(tmp[..colonp], tmp[colonp..tp])
  {
    var g, bytes := GapAt(F[..|F| - 1]), Bytes(F);
    assert F[..|F| - 1][..g] == F[..g];
    BytesPrefix(F, g);
    assert bytes == tmp[..tp] && |bytes| == tp;
    assert tmp[..colonp] == bytes[..colonp] && tmp[colonp..tp] == bytes[colonp..];
  }

  lemma AllRead(F: seq<string>, tmp: seq<byte>, tp: nat, colonp: int)
    requires Collected(F, tmp, tp, colonp)
    ensures colonp < 0 ==> (Acceptable(F) <==> tp == 16) && (tp == 16 ==> Meaning(F) == tmp)
    ensures forall p :: tp <= p < 16 ==> tmp[p] == 0
    ensures colonp >= 0 ==> colonp <= tp && Acceptable(F) && Meaning(F) == Spread(tmp[..colonp], tmp[colonp..tp])
  {
    assert |Bytes(F)| == tp;
    if colonp >= 0 {
      GapRead(F, tmp, tp, colonp);
    }
  }

  method ParseBody(body: string) returns (ok: bool, tmp: array<byte>)
    ensures fresh(tmp)
    ensures ok <==> Acceptable(Split(body, ':'))
    ensures ok ==> tmp[..] == Meaning(Split(body, ':'))
  {
    var tp, colonp;
    ok, tmp, tp, colonp := Scan(body);
    if !ok {
      return;
    }
    AllRead(Split(body, ':'), tmp[..], tp, colonp);
    if colonp >= 0 {
      Shift(tmp, colonp, tp);
      tp := 16;
    }
    ok := tp == 16;
  }

  /** Returns 1 and writes the address exactly for the texts of Parse6; otherwise leaves dst alone. */
  method Pton6(src: string, dst: array<byte>) returns (r: int)
    requires dst.Length >= 16
    modifies dst
    ensures r == if Parse6(src).Some? then 1 else 0
    ensures dst[..] == match Parse6(src) case Some(address) => address + old(dst[16..]) case None => old(dst[..])
  {
    var start := 0;
    if |src| > 0 && src[0] == ':' {
      start := 1;
      if |src| == 1 || src[1] != ':' {
        return 0;
      }
    }
    assert Body(src) == Some(src[start..]);
    var ok, tmp := ParseBody(src[start..]);
    if !ok {
      return 0;
    }
    assert tmp.Length == |tmp[..]| == 16;
    forall i | 0 <= i < 16 {
      dst[i] := tmp[i];
    }
    return 1;
  }
}
