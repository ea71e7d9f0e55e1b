/** The dotted-quad parser. */
module InetPton4 {
  import opened Octets
  import opened TextFields

  predicate IsOctet(f: string) {
    f != [] && AllDigits(f) && Number(f, 10) <= 255
  }

  /** Four non-empty decimal fields joined by dots, none above 255. */
  predicate IsQuad(src: string) {
    var fs := Split(src, '.');
    |fs| == 4 && forall k :: 0 <= k < 4 ==> IsOctet(fs[k])
  }

  function QuadBytes(src: string): (r: seq<byte>)
    requires IsQuad(src)
    ensures |r| == 4
  {
    var fs := Split(src, '.');
    [Number(fs[0], 10), Number(fs[1], 10), Number(fs[2], 10), Number(fs[3], 10)]
  }

  /** The fields seen so far can still become a dotted quad. */
  ghost predicate Viable(fs: seq<string>) {
    && 0 < |fs| <= 4
    && (forall k :: 0 <= k < |fs| ==> AllDigits(fs[k]) && Number(fs[k], 10) <= 255)
    && (forall k :: 0 <= k < |fs| - 1 ==> fs[k] != [])
  }

  /** One character less in the last field, or one empty field less. */
  lemma ShorterIsViable(long: seq<string>, short: seq<string>, c: char)
    requires Viable(long) && short != [] && |short| <= |long| && short[..|short| - 1] == long[..|short| - 1]
    requires if |short| == |long| then long[|short| - 1] == short[|short| - 1] + [c]
             else long[|short| - 1] == short[|short| - 1]
    ensures Viable(short)
  {
    var n := |short| - 1;
    if |short| == |long| {
      PrefixIsSmaller(long[n], |short[n]|, 10);
      assert long[n][..|short[n]|] == short[n];
    }
    assert forall k :: 0 <= k < n ==> short[k] == short[..n][k] == long[..n][k] == long[k];
  }

  lemma {:induction false} PrefixesAreViable(s: string, n: nat)
    requires n <= |s| && Viable(Split(s, '.'))
    ensures Viable(Split(s[..n], '.'))
    decreases |s|
  {
    if n == |s| {
      assert s[..n] == s;
    } else {
      LastCharacter(s, '.');
      ShorterIsViable(Split(s, '.'), Split(s[..|s| - 1], '.'), s[|s| - 1]);
      assert s[..|s| - 1][..n] == s[..n];
      PrefixesAreViable(s[..|s| - 1], n);
    }
  }

  /** A prefix that is no longer viable rules the whole string out. */
  lemma DeadPrefix(s: string, n: nat)
    requires n <= |s| && !Viable(Split(s[..n], '.'))
    ensures !IsQuad(s)
  {
    if IsQuad(s) {
      PrefixesAreViable(s, n);
    }
  }

  /** The scanner's variables after reading text whose fields are fs. */
  ghost predicate Scanned(fs: seq<string>, tmp: seq<byte>, tp: nat, octets: nat, sawDigit: bool) {
    && |fs| == tp + 1 && |tmp| == 4 && Viable(fs)
    && (sawDigit <==> fs[tp] != [])
    && octets == tp + (if sawDigit then 1 else 0)
    && forall k :: 0 <= k <= tp ==> tmp[k] == Number(fs[k], 10)
  }

  lemma ReadDigit(fs: seq<string>, tmp: seq<byte>, tp: nat, octets: nat, sawDigit: bool, ch: char)
    requires Scanned(fs, tmp, tp, octets, sawDigit) && IsDigit(ch)
    ensures var val := tmp[tp] * 10 + HexDigit(ch);
            if val > 255 then !Viable(Read(fs, '.', ch))
            else octets <= 3 + (if sawDigit then 1 else 0)
                 && Scanned(Read(fs, '.', ch), tmp[tp := val], tp, tp + 1, true)
  {
    var last := fs[tp] + [ch];
    assert last[..|last| - 1] == fs[tp];
    assert Extend(fs, ch)[tp] == last;
  }

  lemma ReadOther(fs: seq<string>, ch: char)
    requires |fs| > 0 && !IsDigit(ch) && (ch == '.' ==> fs[|fs| - 1] == [])
    ensures !Viable(Read(fs, '.', ch))
  {
    if ch == '.' {
      assert (fs + [[]])[|fs| - 1] == [];
    } else {
      var last := fs[|fs| - 1] + [ch];
      assert Extend(fs, ch)[|fs| - 1] == last && last[|last| - 1] == ch;
    }
  }

  /** The body of the loop: fails when the text read so far rules a dotted quad out. */
  method ReadChar(ch: char, tmp: array<byte>, tp: nat, octets: nat, sawDigit: bool, ghost fs: seq<string>)
    returns (ok: bool, tp': nat, octets': nat, sawDigit': bool)
    requires tmp.Length == 4 && tp < 4 && Scanned(fs, tmp[..], tp, octets, sawDigit)
    modifies tmp
    ensures ok <==> Viable(Read(fs, '.', ch))
    ensures ok ==> tp' < 4 && Scanned(Read(fs, '.', ch), tmp[..], tp', octets', sawDigit')
  {
    ok, tp', octets', sawDigit' := true, tp, octets, sawDigit;
    if IsDigit(ch) {
      ReadDigit(fs, tmp[..], tp, octets, sawDigit, ch);
      var val := tmp[tp] * 10 + HexDigit(ch);
      if val > 255 {
        return false, tp, octets, sawDigit;
      }
      tmp[tp] := val;
      if !sawDigit {
        octets' := octets + 1;
        if octets' > 4 {
          assert false;
        }
        sawDigit' := true;
      }
    } else if ch == '.' && sawDigit {
      if octets == 4 {
        return false, tp, octets, sawDigit;
      }
      tp' := tp + 1;
      tmp[tp'] := 0;
      sawDigit' := false;
    } else {
      ReadOther(fs, ch);
      return false, tp, octets, sawDigit;
    }
  }

  lemma AtEnd(src: string, tmp: seq<byte>, tp: nat, octets: nat, sawDigit: bool)
    requires tp < 4 && Scanned(Split(src, '.'), tmp, tp, octets, sawDigit)
    ensures octets >= 4 <==> IsQuad(src)
    ensures octets >= 4 ==> tmp == QuadBytes(src)
  {
  }

  method Scan(src: string) returns (ok: bool, tmp: array<byte>)
    ensures fresh(tmp) && tmp.Length == 4
    ensures ok <==> IsQuad(src)
    ensures ok ==> tmp[..] == QuadBytes(src)
  {
    tmp := new byte[4](_ => 0);
    var tp, octets, sawDigit := 0, 0, false;
    ghost var fs := Split(src[..0], '.');
    for i := 0 to |src|
      invariant fs == Split(src[..i], '.')
      invariant tp < 4 && Scanned(fs, tmp[..], tp, octets, sawDigit)
    {
      ok, tp, octets, sawDigit := ReadChar(src[i], tmp, tp, octets, sawDigit, fs);
      SplitStep(src, i, '.');
      fs := Read(fs, '.', src[i]);
      if !ok {
        DeadPrefix(src, i + 1);
        return;
      }
    }
    assert src[..|src|] == src;
    AtEnd(src, tmp[..], tp, octets, sawDigit);
    ok := octets >= 4;
  }

  /** Writes the four bytes at dst[at..] and returns 1 exactly for a dotted quad; else leaves dst alone. */
  method Pton4(src: string, dst: array<byte>, at: nat) returns (r: int)
    requires at + 4 <= dst.Length
    modifies dst
    ensures r == if IsQuad(src) then 1 else 0
    ensures dst[..] == if IsQuad(src) then old(dst[..at]) + QuadBytes(src) + old(dst[at + 4..]) else old(dst[..])
  {
    var ok, tmp := Scan(src);
    if !ok {
      return 0;
    }
    Copy(tmp, dst, at);
    return 1;
  }

  /** memcpy(dst + at, tmp, 4) */
  method Copy(tmp: array<byte>, dst: array<byte>, at: nat)
    requires tmp.Length == 4 && tmp != dst && at + 4 <= dst.Length
    modifies dst
    ensures dst[..] == old(dst[..at]) + tmp[..] + old(dst[at + 4..])
  {
    forall i | 0 <= i < 4 {
      dst[at + i] := tmp[i];
    }
  }
}
