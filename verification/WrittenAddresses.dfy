/** Addresses written out with the characters of the digit tables, and what the parsers make of them. */
module WrittenAddresses {
  import opened Octets
  import opened Wrappers
  import opened TextFields
  import opened Numerals
  import opened InetPton4
  import opened AddressText
  import opened AddressForms
  import opened InetPton6

  /** A text of decimal digits that stand for ds. */
  ghost predicate DecimalText(f: string, ds: seq<nat>) {
    f != [] && AllSpell(f, ds) && forall k :: 0 <= k < |ds| ==> ds[k] < 10
  }

  lemma DecimalTextIs(f: string, ds: seq<nat>)
    requires DecimalText(f, ds)
    ensures AllDigits(f) && Number(f, 10) == Weighed(ds, 10)
  {
    NumberIsWeighed(f, ds, 10);
    forall k | 0 <= k < |f| ensures IsDigit(f[k]) {
      DigitsExactly(f[k], ds[k]);
    }
  }

  function DigitValues(f: string): (ds: seq<nat>)
    requires AllHex(f)
    ensures |ds| == |f| && forall k :: 0 <= k < |f| ==> ds[k] == HexDigit(f[k])
  {
    seq(|f|, k requires 0 <= k < |f| => HexDigit(f[k]))
  }

  lemma DecimalTextOf(f: string)
    requires f != [] && AllDigits(f)
    ensures DecimalText(f, DigitValues(f))
  {
    forall k | 0 <= k < |f| ensures Spells(f[k], DigitValues(f)[k]) && DigitValues(f)[k] < 10 {
      DigitsExactly(f[k], HexDigit(f[k]));
    }
  }

  /** Four texts of decimal digits joined by dots, which stand for these octets. */
  ghost predicate QuadText(src: string, fs: seq<string>, values: seq<seq<nat>>, octets: seq<nat>) {
    && |fs| == |values| == |octets| == 4 && src == Join(fs, '.')
    && forall k :: 0 <= k < 4 ==> DecimalText(fs[k], values[k]) && Weighed(values[k], 10) == octets[k] <= 255
  }

  /** The texts taken for a dotted quad are exactly these, and their bytes are those octets. */
  lemma QuadsExactly(src: string)
    ensures IsQuad(src) <==> exists fs, values, octets :: QuadText(src, fs, values, octets)
    ensures forall fs, values, octets :: QuadText(src, fs, values, octets) ==> IsQuad(src) && QuadBytes(src) == octets
  {
    forall fs, values, octets | QuadText(src, fs, values, octets) ensures IsQuad(src) && QuadBytes(src) == octets {
      QuadReads(src, fs, values, octets);
    }
    if IsQuad(src) {
      var fs := Split(src, '.');
      JoinSplit(src, '.');
      forall k | 0 <= k < 4 ensures DecimalText(fs[k], DigitValues(fs[k])) {
        DecimalTextOf(fs[k]);
      }
      forall k | 0 <= k < 4 ensures Weighed(DigitValues(fs[k]), 10) == Number(fs[k], 10) {
        DecimalTextIs(fs[k], DigitValues(fs[k]));
      }
      var values := [DigitValues(fs[0]), DigitValues(fs[1]), DigitValues(fs[2]), DigitValues(fs[3])];
      assert QuadText(src, fs, values, QuadBytes(src));
    }
  }

  lemma QuadReads(src: string, fs: seq<string>, values: seq<seq<nat>>, octets: seq<nat>)
    requires QuadText(src, fs, values, octets)
    ensures IsQuad(src) && QuadBytes(src) == octets
  {
    forall k | 0 <= k < 4 ensures AllDigits(fs[k]) && Number(fs[k], 10) == octets[k] {
      DecimalTextIs(fs[k], values[k]);
    }
    SplitJoin(fs, '.');
  }

  /** Four octets in decimal, joined by dots. */
  function Dotted(octets: seq<byte>): string
    requires |octets| == 4
  {
    Join([Decimal(octets[0]), Decimal(octets[1]), Decimal(octets[2]), Decimal(octets[3])], '.')
  }

  lemma QuadOfFields(fs: seq<string>)
    requires |fs| == 4 && forall k :: 0 <= k < 4 ==> IsOctet(fs[k])
    ensures IsQuad(Join(fs, '.')) && Split(Join(fs, '.'), '.') == fs
  {
    SplitJoin(fs, '.');
  }

  lemma DottedReadsBack(octets: seq<byte>)
    requires |octets| == 4
    ensures IsQuad(Dotted(octets)) && QuadBytes(Dotted(octets)) == octets
  {
    var fs := [Decimal(octets[0]), Decimal(octets[1]), Decimal(octets[2]), Decimal(octets[3])];
    DecimalReadsBack(octets[0]);
    DecimalReadsBack(octets[1]);
    DecimalReadsBack(octets[2]);
    DecimalReadsBack(octets[3]);
    QuadOfFields(fs);
    assert octets == [octets[0], octets[1], octets[2], octets[3]];
  }

  /** Four octets written out, read back through the parser. */
  method Store4(octets: seq<byte>, dst: array<byte>) returns (r: int)
    requires |octets| == 4 <= dst.Length
    modifies dst
    ensures r == 1 && dst[..] == octets + old(dst[4..])
  {
    var src := Dotted(octets);
    DottedReadsBack(octets);
    r := ReadQuad(src, octets, dst);
  }

  method ReadQuad(src: string, octets: seq<byte>, dst: array<byte>) returns (r: int)
    requires IsQuad(src) && QuadBytes(src) == octets && dst.Length >= 4
    modifies dst
    ensures r == 1 && dst[..] == octets + old(dst[4..])
  {
    r := Pton4(src, dst, 0);
    assert old(dst[..0]) + QuadBytes(src) == octets;
  }

  type Group = g: nat | g < 0x1_0000

  /** One to four hexadecimal digits, in either case, that stand for the group. */
  ghost predicate Shows(f: string, g: Group) {
    1 <= |f| <= 4 && exists ds :: AllSpell(f, ds) && Weighed(ds, 16) == g
  }

  lemma ShowsExactly(f: string, g: Group)
    ensures Shows(f, g) <==> IsHextet(f) && Number(f, 16) == g
  {
    if ds :| AllSpell(f, ds) && Weighed(ds, 16) == g {
      NumberIsWeighed(f, ds, 16);
    }
    if IsHextet(f) && Number(f, 16) == g {
      forall k | 0 <= k < |f| ensures Spells(f[k], DigitValues(f)[k]) {
        DigitsExactly(f[k], HexDigit(f[k]));
      }
      NumberIsWeighed(f, DigitValues(f), 16);
    }
  }

  lemma HexadecimalShows(g: Group)
    ensures Shows(Hexadecimal(g), g)
  {
    HexadecimalReadsBack(g);
    HexadecimalLength(g);
    ShowsExactly(Hexadecimal(g), g);
  }

  ghost predicate AllShow(fs: seq<string>, gs: seq<Group>) {
    |fs| == |gs| && forall k :: 0 <= k < |fs| ==> Shows(fs[k], gs[k])
  }

  function Pair(g: Group): (bs: seq<byte>)
    ensures |bs| == 2
  {
    [g / 256, g % 256]
  }

  /** The groups in network order. */
  function BytesOf(gs: seq<Group>): (bs: seq<byte>)
    ensures |bs| == 2 * |gs|
  {
    if gs == [] then [] else BytesOf(gs[..|gs| - 1]) + Pair(gs[|gs| - 1])
  }

  lemma GroupShown(f: string, g: Group)
    requires Shows(f, g)
    ensures IsHextet(f) && FieldBytes(f) == Pair(g)
  {
    ShowsExactly(f, g);
    HextetIsGroup(f);
  }

  lemma {:induction false} BytesOfFields(fs: seq<string>, gs: seq<Group>)
    requires |fs| == |gs| && forall k :: 0 <= k < |fs| ==> FieldBytes(fs[k]) == Pair(gs[k])
    ensures Bytes(fs) == BytesOf(gs)
  {
    if fs != [] {
      BytesOfFields(fs[..|fs| - 1], gs[..|gs| - 1]);
    }
  }

  lemma AllShown(fs: seq<string>, gs: seq<Group>)
    requires AllShow(fs, gs)
    ensures Hextets(fs) && Bytes(fs) == BytesOf(gs)
  {
    forall k | 0 <= k < |fs| ensures IsHextet(fs[k]) && FieldBytes(fs[k]) == Pair(gs[k]) {
      GroupShown(fs[k], gs[k]);
    }
    BytesOfFields(fs, gs);
  }

  /** Eight groups read back. */
  lemma GroupsReadBack(src: string, fs: seq<string>, gs: seq<Group>)
    requires AllShow(fs, gs) && |gs| == 8 && src == Join(fs, ':')
    ensures Parse6(src) == Some(BytesOf(gs))
  {
    AllShown(fs, gs);
    FullFormParses(src, fs);
  }

  lemma ShownForm(src: string, pre: seq<string>, post: seq<string>, gs: seq<Group>, hs: seq<Group>)
    requires AllShow(pre, gs) && AllShow(post, hs) && |gs| + |hs| <= 7
    requires src == Join(pre, ':') + "::" + Join(post, ':')
    ensures CompressedForm(src, pre, post) && Bytes(pre) == BytesOf(gs) && Bytes(post) == BytesOf(hs)
  {
    AllShown(pre, gs);
    AllShown(post, hs);
  }

  /** So do up to seven of them, with zeros for the double colon. */
  lemma CompressedReadsBack(src: string, pre: seq<string>, post: seq<string>, gs: seq<Group>, hs: seq<Group>)
    requires AllShow(pre, gs) && AllShow(post, hs) && |gs| + |hs| <= 7
    requires src == Join(pre, ':') + "::" + Join(post, ':')
    ensures Parse6(src) == Some(Spread(BytesOf(gs), BytesOf(hs)))
  {
    ShownForm(src, pre, post, gs, hs);
    CompressedFormSpreads(src, pre, post);
  }

  /** What is spread out lies at both ends, with zeros between. */
  lemma SpreadEnds(a: seq<byte>, b: seq<byte>)
    requires |a| + |b| < 16
    ensures var r := Spread(a, b);
            && r[..|a|] == a && r[16 - |b|..] == b && forall k :: |a| <= k < 16 - |b| ==> r[k] == 0
  {
  }

  /** Six groups and a dotted quad read back. */
  lemma MixedReadsBack(src: string, fs: seq<string>, gs: seq<Group>, quad: string)
    requires AllShow(fs, gs) && |gs| == 6 && IsQuad(quad) && src == Join(fs + [quad], ':')
    ensures Parse6(src) == Some(BytesOf(gs) + QuadBytes(quad))
  {
    AllShown(fs, gs);
    QuadCharacters(quad);
    BytesConcat(fs, [quad]);
    assert [quad][..0] == [];
    FullFormParses(src, fs + [quad]);
  }

  method Store6(src: string, dst: array<byte>, ghost fs: seq<string>, ghost gs: seq<Group>) returns (r: int)
    requires AllShow(fs, gs) && |gs| == 8 && src == Join(fs, ':') && dst.Length >= 16
    modifies dst
    ensures r == 1 && dst[..] == BytesOf(gs) + old(dst[16..])
  {
    GroupsReadBack(src, fs, gs);
    r := Pton6(src, dst);
  }
}
